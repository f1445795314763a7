/**
 The summary object of a storage node: its two files, its writer and the live
 versions it updates (`Summary` in tskv/src/summary.rs; vnodes come and go
 through tskv/src/database.rs).
 */
module SummaryStore {
  import opened Wrappers
  import opened Summary
  import opened LiveVersion
  import opened SummaryRoll
  import opened SummaryNode

  datatype Path = SummaryFile | TmpFile

  class SummaryWriter {
    var files: map<Path, seq<VersionEdit>>
    var writer: Path
    var live: VersionSet
    ghost var edited: set<VnodeId>

    ghost predicate Valid()
      reads this
    {
      SummaryFile in files && writer in files && Inv(View())
    }

    ghost function View(): Node
      reads this
    {
      Node(if SummaryFile in files then files[SummaryFile] else [],
           if TmpFile in files then files[TmpFile] else [],
           writer == TmpFile, live, edited)
    }

    /** A new summary: the default edit alone. */
    constructor ()
      ensures Valid() && View() == NEW_NODE
    {
      files := map[SummaryFile := [DEFAULT_EDIT]];
      writer := SummaryFile;
      live := map[];
      edited := {};
      new;
      NewNodeInv();
    }

    method WriteRecord(e: VersionEdit)
      requires SummaryFile in files && writer in files
      modifies this`files
      ensures files.Keys == old(files.Keys) && View() == Recorded(old(View()), e)
    {
      files := files[writer := files[writer] + [e]];
    }

    /** The edit is written, then applied to the live version of its vnode. */
    method ApplyVersionEdit(e: VersionEdit)
      requires SummaryFile in files && writer in files
      requires e.tsfId in live && LiveVersion.Valid(live[e.tsfId]) && InRange(e)
      modifies this`files, this`live, this`edited
      ensures files.Keys == old(files.Keys)
      ensures View() == Recorded(old(View()), e).(
        live := old(live)[e.tsfId := Applied(old(live)[e.tsfId], e)], edited := old(edited) + {e.tsfId})
    {
      hide Applied;
      WriteRecord(e);
      var version := CopyApplyVersionEdits(live[e.tsfId], e);
      live := live[e.tsfId := version];
      edited := edited + {e.tsfId};
    }

    /** `create_tsfamily` and `add_tsfamily`: the empty version first, then the add edit. */
    method AddTsfamily(e: VersionEdit)
      requires Valid() && Enabled(View(), AddVnode(e))
      modifies this
      ensures Valid() && View() == Do(old(View()), AddVnode(e))
    {
      hide Inv, Applied, Tidy;
      StepKeepsInv(View(), AddVnode(e));
      NothingHeld(Fresh(e));
      ghost var before := live;
      live := live[e.tsfId := Fresh(e)];
      ApplyVersionEdit(e);
      assert live == before[e.tsfId := Applied(Fresh(e), e)];
    }

    /** A flush or a compaction of a live vnode. */
    method Update(e: VersionEdit)
      requires Valid() && Enabled(View(), UpdateVnode(e))
      modifies this
      ensures Valid() && View() == Do(old(View()), UpdateVnode(e))
    {
      hide Applied, Tidy, Stamps, Sound, Described;
      StepKeepsInv(View(), UpdateVnode(e));
      ApplyVersionEdit(e);
    }

    /** `del_tsfamily`: nothing to do for a vnode that is not there. */
    method DelTsfamily(v: VnodeId)
      requires Valid()
      modifies this
      ensures Valid()
      ensures View() == if v in old(live) then Do(old(View()), RemoveVnode(v)) else old(View())
    {
      hide Inv;
      if v in live {
        StepKeepsInv(View(), RemoveVnode(v));
        var tf := live[v];
        live := live - {v};
        edited := edited - {v};
        WriteRecord(NewDelVnode(v, tf.owner, tf.lastSeq));
      }
    }

    method Rename(from: Path, to: Path)
      requires from in files
      modifies this`files
      ensures files == if from == to then old(files) else (old(files) - {from})[to := old(files)[from]]
    {
      if from != to {
        files := (files - {from})[to := files[from]];
      }
    }

    /**
     `roll_summary_file`, once the file is large enough. The target of the
     rename is the path of the writer, which has been moved by then.
     */
    method RollSummaryFile(large: bool) returns (requests: seq<VersionEdit>)
      requires Valid()
      modifies this
      ensures Valid()
      ensures !large ==> View() == old(View())
      ensures large ==> Enabled(old(View()), Roll(requests)) && View() == Do(old(View()), Roll(requests))
    {
      if !large {
        requests := [];
        return;
      }
      hide Inv, Applied, Built, IsRolledLog, PartlyRolled;
      var newPath := TmpFile;
      ghost var before := View();
      assert Mirrored(live, Described(before)) by { MirroredNow(before); }
      var edits := TsFamiliesVersionEdit(live);
      requests := edits;
      StepKeepsInv(before, Roll(edits));
      files := files[newPath := []];
      writer := newPath;
      RollStarts(before, edits);
      for k := 0 to |edits|
        invariant SummaryFile in files && writer == TmpFile && writer in files
        invariant View() == PartlyRolled(before, edits, k)
      {
        NextRequest(before, edits, k);
        ApplyVersionEdit(edits[k]);
      }
      RollEnds(before, edits);
      var oldPath := writer;
      Rename(newPath, oldPath);
      writer := oldPath;
    }

    /** `recover`: everything is read from the summary file; a failed lookup leaves the node down. */
    method Recover(schema: string -> Schema) returns (ok: bool)
      requires Valid()
      modifies this
      ensures Valid()
      ensures ok <==> var st := Replayed(NO_VNODES, old(View()).main); NoLookupFails(st, st.Keys, schema)
      ensures ok ==> Enabled(old(View()), Restart(schema, live)) && View() == Do(old(View()), Restart(schema, live))
      ensures !ok ==> View() == old(View())
    {
      hide Inv, Opened, KnownVersions, IsHighest, NoLookupFails, Replayed, EditsOf;
      ghost var before := View();
      ghost var st := Replayed(NO_VNODES, before.main);
      var log := files[SummaryFile];
      RecordsAreEdits(log);
      var recovered := RecoverVersion(Records(log), schema);
      if recovered.Err? {
        return false;
      }
      var reopened := OpenVersions(recovered.value.versions, before, schema);
      StepKeepsInv(before, Restart(schema, reopened));
      live := reopened;
      writer := SummaryFile;
      edited := {};
      ok := true;
    }
  }

  // ---------------------------------------------------------------- rolling, request by request

  function Rolled(edits: seq<VersionEdit>): set<VnodeId> {
    set k | 0 <= k < |edits| :: edits[k].tsfId
  }

  lemma MirroredNow(n: Node)
    requires Inv(n)
    ensures Mirrored(n.live, Described(n))
  {
  }

  /** The node after the first `k` requests of a roll. */
  ghost function PartlyRolled(n: Node, edits: seq<VersionEdit>, k: nat): Node
    requires k <= |edits|
  {
    var done := Rolled(edits[..k]);
    Node(n.main, edits[..k], true,
         map v | v in n.live :: if v in done then Applied(n.live[v], Built(n.live[v])) else n.live[v],
         n.edited + done)
  }

  lemma RollStarts(n: Node, edits: seq<VersionEdit>)
    ensures PartlyRolled(n, edits, 0) == Node(n.main, [], true, n.live, n.edited)
  {
    hide Applied, Built;
    assert edits[..0] == [] && Rolled([]) == {} && n.edited + {} == n.edited;
  }

  lemma RollEnds(n: Node, edits: seq<VersionEdit>)
    requires Inv(n) && IsRolledLog(n.live, edits)
    ensures PartlyRolled(n, edits, |edits|) == Do(n, Roll(edits))
  {
    hide Applied, Built, Inv, IsRolledLog;
    assert edits[..|edits|] == edits;
    AllRolled(n, edits);
    assert PartlyRolled(n, edits, |edits|).live == Rerolled(n.live);
  }

  /** The next request belongs to a live vnode not visited yet, and names levels that exist. */
  lemma NextRequest(n: Node, edits: seq<VersionEdit>, k: nat)
    requires Inv(n) && IsRolledLog(n.live, edits) && k < |edits|
    ensures var v, now := edits[k].tsfId, PartlyRolled(n, edits, k);
            && v in now.live && LiveVersion.Valid(now.live[v]) && InRange(edits[k])
            && PartlyRolled(n, edits, k + 1) ==
               Recorded(now, edits[k]).(
                 live := now.live[v := Applied(now.live[v], edits[k])], edited := now.edited + {v})
  {
    hide Built, Mirrors, Stamps, Sound, Described, Applied, Rolled, LiveVersion.Valid;
    var v, now := edits[k].tsfId, PartlyRolled(n, edits, k);
    BuiltIsInRange(n.live[v], Described(n)[v].version);
    RolledGrows(edits, k);
    var next := PartlyRolled(n, edits, k + 1);
    assert edits[..k + 1] == edits[..k] + [edits[k]];
    assert next.live == now.live[v := Applied(now.live[v], edits[k])];
    assert next.edited == now.edited + {v};
  }

  lemma RolledGrows(edits: seq<VersionEdit>, k: nat)
    requires k < |edits| && forall i, j :: 0 <= i < j < |edits| ==> edits[i].tsfId != edits[j].tsfId
    ensures edits[k].tsfId !in Rolled(edits[..k])
    ensures Rolled(edits[..k + 1]) == Rolled(edits[..k]) + {edits[k].tsfId}
  {
    var a, b := edits[..k + 1], edits[..k];
    assert forall j :: 0 <= j < k ==> a[j] == b[j];
    forall u | u in Rolled(b) ensures u in Rolled(a) {
      var j :| 0 <= j < k && b[j].tsfId == u;
      assert a[j].tsfId == u;
    }
    assert a[k].tsfId == edits[k].tsfId;
  }

  lemma BuiltIsInRange(l: Live, version: Version)
    requires Mirrors(l, version)
    ensures LiveVersion.Valid(l) && InRange(Built(l))
  {
    hide Listing, AddedFiles;
    var metas := Listing(l.levels);
    MirrorLists(l, version);
    AddedFilesFields(NewAddVnode(l.vnode, l.owner, l.lastSeq), metas, l.maxLevelTs);
    assert Built(l).addFiles == [] + metas == metas;
  }

  lemma AllRolled(n: Node, edits: seq<VersionEdit>)
    requires Inv(n) && IsRolledLog(n.live, edits)
    ensures Rolled(edits) == n.live.Keys && n.edited + Rolled(edits) == n.live.Keys
  {
    forall v | v in n.live ensures v in Rolled(edits) {
      assert Mentions(edits, v);
    }
  }

  // ---------------------------------------------------------------- recovery

  function Records(log: seq<VersionEdit>): seq<Record> {
    seq(|log|, k requires 0 <= k < |log| => Edit(log[k]))
  }

  lemma {:induction false} RecordsAreEdits(log: seq<VersionEdit>)
    ensures Unreadable !in Records(log) && EditsOf(Records(log)) == log
  {
    if log != [] {
      var init := log[..|log| - 1];
      RecordsAreEdits(init);
      assert Records(log)[..|log| - 1] == Records(init);
    }
  }

  /** Opening every recovered version, in any order. */
  method OpenVersions(versions: map<VnodeId, Version>, ghost n: Node, ghost schema: string -> Schema)
    returns (live: VersionSet)
    requires Inv(n)
    requires var st := Replayed(NO_VNODES, n.main);
             NoLookupFails(st, st.Keys, schema) && versions == KnownVersions(st, st.Keys, schema)
    ensures Reopens(live, n.main, schema)
  {
    hide Opened, Replayed, Mirrored, Stamps, Described, NoLookupFails;
    live := map[];
    var rest := versions.Keys;
    while rest != {}
      invariant rest <= versions.Keys && live.Keys == versions.Keys - rest
      invariant forall v :: v in live ==> Opened(live[v], v, versions[v])
      decreases |rest|
    {
      var v :| v in rest;
      var l := OpenVersion(v, versions[v]);
      live := live[v := l];
      rest := rest - {v};
    }
  }
}
