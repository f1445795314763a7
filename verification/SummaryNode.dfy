/**
 A storage node's summary over its whole life: vnodes are added, updated and
 removed, the summary is rolled, the node restarts (`Summary` in
 tskv/src/summary.rs, with the callers in tskv/src/database.rs).

 There are two files. Recovery reads the summary file and appends to it. A roll
 writes to the temporary file and goes on appending there: the path it renames
 the temporary file to is taken from the writer after the writer has been
 moved, and so is the temporary file itself.
 */
module SummaryNode {
  import opened Wrappers
  import opened Summary
  import opened LiveVersion
  import opened SummaryRoll

  /** `edited` holds the vnodes whose live version has had an edit applied since it was opened. */
  datatype Node = Node(
    main: seq<VersionEdit>, tmp: seq<VersionEdit>, onTmp: bool, live: VersionSet, edited: set<VnodeId>)

  datatype NodeStep =
    | AddVnode(edit: VersionEdit)
    | UpdateVnode(edit: VersionEdit)
    | RemoveVnode(vnode: VnodeId)
    | Roll(log: seq<VersionEdit>)
    | Restart(schema: string -> Schema, live: VersionSet)

  /** The file that edits are appended to. */
  function Current(n: Node): seq<VersionEdit> {
    if n.onTmp then n.tmp else n.main
  }

  function Described(n: Node): State {
    Replayed(NO_VNODES, Current(n))
  }

  function Recorded(n: Node, e: VersionEdit): Node {
    if n.onTmp then n.(tmp := n.tmp + [e]) else n.(main := n.main + [e])
  }

  /** The version a vnode is created with, before its add edit is applied. */
  function Fresh(e: VersionEdit): Live {
    Live(e.tsfId, e.tsfName, e.seqNo, e.maxLevelTs, InitLevels(e.tsfId))
  }

  function NewDelVnode(v: VnodeId, owner: string, seqNo: nat): VersionEdit {
    VersionEdit(seqNo, 0, I64_MIN, [], [], [], Delete, v, owner)
  }

  /** A new summary starts with the default edit, which updates a vnode that is not there. */
  const DEFAULT_EDIT: VersionEdit := VersionEdit(0, 0, I64_MIN, [], [], [], Update, 0, "")

  const NEW_NODE: Node := Node([DEFAULT_EDIT], [], false, map[], {})

  /** What recovery opens: the vnodes of the log whose database is known. */
  ghost predicate Reopens(live: VersionSet, log: seq<VersionEdit>, schema: string -> Schema) {
    var st := Replayed(NO_VNODES, log);
    var known := KnownVersions(st, st.Keys, schema);
    && NoLookupFails(st, st.Keys, schema)
    && live.Keys == known.Keys && forall v :: v in live ==> Opened(live[v], v, known[v])
  }

  ghost predicate Enabled(n: Node, s: NodeStep) {
    match s
    case AddVnode(e) => e.action.Add? && e.tsfId !in n.live && Proper(e) && Tidy(NO_FILES, e)
    case UpdateVnode(e) =>
      && e.action.Update? && e.tsfId in n.live && e.tsfId in Described(n) && Proper(e)
      && Tidy(Described(n)[e.tsfId].version.files, e)
    case RemoveVnode(v) => v in n.live
    case Roll(log) => IsRolledLog(n.live, log)
    case Restart(schema, live) => Reopens(live, n.main, schema)
  }

  /** Rolling applies every rolled edit to the live version it was built from. */
  function Rerolled(live: VersionSet): VersionSet {
    map v | v in live :: Applied(live[v], Built(live[v]))
  }

  ghost function Do(n: Node, s: NodeStep): Node
    requires Enabled(n, s)
  {
    match s
    case AddVnode(e) =>
      Recorded(n, e).(live := n.live[e.tsfId := Applied(Fresh(e), e)], edited := n.edited + {e.tsfId})
    case UpdateVnode(e) =>
      Recorded(n, e).(live := n.live[e.tsfId := Applied(n.live[e.tsfId], e)], edited := n.edited + {e.tsfId})
    case RemoveVnode(v) =>
      Recorded(n, NewDelVnode(v, n.live[v].owner, n.live[v].lastSeq)).(live := n.live - {v}, edited := n.edited - {v})
    case Roll(log) => Node(n.main, log, true, Rerolled(n.live), n.live.Keys)
    case Restart(schema, live) => Node(n.main, n.tmp, false, live, {})
  }

  ghost predicate CanRun(n: Node, steps: seq<NodeStep>)
    decreases |steps|
  {
    steps == [] || (Enabled(n, steps[0]) && CanRun(Do(n, steps[0]), steps[1..]))
  }

  ghost function Run(n: Node, steps: seq<NodeStep>): Node
    requires CanRun(n, steps)
    decreases |steps|
  {
    if steps == [] then n else Run(Do(n, steps[0]), steps[1..])
  }

  lemma RunOne(n: Node, s: NodeStep, rest: seq<NodeStep>)
    requires Enabled(n, s) && CanRun(Do(n, s), rest)
    ensures CanRun(n, [s] + rest) && Run(n, [s] + rest) == Run(Do(n, s), rest)
  {
    hide Enabled, Do;
    assert ([s] + rest)[0] == s && ([s] + rest)[1..] == rest;
  }

  // ---------------------------------------------------------------- live versions follow the log

  /** `ts` is the greatest timestamp of the files, the least of all if there is none. */
  ghost predicate IsHighestTs(files: Files, ts: int) {
    && ts >= I64_MIN && (forall id :: id in files ==> files[id].maxTs <= ts)
    && (ts == I64_MIN || exists id :: id in files && files[id].maxTs == ts)
  }

  /** The live level timestamp is that of the log until an edit is applied; from then on that of the files. */
  ghost predicate Stamps(l: Live, version: Version, edited: bool) {
    if edited then IsHighestTs(version.files, l.maxLevelTs) else l.maxLevelTs == version.maxLevelTs
  }

  ghost predicate Sound(st: State) {
    forall v :: v in st ==> PlainFiles(v, st[v].version.files) && st[v].version.maxLevelTs >= I64_MIN
  }

  ghost predicate Inv(n: Node) {
    var st := Described(n);
    && Sound(Replayed(NO_VNODES, n.main)) && Sound(st) && Mirrored(n.live, st) && n.edited <= n.live.Keys
    && forall v :: v in n.live ==> Stamps(n.live[v], st[v].version, v in n.edited)
  }

  /** Recording an edit steps the described state, whatever happens to the live versions meanwhile. */
  lemma RecordedIs(n: Node, e: VersionEdit, m: Node)
    requires m == Recorded(n, e).(live := m.live, edited := m.edited)
    requires Sound(Replayed(NO_VNODES, n.main)) && Sound(Described(n)) && (Proper(e) || e.action.Delete?)
    ensures Described(m) == Step(Described(n), e)
    ensures Sound(Replayed(NO_VNODES, m.main)) && Sound(Described(m))
  {
    hide Sound, Proper, Step;
    var log := Current(n);
    assert (log + [e])[..|log|] == log && (n.main + [e])[..|n.main|] == n.main;
    StepIsSound(Described(n), e);
    StepIsSound(Replayed(NO_VNODES, n.main), e);
  }

  lemma StepIsSound(st: State, e: VersionEdit)
    requires Sound(st) && (Proper(e) || e.action.Delete?)
    ensures Sound(Step(st, e))
  {
    hide Proper, PlainFiles, Inserted, Removed;
    if !e.action.Delete? {
      assert PlainFiles(e.tsfId, NO_FILES) by { NoFilesArePlain(e.tsfId); }
      EditedIsPlain(e.tsfId, NO_FILES, e);
      if e.tsfId in st {
        EditedIsPlain(e.tsfId, st[e.tsfId].version.files, e);
      }
    }
  }

  lemma NoFilesArePlain(v: VnodeId)
    ensures PlainFiles(v, NO_FILES)
  {
  }

  /** After any edit the live level timestamp is the greatest of the files. */
  lemma AppliedStamps(l: Live, e: VersionEdit, version: Version)
    requires Mirrors(Applied(l, e), version)
    ensures Stamps(Applied(l, e), version, true)
  {
    hide AppliedLevels, Highest;
    var r := Applied(l, e);
    HighestIs(r.levels);
    forall id | id in version.files ensures version.files[id].maxTs <= r.maxLevelTs {
      assert Holds(r, FileOf(version.files[id]));
    }
    if r.maxLevelTs != I64_MIN {
      var i, f :| 0 <= i < |r.levels| && f in r.levels[i].files && f.maxTs == r.maxLevelTs;
      assert ValidLevel(r.levels[i], i);
      assert Holds(r, f);
      assert version.files[f.fileId].maxTs == r.maxLevelTs;
    }
  }

  /** A new vnode mirrors its add edit. */
  lemma AddedMirrors(e: VersionEdit)
    requires Proper(e) && Tidy(NO_FILES, e)
    ensures Mirrors(Applied(Fresh(e), e), Edited(Blank(e.tsfName), e).version)
  {
    hide Tidy, Proper, Valid, AppliedLevels, Inserted, Removed;
    var start := Live(e.tsfId, e.tsfName, e.seqNo, I64_MIN, InitLevels(e.tsfId));
    var v := Vnode(Version(e.tsfName, NO_FILES, e.seqNo, I64_MIN), 0);
    NothingHeld(start);
    MirrorsIffTidy(start, v, e);
    assert Applied(start, e) == Applied(Fresh(e), e) by { AppliedIgnoresTs(start, Fresh(e), e); }
  }

  lemma AppliedIgnoresTs(l: Live, m: Live, e: VersionEdit)
    requires m == l.(maxLevelTs := m.maxLevelTs)
    ensures Applied(l, e) == Applied(m, e)
  {
    assert AppliedLevels(l, e) == AppliedLevels(m, e);
  }

  /** The rolled edit, applied to its own version, lists every file again and changes nothing else. */
  lemma RerolledMirrors(l: Live, version: Version)
    requires Mirrors(l, version)
    ensures Mirrors(Applied(l, Built(l)), ReadBack(version.(maxLevelTs := l.maxLevelTs)))
  {
    hide AppliedLevels, Listing, AddedFiles, Highest, IdsAt, Valid;
    var e, metas := Built(l), Listing(l.levels);
    MirrorLists(l, version);
    AddedFilesFields(NewAddVnode(l.vnode, l.owner, l.lastSeq), metas, l.maxLevelTs);
    assert e.addFiles == [] + metas == metas && e.delFiles == [];
    assert InRange(e);
    AppliedHolds(l, e);
    HighestIs(AppliedLevels(l, e));
    assert IdsAtNone() by { NoIds(); }
    forall f ensures Holds(Applied(l, e), f) <==> Holds(l, f) {
      if Adds(e, f) {
        var k :| 0 <= k < |e.addFiles| && FileOf(e.addFiles[k]) == f;
        assert version.files[metas[k].fileId] == metas[k];
      }
    }
  }

  ghost predicate IdsAtNone() {
    forall i: nat :: IdsAt([], i) == {}
  }

  lemma NoIds()
    ensures IdsAtNone()
  {
  }

  /** The invariant after an edit of one vnode, given how that vnode fares. */
  lemma VnodeChanged(n: Node, e: VersionEdit, m: Node)
    requires Inv(n) && (Proper(e) || e.action.Delete?)
    requires m == Recorded(n, e).(live := m.live, edited := m.edited)
    requires m.edited - {e.tsfId} == n.edited - {e.tsfId} && m.live - {e.tsfId} == n.live - {e.tsfId}
    requires var v, st := e.tsfId, Step(Described(n), e);
             if v in m.live
             then && v in st && m.live[v].vnode == v && v in m.edited
                  && Mirrors(m.live[v], st[v].version) && Stamps(m.live[v], st[v].version, true)
             else v !in m.edited
    ensures Inv(m)
  {
    hide Mirrors, Stamps, Sound, Recorded, Described, Proper, Edited;
    RecordedIs(n, e, m);
    var st, after := Described(n), Described(m);
    forall u | u in m.live
      ensures u in after && m.live[u].vnode == u && Mirrors(m.live[u], after[u].version)
      ensures Stamps(m.live[u], after[u].version, u in m.edited)
    {
      if u != e.tsfId {
        assert u in m.live - {e.tsfId} && (m.live - {e.tsfId})[u] == (n.live - {e.tsfId})[u];
        assert u in m.edited <==> u in m.edited - {e.tsfId};
        assert u in n.edited <==> u in n.edited - {e.tsfId};
      }
    }
    forall u | u in m.edited ensures u in m.live {
      if u != e.tsfId {
        assert u in m.edited - {e.tsfId} && u in n.edited - {e.tsfId};
        assert u in n.live - {e.tsfId} && u in m.live - {e.tsfId};
      }
    }
  }

  lemma AddKeepsInv(n: Node, e: VersionEdit)
    requires Inv(n) && Enabled(n, AddVnode(e))
    ensures Inv(Do(n, AddVnode(e)))
  {
    hide Inv, Tidy, Proper, Mirrors, Applied, Edited, Stamps, Recorded, Described;
    AddedMirrors(e);
    AppliedStamps(Fresh(e), e, Edited(Blank(e.tsfName), e).version);
    AppliedVnode(Fresh(e), e);
    RecordedKeeps(n, e);
    VnodeChanged(n, e, Do(n, AddVnode(e)));
  }

  lemma UpdateKeepsInv(n: Node, e: VersionEdit)
    requires Inv(n) && Enabled(n, UpdateVnode(e))
    ensures Inv(Do(n, UpdateVnode(e)))
  {
    hide Tidy, Proper, Mirrors, Applied, Edited, Stamps, Sound, Recorded, Described;
    var l, v := n.live[e.tsfId], Described(n)[e.tsfId];
    MirrorsIffTidy(l, v, e);
    AppliedStamps(l, e, Edited(v, e).version);
    AppliedVnode(l, e);
    RecordedKeeps(n, e);
    VnodeChanged(n, e, Do(n, UpdateVnode(e)));
  }

  lemma RemoveKeepsInv(n: Node, v: VnodeId)
    requires Inv(n) && v in n.live
    ensures Inv(Do(n, RemoveVnode(v)))
  {
    hide Inv, Mirrors, Stamps, Recorded, Described, Proper;
    var e := NewDelVnode(v, n.live[v].owner, n.live[v].lastSeq);
    RecordedKeeps(n, e);
    VnodeChanged(n, e, Do(n, RemoveVnode(v)));
  }

  lemma RecordedKeeps(n: Node, e: VersionEdit)
    ensures Recorded(n, e).live == n.live && Recorded(n, e).edited == n.edited && Recorded(n, e).onTmp == n.onTmp
  {
  }

  lemma AppliedVnode(l: Live, e: VersionEdit)
    ensures Applied(l, e).vnode == l.vnode
  {
  }

  lemma RollKeepsInv(n: Node, log: seq<VersionEdit>)
    requires Inv(n) && IsRolledLog(n.live, log)
    ensures Inv(Do(n, Roll(log)))
  {
    hide Mirrors, Stamps, IsRolledLog, ReadBack, Built, Applied, IsLargestId, Replayed;
    var st, m := Described(n), Do(n, Roll(log));
    RolledLogRecovers(n.live, st, log);
    var back, versions := Described(m), LiveVersions(n.live, st);
    assert back == Replayed(NO_VNODES, log);
    forall v | v in n.live
      ensures m.live[v].vnode == v && Mirrors(m.live[v], back[v].version) && Stamps(m.live[v], back[v].version, true)
      ensures PlainFiles(v, back[v].version.files) && back[v].version.maxLevelTs >= I64_MIN
    {
      RerolledMirrors(n.live[v], st[v].version);
      AppliedVnode(n.live[v], Built(n.live[v]));
      AppliedStamps(n.live[v], Built(n.live[v]), back[v].version);
      MirrorIsSound(m.live[v], back[v].version);
    }
  }

  lemma MirrorIsSound(l: Live, version: Version)
    requires Mirrors(l, version)
    ensures PlainFiles(l.vnode, version.files) && version.maxLevelTs >= I64_MIN
  {
  }

  lemma RestartKeepsInv(n: Node, schema: string -> Schema, live: VersionSet)
    requires Inv(n) && Reopens(live, n.main, schema)
    ensures Inv(Do(n, Restart(schema, live)))
  {
    hide Mirrors, Sound, Replayed;
  }

  lemma StepKeepsInv(n: Node, s: NodeStep)
    requires Inv(n) && Enabled(n, s)
    ensures Inv(Do(n, s))
  {
    hide Inv, Do;
    match s
    case AddVnode(e) => AddKeepsInv(n, e);
    case UpdateVnode(e) => UpdateKeepsInv(n, e);
    case RemoveVnode(v) => RemoveKeepsInv(n, v);
    case Roll(log) => RollKeepsInv(n, log);
    case Restart(schema, live) => RestartKeepsInv(n, schema, live);
  }

  lemma {:induction false} RunKeepsInv(n: Node, steps: seq<NodeStep>)
    requires Inv(n) && CanRun(n, steps)
    ensures Inv(Run(n, steps))
    decreases |steps|
  {
    hide Inv, Enabled, Do;
    if steps != [] {
      StepKeepsInv(n, steps[0]);
      RunKeepsInv(Do(n, steps[0]), steps[1..]);
    }
  }

  lemma NewNodeInv()
    ensures Inv(NEW_NODE)
  {
    assert [DEFAULT_EDIT][..0] == [];
    assert Replayed(NO_VNODES, []) == NO_VNODES;
    assert Described(NEW_NODE) == NO_VNODES;
  }

  /** In every state a node can reach, each live version holds exactly what the current file says of it. */
  lemma LiveMirrorsLog(steps: seq<NodeStep>)
    requires CanRun(NEW_NODE, steps)
    ensures var n := Run(NEW_NODE, steps); Mirrored(n.live, Described(n))
  {
    hide Enabled, Do, Mirrored;
    NewNodeInv();
    RunKeepsInv(NEW_NODE, steps);
  }

  // ---------------------------------------------------------------- rolling

  /** What a roll of this vnode would write as its level timestamp is what the file says. */
  ghost predicate RollKeepsTs(version: Version, edited: bool) {
    if edited then IsHighestTs(version.files, version.maxLevelTs)
    else version.files != map[] || version.maxLevelTs == I64_MIN
  }

  /**
   In every state a node can reach, a roll is transparent exactly when every
   vnode of the file is live, and the file's level timestamp of each is the
   greatest timestamp of its files, or, if no edit has been applied since it
   was opened, it has files or no level timestamp.
   */
  lemma RollIsTransparent(steps: seq<NodeStep>, rolled: seq<VersionEdit>)
    requires CanRun(NEW_NODE, steps) && IsRolledLog(Run(NEW_NODE, steps).live, rolled)
    ensures var n := Run(NEW_NODE, steps); var st := Described(n);
            (forall more :: SameVersions(Replayed(NO_VNODES, Current(n) + more), Replayed(NO_VNODES, rolled + more)))
            <==> forall v :: v in st ==> v in n.live && RollKeepsTs(st[v].version, v in n.edited)
  {
    hide Enabled, Do, CanRun, Run, SameVersions, IsRolledLog, Replayed, RollKeepsTs, WrittenTs, Stamps, Mirrors;
    NewNodeInv();
    RunKeepsInv(NEW_NODE, steps);
    var n := Run(NEW_NODE, steps);
    var st := Described(n);
    RollingIsTransparent(n.live, Current(n), rolled);
    forall v | v in n.live
      ensures st[v].version.maxLevelTs == WrittenTs(n.live[v], st[v].version.files) <==>
              RollKeepsTs(st[v].version, v in n.edited)
    {
      StampsDecide(n.live[v], st[v].version, v in n.edited);
    }
  }

  lemma StampsDecide(l: Live, version: Version, edited: bool)
    requires Stamps(l, version, edited)
    ensures version.maxLevelTs == WrittenTs(l, version.files) <==> RollKeepsTs(version, edited)
  {
    if edited && IsHighestTs(version.files, version.maxLevelTs) {
      SameHighest(version.files, l.maxLevelTs, version.maxLevelTs);
    }
  }

  lemma SameHighest(files: Files, a: int, b: int)
    requires IsHighestTs(files, a) && IsHighestTs(files, b)
    ensures a == b && (files == map[] ==> a == I64_MIN)
  {
  }

  // ---------------------------------------------------------------- restarting after a roll

  ghost predicate NoRestart(steps: seq<NodeStep>) {
    forall k :: 0 <= k < |steps| ==> !steps[k].Restart?
  }

  ghost predicate OnlyEdits(steps: seq<NodeStep>) {
    forall k :: 0 <= k < |steps| ==> !steps[k].Restart? && !steps[k].Roll?
  }

  /** Once a node has rolled, nothing but a restart touches the summary file: that is what the restart reads. */
  lemma {:induction false} SummaryFileIsFrozen(n: Node, steps: seq<NodeStep>)
    requires n.onTmp && CanRun(n, steps) && NoRestart(steps)
    ensures Run(n, steps).onTmp && Run(n, steps).main == n.main
    decreases |steps|
  {
    hide Enabled;
    if steps != [] {
      assert forall k :: 0 <= k < |steps[1..]| ==> steps[1..][k] == steps[k + 1];
      SummaryFileIsFrozen(Do(n, steps[0]), steps[1..]);
    }
  }

  lemma {:induction false} EditsStayOnFile(n: Node, steps: seq<NodeStep>)
    requires !n.onTmp && CanRun(n, steps) && OnlyEdits(steps)
    ensures !Run(n, steps).onTmp
    decreases |steps|
  {
    hide Enabled;
    if steps != [] {
      assert forall k :: 0 <= k < |steps[1..]| ==> steps[1..][k] == steps[k + 1];
      EditsStayOnFile(Do(n, steps[0]), steps[1..]);
    }
  }

  /** Whatever edits follow, a restart would read a file that describes the same versions as the current one. */
  ghost predicate RestartKeepsEdits(n: Node) {
    forall steps :: CanRun(n, steps) && OnlyEdits(steps) ==> SurvivesRestart(Run(n, steps))
  }

  ghost predicate SurvivesRestart(n: Node) {
    SameVersions(Described(n), Replayed(NO_VNODES, n.main))
  }

  /** Edits survive a restart exactly if the node has not rolled its summary since it started. */
  lemma EditsSurviveIffNotRolled(n: Node)
    ensures RestartKeepsEdits(n) <==> !n.onTmp
  {
    hide CanRun, Run, SameVersions, Replayed;
    if n.onTmp {
      var v := UnusedVnode(n.live.Keys + Replayed(NO_VNODES, n.main).Keys);
      AddIsForgotten(n, v);
    } else {
      forall steps | CanRun(n, steps) && OnlyEdits(steps) ensures SurvivesRestart(Run(n, steps)) {
        EditsStayOnFile(n, steps);
        SameAsItself(Described(Run(n, steps)));
      }
    }
  }

  lemma SameAsItself(st: State)
    ensures SameVersions(st, st)
  {
  }

  lemma {:induction false} UnusedVnode(used: set<VnodeId>) returns (v: VnodeId)
    ensures v !in used && forall u :: u in used ==> u < v
  {
    if used == {} {
      v := 0;
    } else {
      var u :| u in used;
      var w := UnusedVnode(used - {u});
      v := if w <= u then u + 1 else w;
      assert forall x :: x in used ==> x == u || x in used - {u};
    }
  }

  lemma AddIsForgotten(n: Node, v: VnodeId)
    requires n.onTmp && v !in n.live && v !in Replayed(NO_VNODES, n.main)
    ensures !RestartKeepsEdits(n)
  {
    hide Applied, Edited;
    var e := NewAddVnode(v, "cnosdb.public", 0);
    var steps := [AddVnode(e)] + [];
    assert Enabled(n, AddVnode(e));
    RunOne(n, AddVnode(e), []);
    var m := Run(n, steps);
    assert m.main == n.main && OnlyEdits(steps);
    assert (n.tmp + [e])[..|n.tmp|] == n.tmp;
    assert v in Described(m);
    assert !SurvivesRestart(m);
  }

  // ---------------------------------------------------------------- where rolling is not transparent

  const V: VnodeId := 7
  const OWNER: string := "cnosdb.public"
  const FLUSHED: CompactMeta := CompactMeta(1, 10, V, 0, 0, 100, true)
  const COMPACTED: CompactMeta := CompactMeta(2, 10, V, 1, 0, 50, false)
  const CREATION: VersionEdit := NewAddVnode(V, OWNER, 0)
  const FLUSH: VersionEdit := VersionEdit(1, 1, 100, [FLUSHED], [], [], Update, V, OWNER)
  const COMPACTION: VersionEdit := VersionEdit(0, 2, 100, [COMPACTED], [FLUSHED], [], Update, V, "")

  /** What the three edits describe. */
  lemma CompactionDescribed(log: seq<VersionEdit>)
    requires V !in Replayed(NO_VNODES, log)
    ensures var one, two, three := log + [CREATION], log + [CREATION, FLUSH], log + [CREATION, FLUSH, COMPACTION];
            && Replayed(NO_VNODES, one) == Replayed(NO_VNODES, log)[V := Blank(OWNER)]
            && Replayed(NO_VNODES, two) ==
               Replayed(NO_VNODES, log)[V := Vnode(Version(OWNER, map[1 := FLUSHED], 1, 100), 1)]
            && Replayed(NO_VNODES, three) ==
               Replayed(NO_VNODES, log)[V := Vnode(Version(OWNER, map[2 := COMPACTED], 1, 100), 2)]
  {
    var one, two, three := log + [CREATION], log + [CREATION, FLUSH], log + [CREATION, FLUSH, COMPACTION];
    assert one[..|log|] == log && two[..|one|] == one && three[..|two|] == two;
    assert [FLUSHED][..0] == [] && [COMPACTED][..0] == [];
    EmptyEdit(OWNER, CREATION);
    assert Edited(Blank(OWNER), FLUSH) == Vnode(Version(OWNER, map[1 := FLUSHED], 1, 100), 1);
    assert Removed(map[1 := FLUSHED], [FLUSHED]) == Removed(map[1 := FLUSHED], []) - {1} == map[];
    assert Inserted(map[], [COMPACTED]) == map[2 := COMPACTED];
    assert Edited(Edited(Blank(OWNER), FLUSH), COMPACTION) == Vnode(Version(OWNER, map[2 := COMPACTED], 1, 100), 2);
  }

  const COMPACTING: seq<NodeStep> := [AddVnode(CREATION), UpdateVnode(FLUSH), UpdateVnode(COMPACTION)]

  lemma CompactingRuns()
    ensures CanRun(NEW_NODE, COMPACTING)
    ensures var n := Run(NEW_NODE, COMPACTING);
            && Current(n) == [DEFAULT_EDIT, CREATION, FLUSH, COMPACTION] && V in n.edited
            && V in Described(n) && Described(n)[V].version == Version(OWNER, map[2 := COMPACTED], 1, 100)
  {
    hide Applied, Edited, Replayed;
    var log := [DEFAULT_EDIT];
    DefaultIsNothing();
    CompactionDescribed(log);
    var one := Do(NEW_NODE, AddVnode(CREATION));
    assert one.main == log + [CREATION] && Described(one)[V].version.files == map[];
    assert Enabled(one, UpdateVnode(FLUSH));
    var two := Do(one, UpdateVnode(FLUSH));
    assert two.main == log + [CREATION, FLUSH] && Described(two)[V].version.files == map[1 := FLUSHED];
    CompactionIsTidy();
    assert Enabled(two, UpdateVnode(COMPACTION));
    var three := Do(two, UpdateVnode(COMPACTION));
    assert three.main == log + [CREATION, FLUSH, COMPACTION];
    var last := [UpdateVnode(COMPACTION)] + [];
    RunOne(two, UpdateVnode(COMPACTION), []);
    RunOne(one, UpdateVnode(FLUSH), last);
    RunOne(NEW_NODE, AddVnode(CREATION), [UpdateVnode(FLUSH)] + last);
    assert [AddVnode(CREATION)] + ([UpdateVnode(FLUSH)] + last) == COMPACTING;
  }

  /**
   A flush up to timestamp 100, and a compaction that finds tombstones and
   keeps data up to 50 only: the file's level timestamp stays at 100, the live
   one falls to 50, and so does that of a rolled file.
   */
  lemma CompactionLowersTs(rolled: seq<VersionEdit>)
    ensures CanRun(NEW_NODE, COMPACTING)
    ensures var n := Run(NEW_NODE, COMPACTING);
            && Current(n) == [DEFAULT_EDIT, CREATION, FLUSH, COMPACTION]
            && (IsRolledLog(n.live, rolled) ==>
                  exists more :: !SameVersions(Replayed(NO_VNODES, Current(n) + more),
                                               Replayed(NO_VNODES, rolled + more)))
  {
    hide CanRun, Run, IsRolledLog, SameVersions, Replayed, Described;
    CompactingRuns();
    var n := Run(NEW_NODE, COMPACTING);
    assert !IsHighestTs(map[2 := COMPACTED], 100);
    if IsRolledLog(n.live, rolled) {
      RollIsTransparent(COMPACTING, rolled);
      assert !RollKeepsTs(Described(n)[V].version, V in n.edited);
    }
  }

  lemma DefaultIsNothing()
    ensures Replayed(NO_VNODES, [DEFAULT_EDIT]) == NO_VNODES
  {
    assert [DEFAULT_EDIT][..0] == [] && Replayed(NO_VNODES, []) == NO_VNODES;
  }

  lemma CompactionIsTidy()
    ensures Tidy(map[1 := FLUSHED], COMPACTION)
  {
    assert COMPACTION.delFiles[0].fileId == 1;
  }

  /** A vnode whose database is missing at a restart stays in the file and is left out of the next roll. */
  lemma MissingDatabaseIsRolledAway()
    ensures var steps := [AddVnode(CREATION), Restart(owner => Missing, map[])];
            && CanRun(NEW_NODE, steps) && V in Described(Run(NEW_NODE, steps))
            && IsRolledLog(Run(NEW_NODE, steps).live, [])
            && V !in Replayed(NO_VNODES, [])
  {
    hide Applied, Edited;
    var steps := [AddVnode(CREATION), Restart(owner => Missing, map[])];
    var log := [DEFAULT_EDIT];
    DefaultIsNothing();
    CompactionDescribed(log);
    var one := Do(NEW_NODE, steps[0]);
    assert one.main == log + [CREATION];
    assert Enabled(one, steps[1]);
    RunOne(one, steps[1], []);
    RunOne(NEW_NODE, steps[0], [steps[1]] + []);
    assert [steps[0]] + ([steps[1]] + []) == steps;
  }

  // ---------------------------------------------------------------- what each step does

  /** The vnode a step is about. */
  function Subject(s: NodeStep): VnodeId
    requires s.AddVnode? || s.UpdateVnode? || s.RemoveVnode?
  {
    if s.RemoveVnode? then s.vnode else s.edit.tsfId
  }

  /** A vnode step records one edit and changes one vnode, in the file and in memory; a removed one is in neither. */
  lemma VnodeStepIsExact(n: Node, s: NodeStep)
    requires Enabled(n, s) && (s.AddVnode? || s.UpdateVnode? || s.RemoveVnode?)
    ensures var m, v := Do(n, s), Subject(s); var st, after := Described(n), Described(m);
            && |Current(m)| == |Current(n)| + 1 && Current(n) <= Current(m) && m.onTmp == n.onTmp
            && st - {v} == after - {v} && n.live - {v} == m.live - {v}
            && (s.RemoveVnode? ==> v !in after && v !in m.live)
            && (s.AddVnode? ==>
                  v in m.live && v in after && after[v] == Edited(Blank(s.edit.tsfName), s.edit))
            && (s.UpdateVnode? ==>
                  v in m.live && v in after && after[v] == Edited(st[v], s.edit))
  {
    hide Edited, Applied, Proper, Tidy;
    var m, v, log := Do(n, s), Subject(s), Current(n);
    var e := if s.RemoveVnode? then NewDelVnode(v, n.live[v].owner, n.live[v].lastSeq) else s.edit;
    assert Current(m) == log + [e] && (log + [e])[..|log|] == log;
    assert Described(m) == Step(Described(n), e);
    assert Described(n) - {v} == Described(m) - {v};
    assert n.live - {v} == m.live - {v};
  }

  /** Every roll doubles the files that a live version lists. */
  lemma RollDoublesFiles(l: Live, version: Version, i: nat)
    requires Mirrors(l, version) && i < LEVELS
    ensures multiset(Applied(l, Built(l)).levels[i].files) == multiset(l.levels[i].files) + multiset(l.levels[i].files)
  {
    hide Applied, Listing, AddedFiles, CountAdded;
    var e, metas := Built(l), Listing(l.levels);
    AddedFilesFields(NewAddVnode(l.vnode, l.owner, l.lastSeq), metas, l.maxLevelTs);
    assert e.addFiles == [] + metas == metas && e.delFiles == [];
    LevelsAreKept(l, e);
    var before, after := multiset(l.levels[i].files), multiset(Applied(l, e).levels[i].files);
    forall f ensures after[f] == before[f] + before[f] {
      AppliedCounts(l, e, i, f);
      ListingCount(l.levels, f);
      if f.level != i {
        assert f !in l.levels[i].files by { assert ValidLevel(l.levels[i], i); }
      }
    }
    assert after == before + before;
  }
}
