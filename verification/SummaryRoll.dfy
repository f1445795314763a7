/**
 Rolling the summary: the log is replaced by one add edit per live vnode,
 built from the live versions (`roll_summary_file` in tskv/src/summary.rs,
 `ts_families_version_edit` in tskv/src/version_set.rs, `build_version_edit`
 in tskv/src/tsfamily/tseries_family.rs).
 */
module SummaryRoll {
  import opened Summary
  import opened LiveVersion

  // ---------------------------------------------------------------- the edit built from a version

  function NewAddVnode(v: VnodeId, owner: string, seqNo: nat): VersionEdit {
    VersionEdit(seqNo, 0, I64_MIN, [], [], [], Add, v, owner)
  }

  function AddFile(e: VersionEdit, meta: CompactMeta, maxLevelTs: int): VersionEdit {
    e.(
      fileId := Max(e.fileId, meta.fileId), maxLevelTs := Max(e.maxLevelTs, maxLevelTs),
      addFiles := e.addFiles + [meta])
  }

  function AddedFiles(e: VersionEdit, metas: seq<CompactMeta>, maxLevelTs: int): VersionEdit {
    if metas == [] then e else AddFile(AddedFiles(e, metas[..|metas| - 1], maxLevelTs), metas[|metas| - 1], maxLevelTs)
  }

  /** The edit that stands for a whole version, its files in the given order. */
  function RolledEdit(v: VnodeId, version: Version, metas: seq<CompactMeta>): VersionEdit {
    AddedFiles(NewAddVnode(v, version.owner, version.lastSeq), metas, version.maxLevelTs)
  }

  /** The files of all levels in order, as they are written back. */
  function Listing(levels: seq<Level>): seq<CompactMeta> {
    if levels == [] then [] else Listing(levels[..|levels| - 1]) + Stamped(levels[|levels| - 1])
  }

  function Stamped(level: Level): seq<CompactMeta> {
    seq(|level.files|, k requires 0 <= k < |level.files| => MetaOf(level.files[k], level.tsfId))
  }

  /** The edit that stands for a live version. */
  function Built(l: Live): VersionEdit {
    AddedFiles(NewAddVnode(l.vnode, l.owner, l.lastSeq), Listing(l.levels), l.maxLevelTs)
  }

  /** `build_version_edit`: level by level, file by file. */
  method BuildVersionEdit(l: Live) returns (e: VersionEdit)
    ensures e == Built(l)
  {
    hide AddedFiles, AddFile, Listing, Stamped;
    var e0, levels, ts := NewAddVnode(l.vnode, l.owner, l.lastSeq), l.levels, l.maxLevelTs;
    e := e0;
    NothingAdded(e0, ts);
    for n := 0 to |levels|
      invariant e == AddedFiles(e0, Listing(levels[..n]), ts)
    {
      var files := levels[n].files;
      ghost var done, stamped := Listing(levels[..n]), Stamped(levels[n]);
      StampedAt(levels[n]);
      assert done + stamped[..0] == done;
      for k := 0 to |files|
        invariant e == AddedFiles(e0, done + stamped[..k], ts)
      {
        AddedOneMore(e0, done + stamped[..k], stamped[k], ts);
        assert done + stamped[..k + 1] == done + stamped[..k] + [stamped[k]];
        e := AddFile(e, MetaOf(files[k], levels[n].tsfId), ts);
      }
      assert stamped[..|files|] == stamped;
      ListedOneMore(levels, n);
    }
    assert levels[..|levels|] == levels;
  }

  lemma NothingAdded(e: VersionEdit, ts: int)
    ensures Listing([]) == [] && AddedFiles(e, [], ts) == e
  {
  }

  lemma AddedOneMore(e: VersionEdit, metas: seq<CompactMeta>, m: CompactMeta, ts: int)
    ensures AddedFiles(e, metas + [m], ts) == AddFile(AddedFiles(e, metas, ts), m, ts)
  {
    assert (metas + [m])[..|metas|] == metas;
  }

  lemma StampedAt(level: Level)
    ensures |Stamped(level)| == |level.files|
    ensures forall k :: 0 <= k < |level.files| ==> Stamped(level)[k] == MetaOf(level.files[k], level.tsfId)
  {
  }

  lemma ListedOneMore(levels: seq<Level>, n: nat)
    requires n < |levels|
    ensures Listing(levels[..n + 1]) == Listing(levels[..n]) + Stamped(levels[n])
  {
    assert levels[..n + 1][..n] == levels[..n];
  }

  /** `metas` lists exactly the files, in any order; a file may be listed more than once. */
  ghost predicate Lists(metas: seq<CompactMeta>, files: Files) {
    && (forall k :: 0 <= k < |metas| ==> metas[k].fileId in files && files[metas[k].fileId] == metas[k])
    && (forall id :: id in files ==> exists k :: 0 <= k < |metas| && metas[k].fileId == id)
  }

  ghost predicate Written(levels: seq<Level>, m: CompactMeta) {
    exists i, f :: 0 <= i < |levels| && f in levels[i].files && m == MetaOf(f, levels[i].tsfId)
  }

  lemma {:induction false} ListingIs(levels: seq<Level>, m: CompactMeta)
    ensures m in Listing(levels) <==> Written(levels, m)
  {
    if levels != [] {
      var init, last := levels[..|levels| - 1], levels[|levels| - 1];
      ListingIs(init, m);
      StampedAt(last);
      assert forall i :: 0 <= i < |init| ==> levels[i] == init[i];
      if Written(init, m) {
        var i, f :| 0 <= i < |init| && f in init[i].files && m == MetaOf(f, init[i].tsfId);
        assert f in levels[i].files;
      }
      if m in Stamped(last) {
        var k :| 0 <= k < |last.files| && Stamped(last)[k] == m;
        assert last.files[k] in levels[|levels| - 1].files;
      }
      if Written(levels, m) && !Written(init, m) {
        var i, f :| 0 <= i < |levels| && f in levels[i].files && m == MetaOf(f, levels[i].tsfId);
        assert i == |levels| - 1;
        var k :| 0 <= k < |last.files| && last.files[k] == f;
        assert Stamped(last)[k] == m;
      }
    }
  }

  /** A version that mirrors the log lists exactly the log's files. */
  lemma MirrorLists(l: Live, version: Version)
    requires Mirrors(l, version)
    ensures Lists(Listing(l.levels), version.files)
  {
    hide Listing;
    var metas, files := Listing(l.levels), version.files;
    forall k | 0 <= k < |metas| ensures metas[k].fileId in files && files[metas[k].fileId] == metas[k] {
      ListingIs(l.levels, metas[k]);
      var i, f :| 0 <= i < |l.levels| && f in l.levels[i].files && metas[k] == MetaOf(f, l.levels[i].tsfId);
      assert ValidLevel(l.levels[i], i);
      assert Holds(l, f);
      PlainIsDetermined(l.vnode, files[f.fileId], files[f.fileId]);
    }
    forall id | id in files ensures exists k :: 0 <= k < |metas| && metas[k].fileId == id {
      var f := FileOf(files[id]);
      assert Holds(l, f);
      PlainIsDetermined(l.vnode, files[id], files[id]);
      assert Written(l.levels, files[id]);
      ListingIs(l.levels, files[id]);
      var k :| 0 <= k < |metas| && metas[k] == files[id];
    }
  }

  ghost predicate IsLargestId(files: Files, high: FileId) {
    && (forall id :: id in files ==> id <= high)
    && (high == 0 || high in files)
  }

  lemma {:induction false} AddedFilesFields(e: VersionEdit, metas: seq<CompactMeta>, ts: int)
    ensures var r := AddedFiles(e, metas, ts);
            && r == e.(fileId := r.fileId, maxLevelTs := r.maxLevelTs, addFiles := e.addFiles + metas)
            && r.maxLevelTs == (if metas == [] then e.maxLevelTs else Max(e.maxLevelTs, ts))
            && e.fileId <= r.fileId && (forall k :: 0 <= k < |metas| ==> metas[k].fileId <= r.fileId)
            && (r.fileId == e.fileId || exists k :: 0 <= k < |metas| && metas[k].fileId == r.fileId)
  {
    if metas != [] {
      var init, last := metas[..|metas| - 1], metas[|metas| - 1];
      AddedFilesFields(e, init, ts);
      assert e.addFiles + init + [last] == e.addFiles + metas;
      var r0, r := AddedFiles(e, init, ts), AddedFiles(e, metas, ts);
      assert r == AddFile(r0, last, ts);
      if r.fileId == last.fileId {
        assert metas[|metas| - 1].fileId == r.fileId;
      } else if r0.fileId != e.fileId {
        var k :| 0 <= k < |init| && init[k].fileId == r0.fileId;
        assert metas[k].fileId == r.fileId;
      }
    }
  }

  lemma {:induction false} InsertedLists(metas: seq<CompactMeta>, files: Files)
    requires forall k :: 0 <= k < |metas| ==> metas[k].fileId in files && files[metas[k].fileId] == metas[k]
    ensures forall id :: id in Inserted(NO_FILES, metas) <==> exists k :: 0 <= k < |metas| && metas[k].fileId == id
    ensures forall id :: id in Inserted(NO_FILES, metas) ==> id in files && Inserted(NO_FILES, metas)[id] == files[id]
  {
    if metas != [] {
      var init, last := metas[..|metas| - 1], metas[|metas| - 1];
      InsertedLists(init, files);
      assert forall k :: 0 <= k < |init| ==> metas[k] == init[k];
      forall id ensures id in Inserted(NO_FILES, metas) <==> exists k :: 0 <= k < |metas| && metas[k].fileId == id {
        if id in Inserted(NO_FILES, init) {
          var k :| 0 <= k < |init| && init[k].fileId == id;
          assert metas[k].fileId == id;
        } else if id == last.fileId {
          assert metas[|metas| - 1].fileId == id;
        }
      }
    }
  }

  /**
   What recovery makes of a rolled edit: the version it was built from, except
   that a version without files comes back with no level timestamp; and the
   file counter falls back to the largest live file id.
   */
  lemma RolledEditRecovers(v: VnodeId, version: Version, metas: seq<CompactMeta>)
    requires Lists(metas, version.files) && version.maxLevelTs >= I64_MIN
    ensures var r := Edited(Blank(version.owner), RolledEdit(v, version, metas));
            && r.version == version.(maxLevelTs := if version.files == map[] then I64_MIN else version.maxLevelTs)
            && IsLargestId(version.files, r.fileHigh)
  {
    hide Lists, Inserted, AddedFiles;
    AddedFilesFields(NewAddVnode(v, version.owner, version.lastSeq), metas, version.maxLevelTs);
    assert [] + metas == metas;
    assert Removed(NO_FILES, []) == NO_FILES;
    InsertedAll(metas, version.files);
    LargestOfLists(metas, version.files, RolledEdit(v, version, metas).fileId);
  }

  lemma InsertedAll(metas: seq<CompactMeta>, files: Files)
    requires Lists(metas, files)
    ensures Inserted(NO_FILES, metas) == files
    ensures metas == [] <==> files == map[]
  {
    InsertedLists(metas, files);
    if metas != [] {
      assert metas[0].fileId in files;
    }
  }

  lemma LargestOfLists(metas: seq<CompactMeta>, files: Files, high: FileId)
    requires Lists(metas, files) && forall k :: 0 <= k < |metas| ==> metas[k].fileId <= high
    requires high == 0 || exists k :: 0 <= k < |metas| && metas[k].fileId == high
    ensures IsLargestId(files, high)
  {
  }

  // ---------------------------------------------------------------- the rolled log

  /** One rolled edit for every version, in any order. */
  ghost predicate StandsFor(versions: map<VnodeId, Version>, log: seq<VersionEdit>) {
    && (forall k :: 0 <= k < |log| ==> log[k].tsfId in versions && IsRolledFrom(log[k], versions[log[k].tsfId]))
    && (forall v :: v in versions ==> Mentions(log, v))
  }

  ghost predicate IsRolledFrom(e: VersionEdit, version: Version) {
    && version.maxLevelTs >= I64_MIN
    && exists metas :: Lists(metas, version.files) && e == RolledEdit(e.tsfId, version, metas)
  }

  /** The version that recovery reads back for a rolled vnode. */
  function ReadBack(version: Version): Version {
    version.(maxLevelTs := if version.files == map[] then I64_MIN else version.maxLevelTs)
  }

  lemma RolledFromRecovers(e: VersionEdit, version: Version)
    requires IsRolledFrom(e, version)
    ensures e.action.Add? && e.tsfName == version.owner
    ensures Edited(Blank(version.owner), e).version == ReadBack(version)
    ensures IsLargestId(version.files, Edited(Blank(version.owner), e).fileHigh)
  {
    var metas :| Lists(metas, version.files) && e == RolledEdit(e.tsfId, version, metas);
    RolledEditRecovers(e.tsfId, version, metas);
    AddedFilesFields(NewAddVnode(e.tsfId, version.owner, version.lastSeq), metas, version.maxLevelTs);
  }

  ghost predicate Mentions(log: seq<VersionEdit>, v: VnodeId) {
    exists k :: 0 <= k < |log| && log[k].tsfId == v
  }

  /** Replaying the rolled log yields exactly the live vnodes as read back. */
  lemma {:induction false} RolledPrefix(live: map<VnodeId, Version>, log: seq<VersionEdit>)
    requires forall k :: 0 <= k < |log| ==> log[k].tsfId in live && IsRolledFrom(log[k], live[log[k].tsfId])
    ensures var st := Replayed(NO_VNODES, log);
            && (forall v :: v in st <==> Mentions(log, v))
            && (forall v :: v in st ==> v in live && st[v].version == ReadBack(live[v]) &&
                                        IsLargestId(live[v].files, st[v].fileHigh))
  {
    hide Edited, ReadBack, IsRolledFrom, IsLargestId, Mentions;
    if log == [] {
      forall v ensures !Mentions(log, v) { MentionsLast(log, v); }
    } else {
      var init, e := log[..|log| - 1], log[|log| - 1];
      RolledPrefix(live, init);
      RolledFromRecovers(e, live[e.tsfId]);
      forall v ensures Mentions(log, v) <==> Mentions(init, v) || v == e.tsfId { MentionsLast(log, v); }
    }
  }

  lemma MentionsLast(log: seq<VersionEdit>, v: VnodeId)
    ensures Mentions(log, v) <==> log != [] && (Mentions(log[..|log| - 1], v) || log[|log| - 1].tsfId == v)
  {
    if log != [] {
      var init := log[..|log| - 1];
      assert forall k :: 0 <= k < |init| ==> log[k] == init[k];
      if Mentions(init, v) {
        var k :| 0 <= k < |init| && init[k].tsfId == v;
        assert log[k].tsfId == v;
      }
    }
  }

  lemma VersionsRecover(versions: map<VnodeId, Version>, log: seq<VersionEdit>)
    requires StandsFor(versions, log)
    ensures var st := Replayed(NO_VNODES, log);
            && st.Keys == versions.Keys
            && forall v :: v in versions ==>
                 st[v].version == ReadBack(versions[v]) && IsLargestId(versions[v].files, st[v].fileHigh)
  {
    hide IsRolledFrom, ReadBack, IsLargestId, Replayed;
    RolledPrefix(versions, log);
  }

  type VersionSet = map<VnodeId, Live>

  /** The rolled log: one edit for every live vnode, built from its live version. */
  ghost predicate IsRolledLog(live: VersionSet, log: seq<VersionEdit>) {
    && (forall k :: 0 <= k < |log| ==> log[k].tsfId in live && log[k] == Built(live[log[k].tsfId]))
    && (forall v :: v in live ==> Mentions(log, v))
    && (forall j, k :: 0 <= j < k < |log| ==> log[j].tsfId != log[k].tsfId)
  }

  /** `ts_families_version_edit`: the live vnodes in any order. */
  method TsFamiliesVersionEdit(live: VersionSet) returns (log: seq<VersionEdit>)
    requires forall v :: v in live ==> live[v].vnode == v
    ensures IsRolledLog(live, log)
  {
    hide Built, RolledSoFar;
    log := [];
    var rest := live.Keys;
    RollBegins(live);
    while rest != {}
      invariant rest <= live.Keys && RolledSoFar(live, live.Keys - rest, log)
      decreases |rest|
    {
      var v :| v in rest;
      var e := BuildVersionEdit(live[v]);
      RollGoesOn(live, live.Keys - rest, log, v);
      log := log + [e];
      assert live.Keys - rest + {v} == live.Keys - (rest - {v});
      rest := rest - {v};
    }
    assert live.Keys - {} == live.Keys;
    RollIsDone(live, log);
  }

  ghost predicate RolledSoFar(live: VersionSet, done: set<VnodeId>, log: seq<VersionEdit>) {
    && (forall k :: 0 <= k < |log| ==>
          log[k].tsfId in live && log[k].tsfId in done && log[k] == Built(live[log[k].tsfId]))
    && (forall v :: v in done ==> Mentions(log, v))
    && (forall j, k :: 0 <= j < k < |log| ==> log[j].tsfId != log[k].tsfId)
  }

  lemma RollBegins(live: VersionSet)
    ensures RolledSoFar(live, live.Keys - live.Keys, [])
  {
  }

  lemma RollGoesOn(live: VersionSet, done: set<VnodeId>, log: seq<VersionEdit>, v: VnodeId)
    requires RolledSoFar(live, done, log) && v in live && v !in done && live[v].vnode == v
    ensures RolledSoFar(live, done + {v}, log + [Built(live[v])])
  {
    var e, more := Built(live[v]), log + [Built(live[v])];
    assert e.tsfId == v by {
      AddedFilesFields(NewAddVnode(v, live[v].owner, live[v].lastSeq), Listing(live[v].levels), live[v].maxLevelTs);
    }
    hide Built, Mentions;
    forall u | u in done + {v} ensures Mentions(more, u) {
      assert more[..|more| - 1] == log;
      MentionsLast(more, u);
    }
  }

  lemma RollIsDone(live: VersionSet, log: seq<VersionEdit>)
    requires RolledSoFar(live, live.Keys, log)
    ensures IsRolledLog(live, log)
  {
    hide Built, Mentions;
  }

  /** Every live vnode is described by the log and mirrors it. */
  ghost predicate Mirrored(live: VersionSet, st: State) {
    forall v :: v in live ==> v in st && live[v].vnode == v && Mirrors(live[v], st[v].version)
  }

  /** What rolling writes for a live vnode: the log's files and sequence number, the live level timestamp. */
  function LiveVersions(live: VersionSet, st: State): map<VnodeId, Version> {
    map v | v in live && v in st :: st[v].version.(maxLevelTs := live[v].maxLevelTs)
  }

  lemma BuiltIsRolled(l: Live, version: Version)
    requires Mirrors(l, version)
    ensures Built(l).tsfId == l.vnode && IsRolledFrom(Built(l), version.(maxLevelTs := l.maxLevelTs))
  {
    hide Valid, SameFiles, Listing, Lists, AddedFiles;
    var written, metas := version.(maxLevelTs := l.maxLevelTs), Listing(l.levels);
    MirrorLists(l, version);
    AddedFilesFields(NewAddVnode(l.vnode, l.owner, l.lastSeq), metas, l.maxLevelTs);
    assert Lists(metas, written.files) && Built(l) == RolledEdit(l.vnode, written, metas);
  }

  /** The rolled log describes exactly the live vnodes, each as read back, and their largest file ids. */
  lemma RolledLogRecovers(live: VersionSet, st: State, log: seq<VersionEdit>)
    requires Mirrored(live, st) && IsRolledLog(live, log)
    ensures var back, versions := Replayed(NO_VNODES, log), LiveVersions(live, st);
            && back.Keys == live.Keys == versions.Keys
            && forall v :: v in live ==>
                 back[v].version == ReadBack(versions[v]) && IsLargestId(st[v].version.files, back[v].fileHigh)
  {
    hide Mirrors, Built, IsRolledFrom, ReadBack, IsLargestId, Replayed;
    var versions := LiveVersions(live, st);
    forall k | 0 <= k < |log| ensures log[k].tsfId in versions && IsRolledFrom(log[k], versions[log[k].tsfId]) {
      BuiltIsRolled(live[log[k].tsfId], st[log[k].tsfId].version);
    }
    VersionsRecover(versions, log);
  }

  // ---------------------------------------------------------------- rolling is transparent

  /** The same vnodes with the same versions; the file counters may differ. */
  ghost predicate SameVersions(a: State, b: State) {
    a.Keys == b.Keys && forall v :: v in a ==> a[v].version == b[v].version
  }

  lemma {:induction false} SameVersionsStaySame(a: State, b: State, more: seq<VersionEdit>)
    requires SameVersions(a, b)
    ensures SameVersions(Replayed(a, more), Replayed(b, more))
  {
    if more != [] {
      SameVersionsStaySame(a, b, more[..|more| - 1]);
    }
  }

  /** The level timestamp that rolling writes for a live version; without files it writes none. */
  function WrittenTs(l: Live, files: Files): int {
    if files == map[] then I64_MIN else l.maxLevelTs
  }

  /**
   Full and rolled log recover to the same versions, now and after any further
   edits, exactly when every vnode of the log is live and the log's level
   timestamp of each is the one its live version writes.
   */
  lemma RollingIsTransparent(live: VersionSet, full: seq<VersionEdit>, rolled: seq<VersionEdit>)
    requires Mirrored(live, Replayed(NO_VNODES, full)) && IsRolledLog(live, rolled)
    ensures var st := Replayed(NO_VNODES, full);
            (forall more :: SameVersions(Replayed(NO_VNODES, full + more), Replayed(NO_VNODES, rolled + more)))
            <==> forall v :: v in st ==>
                   v in live && st[v].version.maxLevelTs == WrittenTs(live[v], st[v].version.files)
  {
    hide Replayed, IsRolledLog, SameVersions, Mirrors;
    var st, back := Replayed(NO_VNODES, full), Replayed(NO_VNODES, rolled);
    RolledLogRecovers(live, st, rolled);
    SameAsReadBack(live, st, back);
    if SameVersions(st, back) {
      forall more ensures SameVersions(Replayed(NO_VNODES, full + more), Replayed(NO_VNODES, rolled + more)) {
        ReplayedConcat(NO_VNODES, full, more);
        ReplayedConcat(NO_VNODES, rolled, more);
        SameVersionsStaySame(st, back, more);
      }
    } else {
      assert full + [] == full && rolled + [] == rolled;
      assert !SameVersions(Replayed(NO_VNODES, full + []), Replayed(NO_VNODES, rolled + []));
    }
  }

  lemma SameAsReadBack(live: VersionSet, st: State, back: State)
    requires live.Keys <= st.Keys && back.Keys == live.Keys == LiveVersions(live, st).Keys
    requires forall v :: v in live ==> back[v].version == ReadBack(LiveVersions(live, st)[v])
    ensures SameVersions(st, back) <==>
            forall v :: v in st ==> v in live && st[v].version.maxLevelTs == WrittenTs(live[v], st[v].version.files)
  {
    forall v | v in live
      ensures st[v].version == back[v].version <==>
              st[v].version.maxLevelTs == WrittenTs(live[v], st[v].version.files)
    {
    }
  }

  // ---------------------------------------------------------------- file ids after recovery

  /** The edit's own `file_id` bounds the files it adds, as `add_file` makes sure. */
  ghost predicate Bounded(e: VersionEdit) {
    forall k :: 0 <= k < |e.addFiles| ==> e.addFiles[k].fileId <= e.fileId
  }

  lemma AddFileKeepsBounded(e: VersionEdit, meta: CompactMeta, ts: int)
    requires Bounded(e)
    ensures Bounded(AddFile(e, meta, ts))
  {
    var r := AddFile(e, meta, ts);
    forall k | 0 <= k < |r.addFiles| ensures r.addFiles[k].fileId <= r.fileId {
      if k < |e.addFiles| {
        assert r.addFiles[k] == e.addFiles[k];
      }
    }
  }

  ghost predicate FilesBelow(v: Vnode) {
    forall id :: id in v.version.files ==> id <= v.fileHigh
  }

  lemma EditedFilesBelow(v: Vnode, e: VersionEdit)
    requires FilesBelow(v) && Bounded(e)
    ensures FilesBelow(Edited(v, e))
  {
    var r := Edited(v, e);
    forall id | id in r.version.files ensures id <= r.fileHigh {
      EditedAt(v.version.files, e, id);
    }
  }

  /** If every edit bounds its files, no live file id exceeds the highest `file_id` that recovery sees. */
  lemma {:induction false} LiveFilesBelow(log: seq<VersionEdit>)
    requires forall k :: 0 <= k < |log| ==> Bounded(log[k])
    ensures forall v :: v in Replayed(NO_VNODES, log) ==> FilesBelow(Replayed(NO_VNODES, log)[v])
  {
    hide Edited, FilesBelow, Bounded;
    if log != [] {
      var init, e := log[..|log| - 1], log[|log| - 1];
      LiveFilesBelow(init);
      BlankFilesBelow(e.tsfName);
      EditedFilesBelow(Blank(e.tsfName), e);
      if e.tsfId in Replayed(NO_VNODES, init) {
        EditedFilesBelow(Replayed(NO_VNODES, init)[e.tsfId], e);
      }
    }
  }

  lemma BlankFilesBelow(owner: string)
    ensures FilesBelow(Blank(owner))
  {
  }

  /** The file counter that recovery sets is above every live file. */
  lemma NextFileIdIsFresh(log: seq<VersionEdit>, next: FileId, v: VnodeId, id: FileId)
    requires forall k :: 0 <= k < |log| ==> Bounded(log[k])
    requires var st := Replayed(NO_VNODES, log);
             next >= 1 && IsHighest(st, st.Keys, next - 1) && v in st && id in st[v].version.files
    ensures id < next
  {
    LiveFilesBelow(log);
  }

  /** Without that bound recovery can set a counter that a live file has already reached. */
  lemma UnboundedEditLosesFreshness()
    ensures var meta := CompactMeta(5, 1, 1, 1, 0, 0, false);
            var log := [VersionEdit(0, 0, I64_MIN, [meta], [], [], Add, 1, "cnosdb.public")];
            var st := Replayed(NO_VNODES, log);
            1 in st && 5 in st[1].version.files && IsHighest(st, st.Keys, 0)
  {
    var meta := CompactMeta(5, 1, 1, 1, 0, 0, false);
    var e := VersionEdit(0, 0, I64_MIN, [meta], [], [], Add, 1, "cnosdb.public");
    assert [e][..0] == [] && [meta][..0] == [];
    assert Inserted(NO_FILES, [meta]) == NO_FILES[5 := meta];
  }

  /** The counter that recovery sets is above every live file. */
  ghost predicate CounterIsFresh(st: State) {
    forall high: FileId, v, id ::
      IsHighest(st, st.Keys, high) && v in st && id in st[v].version.files ==> id <= high
  }

  ghost predicate AllBounded(log: seq<VersionEdit>) {
    forall k :: 0 <= k < |log| ==> Bounded(log[k])
  }

  /** The shortest log after which the edit takes effect on an otherwise empty node. */
  function Opening(e: VersionEdit): seq<VersionEdit> {
    if e.action.Update? then [VersionEdit(0, 0, I64_MIN, [], [], [], Add, e.tsfId, e.tsfName)] else []
  }

  lemma OpeningReplayed(e: VersionEdit)
    requires !e.action.Delete?
    ensures AllBounded(Opening(e))
    ensures Replayed(NO_VNODES, Opening(e) + [e]) == map[e.tsfId := Edited(Blank(e.tsfName), e)]
  {
    hide Edited;
    var open, blank := Opening(e), Blank(e.tsfName);
    var whole := open + [e];
    assert whole[..|whole| - 1] == open && whole[|whole| - 1] == e;
    if e.action.Update? {
      EmptyEdit(e.tsfName, open[0]);
      assert open[..0] == [] && Replayed(NO_VNODES, []) == NO_VNODES;
      assert Replayed(NO_VNODES, open) == NO_VNODES[e.tsfId := blank];
    } else {
      assert Replayed(NO_VNODES, open) == NO_VNODES;
    }
    assert Replayed(NO_VNODES, whole) == NO_VNODES[e.tsfId := Edited(blank, e)];
  }

  lemma EmptyEdit(owner: string, e: VersionEdit)
    requires e.seqNo == 0 && e.fileId == 0 && e.maxLevelTs == I64_MIN && e.addFiles == [] && e.delFiles == []
    ensures Edited(Blank(owner), e) == Blank(owner)
  {
  }

  /** An edit is harmless after every bounded log exactly if it bounds the files it adds, or only deletes. */
  lemma FreshIffBounded(e: VersionEdit)
    ensures (forall log :: AllBounded(log) ==> CounterIsFresh(Replayed(NO_VNODES, log + [e])))
            <==> e.action.Delete? || Bounded(e)
  {
    hide Replayed, IsHighest, Edited;
    if e.action.Delete? || Bounded(e) {
      forall log | AllBounded(log) ensures CounterIsFresh(Replayed(NO_VNODES, log + [e])) {
        BoundedEditIsFresh(log, e);
      }
    } else {
      var k :| 0 <= k < |e.addFiles| && e.addFiles[k].fileId > e.fileId;
      UnboundedEditIsStale(e, k);
      OpeningReplayed(e);
    }
  }

  lemma BoundedEditIsFresh(log: seq<VersionEdit>, e: VersionEdit)
    requires AllBounded(log) && (e.action.Delete? || Bounded(e))
    ensures CounterIsFresh(Replayed(NO_VNODES, log + [e]))
  {
    // What a delete adds is ignored, so it may as well add nothing.
    var f := if e.action.Delete? then e.(addFiles := []) else e;
    assert (log + [e])[..|log|] == log == (log + [f])[..|log|];
    var st := Replayed(NO_VNODES, log + [e]);
    assert st == Replayed(NO_VNODES, log + [f]);
    LiveFilesBelow(log + [f]);
    forall high: FileId, v, id | IsHighest(st, st.Keys, high) && v in st && id in st[v].version.files
      ensures id <= high
    {
      assert FilesBelow(st[v]);
    }
  }

  lemma UnboundedEditIsStale(e: VersionEdit, k: nat)
    requires !e.action.Delete? && k < |e.addFiles| && e.addFiles[k].fileId > e.fileId
    ensures !CounterIsFresh(Replayed(NO_VNODES, Opening(e) + [e]))
  {
    var st := Replayed(NO_VNODES, Opening(e) + [e]);
    OpeningReplayed(e);
    EditedAt(NO_FILES, e, e.addFiles[k].fileId);
    assert st[e.tsfId].fileHigh == e.fileId;
    assert IsHighest(st, st.Keys, e.fileId);
    assert e.addFiles[k].fileId in st[e.tsfId].version.files;
  }

  /** After a roll the counter is fresh too, whatever bounded edits follow. */
  lemma FreshAfterRolling(live: VersionSet, rolled: seq<VersionEdit>, more: seq<VersionEdit>)
    requires IsRolledLog(live, rolled) && AllBounded(more)
    ensures CounterIsFresh(Replayed(NO_VNODES, rolled + more))
  {
    var log := rolled + more;
    forall k | 0 <= k < |log| ensures Bounded(log[k]) {
      if k < |rolled| {
        BuiltIsBounded(live[rolled[k].tsfId]);
      }
    }
    LiveFilesBelow(log);
  }

  lemma BuiltIsBounded(l: Live)
    ensures Bounded(Built(l))
  {
    hide AddedFiles, Listing;
    var e, metas := NewAddVnode(l.vnode, l.owner, l.lastSeq), Listing(l.levels);
    AddedFilesFields(e, metas, l.maxLevelTs);
    assert e.addFiles + metas == metas;
  }

  // ---------------------------------------------------------------- how often a file is listed

  lemma {:induction false} CountConcat(a: seq<CompactMeta>, b: seq<CompactMeta>, f: ColumnFile)
    ensures CountAdded(a + b, f) == CountAdded(a, f) + CountAdded(b, f)
  {
    if b == [] {
      assert a + b == a;
    } else {
      CountConcat(a, b[..|b| - 1], f);
      assert (a + b)[..|a + b| - 1] == a + b[..|b| - 1];
    }
  }

  lemma {:induction false} StampedCount(level: Level, f: ColumnFile)
    ensures CountAdded(Stamped(level), f) == multiset(level.files)[f]
    decreases |level.files|
  {
    if level.files != [] {
      var n := |level.files| - 1;
      var init := Level(level.tsfId, level.files[..n]);
      StampedCount(init, f);
      assert level.files == init.files + [level.files[n]];
      assert Stamped(level)[..n] == Stamped(init);
    }
  }

  /** The edit built from a version lists each file exactly as often as its level has it. */
  lemma {:induction false} ListingCount(levels: seq<Level>, f: ColumnFile)
    requires forall i :: 0 <= i < |levels| ==> ValidLevel(levels[i], i)
    ensures CountAdded(Listing(levels), f) == if f.level < |levels| then multiset(levels[f.level].files)[f] else 0
  {
    hide CountAdded, Stamped;
    if levels == [] {
      assert CountAdded([], f) == 0 by { NothingCounted(f); }
    } else {
      var n, last := |levels| - 1, levels[|levels| - 1];
      var init := levels[..n];
      assert forall i :: 0 <= i < n ==> init[i] == levels[i];
      ListingCount(init, f);
      CountConcat(Listing(init), Stamped(last), f);
      StampedCount(last, f);
      if f.level != n {
        assert f !in last.files by { assert ValidLevel(levels[n], n); }
      }
    }
  }

  lemma NothingCounted(f: ColumnFile)
    ensures CountAdded([], f) == 0
  {
  }
}
