/**
 The in-memory version of a vnode: column files in levels, and how a version
 edit turns one version into the next (tskv/src/tsfamily/version.rs and
 level_info.rs), beside what the same edit means for the log.
 */
module LiveVersion {
  import opened Summary

  const LEVELS: nat := 5

  datatype ColumnFile = ColumnFile(fileId: FileId, level: nat, minTs: int, maxTs: int, size: nat)

  datatype Level = Level(tsfId: VnodeId, files: seq<ColumnFile>)

  datatype Live = Live(vnode: VnodeId, owner: string, lastSeq: nat, maxLevelTs: int, levels: seq<Level>)

  function FileOf(m: CompactMeta): ColumnFile {
    ColumnFile(m.fileId, m.level, m.minTs, m.maxTs, m.fileSize)
  }

  /** What a column file is written back as. */
  function MetaOf(f: ColumnFile, tsfId: VnodeId): CompactMeta {
    CompactMeta(f.fileId, f.size, tsfId, f.level, f.minTs, f.maxTs, f.level == 0)
  }

  function InitLevels(v: VnodeId): seq<Level> {
    seq(LEVELS, i => Level(v, []))
  }

  // ---------------------------------------------------------------- levels

  ghost predicate Ascending(files: seq<ColumnFile>) {
    forall i, j :: 0 <= i < j < |files| ==> files[i].fileId <= files[j].fileId
  }

  /** A push followed by the stable sort by file id, on files already in that order. */
  function Placed(files: seq<ColumnFile>, f: ColumnFile): seq<ColumnFile> {
    if files == [] || files[|files| - 1].fileId <= f.fileId then files + [f]
    else Placed(files[..|files| - 1], f) + [files[|files| - 1]]
  }

  lemma {:induction false} PlacedHolds(files: seq<ColumnFile>, f: ColumnFile)
    ensures multiset(Placed(files, f)) == multiset(files) + multiset{f}
    ensures forall g :: g in Placed(files, f) <==> g in files || g == f
  {
    if files != [] && files[|files| - 1].fileId > f.fileId {
      var init, last := files[..|files| - 1], files[|files| - 1];
      PlacedHolds(init, f);
      assert files == init + [last];
    }
  }

  lemma {:induction false} PlacedIsSorted(files: seq<ColumnFile>, f: ColumnFile)
    requires Ascending(files)
    ensures Ascending(Placed(files, f))
  {
    if files != [] {
      var init, last := files[..|files| - 1], files[|files| - 1];
      assert forall k :: 0 <= k < |init| ==> init[k] == files[k];
      if last.fileId <= f.fileId {
        assert forall k :: 0 <= k < |files| ==> files[k].fileId <= last.fileId;
      } else {
        PlacedIsSorted(init, f);
        PlacedHolds(init, f);
        var placed := Placed(init, f);
        assert forall k :: 0 <= k < |placed| ==> placed[k] in init || placed[k] == f;
        assert forall k :: 0 <= k < |placed| ==> placed[k].fileId <= last.fileId;
      }
    }
  }

  function IdsAt(dels: seq<CompactMeta>, level: nat): set<FileId> {
    set k | 0 <= k < |dels| && dels[k].level == level :: dels[k].fileId
  }

  function AtLevel(adds: seq<CompactMeta>, level: nat): seq<CompactMeta> {
    if adds == [] then []
    else AtLevel(adds[..|adds| - 1], level) + if adds[|adds| - 1].level == level then [adds[|adds| - 1]] else []
  }

  /** The files that are not deleted, pushed one by one. */
  function Kept(files: seq<ColumnFile>, ids: set<FileId>): seq<ColumnFile> {
    if files == [] then []
    else
      var init, last := Kept(files[..|files| - 1], ids), files[|files| - 1];
      if last.fileId in ids then init else Placed(init, last)
  }

  /** The added files, pushed one by one; each push leaves its vnode id on the level. */
  function Pushed(level: Level, adds: seq<CompactMeta>): Level {
    if adds == [] then level
    else
      var last := adds[|adds| - 1];
      Level(last.tsfId, Placed(Pushed(level, adds[..|adds| - 1]).files, FileOf(last)))
  }

  function AppliedLevel(v: VnodeId, files: seq<ColumnFile>, e: VersionEdit, i: nat): Level {
    Pushed(Level(v, Kept(files, IdsAt(e.delFiles, i))), AtLevel(e.addFiles, i))
  }

  function AppliedLevels(l: Live, e: VersionEdit): seq<Level> {
    seq(|l.levels|, i requires 0 <= i < |l.levels| => AppliedLevel(l.vnode, l.levels[i].files, e, i))
  }

  function HighestOf(ts: int, files: seq<ColumnFile>): int {
    if files == [] then ts else Max(files[|files| - 1].maxTs, HighestOf(ts, files[..|files| - 1]))
  }

  /** The greatest timestamp of any file, as `update_max_level_ts` scans for it. */
  function Highest(levels: seq<Level>): int {
    if levels == [] then I64_MIN else HighestOf(Highest(levels[..|levels| - 1]), levels[|levels| - 1].files)
  }

  function Applied(l: Live, e: VersionEdit): Live {
    var levels := AppliedLevels(l, e);
    Live(l.vnode, l.owner, Max(l.lastSeq, e.seqNo), Highest(levels), levels)
  }

  // ---------------------------------------------------------------- the code that applies an edit

  /** Five levels, each with files of its own level in ascending order. */
  ghost predicate Valid(l: Live) {
    |l.levels| == LEVELS &&
    forall i :: 0 <= i < LEVELS ==> ValidLevel(l.levels[i], i)
  }

  ghost predicate ValidLevel(level: Level, i: nat) {
    Ascending(level.files) && forall f :: f in level.files ==> f.level == i
  }

  /** Every level named is one of the five; the source indexes an array with it. */
  predicate InRange(e: VersionEdit) {
    && (forall k :: 0 <= k < |e.addFiles| ==> e.addFiles[k].level < LEVELS)
    && (forall k :: 0 <= k < |e.delFiles| ==> e.delFiles[k].level < LEVELS)
  }

  method GroupAdded(adds: seq<CompactMeta>) returns (added: seq<seq<CompactMeta>>)
    requires forall k :: 0 <= k < |adds| ==> adds[k].level < LEVELS
    ensures |added| == LEVELS && forall i :: 0 <= i < LEVELS ==> added[i] == AtLevel(adds, i)
  {
    added := seq(LEVELS, i => []);
    for n := 0 to |adds|
      invariant |added| == LEVELS && forall i :: 0 <= i < LEVELS ==> added[i] == AtLevel(adds[..n], i)
    {
      assert adds[..n + 1][..n] == adds[..n];
      added := added[adds[n].level := added[adds[n].level] + [adds[n]]];
    }
    assert adds[..|adds|] == adds;
  }

  method GroupDeleted(dels: seq<CompactMeta>) returns (deleted: seq<set<FileId>>)
    requires forall k :: 0 <= k < |dels| ==> dels[k].level < LEVELS
    ensures |deleted| == LEVELS && forall i :: 0 <= i < LEVELS ==> deleted[i] == IdsAt(dels, i)
  {
    deleted := seq(LEVELS, i => {});
    for n := 0 to |dels|
      invariant |deleted| == LEVELS && forall i :: 0 <= i < LEVELS ==> deleted[i] == IdsAt(dels[..n], i)
    {
      forall i | 0 <= i < LEVELS
        ensures IdsAt(dels[..n + 1], i) == IdsAt(dels[..n], i) + if dels[n].level == i then {dels[n].fileId} else {}
      {
        IdsAtOneMore(dels, n, i);
      }
      deleted := deleted[dels[n].level := deleted[dels[n].level] + {dels[n].fileId}];
    }
    assert dels[..|dels|] == dels;
  }

  lemma IdsAtOneMore(dels: seq<CompactMeta>, n: nat, i: nat)
    requires n < |dels|
    ensures IdsAt(dels[..n + 1], i) == IdsAt(dels[..n], i) + if dels[n].level == i then {dels[n].fileId} else {}
  {
    var a, b := dels[..n + 1], dels[..n];
    assert forall k :: 0 <= k < n ==> a[k] == b[k];
    forall id | id in IdsAt(b, i) ensures id in IdsAt(a, i) {
      var k :| 0 <= k < n && b[k].level == i && b[k].fileId == id;
      assert a[k].fileId == id;
    }
    if dels[n].level == i {
      assert a[n].fileId == dels[n].fileId;
    }
  }

  /** One level of the new version. */
  method ApplyLevel(v: VnodeId, level: Level, i: nat, deleted: seq<set<FileId>>, added: seq<CompactMeta>)
    returns (r: Level)
    requires ValidLevel(level, i) && i < |deleted|
    ensures r == Pushed(Level(v, Kept(level.files, deleted[i])), added)
  {
    r := Level(v, []);
    for n := 0 to |level.files|
      invariant r == Level(v, Kept(level.files[..n], deleted[i]))
    {
      assert level.files[..n + 1][..n] == level.files[..n];
      var file := level.files[n];
      assert file in level.files;
      if file.fileId in deleted[file.level] {
        continue;
      }
      r := Level(r.tsfId, Placed(r.files, file));
    }
    assert level.files[..|level.files|] == level.files;
    ghost var kept := r;
    for n := 0 to |added|
      invariant r == Pushed(kept, added[..n])
    {
      assert added[..n + 1][..n] == added[..n];
      r := Level(added[n].tsfId, Placed(r.files, FileOf(added[n])));
    }
    assert added[..|added|] == added;
  }

  method UpdateMaxLevelTs(levels: seq<Level>) returns (maxTs: int)
    ensures maxTs == Highest(levels)
  {
    maxTs := I64_MIN;
    for n := 0 to |levels|
      invariant maxTs == Highest(levels[..n])
    {
      assert levels[..n + 1][..n] == levels[..n];
      var files := levels[n].files;
      ghost var before := maxTs;
      for k := 0 to |files|
        invariant maxTs == HighestOf(before, files[..k])
      {
        assert files[..k + 1][..k] == files[..k];
        maxTs := Max(files[k].maxTs, maxTs);
      }
      assert files[..|files|] == files;
    }
    assert levels[..|levels|] == levels;
  }

  /** `copy_apply_version_edits`. */
  method CopyApplyVersionEdits(l: Live, e: VersionEdit) returns (r: Live)
    requires Valid(l) && InRange(e)
    ensures r == Applied(l, e)
  {
    var added := GroupAdded(e.addFiles);
    var deleted := GroupDeleted(e.delFiles);
    var levels: seq<Level> := [];
    for i := 0 to LEVELS
      invariant levels == AppliedLevels(l, e)[..i]
    {
      var level := ApplyLevel(l.vnode, l.levels[i], i, deleted, added[i]);
      levels := levels + [level];
    }
    assert levels == AppliedLevels(l, e);
    var maxTs := UpdateMaxLevelTs(levels);
    r := Live(l.vnode, l.owner, Max(l.lastSeq, e.seqNo), maxTs, levels);
  }

  // ---------------------------------------------------------------- what a version holds

  ghost predicate Holds(l: Live, f: ColumnFile) {
    f.level < |l.levels| && f in l.levels[f.level].files
  }

  ghost predicate Adds(e: VersionEdit, f: ColumnFile) {
    exists k :: 0 <= k < |e.addFiles| && FileOf(e.addFiles[k]) == f
  }

  lemma {:induction false} KeptIs(files: seq<ColumnFile>, ids: set<FileId>)
    ensures Ascending(Kept(files, ids))
    ensures forall f :: f in Kept(files, ids) <==> f in files && f.fileId !in ids
  {
    if files != [] {
      var init, last := files[..|files| - 1], files[|files| - 1];
      assert files == init + [last];
      KeptIs(init, ids);
      PlacedIsSorted(Kept(init, ids), last);
      PlacedHolds(Kept(init, ids), last);
    }
  }

  lemma {:induction false} AtLevelIs(adds: seq<CompactMeta>, level: nat)
    ensures forall m :: m in AtLevel(adds, level) <==> m in adds && m.level == level
  {
    if adds != [] {
      assert adds == adds[..|adds| - 1] + [adds[|adds| - 1]];
      AtLevelIs(adds[..|adds| - 1], level);
    }
  }

  lemma {:induction false} PushedIs(level: Level, adds: seq<CompactMeta>)
    requires Ascending(level.files)
    ensures Ascending(Pushed(level, adds).files)
    ensures forall f :: f in Pushed(level, adds).files <==> f in level.files || exists m :: m in adds && FileOf(m) == f
    ensures (forall m :: m in adds ==> m.tsfId == level.tsfId) ==> Pushed(level, adds).tsfId == level.tsfId
  {
    if adds != [] {
      var init, last := adds[..|adds| - 1], adds[|adds| - 1];
      assert adds == init + [last];
      PushedIs(level, init);
      PlacedIsSorted(Pushed(level, init).files, FileOf(last));
      PlacedHolds(Pushed(level, init).files, FileOf(last));
    }
  }

  lemma AppliedLevelIs(v: VnodeId, files: seq<ColumnFile>, e: VersionEdit, i: nat, f: ColumnFile)
    ensures Ascending(AppliedLevel(v, files, e, i).files)
    ensures f in AppliedLevel(v, files, e, i).files <==>
            (f in files && f.fileId !in IdsAt(e.delFiles, i)) || (f.level == i && Adds(e, f))
    ensures (forall k :: 0 <= k < |e.addFiles| ==> e.addFiles[k].tsfId == v) ==>
              AppliedLevel(v, files, e, i).tsfId == v
  {
    hide Kept, Pushed, AtLevel, Ascending;
    var ids, adds := IdsAt(e.delFiles, i), AtLevel(e.addFiles, i);
    KeptIs(files, ids);
    AtLevelIs(e.addFiles, i);
    PushedIs(Level(v, Kept(files, ids)), adds);
    if f.level == i && Adds(e, f) {
      var k :| 0 <= k < |e.addFiles| && FileOf(e.addFiles[k]) == f;
      assert e.addFiles[k] in adds;
    }
  }

  /** An edit keeps what it does not delete at its level, and adds its files. */
  lemma AppliedHolds(l: Live, e: VersionEdit)
    requires Valid(l) && InRange(e)
    ensures Valid(Applied(l, e))
    ensures forall f :: Holds(Applied(l, e), f) <==>
              (Holds(l, f) && f.fileId !in IdsAt(e.delFiles, f.level)) || Adds(e, f)
    ensures (forall k :: 0 <= k < |e.addFiles| ==> e.addFiles[k].tsfId == l.vnode) ==>
              forall i :: 0 <= i < LEVELS ==> Applied(l, e).levels[i].tsfId == l.vnode
  {
    hide AppliedLevel, IdsAt, Highest, Ascending;
    var r := Applied(l, e);
    forall i | 0 <= i < LEVELS ensures ValidLevel(r.levels[i], i) {
      AppliedLevelIs(l.vnode, l.levels[i].files, e, i, ColumnFile(0, 0, 0, 0, 0));
      forall f | f in r.levels[i].files ensures f.level == i {
        AppliedLevelIs(l.vnode, l.levels[i].files, e, i, f);
      }
    }
    forall f ensures Holds(r, f) <==> (Holds(l, f) && f.fileId !in IdsAt(e.delFiles, f.level)) || Adds(e, f) {
      if f.level < LEVELS {
        AppliedLevelIs(l.vnode, l.levels[f.level].files, e, f.level, f);
      }
    }
    forall i | 0 <= i < LEVELS
      ensures (forall k :: 0 <= k < |e.addFiles| ==> e.addFiles[k].tsfId == l.vnode) ==> r.levels[i].tsfId == l.vnode
    {
      AppliedLevelIs(l.vnode, l.levels[i].files, e, i, ColumnFile(0, 0, 0, 0, 0));
    }
  }

  /** How often a list of additions has the file. */
  function CountAdded(adds: seq<CompactMeta>, f: ColumnFile): nat {
    if adds == [] then 0
    else CountAdded(adds[..|adds| - 1], f) + if FileOf(adds[|adds| - 1]) == f then 1 else 0
  }

  ghost predicate DeletedAt(e: VersionEdit, level: nat, id: FileId) {
    exists k :: 0 <= k < |e.delFiles| && e.delFiles[k].level == level && e.delFiles[k].fileId == id
  }

  lemma {:induction false} KeptCounts(files: seq<ColumnFile>, ids: set<FileId>, f: ColumnFile)
    ensures multiset(Kept(files, ids))[f] == if f.fileId in ids then 0 else multiset(files)[f]
  {
    if files != [] {
      var init, last := files[..|files| - 1], files[|files| - 1];
      assert files == init + [last];
      KeptCounts(init, ids, f);
      PlacedHolds(Kept(init, ids), last);
    }
  }

  lemma {:induction false} PushedCounts(level: Level, adds: seq<CompactMeta>, f: ColumnFile)
    ensures multiset(Pushed(level, adds).files)[f] == multiset(level.files)[f] + CountAdded(adds, f)
  {
    if adds != [] {
      var init, last := adds[..|adds| - 1], adds[|adds| - 1];
      PushedCounts(level, init, f);
      PlacedHolds(Pushed(level, init).files, FileOf(last));
    }
  }

  lemma {:induction false} AtLevelCounts(adds: seq<CompactMeta>, i: nat, f: ColumnFile)
    ensures CountAdded(AtLevel(adds, i), f) == if f.level == i then CountAdded(adds, f) else 0
  {
    if adds != [] {
      var init, last := adds[..|adds| - 1], adds[|adds| - 1];
      AtLevelCounts(init, i, f);
      var r := AtLevel(init, i);
      assert (r + [last])[..|r|] == r;
      assert r + [] == r;
    }
  }

  /** A file stands in a level as often as before, or not at all if deleted there, and once more per addition. */
  lemma AppliedCounts(l: Live, e: VersionEdit, i: nat, f: ColumnFile)
    requires i < |l.levels|
    ensures multiset(Applied(l, e).levels[i].files)[f] ==
            (if DeletedAt(e, i, f.fileId) then 0 else multiset(l.levels[i].files)[f]) +
            (if f.level == i then CountAdded(e.addFiles, f) else 0)
  {
    hide Kept, Pushed, AtLevel, CountAdded, Highest;
    var ids, adds := IdsAt(e.delFiles, i), AtLevel(e.addFiles, i);
    KeptCounts(l.levels[i].files, ids, f);
    AtLevelCounts(e.addFiles, i, f);
    PushedCounts(Level(l.vnode, Kept(l.levels[i].files, ids)), adds, f);
  }

  /** Every file stands in its level once, and no two files share an id. */
  ghost predicate Distinct(l: Live) {
    && NoRepeats(l)
    && (forall f, g :: Holds(l, f) && Holds(l, g) && f.fileId == g.fileId ==> f == g)
  }

  ghost predicate NewAndDistinct(l: Live, e: VersionEdit) {
    && (forall j, k :: 0 <= j < k < |e.addFiles| ==> e.addFiles[j].fileId != e.addFiles[k].fileId)
    && (forall k, f :: 0 <= k < |e.addFiles| && Holds(l, f) ==> f.fileId != e.addFiles[k].fileId)
  }

  lemma {:induction false} CountedOnce(adds: seq<CompactMeta>, f: ColumnFile)
    requires forall j, k :: 0 <= j < k < |adds| ==> adds[j].fileId != adds[k].fileId
    ensures CountAdded(adds, f) <= 1
    ensures CountAdded(adds, f) > 0 <==> exists k :: 0 <= k < |adds| && FileOf(adds[k]) == f
  {
    if adds != [] {
      var init, last := adds[..|adds| - 1], adds[|adds| - 1];
      assert forall k :: 0 <= k < |init| ==> init[k] == adds[k];
      CountedOnce(init, f);
      if FileOf(last) == f {
        assert FileOf(adds[|adds| - 1]) == f;
      }
    }
  }

  /** Edits that add new and distinct ids keep every id in one place. */
  lemma AppliedStaysDistinct(l: Live, e: VersionEdit)
    requires Valid(l) && InRange(e) && Distinct(l) && NewAndDistinct(l, e)
    ensures Distinct(Applied(l, e))
  {
    hide Applied, CountAdded, IdsAt;
    var r := Applied(l, e);
    AppliedHolds(l, e);
    assert |r.levels| == |l.levels| by { LevelsAreKept(l, e); }
    forall i, f | 0 <= i < |r.levels| ensures multiset(r.levels[i].files)[f] <= 1 {
      AppliedCounts(l, e, i, f);
      CountedOnce(e.addFiles, f);
      if f.level == i && CountAdded(e.addFiles, f) > 0 {
        assert !Holds(l, f);
      }
    }
  }

  lemma LevelsAreKept(l: Live, e: VersionEdit)
    ensures |Applied(l, e).levels| == |l.levels|
  {
  }

  lemma {:induction false} HighestOfIs(ts: int, files: seq<ColumnFile>)
    ensures HighestOf(ts, files) >= ts && forall f :: f in files ==> f.maxTs <= HighestOf(ts, files)
    ensures HighestOf(ts, files) == ts || exists f :: f in files && f.maxTs == HighestOf(ts, files)
  {
    if files != [] {
      assert files == files[..|files| - 1] + [files[|files| - 1]];
      HighestOfIs(ts, files[..|files| - 1]);
    }
  }

  lemma {:induction false} HighestIs(levels: seq<Level>)
    ensures Highest(levels) >= I64_MIN
    ensures forall i, f :: 0 <= i < |levels| && f in levels[i].files ==> f.maxTs <= Highest(levels)
    ensures Highest(levels) == I64_MIN ||
            exists i, f :: 0 <= i < |levels| && f in levels[i].files && f.maxTs == Highest(levels)
  {
    hide HighestOf;
    if levels != [] {
      var init, last := levels[..|levels| - 1], levels[|levels| - 1];
      HighestIs(init);
      HighestOfIs(Highest(init), last.files);
      assert forall i :: 0 <= i < |init| ==> levels[i] == init[i];
      var high := Highest(levels);
      if high != I64_MIN {
        if high == Highest(init) {
          var i, f :| 0 <= i < |init| && f in init[i].files && f.maxTs == high;
          assert f in levels[i].files;
        } else {
          var f :| f in last.files && f.maxTs == high;
          assert f in levels[|levels| - 1].files;
        }
      }
    }
  }

  // ---------------------------------------------------------------- the version and the log

  /** A file as every writer of edits describes it: its own vnode, one of the five levels, delta exactly at level 0. */
  predicate Plain(v: VnodeId, m: CompactMeta) {
    m.tsfId == v && m.level < LEVELS && m.isDelta == (m.level == 0)
  }

  /** The edits that flush, compaction and snapshot installation write. */
  ghost predicate Proper(e: VersionEdit) {
    InRange(e) && forall k :: 0 <= k < |e.addFiles| ==> Plain(e.tsfId, e.addFiles[k])
  }

  ghost predicate PlainFiles(v: VnodeId, files: Files) {
    forall id :: id in files ==> files[id].fileId == id && Plain(v, files[id])
  }

  /** The live version holds exactly the files the log describes, and its sequence number. */
  ghost predicate Mirrors(l: Live, version: Version) {
    && Valid(l) && l.owner == version.owner && l.lastSeq == version.lastSeq
    && l.maxLevelTs >= I64_MIN && version.maxLevelTs >= I64_MIN
    && (forall i :: 0 <= i < LEVELS ==> l.levels[i].tsfId == l.vnode)
    && PlainFiles(l.vnode, version.files)
    && SameFiles(l, version.files)
  }

  ghost predicate SameFiles(l: Live, files: Files) {
    forall f :: Holds(l, f) <==> f.fileId in files && FileOf(files[f.fileId]) == f
  }

  /**
   The edit does not describe one file in two ways, and what it says of a
   file already there is a deletion at the right level or the file itself.
   */
  ghost predicate Tidy(files: Files, e: VersionEdit) {
    && (forall j, k :: 0 <= j < |e.addFiles| && 0 <= k < |e.addFiles| ==>
          e.addFiles[j].fileId == e.addFiles[k].fileId ==> e.addFiles[j] == e.addFiles[k])
    && (forall id :: id in files && (Names(e.delFiles, id) || Names(e.addFiles, id)) ==>
          id in IdsAt(e.delFiles, files[id].level) || files[id] in e.addFiles)
  }

  lemma EditedIsPlain(v: VnodeId, files: Files, e: VersionEdit)
    requires PlainFiles(v, files) && Proper(e) && e.tsfId == v
    ensures PlainFiles(v, EditedFiles(files, e))
  {
    hide EditedFiles, Names;
    forall id | id in EditedFiles(files, e)
      ensures EditedFiles(files, e)[id].fileId == id && Plain(v, EditedFiles(files, e)[id])
    {
      EditedAt(files, e, id);
    }
  }

  /** Plain descriptions of one vnode are the same if their column files are. */
  lemma PlainIsDetermined(v: VnodeId, m: CompactMeta, n: CompactMeta)
    requires Plain(v, m) && Plain(v, n) && FileOf(m) == FileOf(n)
    ensures m == n && m == MetaOf(FileOf(m), v)
  {
  }

  lemma TidyKeepsFile(l: Live, files: Files, e: VersionEdit, f: ColumnFile)
    requires Valid(l) && InRange(e) && SameFiles(l, files) && Tidy(files, e)
    ensures var r := EditedFiles(files, e);
            Holds(Applied(l, e), f) <==> f.fileId in r && FileOf(r[f.fileId]) == f
  {
    hide Applied, EditedFiles, Valid, Holds;
    AppliedHolds(l, e);
    EditedAt(files, e, f.fileId);
    if Adds(e, f) {
      var k :| 0 <= k < |e.addFiles| && FileOf(e.addFiles[k]) == f;
      assert e.addFiles[k].fileId == f.fileId;
    }
    if f.fileId in IdsAt(e.delFiles, f.level) {
      assert Names(e.delFiles, f.fileId);
    }
  }

  lemma SameFilesMeansTidy(l: Live, files: Files, e: VersionEdit)
    requires Valid(l) && SameFiles(l, files) && PlainFiles(l.vnode, files) && Proper(e) && e.tsfId == l.vnode
    requires SameFiles(Applied(l, e), EditedFiles(files, e))
    ensures Tidy(files, e)
  {
    hide Applied, EditedFiles, Valid, Holds, IdsAt;
    AppliedHolds(l, e);
    var r := EditedFiles(files, e);
    forall j, k | 0 <= j < |e.addFiles| && 0 <= k < |e.addFiles| && e.addFiles[j].fileId == e.addFiles[k].fileId
      ensures e.addFiles[j] == e.addFiles[k]
    {
      assert Adds(e, FileOf(e.addFiles[j])) && Adds(e, FileOf(e.addFiles[k]));
      PlainIsDetermined(l.vnode, e.addFiles[j], e.addFiles[k]);
    }
    forall id | id in files && (Names(e.delFiles, id) || Names(e.addFiles, id))
      ensures id in IdsAt(e.delFiles, files[id].level) || files[id] in e.addFiles
    {
      if id !in IdsAt(e.delFiles, files[id].level) {
        var f := FileOf(files[id]);
        assert Holds(l, f) && Holds(Applied(l, e), f);
        EditedAt(files, e, id);
        if Names(e.addFiles, id) {
          PlainIsDetermined(l.vnode, r[id], files[id]);
        }
      }
    }
  }

  /** A version that mirrors the log keeps doing so over an edit exactly if the edit is tidy. */
  lemma MirrorsIffTidy(l: Live, v: Vnode, e: VersionEdit)
    requires Mirrors(l, v.version) && Proper(e) && e.tsfId == l.vnode
    ensures Mirrors(Applied(l, e), Edited(v, e).version) <==> Tidy(v.version.files, e)
  {
    hide Tidy, Valid, Holds, AppliedLevels, IdsAt, Inserted, Removed, Highest;
    var files, r := v.version.files, EditedFiles(v.version.files, e);
    AppliedHolds(l, e);
    HighestIs(AppliedLevels(l, e));
    EditedIsPlain(l.vnode, files, e);
    assert Edited(v, e).version.files == r;
    if Tidy(files, e) {
      forall f ensures Holds(Applied(l, e), f) <==> f.fileId in r && FileOf(r[f.fileId]) == f {
        TidyKeepsFile(l, files, e, f);
      }
    } else if SameFiles(Applied(l, e), r) {
      SameFilesMeansTidy(l, files, e);
    }
  }

  /** A recovered vnode as it is opened: its files pushed to their levels, the level timestamp as the log has it. */
  ghost predicate Opened(l: Live, v: VnodeId, version: Version) {
    l.vnode == v && l.maxLevelTs == version.maxLevelTs && Mirrors(l, version)
  }

  function WithFile(l: Live, m: CompactMeta): Live
    requires m.level < |l.levels|
  {
    l.(levels := l.levels[m.level := Level(m.tsfId, Placed(l.levels[m.level].files, FileOf(m)))])
  }

  ghost predicate NoRepeats(l: Live) {
    forall i, f :: 0 <= i < |l.levels| ==> multiset(l.levels[i].files)[f] <= 1
  }

  /** Pushing a file not there yet. */
  lemma WithFileIs(l: Live, done: Files, m: CompactMeta)
    requires Valid(l) && NoRepeats(l) && SameFiles(l, done) && m.fileId !in done && m.level < LEVELS
    ensures Valid(WithFile(l, m)) && NoRepeats(WithFile(l, m)) && SameFiles(WithFile(l, m), done[m.fileId := m])
  {
    hide Placed, Ascending;
    var files, r := l.levels[m.level].files, WithFile(l, m);
    PlacedIsSorted(files, FileOf(m));
    PlacedHolds(files, FileOf(m));
    assert FileOf(m) !in files by { assert !Holds(l, FileOf(m)); }
    assert forall i :: 0 <= i < LEVELS && i != m.level ==> r.levels[i] == l.levels[i];
    forall f ensures Holds(r, f) <==> f.fileId in done[m.fileId := m] && FileOf(done[m.fileId := m][f.fileId]) == f {
      assert Holds(r, f) <==> Holds(l, f) || f == FileOf(m);
    }
  }

  /** The levels of a recovered version, its files visited in any order. */
  method OpenVersion(v: VnodeId, version: Version) returns (l: Live)
    requires forall id :: id in version.files ==> version.files[id].fileId == id && version.files[id].level < LEVELS
    ensures PlainFiles(v, version.files) && version.maxLevelTs >= I64_MIN ==> Opened(l, v, version)
    ensures Distinct(l)
  {
    hide WithFile, Valid, NoRepeats, Holds;
    l := Live(v, version.owner, version.lastSeq, version.maxLevelTs, InitLevels(v));
    var rest := version.files.Keys;
    NothingHeld(l);
    assert |l.levels| == LEVELS && version.files - rest == map[];
    while rest != {}
      invariant rest <= version.files.Keys && Valid(l) && NoRepeats(l) && |l.levels| == LEVELS
      invariant l == Live(v, version.owner, version.lastSeq, version.maxLevelTs, l.levels)
      invariant SameFiles(l, version.files - rest)
      invariant PlainFiles(v, version.files) ==> forall i :: 0 <= i < LEVELS ==> l.levels[i].tsfId == v
      decreases |rest|
    {
      var id :| id in rest;
      var m := version.files[id];
      WithFileIs(l, version.files - rest, m);
      WithFileKeeps(l, m);
      l := WithFile(l, m);
      assert (version.files - rest)[id := m] == version.files - (rest - {id});
      rest := rest - {id};
    }
    assert version.files - {} == version.files;
    OneOfEach(l, version.files);
  }

  lemma WithFileKeeps(l: Live, m: CompactMeta)
    requires m.level < |l.levels|
    ensures var r := WithFile(l, m);
            && r == l.(levels := r.levels) && |r.levels| == |l.levels|
            && forall i :: 0 <= i < |l.levels| ==> r.levels[i].tsfId in {l.levels[i].tsfId, m.tsfId}
  {
  }

  lemma OneOfEach(l: Live, files: Files)
    requires NoRepeats(l) && SameFiles(l, files)
    ensures Distinct(l)
  {
  }

  lemma NothingHeld(l: Live)
    requires l.levels == InitLevels(l.vnode)
    ensures Valid(l) && NoRepeats(l) && forall f :: !Holds(l, f)
  {
  }

  function AllApplied(l: Live, edits: seq<VersionEdit>): Live {
    if edits == [] then l else Applied(AllApplied(l, edits[..|edits| - 1]), edits[|edits| - 1])
  }

  function AllEdited(v: Vnode, edits: seq<VersionEdit>): Vnode {
    if edits == [] then v else Edited(AllEdited(v, edits[..|edits| - 1]), edits[|edits| - 1])
  }

  ghost predicate MirrorsAt(l: Live, v: Vnode, edits: seq<VersionEdit>, n: nat)
    requires n <= |edits|
  {
    Mirrors(AllApplied(l, edits[..n]), AllEdited(v, edits[..n]).version)
  }

  ghost predicate TidyAt(v: Vnode, edits: seq<VersionEdit>, n: nat)
    requires n < |edits|
  {
    Tidy(AllEdited(v, edits[..n]).version.files, edits[n])
  }

  lemma {:induction false} VnodeIsKept(l: Live, edits: seq<VersionEdit>)
    ensures AllApplied(l, edits).vnode == l.vnode
  {
    if edits != [] {
      VnodeIsKept(l, edits[..|edits| - 1]);
    }
  }

  lemma NextMirrors(l: Live, v: Vnode, edits: seq<VersionEdit>, n: nat)
    requires n < |edits| && Proper(edits[n]) && edits[n].tsfId == l.vnode && MirrorsAt(l, v, edits, n)
    ensures MirrorsAt(l, v, edits, n + 1) <==> TidyAt(v, edits, n)
  {
    hide Mirrors, Tidy, Applied, Edited, Proper;
    assert edits[..n + 1][..n] == edits[..n];
    VnodeIsKept(l, edits[..n]);
    MirrorsIffTidy(AllApplied(l, edits[..n]), AllEdited(v, edits[..n]), edits[n]);
  }

  /** Over any sequence of edits the live version mirrors the log all along exactly if every edit is tidy. */
  lemma {:induction false} MirrorsAllAlong(l: Live, v: Vnode, edits: seq<VersionEdit>, upto: nat)
    requires upto <= |edits| && Mirrors(l, v.version)
    requires forall k :: 0 <= k < |edits| ==> Proper(edits[k]) && edits[k].tsfId == l.vnode
    ensures (forall n: nat :: n <= upto ==> MirrorsAt(l, v, edits, n)) <==>
            (forall n: nat :: n < upto ==> TidyAt(v, edits, n))
  {
    hide MirrorsAt, TidyAt, Mirrors, Proper;
    if upto == 0 {
      assert MirrorsAt(l, v, edits, 0) by { MirrorsAtStart(l, v, edits); }
    } else {
      var last: nat := upto - 1;
      MirrorsAllAlong(l, v, edits, last);
      if MirrorsAt(l, v, edits, last) {
        NextMirrors(l, v, edits, last);
      }
    }
  }

  lemma MirrorsAtStart(l: Live, v: Vnode, edits: seq<VersionEdit>)
    requires Mirrors(l, v.version)
    ensures MirrorsAt(l, v, edits, 0)
  {
    hide Mirrors;
    assert edits[..0] == [];
  }
}
