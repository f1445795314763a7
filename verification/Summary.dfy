/**
 The summary log of a storage node: its version edits, the state one pass over
 them describes, and the two-phase recovery that must arrive at that state
 (tskv/src/summary.rs).
 */
module Summary {
  import opened Wrappers

  const I64_MIN: int := -0x8000_0000_0000_0000

  type VnodeId = nat
  type FileId = nat

  datatype CompactMeta = CompactMeta(
    fileId: FileId, fileSize: nat, tsfId: VnodeId, level: nat, minTs: int, maxTs: int, isDelta: bool)

  datatype VnodeAction = Add | Delete | Update

  datatype VersionEdit = VersionEdit(
    seqNo: nat, fileId: FileId, maxLevelTs: int,
    addFiles: seq<CompactMeta>, delFiles: seq<CompactMeta>, partlyDelFiles: seq<CompactMeta>,
    action: VnodeAction, tsfId: VnodeId, tsfName: string)

  type Files = map<FileId, CompactMeta>

  datatype Version = Version(owner: string, files: Files, lastSeq: nat, maxLevelTs: int)

  /** A vnode's version and the largest `file_id` among the edits that made it. */
  datatype Vnode = Vnode(version: Version, fileHigh: FileId)

  type State = map<VnodeId, Vnode>

  function Max(a: int, b: int): int {
    if a < b then b else a
  }

  // ---------------------------------------------------------------- one pass over the log

  function Removed(files: Files, dels: seq<CompactMeta>): Files {
    if dels == [] then files else Removed(files, dels[..|dels| - 1]) - {dels[|dels| - 1].fileId}
  }

  function Inserted(files: Files, adds: seq<CompactMeta>): Files {
    if adds == [] then files
    else Inserted(files, adds[..|adds| - 1])[adds[|adds| - 1].fileId := adds[|adds| - 1]]
  }

  const NO_FILES: Files := map[]

  function Blank(owner: string): Vnode {
    Vnode(Version(owner, NO_FILES, 0, I64_MIN), 0)
  }

  /** One edit of a known vnode: deletions, then additions, and the running maxima. */
  function Edited(v: Vnode, e: VersionEdit): Vnode {
    Vnode(
      Version(
        v.version.owner,
        Inserted(Removed(v.version.files, e.delFiles), e.addFiles),
        Max(v.version.lastSeq, e.seqNo),
        Max(v.version.maxLevelTs, e.maxLevelTs)),
      Max(v.fileHigh, e.fileId))
  }

  /** What a single edit does to the whole node. */
  function Step(st: State, e: VersionEdit): State {
    match e.action
    case Add => st[e.tsfId := Edited(Blank(e.tsfName), e)]
    case Delete => st - {e.tsfId}
    case Update => if e.tsfId in st then st[e.tsfId := Edited(st[e.tsfId], e)] else st
  }

  function Replayed(st: State, log: seq<VersionEdit>): State {
    if log == [] then st else Step(Replayed(st, log[..|log| - 1]), log[|log| - 1])
  }

  const NO_VNODES: State := map[]

  lemma {:induction false} ReplayedConcat(st: State, a: seq<VersionEdit>, b: seq<VersionEdit>)
    ensures Replayed(st, a + b) == Replayed(Replayed(st, a), b)
  {
    if b == [] {
      assert a + b == a;
    } else {
      ReplayedConcat(st, a, b[..|b| - 1]);
      assert (a + b)[..|a + b| - 1] == a + b[..|b| - 1];
    }
  }

  /** Edits of different vnodes commute. */
  lemma StepsCommute(st: State, e: VersionEdit, f: VersionEdit)
    requires e.tsfId != f.tsfId
    ensures Step(Step(st, e), f) == Step(Step(st, f), e)
  {
    hide Edited;
    assert Step(Step(st, e), f) == Step(Step(st, f), e);
  }

  /** The edits of every vnode but `v`. */
  function Without(log: seq<VersionEdit>, v: VnodeId): seq<VersionEdit> {
    if log == [] then []
    else Without(log[..|log| - 1], v) + if log[|log| - 1].tsfId == v then [] else [log[|log| - 1]]
  }

  /** An edit is invisible to the other vnodes. */
  lemma StepWithout(st: State, e: VersionEdit, v: VnodeId)
    ensures Step(st, e) - {v} == if e.tsfId == v then st - {v} else Step(st - {v}, e)
  {
    hide Edited;
    var a, b := Step(st, e) - {v}, if e.tsfId == v then st - {v} else Step(st - {v}, e);
    assert a.Keys == b.Keys;
    assert forall u :: u in a ==> a[u] == b[u];
  }

  lemma {:induction false} ReplayedWithout(st: State, log: seq<VersionEdit>, v: VnodeId)
    ensures Replayed(st, log) - {v} == Replayed(st - {v}, Without(log, v))
  {
    hide Step;
    if log != [] {
      var init, e := log[..|log| - 1], log[|log| - 1];
      ReplayedWithout(st, init, v);
      StepWithout(Replayed(st, init), e, v);
      var rest := Without(init, v);
      if e.tsfId == v {
        assert Without(log, v) == rest;
      } else {
        assert Without(log, v) == rest + [e];
        assert (rest + [e])[..|rest|] == rest;
      }
    }
  }

  /** A delete erases every trace of the vnode: the log reads as if its earlier edits had never been written. */
  lemma DeleteErasesHistory(a: seq<VersionEdit>, d: VersionEdit, b: seq<VersionEdit>)
    requires d.action.Delete?
    ensures Replayed(NO_VNODES, a + [d] + b) == Replayed(NO_VNODES, Without(a, d.tsfId) + b)
  {
    ReplayedConcat(NO_VNODES, a + [d], b);
    ReplayedConcat(NO_VNODES, Without(a, d.tsfId), b);
    ReplayedWithout(NO_VNODES, a, d.tsfId);
    assert (a + [d])[..|a + [d]| - 1] == a;
    assert NO_VNODES - {d.tsfId} == NO_VNODES;
  }

  /** An add starts the vnode afresh, whatever the log held for it before. */
  lemma AddResetsHistory(a: seq<VersionEdit>, d: VersionEdit, b: seq<VersionEdit>)
    requires d.action.Add?
    ensures Replayed(NO_VNODES, a + [d] + b) == Replayed(NO_VNODES, Without(a, d.tsfId) + [d] + b)
  {
    hide Step, Without;
    var w := Without(a, d.tsfId);
    ReplayedConcat(NO_VNODES, a + [d], b);
    ReplayedConcat(NO_VNODES, w + [d], b);
    ReplayedWithout(NO_VNODES, a, d.tsfId);
    assert (a + [d])[..|a + [d]| - 1] == a && (w + [d])[..|w + [d]| - 1] == w;
    assert NO_VNODES - {d.tsfId} == NO_VNODES;
    AddIgnoresOld(Replayed(NO_VNODES, a), d);
  }

  lemma AddIgnoresOld(st: State, d: VersionEdit)
    requires d.action.Add?
    ensures Step(st, d) == Step(st - {d.tsfId}, d)
  {
    hide Edited;
    assert Step(st, d).Keys == Step(st - {d.tsfId}, d).Keys;
  }

  // ---------------------------------------------------------------- what a log describes, edit by edit

  ghost predicate Names(metas: seq<CompactMeta>, id: FileId) {
    exists k :: 0 <= k < |metas| && metas[k].fileId == id
  }

  lemma {:induction false} InsertedAt(files: Files, adds: seq<CompactMeta>, id: FileId)
    ensures Names(adds, id) ==>
              id in Inserted(files, adds) && Inserted(files, adds)[id] in adds && Inserted(files, adds)[id].fileId == id
    ensures !Names(adds, id) ==>
              (id in Inserted(files, adds) <==> id in files) && (id in files ==> Inserted(files, adds)[id] == files[id])
  {
    if adds != [] {
      var init, last := adds[..|adds| - 1], adds[|adds| - 1];
      assert adds == init + [last];
      InsertedAt(files, init, id);
      if Names(init, id) {
        var k :| 0 <= k < |init| && init[k].fileId == id;
        assert adds[k].fileId == id;
      }
      if last.fileId == id {
        assert adds[|adds| - 1].fileId == id;
      }
    }
  }

  lemma {:induction false} RemovedAt(files: Files, dels: seq<CompactMeta>, id: FileId)
    ensures id in Removed(files, dels) <==> id in files && !Names(dels, id)
    ensures id in Removed(files, dels) ==> Removed(files, dels)[id] == files[id]
  {
    if dels != [] {
      var init, last := dels[..|dels| - 1], dels[|dels| - 1];
      assert dels == init + [last];
      RemovedAt(files, init, id);
      if Names(init, id) {
        var k :| 0 <= k < |init| && init[k].fileId == id;
        assert dels[k].fileId == id;
      }
      if last.fileId == id {
        assert dels[|dels| - 1].fileId == id;
      }
    }
  }

  function EditedFiles(files: Files, e: VersionEdit): Files {
    Inserted(Removed(files, e.delFiles), e.addFiles)
  }

  lemma EditedAt(files: Files, e: VersionEdit, id: FileId)
    ensures var r := EditedFiles(files, e);
            if Names(e.addFiles, id) then id in r && r[id] in e.addFiles && r[id].fileId == id
            else (id in r <==> id in files && !Names(e.delFiles, id)) && (id in r ==> r[id] == files[id])
  {
    hide Inserted, Removed, Names;
    InsertedAt(Removed(files, e.delFiles), e.addFiles, id);
    RemovedAt(files, e.delFiles, id);
  }

  /** The vnode's last add is edit `k`, and no delete has come since. */
  ghost predicate Born(log: seq<VersionEdit>, v: VnodeId, k: int) {
    && 0 <= k < |log| && log[k].tsfId == v && log[k].action.Add?
    && forall j :: k < j < |log| && log[j].tsfId == v ==> log[j].action.Update?
  }

  /** Edit `j` is one of the vnode's edits from its last add on. */
  ghost predicate InLife(log: seq<VersionEdit>, v: VnodeId, k: int, j: int) {
    0 <= k <= j < |log| && log[j].tsfId == v
  }

  lemma BornBefore(log: seq<VersionEdit>, v: VnodeId, k: int)
    requires log != []
    ensures var n, e := |log| - 1, log[|log| - 1];
            Born(log, v, k) <==>
            if k == n then e.tsfId == v && e.action.Add?
            else Born(log[..n], v, k) && (e.tsfId == v ==> e.action.Update?)
  {
    var init := log[..|log| - 1];
    assert forall j :: 0 <= j < |init| ==> init[j] == log[j];
  }

  /** A vnode is there exactly if it has been added and not deleted since. */
  lemma {:induction false} LiveIffBorn(log: seq<VersionEdit>, v: VnodeId)
    ensures v in Replayed(NO_VNODES, log) <==> exists k :: Born(log, v, k)
  {
    hide Born, Edited;
    if log == [] {
      assert forall k :: !Born(log, v, k) by { NobodyIsBorn(v); }
    } else {
      var init, n, e := log[..|log| - 1], |log| - 1, log[|log| - 1];
      LiveIffBorn(init, v);
      forall k ensures Born(log, v, k) <==> if k == n then e.tsfId == v && e.action.Add?
                                            else Born(init, v, k) && (e.tsfId == v ==> e.action.Update?)
      {
        BornBefore(log, v, k);
      }
      if exists k :: Born(init, v, k) {
        var k :| Born(init, v, k);
        assert k < n by { BornWithin(init, v, k); }
        assert Born(log, v, k) <==> (e.tsfId == v ==> e.action.Update?);
      }
      assert Born(log, v, n) <==> e.tsfId == v && e.action.Add?;
    }
  }

  lemma NobodyIsBorn(v: VnodeId)
    ensures forall k :: !Born([], v, k)
  {
  }

  lemma BornWithin(log: seq<VersionEdit>, v: VnodeId, k: int)
    requires Born(log, v, k)
    ensures k < |log|
  {
  }

  function TsOf(e: VersionEdit): int {
    e.maxLevelTs
  }

  function SeqOf(e: VersionEdit): int {
    e.seqNo
  }

  function FileIdOf(e: VersionEdit): int {
    e.fileId
  }

  /** `x` is the greatest value of the vnode's edits since `k`, or `least` if none exceeds it. */
  ghost predicate IsMaxOver(f: VersionEdit -> int, log: seq<VersionEdit>, v: VnodeId, k: int, least: int, x: int) {
    && x >= least && (forall j :: InLife(log, v, k, j) ==> f(log[j]) <= x)
    && (x == least || exists j :: InLife(log, v, k, j) && f(log[j]) == x)
  }

  lemma MaxGrows(f: VersionEdit -> int, log: seq<VersionEdit>, v: VnodeId, k: int, least: int, x: int)
    requires log != [] && 0 <= k < |log| && IsMaxOver(f, log[..|log| - 1], v, k, least, x)
    ensures var e := log[|log| - 1]; IsMaxOver(f, log, v, k, least, if e.tsfId == v then Max(x, f(e)) else x)
  {
    var init, n, e := log[..|log| - 1], |log| - 1, log[|log| - 1];
    var y := if e.tsfId == v then Max(x, f(e)) else x;
    forall j | InLife(log, v, k, j) ensures f(log[j]) <= y {
      if j < n {
        assert InLife(init, v, k, j) && init[j] == log[j];
      }
    }
    if y != least {
      if y == x {
        var j :| InLife(init, v, k, j) && f(init[j]) == x;
        assert InLife(log, v, k, j) && f(log[j]) == y;
      } else {
        assert InLife(log, v, k, n) && f(log[n]) == y;
      }
    }
  }

  lemma NoMaxBefore(f: VersionEdit -> int, log: seq<VersionEdit>, v: VnodeId, least: int)
    ensures IsMaxOver(f, log, v, |log|, least, least)
  {
  }

  /** What recovery reads for a vnode: the name it was added under, and the greatest of each running maximum. */
  lemma {:induction false} RecoveredMaxima(log: seq<VersionEdit>, v: VnodeId, k: int)
    requires Born(log, v, k)
    ensures var st := Replayed(NO_VNODES, log);
            && v in st && st[v].version.owner == log[k].tsfName
            && IsMaxOver(TsOf, log, v, k, I64_MIN, st[v].version.maxLevelTs)
            && IsMaxOver(SeqOf, log, v, k, 0, st[v].version.lastSeq)
            && IsMaxOver(FileIdOf, log, v, k, 0, st[v].fileHigh)
    decreases |log|
  {
    hide IsMaxOver, Inserted, Removed;
    var init, n, e := log[..|log| - 1], |log| - 1, log[|log| - 1];
    BornBefore(log, v, k);
    if k == n {
      NoMaxBefore(TsOf, init, v, I64_MIN);
      NoMaxBefore(SeqOf, init, v, 0);
      NoMaxBefore(FileIdOf, init, v, 0);
      MaxGrows(TsOf, log, v, k, I64_MIN, I64_MIN);
      MaxGrows(SeqOf, log, v, k, 0, 0);
      MaxGrows(FileIdOf, log, v, k, 0, 0);
    } else {
      RecoveredMaxima(init, v, k);
      var earlier := Replayed(NO_VNODES, init)[v];
      MaxGrows(TsOf, log, v, k, I64_MIN, earlier.version.maxLevelTs);
      MaxGrows(SeqOf, log, v, k, 0, earlier.version.lastSeq);
      MaxGrows(FileIdOf, log, v, k, 0, earlier.fileHigh);
    }
  }

  /** Position `p` is the last at which the list names the file. */
  ghost predicate LastNamed(metas: seq<CompactMeta>, id: FileId, p: int) {
    0 <= p < |metas| && metas[p].fileId == id && forall q :: p < q < |metas| ==> metas[q].fileId != id
  }

  lemma {:induction false} NamesLast(metas: seq<CompactMeta>, id: FileId)
    ensures Names(metas, id) <==> exists p :: LastNamed(metas, id, p)
  {
    if metas != [] {
      var init, n := metas[..|metas| - 1], |metas| - 1;
      NamesLast(init, id);
      if metas[n].fileId == id {
        assert LastNamed(metas, id, n);
      } else if Names(metas, id) {
        var k :| 0 <= k < |metas| && metas[k].fileId == id;
        assert init[k].fileId == id;
        var p :| LastNamed(init, id, p);
        assert LastNamed(metas, id, p);
      }
    }
  }

  lemma {:induction false} InsertedLast(files: Files, adds: seq<CompactMeta>, id: FileId, p: int)
    requires LastNamed(adds, id, p)
    ensures id in Inserted(files, adds) && Inserted(files, adds)[id] == adds[p]
    decreases |adds|
  {
    if p < |adds| - 1 {
      var init := adds[..|adds| - 1];
      assert LastNamed(init, id, p);
      InsertedLast(files, init, id, p);
    }
  }

  /** Edit `j` adds the file, at position `p` last, and no later edit of the vnode names it. */
  ghost predicate LastWord(log: seq<VersionEdit>, v: VnodeId, k: int, id: FileId, j: int, p: int) {
    && InLife(log, v, k, j) && LastNamed(log[j].addFiles, id, p)
    && forall i :: j < i && InLife(log, v, k, i) ==> !Names(log[i].addFiles, id) && !Names(log[i].delFiles, id)
  }

  lemma WordBefore(log: seq<VersionEdit>, v: VnodeId, k: int, id: FileId, j: int, p: int)
    requires log != [] && 0 <= k < |log|
    ensures var n, e := |log| - 1, log[|log| - 1];
            LastWord(log, v, k, id, j, p) <==>
            if j == n then e.tsfId == v && LastNamed(e.addFiles, id, p)
            else LastWord(log[..n], v, k, id, j, p) &&
                 (e.tsfId == v ==> !Names(e.addFiles, id) && !Names(e.delFiles, id))
  {
    hide Names, LastNamed;
    var init, n := log[..|log| - 1], |log| - 1;
    assert forall i :: 0 <= i < n ==> init[i] == log[i];
    assert forall i :: InLife(init, v, k, i) <==> i < n && InLife(log, v, k, i);
  }

  /** A vnode has exactly the files whose last word is an addition, each as that addition describes it. */
  lemma {:induction false} RecoveredFiles(log: seq<VersionEdit>, v: VnodeId, k: int, id: FileId)
    requires Born(log, v, k)
    ensures var st := Replayed(NO_VNODES, log);
            && v in st && (id in st[v].version.files <==> exists j, p :: LastWord(log, v, k, id, j, p))
            && forall j, p :: LastWord(log, v, k, id, j, p) ==> st[v].version.files[id] == log[j].addFiles[p]
    decreases |log|
  {
    hide Inserted, Removed, LastWord, Names;
    var init, n, e := log[..|log| - 1], |log| - 1, log[|log| - 1];
    BornBefore(log, v, k);
    var before := NO_FILES;
    if k < n {
      RecoveredFiles(init, v, k, id);
      before := Replayed(NO_VNODES, init)[v].version.files;
    } else {
      forall j, p ensures !LastWord(init, v, k, id, j, p) { NoWordYet(init, v, id, j, p); }
    }
    forall j, p ensures LastWord(log, v, k, id, j, p) <==>
                        if j == n then e.tsfId == v && LastNamed(e.addFiles, id, p)
                        else LastWord(init, v, k, id, j, p) &&
                             (e.tsfId == v ==> !Names(e.addFiles, id) && !Names(e.delFiles, id))
    {
      WordBefore(log, v, k, id, j, p);
    }
    forall j, p | LastWord(init, v, k, id, j, p) ensures j < n { WordWithin(init, v, k, id, j, p); }
    if exists j, p :: LastWord(init, v, k, id, j, p) {
      var j, p :| LastWord(init, v, k, id, j, p);
      assert LastWord(log, v, k, id, j, p) <==>
             (e.tsfId == v ==> !Names(e.addFiles, id) && !Names(e.delFiles, id));
    }
    if e.tsfId == v {
      EditedAt(before, e, id);
      NamesLast(e.addFiles, id);
      forall p | LastNamed(e.addFiles, id, p) ensures EditedFiles(before, e)[id] == e.addFiles[p] {
        InsertedLast(Removed(before, e.delFiles), e.addFiles, id, p);
      }
      if Names(e.addFiles, id) {
        var p :| LastNamed(e.addFiles, id, p);
        assert LastWord(log, v, k, id, n, p);
      }
    }
    forall j, p | LastWord(log, v, k, id, j, p)
      ensures 0 <= j < |log| && 0 <= p < |log[j].addFiles|
    {
      WordWithin(log, v, k, id, j, p);
    }
    forall j, p | LastWord(log, v, k, id, j, p)
      ensures Replayed(NO_VNODES, log)[v].version.files[id] == log[j].addFiles[p]
    {
      if j != n {
        assert LastWord(init, v, k, id, j, p) && init[j] == log[j];
      }
    }
  }

  lemma NoWordYet(log: seq<VersionEdit>, v: VnodeId, id: FileId, j: int, p: int)
    ensures !LastWord(log, v, |log|, id, j, p)
  {
  }

  lemma WordWithin(log: seq<VersionEdit>, v: VnodeId, k: int, id: FileId, j: int, p: int)
    requires LastWord(log, v, k, id, j, p)
    ensures 0 <= j < |log| && 0 <= p < |log[j].addFiles|
  {
  }

  // ---------------------------------------------------------------- two-phase recovery

  /** What the record reader yields before the end of the file. */
  datatype Record = Edit(edit: VersionEdit) | HashCheckFailed | Unreadable

  /** What the meta service says of an owner's database. */
  datatype Schema = Known | Missing | LookupFailed

  datatype Recovered = Recovered(versions: map<VnodeId, Version>, nextFileId: FileId)

  /** The edits of the records, skipping those whose checksum fails. */
  function EditsOf(records: seq<Record>): seq<VersionEdit> {
    if records == [] then []
    else
      var last := records[|records| - 1];
      EditsOf(records[..|records| - 1]) + if last.Edit? then [last.edit] else []
  }

  lemma {:induction false} EditsOfConcat(a: seq<Record>, b: seq<Record>)
    ensures EditsOf(a + b) == EditsOf(a) + EditsOf(b)
  {
    if b == [] {
      assert a + b == a;
    } else {
      EditsOfConcat(a, b[..|b| - 1]);
      assert (a + b)[..|a + b| - 1] == a + b[..|b| - 1];
    }
  }

  /** Every record counts on its own: a readable one for its edit, in its place, and a failed checksum for nothing. */
  lemma RecordCounts(a: seq<Record>, r: Record, b: seq<Record>)
    ensures EditsOf(a + [r] + b) == EditsOf(a) + (if r.Edit? then [r.edit] else []) + EditsOf(b)
  {
    EditsOfConcat(a + [r], b);
    EditsOfConcat(a, [r]);
    assert [r][..0] == [] && EditsOf([]) == [];
  }

  /** One vnode's group of edits, replayed alone. */
  function GroupReplayed(owner: string, edits: seq<VersionEdit>): Vnode {
    if edits == [] then Blank(owner)
    else Edited(GroupReplayed(owner, edits[..|edits| - 1]), edits[|edits| - 1])
  }

  /** The groups and owners of the first phase stand for the one-pass state. */
  ghost predicate Grouped(groups: map<VnodeId, seq<VersionEdit>>, owners: map<VnodeId, string>, st: State) {
    groups.Keys == owners.Keys == st.Keys &&
    forall v :: v in st ==> st[v] == GroupReplayed(owners[v], groups[v])
  }

  /** The loop body of the first phase. */
  function GroupsWith(groups: map<VnodeId, seq<VersionEdit>>, ed: VersionEdit): map<VnodeId, seq<VersionEdit>> {
    match ed.action
    case Add => groups[ed.tsfId := [ed]]
    case Delete => groups - {ed.tsfId}
    case Update => if ed.tsfId in groups then groups[ed.tsfId := groups[ed.tsfId] + [ed]] else groups
  }

  function OwnersWith(owners: map<VnodeId, string>, ed: VersionEdit): map<VnodeId, string> {
    match ed.action
    case Add => owners[ed.tsfId := ed.tsfName]
    case Delete => owners - {ed.tsfId}
    case Update => owners
  }

  /** Grouping one more edit stands for stepping the one-pass state. */
  lemma GroupedAfter(groups: map<VnodeId, seq<VersionEdit>>, owners: map<VnodeId, string>, st: State, ed: VersionEdit)
    requires Grouped(groups, owners, st)
    ensures Grouped(GroupsWith(groups, ed), OwnersWith(owners, ed), Step(st, ed))
  {
    hide Edited;
    var v := ed.tsfId;
    assert [ed][..0] == [];
    assert GroupReplayed(ed.tsfName, [ed]) == Edited(Blank(ed.tsfName), ed);
    if v in groups {
      assert (groups[v] + [ed])[..|groups[v]|] == groups[v];
    }
  }

  /** First phase: group the edits by vnode; the owner of each group is kept beside it. */
  method GroupRecords(records: seq<Record>)
    returns (ok: bool, groups: map<VnodeId, seq<VersionEdit>>, owners: map<VnodeId, string>)
    ensures ok <==> Unreadable !in records
    ensures ok ==> Grouped(groups, owners, Replayed(NO_VNODES, EditsOf(records)))
  {
    hide Edited, GroupReplayed, Step;
    groups, owners := map[], map[];
    for n := 0 to |records|
      invariant Unreadable !in records[..n]
      invariant Grouped(groups, owners, Replayed(NO_VNODES, EditsOf(records[..n])))
    {
      assert records[..n + 1][..n] == records[..n];
      match records[n]
      case HashCheckFailed =>
        assert EditsOf(records[..n + 1]) == EditsOf(records[..n]);
      case Unreadable =>
        assert records[n] in records;
        return false, groups, owners;
      case Edit(ed) =>
        ghost var before := EditsOf(records[..n]);
        assert EditsOf(records[..n + 1]) == before + [ed];
        assert (before + [ed])[..|before|] == before;
        GroupedAfter(groups, owners, Replayed(NO_VNODES, before), ed);
        groups, owners := GroupsWith(groups, ed), OwnersWith(owners, ed);
    }
    assert records[..|records|] == records;
    ok := true;
  }

  /** Second phase, one vnode: its files, its maxima, and the highest file id seen so far. */
  method ReplayGroup(owner: string, edits: seq<VersionEdit>, highBefore: FileId)
    returns (version: Version, high: FileId)
    ensures version == GroupReplayed(owner, edits).version
    ensures high == Max(highBefore, GroupReplayed(owner, edits).fileHigh)
  {
    var files: Files, maxSeq: nat, maxTs := NO_FILES, 0, I64_MIN;
    high := highBefore;
    for n := 0 to |edits|
      invariant Version(owner, files, maxSeq, maxTs) == GroupReplayed(owner, edits[..n]).version
      invariant high == Max(highBefore, GroupReplayed(owner, edits[..n]).fileHigh)
    {
      assert edits[..n + 1][..n] == edits[..n];
      var e := edits[n];
      maxSeq := Max(maxSeq, e.seqNo);
      maxTs := Max(maxTs, e.maxLevelTs);
      high := Max(high, e.fileId);
      ghost var start := files;
      for k := 0 to |e.delFiles|
        invariant files == Removed(start, e.delFiles[..k])
      {
        assert e.delFiles[..k + 1][..k] == e.delFiles[..k];
        files := files - {e.delFiles[k].fileId};
      }
      assert e.delFiles[..|e.delFiles|] == e.delFiles;
      ghost var kept := files;
      for k := 0 to |e.addFiles|
        invariant files == Inserted(kept, e.addFiles[..k])
      {
        assert e.addFiles[..k + 1][..k] == e.addFiles[..k];
        files := files[e.addFiles[k].fileId := e.addFiles[k]];
      }
      assert e.addFiles[..|e.addFiles|] == e.addFiles;
    }
    assert edits[..|edits|] == edits;
    version := Version(owner, files, maxSeq, maxTs);
  }

  ghost function KnownVersions(st: State, vnodes: set<VnodeId>, schema: string -> Schema): map<VnodeId, Version> {
    map v | v in st && v in vnodes && schema(st[v].version.owner) == Known :: st[v].version
  }

  ghost predicate NoLookupFails(st: State, vnodes: set<VnodeId>, schema: string -> Schema) {
    forall v :: v in st && v in vnodes ==> schema(st[v].version.owner) != LookupFailed
  }

  /** `high` is the largest file id of the given vnodes, 0 if there is none. */
  ghost predicate IsHighest(st: State, vnodes: set<VnodeId>, high: FileId) {
    && (forall v :: v in st && v in vnodes ==> st[v].fileHigh <= high)
    && (high == 0 || exists v :: v in st && v in vnodes && st[v].fileHigh == high)
  }

  lemma VisitVnode(st: State, done: set<VnodeId>, v: VnodeId, schema: string -> Schema, high: FileId)
    requires v in st && v !in done && NoLookupFails(st, done, schema) && IsHighest(st, done, high)
    ensures NoLookupFails(st, done + {v}, schema) <==> schema(st[v].version.owner) != LookupFailed
    ensures IsHighest(st, done + {v}, Max(high, st[v].fileHigh))
    ensures KnownVersions(st, done + {v}, schema) ==
            if schema(st[v].version.owner) == Known then KnownVersions(st, done, schema)[v := st[v].version]
            else KnownVersions(st, done, schema)
  {
    if high > st[v].fileHigh {
      var w :| w in st && w in done && st[w].fileHigh == high;
      assert w in done + {v};
    }
  }

  /** Second phase over all groups, in any order; the owner of every group is there to be taken. */
  method RecoverGroups(groups: map<VnodeId, seq<VersionEdit>>, owners: map<VnodeId, string>,
                       schema: string -> Schema, ghost st: State) returns (r: Result<Recovered, ()>)
    requires Grouped(groups, owners, st)
    ensures r.Ok? <==> NoLookupFails(st, st.Keys, schema)
    ensures r.Ok? ==>
      r.value.versions == KnownVersions(st, st.Keys, schema) &&
      r.value.nextFileId >= 1 && IsHighest(st, st.Keys, r.value.nextFileId - 1)
  {
    hide GroupReplayed, KnownVersions, IsHighest, NoLookupFails;
    GroupOwners(groups, owners, st);
    EmptyVisit(st, schema);
    var versions: map<VnodeId, Version>, high: nat := map[], 0;
    var rest := groups.Keys;
    ghost var done: set<VnodeId> := {};
    while rest != {}
      invariant rest <= st.Keys && done == st.Keys - rest
      invariant NoLookupFails(st, done, schema)
      invariant versions == KnownVersions(st, done, schema)
      invariant IsHighest(st, done, high)
      decreases |rest|
    {
      var v :| v in rest;
      VisitVnode(st, done, v, schema, high);
      var owner := owners[v];
      var version;
      version, high := ReplayGroup(owner, groups[v], high);
      assert version == st[v].version;
      match schema(owner) {
        case Missing =>
        case LookupFailed =>
          FailedLookup(st, v, schema);
          return Err(());
        case Known =>
          versions := versions[v := version];
      }
      done := done + {v};
      rest := rest - {v};
    }
    assert done == st.Keys;
    r := Ok(Recovered(versions, high + 1));
  }

  lemma EmptyVisit(st: State, schema: string -> Schema)
    ensures NoLookupFails(st, {}, schema) && KnownVersions(st, {}, schema) == map[] && IsHighest(st, {}, 0)
  {
  }

  lemma FailedLookup(st: State, v: VnodeId, schema: string -> Schema)
    requires v in st && schema(st[v].version.owner) == LookupFailed
    ensures !NoLookupFails(st, st.Keys, schema)
  {
  }

  /**
   Recovery arrives at the one-pass state: the versions of the vnodes whose
   database is known, and a next file id above the highest one of any live
   vnode, known or not. It fails exactly on an unreadable record or a failed
   lookup for a live vnode.
   */
  method RecoverVersion(records: seq<Record>, schema: string -> Schema) returns (r: Result<Recovered, ()>)
    ensures var st := Replayed(NO_VNODES, EditsOf(records));
            && (r.Ok? <==> Unreadable !in records && NoLookupFails(st, st.Keys, schema))
            && (r.Ok? ==>
                && r.value.versions == KnownVersions(st, st.Keys, schema)
                && r.value.nextFileId >= 1 && IsHighest(st, st.Keys, r.value.nextFileId - 1))
  {
    var ok, groups, owners := GroupRecords(records);
    if !ok {
      return Err(());
    }
    r := RecoverGroups(groups, owners, schema, Replayed(NO_VNODES, EditsOf(records)));
  }

  lemma GroupOwners(groups: map<VnodeId, seq<VersionEdit>>, owners: map<VnodeId, string>, st: State)
    requires Grouped(groups, owners, st)
    ensures forall v :: v in st ==> owners[v] == st[v].version.owner
  {
    forall v | v in st ensures owners[v] == st[v].version.owner {
      GroupOwner(owners[v], groups[v]);
    }
  }

  lemma {:induction false} GroupOwner(owner: string, edits: seq<VersionEdit>)
    ensures GroupReplayed(owner, edits).version.owner == owner
  {
    if edits != [] {
      GroupOwner(owner, edits[..|edits| - 1]);
    }
  }
}
