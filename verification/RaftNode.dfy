/**
 One Raft group's durable state and the effect on it of each storage callback
 (`NodeStorage` in replication/src/node_store.rs), over values. The class in
 NodeStore.dfy performs these steps on the three stores.
 */
module RaftNode {
  import opened Wrappers
  import opened RaftTypes
  import opened EntryStore
  import opened StateStore
  import opened ApplyStore

  datatype Node = Node(
    log: Log,
    group: GroupView,
    kv: map<string, string>,
    cached: Option<(SnapshotData, u64)>)

  datatype SnapshotMeta = SnapshotMeta(lastLogId: Option<LogId>, lastMembership: StoredMembership)

  datatype StoredSnapshot = StoredSnapshot(data: SnapshotData, meta: SnapshotMeta)

  datatype LogState = LogState(lastPurged: Option<LogId>, lastLog: Option<LogId>)

  datatype Bound = Included(at: u64) | Excluded(at: u64) | Unbounded

  const EMPTY_SNAPSHOT := StoredSnapshot(Undecodable([]), SnapshotMeta(None, DEFAULT_MEMBERSHIP))

  ghost const NEW_NODE := Node(map[], GroupView(None, None, None, DEFAULT_MEMBERSHIP, imap[]), map[], None)

  predicate HasIndex(id: Option<LogId>, index: u64) {
    id.Some? && id.value.index == index
  }

  /** The log id at `index`: from the log, else the installed snapshot, else the last applied entry. */
  function SnapshotLogId(n: Node, index: u64): Option<LogId> {
    if index in n.log && n.log[index].logId.index == index then Some(n.log[index].logId)
    else if HasIndex(n.group.snapshotApplied, index) then n.group.snapshotApplied
    else if HasIndex(n.group.applied, index) then n.group.applied
    else None
  }

  /** The latest recorded membership at or below `index`, else the last membership. */
  ghost function SnapshotMembership(g: GroupView, index: u64): StoredMembership {
    match LatestAt(g.history, index)
    case Some(m) => LatestAtIsMaximum(g.history, index); g.history[m]
    case None => g.last
  }

  ghost function SnapshotMetaAt(n: Node, index: u64): SnapshotMeta {
    SnapshotMeta(SnapshotLogId(n, index), SnapshotMembership(n.group, index))
  }

  /** Reading the metadata clears the membership history below `index`. */
  ghost function ClearHistory(n: Node, index: u64): Node {
    n.(group := n.group.(history := Cleared(n.group.history, index)))
  }

  ghost function CreateSnapshot(n: Node): (Node, StoredSnapshot) {
    if n.group.applied.None? then (n, EMPTY_SNAPSHOT)
    else
      var index := n.group.applied.value.index;
      var taken := n.(cached := Some((Image(n.kv), index)));
      (ClearHistory(taken, index), StoredSnapshot(Image(n.kv), SnapshotMetaAt(taken, index)))
  }

  ghost function CurrentSnapshot(n: Node): (Node, Option<StoredSnapshot>) {
    if n.cached.None? then (n, None)
    else
      var (data, index) := n.cached.value;
      (ClearHistory(n, index), Some(StoredSnapshot(data, SnapshotMetaAt(n, index))))
  }

  ghost function WithMembership(g: GroupView, m: StoredMembership): GroupView {
    g.(last := m, history := if m.logId.Some? then g.history[m.logId.value.index := m] else g.history)
  }

  /** Installing: three state values, the engine content, then a fresh snapshot; a bad image stops after the values. */
  ghost function InstallSnapshot(n: Node, s: StoredSnapshot): (Node, bool) {
    var id := if s.meta.lastLogId.Some? then s.meta.lastLogId.value else DEFAULT_LOG_ID;
    var g := WithMembership(n.group.(applied := Some(id)), s.meta.lastMembership).(snapshotApplied := Some(id));
    match s.data
    case Undecodable(_) => (n.(group := g), false)
    case Image(content) => (CreateSnapshot(n.(group := g, kv := content)).0, true)
  }

  ghost function AppendToLog(n: Node, ents: seq<Entry>): Node {
    if ents == [] then n
    else n.(log := PutAll(Below(n.log, ents[0].logId.index), ents))
  }

  ghost function TruncateFrom(n: Node, id: LogId): Node {
    n.(log := Below(n.log, id.index))
  }

  ghost function PurgeUpTo(n: Node, id: LogId): Node {
    n.(group := n.group.(purged := Some(id)), log := From(n.log, id.index + 1))
  }

  /** One entry: last-applied first, then its effect; a malformed request has none and is reported. */
  ghost function ApplyOne(n: Node, e: Entry): (Node, Result<string, ()>) {
    var m := n.(group := n.group.(applied := Some(e.logId)));
    match e.payload
    case Blank => (m, Ok(""))
    case Normal(Put(k, v)) => (m.(kv := m.kv[k := v]), Ok(v))
    case Normal(Malformed(_)) => (m, Err(()))
    case Membership(c) => (m.(group := WithMembership(m.group, StoredMembership(Some(e.logId), c))), Ok(""))
  }

  /** The entries in order, stopping at the first that fails. */
  ghost function ApplyEntries(n: Node, ents: seq<Entry>): (Node, Result<seq<string>, ()>) {
    if ents == [] then (n, Ok([]))
    else
      var (m, r) := ApplyEntries(n, ents[..|ents| - 1]);
      if r.Err? then (m, r)
      else
        var (m', r') := ApplyOne(m, ents[|ents| - 1]);
        (m', if r'.Err? then Err(()) else Ok(r.value + [r'.value]))
  }

  lemma {:induction false} FirstFailureEndsApply(n: Node, ents: seq<Entry>, k: nat)
    requires k <= |ents| && ApplyEntries(n, ents[..k]).1.Err?
    ensures ApplyEntries(n, ents) == ApplyEntries(n, ents[..k])
    decreases |ents|
  {
    if k == |ents| {
      assert ents[..k] == ents;
    } else {
      assert ents[..|ents| - 1][..k] == ents[..k];
      FirstFailureEndsApply(n, ents[..|ents| - 1], k);
    }
  }

  /** Opening again: the cached snapshot is gone and a new one is taken. */
  ghost function Reopen(n: Node): Node {
    CreateSnapshot(n.(cached := None)).0
  }

  function StartOf(b: Bound): u64
    requires b.Excluded? ==> b.at < U64_MAX
  {
    match b
    case Included(x) => x
    case Excluded(x) => x + 1
    case Unbounded => 0
  }

  function EndOf(b: Bound): u64
    requires b.Included? ==> b.at < U64_MAX
  {
    match b
    case Included(x) => x + 1
    case Excluded(x) => x
    case Unbounded => U64_MAX
  }

  // ---------------------------------------------------------------- what each step does, entry by entry

  /** The indexes between two bounds; an open end stops short of the last index there is. */
  predicate InBounds(start: Bound, end: Bound, i: u64) {
    && (start.Included? ==> start.at <= i) && (start.Excluded? ==> start.at < i)
    && (end.Included? ==> i <= end.at) && (end.Excluded? ==> i < end.at) && (end.Unbounded? ==> i < U64_MAX)
  }

  lemma BoundsAreExact(start: Bound, end: Bound, i: u64)
    requires (start.Excluded? ==> start.at < U64_MAX) && (end.Included? ==> end.at < U64_MAX)
    ensures StartOf(start) <= i < EndOf(end) <==> InBounds(start, end, i)
  {
  }

  /** Truncating removes the entries from `id` on and touches nothing else. */
  lemma TruncateIsExact(n: Node, id: LogId)
    ensures var m := TruncateFrom(n, id);
            && m.group == n.group && m.kv == n.kv && m.cached == n.cached
            && (forall i :: i in m.log <==> i in n.log && i < id.index)
            && (forall i :: i in m.log ==> m.log[i] == n.log[i])
  {
  }

  /** Purging removes the entries up to `id`, keeps every one above it, and records `id`. */
  lemma PurgeIsExact(n: Node, id: LogId)
    ensures var m := PurgeUpTo(n, id);
            && m.group == n.group.(purged := Some(id)) && m.kv == n.kv && m.cached == n.cached
            && (forall i :: i in m.log <==> i in n.log && i > id.index)
            && (forall i :: i in m.log ==> m.log[i] == n.log[i])
  {
  }

  predicate IsMalformed(e: Entry) {
    e.payload.Normal? && e.payload.request.Malformed?
  }

  /** Each response answers its own entry: the value put, nothing for the others. */
  ghost predicate Answers(ents: seq<Entry>, responses: seq<string>) {
    && |responses| == |ents|
    && forall k :: 0 <= k < |ents| ==>
         responses[k] == if ents[k].payload.Normal? && ents[k].payload.request.Put?
                         then ents[k].payload.request.value else ""
  }

  /** The call fails exactly on a malformed request; otherwise every entry is answered, in order. */
  lemma {:induction false} ResponsesMatchEntries(n: Node, ents: seq<Entry>)
    ensures var r := ApplyEntries(n, ents).1;
            && (r.Err? <==> exists k :: 0 <= k < |ents| && IsMalformed(ents[k]))
            && (r.Ok? ==> Answers(ents, r.value))
  {
    if ents != [] {
      var init, last := ents[..|ents| - 1], ents[|ents| - 1];
      ResponsesMatchEntries(n, init);
      assert forall k :: 0 <= k < |init| ==> init[k] == ents[k];
      if IsMalformed(last) {
        assert IsMalformed(ents[|ents| - 1]);
      }
      if ApplyEntries(n, init).1.Err? {
        var k :| 0 <= k < |init| && IsMalformed(init[k]);
        assert IsMalformed(ents[k]);
      }
    }
  }

  /** The last entry a call applies: the first malformed one, or the last of all. */
  ghost predicate EndsAt(ents: seq<Entry>, k: nat) {
    && k < |ents| && (IsMalformed(ents[k]) || k == |ents| - 1)
    && forall j :: 0 <= j < k ==> !IsMalformed(ents[j])
  }

  /** Last-applied is the entry the call ends at; the log, the purged id and the cached snapshot are not touched. */
  lemma {:induction false} ApplyEndsAt(n: Node, ents: seq<Entry>, k: nat)
    requires EndsAt(ents, k)
    ensures var m := ApplyEntries(n, ents).0;
            && m.group.applied == Some(ents[k].logId)
            && m.log == n.log && m.cached == n.cached
            && m.group.purged == n.group.purged && m.group.snapshotApplied == n.group.snapshotApplied
    decreases |ents|
  {
    var init := ents[..|ents| - 1];
    assert forall j :: 0 <= j < |init| ==> init[j] == ents[j];
    ApplyTouches(n, init);
    ResponsesMatchEntries(n, init);
    if k < |init| {
      assert IsMalformed(init[k]);
      ApplyEndsAt(n, init, k);
    }
  }

  lemma {:induction false} ApplyTouches(n: Node, ents: seq<Entry>)
    ensures var m := ApplyEntries(n, ents).0;
            && m.log == n.log && m.cached == n.cached
            && m.group.purged == n.group.purged && m.group.snapshotApplied == n.group.snapshotApplied
  {
    if ents != [] {
      ApplyTouches(n, ents[..|ents| - 1]);
    }
  }

  /** A snapshot is the engine's content at the applied index; it replaces the cached one and changes no data. */
  lemma SnapshotIsCached(n: Node)
    ensures var (m, s) := CreateSnapshot(n);
            && m.log == n.log && m.kv == n.kv
            && m.group == n.group.(history := m.group.history)
            && (n.group.applied.None? ==> m == n && s == EMPTY_SNAPSHOT)
            && (n.group.applied.Some? ==>
                  && s.data == Image(n.kv) && m.cached == Some((Image(n.kv), n.group.applied.value.index))
                  && s.meta.lastLogId.Some? && s.meta.lastLogId.value.index == n.group.applied.value.index)
  {
  }

  /** Serving hands out the cached image under its own index, if there is one, and changes no data. */
  lemma ServedIsCached(n: Node)
    ensures var (m, s) := CurrentSnapshot(n);
            && m.log == n.log && m.kv == n.kv && m.cached == n.cached
            && m.group == n.group.(history := m.group.history)
            && (s.Some? <==> n.cached.Some?)
            && (s.Some? ==> s.value.data == n.cached.value.0)
            && (s.Some? && s.value.meta.lastLogId.Some? ==> s.value.meta.lastLogId.value.index == n.cached.value.1)
  {
  }

  /**
   Installing sets both ids and the membership, whatever the image; a readable
   image becomes the engine's content and the cached snapshot, an unreadable
   one leaves both alone.
   */
  lemma InstallIsExact(n: Node, s: StoredSnapshot)
    ensures var (m, ok) := InstallSnapshot(n, s);
            var id := if s.meta.lastLogId.Some? then s.meta.lastLogId.value else DEFAULT_LOG_ID;
            && (ok <==> s.data.Image?)
            && m.group.applied == m.group.snapshotApplied == Some(id)
            && m.group.last == s.meta.lastMembership && m.group.purged == n.group.purged && m.log == n.log
            && (ok ==> m.kv == s.data.content && m.cached == Some((s.data, id.index)))
            && (!ok ==> m.kv == n.kv && m.cached == n.cached)
  {
  }

  /** Opening again keeps the data and takes the snapshot anew, or has none if nothing is applied. */
  lemma ReopenIsExact(n: Node)
    ensures var m := Reopen(n);
            && m.log == n.log && m.kv == n.kv && m.group == n.group.(history := m.group.history)
            && m.cached == if n.group.applied.None? then None else Some((Image(n.kv), n.group.applied.value.index))
  {
  }
}
