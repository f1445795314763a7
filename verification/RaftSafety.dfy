/**
 State machine safety of the Raft storage layer: what every callback keeps,
 relative to the committed log, when it is called as openraft calls it.
 */
module RaftSafety {
  import opened Wrappers
  import opened RaftTypes
  import opened EntryStore
  import opened StateStore
  import opened ApplyStore
  import opened RaftNode
  import opened CommittedLog

  /** How many committed entries the group has applied. */
  function AppliedCount(g: GroupView): nat {
    if g.applied.None? then 0 else g.applied.value.index + 1
  }

  /** The first index that has not been purged. */
  function FirstIndex(g: GroupView): nat {
    if g.purged.None? then 0 else g.purged.value.index + 1
  }

  type Cached = Option<(SnapshotData, u64)>

  /** Positions from here on are answered correctly by the membership history. */
  function Floor(cached: Cached): nat {
    if cached.None? then 0 else cached.value.1
  }

  predicate CommittedId(c: seq<Entry>, id: LogId) {
    id.index < |c| && c[id.index].logId == id
  }

  // ---------------------------------------------------------------- the invariant

  /** The stored indexes are a gap-free interval that starts right after the purged index. */
  ghost predicate GapFree(log: Log, g: GroupView) {
    && (forall i :: i in log ==> FirstIndex(g) <= i < U64_MAX && log[i].logId.index == i)
    && (forall i: u64, j :: j in log && FirstIndex(g) <= i <= j ==> i in log)
  }

  /** An installed snapshot has overtaken everything in the log. */
  ghost predicate Overtaken(log: Log, g: GroupView) {
    g.snapshotApplied.Some? && forall i :: i in log ==> i < g.snapshotApplied.value.index
  }

  /** Applied entries still stored are the committed ones. */
  ghost predicate Agrees(log: Log, c: seq<Entry>, n: nat)
    requires n <= |c|
  {
    forall i :: i in log && i < n ==> log[i] == c[i]
  }

  /** Applied entries above the installed snapshot are stored until they are purged. */
  ghost predicate Covers(log: Log, g: GroupView) {
    forall i: u64 ::
      FirstIndex(g) <= i < AppliedCount(g) && (g.snapshotApplied.Some? ==> i > g.snapshotApplied.value.index)
      ==> i in log
  }

  ghost predicate LogInv(log: Log, g: GroupView, c: seq<Entry>) {
    && FirstIndex(g) <= AppliedCount(g) <= |c|
    && (g.purged.Some? ==> CommittedId(c, g.purged.value))
    && (g.snapshotApplied.Some? ==> g.snapshotApplied.value.index < AppliedCount(g))
    && GapFree(log, g)
    && (Agrees(log, c, AppliedCount(g)) || Overtaken(log, g))
    && Covers(log, g)
  }

  /** The engine and its cached snapshot are replays of the committed log. */
  ghost predicate EngineInv(g: GroupView, kv: map<string, string>, cached: Cached, c: seq<Entry>) {
    && AppliedCount(g) <= |c|
    && (g.applied.Some? ==> CommittedId(c, g.applied.value))
    && kv == Replay(c, AppliedCount(g))
    && (cached.Some? ==> cached.value.1 < AppliedCount(g) && cached.value.0 == Image(Replay(c, cached.value.1 + 1)))
    && (g.snapshotApplied.Some? ==>
          && CommittedId(c, g.snapshotApplied.value)
          && cached.Some? && g.snapshotApplied.value.index <= cached.value.1)
  }

  /** The history holds committed memberships only. */
  ghost predicate HistorySound(h: imap<nat, StoredMembership>, c: seq<Entry>, n: nat)
    requires n <= |c|
  {
    forall i :: i in h ==> i < n && c[i].payload.Membership? && h[i] == StoredAt(c, i)
  }

  /** From `floor` on, the history names the membership in force at every applied position. */
  ghost predicate HistoryComplete(h: imap<nat, StoredMembership>, c: seq<Entry>, floor: nat, n: nat)
    requires n <= |c|
  {
    forall j: nat {:trigger LatestAt(h, j)} :: floor <= j < n ==> LatestAt(h, j) == LatestMembership(c, j + 1)
  }

  ghost predicate MembershipInv(g: GroupView, cached: Cached, c: seq<Entry>) {
    && AppliedCount(g) <= |c|
    && g.last == MembershipAfter(c, AppliedCount(g))
    && HistorySound(g.history, c, AppliedCount(g))
    && HistoryComplete(g.history, c, Floor(cached), AppliedCount(g))
  }

  ghost predicate Inv(n: Node, c: seq<Entry>) {
    && LogInv(n.log, n.group, c)
    && EngineInv(n.group, n.kv, n.cached, c)
    && MembershipInv(n.group, n.cached, c)
  }

  lemma NewNodeInv(c: seq<Entry>)
    ensures Inv(NEW_NODE, c)
  {
  }

  /** Committing more entries disturbs no node. */
  lemma InvOfLongerLog(n: Node, c: seq<Entry>, d: seq<Entry>)
    requires Inv(n, c) && c <= d
    ensures Inv(n, d)
  {
    assert EngineInv(n.group, n.kv, n.cached, d) by {
      PrefixStable(c, d, AppliedCount(n.group));
      if n.cached.Some? {
        PrefixStable(c, d, n.cached.value.1 + 1);
      }
    }
    MembershipInvOfLongerLog(n.group, n.cached, c, d);
  }

  lemma MembershipInvOfLongerLog(g: GroupView, cached: Cached, c: seq<Entry>, d: seq<Entry>)
    requires MembershipInv(g, cached, c) && c <= d
    ensures MembershipInv(g, cached, d)
  {
    hide LatestMembership;
    var a := AppliedCount(g);
    PrefixStable(c, d, a);
    forall j: nat | Floor(cached) <= j < a ensures LatestAt(g.history, j) == LatestMembership(d, j + 1) {
      PrefixStable(c, d, j + 1);
    }
  }

  // ---------------------------------------------------------------- log callbacks

  ghost predicate Consecutive(ents: seq<Entry>) {
    forall k :: 0 <= k < |ents| ==> ents[k].logId.index == ents[0].logId.index + k
  }

  /** openraft appends consecutive entries that touch the log's end or overwrite entries not yet applied. */
  ghost predicate MayAppend(n: Node, ents: seq<Entry>) {
    ents != [] ==>
      var begin := ents[0].logId.index;
      && Consecutive(ents) && begin + |ents| <= U64_MAX
      && AppliedCount(n.group) <= begin
      && (begin == FirstIndex(n.group) || (begin > 0 && begin - 1 in n.log))
  }

  lemma {:induction false} PutAllConsecutive(log: Log, ents: seq<Entry>, i: u64)
    requires ents != [] && Consecutive(ents) && ents[0].logId.index + |ents| <= U64_MAX
    ensures var k := i - ents[0].logId.index;
            && (i in PutAll(log, ents) <==> i in log || 0 <= k < |ents|)
            && (0 <= k < |ents| ==> PutAll(log, ents)[i] == ents[k])
            && (i in log && !(0 <= k < |ents|) ==> PutAll(log, ents)[i] == log[i])
  {
    var init := ents[..|ents| - 1];
    if init != [] {
      PutAllConsecutive(log, init, i);
      assert init[0] == ents[0];
    } else {
      assert PutAll(log, init) == log;
    }
  }

  /** `m` is `log` below `begin`, followed by exactly `ents`. */
  ghost predicate TailReplaced(log: Log, m: Log, begin: u64, ents: seq<Entry>) {
    forall i: u64 ::
      && (i < begin ==> (i in m <==> i in log) && (i in log ==> m[i] == log[i]))
      && (begin <= i < begin + |ents| ==> i in m && m[i] == ents[i - begin])
      && (i >= begin + |ents| ==> i !in m)
  }

  /** Appending yields the old log below the first new index, followed by the new entries. */
  lemma AppendReplacesTail(n: Node, ents: seq<Entry>)
    requires ents != [] && MayAppend(n, ents)
    ensures TailReplaced(n.log, AppendToLog(n, ents).log, ents[0].logId.index, ents)
  {
    hide PutAll;
    var begin := ents[0].logId.index;
    forall i: u64 {
      PutAllConsecutive(Below(n.log, begin), ents, i);
    }
  }

  lemma AppendInv(n: Node, ents: seq<Entry>, c: seq<Entry>)
    requires Inv(n, c) && MayAppend(n, ents)
    ensures Inv(AppendToLog(n, ents), c)
  {
    hide EngineInv, MembershipInv, PutAll;
    if ents != [] {
      AppendReplacesTail(n, ents);
      AppendLogInv(n.log, AppendToLog(n, ents).log, n.group, ents, c);
    }
  }

  lemma AppendLogInv(log: Log, m: Log, g: GroupView, ents: seq<Entry>, c: seq<Entry>)
    requires LogInv(log, g, c) && ents != [] && Consecutive(ents)
    requires var begin := ents[0].logId.index;
      && begin + |ents| <= U64_MAX && AppliedCount(g) <= begin
      && (begin == FirstIndex(g) || (begin > 0 && begin - 1 in log))
      && TailReplaced(log, m, begin, ents)
    ensures LogInv(m, g, c)
  {
  }

  /** openraft deletes conflicting entries only above what has been applied. */
  lemma TruncateInv(n: Node, id: LogId, c: seq<Entry>)
    requires Inv(n, c) && AppliedCount(n.group) <= id.index
    ensures Inv(TruncateFrom(n, id), c)
  {
    hide EngineInv, MembershipInv;
  }

  /** openraft purges forward, and only what has been applied. */
  ghost predicate MayPurge(n: Node, id: LogId, c: seq<Entry>) {
    CommittedId(c, id) && FirstIndex(n.group) <= id.index + 1 <= AppliedCount(n.group)
  }

  lemma PurgeInv(n: Node, id: LogId, c: seq<Entry>)
    requires Inv(n, c) && MayPurge(n, id, c)
    ensures Inv(PurgeUpTo(n, id), c)
  {
  }

  // ---------------------------------------------------------------- applying entries

  /** openraft applies committed entries in order, as read from this node's log. */
  ghost predicate MayApply(n: Node, ents: seq<Entry>, c: seq<Entry>) {
    var a := AppliedCount(n.group);
    a + |ents| <= |c| && forall k :: 0 <= k < |ents| ==>
      ents[k] == c[a + k] && ents[k].logId.index in n.log && n.log[ents[k].logId.index] == ents[k]
  }

  lemma ApplyOneInv(n: Node, e: Entry, c: seq<Entry>)
    requires WellFormed(c) && Inv(n, c) && MayApply(n, [e], c)
    ensures var m := ApplyOne(n, e).0;
            Inv(m, c) && m.log == n.log && AppliedCount(m.group) == AppliedCount(n.group) + 1
  {
    hide LogInv, EngineInv, MembershipInv;
    assert [e][0] == e;
    assert AppliedCount(n.group) + 1 <= |c|;
    ApplyOneLog(n, e, c);
    ApplyOneEngine(n, e, c);
    ApplyOneMembership(n.group, ApplyOne(n, e).0.group, n.cached, e, c);
  }

  lemma ApplyOneEngine(n: Node, e: Entry, c: seq<Entry>)
    requires EngineInv(n.group, n.kv, n.cached, c)
    requires var a := AppliedCount(n.group); a < |c| && e == c[a] && e.logId.index == a
    ensures var m := ApplyOne(n, e).0; EngineInv(m.group, m.kv, m.cached, c)
    ensures n.cached.Some? ==> n.cached.value.1 < AppliedCount(n.group)
  {
    hide Replay;
    ReplayStep(c, AppliedCount(n.group));
  }

  lemma ApplyOneLog(n: Node, e: Entry, c: seq<Entry>)
    requires LogInv(n.log, n.group, c)
    requires var a := AppliedCount(n.group); a < |c| && e == c[a] && e.logId.index == a && a in n.log && n.log[a] == e
    ensures LogInv(n.log, ApplyOne(n, e).0.group, c)
  {
  }

  lemma ApplyOneMembership(g: GroupView, g': GroupView, cached: Cached, e: Entry, c: seq<Entry>)
    requires MembershipInv(g, cached, c) && (cached.Some? ==> cached.value.1 < AppliedCount(g))
    requires AppliedCount(g) < |c| && e == c[AppliedCount(g)] && e.logId.index == AppliedCount(g)
    requires AppliedCount(g') == AppliedCount(g) + 1
    requires if e.payload.Membership?
             then g'.last == StoredAt(c, AppliedCount(g)) && g'.history == g.history[AppliedCount(g) := g'.last]
             else g'.last == g.last && g'.history == g.history
    ensures MembershipInv(g', cached, c)
  {
    var a, h := AppliedCount(g), g.history;
    forall j: nat | Floor(cached) <= j < a + 1 ensures LatestAt(g'.history, j) == LatestMembership(c, j + 1) {
      if j < a && e.payload.Membership? {
        LaterRecordIsIgnored(h, a, g'.last, j);
      } else if j == a && a > 0 && !e.payload.Membership? {
        assert a !in h && LatestAt(h, a - 1) == LatestMembership(c, a);
      }
    }
  }

  /** Applying any committed stretch keeps the invariant, also when a malformed request ends it early. */
  lemma {:induction false} ApplyInv(n: Node, ents: seq<Entry>, c: seq<Entry>)
    requires WellFormed(c) && Inv(n, c) && MayApply(n, ents, c)
    ensures var (m, r) := ApplyEntries(n, ents);
            && Inv(m, c) && m.log == n.log
            && AppliedCount(n.group) <= AppliedCount(m.group) <= AppliedCount(n.group) + |ents|
            && (r.Ok? ==> AppliedCount(m.group) == AppliedCount(n.group) + |ents|)
  {
    hide Inv;
    if ents != [] {
      var init, e := ents[..|ents| - 1], ents[|ents| - 1];
      ApplyInv(n, init, c);
      var (m, r) := ApplyEntries(n, init);
      if r.Ok? {
        assert MayApply(m, [e], c);
        ApplyOneInv(m, e, c);
      }
    }
  }

  // ---------------------------------------------------------------- snapshots

  /** The part of the invariant that a snapshot at the applied point is taken from; it says nothing of the cache. */
  ghost predicate Core(n: Node, c: seq<Entry>) {
    && LogInv(n.log, n.group, c)
    && (n.group.applied.Some? ==> CommittedId(c, n.group.applied.value))
    && (n.group.snapshotApplied.Some? ==> CommittedId(c, n.group.snapshotApplied.value))
    && n.kv == Replay(c, AppliedCount(n.group))
    && n.group.last == MembershipAfter(c, AppliedCount(n.group))
    && HistorySound(n.group.history, c, AppliedCount(n.group))
    && (n.group.applied.Some? ==>
          LatestAt(n.group.history, n.group.applied.value.index) == LatestMembership(c, AppliedCount(n.group)))
  }

  lemma InvGivesCore(n: Node, c: seq<Entry>)
    requires Inv(n, c)
    ensures Core(n.(cached := None), c)
  {
  }

  /** A snapshot that carries a committed log id, the replay up to it and the membership in force there. */
  ghost predicate Genuine(s: StoredSnapshot, c: seq<Entry>) {
    s.meta.lastLogId.Some? ==>
      var id := s.meta.lastLogId.value;
      && CommittedId(c, id)
      && s.data == Image(Replay(c, id.index + 1))
      && s.meta.lastMembership == MembershipAfter(c, id.index + 1)
  }

  lemma CompleteAtOnePoint(h: imap<nat, StoredMembership>, c: seq<Entry>, index: nat)
    requires index + 1 <= |c| && LatestAt(h, index) == LatestMembership(c, index + 1)
    ensures HistoryComplete(h, c, index, index + 1)
  {
  }

  lemma ClearKeepsHistory(h: imap<nat, StoredMembership>, c: seq<Entry>, index: nat, n: nat)
    requires n <= |c| && HistorySound(h, c, n)
    requires HistoryComplete(h, c, index, n)
    ensures HistorySound(Cleared(h, index), c, n) && HistoryComplete(Cleared(h, index), c, index, n)
  {
    forall j: nat | index <= j < n ensures LatestAt(Cleared(h, index), j) == LatestMembership(c, j + 1) {
      ClearingKeepsLaterAnswers(h, index, j);
    }
  }

  /** The log id looked up at a committed position is the committed one, or missing. */
  lemma LookedUpIdIsCommitted(n: Node, c: seq<Entry>, index: u64)
    requires LogInv(n.log, n.group, c) && index < AppliedCount(n.group)
    requires n.group.snapshotApplied.Some? ==> n.group.snapshotApplied.value.index <= index
    requires n.group.snapshotApplied.Some? ==> CommittedId(c, n.group.snapshotApplied.value)
    requires n.group.applied.Some? ==> CommittedId(c, n.group.applied.value)
    ensures SnapshotLogId(n, index) in {None, Some(c[index].logId)}
  {
  }

  lemma AppliedIdIsFound(n: Node, c: seq<Entry>)
    requires LogInv(n.log, n.group, c) && n.group.applied.Some? && CommittedId(c, n.group.applied.value)
    requires n.group.snapshotApplied.Some? ==> CommittedId(c, n.group.snapshotApplied.value)
    ensures SnapshotLogId(n, n.group.applied.value.index) == n.group.applied
  {
    LookedUpIdIsCommitted(n, c, n.group.applied.value.index);
  }

  lemma MembershipIsFound(g: GroupView, c: seq<Entry>)
    requires g.applied.Some? && AppliedCount(g) <= |c| && g.last == MembershipAfter(c, AppliedCount(g))
    requires HistorySound(g.history, c, AppliedCount(g))
    requires LatestAt(g.history, g.applied.value.index) == LatestMembership(c, AppliedCount(g))
    ensures SnapshotMembership(g, g.applied.value.index) == MembershipAfter(c, AppliedCount(g))
  {
    LatestAtIsMaximum(g.history, g.applied.value.index);
  }

  lemma LogInvIgnoresHistory(log: Log, g: GroupView, h: imap<nat, StoredMembership>, c: seq<Entry>)
    requires LogInv(log, g, c)
    ensures LogInv(log, g.(history := h), c)
  {
  }

  /** Building a snapshot yields a genuine one at exactly the applied position. */
  lemma TakeSnapshot(n: Node, c: seq<Entry>)
    requires WellFormed(c) && Core(n, c) && n.group.applied.Some?
    ensures var (m, s) := CreateSnapshot(n);
            && Inv(m, c) && m.log == n.log && m.group == n.group.(history := m.group.history)
            && m.cached == Some((Image(n.kv), n.group.applied.value.index))
            && Genuine(s, c) && s.meta.lastLogId == n.group.applied
  {
    hide LatestAt, LatestMembership, Cleared, LogInv, HistorySound, HistoryComplete;
    var index := n.group.applied.value.index;
    var taken := n.(cached := Some((Image(n.kv), index)));
    LogInvIgnoresHistory(n.log, n.group, Cleared(n.group.history, index), c);
    AppliedIdIsFound(taken, c);
    CompleteAtOnePoint(n.group.history, c, index);
    ClearKeepsHistory(n.group.history, c, index, index + 1);
    MembershipIsFound(n.group, c);
  }

  lemma CreateSnapshotInv(n: Node, c: seq<Entry>)
    requires WellFormed(c) && Inv(n, c)
    ensures var (m, s) := CreateSnapshot(n);
            && Inv(m, c) && Genuine(s, c)
            && s.meta.lastLogId == n.group.applied
  {
    InvGivesCore(n, c);
    if n.group.applied.Some? {
      TakeSnapshot(n, c);
    }
  }

  /** Reopening between calls loses nothing but the cached snapshot, which is taken anew. */
  lemma ReopenInv(n: Node, c: seq<Entry>)
    requires WellFormed(c) && Inv(n, c)
    ensures Inv(Reopen(n), c) && Reopen(n).kv == n.kv && AppliedCount(Reopen(n).group) == AppliedCount(n.group)
  {
    InvGivesCore(n, c);
    if n.group.applied.Some? {
      TakeSnapshot(n.(cached := None), c);
    }
  }

  /** openraft installs only newer snapshots; conflicting entries are truncated first or lie wholly below. */
  ghost predicate MayInstall(n: Node, s: StoredSnapshot, c: seq<Entry>) {
    && Genuine(s, c) && s.meta.lastLogId.Some?
    && var index := s.meta.lastLogId.value.index;
    && AppliedCount(n.group) <= index + 1 <= |c|
    && (Agrees(n.log, c, index + 1) || forall i :: i in n.log ==> i < index)
  }

  /** Installing another node's snapshot puts this node exactly where full replay would. */
  lemma InstallInv(n: Node, s: StoredSnapshot, c: seq<Entry>)
    requires WellFormed(c) && Inv(n, c) && MayInstall(n, s, c)
    ensures var (m, ok) := InstallSnapshot(n, s);
            && ok && Inv(m, c) && m.group.applied == s.meta.lastLogId == m.group.snapshotApplied
            && m.group.purged == n.group.purged && m.cached.Some? && m.cached.value.1 == s.meta.lastLogId.value.index
            && m.kv == Replay(c, s.meta.lastLogId.value.index + 1)
  {
    var id := s.meta.lastLogId.value;
    var g := WithMembership(n.group.(applied := Some(id)), s.meta.lastMembership).(snapshotApplied := Some(id));
    var mid := n.(group := g, kv := s.data.content);
    assert LogInv(mid.log, g, c) by {
      hide EngineInv, MembershipInv, Replay, MembershipAfter;
    }
    InstalledHistory(n.group.history, g.history, s.meta.lastMembership, c, AppliedCount(n.group), id.index);
    TakeSnapshot(mid, c);
  }

  lemma InstalledHistory(h: imap<nat, StoredMembership>, h': imap<nat, StoredMembership>,
                         m: StoredMembership, c: seq<Entry>, a: nat, index: nat)
    requires a <= index + 1 <= |c| && HistorySound(h, c, a) && WellFormed(c)
    requires m == MembershipAfter(c, index + 1)
    requires h' == if m.logId.Some? then h[m.logId.value.index as nat := m] else h
    ensures HistorySound(h', c, index + 1) && LatestAt(h', index) == LatestMembership(c, index + 1)
  {
    LatestAtIsMaximum(h', index);
  }

  lemma CurrentSnapshotInv(n: Node, c: seq<Entry>)
    requires Inv(n, c)
    ensures Inv(CurrentSnapshot(n).0, c)
  {
    hide LatestAt, LatestMembership, Cleared, LogInv, HistorySound, HistoryComplete;
    if n.cached.Some? {
      var index := n.cached.value.1;
      LogInvIgnoresHistory(n.log, n.group, Cleared(n.group.history, index), c);
      ClearKeepsHistory(n.group.history, c, index, AppliedCount(n.group));
    }
  }

  /**
   The log id of a served snapshot is the committed one, unless it is missing;
   and it is missing exactly when the log has been purged up to the snapshot's
   index while neither the installed snapshot nor the last applied entry has it.
   */
  lemma ServedLogId(n: Node, c: seq<Entry>)
    requires Inv(n, c) && n.cached.Some?
    ensures var index := n.cached.value.1; var id := CurrentSnapshot(n).1.value.meta.lastLogId;
            && (id.Some? ==> id == Some(c[index].logId))
            && (id.None? <==>
                && n.group.purged.Some? && index <= n.group.purged.value.index
                && !HasIndex(n.group.snapshotApplied, index) && !HasIndex(n.group.applied, index))
  {
    LookedUpIdIsCommitted(n, c, n.cached.value.1);
  }

  /**
   The membership of a served snapshot is the one in force at its index,
   unless no membership had been applied by then and one has been since.
   */
  lemma ServedMembership(n: Node, c: seq<Entry>)
    requires WellFormed(c) && Inv(n, c) && n.cached.Some?
    ensures var index := n.cached.value.1;
            CurrentSnapshot(n).1.value.meta.lastMembership == MembershipAfter(c, index + 1) <==>
            LatestMembership(c, index + 1).Some? || LatestMembership(c, AppliedCount(n.group)).None?
  {
    LatestAtIsMaximum(n.group.history, n.cached.value.1);
  }

  /** With a membership at index 0, as openraft's initialization writes, every served snapshot is genuine. */
  lemma ServedIsGenuine(n: Node, c: seq<Entry>)
    requires WellFormed(c) && Inv(n, c) && n.cached.Some? && c[0].payload.Membership?
    ensures Genuine(CurrentSnapshot(n).1.value, c)
  {
    ServedLogId(n, c);
    ServedMembership(n, c);
  }

  /** Purging exactly up to an older snapshot makes the node serve that snapshot without a log id. */
  lemma PurgeToSnapshotLosesItsId(n: Node, c: seq<Entry>)
    requires Inv(n, c) && n.cached.Some?
    requires var index := n.cached.value.1;
             FirstIndex(n.group) <= index + 1 < AppliedCount(n.group) && !HasIndex(n.group.snapshotApplied, index)
             && c[index].logId.index == index
    ensures var m := PurgeUpTo(n, c[n.cached.value.1].logId);
            Inv(m, c) && CurrentSnapshot(m).1.value.meta.lastLogId == None
  {
    var id := c[n.cached.value.1].logId;
    PurgeInv(n, id, c);
    ServedLogId(PurgeUpTo(n, id), c);
  }

  // ---------------------------------------------------------------- reading the log

  predicate HeldAt(log: Log, from: nat, r: seq<Entry>, k: nat, high: nat)
    requires k < |r|
  {
    from + k < high && from + k in log && r[k] == log[from + k]
  }

  /** `r` is what the log holds at `from`, `from + 1`, and so on, and that is all it holds in `[low, high)`. */
  ghost predicate Exactly(log: Log, low: nat, high: nat, from: nat, r: seq<Entry>) {
    && (forall k: nat :: k < |r| ==> HeldAt(log, from, r, k, high))
    && (forall i :: i in log && low <= i < high ==> from <= i < from + |r|)
  }

  lemma ExactlySkip(log: Log, low: nat, last: u64, from: nat, r: seq<Entry>)
    requires Exactly(log, low, last, from, r) && last !in log
    ensures Exactly(log, low, last + 1, from, r)
  {
    var high := last + 1;
    forall k: nat | k < |r| ensures HeldAt(log, from, r, k, high) {
      assert HeldAt(log, from, r, k, last);
    }
    forall i | i in log && low <= i < last + 1 ensures from <= i < from + |r| {
      assert i != last;
    }
  }

  lemma ExactlyTake(log: Log, g: GroupView, low: nat, last: u64, from: nat, r: seq<Entry>)
    requires GapFree(log, g) && Exactly(log, low, last, from, r) && last in log
    requires low <= from <= last && FirstIndex(g) <= from
    ensures Exactly(log, low, last + 1, from, r + [log[last]])
  {
    if from < last {
      var before: u64 := last - 1;
      assert before in log && before < from + |r|;
    }
    if r != [] {
      assert HeldAt(log, from, r, |r| - 1, last);
    }
    var t, high := r + [log[last]], last + 1;
    forall k: nat | k < |t| ensures HeldAt(log, from, t, k, high) {
      if k < |r| {
        assert HeldAt(log, from, r, k, last);
      }
    }
    forall i | i in log && low <= i < last + 1 ensures from <= i < from + |t| {
      assert i == last || i < last;
    }
  }

  /** A range read returns the stored entries of the range: no gap, no repeat, ascending, none missing. */
  lemma {:induction false} SliceIsContiguous(log: Log, g: GroupView, low: u64, high: u64)
    requires GapFree(log, g)
    ensures Exactly(log, low, high, if low < FirstIndex(g) then FirstIndex(g) else low, Slice(log, low, high))
    decreases high
  {
    hide Exactly;
    var from := if low < FirstIndex(g) then FirstIndex(g) else low;
    if low < high {
      var last: u64 := high - 1;
      SliceIsContiguous(log, g, low, last);
      var r := Slice(log, low, last);
      if last in log {
        ExactlyTake(log, g, low, last, from, r);
      } else {
        ExactlySkip(log, low, last, from, r);
        assert r + [] == r;
      }
    } else {
      NothingExactly(log, low, high, from);
    }
  }

  lemma NothingExactly(log: Log, low: nat, high: nat, from: nat)
    requires low >= high
    ensures Exactly(log, low, high, from, [])
  {
  }
}
