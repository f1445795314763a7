/**
 All nodes of one Raft group, their committed log and the snapshots they have
 handed out: safety over every run of storage callbacks.
 */
module RaftWorld {
  import opened Wrappers
  import opened RaftTypes
  import opened EntryStore
  import opened StateStore
  import opened ApplyStore
  import opened RaftNode
  import opened CommittedLog
  import opened RaftSafety

  datatype World = World(committed: seq<Entry>, nodes: map<nat, Node>, sent: set<StoredSnapshot>)

  datatype Step =
    | Commit(ents: seq<Entry>)
    | Append(node: nat, ents: seq<Entry>)
    | Truncate(node: nat, id: LogId)
    | Purge(node: nat, id: LogId)
    | Apply(node: nat, count: nat)
    | BuildSnapshot(node: nat)
    | ServeSnapshot(node: nat)
    | Install(node: nat, snapshot: StoredSnapshot)
    | Restart(node: nat)

  /** openraft commits a membership first and numbers entries from 0. */
  ghost predicate CommittedOk(c: seq<Entry>) {
    WellFormed(c) && (c != [] ==> c[0].payload.Membership?)
  }

  ghost predicate Init(w: World) {
    w.committed == [] && w.sent == {} && forall p :: p in w.nodes ==> w.nodes[p] == NEW_NODE
  }

  /** When openraft makes the call. */
  ghost predicate Enabled(w: World, s: Step) {
    (s.Commit? || s.node in w.nodes) &&
    match s
    case Commit(ents) => CommittedOk(w.committed + ents)
    case Append(p, ents) => MayAppend(w.nodes[p], ents)
    case Truncate(p, id) => AppliedCount(w.nodes[p].group) <= id.index
    case Purge(p, id) => MayPurge(w.nodes[p], id, w.committed)
    case Apply(p, k) =>
      var a := AppliedCount(w.nodes[p].group);
      a + k <= |w.committed| && MayApply(w.nodes[p], w.committed[a..a + k], w.committed)
    case Install(p, snap) =>
      && snap in w.sent && snap.meta.lastLogId.Some?
      && var index := snap.meta.lastLogId.value.index;
      && AppliedCount(w.nodes[p].group) <= index + 1 <= |w.committed|
      && (Agrees(w.nodes[p].log, w.committed, index + 1) || forall i :: i in w.nodes[p].log ==> i < index)
    case _ => true
  }

  ghost function Do(w: World, s: Step): World
    requires Enabled(w, s)
  {
    match s
    case Commit(ents) => w.(committed := w.committed + ents)
    case Append(p, ents) => w.(nodes := w.nodes[p := AppendToLog(w.nodes[p], ents)])
    case Truncate(p, id) => w.(nodes := w.nodes[p := TruncateFrom(w.nodes[p], id)])
    case Purge(p, id) => w.(nodes := w.nodes[p := PurgeUpTo(w.nodes[p], id)])
    case Apply(p, k) =>
      var a := AppliedCount(w.nodes[p].group);
      w.(nodes := w.nodes[p := ApplyEntries(w.nodes[p], w.committed[a..a + k]).0])
    case BuildSnapshot(p) =>
      var (n, snap) := CreateSnapshot(w.nodes[p]);
      w.(nodes := w.nodes[p := n], sent := w.sent + {snap})
    case ServeSnapshot(p) =>
      var (n, snap) := CurrentSnapshot(w.nodes[p]);
      w.(nodes := w.nodes[p := n], sent := if snap.Some? then w.sent + {snap.value} else w.sent)
    case Install(p, snap) => w.(nodes := w.nodes[p := InstallSnapshot(w.nodes[p], snap).0])
    case Restart(p) => w.(nodes := w.nodes[p := Reopen(w.nodes[p])])
  }

  ghost predicate Safe(w: World) {
    && CommittedOk(w.committed)
    && (forall p :: p in w.nodes ==> Inv(w.nodes[p], w.committed))
    && (forall s :: s in w.sent ==> Genuine(s, w.committed))
  }

  lemma NodeChanged(w: World, p: nat, n: Node, more: set<StoredSnapshot>)
    requires Safe(w) && p in w.nodes && Inv(n, w.committed) && forall s :: s in more ==> Genuine(s, w.committed)
    ensures Safe(w.(nodes := w.nodes[p := n], sent := w.sent + more))
    ensures w.sent + {} == w.sent
  {
    hide Inv, Genuine, CommittedOk;
  }

  /** One callback, on one node, keeps every node and every snapshot in step with the committed log. */
  lemma StepKeepsSafe(w: World, s: Step)
    requires Safe(w) && Enabled(w, s)
    ensures Safe(Do(w, s)) && w.committed <= Do(w, s).committed
  {
    hide Inv, Genuine, AppendToLog, TruncateFrom, PurgeUpTo, ApplyEntries, CreateSnapshot, InstallSnapshot, Reopen;
    var c := w.committed;
    match s
    case Commit(ents) =>
      forall p | p in w.nodes { InvOfLongerLog(w.nodes[p], c, c + ents); }
      forall snap | snap in w.sent { GenuineOfLongerLog(snap, c, c + ents); }
    case Append(p, ents) =>
      AppendInv(w.nodes[p], ents, c);
      NodeChanged(w, p, AppendToLog(w.nodes[p], ents), {});
    case Truncate(p, id) =>
      TruncateInv(w.nodes[p], id, c);
      NodeChanged(w, p, TruncateFrom(w.nodes[p], id), {});
    case Purge(p, id) =>
      PurgeInv(w.nodes[p], id, c);
      NodeChanged(w, p, PurgeUpTo(w.nodes[p], id), {});
    case Apply(p, k) =>
      var a := AppliedCount(w.nodes[p].group);
      ApplyInv(w.nodes[p], c[a..a + k], c);
      NodeChanged(w, p, ApplyEntries(w.nodes[p], c[a..a + k]).0, {});
    case BuildSnapshot(p) =>
      CreateSnapshotInv(w.nodes[p], c);
      var (n, snap) := CreateSnapshot(w.nodes[p]);
      NodeChanged(w, p, n, {snap});
    case ServeSnapshot(p) =>
      var (n, snap) := CurrentSnapshot(w.nodes[p]);
      CurrentSnapshotInv(w.nodes[p], c);
      if w.nodes[p].cached.Some? {
        CachedMeansCommitted(w.nodes[p], c);
        ServedIsGenuine(w.nodes[p], c);
        NodeChanged(w, p, n, {snap.value});
      } else {
        NodeChanged(w, p, n, {});
      }
    case Install(p, snap) =>
      InstallInv(w.nodes[p], snap, c);
      NodeChanged(w, p, InstallSnapshot(w.nodes[p], snap).0, {});
    case Restart(p) =>
      ReopenInv(w.nodes[p], c);
      NodeChanged(w, p, Reopen(w.nodes[p]), {});
  }

  lemma CachedMeansCommitted(n: Node, c: seq<Entry>)
    requires Inv(n, c) && n.cached.Some?
    ensures c != []
  {
  }

  lemma GenuineOfLongerLog(s: StoredSnapshot, c: seq<Entry>, d: seq<Entry>)
    requires Genuine(s, c) && c <= d
    ensures Genuine(s, d)
  {
    if s.meta.lastLogId.Some? {
      PrefixStable(c, d, s.meta.lastLogId.value.index + 1);
    }
  }

  /** Every step of the run is a call that openraft may make. */
  ghost predicate CanRun(w: World, steps: seq<Step>)
    decreases |steps|
  {
    steps != [] ==> Enabled(w, steps[0]) && CanRun(Do(w, steps[0]), steps[1..])
  }

  ghost function Run(w: World, steps: seq<Step>): World
    requires CanRun(w, steps)
    decreases |steps|
  {
    if steps == [] then w else Run(Do(w, steps[0]), steps[1..])
  }

  lemma {:induction false} RunKeepsSafe(w: World, steps: seq<Step>)
    requires Safe(w) && CanRun(w, steps)
    ensures Safe(Run(w, steps)) && w.committed <= Run(w, steps).committed
    decreases |steps|
  {
    hide Safe, Enabled, Do;
    if steps != [] {
      StepKeepsSafe(w, steps[0]);
      RunKeepsSafe(Do(w, steps[0]), steps[1..]);
    }
  }

  lemma InitIsSafe(w: World)
    requires Init(w)
    ensures Safe(w)
  {
    forall p | p in w.nodes { NewNodeInv(w.committed); }
  }

  /**
   In every reachable state each node's engine is exactly the replay of the
   committed log up to its last applied entry, whether it got there entry by
   entry or through another node's snapshot.
   */
  lemma EngineIsFullReplay(w0: World, steps: seq<Step>, p: nat)
    requires Init(w0) && CanRun(w0, steps) && p in Run(w0, steps).nodes
    ensures var w := Run(w0, steps); var n := w.nodes[p];
            && AppliedCount(n.group) <= |w.committed|
            && n.kv == Replay(w.committed, AppliedCount(n.group))
            && n.group.last == MembershipAfter(w.committed, AppliedCount(n.group))
            && GapFree(n.log, n.group)
  {
    InitIsSafe(w0);
    RunKeepsSafe(w0, steps);
  }

  /**
   State machine safety across time: a node at one point of a run and a node
   at any later point that have applied equally many entries hold the same
   data and the same membership.
   */
  lemma EqualAppliedAgree(w0: World, first: seq<Step>, later: seq<Step>, p: nat, q: nat)
    requires Init(w0) && CanRun(w0, first) && CanRun(Run(w0, first), later)
    requires p in Run(w0, first).nodes && q in Run(Run(w0, first), later).nodes
    requires var m, n := Run(w0, first).nodes[p], Run(Run(w0, first), later).nodes[q];
             AppliedCount(m.group) == AppliedCount(n.group)
    ensures var m, n := Run(w0, first).nodes[p], Run(Run(w0, first), later).nodes[q];
            m.kv == n.kv && m.group.last == n.group.last && m.group.applied == n.group.applied
  {
    hide CanRun, Run, Inv, AppliedCount;
    var w := Run(w0, first);
    InitIsSafe(w0);
    RunKeepsSafe(w0, first);
    RunKeepsSafe(w, later);
    NodesAgree(w.nodes[p], Run(w, later).nodes[q], w.committed, Run(w, later).committed);
  }

  lemma NodesAgree(m: Node, n: Node, c: seq<Entry>, d: seq<Entry>)
    requires Inv(m, c) && Inv(n, d) && c <= d && AppliedCount(m.group) == AppliedCount(n.group)
    ensures m.kv == n.kv && m.group.last == n.group.last && m.group.applied == n.group.applied
  {
    PrefixStable(c, d, AppliedCount(m.group));
  }

  // ---------------------------------------------------------------- served snapshots keep their log id

  /** What a purge may reach without losing the id of the cached snapshot: below it, or up to it if it was installed. */
  predicate SparesSnapshot(n: Node, index: u64) {
    n.cached.Some? &&
    (index < n.cached.value.1 || (index == n.cached.value.1 && HasIndex(n.group.snapshotApplied, index)))
  }

  predicate SnapshotSpared(n: Node) {
    n.group.purged.Some? ==> SparesSnapshot(n, n.group.purged.value.index)
  }

  ghost predicate Careful(w: World, s: Step) {
    s.Purge? && s.node in w.nodes ==> SparesSnapshot(w.nodes[s.node], s.id.index)
  }

  ghost predicate CarefulRun(w: World, steps: seq<Step>)
    requires CanRun(w, steps)
    decreases |steps|
  {
    steps != [] ==> Careful(w, steps[0]) && CarefulRun(Do(w, steps[0]), steps[1..])
  }

  ghost predicate AllSpared(w: World) {
    forall p :: p in w.nodes ==> SnapshotSpared(w.nodes[p])
  }

  lemma {:induction false} ApplyKeepsRest(n: Node, ents: seq<Entry>)
    ensures var m := ApplyEntries(n, ents).0;
            && m.cached == n.cached && m.group.purged == n.group.purged
            && m.group.snapshotApplied == n.group.snapshotApplied
  {
    if ents != [] {
      ApplyKeepsRest(n, ents[..|ents| - 1]);
    }
  }

  lemma SnapshotsKeepSpared(n: Node, c: seq<Entry>)
    requires WellFormed(c) && Inv(n, c) && SnapshotSpared(n)
    ensures SnapshotSpared(CreateSnapshot(n).0) && SnapshotSpared(Reopen(n)) && SnapshotSpared(CurrentSnapshot(n).0)
  {
    hide Cleared, LatestAt;
    CachedIsBelowApplied(n, c);
  }

  lemma InstallKeepsSpared(n: Node, snap: StoredSnapshot, c: seq<Entry>)
    requires WellFormed(c) && Inv(n, c) && SnapshotSpared(n) && MayInstall(n, snap, c)
    ensures SnapshotSpared(InstallSnapshot(n, snap).0)
  {
    hide InstallSnapshot;
    CachedIsBelowApplied(n, c);
    InstallInv(n, snap, c);
  }

  lemma LogCallsKeepSpared(n: Node, ents: seq<Entry>, id: LogId)
    requires SnapshotSpared(n)
    ensures SnapshotSpared(AppendToLog(n, ents)) && SnapshotSpared(TruncateFrom(n, id))
    ensures SparesSnapshot(n, id.index) ==> SnapshotSpared(PurgeUpTo(n, id))
    ensures SnapshotSpared(ApplyEntries(n, ents).0)
  {
    ApplyKeepsRest(n, ents);
  }

  lemma StepKeepsSpared(w: World, s: Step)
    requires Safe(w) && AllSpared(w) && Enabled(w, s) && Careful(w, s)
    ensures AllSpared(Do(w, s))
  {
    hide SnapshotSpared, Inv, Genuine, SparesSnapshot,
      AppendToLog, TruncateFrom, PurgeUpTo, ApplyEntries, CreateSnapshot, CurrentSnapshot, InstallSnapshot, Reopen;
    var c := w.committed;
    match s
    case Commit(ents) =>
    case Append(p, ents) => LogCallsKeepSpared(w.nodes[p], ents, DEFAULT_LOG_ID);
    case Truncate(p, id) => LogCallsKeepSpared(w.nodes[p], [], id);
    case Purge(p, id) => LogCallsKeepSpared(w.nodes[p], [], id);
    case Apply(p, k) =>
      var a := AppliedCount(w.nodes[p].group);
      LogCallsKeepSpared(w.nodes[p], c[a..a + k], DEFAULT_LOG_ID);
    case BuildSnapshot(p) => SnapshotsKeepSpared(w.nodes[p], c);
    case ServeSnapshot(p) => SnapshotsKeepSpared(w.nodes[p], c);
    case Install(p, snap) => InstallKeepsSpared(w.nodes[p], snap, c);
    case Restart(p) => SnapshotsKeepSpared(w.nodes[p], c);
  }

  lemma CachedIsBelowApplied(n: Node, c: seq<Entry>)
    requires Inv(n, c)
    ensures n.cached.Some? ==> n.group.applied.Some? && n.cached.value.1 <= n.group.applied.value.index
  {
  }

  lemma {:induction false} RunKeepsSpared(w: World, steps: seq<Step>)
    requires Safe(w) && AllSpared(w) && CanRun(w, steps) && CarefulRun(w, steps)
    ensures AllSpared(Run(w, steps))
    decreases |steps|
  {
    hide Safe, AllSpared, Enabled, Careful, Do;
    if steps != [] {
      StepKeepsSafe(w, steps[0]);
      StepKeepsSpared(w, steps[0]);
      RunKeepsSpared(Do(w, steps[0]), steps[1..]);
    }
  }

  /**
   In every run whose purges spare the cached snapshot, each snapshot a node
   serves carries the committed log id at its index, the replay up to it and
   the membership in force there.
   */
  lemma ServedSnapshotIsComplete(w0: World, steps: seq<Step>, p: nat)
    requires Init(w0) && CanRun(w0, steps) && CarefulRun(w0, steps)
    requires p in Run(w0, steps).nodes && Run(w0, steps).nodes[p].cached.Some?
    ensures var w := Run(w0, steps); var n := w.nodes[p]; var index := n.cached.value.1;
            && index < |w.committed|
            && CurrentSnapshot(n).1 == Some(StoredSnapshot(
                 Image(Replay(w.committed, index + 1)),
                 SnapshotMeta(Some(w.committed[index].logId), MembershipAfter(w.committed, index + 1))))
  {
    hide CanRun, Run, CarefulRun;
    InitIsSafe(w0);
    RunKeepsSafe(w0, steps);
    RunKeepsSpared(w0, steps);
    ServedWhenSpared(Run(w0, steps).nodes[p], Run(w0, steps).committed);
  }

  lemma ServedWhenSpared(n: Node, c: seq<Entry>)
    requires CommittedOk(c) && Inv(n, c) && SnapshotSpared(n) && n.cached.Some?
    ensures var index := n.cached.value.1;
            && index < |c|
            && CurrentSnapshot(n).1 == Some(StoredSnapshot(
                 Image(Replay(c, index + 1)), SnapshotMeta(Some(c[index].logId), MembershipAfter(c, index + 1))))
  {
    CachedMeansCommitted(n, c);
    ServedLogId(n, c);
    ServedIsGenuine(n, c);
  }
}
