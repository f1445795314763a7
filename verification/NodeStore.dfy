/**
 `NodeStorage` (replication/src/node_store.rs): the storage callbacks of one
 Raft group, working in place on the shared state store, the engine and the
 log store. Each callback performs the step of the same name in RaftNode.dfy
 and touches no other group.
 */
module NodeStore {
  import opened Wrappers
  import opened RaftTypes
  import opened StateKeys
  import opened RaftNode
  import opened ApplyStore
  import E = EntryStore
  import S = StateStore
  import F = RaftSafety

  class NodeStorage {
    const group: nat
    const state: S.StateStorage
    const engine: HeedApplyStorage
    const logs: E.HeedEntryStorage

    ghost predicate Valid()
      reads state, logs
    {
      state.Valid() && logs.Valid()
    }

    ghost function View(): Node
      reads state, engine, logs
    {
      Node(logs.View(), S.View(state.db, group), engine.db, engine.snapshot)
    }

    /** Opening takes a snapshot of what is stored. */
    constructor (group: nat, state: S.StateStorage, engine: HeedApplyStorage, logs: E.HeedEntryStorage)
      requires state.Valid() && logs.Valid()
      modifies state, engine
      ensures this.group == group && this.state == state && this.engine == engine && this.logs == logs
      ensures Valid() && S.OtherGroupsSame(old(state.db), state.db, group)
      ensures View() == CreateSnapshot(
        Node(logs.View(), S.View(old(state.db), group), old(engine.db), old(engine.snapshot))).0
    {
      this.group, this.state, this.engine, this.logs := group, state, engine, logs;
      new;
      var _ := TakeSnapshot();
    }

    method GetSnapshotLogId(index: u64) returns (r: Option<LogId>)
      requires Valid()
      ensures r == SnapshotLogId(View(), index)
    {
      var entry := logs.EntryAt(index);
      if entry.Some? && entry.value.logId.index == index {
        return Some(entry.value.logId);
      }
      var installed := S.AsLogId(S.Lookup(state.db, SnapshotAppliedLog(group)));
      if installed.Some? && installed.value.index == index {
        return installed;
      }
      var applied := S.AsLogId(S.Lookup(state.db, AppliedLog(group)));
      if applied.Some? && applied.value.index == index {
        return applied;
      }
      return None;
    }

    method GetSnapshotMembership(index: u64) returns (m: StoredMembership)
      requires Valid()
      ensures m == SnapshotMembership(View().group, index)
    {
      m := S.AsMembership(S.Lookup(state.db, LastMembership(group)));
      var list := state.GetMembershipList(group);
      var latest, older := S.SplitLatest(list, index);
      S.LatestRecord(state.db, group, list, index, latest, older);
      if latest.Some? {
        m := list[latest.value];
      }
    }

    method GetSnapshotMeta(index: u64) returns (meta: SnapshotMeta)
      requires Valid()
      modifies state
      ensures Valid() && S.OtherGroupsSame(old(state.db), state.db, group)
      ensures meta == SnapshotMetaAt(old(View()), index) && View() == ClearHistory(old(View()), index)
    {
      hide S.ValidDb, S.Lookup, E.LogOf, E.ValidDb;
      var id := GetSnapshotLogId(index);
      var membership := GetSnapshotMembership(index);
      state.ClearMemberships(group, index);
      meta := SnapshotMeta(id, membership);
    }

    /** `create_snapshot`, also the body of the `build_snapshot` callback. */
    method TakeSnapshot() returns (s: StoredSnapshot)
      requires Valid()
      modifies state, engine
      ensures Valid() && S.OtherGroupsSame(old(state.db), state.db, group)
      ensures (View(), s) == CreateSnapshot(old(View()))
    {
      var applied := S.AsLogId(S.Lookup(state.db, AppliedLog(group)));
      if applied.None? {
        return EMPTY_SNAPSHOT;
      }
      var data, index := engine.CreateSnapshot(applied.value.index);
      var meta := GetSnapshotMeta(index);
      s := StoredSnapshot(data, meta);
    }

    method GetCurrentSnapshot() returns (s: Option<StoredSnapshot>)
      requires Valid()
      modifies state
      ensures Valid() && S.OtherGroupsSame(old(state.db), state.db, group)
      ensures (View(), s) == CurrentSnapshot(old(View()))
    {
      if engine.snapshot.None? {
        return None;
      }
      var (data, index) := engine.snapshot.value;
      var meta := GetSnapshotMeta(index);
      s := Some(StoredSnapshot(data, meta));
    }

    method Install(s: StoredSnapshot) returns (ok: bool)
      requires Valid()
      modifies state, engine
      ensures Valid() && S.OtherGroupsSame(old(state.db), state.db, group)
      ensures (View(), ok) == InstallSnapshot(old(View()), s)
    {
      hide S.View, S.ValidDb, S.Lookup, E.LogOf, E.ValidDb;
      var id := if s.meta.lastLogId.Some? then s.meta.lastLogId.value else DEFAULT_LOG_ID;
      state.SetAppliedLog(group, id);
      state.SetLastMembership(group, s.meta.lastMembership);
      state.SetSnapshotAppliedLog(group, id);
      ok := engine.Restore(s.data);
      if ok {
        var _ := TakeSnapshot();
      }
    }

    method Append(ents: seq<Entry>)
      requires Valid()
      modifies logs
      ensures Valid() && View() == AppendToLog(old(View()), ents)
    {
      hide S.View, S.ValidDb, S.Lookup, E.LogOf, E.ValidDb;
      if ents == [] {
        return;
      }
      logs.DelAfter(ents[0].logId.index);
      logs.Append(ents);
    }

    method DeleteConflictLogsSince(id: LogId)
      requires Valid()
      modifies logs
      ensures Valid() && View() == TruncateFrom(old(View()), id)
      ensures forall i :: i in View().log <==> i in old(View()).log && i < id.index
    {
      TruncateIsExact(View(), id);
      logs.DelAfter(id.index);
    }

    method PurgeLogsUpTo(id: LogId)
      requires Valid() && id.index < U64_MAX
      modifies state, logs
      ensures Valid() && S.OtherGroupsSame(old(state.db), state.db, group)
      ensures View() == PurgeUpTo(old(View()), id)
      ensures forall i :: i in View().log <==> i in old(View()).log && i > id.index
    {
      PurgeIsExact(View(), id);
      hide S.View, S.ValidDb, S.Lookup, E.LogOf, E.ValidDb;
      state.SetLastPurged(group, id);
      logs.DelBefore(id.index + 1);
    }

    /** The body of the apply loop: last-applied is written first, in its own transaction. */
    method ApplyEntry(entry: Entry) returns (r: Result<string, ()>)
      requires Valid()
      modifies state, engine
      ensures Valid() && S.OtherGroupsSame(old(state.db), state.db, group)
      ensures (View(), r) == ApplyOne(old(View()), entry)
    {
      hide S.View, S.ValidDb, S.Lookup, E.LogOf, E.ValidDb;
      state.SetAppliedLog(group, entry.logId);
      match entry.payload
      case Blank =>
        r := Ok("");
      case Normal(request) =>
        r := engine.Apply(request);
      case Membership(config) =>
        state.SetLastMembership(group, StoredMembership(Some(entry.logId), config));
        r := Ok("");
    }

    method ApplyToStateMachine(ents: seq<Entry>) returns (r: Result<seq<string>, ()>)
      requires Valid()
      modifies state, engine
      ensures Valid() && S.OtherGroupsSame(old(state.db), state.db, group)
      ensures (View(), r) == ApplyEntries(old(View()), ents)
      ensures r.Err? <==> exists k :: 0 <= k < |ents| && IsMalformed(ents[k])
      ensures r.Ok? ==> Answers(ents, r.value)
    {
      ResponsesMatchEntries(View(), ents);
      hide S.View, S.ValidDb, S.Lookup, E.LogOf, E.ValidDb, ApplyOne;
      var responses: seq<string> := [];
      for k := 0 to |ents|
        invariant Valid() && S.OtherGroupsSame(old(state.db), state.db, group)
        invariant (View(), Ok(responses)) == ApplyEntries(old(View()), ents[..k])
      {
        assert ents[..k + 1][..k] == ents[..k];
        var response := ApplyEntry(ents[k]);
        if response.Err? {
          FirstFailureEndsApply(old(View()), ents, k + 1);
          return Err(());
        }
        responses := responses + [response.value];
      }
      assert ents[..|ents|] == ents;
      r := Ok(responses);
    }

    /** The ends of the log; when it is empty, both are the purged id. */
    method GetLogState() returns (s: LogState)
      requires Valid()
      ensures s.lastPurged == View().group.purged
      ensures F.GapFree(View().log, View().group) ==> forall i: u64 :: i in View().log <==>
                s.lastLog.Some? && i <= s.lastLog.value.index && (s.lastPurged.Some? ==> s.lastPurged.value.index < i)
      ensures if View().log == map[] then s.lastLog == s.lastPurged
              else s.lastLog.Some? && s.lastLog.value.index in View().log
                   && View().log[s.lastLog.value.index].logId == s.lastLog.value
                   && forall i :: i in View().log ==> i <= s.lastLog.value.index
    {
      var last := logs.LastEntry();
      var purged := S.AsLogId(S.Lookup(state.db, PurgedLogId(group)));
      s := LogState(purged, if last.None? then purged else Some(last.value.logId));
    }

    /** Exactly the stored entries between the two bounds, in order. */
    method TryGetLogEntries(start: Bound, end: Bound) returns (r: seq<Entry>)
      requires Valid()
      requires (start.Excluded? ==> start.at < U64_MAX) && (end.Included? ==> end.at < U64_MAX)
      ensures forall k :: 0 <= k < |r| ==> InBounds(start, end, r[k].logId.index) && r[k] in View().log.Values
      ensures forall j, k :: 0 <= j < k < |r| ==> r[j].logId.index < r[k].logId.index
      ensures forall i :: i in View().log && InBounds(start, end, i) ==> View().log[i] in r
      ensures F.GapFree(View().log, View().group) ==>
                var first := F.FirstIndex(View().group);
                F.Exactly(View().log, StartOf(start), EndOf(end),
                          if StartOf(start) < first then first else StartOf(start), r)
    {
      r := logs.Entries(StartOf(start), EndOf(end));
      forall i: u64 ensures StartOf(start) <= i < EndOf(end) <==> InBounds(start, end, i) {
        BoundsAreExact(start, end, i);
      }
      forall k | 0 <= k < |r| ensures InBounds(start, end, r[k].logId.index) && r[k] in View().log.Values {
        assert E.InRange(View().log, StartOf(start), EndOf(end), r[k]);
      }
      if F.GapFree(View().log, View().group) {
        F.SliceIsContiguous(View().log, View().group, StartOf(start), EndOf(end));
      }
    }
  }
}
