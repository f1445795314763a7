/**
 The Raft state store: one string-keyed database shared by all groups
 (`StateStorage` in replication/src/state_store.rs). The class works on the
 encoded keys, as the source does; its contracts speak of `View`, what one
 group reads back.
 */
module StateStore {
  import opened Wrappers
  import opened RaftTypes
  import opened StateKeys

  datatype Value =
    | LogIdValue(id: LogId)
    | MembershipValue(membership: StoredMembership)
    | IndexValue(index: nat)
    | TextValue(text: string)

  type Db = map<string, Value>

  /** What one group reads back from the shared database. */
  datatype GroupView = GroupView(
    applied: Option<LogId>,
    snapshotApplied: Option<LogId>,
    purged: Option<LogId>,
    last: StoredMembership,
    history: imap<nat, StoredMembership>)

  /** The kind of value stored under each kind of key. */
  predicate Typed(k: Key, v: Value) {
    match k
    case AppliedLog(_) => v.LogIdValue?
    case SnapshotAppliedLog(_) => v.LogIdValue?
    case PurgedLogId(_) => v.LogIdValue?
    case LastMembership(_) => v.MembershipValue?
    case MembershipAt(_, i) =>
      v.MembershipValue? && v.membership.logId.Some? && v.membership.logId.value.index == i
    case SnapshotIndex(_) => v.IndexValue?
    case _ => v.TextValue?
  }

  ghost predicate ValidDb(db: Db) {
    forall s :: s in db ==> exists k :: s == Encode(k) && Typed(k, db[s])
  }

  function Lookup(db: Db, k: Key): Option<Value> {
    if Encode(k) in db then Some(db[Encode(k)]) else None
  }

  function AsLogId(v: Option<Value>): Option<LogId> {
    if v.Some? && v.value.LogIdValue? then Some(v.value.id) else None
  }

  function AsMembership(v: Option<Value>): StoredMembership {
    if v.Some? && v.value.MembershipValue? then v.value.membership else DEFAULT_MEMBERSHIP
  }

  ghost function History(db: Db, g: nat): imap<nat, StoredMembership> {
    imap i: nat | Lookup(db, MembershipAt(g, i)).Some? :: AsMembership(Lookup(db, MembershipAt(g, i)))
  }

  ghost function View(db: Db, g: nat): GroupView {
    GroupView(
      AsLogId(Lookup(db, AppliedLog(g))),
      AsLogId(Lookup(db, SnapshotAppliedLog(g))),
      AsLogId(Lookup(db, PurgedLogId(g))),
      AsMembership(Lookup(db, LastMembership(g))),
      History(db, g))
  }

  /** No key of a group other than `g` differs between the two databases. */
  ghost predicate OtherGroupsSame(a: Db, b: Db, g: nat) {
    forall k: Key :: k.group != g ==> Lookup(a, k) == Lookup(b, k)
  }

  /** What `clear_memberships(index)` leaves: the latest record at or below `index`, and all later ones. */
  ghost function Cleared(history: imap<nat, StoredMembership>, index: nat): imap<nat, StoredMembership> {
    match LatestAt(history, index)
    case None => history
    case Some(m) => imap i | i in history && i >= m :: history[i]
  }

  /** A record goes exactly if a later one at or below `index` makes it obsolete; the others stay as they are. */
  lemma ClearedIsExact(history: imap<nat, StoredMembership>, index: nat, i: nat)
    ensures i in Cleared(history, index) <==> i in history && forall j: nat :: i < j <= index ==> j !in history
    ensures i in Cleared(history, index) ==> Cleared(history, index)[i] == history[i]
  {
    LatestAtIsMaximum(history, index);
    if LatestAt(history, index).Some? && i in history {
      assert i < LatestAt(history, index).value <= index || i >= LatestAt(history, index).value;
    }
  }

  /** Clearing at `i` changes the answer for no position at or above `i`. */
  lemma ClearingKeepsLaterAnswers(history: imap<nat, StoredMembership>, i: nat, j: nat)
    requires i <= j
    ensures LatestAt(Cleared(history, i), j) == LatestAt(history, j)
    ensures LatestAt(history, j).Some? ==>
              var m := LatestAt(history, j).value;
              m in history && m in Cleared(history, i) && Cleared(history, i)[m] == history[m]
  {
    var cleared := Cleared(history, i);
    LatestAtIsMaximum(history, i);
    LatestAtIsMaximum(history, j);
    LatestAtIsMaximum(cleared, j);
    assert forall n :: n in cleared ==> n in history;
    if LatestAt(history, j).Some? {
      assert LatestAt(history, j).value in cleared;
    }
  }

  /** Writing under one key is invisible under every other key. */
  lemma LookupAfterSet(db: Db, k: Key, v: Value)
    ensures forall l :: Lookup(db[Encode(k) := v], l) == if l == k then Some(v) else Lookup(db, l)
  {
    hide Encode;
    forall l ensures Lookup(db[Encode(k) := v], l) == if l == k then Some(v) else Lookup(db, l) {
      DecodeEncode();
    }
  }

  lemma ValidAfterSet(db: Db, k: Key, v: Value)
    requires ValidDb(db) && Typed(k, v)
    ensures ValidDb(db[Encode(k) := v])
  {
    hide Encode;
  }

  lemma LookupAfterDelete(db: Db, gone: set<string>, k: Key)
    ensures Lookup(db - gone, k) == if Encode(k) in gone then None else Lookup(db, k)
  {
    hide Encode;
  }

  lemma ValidAfterDelete(db: Db, gone: set<string>)
    requires ValidDb(db)
    ensures ValidDb(db - gone)
  {
    hide Encode;
    forall s | s in db - gone ensures exists k :: s == Encode(k) && Typed(k, (db - gone)[s]) {
      assert exists k :: s == Encode(k) && Typed(k, db[s]);
    }
  }

  class StateStorage {
    var db: Db

    ghost predicate Valid()
      reads this
    {
      ValidDb(db)
    }

    constructor ()
      ensures Valid() && db == map[]
    {
      db := map[];
    }

    method SetAppliedLog(g: nat, id: LogId)
      requires Valid()
      modifies this
      ensures Valid() && OtherGroupsSame(old(db), db, g)
      ensures View(db, g) == View(old(db), g).(applied := Some(id))
    {
      hide Encode, Lookup, ValidDb;
      LookupAfterSet(db, AppliedLog(g), LogIdValue(id));
      ValidAfterSet(db, AppliedLog(g), LogIdValue(id));
      db := db[Encode(AppliedLog(g)) := LogIdValue(id)];
      assert History(db, g) == History(old(db), g);
    }

    method SetSnapshotAppliedLog(g: nat, id: LogId)
      requires Valid()
      modifies this
      ensures Valid() && OtherGroupsSame(old(db), db, g)
      ensures View(db, g) == View(old(db), g).(snapshotApplied := Some(id))
    {
      hide Encode, Lookup, ValidDb;
      LookupAfterSet(db, SnapshotAppliedLog(g), LogIdValue(id));
      ValidAfterSet(db, SnapshotAppliedLog(g), LogIdValue(id));
      db := db[Encode(SnapshotAppliedLog(g)) := LogIdValue(id)];
      assert History(db, g) == History(old(db), g);
    }

    method SetLastPurged(g: nat, id: LogId)
      requires Valid()
      modifies this
      ensures Valid() && OtherGroupsSame(old(db), db, g)
      ensures View(db, g) == View(old(db), g).(purged := Some(id))
    {
      hide Encode, Lookup, ValidDb;
      LookupAfterSet(db, PurgedLogId(g), LogIdValue(id));
      ValidAfterSet(db, PurgedLogId(g), LogIdValue(id));
      db := db[Encode(PurgedLogId(g)) := LogIdValue(id)];
      assert History(db, g) == History(old(db), g);
    }

    /** The last membership, plus one history record when it carries a log id. */
    method SetLastMembership(g: nat, m: StoredMembership)
      requires Valid()
      modifies this
      ensures Valid() && OtherGroupsSame(old(db), db, g)
      ensures View(db, g) == View(old(db), g).(
        last := m,
        history := if m.logId.Some? then View(old(db), g).history[m.logId.value.index := m]
                   else View(old(db), g).history)
    {
      hide Encode, Lookup, ValidDb;
      LookupAfterSet(db, LastMembership(g), MembershipValue(m));
      ValidAfterSet(db, LastMembership(g), MembershipValue(m));
      db := db[Encode(LastMembership(g)) := MembershipValue(m)];
      assert History(db, g) == History(old(db), g);
      if m.logId.Some? {
        var k := MembershipAt(g, m.logId.value.index);
        LookupAfterSet(db, k, MembershipValue(m));
        ValidAfterSet(db, k, MembershipValue(m));
        db := db[Encode(k) := MembershipValue(m)];
        assert History(db, g) == History(old(db), g)[m.logId.value.index := m];
      }
    }

    /** The prefix scan: exactly this group's history, keyed by the encoded key. */
    method GetMembershipList(g: nat) returns (list: map<string, StoredMembership>)
      requires Valid()
      ensures ListsHistory(db, g, list)
    {
      hide Encode, MembershipPrefix, ValidDb;
      list := map[];
      var rest := db.Keys;
      while rest != {}
        invariant rest <= db.Keys
        invariant forall s :: s in list <==> s in db && s !in rest && MembershipPrefix(g) <= s
        invariant forall s :: s in list ==> list[s] == AsMembership(Some(db[s]))
        decreases |rest|
      {
        var s :| s in rest;
        if MembershipPrefix(g) <= s {
          list := list[s := AsMembership(Some(db[s]))];
        }
        rest := rest - {s};
      }
      ScanListsHistory(db, g, list);
    }

    method DelKeys(keys: set<string>)
      modifies this
      ensures db == old(db) - keys
    {
      var rest := keys;
      while rest != {}
        invariant rest <= keys && db == old(db) - (keys - rest)
        decreases |rest|
      {
        var s :| s in rest;
        db := db - {s};
        rest := rest - {s};
      }
    }

    /** Drops every history record older than the latest one at or below `index`. */
    method ClearMemberships(g: nat, index: nat)
      requires Valid()
      modifies this
      ensures Valid() && OtherGroupsSame(old(db), db, g)
      ensures View(db, g) == View(old(db), g).(history := Cleared(View(old(db), g).history, index))
    {
      hide Encode, Lookup, Typed;
      var list := GetMembershipList(g);
      var latest, older := SplitLatest(list, index);
      LatestRecord(db, g, list, index, latest, older);
      DelKeys(older);
      OlderRecordsDeleted(old(db), g, index, older);
    }

    /** Removes every key of the group. */
    method DelGroup(g: nat)
      requires Valid()
      modifies this
      ensures Valid()
      ensures forall k: Key :: Lookup(db, k) == if k.group == g then None else Lookup(old(db), k)
    {
      hide Encode, Lookup, ValidDb, ListsHistory;
      var list := GetMembershipList(g);
      var fixed := {Encode(AppliedLog(g)), Encode(LastMembership(g)), Encode(PurgedLogId(g)),
                    Encode(SnapshotIndex(g)), Encode(Vote(g)), Encode(Snapshot(g)), Encode(AlreadyInit(g)),
                    Encode(NodeSummary(g)), Encode(SnapshotAppliedLog(g))};
      DelKeys(fixed);
      DelKeys(list.Keys);
      assert db == old(db) - (fixed + list.Keys);
      ValidAfterDelete(old(db), fixed + list.Keys);
      forall k: Key ensures Lookup(db, k) == if k.group == g then None else Lookup(old(db), k) {
        LookupAfterDelete(old(db), fixed + list.Keys, k);
        GroupKeyIsDeleted(old(db), g, fixed, list, k);
      }
    }
  }

  /** The keys that `del_group` deletes cover the group and belong to it. */
  lemma GroupKeyIsDeleted(db: Db, g: nat, fixed: set<string>, list: map<string, StoredMembership>, k: Key)
    requires fixed == {Encode(AppliedLog(g)), Encode(LastMembership(g)), Encode(PurgedLogId(g)),
                       Encode(SnapshotIndex(g)), Encode(Vote(g)), Encode(Snapshot(g)), Encode(AlreadyInit(g)),
                       Encode(NodeSummary(g)), Encode(SnapshotAppliedLog(g))}
    requires ListsHistory(db, g, list)
    ensures k.group == g && Lookup(db, k).Some? ==> Encode(k) in fixed + list.Keys
    ensures Encode(k) in fixed + list.Keys ==> k.group == g
  {
    hide Encode;
    DecodeEncode();
    if Encode(k) in fixed {
      assert Decode(Encode(k)).group == g;
    } else if Encode(k) in list {
      assert Decode(Encode(k)) == MembershipAt(g, list[Encode(k)].Index());
    } else if k.MembershipAt? && k.group == g {
      assert k.index in History(db, g) <==> Lookup(db, k).Some?;
    }
  }

  /** The encoded keys of `list` are those of the group's history, each naming its own record. */
  ghost predicate ListsHistory(db: Db, g: nat, list: map<string, StoredMembership>) {
    && (forall i: nat :: i in History(db, g) <==> Encode(MembershipAt(g, i)) in list)
    && (forall s :: s in list ==>
          && s == Encode(MembershipAt(g, list[s].Index()))
          && History(db, g)[list[s].Index()] == list[s])
  }

  lemma ScanListsHistory(db: Db, g: nat, list: map<string, StoredMembership>)
    requires ValidDb(db)
    requires forall s :: s in list <==> s in db && MembershipPrefix(g) <= s
    requires forall s :: s in list ==> list[s] == AsMembership(Some(db[s]))
    ensures ListsHistory(db, g, list)
  {
    hide Encode, MembershipPrefix;
    forall i: nat ensures i in History(db, g) <==> Encode(MembershipAt(g, i)) in list {
      PrefixScanIsExact(g, MembershipAt(g, i));
    }
    forall s | s in list
      ensures s == Encode(MembershipAt(g, list[s].Index())) && History(db, g)[list[s].Index()] == list[s]
    {
      var k :| s == Encode(k) && Typed(k, db[s]);
      PrefixScanIsExact(g, k);
      assert k == MembershipAt(g, k.index);
    }
  }

  /** `latest` is the last of the retained records in index order, `older` are the others. */
  ghost predicate IsSplit<K>(list: map<K, StoredMembership>, index: nat, latest: Option<K>, older: set<K>) {
    match latest
    case None => older == {} && forall s :: s in list ==> list[s].Index() > index
    case Some(m) =>
      && m in list && list[m].Index() <= index
      && (forall s :: s in list && list[s].Index() <= index ==> list[s].Index() <= list[m].Index())
      && older == (set s | s in list && list[s].Index() <= index) - {m}
  }

  /** Sorting by index and retaining those at or below `index` leaves a last record and the ones before it. */
  method SplitLatest<K(==)>(list: map<K, StoredMembership>, index: nat)
    returns (latest: Option<K>, older: set<K>)
    ensures IsSplit(list, index, latest, older)
  {
    var retained := set s | s in list && list[s].Index() <= index;
    latest, older := None, {};
    var rest := retained;
    SplitBegins(list, retained);
    while rest != {}
      invariant rest <= retained && SplitSoFar(list, retained - rest, latest, older)
      decreases |rest|
    {
      hide SplitSoFar;
      var s :| s in rest;
      SplitGoesOn(list, retained - rest, latest, older, s);
      assert retained - (rest - {s}) == retained - rest + {s};
      rest := rest - {s};
      if latest.None? {
        latest := Some(s);
      } else if list[latest.value].Index() < list[s].Index() {
        older := older + {latest.value};
        latest := Some(s);
      } else {
        older := older + {s};
      }
    }
    assert retained - {} == retained;
    SplitEnds(list, index, retained, latest, older);
  }

  /** Of the records visited, `latest` has the greatest index and `older` are the others. */
  ghost predicate SplitSoFar<K>(list: map<K, StoredMembership>, done: set<K>, latest: Option<K>, older: set<K>) {
    done <= list.Keys &&
    match latest
    case None => done == {} && older == {}
    case Some(m) =>
      && m in done && older == done - {m}
      && forall s :: s in done ==> list[s].Index() <= list[m].Index()
  }

  lemma SplitBegins<K>(list: map<K, StoredMembership>, retained: set<K>)
    ensures SplitSoFar(list, retained - retained, None, {})
  {
  }

  lemma SplitGoesOn<K>(list: map<K, StoredMembership>, done: set<K>, latest: Option<K>, older: set<K>, s: K)
    requires SplitSoFar(list, done, latest, older) && s in list && s !in done
    ensures latest.None? ==> SplitSoFar(list, done + {s}, Some(s), older)
    ensures latest.Some? ==>
              latest.value in list &&
              if list[latest.value].Index() < list[s].Index()
              then SplitSoFar(list, done + {s}, Some(s), older + {latest.value})
              else SplitSoFar(list, done + {s}, latest, older + {s})
  {
    if latest.Some? {
      var m := latest.value;
      assert done + {s} - {s} == done == older + {m};
      assert done + {s} - {m} == older + {s};
    }
  }

  lemma SplitEnds<K>(list: map<K, StoredMembership>, index: nat, retained: set<K>, latest: Option<K>, older: set<K>)
    requires retained == (set s | s in list && list[s].Index() <= index) && SplitSoFar(list, retained, latest, older)
    ensures IsSplit(list, index, latest, older)
  {
    forall s | s in list && list[s].Index() <= index ensures s in retained {
    }
    if latest.None? {
      forall s | s in list ensures list[s].Index() > index {
        assert s !in retained;
      }
    }
  }

  /** The last retained record is the latest one of the history at or below `index`, the others precede it. */
  lemma LatestOfSplit<K>(h: imap<nat, StoredMembership>, key: nat -> K, list: map<K, StoredMembership>,
                         index: nat, latest: Option<K>, older: set<K>)
    requires forall i, j :: key(i) == key(j) ==> i == j
    requires forall i: nat :: i in h <==> key(i) in list
    requires forall s :: s in list ==> s == key(list[s].Index())
    requires IsSplit(list, index, latest, older)
    ensures LatestAt(h, index) == if latest.None? then None else Some(list[latest.value].Index())
    ensures forall i: nat :: key(i) in older <==> i in h && latest.Some? && i < list[latest.value].Index()
  {
    LatestAtIsMaximum(h, index);
    assert forall i: nat :: i in h ==> list[key(i)].Index() == i;
    if latest.Some? {
      var m := list[latest.value].Index();
      assert key(m) == latest.value && m in h;
    }
  }

  lemma LatestRecord(db: Db, g: nat, list: map<string, StoredMembership>, index: nat,
                     latest: Option<string>, older: set<string>)
    requires ListsHistory(db, g, list) && IsSplit(list, index, latest, older)
    ensures LatestAt(History(db, g), index) == if latest.None? then None else Some(list[latest.value].Index())
    ensures latest.Some? ==> History(db, g)[list[latest.value].Index()] == list[latest.value]
    ensures forall i: nat :: Encode(MembershipAt(g, i)) in older <==>
              i in History(db, g) && latest.Some? && i < list[latest.value].Index()
  {
    hide Encode, History;
    var key := (i: nat) => Encode(MembershipAt(g, i));
    forall i, j | key(i) == key(j) ensures i == j {
      EncodeInjective(MembershipAt(g, i), MembershipAt(g, j));
    }
    LatestOfSplit(History(db, g), key, list, index, latest, older);
    forall i: nat ensures Encode(MembershipAt(g, i)) in older <==>
              i in History(db, g) && latest.Some? && i < list[latest.value].Index()
    {
      assert key(i) == Encode(MembershipAt(g, i));
    }
  }

  /** Deleting the older records' keys clears the history and touches nothing else. */
  lemma OlderRecordsDeleted(db: Db, g: nat, index: nat, older: set<string>)
    requires ValidDb(db)
    requires forall i: nat :: Encode(MembershipAt(g, i)) in older <==>
               i in History(db, g) && LatestAt(History(db, g), index).Some? && i < LatestAt(History(db, g), index).value
    requires forall s :: s in older ==> exists i: nat :: s == Encode(MembershipAt(g, i))
    ensures ValidDb(db - older) && OtherGroupsSame(db, db - older, g)
    ensures View(db - older, g) == View(db, g).(history := Cleared(History(db, g), index))
  {
    hide Encode, Lookup, LatestAt;
    ValidAfterDelete(db, older);
    forall k: Key
      ensures Lookup(db - older, k) ==
              if k.MembershipAt? && k.group == g && Encode(k) in older then None else Lookup(db, k)
    {
      LookupAfterDelete(db, older, k);
      if Encode(k) in older {
        var i: nat :| Encode(k) == Encode(MembershipAt(g, i));
        EncodeInjective(k, MembershipAt(g, i));
      }
    }
    LatestAtIsMaximum(History(db, g), index);
    assert History(db - older, g) == Cleared(History(db, g), index);
  }
}
