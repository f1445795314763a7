/**
 The Raft log store: entries under 8-byte big-endian keys in a database that
 orders keys byte by byte (`HeedEntryStorage` in replication/src/entry_store.rs).
 The class works on the byte keys; its contracts speak of `LogOf`, the same
 log keyed by number.
 */
module EntryStore {
  import opened Wrappers
  import opened RaftTypes
  import opened BigEndian

  type Db = map<seq<byte>, Entry>

  type Log = map<u64, Entry>

  function Key(i: u64): (k: seq<byte>)
    ensures |k| == 8
  {
    Bytes(8, i)
  }

  ghost predicate ValidDb(db: Db) {
    forall k :: k in db ==> |k| == 8 && db[k].logId.index == Number(k)
  }

  lemma KeyRoundTrip(i: u64)
    ensures Number(Key(i)) == i
  {
    assert Pow256(3) == 0x100_0000;
    assert Pow256(8) == 0x1_0000_0000_0000_0000;
    NumberOfBytes(8, i);
  }

  /** A stored key as the number it stands for. */
  ghost function IndexOf(k: seq<byte>): u64
    requires |k| == 8
  {
    assert Pow256(3) == 0x100_0000;
    assert Pow256(8) == 0x1_0000_0000_0000_0000;
    NumberIsBounded(k);
    Number(k)
  }

  ghost function LogOf(db: Db): Log {
    map i | i in (set k | k in db && |k| == 8 :: IndexOf(k)) && Key(i) in db :: db[Key(i)]
  }

  /** The numeric view holds at `i` exactly what the database holds under the key of `i`. */
  lemma LogAt(db: Db, i: u64)
    ensures i in LogOf(db) <==> Key(i) in db
    ensures i in LogOf(db) ==> LogOf(db)[i] == db[Key(i)]
  {
    hide Bytes, Number;
    KeyRoundTrip(i);
    assert IndexOf(Key(i)) == i;
  }

  lemma KeyOfNumber(k: seq<byte>)
    requires |k| == 8
    ensures Key(IndexOf(k)) == k
  {
    BytesOfNumber(k);
  }

  /** Comparing stored keys byte by byte compares log indexes. */
  lemma KeyOrder(k: seq<byte>, i: u64)
    requires |k| == 8
    ensures Less(k, Key(i)) <==> IndexOf(k) < i
    ensures Less(Key(i), k) <==> i < IndexOf(k)
  {
    LessIsNumeric(k, Key(i));
    LessIsNumeric(Key(i), k);
    KeyRoundTrip(i);
  }

  /** The log after writing the entries in order. */
  ghost function PutAll(log: Log, ents: seq<Entry>): Log {
    if ents == [] then log
    else var e := ents[|ents| - 1]; PutAll(log, ents[..|ents| - 1])[e.logId.index := e]
  }

  /** The stored entries with index in `[low, high)`, ascending. */
  ghost function Slice(log: Log, low: u64, high: u64): seq<Entry>
    decreases high
  {
    if low >= high then []
    else Slice(log, low, high - 1) + if high - 1 in log then [log[high - 1]] else []
  }

  ghost function Below(log: Log, i: nat): Log {
    map j | j in log && j < i :: log[j]
  }

  ghost function From(log: Log, i: nat): Log {
    map j | j in log && j >= i :: log[j]
  }

  /** Writing leaves every other index alone. */
  lemma {:induction false} PutAllElsewhere(log: Log, ents: seq<Entry>, i: u64)
    requires forall k :: 0 <= k < |ents| ==> ents[k].logId.index != i
    ensures (i in PutAll(log, ents) <==> i in log) && (i in log ==> PutAll(log, ents)[i] == log[i])
  {
    if ents != [] {
      PutAllElsewhere(log, ents[..|ents| - 1], i);
    }
  }

  /** Every entry is written under its own index; of several with one index the last stays. */
  lemma {:induction false} PutAllAt(log: Log, ents: seq<Entry>, k: nat)
    requires k < |ents| && forall j :: k < j < |ents| ==> ents[j].logId.index != ents[k].logId.index
    ensures ents[k].logId.index in PutAll(log, ents) && PutAll(log, ents)[ents[k].logId.index] == ents[k]
    decreases |ents|
  {
    if k < |ents| - 1 {
      PutAllAt(log, ents[..|ents| - 1], k);
    }
  }

  /** `r` holds each entry of the log with index in `[low, high)` once, in ascending order, and nothing else. */
  ghost predicate IsRange(log: Log, low: nat, high: nat, r: seq<Entry>) {
    && (forall k :: 0 <= k < |r| ==> InRange(log, low, high, r[k]))
    && (forall j, k :: 0 <= j < k < |r| ==> r[j].logId.index < r[k].logId.index)
    && (forall i :: i in log && low <= i < high ==> log[i] in r)
  }

  ghost predicate InRange(log: Log, low: nat, high: nat, e: Entry) {
    low <= e.logId.index < high && e.logId.index in log && log[e.logId.index] == e
  }

  lemma {:induction false} SliceIsRange(log: Log, low: u64, high: u64)
    requires forall i :: i in log ==> log[i].logId.index == i
    ensures IsRange(log, low, high, Slice(log, low, high))
    decreases high
  {
    if low < high {
      SliceIsRange(log, low, high - 1);
      var init, r := Slice(log, low, high - 1), Slice(log, low, high);
      assert forall k :: 0 <= k < |init| ==> InRange(log, low, high - 1, init[k]);
    }
  }

  lemma LogIsKeyed(db: Db)
    requires ValidDb(db)
    ensures forall i :: i in LogOf(db) ==> LogOf(db)[i].logId.index == i
  {
    hide Bytes, Number;
    forall i | i in LogOf(db) ensures LogOf(db)[i].logId.index == i {
      LogAt(db, i);
      KeyRoundTrip(i);
    }
  }

  lemma {:induction false} EmptyStretch(log: Log, low: u64, mid: u64, high: u64)
    requires low <= mid <= high && forall i: u64 :: mid <= i < high ==> i !in log
    ensures Slice(log, low, high) == Slice(log, low, mid)
    decreases high
  {
    if mid < high {
      EmptyStretch(log, low, mid, high - 1);
    }
  }

  lemma {:induction false} LeastExists(s: set<seq<byte>>)
    requires s != {} && forall k :: k in s ==> |k| == 8
    ensures exists k :: k in s && forall l :: l in s ==> !Less(l, k)
    decreases |s|
  {
    hide Less, Number;
    forall k, l | k in s && l in s ensures Less(k, l) <==> IndexOf(k) < IndexOf(l) {
      LessIsNumeric(k, l);
    }
    var x :| x in s;
    if s == {x} {
      assert x in s && forall l :: l in s ==> !Less(l, x);
    } else {
      LeastExists(s - {x});
      var k :| k in s - {x} && forall l :: l in s - {x} ==> !Less(l, k);
      var best := if Less(x, k) then x else k;
      assert best in s && forall l :: l in s ==> !Less(l, best);
    }
  }

  class HeedEntryStorage {
    var db: Db

    ghost predicate Valid()
      reads this
    {
      ValidDb(db)
    }

    ghost function View(): Log
      reads this
    {
      LogOf(db)
    }

    constructor ()
      ensures Valid() && View() == map[]
    {
      db := map[];
    }

    method Append(ents: seq<Entry>)
      requires Valid()
      modifies this
      ensures Valid()
      ensures View() == PutAll(old(View()), ents)
    {
      hide Key, LogOf, ValidDb;
      for n := 0 to |ents|
        invariant Valid()
        invariant View() == PutAll(old(View()), ents[..n])
      {
        var e := ents[n];
        var i := e.logId.index;
        LogAfterPut(db, i, e);
        db := db[Key(i) := e];
        assert ents[..n + 1][..n] == ents[..n];
      }
      assert ents[..|ents|] == ents;
    }

    /** The entry under the greatest key, which is the greatest index. */
    method LastEntry() returns (r: Option<Entry>)
      requires Valid()
      ensures r.None? <==> View() == map[]
      ensures r.Some? ==>
                && r.value.logId.index in View() && View()[r.value.logId.index] == r.value
                && forall i :: i in View() ==> i <= r.value.logId.index
    {
      hide Bytes, Number, Less;
      var rest := db.Keys;
      var best: Option<seq<byte>> := None;
      while rest != {}
        invariant rest <= db.Keys
        invariant best.None? ==> rest == db.Keys
        invariant best.Some? ==> best.value in db && forall k :: k in db && k !in rest ==> !Less(best.value, k)
        decreases |rest|
      {
        var k :| k in rest;
        rest := rest - {k};
        if best.None? {
          GreaterOf(k, k, db.Keys - rest - {k});
          best := Some(k);
        } else {
          GreaterOf(best.value, k, db.Keys - rest - {k});
          if Less(best.value, k) {
            best := Some(k);
          }
        }
      }
      if best.None? {
        assert LogOf(db) == map[];
        return None;
      }
      r := Some(db[best.value]);
      GreatestIsLast(db, best.value);
    }

    method EntryAt(index: u64) returns (r: Option<Entry>)
      ensures r == if index in View() then Some(View()[index]) else None
    {
      LogAt(db, index);
      r := if Key(index) in db then Some(db[Key(index)]) else None;
    }

    /** A cursor over the keys in `[low, high)`, in key order. */
    method Entries(low: u64, high: u64) returns (r: seq<Entry>)
      requires Valid()
      ensures r == Slice(View(), low, high) && IsRange(View(), low, high, r)
    {
      hide Key, Less, LogOf, IndexOf;
      r := [];
      var pending := set k | k in db && !Less(k, Key(low)) && Less(k, Key(high));
      PendingAtStart(db, low, high, pending);
      ghost var at: u64 := low;
      while pending != {}
        invariant if low < high then low <= at <= high else at == low && pending == {}
        invariant r == Slice(View(), low, at)
        invariant IsPending(db, pending, at, high)
        decreases |pending|
      {
        PendingLeast(db, pending, at, high);
        var k :| k in pending && forall l :: l in pending ==> !Less(l, k);
        PendingNext(db, low, at, high, pending, k);
        r := r + [db[k]];
        pending := pending - {k};
        at := IndexOf(k) + 1;
      }
      if low < high {
        NothingPending(db, at, high, pending);
        EmptyStretch(View(), low, at, high);
      }
      assert IsRange(View(), low, high, r) by {
        LogIsKeyed(db);
        SliceIsRange(View(), low, high);
      }
    }

    /** Deletes the keys from `index` on. */
    method DelAfter(index: u64)
      requires Valid()
      modifies this
      ensures Valid() && View() == Below(old(View()), index)
    {
      hide Bytes, Number, Less;
      db := map k | k in db && Less(k, Key(index)) :: db[k];
      forall i: u64 ensures i in View() <==> i in Below(old(View()), index) {
        LogAt(db, i);
        LogAt(old(db), i);
        KeyOrder(Key(i), index);
        KeyRoundTrip(i);
      }
      forall i: u64 | i in View() ensures View()[i] == old(View())[i] {
        LogAt(db, i);
        LogAt(old(db), i);
      }
    }

    /** Deletes the keys before `index`. */
    method DelBefore(index: u64)
      requires Valid()
      modifies this
      ensures Valid() && View() == From(old(View()), index)
    {
      hide Bytes, Number, Less;
      db := map k | k in db && !Less(k, Key(index)) :: db[k];
      forall i: u64 ensures i in View() <==> i in From(old(View()), index) {
        LogAt(db, i);
        LogAt(old(db), i);
        KeyOrder(Key(i), index);
        KeyRoundTrip(i);
      }
      forall i: u64 | i in View() ensures View()[i] == old(View())[i] {
        LogAt(db, i);
        LogAt(old(db), i);
      }
    }
  }

  lemma LogAfterPut(db: Db, i: u64, e: Entry)
    ensures LogOf(db[Key(i) := e]) == LogOf(db)[i := e]
    ensures ValidDb(db) && e.logId.index == i ==> ValidDb(db[Key(i) := e])
  {
    hide Bytes, Number, LogOf;
    KeyRoundTrip(i);
    var a, b := LogOf(db[Key(i) := e]), LogOf(db)[i := e];
    forall j: u64 ensures j in a <==> j in b
      ensures j in a ==> a[j] == b[j]
    {
      KeyRoundTrip(j);
      LogAt(db, j);
      LogAt(db[Key(i) := e], j);
    }
  }

  /** Scanning on: the greater of the best key so far and the next one. */
  lemma GreaterOf(best: seq<byte>, k: seq<byte>, seen: set<seq<byte>>)
    requires |best| == 8 && |k| == 8 && forall l :: l in seen ==> |l| == 8 && !Less(best, l)
    ensures !Less(k, k) && !Less(best, best)
    ensures Less(best, k) ==> !Less(k, best) && forall l :: l in seen ==> !Less(k, l)
  {
    hide Less, Number;
    LessIsNumeric(k, k);
    LessIsNumeric(best, best);
    LessIsNumeric(best, k);
    LessIsNumeric(k, best);
    forall l | l in seen ensures Less(best, k) ==> !Less(k, l) {
      LessIsNumeric(best, l);
      LessIsNumeric(k, l);
    }
  }

  lemma GreatestIsLast(db: Db, best: seq<byte>)
    requires ValidDb(db) && best in db && forall k :: k in db ==> !Less(best, k)
    ensures db[best].logId.index in LogOf(db) && LogOf(db)[db[best].logId.index] == db[best]
    ensures forall i :: i in LogOf(db) ==> i <= db[best].logId.index
  {
    hide Bytes, Number, Less;
    var m := IndexOf(best);
    KeyOfNumber(best);
    LogAt(db, m);
    forall i | i in LogOf(db) ensures i <= m {
      LogAt(db, i);
      KeyOrder(best, i);
    }
  }

  /** The keys still to be read are those of the indexes in `[at, high)`. */
  ghost predicate IsPending(db: Db, pending: set<seq<byte>>, at: nat, high: nat) {
    forall k :: k in pending <==> k in db && |k| == 8 && at <= IndexOf(k) < high
  }

  lemma PendingAtStart(db: Db, low: u64, high: u64, pending: set<seq<byte>>)
    requires ValidDb(db) && pending == set k | k in db && !Less(k, Key(low)) && Less(k, Key(high))
    ensures IsPending(db, pending, low, high) && (low < high || pending == {})
  {
    hide Key, Less, IndexOf;
    forall k | k in db ensures k in pending <==> low <= IndexOf(k) < high {
      KeyOrder(k, low);
      KeyOrder(k, high);
    }
  }

  lemma PendingLeast(db: Db, pending: set<seq<byte>>, at: nat, high: nat)
    requires IsPending(db, pending, at, high) && pending != {}
    ensures exists k :: k in pending && forall l :: l in pending ==> !Less(l, k)
  {
    LeastExists(pending);
  }

  /** Reading the least pending key moves the cursor just past it. */
  lemma PendingNext(db: Db, low: u64, at: u64, high: u64, pending: set<seq<byte>>, k: seq<byte>)
    requires ValidDb(db) && IsPending(db, pending, at, high) && low <= at
    requires k in pending && forall l :: l in pending ==> !Less(l, k)
    ensures k in db && |k| == 8 && at <= IndexOf(k) < high
    ensures Slice(LogOf(db), low, IndexOf(k) + 1) == Slice(LogOf(db), low, at) + [db[k]]
    ensures IsPending(db, pending - {k}, IndexOf(k) + 1, high)
  {
    hide Key, Less, Number, LogOf, Bytes;
    var i := IndexOf(k);
    forall l | l in pending ensures i <= IndexOf(l) && (l == k <==> IndexOf(l) == i) {
      LessIsNumeric(l, k);
      KeyOfNumber(l);
      KeyOfNumber(k);
    }
    forall j: u64 | at <= j < i ensures j !in LogOf(db) {
      LogAt(db, j);
      KeyRoundTrip(j);
    }
    EmptyStretch(LogOf(db), low, at, i);
    KeyOfNumber(k);
    LogAt(db, i);
  }

  lemma NothingPending(db: Db, at: u64, high: u64, pending: set<seq<byte>>)
    requires IsPending(db, pending, at, high) && pending == {}
    ensures forall i: u64 :: at <= i < high ==> i !in LogOf(db)
  {
    hide Bytes, Number, LogOf;
    forall i: u64 | at <= i < high ensures i !in LogOf(db) {
      LogAt(db, i);
      KeyRoundTrip(i);
    }
  }
}
