/**
 The circular key/value cache (common/cache/src/circular_kvcache.rs): a ring
 of keys in insertion order beside a map, the oldest key giving way to a new
 one when the ring is full. Keys are integers.
 */
module CircularCache {
  import opened Wrappers

  /** The keys at the front that are below `key`, and the rest. */
  function Front(s: seq<int>, key: int): (n: nat)
    ensures n <= |s|
    ensures forall k :: 0 <= k < n ==> s[k] < key
    ensures n < |s| ==> s[n] >= key
  {
    if s == [] || s[0] >= key then 0 else 1 + Front(s[1..], key)
  }

  /** The length left when the keys at the back that are at or above `key` are cut off. */
  function Back(s: seq<int>, key: int): (n: nat)
    ensures n <= |s|
    ensures forall k :: n <= k < |s| ==> s[k] >= key
    ensures n > 0 ==> s[n - 1] < key
  {
    if s == [] || s[|s| - 1] < key then |s| else Back(s[..|s| - 1], key)
  }

  function Reversed(s: seq<int>): (r: seq<int>)
    ensures |r| == |s| && forall k :: 0 <= k < |s| ==> r[k] == s[|s| - 1 - k]
  {
    if s == [] then [] else [s[|s| - 1]] + Reversed(s[..|s| - 1])
  }

  function Next(x: nat, n: nat): nat {
    if x + 1 < n then x + 1 else 0
  }

  lemma ModWraps(x: nat, n: nat)
    requires x < n
    ensures (x + 1) % n == Next(x, n)
    ensures x % n == x
  {
  }

  /** The stretch of a ring from `head` to `tail`, both included. */
  function Stretch(ring: seq<int>, head: nat, tail: nat): seq<int>
    requires head < |ring| && tail < |ring|
  {
    if head <= tail then ring[head..tail + 1] else ring[head..] + ring[..tail + 1]
  }

  lemma StretchAt(ring: seq<int>, head: nat, tail: nat)
    requires head < |ring| && tail < |ring|
    ensures var s := Stretch(ring, head, tail);
            && |s| == (if head <= tail then tail - head + 1 else |ring| - head + tail + 1)
            && forall k :: 0 <= k < |s| ==> s[k] == ring[if head + k < |ring| then head + k else head + k - |ring|]
  {
  }

  /** Writing one past the tail appends; when the ring is full the head moves on too. */
  lemma PushStretch(ring: seq<int>, head: nat, tail: nat, item: int)
    requires head < |ring| && tail < |ring|
    ensures var s, t := Stretch(ring, head, tail), Next(tail, |ring|);
            Stretch(ring[t := item], if t == head then Next(head, |ring|) else head, t)
            == (if |s| == |ring| then s[1..] else s) + [item]
  {
    hide Stretch;
    var n, t := |ring|, Next(tail, |ring|);
    var h := if t == head then Next(head, n) else head;
    StretchAt(ring, head, tail);
    StretchAt(ring[t := item], h, t);
    var s, after := Stretch(ring, head, tail), Stretch(ring[t := item], h, t);
    var want := (if |s| == n then s[1..] else s) + [item];
    assert |after| == |want|;
    forall k | 0 <= k < |after| ensures after[k] == want[k] {
      if k == |after| - 1 {
        assert after[k] == item;
      }
    }
  }

  /** Clearing the tail slot and stepping back drops the last key. */
  lemma DropStretch(ring: seq<int>, head: nat, tail: nat)
    requires head < |ring| && tail < |ring|
    ensures var s := Stretch(ring, head, tail);
            if head == tail then |s| == 1
            else Stretch(ring[tail := 0], head, if tail == 0 then |ring| - 1 else tail - 1) == s[..|s| - 1]
  {
    hide Stretch;
    StretchAt(ring, head, tail);
    if head != tail {
      var t := if tail == 0 then |ring| - 1 else tail - 1;
      StretchAt(ring[tail := 0], head, t);
      var s, after := Stretch(ring, head, tail), Stretch(ring[tail := 0], head, t);
      assert |after| == |s| - 1;
      assert forall k :: 0 <= k < |after| ==> after[k] == s[k];
    }
  }

  /** Clearing the head slot and stepping on drops the first key. */
  lemma PopStretch(ring: seq<int>, head: nat, tail: nat)
    requires head < |ring| && tail < |ring|
    ensures var s := Stretch(ring, head, tail);
            && s != [] && s[0] == ring[head]
            && if head == tail then |s| == 1 else Stretch(ring[head := 0], Next(head, |ring|), tail) == s[1..]
  {
    hide Stretch;
    StretchAt(ring, head, tail);
    if head != tail {
      var h := Next(head, |ring|);
      StretchAt(ring[head := 0], h, tail);
      var s, after := Stretch(ring, head, tail), Stretch(ring[head := 0], h, tail);
      assert |after| == |s| - 1;
      assert forall k :: 0 <= k < |after| ==> after[k] == s[k + 1];
    }
  }

  class CircularBuffer {
    var buffer: array<int>
    var head: nat
    var tail: nat
    var empty: bool

    ghost predicate Valid()
      reads this
    {
      head < buffer.Length && tail < buffer.Length && (empty ==> head == tail)
    }

    /** The keys from the oldest to the newest. */
    ghost function Contents(): seq<int>
      reads this, buffer
      requires Valid()
    {
      if empty then [] else Stretch(buffer[..], head, tail)
    }

    constructor (size: nat)
      ensures fresh(buffer) && buffer.Length == size && (size > 0 ==> Valid() && Contents() == [])
    {
      buffer := new int[size](_ => 0);
      head, tail, empty := 0, 0, true;
    }

    method IsFull() returns (full: bool)
      requires Valid()
      ensures full <==> |Contents()| == buffer.Length || (empty && buffer.Length == 1)
    {
      ModWraps(tail, buffer.Length);
      full := (tail + 1) % buffer.Length == head;
    }

    method GetTail() returns (r: Option<int>)
      requires Valid()
      ensures r == if Contents() == [] then None else Some(Contents()[|Contents()| - 1])
    {
      r := if empty then None else Some(buffer[tail]);
    }

    /** Appends the key; a full ring loses its oldest one. */
    method Push(item: int)
      requires Valid()
      modifies this, buffer
      ensures Valid() && buffer == old(buffer)
      ensures var before := old(Contents());
              Contents() == (if |before| == buffer.Length then before[1..] else before) + [item]
    {
      if empty {
        empty := false;
        buffer[tail] := item;
        return;
      }
      hide Stretch;
      PushStretch(buffer[..], head, tail, item);
      ModWraps(tail, buffer.Length);
      ModWraps(head, buffer.Length);
      tail := (tail + 1) % buffer.Length;
      if tail == head {
        head := (head + 1) % buffer.Length;
      }
      buffer[tail] := item;
      assert buffer[..] == old(buffer[..])[tail := item];
    }

    /** Removes the oldest key. */
    method Pop() returns (r: Option<int>)
      requires Valid()
      modifies this, buffer
      ensures Valid() && buffer == old(buffer)
      ensures if old(Contents()) == [] then r == None && Contents() == []
              else r == Some(old(Contents())[0]) && Contents() == old(Contents())[1..]
    {
      if empty {
        return None;
      }
      hide Stretch;
      PopStretch(buffer[..], head, tail);
      var item := buffer[head];
      buffer[head] := 0;
      assert buffer[..] == old(buffer[..])[head := 0];
      ModWraps(head, buffer.Length);
      if head == tail {
        empty := true;
      } else {
        head := (head + 1) % buffer.Length;
      }
      r := Some(item);
    }

    /** Removes the newest key, which the caller has just read. */
    method DropTail()
      requires Valid() && !empty
      modifies this, buffer
      ensures Valid() && buffer == old(buffer)
      ensures Contents() == old(Contents())[..|old(Contents())| - 1]
    {
      hide Stretch;
      DropStretch(buffer[..], head, tail);
      buffer[tail] := 0;
      assert buffer[..] == old(buffer[..])[tail := 0];
      if head == tail {
        empty := true;
      } else if tail == 0 {
        tail := buffer.Length - 1;
      } else {
        ModWraps(tail - 1, buffer.Length);
        tail := (tail - 1) % buffer.Length;
      }
    }

    /** Drains the keys below `key` from the front. */
    method DelBefore(key: int) returns (list: seq<int>)
      requires Valid()
      modifies this, buffer
      ensures Valid() && buffer == old(buffer)
      ensures var n := Front(old(Contents()), key);
              list == old(Contents())[..n] && Contents() == old(Contents())[n..]
    {
      list := [];
      ghost var all := Contents();
      while !empty && buffer[head] < key
        invariant Valid() && buffer == old(buffer)
        invariant |list| <= |all| && list == all[..|list|] && Contents() == all[|list|..]
        invariant forall k :: 0 <= k < |list| ==> list[k] < key
        decreases |all| - |list|
      {
        var item := Pop();
        list := list + [item.value];
      }
      FrontIs(all, key, |list|);
    }

    /** Drains the keys at or above `key` from the back, newest first. */
    method DelAfter(key: int) returns (list: seq<int>)
      requires Valid()
      modifies this, buffer
      ensures Valid() && buffer == old(buffer)
      ensures var n := Back(old(Contents()), key);
              list == Reversed(old(Contents())[n..]) && Contents() == old(Contents())[..n]
    {
      hide Stretch, Back, Reversed;
      list := [];
      ghost var all := Contents();
      ghost var n := |all|;
      assert all[n..] == [] && Reversed([]) == [] && all[..n] == all;
      while !empty && buffer[tail] >= key
        invariant Valid() && buffer == old(buffer)
        invariant 0 <= n <= |all| && Contents() == all[..n] && list == Reversed(all[n..])
        invariant forall k :: n <= k < |all| ==> all[k] >= key
        decreases n
      {
        LastOfStretch(buffer[..], head, tail);
        assert buffer[..][tail] == buffer[tail];
        list := list + [buffer[tail]];
        ReversedGrows(all, n);
        DropTail();
        assert all[..n][..n - 1] == all[..n - 1];
        n := n - 1;
      }
      if !empty {
        LastOfStretch(buffer[..], head, tail);
        assert buffer[..][tail] == buffer[tail];
      }
      BackIs(all, key, n);
    }
  }

  lemma LastOfStretch(ring: seq<int>, head: nat, tail: nat)
    requires head < |ring| && tail < |ring|
    ensures var s := Stretch(ring, head, tail); s != [] && s[|s| - 1] == ring[tail]
  {
  }

  lemma ReversedGrows(s: seq<int>, n: nat)
    requires 0 < n <= |s|
    ensures Reversed(s[n - 1..]) == Reversed(s[n..]) + [s[n - 1]]
  {
    assert |s[n - 1..]| == |s[n..]| + 1;
  }

  lemma FrontIs(s: seq<int>, key: int, n: nat)
    requires n <= |s| && (forall k :: 0 <= k < n ==> s[k] < key) && (n < |s| ==> s[n] >= key)
    ensures Front(s, key) == n
  {
    var m := Front(s, key);
    assert forall k :: 0 <= k < m ==> s[k] < key;
  }

  lemma BackIs(s: seq<int>, key: int, n: nat)
    requires n <= |s| && (forall k :: n <= k < |s| ==> s[k] >= key) && (n > 0 ==> s[n - 1] < key)
    ensures Back(s, key) == n
  {
    var m := Back(s, key);
    assert forall k :: m <= k < |s| ==> s[k] >= key;
  }

  // ---------------------------------------------------------------- the cache

  /** The cache as a value: its capacity, its keys from oldest to newest, and its map. */
  datatype Cache<V> = Cache(capacity: nat, order: seq<int>, content: map<int, V>)

  ghost predicate NoRepeats(s: seq<int>) {
    forall i, j :: 0 <= i < j < |s| ==> s[i] != s[j]
  }

  /** The map's keys are the ring's keys, each once. */
  ghost predicate Consistent<V>(c: Cache<V>) {
    && 0 < c.capacity && |c.order| <= c.capacity
    && NoRepeats(c.order) && forall k :: k in c.content <==> k in c.order
  }

  function Put<V>(c: Cache<V>, key: int, value: V): Cache<V> {
    if key in c.content then c.(content := c.content[key := value])
    else if |c.order| == c.capacity && c.order != []
      then c.(order := c.order[1..] + [key], content := (c.content - {c.order[0]})[key := value])
    else c.(order := c.order + [key], content := c.content[key := value])
  }

  function DelBefore<V>(c: Cache<V>, key: int): Cache<V> {
    var n := Front(c.order, key);
    c.(order := c.order[n..], content := c.content - (set k | k in c.order[..n]))
  }

  function DelAfter<V>(c: Cache<V>, key: int): Cache<V> {
    var n := Back(c.order, key);
    c.(order := c.order[..n], content := c.content - (set k | k in c.order[n..]))
  }

  function Last<V>(c: Cache<V>): Option<V> {
    if c.order != [] && c.order[|c.order| - 1] in c.content then Some(c.content[c.order[|c.order| - 1]]) else None
  }

  class CircularKVCache<V> {
    var cache: map<int, V>
    const buffer: CircularBuffer

    ghost predicate Valid()
      reads this, buffer, buffer.buffer
    {
      buffer.Valid() && Consistent(View())
    }

    ghost function View(): Cache<V>
      reads this, buffer, buffer.buffer
      requires buffer.Valid()
    {
      Cache(buffer.buffer.Length, buffer.Contents(), cache)
    }

    constructor (capacity: nat)
      ensures fresh(buffer) && fresh(buffer.buffer) && buffer.buffer.Length == capacity
      ensures capacity > 0 ==> Valid() && View() == Cache(capacity, [], map[])
    {
      cache := map[];
      buffer := new CircularBuffer(capacity);
    }

    /** A hit exactly for the keys in the ring, with the value last put there. */
    method GetValue(key: int) returns (r: Option<V>)
      requires Valid()
      ensures r.Some? <==> key in View().order
      ensures r.Some? ==> r.value == View().content[key]
    {
      r := if key in cache then Some(cache[key]) else None;
    }

    method LastValue() returns (r: Option<V>)
      requires Valid()
      ensures r == Last(View())
    {
      var key := buffer.GetTail();
      r := if key.Some? && key.value in cache then Some(cache[key.value]) else None;
    }

    method PutValue(key: int, value: V)
      requires Valid()
      modifies this, buffer, buffer.buffer
      ensures Valid() && buffer.buffer == old(buffer.buffer)
      ensures View() == Put(old(View()), key, value)
    {
      ghost var before := View();
      PutIsConsistent(before, key, value);
      if key in cache {
        cache := cache[key := value];
        return;
      }
      var full := buffer.IsFull();
      if full {
        var oldest := buffer.Pop();
        if oldest.Some? {
          cache := cache - {oldest.value};
        }
      }
      buffer.Push(key);
      cache := cache[key := value];
    }

    method DeleteBefore(key: int)
      requires Valid()
      modifies this, buffer, buffer.buffer
      ensures Valid() && buffer.buffer == old(buffer.buffer)
      ensures View() == DelBefore(old(View()), key)
    {
      DelBeforeIsConsistent(View(), key);
      var items := buffer.DelBefore(key);
      RemoveAll(items);
    }

    method DeleteAfter(key: int)
      requires Valid()
      modifies this, buffer, buffer.buffer
      ensures Valid() && buffer.buffer == old(buffer.buffer)
      ensures View() == DelAfter(old(View()), key)
    {
      hide Stretch, Back, Reversed, Consistent;
      DelAfterIsConsistent(View(), key);
      SameMembers(buffer.Contents()[Back(buffer.Contents(), key)..]);
      var items := buffer.DelAfter(key);
      RemoveAll(items);
    }

    method RemoveAll(items: seq<int>)
      modifies this
      ensures cache == old(cache) - (set k | k in items)
    {
      for n := 0 to |items|
        invariant cache == old(cache) - (set k | k in items[..n])
      {
        cache := cache - {items[n]};
      }
      assert items[..|items|] == items;
    }
  }

  lemma SameMembers(s: seq<int>)
    ensures (set k | k in Reversed(s)) == (set k | k in s)
  {
    forall k | k in s ensures k in Reversed(s) {
      var i :| 0 <= i < |s| && s[i] == k;
      assert Reversed(s)[|s| - 1 - i] == k;
    }
  }

  lemma PutIsConsistent<V>(c: Cache<V>, key: int, value: V)
    requires Consistent(c)
    ensures Consistent(Put(c, key, value))
  {
    if key !in c.content && |c.order| == c.capacity {
      assert c.order == [c.order[0]] + c.order[1..];
      assert forall i :: 0 <= i < |c.order| - 1 ==> c.order[1..][i] == c.order[i + 1];
    }
  }

  /** A put changes one value, or adds the key as the newest; only a full ring loses a key, and then its oldest. */
  lemma PutEvictsOldest<V>(c: Cache<V>, key: int, value: V, k: int)
    requires Consistent(c)
    ensures var r := Put(c, key, value); var full := key !in c.content && |c.order| == c.capacity;
            && r.capacity == c.capacity
            && (k in r.content <==> k == key || (k in c.content && !(full && k == c.order[0])))
            && (k in r.content ==> r.content[k] == if k == key then value else c.content[k])
            && r.order == (if key in c.content then c.order
                           else (if full then c.order[1..] else c.order) + [key])
  {
  }

  lemma DelBeforeIsConsistent<V>(c: Cache<V>, key: int)
    requires Consistent(c)
    ensures Consistent(DelBefore(c, key))
  {
    var n := Front(c.order, key);
    assert c.order == c.order[..n] + c.order[n..];
  }

  lemma DelAfterIsConsistent<V>(c: Cache<V>, key: int)
    requires Consistent(c)
    ensures Consistent(DelAfter(c, key))
  {
    var n := Back(c.order, key);
    assert c.order == c.order[..n] + c.order[n..];
  }

  // ---------------------------------------------------------------- against an unbounded map

  ghost predicate Ascending(s: seq<int>) {
    forall i, j :: 0 <= i < j < |s| ==> s[i] < s[j]
  }

  /** The cache holds the entries of `m` from some key on. */
  ghost predicate IsSuffixOf<V>(c: Cache<V>, m: map<int, V>) {
    && (forall k :: k in c.content ==> k in m && m[k] == c.content[k])
    && (forall k, j :: k in c.content && j in m && k <= j ==> j in c.content)
  }

  datatype Call<V> = PutCall(key: int, value: V) | DelBeforeCall(key: int) | DelAfterCall(key: int)

  function Cached<V>(c: Cache<V>, call: Call<V>): Cache<V> {
    match call
    case PutCall(k, v) => Put(c, k, v)
    case DelBeforeCall(k) => DelBefore(c, k)
    case DelAfterCall(k) => DelAfter(c, k)
  }

  /** The same call on a map without a size limit. */
  function Unbounded<V>(m: map<int, V>, call: Call<V>): map<int, V> {
    match call
    case PutCall(k, v) => m[k := v]
    case DelBeforeCall(key) => map k | k in m && k >= key :: m[k]
    case DelAfterCall(key) => map k | k in m && k < key :: m[k]
  }

  /** New keys come in ascending order; a key still cached may be overwritten. */
  ghost predicate Allowed<V>(c: Cache<V>, m: map<int, V>, call: Call<V>) {
    call.PutCall? ==> call.key in c.content || forall k :: k in m ==> k < call.key
  }

  ghost predicate Related<V>(c: Cache<V>, m: map<int, V>) {
    Consistent(c) && Ascending(c.order) && IsSuffixOf(c, m)
  }

  lemma PutKeepsRelated<V>(c: Cache<V>, m: map<int, V>, key: int, value: V)
    requires Related(c, m) && Allowed(c, m, PutCall(key, value))
    ensures Related(Put(c, key, value), m[key := value])
  {
    PutIsConsistent(c, key, value);
    if key !in c.content {
      forall i | 0 <= i < |c.order| ensures c.order[i] < key {
        assert c.order[i] in c.order;
      }
      AppendAscends(c.order, key);
      if |c.order| == c.capacity {
        EvictKeepsSuffix(c, m);
        AppendAscends(c.order[1..], key);
        AppendKeepsSuffix(c.(content := c.content - {c.order[0]}), m, c.order[1..] + [key], key, value);
      } else {
        AppendKeepsSuffix(c, m, c.order + [key], key, value);
      }
    }
  }

  lemma AppendAscends(s: seq<int>, key: int)
    requires Ascending(s) && forall i :: 0 <= i < |s| ==> s[i] < key
    ensures Ascending(s + [key])
  {
  }

  lemma EvictKeepsSuffix<V>(c: Cache<V>, m: map<int, V>)
    requires Consistent(c) && Ascending(c.order) && IsSuffixOf(c, m) && c.order != []
    ensures IsSuffixOf(c.(content := c.content - {c.order[0]}), m)
    ensures Ascending(c.order[1..])
  {
    forall k | k in c.content ensures c.order[0] <= k {
      var i :| 0 <= i < |c.order| && c.order[i] == k;
    }
  }

  lemma AppendKeepsSuffix<V>(c: Cache<V>, m: map<int, V>, order: seq<int>, key: int, value: V)
    requires IsSuffixOf(c, m) && forall k :: k in m ==> k < key
    ensures IsSuffixOf(c.(order := order, content := c.content[key := value]), m[key := value])
  {
  }

  lemma AscendingFront(s: seq<int>, key: int, k: int)
    requires Ascending(s) && k in s
    ensures k in s[..Front(s, key)] <==> k < key
  {
    hide Front;
    var n := Front(s, key);
    var i :| 0 <= i < |s| && s[i] == k;
    if i < n {
      assert s[..n][i] == k;
    } else {
      assert s[n] <= s[i];
      assert forall x :: x in s[..n] ==> x < key;
    }
  }

  lemma AscendingBack(s: seq<int>, key: int, k: int)
    requires Ascending(s) && k in s
    ensures k in s[Back(s, key)..] <==> k >= key
  {
    hide Back;
    var b := Back(s, key);
    var i :| 0 <= i < |s| && s[i] == k;
    if i < b {
      assert s[i] <= s[b - 1];
      assert forall x :: x in s[b..] ==> x >= key;
    } else {
      assert s[b..][i - b] == k;
    }
  }

  lemma DropBelow<V>(m: map<int, V>, gone: set<int>, key: int)
    requires forall k :: k in m ==> (k in gone <==> k < key)
    ensures m - gone == map k | k in m && k >= key :: m[k]
  {
    var r := map k | k in m && k >= key :: m[k];
    assert forall k :: k in m - gone <==> k in r;
  }

  lemma DropFrom<V>(m: map<int, V>, gone: set<int>, key: int)
    requires forall k :: k in m ==> (k in gone <==> k >= key)
    ensures m - gone == map k | k in m && k < key :: m[k]
  {
    var r := map k | k in m && k < key :: m[k];
    assert forall k :: k in m - gone <==> k in r;
  }

  /** With ascending keys the deletes remove exactly the keys below, or from, the given one. */
  lemma DeletesAreExact<V>(c: Cache<V>, key: int)
    requires Consistent(c) && Ascending(c.order)
    ensures DelBefore(c, key).content == map k | k in c.content && k >= key :: c.content[k]
    ensures DelAfter(c, key).content == map k | k in c.content && k < key :: c.content[k]
    ensures Ascending(DelBefore(c, key).order) && Ascending(DelAfter(c, key).order)
  {
    hide Front, Back, Ascending, NoRepeats;
    var s := c.order;
    var n, b := Front(s, key), Back(s, key);
    var below, above := (set k | k in s[..n]), (set k | k in s[b..]);
    forall k | k in c.content ensures (k in below <==> k < key) && (k in above <==> k >= key) {
      AscendingFront(s, key, k);
      AscendingBack(s, key, k);
    }
    DropBelow(c.content, below, key);
    DropFrom(c.content, above, key);
    AscendingParts(s, n, b);
  }

  lemma AscendingParts(s: seq<int>, n: nat, b: nat)
    requires Ascending(s) && n <= |s| && b <= |s|
    ensures Ascending(s[n..]) && Ascending(s[..b])
  {
  }

  lemma CallKeepsRelated<V>(c: Cache<V>, m: map<int, V>, call: Call<V>)
    requires Related(c, m) && Allowed(c, m, call)
    ensures Related(Cached(c, call), Unbounded(m, call))
  {
    match call
    case PutCall(k, v) => PutKeepsRelated(c, m, k, v);
    case DelBeforeCall(k) =>
      DelBeforeIsConsistent(c, k);
      DeletesAreExact(c, k);
    case DelAfterCall(k) =>
      DelAfterIsConsistent(c, k);
      DeletesAreExact(c, k);
  }

  ghost predicate CanRun<V>(c: Cache<V>, m: map<int, V>, calls: seq<Call<V>>)
    decreases |calls|
  {
    calls != [] ==> Allowed(c, m, calls[0]) && CanRun(Cached(c, calls[0]), Unbounded(m, calls[0]), calls[1..])
  }

  function CachedRun<V>(c: Cache<V>, calls: seq<Call<V>>): Cache<V>
    decreases |calls|
  {
    if calls == [] then c else CachedRun(Cached(c, calls[0]), calls[1..])
  }

  function UnboundedRun<V>(m: map<int, V>, calls: seq<Call<V>>): map<int, V>
    decreases |calls|
  {
    if calls == [] then m else UnboundedRun(Unbounded(m, calls[0]), calls[1..])
  }

  lemma {:induction false} RunKeepsRelated<V>(c: Cache<V>, m: map<int, V>, calls: seq<Call<V>>)
    requires Related(c, m) && CanRun(c, m, calls)
    ensures Related(CachedRun(c, calls), UnboundedRun(m, calls))
    decreases |calls|
  {
    hide Related, Cached, Unbounded, Allowed;
    if calls != [] {
      CallKeepsRelated(c, m, calls[0]);
      RunKeepsRelated(Cached(c, calls[0]), Unbounded(m, calls[0]), calls[1..]);
    }
  }

  /** Over every run with ascending inserts, each hit and each last value is that of the unbounded map. */
  lemma CacheAgreesWithMap<V>(capacity: nat, calls: seq<Call<V>>, key: int)
    requires capacity > 0 && CanRun(Cache(capacity, [], map[]), map[], calls)
    ensures var c, m := CachedRun(Cache(capacity, [], map[]), calls), UnboundedRun(map[], calls);
            && |c.order| <= capacity
            && (key in c.content ==> key in m && m[key] == c.content[key])
            && (c.order == [] <==> Last(c).None?)
            && (c.order != [] ==> var k := c.order[|c.order| - 1];
                  k in m && Last(c) == Some(m[k]) && forall j :: j in m ==> j <= k)
  {
    var c0: Cache<V>, m0: map<int, V> := Cache(capacity, [], map[]), map[];
    assert Related(c0, m0);
    RunKeepsRelated(c0, m0, calls);
    var c, m := CachedRun(c0, calls), UnboundedRun(m0, calls);
    CapacityIsKept(c0, calls);
    if c.order != [] {
      var k := c.order[|c.order| - 1];
      assert k in c.content;
      forall j | j in m ensures j <= k {
        if j > k {
          var i :| 0 <= i < |c.order| && c.order[i] == j;
        }
      }
    }
  }

  lemma {:induction false} CapacityIsKept<V>(c: Cache<V>, calls: seq<Call<V>>)
    ensures CachedRun(c, calls).capacity == c.capacity
    decreases |calls|
  {
    if calls != [] {
      CapacityIsKept(Cached(c, calls[0]), calls[1..]);
    }
  }
}
