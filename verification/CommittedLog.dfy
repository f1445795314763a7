/** What the committed log of a Raft group means: the state it replays to and the membership in force. */
module CommittedLog {
  import opened Wrappers
  import opened RaftTypes

  /** Entry `i` carries index `i`, and every index has a successor in 64 bits. */
  ghost predicate WellFormed(c: seq<Entry>) {
    |c| <= U64_MAX && forall i :: 0 <= i < |c| ==> c[i].logId.index == i
  }

  function Effect(kv: map<string, string>, e: Entry): map<string, string> {
    if e.payload.Normal? && e.payload.request.Put?
    then kv[e.payload.request.key := e.payload.request.value]
    else kv
  }

  /** Full replay: the first `n` entries applied in order to the empty map. */
  function Replay(c: seq<Entry>, n: nat): map<string, string>
    requires n <= |c|
  {
    if n == 0 then map[] else Effect(Replay(c, n - 1), c[n - 1])
  }

  lemma ReplayStep(c: seq<Entry>, n: nat)
    requires n < |c|
    ensures Replay(c, n + 1) == Effect(Replay(c, n), c[n])
  {
  }

  /** The position of the latest membership entry among the first `n`. */
  function LatestMembership(c: seq<Entry>, n: nat): (r: Option<nat>)
    requires n <= |c|
    ensures r.Some? ==> r.value < n && c[r.value].payload.Membership?
    ensures forall i :: (if r.Some? then r.value else -1) < i < n ==> !c[i].payload.Membership?
  {
    if n == 0 then None
    else if c[n - 1].payload.Membership? then Some(n - 1)
    else LatestMembership(c, n - 1)
  }

  function StoredAt(c: seq<Entry>, i: nat): StoredMembership
    requires i < |c| && c[i].payload.Membership?
  {
    StoredMembership(Some(c[i].logId), c[i].payload.config)
  }

  /** The membership in force after the first `n` entries. */
  function MembershipAfter(c: seq<Entry>, n: nat): StoredMembership
    requires n <= |c|
  {
    match LatestMembership(c, n)
    case None => DEFAULT_MEMBERSHIP
    case Some(i) => StoredAt(c, i)
  }

  /** Appending to the committed log changes nothing that was committed before. */
  lemma {:induction false} PrefixStable(c: seq<Entry>, d: seq<Entry>, n: nat)
    requires c <= d && n <= |c|
    ensures Replay(c, n) == Replay(d, n)
    ensures LatestMembership(c, n) == LatestMembership(d, n)
    ensures MembershipAfter(c, n) == MembershipAfter(d, n)
  {
    if n > 0 {
      PrefixStable(c, d, n - 1);
      assert c[n - 1] == d[n - 1];
    }
  }

  predicate Puts(e: Entry, key: string) {
    e.payload.Normal? && e.payload.request.Put? && e.payload.request.key == key
  }

  /** After `n` entries a key reads as the last of them that put it, and is absent if none did. */
  lemma {:induction false} ReplayReadsLastPut(c: seq<Entry>, n: nat, key: string)
    requires n <= |c|
    ensures key in Replay(c, n) <==> exists k :: 0 <= k < n && Puts(c[k], key)
    ensures forall k :: 0 <= k < n && Puts(c[k], key) && (forall j :: k < j < n ==> !Puts(c[j], key)) ==>
              Replay(c, n)[key] == c[k].payload.request.value
  {
    if n > 0 {
      ReplayReadsLastPut(c, n - 1, key);
      if Puts(c[n - 1], key) {
        assert 0 <= n - 1 < n && Puts(c[n - 1], key);
      }
    }
  }
}
