/**
 The string keys under which the Raft state store keeps every group's values
 in one shared database (`Key` in replication/src/state_store.rs).
 */
module StateKeys {
  import opened Decimal

  datatype Key =
    | NodeSummary(group: nat)
    | AppliedLog(group: nat)
    | SnapshotAppliedLog(group: nat)
    | LastMembership(group: nat)
    | MembershipAt(group: nat, index: nat)
    | PurgedLogId(group: nat)
    | SnapshotIndex(group: nat)
    | Vote(group: nat)
    | Snapshot(group: nat)
    | AlreadyInit(group: nat)

  /** The text before the last underscore of a key. */
  function Stem(k: Key): string {
    match k
    case NodeSummary(_) => "node_summary"
    case AppliedLog(_) => "applied_log"
    case SnapshotAppliedLog(_) => "snapshot_applied_log"
    case LastMembership(_) => "membership"
    case MembershipAt(g, _) => "membership_" + Print(g)
    case PurgedLogId(_) => "purged_log_id"
    case SnapshotIndex(_) => "snapshot_index"
    case Vote(_) => "vote"
    case Snapshot(_) => "snapshot"
    case AlreadyInit(_) => "already_init"
  }

  /** The number after the last underscore of a key. */
  function Number(k: Key): nat {
    if k.MembershipAt? then k.index else k.group
  }

  function Encode(k: Key): string {
    Stem(k) + "_" + Print(Number(k))
  }

  function MembershipPrefix(group: nat): string {
    "membership_" + Print(group) + "_"
  }

  /** Text splits in only one way at its last underscore. */
  lemma SplitAtLastUnderscore(a: string, x: string, b: string, y: string)
    requires a + "_" + x == b + "_" + y
    requires '_' !in x && '_' !in y
    ensures a == b && x == y
  {
    var s, t := a + "_" + x, b + "_" + y;
    assert s[|a|] == '_' && t[|b|] == '_';
    assert forall i :: |a| < i < |s| ==> s[i] == x[i - |a| - 1];
    assert forall i :: |b| < i < |t| ==> t[i] == y[i - |b| - 1];
    assert s[..|a|] == a && t[..|b|] == b;
    assert s[|a| + 1..] == x && t[|b| + 1..] == y;
  }

  /** After a common word, a digit string followed by an underscore matches only itself. */
  lemma DigitsAfterWord(w: string, x: string, y: string, z: string)
    requires AllDigits(x) && AllDigits(y)
    requires w + x + "_" <= w + y + "_" + z
    ensures x == y
  {
    var p, s := w + x + "_", w + y + "_" + z;
    assert forall i :: 0 <= i < |x| ==> p[|w| + i] == x[i];
    assert forall i :: 0 <= i < |y| ==> s[|w| + i] == y[i];
    assert p[|w| + |x|] == '_' && s[|w| + |y|] == '_';
    assert forall i :: 0 <= i < |p| ==> p[i] == s[i];
  }

  lemma FixedStem(k: Key)
    requires !k.MembershipAt?
    ensures |Stem(k)| >= 4 && (Stem(k)[0] == 'm' ==> k.LastMembership? && |Stem(k)| == 10)
  {
  }

  /** Every fixed stem differs from `membership_<group>`, and the fixed stems from one another. */
  lemma StemsDiffer(k: Key, l: Key)
    requires Stem(k) == Stem(l)
    ensures k.MembershipAt? <==> l.MembershipAt?
    ensures k.MembershipAt? ==> k.group == l.group
    ensures !k.MembershipAt? && k.group == l.group ==> k == l
  {
    if k.MembershipAt? && l.MembershipAt? {
      assert Stem(k)[11..] == Print(k.group) && Stem(l)[11..] == Print(l.group);
      PrintInjective(k.group, l.group);
    } else if !k.MembershipAt? && !l.MembershipAt? {
      assert |Stem(k)| == |Stem(l)| && Stem(k)[0] == Stem(l)[0];
    } else {
      FixedStem(if k.MembershipAt? then l else k);
    }
  }

  /** No two keys of any kind, group or position collide. */
  lemma EncodeInjective(k: Key, l: Key)
    requires Encode(k) == Encode(l)
    ensures k == l
  {
    SplitAtLastUnderscore(Stem(k), Print(Number(k)), Stem(l), Print(Number(l)));
    PrintInjective(Number(k), Number(l));
    StemsDiffer(k, l);
  }

  /** The key that a stored string stands for. */
  ghost function Decode(s: string): Key {
    if exists k :: Encode(k) == s then (var k :| Encode(k) == s; k) else AlreadyInit(0)
  }

  /** Every key is recovered from its string. */
  lemma DecodeEncode()
    ensures forall k :: Decode(Encode(k)) == k
  {
    hide Encode;
    forall k ensures Decode(Encode(k)) == k {
      EncodeInjective(k, Decode(Encode(k)));
    }
  }

  lemma PrefixOfHistoryKey(group: nat, g: nat, i: nat)
    ensures MembershipPrefix(group) <= Encode(MembershipAt(g, i)) <==> g == group
  {
    hide Print;
    assert Encode(MembershipAt(g, i)) == MembershipPrefix(g) + Print(i);
    if MembershipPrefix(group) <= Encode(MembershipAt(g, i)) {
      DigitsAfterWord("membership_", Print(group), Print(g), Print(i));
      PrintInjective(g, group);
    }
  }

  /** A prefix scan for one group sees that group's history and nothing else. */
  lemma PrefixScanIsExact(group: nat, k: Key)
    ensures MembershipPrefix(group) <= Encode(k) <==> k.MembershipAt? && k.group == group
  {
    var p, s := MembershipPrefix(group), Encode(k);
    if k.MembershipAt? {
      PrefixOfHistoryKey(group, k.group, k.index);
    } else {
      FixedStem(k);
      assert p[0] == 'm' && s[0] == Stem(k)[0];
      assert p[|p| - 1] == '_' && |p| > 11;
      assert forall i :: |Stem(k)| < i < |s| ==> s[i] == Print(k.group)[i - |Stem(k)| - 1];
    }
  }
}
