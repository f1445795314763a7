/** Round-robin placement of replica sets on nodes (`allocation_replication_set` in common/models/src/meta_data.rs). */
module Placement {
  const U32_LIMIT: nat := 0x1_0000_0000

  datatype VnodeInfo = VnodeInfo(id: nat, nodeId: nat)

  datatype ReplicationSet = ReplicationSet(id: nat, leaderNodeId: nat, leaderVnodeId: nat, vnodes: seq<VnodeInfo>)

  /** The replica count actually used. */
  function Effective(replica: nat, nodeCount: nat): nat {
    if replica == 0 then 1 else if replica > nodeCount then nodeCount else replica
  }

  /** A set with ids from `id` on and vnodes on consecutive nodes from position `index` on; its first vnode leads. */
  ghost predicate IsSet(s: ReplicationSet, nodes: seq<nat>, replica: nat, id: nat, index: nat) {
    && nodes != [] && replica > 0
    && s.id == id && |s.vnodes| == replica
    && (forall j :: 0 <= j < replica ==> s.vnodes[j] == VnodeInfo(id + 1 + j, nodes[(index + j) % |nodes|]))
    && s.leaderVnodeId == s.vnodes[0].id && s.leaderNodeId == s.vnodes[0].nodeId
  }

  ghost predicate IsAllocation(group: seq<ReplicationSet>, nodes: seq<nat>, replica: nat, begin: nat) {
    forall s :: 0 <= s < |group| ==> IsSet(group[s], nodes, replica, begin + s * (replica + 1), s * replica)
  }

  method AllocationReplicationSet(nodes: seq<nat>, shards: nat, replica: nat, beginSeq: nat)
    returns (group: seq<ReplicationSet>, used: nat)
    requires shards > 0 ==> nodes != []
    requires beginSeq + shards * (Effective(replica, |nodes|) + 1) < U32_LIMIT
    ensures |group| == shards && IsAllocation(group, nodes, Effective(replica, |nodes|), beginSeq)
    ensures used == shards * (Effective(replica, |nodes|) + 1)
    ensures forall s :: 0 <= s < shards ==>
              && group[s].vnodes != [] && group[s].leaderVnodeId == group[s].vnodes[0].id == group[s].id + 1
              && group[s].leaderNodeId == group[s].vnodes[0].nodeId
    ensures 0 < replica <= |nodes| ==> forall s :: 0 <= s < shards ==> |group[s].vnodes| == replica
    ensures replica == 0 ==> forall s :: 0 <= s < shards ==> |group[s].vnodes| == 1
    ensures replica > |nodes| ==> forall s :: 0 <= s < shards ==> |group[s].vnodes| == |nodes|
  {
    var nodeCount := |nodes|;
    var r := Effective(replica, nodeCount);
    var incrId, index := beginSeq, 0;
    group := [];
    for n := 0 to shards
      invariant |group| == n && IsAllocation(group, nodes, r, beginSeq)
      invariant incrId == beginSeq + n * (r + 1) && index == n * r
    {
      StepFits(n, shards, r);
      var id := incrId;
      ghost var at := index;
      incrId := incrId + 1;
      var vnodes: seq<VnodeInfo> := [];
      for j := 0 to r
        invariant |vnodes| == j && incrId == id + 1 + j && index == at + j
        invariant forall k :: 0 <= k < j ==> vnodes[k] == VnodeInfo(id + 1 + k, nodes[(at + k) % nodeCount])
      {
        assert incrId < U32_LIMIT && index < U32_LIMIT;
        vnodes := vnodes + [VnodeInfo(incrId, nodes[index % nodeCount])];
        incrId := incrId + 1;
        index := index + 1;
      }
      group := group + [ReplicationSet(id, vnodes[0].nodeId, vnodes[0].id, vnodes)];
    }
    used := incrId - beginSeq;
  }

  lemma StepFits(n: nat, shards: nat, r: nat)
    requires n < shards
    ensures n * (r + 1) + (r + 1) <= shards * (r + 1)
    ensures (n + 1) * (r + 1) == n * (r + 1) + (r + 1) && (n + 1) * r == n * r + r
    ensures n * r <= n * (r + 1)
  {
    assert (n + 1) * (r + 1) <= shards * (r + 1);
  }

  // ---------------------------------------------------------------- ids

  /** A set's own id followed by its vnodes' ids. */
  function IdsOf(s: ReplicationSet): seq<nat> {
    [s.id] + seq(|s.vnodes|, j requires 0 <= j < |s.vnodes| => s.vnodes[j].id)
  }

  function AllIds(group: seq<ReplicationSet>): seq<nat> {
    if group == [] then [] else AllIds(group[..|group| - 1]) + IdsOf(group[|group| - 1])
  }

  /** The ids handed out are exactly `begin`, `begin + 1`, and so on: no gap and no repeat. */
  lemma {:induction false} IdsAreConsecutive(group: seq<ReplicationSet>, nodes: seq<nat>, replica: nat, begin: nat)
    requires IsAllocation(group, nodes, replica, begin)
    ensures |AllIds(group)| == |group| * (replica + 1)
    ensures forall k :: 0 <= k < |AllIds(group)| ==> AllIds(group)[k] == begin + k
  {
    if group != [] {
      var init, last := group[..|group| - 1], group[|group| - 1];
      assert IsAllocation(init, nodes, replica, begin) by {
        assert forall s :: 0 <= s < |init| ==> init[s] == group[s];
      }
      IdsAreConsecutive(init, nodes, replica, begin);
      StepFits(|init|, |group|, replica);
      var n := |init|;
      assert IsSet(last, nodes, replica, begin + n * (replica + 1), n * replica);
      assert forall j :: 0 <= j < |IdsOf(last)| ==> IdsOf(last)[j] == begin + n * (replica + 1) + j;
    }
  }

  // ---------------------------------------------------------------- nodes

  ghost predicate Distinct(nodes: seq<nat>) {
    forall i, j :: 0 <= i < j < |nodes| ==> nodes[i] != nodes[j]
  }

  lemma ModDiffers(index: nat, i: nat, j: nat, n: nat)
    requires i < j < i + n
    ensures (index + i) % n != (index + j) % n
  {
    var a, b := index + i, index + j;
    var p, q := a / n, b / n;
    assert a == p * n + a % n && b == q * n + b % n;
    if a % n == b % n {
      assert (q - p) * n == j - i;
      MultipleIsLarge(q - p, n);
    }
  }

  lemma MultipleIsLarge(d: int, n: nat)
    requires n > 0
    ensures (d >= 1 ==> d * n >= n) && (d <= -1 ==> d * n <= 0 - n)
  {
    if d >= 1 {
      assert d * n == n + (d - 1) * n && (d - 1) * n >= 0;
    } else if d <= -1 {
      assert d * n == (d + 1) * n - n && (d + 1) * n <= 0;
    }
  }

  /** No two replicas of a set share a node, and the leader is one of them. */
  lemma ReplicasOnDistinctNodes(s: ReplicationSet, nodes: seq<nat>, replica: nat, id: nat, index: nat)
    requires Distinct(nodes) && replica <= |nodes| && IsSet(s, nodes, replica, id, index)
    ensures forall i, j :: 0 <= i < j < |s.vnodes| ==> s.vnodes[i].nodeId != s.vnodes[j].nodeId
    ensures VnodeInfo(s.leaderVnodeId, s.leaderNodeId) in s.vnodes
  {
    forall i, j | 0 <= i < j < |s.vnodes| ensures s.vnodes[i].nodeId != s.vnodes[j].nodeId {
      ModDiffers(index, i, j, |nodes|);
    }
    assert s.vnodes[0] in s.vnodes;
  }

  function NodesOf(s: ReplicationSet): seq<nat> {
    seq(|s.vnodes|, j requires 0 <= j < |s.vnodes| => s.vnodes[j].nodeId)
  }

  function AllNodes(group: seq<ReplicationSet>): seq<nat> {
    if group == [] then [] else AllNodes(group[..|group| - 1]) + NodesOf(group[|group| - 1])
  }

  lemma {:induction false} NodesInRotation(group: seq<ReplicationSet>, nodes: seq<nat>, replica: nat, begin: nat)
    requires nodes != [] && IsAllocation(group, nodes, replica, begin)
    ensures |AllNodes(group)| == |group| * replica
    ensures InRotation(AllNodes(group), nodes)
  {
    if group != [] {
      var init, last := group[..|group| - 1], group[|group| - 1];
      assert IsAllocation(init, nodes, replica, begin) by {
        assert forall s :: 0 <= s < |init| ==> init[s] == group[s];
      }
      NodesInRotation(init, nodes, replica, begin);
      StepFits(|init|, |group|, replica);
      var n := |init|;
      assert IsSet(last, nodes, replica, begin + n * (replica + 1), n * replica);
      assert forall j :: 0 <= j < replica ==> NodesOf(last)[j] == nodes[(n * replica + j) % |nodes|];
      forall t | 0 <= t < |AllNodes(group)| ensures AllNodes(group)[t] == nodes[t % |nodes|] {
        if t >= n * replica {
          var j := t - n * replica;
          assert AllNodes(group)[t] == NodesOf(last)[j];
        }
      }
    }
  }

  function Count(s: seq<nat>, x: nat): nat {
    if s == [] then 0 else Count(s[..|s| - 1], x) + if s[|s| - 1] == x then 1 else 0
  }

  lemma NextQuotient(t: nat, n: nat)
    requires n > 0
    ensures if (t + 1) % n == 0 then t % n == n - 1 && (t + 1) / n == t / n + 1
            else (t + 1) % n == t % n + 1 && (t + 1) / n == t / n
  {
    var q, r := t / n, t % n;
    assert t == q * n + r;
    var q', r' := (t + 1) / n, (t + 1) % n;
    assert t + 1 == q' * n + r';
    assert (q' - q) * n == r + 1 - r';
    MultipleIsLarge(q' - q, n);
    assert (q' - q - 1) * n == (q' - q) * n - n;
    MultipleIsLarge(q' - q - 1, n);
  }

  /** How often `p` comes up in `m` steps of a rotation over `n`: once per full round, once more if reached since. */
  function Share(m: nat, n: nat, p: nat): nat
    requires n > 0
  {
    m / n + if p < m % n then 1 else 0
  }

  lemma ShareNext(m: nat, n: nat, p: nat)
    requires p < n
    ensures Share(m + 1, n, p) == Share(m, n, p) + if m % n == p then 1 else 0
  {
    NextQuotient(m, n);
  }

  ghost predicate InRotation(s: seq<nat>, nodes: seq<nat>)
    requires nodes != []
  {
    forall t :: 0 <= t < |s| ==> s[t] == nodes[t % |nodes|]
  }

  lemma LastInRotation(s: seq<nat>, nodes: seq<nat>, p: nat)
    requires Distinct(nodes) && p < |nodes| && s != [] && InRotation(s, nodes)
    ensures InRotation(s[..|s| - 1], nodes)
    ensures s[|s| - 1] == nodes[p] <==> (|s| - 1) % |nodes| == p
  {
    var m := |s| - 1;
    assert s[m] == nodes[m % |nodes|];
  }

  lemma {:induction false} RotationCount(s: seq<nat>, nodes: seq<nat>, p: nat)
    requires Distinct(nodes) && p < |nodes| && InRotation(s, nodes)
    ensures Count(s, nodes[p]) == Share(|s|, |nodes|, p)
  {
    hide Distinct, InRotation, Share;
    if s == [] {
      ShareOfNone(|nodes|, p);
    } else {
      LastInRotation(s, nodes, p);
      RotationCount(s[..|s| - 1], nodes, p);
      ShareNext(|s| - 1, |nodes|, p);
    }
  }

  lemma ShareOfNone(n: nat, p: nat)
    requires p < n
    ensures Share(0, n, p) == 0
  {
  }

  /** The load is balanced: vnodes per node differ by at most one over the whole allocation. */
  lemma LoadIsBalanced(group: seq<ReplicationSet>, nodes: seq<nat>, replica: nat, begin: nat, p: nat, q: nat)
    requires Distinct(nodes) && p < |nodes| && q < |nodes| && IsAllocation(group, nodes, replica, begin)
    ensures -1 <= Count(AllNodes(group), nodes[p]) - Count(AllNodes(group), nodes[q]) <= 1
  {
    NodesInRotation(group, nodes, replica, begin);
    RotationCount(AllNodes(group), nodes, p);
    RotationCount(AllNodes(group), nodes, q);
  }
}
