/**
 Sending a request to the leader of a replica set, with retry and redirection
 (`TskvLeaderExecutor` in coordinator/src/tskv_executor.rs). The environment
 is arbitrary: `call(n, node)` is how the n-th request, sent to that node,
 turns out, and `meta(n, vnode)` how the n-th leader update in the meta
 service does, which names the node of the new leader.
 */
module LeaderExecutor {
  import opened Wrappers

  datatype Vnode = Vnode(id: nat, nodeId: nat)

  datatype Error =
    | NoValidReplica
    | PreExecution(reason: string)
    | ForwardToLeader(newLeader: nat)
    | Other(reason: string)

  type Response = Result<seq<nat>, Error>

  /** One turn of the loop: the direct call, the leader update and the redirected call, where they were made. */
  datatype Attempt = Attempt(
    vnode: Vnode, direct: Response, update: Option<Result<nat, Error>>, redirect: Option<Response>)
  {
    /** What the turn leaves in `result`. */
    function Outcome(): Response {
      if redirect.Some? then redirect.value
      else if Forwarded() && update.Some? && update.value.Err? then Err(update.value.error)
      else direct
    }

    predicate Forwarded() {
      direct.Err? && direct.error.ForwardToLeader?
    }

    /** After this turn the next vnode is tried: it was not executed, or the redirection failed. */
    predicate GoesOn() {
      (direct.Err? && direct.error.PreExecution?) || (Forwarded() && Outcome().Err?)
    }
  }

  // ---------------------------------------------------------------- the order of attempts

  function OnNode(vs: seq<Vnode>, node: nat, on: bool): seq<Vnode> {
    if vs == [] then []
    else (if (vs[0].nodeId == node) == on then [vs[0]] else []) + OnNode(vs[1..], node, on)
  }

  /** The stable sort with the leader node's vnodes first. */
  function LeaderFirst(vs: seq<Vnode>, leader: nat): seq<Vnode> {
    OnNode(vs, leader, true) + OnNode(vs, leader, false)
  }

  lemma OnNodeStep(vs: seq<Vnode>, node: nat, on: bool)
    requires vs != []
    ensures OnNode(vs, node, on) == if (vs[0].nodeId == node) == on then [vs[0]] + OnNode(vs[1..], node, on)
                                    else OnNode(vs[1..], node, on)
  {
  }

  lemma {:induction false} OnNodeParts(vs: seq<Vnode>, node: nat)
    ensures multiset(OnNode(vs, node, true)) + multiset(OnNode(vs, node, false)) == multiset(vs)
    ensures |OnNode(vs, node, true)| + |OnNode(vs, node, false)| == |vs|
  {
    if vs != [] {
      hide OnNode;
      OnNodeParts(vs[1..], node);
      OnNodeStep(vs, node, true);
      OnNodeStep(vs, node, false);
      assert vs == [vs[0]] + vs[1..];
    }
  }

  lemma {:induction false} OnNodeIsOn(vs: seq<Vnode>, node: nat, on: bool, k: nat)
    requires k < |OnNode(vs, node, on)|
    ensures (OnNode(vs, node, on)[k].nodeId == node) == on
  {
    var here := if (vs[0].nodeId == node) == on then 1 else 0;
    if k >= here {
      OnNodeIsOn(vs[1..], node, on, k - here);
    }
  }

  lemma Regroup(a: seq<Vnode>, b: seq<Vnode>, c: seq<Vnode>)
    ensures a + (b + c) == a + b + c
  {
  }

  lemma {:induction false} OnNodeConcat(a: seq<Vnode>, b: seq<Vnode>, node: nat, on: bool)
    ensures OnNode(a + b, node, on) == OnNode(a, node, on) + OnNode(b, node, on)
  {
    if a == [] {
      assert a + b == b;
    } else {
      hide OnNode;
      var x, rest := a[0], a[1..];
      assert (a + b)[1..] == rest + b && (a + b)[0] == x;
      OnNodeConcat(rest, b, node, on);
      OnNodeStep(a + b, node, on);
      OnNodeStep(a, node, on);
      Regroup([x], OnNode(rest, node, on), OnNode(b, node, on));
    }
  }

  lemma {:induction false} OnNodeOfUniform(vs: seq<Vnode>, node: nat, on: bool, which: bool)
    requires forall k :: 0 <= k < |vs| ==> (vs[k].nodeId == node) == on
    ensures OnNode(vs, node, which) == if which == on then vs else []
  {
    if vs != [] {
      OnNodeOfUniform(vs[1..], node, on, which);
      assert vs == [vs[0]] + vs[1..];
    }
  }

  /** A permutation, the leader node's vnodes first, and either kind in its original order. */
  lemma LeaderFirstIsStableSort(vs: seq<Vnode>, leader: nat)
    ensures var r := LeaderFirst(vs, leader);
            && multiset(r) == multiset(vs) && |r| == |vs|
            && (forall i, j :: 0 <= i < j < |r| && r[j].nodeId == leader ==> r[i].nodeId == leader)
            && forall on :: OnNode(r, leader, on) == OnNode(vs, leader, on)
  {
    hide OnNode;
    OnNodeParts(vs, leader);
    var a, b := OnNode(vs, leader, true), OnNode(vs, leader, false);
    forall k | 0 <= k < |a| ensures a[k].nodeId == leader { OnNodeIsOn(vs, leader, true, k); }
    forall k | 0 <= k < |b| ensures b[k].nodeId != leader { OnNodeIsOn(vs, leader, false, k); }
    forall on ensures OnNode(a + b, leader, on) == OnNode(vs, leader, on) {
      OnNodeConcat(a, b, leader, on);
      OnNodeOfUniform(a, leader, true, on);
      OnNodeOfUniform(b, leader, false, on);
      assert a + [] == a && [] + b == b;
    }
  }

  // ---------------------------------------------------------------- the loop

  /** The requests and updates made in a run of turns. */
  function CallsIn(trace: seq<Attempt>): nat {
    if trace == [] then 0
    else CallsIn(trace[..|trace| - 1]) + 1 + if trace[|trace| - 1].redirect.Some? then 1 else 0
  }

  function UpdatesIn(trace: seq<Attempt>): nat {
    if trace == [] then 0
    else UpdatesIn(trace[..|trace| - 1]) + if trace[|trace| - 1].update.Some? then 1 else 0
  }

  /** The turn was made as the source makes it, with the `c`-th call and the `u`-th update of the run. */
  ghost predicate IsTurn(a: Attempt, leader: nat, call: (nat, nat) -> Response,
                         meta: (nat, nat) -> Result<nat, Error>, c: nat, u: nat)
  {
    && a.direct == call(c, a.vnode.nodeId)
    && (a.update.Some? <==> a.Forwarded() || (a.direct.Ok? && a.vnode.nodeId != leader))
    && (a.update.Some? ==> a.update.value == meta(u, if a.Forwarded() then a.direct.error.newLeader else a.vnode.id))
    && (a.redirect.Some? <==> a.Forwarded() && a.update.Some? && a.update.value.Ok?)
    && (a.redirect.Some? ==> a.redirect.value == call(c + 1, a.update.value.value))
  }

  /**
   A run over `order`: vnodes in that order, each turn as the environment
   answered, and each turn made only because the one before it goes on.
   */
  ghost predicate IsRun(trace: seq<Attempt>, order: seq<Vnode>, leader: nat,
                        call: (nat, nat) -> Response, meta: (nat, nat) -> Result<nat, Error>) {
    trace == [] ||
    var before, a := trace[..|trace| - 1], trace[|trace| - 1];
    && IsRun(before, order, leader, call, meta)
    && (before == [] || before[|before| - 1].GoesOn())
    && |before| < |order| && a.vnode == order[|before|]
    && IsTurn(a, leader, call, meta, CallsIn(before), UpdatesIn(before))
  }

  method DoRequest(vnodes: seq<Vnode>, leader: nat, call: (nat, nat) -> Response,
                   meta: (nat, nat) -> Result<nat, Error>)
    returns (result: Response, trace: seq<Attempt>)
    ensures IsRun(trace, LeaderFirst(vnodes, leader), leader, call, meta)
    ensures |trace| == |vnodes| || (trace != [] && !trace[|trace| - 1].GoesOn())
    ensures result == if trace == [] then Err(NoValidReplica) else trace[|trace| - 1].Outcome()
    ensures trace != [] ==> IsLastAnswer(result, trace, call, meta)
  {
    hide IsRun, CallsIn, UpdatesIn, LeaderFirst;
    var order := LeaderFirst(vnodes, leader);
    LeaderFirstIsStableSort(vnodes, leader);
    result, trace := Err(NoValidReplica), [];
    EmptyRun(order, leader, call, meta);
    var calls, updates := 0, 0;
    while |trace| < |order|
      invariant |trace| <= |order| && IsRun(trace, order, leader, call, meta)
      invariant calls == CallsIn(trace) && updates == UpdatesIn(trace)
      invariant trace == [] || trace[|trace| - 1].GoesOn()
      invariant result == if trace == [] then Err(NoValidReplica) else trace[|trace| - 1].Outcome()
      invariant trace != [] ==> IsLastAnswer(result, trace, call, meta)
      decreases |order| - |trace|
    {
      var vnode := order[|trace|];
      var a := Attempt(vnode, call(calls, vnode.nodeId), None, None);
      if a.direct.Err? && a.direct.error.PreExecution? {
      } else if a.direct.Err? && a.direct.error.ForwardToLeader? {
        a := a.(update := Some(meta(updates, a.direct.error.newLeader)));
        if a.update.value.Ok? {
          a := a.(redirect := Some(call(calls + 1, a.update.value.value)));
        }
      } else if a.direct.Ok? && vnode.nodeId != leader {
        a := a.(update := Some(meta(updates, vnode.id)));
      }
      TurnExtendsRun(trace, a, order, leader, call, meta);
      trace := trace + [a];
      calls := calls + 1 + if a.redirect.Some? then 1 else 0;
      updates := updates + if a.update.Some? then 1 else 0;
      result := a.Outcome();
      ResultIsLastAnswer(trace, order, leader, call, meta);
      if !a.GoesOn() {
        return;
      }
    }
  }

  /**
   The result is what the last call of the run answered, payload and error
   included, unless the leader update before a redirection failed: then it is
   that error.
   */
  ghost predicate IsLastAnswer(result: Response, trace: seq<Attempt>, call: (nat, nat) -> Response,
                               meta: (nat, nat) -> Result<nat, Error>)
    requires trace != []
  {
    var a, calls, updates := trace[|trace| - 1], CallsIn(trace), UpdatesIn(trace);
    if a.Forwarded() then
      && updates > 0 && calls > 0
      && match meta(updates - 1, a.direct.error.newLeader)
         case Ok(node) => result == call(calls - 1, node)
         case Err(error) => result == Err(error)
    else calls > 0 && result == call(calls - 1, a.vnode.nodeId)
  }

  lemma ResultIsLastAnswer(trace: seq<Attempt>, order: seq<Vnode>, leader: nat,
                           call: (nat, nat) -> Response, meta: (nat, nat) -> Result<nat, Error>)
    requires trace != [] && IsRun(trace, order, leader, call, meta)
    ensures IsLastAnswer(trace[|trace| - 1].Outcome(), trace, call, meta)
  {
  }

  lemma EmptyRun(order: seq<Vnode>, leader: nat, call: (nat, nat) -> Response, meta: (nat, nat) -> Result<nat, Error>)
    ensures IsRun([], order, leader, call, meta) && CallsIn([]) == 0 && UpdatesIn([]) == 0
  {
  }

  lemma TurnExtendsRun(trace: seq<Attempt>, a: Attempt, order: seq<Vnode>, leader: nat,
                       call: (nat, nat) -> Response, meta: (nat, nat) -> Result<nat, Error>)
    requires IsRun(trace, order, leader, call, meta) && |trace| < |order| && a.vnode == order[|trace|]
    requires trace == [] || trace[|trace| - 1].GoesOn()
    requires IsTurn(a, leader, call, meta, CallsIn(trace), UpdatesIn(trace))
    ensures IsRun(trace + [a], order, leader, call, meta)
    ensures CallsIn(trace + [a]) == CallsIn(trace) + 1 + if a.redirect.Some? then 1 else 0
    ensures UpdatesIn(trace + [a]) == UpdatesIn(trace) + if a.update.Some? then 1 else 0
  {
    hide IsTurn;
    var t := trace + [a];
    assert t[..|t| - 1] == trace;
  }

  // ---------------------------------------------------------------- what a run guarantees

  predicate Succeeds(a: Attempt) {
    a.direct.Ok? || (a.redirect.Some? && a.redirect.value.Ok?)
  }

  /** The meta service is told exactly when another node leads: one named in the answer, or one that answered. */
  predicate TellsMeta(a: Attempt, leader: nat) {
    a.update.Some? <==>
    if a.direct.Ok? then a.vnode.nodeId != leader else a.direct.error.ForwardToLeader?
  }

  /** A direct error other than "not executed" or "ask the leader". */
  predicate FailsForGood(a: Attempt) {
    a.direct.Err? && !a.direct.error.PreExecution? && !a.direct.error.ForwardToLeader?
  }

  /** A turn ends the run exactly when it succeeds or fails for good. */
  lemma EndOfRun(a: Attempt, leader: nat, call: (nat, nat) -> Response,
                 meta: (nat, nat) -> Result<nat, Error>, c: nat, u: nat)
    requires IsTurn(a, leader, call, meta, c, u)
    ensures !a.GoesOn() <==> Succeeds(a) || FailsForGood(a)
    ensures a.Outcome().Ok? <==> Succeeds(a)
    ensures TellsMeta(a, leader)
  {
  }

  /**
   For every replica set and every environment: at most one direct and one
   redirected request per vnode, nothing sent after a success or after an
   error that is not worth a retry, and success reported exactly when some
   request succeeded.
   */
  lemma {:induction false} RunGuarantees(trace: seq<Attempt>, order: seq<Vnode>, leader: nat,
                      call: (nat, nat) -> Response, meta: (nat, nat) -> Result<nat, Error>)
    requires IsRun(trace, order, leader, call, meta)
    ensures CallsIn(trace) <= 2 * |trace| <= 2 * |order|
    ensures forall k :: 0 <= k < |trace| ==> trace[k].vnode == order[k]
    ensures forall k :: 0 <= k < |trace| ==> TellsMeta(trace[k], leader)
    ensures forall k :: 0 <= k < |trace| && (Succeeds(trace[k]) || FailsForGood(trace[k])) ==> k == |trace| - 1
    ensures (exists k :: 0 <= k < |trace| && Succeeds(trace[k])) <==>
            trace != [] && trace[|trace| - 1].Outcome().Ok?
  {
    hide IsRun;
    CallsBounded(trace);
    forall k | 0 <= k < |trace|
      ensures trace[k].Outcome().Ok? <==> Succeeds(trace[k])
      ensures Succeeds(trace[k]) || FailsForGood(trace[k]) ==> k == |trace| - 1
      ensures k < |order| && trace[k].vnode == order[k] && TellsMeta(trace[k], leader)
    {
      RunAt(trace, order, leader, call, meta, k);
    }
    RunIsShort(trace, order, leader, call, meta);
    if trace != [] && trace[|trace| - 1].Outcome().Ok? {
      assert Succeeds(trace[|trace| - 1]);
    }
  }

  lemma {:induction false} RunIsShort(trace: seq<Attempt>, order: seq<Vnode>, leader: nat,
                                      call: (nat, nat) -> Response, meta: (nat, nat) -> Result<nat, Error>)
    requires IsRun(trace, order, leader, call, meta)
    ensures |trace| <= |order|
  {
  }

  /** The k-th turn is on the k-th vnode, and only the last turn may end the run. */
  lemma {:induction false} RunAt(trace: seq<Attempt>, order: seq<Vnode>, leader: nat,
                                 call: (nat, nat) -> Response, meta: (nat, nat) -> Result<nat, Error>, k: nat)
    requires IsRun(trace, order, leader, call, meta) && k < |trace|
    ensures k < |order| && trace[k].vnode == order[k] && TellsMeta(trace[k], leader)
    ensures trace[k].Outcome().Ok? <==> Succeeds(trace[k])
    ensures Succeeds(trace[k]) || FailsForGood(trace[k]) ==> k == |trace| - 1
    decreases |trace|
  {
    hide IsTurn;
    var before, n := trace[..|trace| - 1], |trace| - 1;
    if k == n {
      EndOfRun(trace[n], leader, call, meta, CallsIn(before), UpdatesIn(before));
    } else {
      RunAt(before, order, leader, call, meta, k);
      if k == n - 1 {
        var earlier := before[..n - 1];
        EndOfRun(before[n - 1], leader, call, meta, CallsIn(earlier), UpdatesIn(earlier));
      }
    }
  }

  lemma {:induction false} CallsBounded(trace: seq<Attempt>)
    ensures CallsIn(trace) <= 2 * |trace|
  {
    if trace != [] {
      CallsBounded(trace[..|trace| - 1]);
    }
  }
}
