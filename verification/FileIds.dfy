/**
 The file-id counter shared by all threads of a storage node
 (`GlobalContext` in tskv/src/context.rs): fetch-and-add, and a
 compare-exchange loop that pushes the counter past an id already in use.
 */
module FileIds {
  import Summary
  import SummaryRoll

  const U64_LIMIT: nat := 0x1_0000_0000_0000_0000

  // ---------------------------------------------------------------- one thread among others

  class GlobalContext {
    var fileId: nat

    constructor (v: nat)
      ensures fileId == v
    {
      fileId := v;
    }

    /** Whatever the other threads do between two atomic accesses: the counter only grows. */
    method Others()
      modifies this
      ensures fileId >= old(fileId)
    {
      var d: nat :| true;
      fileId := fileId + d;
    }

    method FileIdNext() returns (id: nat)
      modifies this
      ensures id >= old(fileId) && fileId == id + 1
    {
      Others();
      id := fileId;
      fileId := fileId + 1;
    }

    /** Terminates: every failed exchange has seen the counter strictly closer to `v`. */
    method MarkFileIdUsed(v: nat)
      modifies this
      ensures fileId > v && fileId >= old(fileId)
    {
      Others();
      var seen := fileId;
      while seen <= v
        invariant seen <= fileId && old(fileId) <= fileId
        decreases v + 1 - seen
      {
        Others();
        if fileId == seen {
          fileId := v + 1;
          break;
        }
        seen := fileId;
      }
    }
  }

  // ---------------------------------------------------------------- all interleavings

  /** Where a thread stands: outside, or in the loop of `mark_file_id_used(v)` having last read `seen`. */
  datatype Pc = Idle | Marking(v: nat, seen: nat)

  datatype Event = Issued(id: nat) | Marked(v: nat)

  /** The counter, the threads, and what has returned so far, in order. */
  datatype Sys = Sys(counter: nat, pcs: map<nat, Pc>, events: seq<Event>)

  datatype Step =
    | Next(thread: nat)
    | Load(thread: nat, v: nat)
    | TryExchange(thread: nat)
    | Leave(thread: nat)

  predicate Enabled(s: Sys, step: Step) {
    step.thread in s.pcs &&
    match step
    case Next(t) => s.pcs[t].Idle? && s.counter + 1 < U64_LIMIT
    case Load(t, v) => s.pcs[t].Idle? && v + 1 < U64_LIMIT
    case TryExchange(t) => s.pcs[t].Marking? && s.pcs[t].seen <= s.pcs[t].v
    case Leave(t) => s.pcs[t].Marking? && s.pcs[t].seen > s.pcs[t].v
  }

  function Do(s: Sys, step: Step): Sys
    requires Enabled(s, step)
  {
    match step
    case Next(t) => s.(counter := s.counter + 1, events := s.events + [Issued(s.counter)])
    case Load(t, v) => s.(pcs := s.pcs[t := Marking(v, s.counter)])
    case TryExchange(t) =>
      var v := s.pcs[t].v;
      if s.counter == s.pcs[t].seen
      then Sys(v + 1, s.pcs[t := Idle], s.events + [Marked(v)])
      else s.(pcs := s.pcs[t := Marking(v, s.counter)])
    case Leave(t) => s.(pcs := s.pcs[t := Idle], events := s.events + [Marked(s.pcs[t].v)])
  }

  predicate Below(e: Event, n: nat) {
    match e case Issued(id) => id < n case Marked(v) => v < n
  }

  /** An id is above every id issued and every id marked before it. */
  ghost predicate Ordered(events: seq<Event>) {
    forall i, j :: 0 <= i < j < |events| && events[j].Issued? ==> Below(events[i], events[j].id)
  }

  ghost predicate Inv(s: Sys, start: nat) {
    && start <= s.counter
    && (forall t :: t in s.pcs && s.pcs[t].Marking? ==> s.pcs[t].seen <= s.counter)
    && (forall i :: 0 <= i < |s.events| ==> Below(s.events[i], s.counter))
    && (forall i :: 0 <= i < |s.events| && s.events[i].Issued? ==> start <= s.events[i].id)
    && Ordered(s.events)
  }

  lemma StepKeepsInv(s: Sys, step: Step, start: nat)
    requires Inv(s, start) && Enabled(s, step)
    ensures Inv(Do(s, step), start) && s.counter <= Do(s, step).counter
  {
  }

  /** An id is the counter's own value, and the counter moves no further than past it, or past the id marked. */
  lemma CounterMovesAsNeeded(s: Sys, step: Step)
    requires Enabled(s, step)
    ensures var r := Do(s, step); var last := |r.events| - 1;
            && s.events <= r.events && |r.events| <= |s.events| + 1
            && (|r.events| > |s.events| && r.events[last].Issued? ==>
                  r.events[last].id == s.counter && r.counter == s.counter + 1)
            && (|r.events| > |s.events| && r.events[last].Marked? ==>
                  r.counter == s.counter || r.counter == r.events[last].v + 1)
            && (|r.events| == |s.events| ==> r.counter == s.counter)
  {
  }

  /** A failed exchange moves the thread's view of the counter strictly forward: at most `v + 1 - seen` failures. */
  lemma FailedExchangeProgresses(s: Sys, t: nat, start: nat)
    requires Inv(s, start) && Enabled(s, TryExchange(t)) && Do(s, TryExchange(t)).pcs[t].Marking?
    ensures var before, after := s.pcs[t], Do(s, TryExchange(t)).pcs[t];
            after.v == before.v && before.seen < after.seen
  {
  }

  ghost predicate CanRun(s: Sys, steps: seq<Step>)
    decreases |steps|
  {
    steps != [] ==> Enabled(s, steps[0]) && CanRun(Do(s, steps[0]), steps[1..])
  }

  ghost function Run(s: Sys, steps: seq<Step>): Sys
    requires CanRun(s, steps)
    decreases |steps|
  {
    if steps == [] then s else Run(Do(s, steps[0]), steps[1..])
  }

  lemma {:induction false} RunKeepsInv(s: Sys, steps: seq<Step>, start: nat)
    requires Inv(s, start) && CanRun(s, steps)
    ensures Inv(Run(s, steps), start)
    decreases |steps|
  {
    hide Inv, Enabled, Do;
    if steps != [] {
      StepKeepsInv(s, steps[0], start);
      RunKeepsInv(Do(s, steps[0]), steps[1..], start);
    }
  }

  ghost predicate Fresh(s: Sys) {
    s.events == [] && forall t :: t in s.pcs ==> s.pcs[t].Idle?
  }

  /**
   Under every interleaving: issued ids are pairwise distinct and never below
   the starting counter, and once `mark_file_id_used(v)` has returned neither
   the counter nor any id issued later is at or below `v`.
   */
  lemma IdsAreUnique(s0: Sys, steps: seq<Step>, i: nat, j: nat)
    requires Fresh(s0) && CanRun(s0, steps)
    requires i < j < |Run(s0, steps).events|
    ensures var s := Run(s0, steps);
            && (s.events[i].Issued? && s.events[j].Issued? ==> s0.counter <= s.events[i].id < s.events[j].id)
            && (s.events[i].Marked? ==> s.events[i].v < s.counter)
            && (s.events[i].Marked? && s.events[j].Issued? ==> s.events[i].v < s.events[j].id)
  {
    RunKeepsInv(s0, steps, s0.counter);
  }

  /** After recovery from a log whose edits bound their files, no id ever issued names a live file. */
  lemma IssuedIdsAvoidLiveFiles(log: seq<Summary.VersionEdit>, s0: Sys, steps: seq<Step>, i: nat,
                                v: Summary.VnodeId, id: Summary.FileId)
    requires forall k :: 0 <= k < |log| ==> SummaryRoll.Bounded(log[k])
    requires var st := Summary.Replayed(Summary.NO_VNODES, log);
             && s0.counter >= 1 && Summary.IsHighest(st, st.Keys, s0.counter - 1)
             && v in st && id in st[v].version.files
    requires Fresh(s0) && CanRun(s0, steps)
    requires i < |Run(s0, steps).events| && Run(s0, steps).events[i].Issued?
    ensures Run(s0, steps).events[i].id > id
  {
    RunKeepsInv(s0, steps, s0.counter);
    SummaryRoll.NextFileIdIsFresh(log, s0.counter, v, id);
  }
}
