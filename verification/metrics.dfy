/** The numbers-only metrics register: eight counters that recorders add to and flushes swap to
    zero, one atomic operation at a time, in any interleaving. */
module Metrics {
  import opened Prelude

  type u64 = n: int | 0 <= n < U64

  datatype Sample = Sample(eventsIn: nat, sampledOut: nat, exported: nat, bytesIn: nat, bytesExported: nat,
                           redactions: nat, failedOpen: bool) {
    function BytesDropped(): nat {
      if bytesIn >= bytesExported then bytesIn - bytesExported else 0
    }

    /** Every record of the request was either sampled out or exported. */
    predicate Balanced() { eventsIn == sampledOut + exported }
  }

  const COUNTERS := 8
  const EVENTS_IN := 0
  const SAMPLED_OUT := 1
  const EXPORTED := 2
  const BYTES_IN := 3
  const BYTES_DROPPED := 4
  const BYTES_EXPORTED := 5
  const REDACTIONS := 6
  const FAILED_OPEN := 7

  /** What a sample adds to a counter; the counters stand in the order they are added to. */
  function Amount(s: Sample, c: nat): nat
    requires c < COUNTERS
  {
    [s.eventsIn, s.sampledOut, s.exported, s.bytesIn, s.BytesDropped(), s.bytesExported, s.redactions,
     if s.failedOpen then 1 else 0][c]
  }

  /** An atomic add on a 64-bit counter wraps around. */
  function Wrapped(a: u64, b: nat): u64 {
    (a + b) % U64
  }

  class Register {
    var counters: seq<u64>
    var seqNo: nat

    constructor ()
      ensures counters == seq(COUNTERS, _ => 0) && seqNo == 0
    {
      counters := seq(COUNTERS, _ => 0);
      seqNo := 0;
    }

    method FetchAdd(c: nat, amount: nat)
      requires c < |counters|
      modifies this`counters
      ensures counters == old(counters)[c := Wrapped(old(counters)[c], amount)]
    {
      counters := counters[c := Wrapped(counters[c], amount)];
    }

    method SwapZero(c: nat) returns (was: u64)
      requires c < |counters|
      modifies this`counters
      ensures was == old(counters)[c] && counters == old(counters)[c := 0]
    {
      was := counters[c];
      counters := counters[c := 0];
    }

    /** Uninterrupted, a record adds the whole sample. */
    method Record(s: Sample)
      requires |counters| == COUNTERS
      modifies this`counters
      ensures |counters| == COUNTERS
      ensures forall c | 0 <= c < COUNTERS :: counters[c] == Wrapped(old(counters)[c], Amount(s, c))
    {
      for c := 0 to COUNTERS
        invariant |counters| == COUNTERS
        invariant forall k | 0 <= k < c :: counters[k] == Wrapped(old(counters)[k], Amount(s, k))
        invariant forall k | c <= k < COUNTERS :: counters[k] == old(counters)[k]
      {
        FetchAdd(c, Amount(s, c));
      }
    }

    /** Uninterrupted, a flush returns every counter and leaves them all at zero. */
    method Flush() returns (drained: seq<u64>, stamp: nat)
      requires |counters| == COUNTERS
      modifies this
      ensures drained == old(counters) && stamp == old(seqNo)
      ensures counters == seq(COUNTERS, _ => 0) && seqNo == old(seqNo) + 1
    {
      drained := [];
      for c := 0 to COUNTERS
        invariant |counters| == COUNTERS && drained == old(counters)[..c] && seqNo == old(seqNo)
        invariant forall k | 0 <= k < c :: counters[k] == 0
        invariant forall k | c <= k < COUNTERS :: counters[k] == old(counters)[k]
      {
        var was := SwapZero(c);
        drained := drained + [was];
      }
      stamp := seqNo;
      seqNo := seqNo + 1;
    }
  }

  // ----- interleavings

  /** A request task part-way through its adds, or a flush part-way through its swaps. */
  datatype Task =
    | Recording(sample: Sample, added: nat)
    | Flushing(drained: seq<u64>)
    | Flushed(drained: seq<u64>, seqNo: nat)

  datatype Sys = Sys(counters: seq<u64>, seqNo: nat, tasks: seq<Task>)

  datatype Action =
    | BeginRecord(sample: Sample) | AddNext(task: nat)
    | BeginFlush | SwapNext(task: nat) | Publish(task: nat)

  function Init(): Sys {
    Sys(seq(COUNTERS, _ => 0), 0, [])
  }

  predicate Enabled(s: Sys, a: Action) {
    match a
    case BeginRecord(_) => true
    case AddNext(t) => t < |s.tasks| && s.tasks[t].Recording? && s.tasks[t].added < COUNTERS && |s.counters| == COUNTERS
    case BeginFlush => true
    case SwapNext(t) =>
      t < |s.tasks| && s.tasks[t].Flushing? && |s.tasks[t].drained| < COUNTERS && |s.counters| == COUNTERS
    case Publish(t) => t < |s.tasks| && s.tasks[t].Flushing? && |s.tasks[t].drained| == COUNTERS
  }

  function Next(s: Sys, a: Action): Sys
    requires Enabled(s, a)
  {
    match a
    case BeginRecord(sample) => s.(tasks := s.tasks + [Recording(sample, 0)])
    case AddNext(t) =>
      var r := s.tasks[t];
      s.(counters := s.counters[r.added := Wrapped(s.counters[r.added], Amount(r.sample, r.added))],
         tasks := s.tasks[t := Recording(r.sample, r.added + 1)])
    case BeginFlush => s.(tasks := s.tasks + [Flushing([])])
    case SwapNext(t) =>
      var d := s.tasks[t].drained;
      s.(counters := s.counters[|d| := 0], tasks := s.tasks[t := Flushing(d + [s.counters[|d|]])])
    case Publish(t) =>
      s.(seqNo := s.seqNo + 1, tasks := s.tasks[t := Flushed(s.tasks[t].drained, s.seqNo)])
  }

  ghost predicate Reaches(s: Sys, actions: seq<Action>, t: Sys)
    decreases |actions|
  {
    if actions == [] then s == t
    else Enabled(s, actions[0]) && Reaches(Next(s, actions[0]), actions[1..], t)
  }

  // ----- what has been added, and what has been drained

  function TaskAdded(t: Task, c: nat): nat
    requires c < COUNTERS
  {
    if t.Recording? && t.added > c then Amount(t.sample, c) else 0
  }

  function TaskDrained(t: Task, c: nat): nat {
    if t.Recording? || c >= |t.drained| then 0 else t.drained[c]
  }

  function Added(tasks: seq<Task>, c: nat): nat
    requires c < COUNTERS
  {
    if tasks == [] then 0 else Added(tasks[..|tasks| - 1], c) + TaskAdded(tasks[|tasks| - 1], c)
  }

  function Drained(tasks: seq<Task>, c: nat): nat {
    if tasks == [] then 0 else Drained(tasks[..|tasks| - 1], c) + TaskDrained(tasks[|tasks| - 1], c)
  }

  /** Everything added to a counter is in it or was drained, up to whole wrap-arounds. */
  ghost predicate Conserved(s: Sys, c: nat)
    requires c < COUNTERS && |s.counters| == COUNTERS
  {
    var held := Drained(s.tasks, c) + s.counters[c];
    held <= Added(s.tasks, c) && (Added(s.tasks, c) - held) % U64 == 0
  }

  ghost predicate Stamped(s: Sys) {
    && (forall t <- s.tasks | t.Flushed? :: t.seqNo < s.seqNo)
    && (forall i, j | 0 <= i < j < |s.tasks| && s.tasks[i].Flushed? && s.tasks[j].Flushed? ::
          s.tasks[i].seqNo != s.tasks[j].seqNo)
    && forall n | 0 <= n < s.seqNo :: Published(s.tasks, n)
  }

  ghost predicate Published(tasks: seq<Task>, n: nat) {
    exists i :: 0 <= i < |tasks| && tasks[i].Flushed? && tasks[i].seqNo == n
  }

  ghost predicate Inv(s: Sys) {
    && |s.counters| == COUNTERS
    && (forall c | 0 <= c < COUNTERS :: Conserved(s, c))
    && Stamped(s)
  }

  lemma {:induction false} AddedUpdate(tasks: seq<Task>, i: nat, t: Task, c: nat)
    requires i < |tasks| && c < COUNTERS
    ensures Added(tasks[i := t], c) == Added(tasks, c) - TaskAdded(tasks[i], c) + TaskAdded(t, c)
    ensures Added(tasks, c) >= TaskAdded(tasks[i], c)
  {
    var last := |tasks| - 1;
    if i < last {
      AddedUpdate(tasks[..last], i, t, c);
      assert tasks[i := t][..last] == tasks[..last][i := t];
    } else {
      assert tasks[i := t][..last] == tasks[..last];
    }
  }

  lemma {:induction false} DrainedUpdate(tasks: seq<Task>, i: nat, t: Task, c: nat)
    requires i < |tasks|
    ensures Drained(tasks[i := t], c) == Drained(tasks, c) - TaskDrained(tasks[i], c) + TaskDrained(t, c)
    ensures Drained(tasks, c) >= TaskDrained(tasks[i], c)
  {
    var last := |tasks| - 1;
    if i < last {
      DrainedUpdate(tasks[..last], i, t, c);
      assert tasks[i := t][..last] == tasks[..last][i := t];
    } else {
      assert tasks[i := t][..last] == tasks[..last];
    }
  }

  lemma Multiple(k: int)
    ensures k * U64 % U64 == 0
  {
  }

  lemma WrappedApart(a: u64, b: nat, held: nat, total: nat)
    requires held + a <= total && (total - (held + a)) % U64 == 0
    ensures held + Wrapped(a, b) <= total + b && (total + b - (held + Wrapped(a, b))) % U64 == 0
  {
    var k, gap := (a + b) / U64, total - (held + a);
    assert Wrapped(a, b) == a + b - k * U64;
    assert gap == gap / U64 * U64;
    assert gap + k * U64 == (gap / U64 + k) * U64;
    Multiple(gap / U64 + k);
  }

  lemma NewTask(s: Sys, t: Task, c: nat)
    requires c < COUNTERS && TaskAdded(t, c) == 0 && TaskDrained(t, c) == 0
    ensures Added(s.tasks + [t], c) == Added(s.tasks, c) && Drained(s.tasks + [t], c) == Drained(s.tasks, c)
  {
    assert (s.tasks + [t])[..|s.tasks|] == s.tasks;
  }

  lemma StepConserves(s: Sys, a: Action, c: nat)
    requires |s.counters| == COUNTERS && c < COUNTERS && Conserved(s, c) && Enabled(s, a)
    ensures Conserved(Next(s, a), c)
  {
    hide Added, Drained, Amount, Wrapped;
    match a {
      case BeginRecord(sample) => NewTask(s, Recording(sample, 0), c);
      case BeginFlush => NewTask(s, Flushing([]), c);
      case AddNext(t) =>
        var r := s.tasks[t];
        AddedUpdate(s.tasks, t, Recording(r.sample, r.added + 1), c);
        DrainedUpdate(s.tasks, t, Recording(r.sample, r.added + 1), c);
        if c == r.added {
          WrappedApart(s.counters[c], Amount(r.sample, c), Drained(s.tasks, c), Added(s.tasks, c));
        }
      case SwapNext(t) =>
        var d := s.tasks[t].drained;
        AddedUpdate(s.tasks, t, Flushing(d + [s.counters[|d|]]), c);
        DrainedUpdate(s.tasks, t, Flushing(d + [s.counters[|d|]]), c);
      case Publish(t) =>
        AddedUpdate(s.tasks, t, Flushed(s.tasks[t].drained, s.seqNo), c);
        DrainedUpdate(s.tasks, t, Flushed(s.tasks[t].drained, s.seqNo), c);
    }
  }

  lemma StepStamps(s: Sys, a: Action)
    requires Stamped(s) && Enabled(s, a)
    ensures Stamped(Next(s, a))
  {
    var n := Next(s, a);
    forall k | 0 <= k < n.seqNo ensures Published(n.tasks, k) {
      if k < s.seqNo {
        assert Published(s.tasks, k);
        var i :| 0 <= i < |s.tasks| && s.tasks[i].Flushed? && s.tasks[i].seqNo == k;
        assert n.tasks[i] == s.tasks[i];
      } else {
        assert n.tasks[a.task] == Flushed(s.tasks[a.task].drained, k);
      }
    }
    forall t <- n.tasks | t.Flushed? ensures t.seqNo < n.seqNo {
      var i :| 0 <= i < |n.tasks| && n.tasks[i] == t;
      assert i < |s.tasks| && (s.tasks[i] == t || t.seqNo == s.seqNo);
    }
    forall i, j | 0 <= i < j < |n.tasks| && n.tasks[i].Flushed? && n.tasks[j].Flushed?
      ensures n.tasks[i].seqNo != n.tasks[j].seqNo
    {
      assert j < |s.tasks|;
      assert s.tasks[i] in s.tasks && s.tasks[j] in s.tasks;
    }
  }

  lemma {:induction false} RunKeeps(s: Sys, actions: seq<Action>, t: Sys)
    requires Inv(s) && Reaches(s, actions, t)
    ensures Inv(t)
    decreases |actions|
  {
    hide Conserved, Stamped;
    if actions != [] {
      forall c | 0 <= c < COUNTERS ensures Conserved(Next(s, actions[0]), c) {
        StepConserves(s, actions[0], c);
      }
      StepStamps(s, actions[0]);
      RunKeeps(Next(s, actions[0]), actions[1..], t);
    }
  }

  /** Whatever the interleaving, nothing added to a counter is lost or counted twice: flushed
      plus current equals added, up to whole wrap-arounds, and exactly while the total fits 64
      bits; and the aggregates published so far are numbered 0, 1, 2, ... without gap or repeat. */
  lemma NothingLostOrCountedTwice(actions: seq<Action>, s: Sys, c: nat)
    requires Reaches(Init(), actions, s) && c < COUNTERS
    ensures |s.counters| == COUNTERS && Conserved(s, c) && Stamped(s)
    ensures Added(s.tasks, c) < U64 ==> Drained(s.tasks, c) + s.counters[c] == Added(s.tasks, c)
  {
    hide Stamped;
    InitHolds();
    RunKeeps(Init(), actions, s);
    var gap := Added(s.tasks, c) - (Drained(s.tasks, c) + s.counters[c]);
    assert Conserved(s, c);
    SmallRemainder(gap);
  }

  lemma SmallRemainder(n: int)
    ensures 0 <= n < U64 ==> n % U64 == n
  {
  }

  lemma InitHolds()
    ensures Inv(Init())
  {
  }

  // ----- at rest

  /** No task is part-way through. */
  predicate Quiescent(s: Sys) {
    forall t <- s.tasks :: (t.Recording? && t.added == COUNTERS) || t.Flushed?
  }

  predicate AllBalanced(tasks: seq<Task>) {
    forall t <- tasks | t.Recording? :: t.sample.Balanced()
  }

  lemma {:induction false} AddedBalance(tasks: seq<Task>)
    requires AllBalanced(tasks) && forall t <- tasks :: (t.Recording? && t.added == COUNTERS) || t.Flushed?
    ensures Added(tasks, EVENTS_IN) == Added(tasks, SAMPLED_OUT) + Added(tasks, EXPORTED)
    ensures Added(tasks, BYTES_IN) <= Added(tasks, BYTES_DROPPED) + Added(tasks, BYTES_EXPORTED)
  {
    if tasks != [] {
      AddedBalance(tasks[..|tasks| - 1]);
      assert tasks[|tasks| - 1] in tasks;
    }
  }

  /** A counter's total: all that its flushes drained, and what it still holds. */
  function Sum(s: Sys, c: nat): nat
    requires c < |s.counters|
  {
    Drained(s.tasks, c) + s.counters[c]
  }

  /** A statistic summed over the samples of the recorders. */
  function Tally(tasks: seq<Task>, statistic: Sample -> nat): nat {
    if tasks == [] then 0
    else
      var t := tasks[|tasks| - 1];
      Tally(tasks[..|tasks| - 1], statistic) + if t.Recording? then statistic(t.sample) else 0
  }

  lemma {:induction false} AddedIsTally(tasks: seq<Task>, c: nat, statistic: Sample -> nat)
    requires c < COUNTERS && forall t <- tasks :: (t.Recording? && t.added == COUNTERS) || t.Flushed?
    requires forall x: Sample :: statistic(x) == Amount(x, c)
    ensures Added(tasks, c) == Tally(tasks, statistic)
  {
    hide Amount;
    if tasks != [] {
      AddedIsTally(tasks[..|tasks| - 1], c, statistic);
      assert tasks[|tasks| - 1] in tasks;
    }
  }

  lemma SumIsTally(actions: seq<Action>, s: Sys, c: nat, statistic: Sample -> nat)
    requires Reaches(Init(), actions, s) && Quiescent(s) && c < COUNTERS
    requires forall x: Sample :: statistic(x) == Amount(x, c)
    ensures |s.counters| == COUNTERS && (Tally(s.tasks, statistic) < U64 ==> Sum(s, c) == Tally(s.tasks, statistic))
  {
    hide Added, Drained, Conserved, Reaches, Tally, Amount;
    AddedIsTally(s.tasks, c, statistic);
    NothingLostOrCountedTwice(actions, s, c);
  }

  /** Each counter's total is the sum, over all the samples recorded, of the statistic it is named
      for, while that sum fits 64 bits. */
  lemma CountersCountTheirStatistics(actions: seq<Action>, s: Sys)
    requires Reaches(Init(), actions, s) && Quiescent(s)
    ensures |s.counters| == COUNTERS
    ensures var n := Tally(s.tasks, (x: Sample) => x.eventsIn); n < U64 ==> Sum(s, EVENTS_IN) == n
    ensures var n := Tally(s.tasks, (x: Sample) => x.sampledOut); n < U64 ==> Sum(s, SAMPLED_OUT) == n
    ensures var n := Tally(s.tasks, (x: Sample) => x.exported); n < U64 ==> Sum(s, EXPORTED) == n
    ensures var n := Tally(s.tasks, (x: Sample) => x.bytesIn); n < U64 ==> Sum(s, BYTES_IN) == n
    ensures var n :=
      Tally(s.tasks, (x: Sample) => if x.bytesIn > x.bytesExported then x.bytesIn - x.bytesExported else 0);
      n < U64 ==> Sum(s, BYTES_DROPPED) == n
    ensures var n := Tally(s.tasks, (x: Sample) => x.bytesExported); n < U64 ==> Sum(s, BYTES_EXPORTED) == n
    ensures var n := Tally(s.tasks, (x: Sample) => x.redactions); n < U64 ==> Sum(s, REDACTIONS) == n
    ensures var n := Tally(s.tasks, (x: Sample) => if x.failedOpen then 1 else 0); n < U64 ==> Sum(s, FAILED_OPEN) == n
  {
    hide Added, Drained, Conserved, Reaches, Tally, Sum, Quiescent, Amount;
    Register8(actions, s);
    Amounts();
    SumIsTally(actions, s, EVENTS_IN, (x: Sample) => x.eventsIn);
    SumIsTally(actions, s, SAMPLED_OUT, (x: Sample) => x.sampledOut);
    SumIsTally(actions, s, EXPORTED, (x: Sample) => x.exported);
    SumIsTally(actions, s, BYTES_IN, (x: Sample) => x.bytesIn);
    SumIsTally(actions, s, BYTES_DROPPED,
      (x: Sample) => if x.bytesIn > x.bytesExported then x.bytesIn - x.bytesExported else 0);
    SumIsTally(actions, s, BYTES_EXPORTED, (x: Sample) => x.bytesExported);
    SumIsTally(actions, s, REDACTIONS, (x: Sample) => x.redactions);
    SumIsTally(actions, s, FAILED_OPEN, (x: Sample) => if x.failedOpen then 1 else 0);
  }

  lemma Amounts()
    ensures forall x :: Amount(x, EVENTS_IN) == x.eventsIn
    ensures forall x :: Amount(x, SAMPLED_OUT) == x.sampledOut
    ensures forall x :: Amount(x, EXPORTED) == x.exported
    ensures forall x :: Amount(x, BYTES_IN) == x.bytesIn
    ensures forall x ::
      Amount(x, BYTES_DROPPED) == if x.bytesIn > x.bytesExported then x.bytesIn - x.bytesExported else 0
    ensures forall x :: Amount(x, BYTES_EXPORTED) == x.bytesExported
    ensures forall x :: Amount(x, REDACTIONS) == x.redactions
    ensures forall x :: Amount(x, FAILED_OPEN) == if x.failedOpen then 1 else 0
  {
  }

  lemma Register8(actions: seq<Action>, s: Sys)
    requires Reaches(Init(), actions, s)
    ensures |s.counters| == COUNTERS
  {
    NothingLostOrCountedTwice(actions, s, 0);
  }

  /** Once no task is part-way through, the totals balance: every event in was sampled out or
      exported, and every byte in was dropped or exported. */
  lemma TotalsBalanceAtRest(actions: seq<Action>, s: Sys)
    requires Reaches(Init(), actions, s) && Quiescent(s) && AllBalanced(s.tasks)
    requires forall c | 0 <= c < COUNTERS :: Added(s.tasks, c) < U64
    ensures |s.counters| == COUNTERS
    ensures Sum(s, EVENTS_IN) == Sum(s, SAMPLED_OUT) + Sum(s, EXPORTED)
    ensures Sum(s, BYTES_IN) <= Sum(s, BYTES_DROPPED) + Sum(s, BYTES_EXPORTED)
  {
    hide Added, Drained, Conserved, Reaches;
    forall c | 0 <= c < COUNTERS
      ensures |s.counters| == COUNTERS && Drained(s.tasks, c) + s.counters[c] == Added(s.tasks, c)
    {
      NothingLostOrCountedTwice(actions, s, c);
    }
    AddedBalance(s.tasks);
  }
}
