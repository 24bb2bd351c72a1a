/** The producer threads: they share a queue and a counter, and leave once the counter has
    reached a limit. Every lock-protected action is one step; threads interleave freely. */
module Drain {
  import opened Options

  type Message = seq<bv8>

  // Where a thread of WaitProducer stands. sawEmpty tells which way the test of the queue went.
  datatype PC = Check | Increment | Pop | Size(sawEmpty: bool) | Test(sawEmpty: bool) | Left

  datatype Taken = Taken(thread: nat, message: Message)

  datatype State = State(queue: seq<Message>, taken: seq<Taken>, failed: nat, counter: int, pcs: seq<PC>)

  // ---------- one step of one thread ----------

  function Next(s: State, limit: int, t: nat): State
    requires t < |s.pcs|
  {
    match s.pcs[t]
    case Check => s.(pcs := s.pcs[t := if |s.queue| > 0 then Increment else Size(true)])
    case Increment => s.(counter := s.counter + 1, pcs := s.pcs[t := Pop])
    case Pop =>
      if |s.queue| > 0 then
        s.(queue := s.queue[1..], taken := s.taken + [Taken(t, s.queue[0])], pcs := s.pcs[t := Size(false)])
      else
        s.(failed := s.failed + 1, pcs := s.pcs[t := Size(false)])
    case Size(e) => s.(pcs := s.pcs[t := Test(e)])
    case Test(_) => s.(pcs := s.pcs[t := if s.counter >= limit then Left else Check])
    case Left => s
  }

  // ---------- sums over the threads ----------

  ghost function Sum(f: PC -> int, pcs: seq<PC>): int
  {
    if |pcs| == 0 then 0 else Sum(f, pcs[..|pcs|-1]) + f(pcs[|pcs|-1])
  }

  lemma {:induction false} SumUpdate(f: PC -> int, pcs: seq<PC>, t: nat, pc: PC)
    requires t < |pcs|
    ensures Sum(f, pcs[t := pc]) == Sum(f, pcs) - f(pcs[t]) + f(pc)
  {
    var q, n := pcs[t := pc], |pcs| - 1;
    if t < n {
      SumUpdate(f, pcs[..n], t, pc);
      assert q[..n] == pcs[..n][t := pc];
    } else {
      assert q[..n] == pcs[..n];
    }
  }

  lemma {:induction false} SumBounds(f: PC -> int, pcs: seq<PC>, lo: int, hi: int)
    requires forall t :: 0 <= t < |pcs| ==> lo <= f(pcs[t]) <= hi
    ensures lo * |pcs| <= Sum(f, pcs) <= hi * |pcs|
  {
    if |pcs| > 0 {
      SumBounds(f, pcs[..|pcs|-1], lo, hi);
      assert lo * |pcs| == lo * (|pcs| - 1) + lo && hi * |pcs| == hi * (|pcs| - 1) + hi;
    }
  }

  function Incrementing(pc: PC): int { if pc.Increment? then 1 else 0 }
  function Popping(pc: PC): int { if pc.Pop? then 1 else 0 }
  function Either(pc: PC): int { Incrementing(pc) + Popping(pc) }

  lemma {:induction false} SumEither(pcs: seq<PC>)
    ensures Sum(Either, pcs) == Sum(Incrementing, pcs) + Sum(Popping, pcs)
  {
    if |pcs| > 0 {
      SumEither(pcs[..|pcs|-1]);
    }
  }

  // A thread that stands elsewhere is in neither group.
  lemma EitherButOne(pcs: seq<PC>, t: nat)
    requires t < |pcs| && Either(pcs[t]) == 0
    ensures 0 <= Sum(Incrementing, pcs) && 0 <= Sum(Popping, pcs)
    ensures Sum(Incrementing, pcs) + Sum(Popping, pcs) <= |pcs| - 1
  {
    var q := pcs[..t] + pcs[t+1..];
    SumBounds(Incrementing, pcs, 0, 1);
    SumBounds(Popping, pcs, 0, 1);
    SumBounds(Either, q, 0, 1);
    SumEither(pcs);
    SumWithout(Either, pcs, t);
  }

  lemma {:induction false} SumWithout(f: PC -> int, pcs: seq<PC>, t: nat)
    requires t < |pcs|
    ensures Sum(f, pcs) == Sum(f, pcs[..t] + pcs[t+1..]) + f(pcs[t])
  {
    var n := |pcs| - 1;
    var q := pcs[..t] + pcs[t+1..];
    if t < n {
      SumWithout(f, pcs[..n], t);
      assert q[..n-1] == pcs[..n][..t] + pcs[..n][t+1..];
      assert q[n-1] == pcs[n];
    } else {
      assert q == pcs[..n];
    }
  }

  // ---------- what every step keeps ----------

  ghost function Messages(taken: seq<Taken>): seq<Message>
  {
    seq(|taken|, i requires 0 <= i < |taken| => taken[i].message)
  }

  ghost predicate Inv(s: State, limit: int, input: seq<Message>)
  {
    // first in, first out: every message is still queued or was taken by one thread
    && Messages(s.taken) + s.queue == input
    // every increment belongs to a message taken, a failed pop, or a thread about to pop
    && s.counter == |s.taken| + s.failed + Sum(Popping, s.pcs)
    && (s.failed > 0 ==> s.queue == [])
    && s.counter + Sum(Incrementing, s.pcs) <= (if input == [] then 0 else |input| + |s.pcs| - 1)
    && (forall t :: 0 <= t < |s.pcs| && s.pcs[t] == Left ==> s.counter >= limit)
    && (forall t :: 0 <= t < |s.pcs| && (s.pcs[t] == Size(true) || s.pcs[t] == Test(true)) ==> s.queue == [])
  }

  ghost predicate Initial(s: State, input: seq<Message>)
  {
    s.queue == input && s.taken == [] && s.failed == 0 && s.counter == 0
    && forall t :: 0 <= t < |s.pcs| ==> s.pcs[t] == Check
  }

  lemma InvInitial(s: State, limit: int, input: seq<Message>)
    requires Initial(s, input)
    ensures Inv(s, limit, input)
  {
    SumBounds(Popping, s.pcs, 0, 0);
    SumBounds(Incrementing, s.pcs, 0, 0);
  }

  lemma InvStep(s: State, limit: int, input: seq<Message>, t: nat)
    requires Inv(s, limit, input) && t < |s.pcs|
    ensures Inv(Next(s, limit, t), limit, input)
  {
    var n := Next(s, limit, t);
    SumUpdate(Popping, s.pcs, t, n.pcs[t]);
    SumUpdate(Incrementing, s.pcs, t, n.pcs[t]);
    if s.pcs[t] == Check {
      EitherButOne(s.pcs, t);
    }
  }

  /** While the queue is empty, every message is taken and the exit test is true. */
  lemma EmptyMeansExit(s: State, limit: int, input: seq<Message>)
    requires Inv(s, limit, input) && limit <= |input| && s.queue == []
    ensures |s.taken| == |input| && s.counter >= limit
  {
    SumBounds(Popping, s.pcs, 0, 1);
  }

  lemma CounterBound(s: State, limit: int, input: seq<Message>)
    requires Inv(s, limit, input) && |s.pcs| >= 1
    ensures 0 <= s.counter <= |input| + |s.pcs| - 1
  {
    SumBounds(Popping, s.pcs, 0, 1);
    SumBounds(Incrementing, s.pcs, 0, 1);
  }

  /** Once all threads have left, the queue is drained - if it held no more than the limit. */
  lemma DrainedAtTheEnd(s: State, limit: int, input: seq<Message>)
    requires Inv(s, limit, input) && |s.pcs| >= 1 && |input| <= limit
    requires forall t :: 0 <= t < |s.pcs| ==> s.pcs[t] == Left
    ensures s.queue == [] && Messages(s.taken) == input
  {
    SumBounds(Popping, s.pcs, 0, 0);
    assert s.pcs[0] == Left;
  }

  // ---------- every run ends ----------

  function Weight(pc: PC): int
  {
    match pc
    case Left => 0
    case Test(e) => if e then 1 else 4
    case Size(e) => if e then 2 else 5
    case Check => 3
    case Pop => 6
    case Increment => 7
  }

  ghost function Measure(s: State, input: seq<Message>): int
  {
    5 * ((if input == [] then 0 else |input| + |s.pcs| - 1) - s.counter - Sum(Incrementing, s.pcs)) + Sum(Weight, s.pcs)
  }

  /** If the queue holds at least as many messages as the limit, every step of a thread that has not
      left brings the run closer to its end, whatever the interleaving. */
  lemma Progress(s: State, limit: int, input: seq<Message>, t: nat)
    requires Inv(s, limit, input) && limit <= |input| && t < |s.pcs| && s.pcs[t] != Left
    ensures 0 <= Measure(Next(s, limit, t), input) < Measure(s, input)
  {
    InvStep(s, limit, input, t);
    MeasureIsNat(Next(s, limit, t), limit, input);
    StepsDown(s, limit, input, t);
  }

  lemma MeasureIsNat(s: State, limit: int, input: seq<Message>)
    requires Inv(s, limit, input)
    ensures Measure(s, input) >= 0
  {
    SumBounds(Weight, s.pcs, 0, 7);
  }

  lemma StepsDown(s: State, limit: int, input: seq<Message>, t: nat)
    requires Inv(s, limit, input) && limit <= |input| && t < |s.pcs| && s.pcs[t] != Left
    ensures Measure(Next(s, limit, t), input) < Measure(s, input)
  {
    var n := Next(s, limit, t);
    SumUpdate(Incrementing, s.pcs, t, n.pcs[t]);
    SumUpdate(Weight, s.pcs, t, n.pcs[t]);
    if s.pcs[t] == Test(true) {
      EmptyMeansExit(s, limit, input);
    }
  }

  // ---------- schedules ----------

  // The state after the steps of a schedule.
  ghost function After(s: State, limit: int, schedule: seq<nat>): (r: State)
    requires forall i :: 0 <= i < |schedule| ==> schedule[i] < |s.pcs|
    ensures |r.pcs| == |s.pcs|
  {
    var n := |schedule| - 1;
    if n < 0 then s else Next(After(s, limit, schedule[..n]), limit, schedule[n])
  }

  // How many positions of a schedule are steps of a thread that has not left.
  ghost function Moves(s: State, limit: int, schedule: seq<nat>): (m: nat)
    requires forall i :: 0 <= i < |schedule| ==> schedule[i] < |s.pcs|
    ensures m <= |schedule|
  {
    var n := |schedule| - 1;
    if n < 0 then 0 else
      Moves(s, limit, schedule[..n]) + if After(s, limit, schedule[..n]).pcs[schedule[n]] != Left then 1 else 0
  }

  // The moves bring the run closer to its end.
  lemma {:induction false} MovesStep(s: State, limit: int, input: seq<Message>, schedule: seq<nat>)
    requires Initial(s, input) && limit <= |input| && forall i :: 0 <= i < |schedule| ==> schedule[i] < |s.pcs|
    ensures Inv(After(s, limit, schedule), limit, input)
    ensures Moves(s, limit, schedule) + Measure(After(s, limit, schedule), input) <= Measure(s, input)
  {
    var n := |schedule| - 1;
    if n < 0 {
      InvInitial(s, limit, input);
    } else {
      MovesStep(s, limit, input, schedule[..n]);
      var r := After(s, limit, schedule[..n]);
      InvStep(r, limit, input, schedule[n]);
      if r.pcs[schedule[n]] != Left {
        Progress(r, limit, input, schedule[n]);
      } else {
        LeftStays(r, limit, schedule[n]);
      }
    }
  }

  lemma MovesAreBounded(s: State, limit: int, input: seq<Message>, schedule: seq<nat>)
    requires Initial(s, input) && |s.pcs| >= 1 && limit <= |input|
    requires forall i :: 0 <= i < |schedule| ==> schedule[i] < |s.pcs|
    ensures Moves(s, limit, schedule) <= 5 * (|input| + |s.pcs| - 1) + 3 * |s.pcs|
  {
    MovesStep(s, limit, input, schedule);
    MeasureIsNat(After(s, limit, schedule), limit, input);
    SumBounds(Weight, s.pcs, 3, 3);
    SumBounds(Incrementing, s.pcs, 0, 0);
  }

  /** A thread that has left changes nothing; so a schedule may pass it over. */
  lemma LeftStays(s: State, limit: int, t: nat)
    requires t < |s.pcs| && s.pcs[t] == Left
    ensures Next(s, limit, t) == s
  {
  }

  // A schedule in which every step is one of a thread that has not left.
  ghost predicate Active(s: State, limit: int, schedule: seq<nat>)
  {
    && (forall i :: 0 <= i < |schedule| ==> schedule[i] < |s.pcs|)
    && (forall i :: 0 <= i < |schedule| ==> After(s, limit, schedule[..i]).pcs[schedule[i]] != Left)
  }

  // No schedule takes more than n steps.
  ghost predicate EndsWithin(s: State, limit: int, n: nat)
  {
    forall schedule :: Active(s, limit, schedule) ==> |schedule| <= n
  }

  /** Every interleaving comes to its end exactly if the queue holds at least as many messages as
      the limit; with fewer, a thread that runs alone takes them all and then waits for ever. */
  lemma EveryRunEnds(s: State, limit: int, input: seq<Message>)
    requires Initial(s, input) && |s.pcs| >= 1
    ensures (exists n :: EndsWithin(s, limit, n)) <==> limit <= |input|
  {
    if limit <= |input| {
      SumBounds(Weight, s.pcs, 3, 3);
      SumBounds(Incrementing, s.pcs, 0, 0);
      var n: nat := Measure(s, input);
      forall schedule | Active(s, limit, schedule) ensures |schedule| <= n {
        StepsAreBounded(s, limit, input, schedule);
      }
      assert EndsWithin(s, limit, n);
    } else {
      forall n: nat ensures !EndsWithin(s, limit, n) {
        var alone := seq(n + 1, _ => 0);
        forall i | 0 <= i < |alone| ensures After(s, limit, alone[..i]).pcs[alone[i]] != Left {
          assert alone[..i] == seq(i, _ => 0);
          NeverLeavesAlone(s, limit, input, i);
        }
        assert Active(s, limit, alone);
      }
    }
  }

  lemma {:induction false} StepsAreBounded(s: State, limit: int, input: seq<Message>, schedule: seq<nat>)
    requires Initial(s, input) && |s.pcs| >= 1 && limit <= |input| && Active(s, limit, schedule)
    ensures var r := After(s, limit, schedule);
      Inv(r, limit, input) && Measure(r, input) + |schedule| <= Measure(s, input)
    ensures |schedule| > 0 ==> Measure(After(s, limit, schedule), input) >= 0
  {
    var n := |schedule| - 1;
    if n < 0 {
      InvInitial(s, limit, input);
    } else {
      assert forall i :: 0 <= i < n ==> schedule[..n][..i] == schedule[..i];
      StepsAreBounded(s, limit, input, schedule[..n]);
      InvStep(After(s, limit, schedule[..n]), limit, input, schedule[n]);
      Progress(After(s, limit, schedule[..n]), limit, input, schedule[n]);
    }
  }

  // What thread 0 keeps while it runs alone with too few messages: it counts nothing but them.
  lemma {:induction false} NeverLeavesAlone(s: State, limit: int, input: seq<Message>, n: nat)
    requires Initial(s, input) && |s.pcs| >= 1 && |input| < limit
    ensures var r := After(s, limit, seq(n, _ => 0));
      && r.pcs[0] != Left && |r.taken| + |r.queue| == |input|
      && r.counter == |r.taken| + (if r.pcs[0] == Pop then 1 else 0)
      && (r.pcs[0] == Increment || r.pcs[0] == Pop ==> r.queue != [])
  {
    if n > 0 {
      NeverLeavesAlone(s, limit, input, n - 1);
      assert seq(n, _ => 0)[..n-1] == seq(n - 1, _ => 0);
    }
  }

  // ---------- which limits can be reached ----------

  ghost predicate Reaches(s: State, limit: int, r: State)
  {
    exists schedule :: (forall i :: 0 <= i < |schedule| ==> schedule[i] < |s.pcs|) && After(s, limit, schedule) == r
  }

  lemma ReachesStep(s: State, limit: int, r: State, t: nat)
    requires Reaches(s, limit, r) && t < |s.pcs|
    ensures |r.pcs| == |s.pcs| && Reaches(s, limit, Next(r, limit, t))
  {
    var schedule :| (forall i :: 0 <= i < |schedule| ==> schedule[i] < |s.pcs|) && After(s, limit, schedule) == r;
    var longer := schedule + [t];
    assert longer[..|longer|-1] == schedule;
    assert After(s, limit, longer) == Next(r, limit, t);
  }

  lemma ReachesItself(s: State, limit: int)
    ensures Reaches(s, limit, s)
  {
    assert After(s, limit, []) == s;
  }

  ghost predicate SomeoneLeaves(s: State, limit: int)
  {
    exists r, t :: Reaches(s, limit, r) && 0 <= t < |r.pcs| && r.pcs[t] == Left
  }

  // The highest value of the counter over all interleavings.
  function Reachable(s: State, input: seq<Message>): int
  {
    if input == [] then 0 else |input| + |s.pcs| - 1
  }

  /** Some interleaving lets a thread leave exactly if the limit does not exceed the messages by the
      number of threads or more: all but one of them may count a message that another one takes. */
  lemma WhenSomeoneLeaves(s: State, limit: int, input: seq<Message>)
    requires Initial(s, input) && |s.pcs| >= 1
    ensures SomeoneLeaves(s, limit) <==> limit <= Reachable(s, input)
  {
    if SomeoneLeaves(s, limit) {
      LeavesOnlyIf(s, limit, input);
    }
    if limit <= Reachable(s, input) {
      LeavesIf(s, limit, input);
    }
  }

  lemma LeavesOnlyIf(s: State, limit: int, input: seq<Message>)
    requires Initial(s, input) && SomeoneLeaves(s, limit)
    ensures limit <= Reachable(s, input)
  {
    var r, t :| Reaches(s, limit, r) && 0 <= t < |r.pcs| && r.pcs[t] == Left;
    ReachableInv(s, limit, input, r);
    SumBounds(Incrementing, r.pcs, 0, 1);
  }

  lemma LeavesIf(s: State, limit: int, input: seq<Message>)
    requires Initial(s, input) && |s.pcs| >= 1 && limit <= Reachable(s, input)
    ensures SomeoneLeaves(s, limit)
  {
    ReachesItself(s, limit);
    if input == [] {
      LeaveEmpty(s, limit, s);
    } else {
      TakeAllButOne(s, limit, s);
    }
  }

  lemma {:induction false} ReachableInv(s: State, limit: int, input: seq<Message>, r: State)
    requires Initial(s, input) && Reaches(s, limit, r)
    ensures Inv(r, limit, input) && |r.pcs| == |s.pcs|
  {
    var schedule :| (forall i :: 0 <= i < |schedule| ==> schedule[i] < |s.pcs|) && After(s, limit, schedule) == r;
    InvAfter(s, limit, input, schedule);
  }

  lemma {:induction false} InvAfter(s: State, limit: int, input: seq<Message>, schedule: seq<nat>)
    requires Initial(s, input) && forall i :: 0 <= i < |schedule| ==> schedule[i] < |s.pcs|
    ensures Inv(After(s, limit, schedule), limit, input)
  {
    var n := |schedule| - 1;
    if n < 0 {
      InvInitial(s, limit, input);
    } else {
      InvAfter(s, limit, input, schedule[..n]);
      InvStep(After(s, limit, schedule[..n]), limit, input, schedule[n]);
    }
  }

  // From a state with an empty queue, thread 0 leaves after three steps.
  lemma LeaveEmpty(s: State, limit: int, r: State)
    requires Reaches(s, limit, r) && |s.pcs| >= 1 && |r.pcs| >= 1 && r.pcs[0] == Check
    requires r.queue == [] && r.counter >= limit
    ensures SomeoneLeaves(s, limit)
  {
    var r1 := Next(r, limit, 0);
    ReachesStep(s, limit, r, 0);
    var r2 := Next(r1, limit, 0);
    ReachesStep(s, limit, r1, 0);
    ReachesStep(s, limit, r2, 0);
    assert Next(r2, limit, 0).pcs[0] == Left;
  }

  // Thread 0 takes messages until one is left.
  lemma {:induction false} TakeAllButOne(s: State, limit: int, r: State)
    requires Reaches(s, limit, r) && |s.pcs| >= 1 && |r.pcs| == |s.pcs| && r.queue != []
    requires forall t :: 0 <= t < |r.pcs| ==> r.pcs[t] == Check
    requires limit <= r.counter + |r.queue| + |r.pcs| - 1
    ensures SomeoneLeaves(s, limit)
    decreases |r.queue|
  {
    if |r.queue| == 1 {
      AllCheck(s, limit, r, 0);
    } else {
      var r5 := TakeOne(s, limit, r);
      if r5.pcs[0] == Check {
        TakeAllButOne(s, limit, r5);
      }
    }
  }

  lemma TakeOne(s: State, limit: int, r: State) returns (r5: State)
    requires Reaches(s, limit, r) && |s.pcs| >= 1 && |r.pcs| == |s.pcs| && r.queue != [] && r.pcs[0] == Check
    ensures Reaches(s, limit, r5) && r5.queue == r.queue[1..] && r5.counter == r.counter + 1
    ensures r5.pcs == r.pcs[0 := if r5.counter >= limit then Left else Check]
  {
    var r1 := Next(r, limit, 0);
    ReachesStep(s, limit, r, 0);
    var r2 := Next(r1, limit, 0);
    ReachesStep(s, limit, r1, 0);
    var r3 := Next(r2, limit, 0);
    ReachesStep(s, limit, r2, 0);
    var r4 := Next(r3, limit, 0);
    ReachesStep(s, limit, r3, 0);
    r5 := Next(r4, limit, 0);
    ReachesStep(s, limit, r4, 0);
  }

  // One after the other, the threads see the last message.
  lemma {:induction false} AllCheck(s: State, limit: int, r: State, k: nat)
    requires Reaches(s, limit, r) && 1 <= |s.pcs| == |r.pcs| && |r.queue| == 1 && k <= |r.pcs|
    requires forall t :: 0 <= t < |r.pcs| ==> r.pcs[t] == if t < k then Increment else Check
    requires limit <= r.counter + |r.pcs|
    ensures SomeoneLeaves(s, limit)
    decreases |r.pcs| - k
  {
    if k == |r.pcs| {
      AllIncrement(s, limit, r, 0);
    } else {
      ReachesStep(s, limit, r, k);
      AllCheck(s, limit, Next(r, limit, k), k + 1);
    }
  }

  // ... all of them count it ...
  lemma {:induction false} AllIncrement(s: State, limit: int, r: State, k: nat)
    requires Reaches(s, limit, r) && 1 <= |s.pcs| == |r.pcs| && |r.queue| == 1 && k <= |r.pcs|
    requires forall t :: 0 <= t < |r.pcs| ==> r.pcs[t] == if t < k then Pop else Increment
    requires limit <= r.counter + |r.pcs| - k
    ensures SomeoneLeaves(s, limit)
    decreases |r.pcs| - k
  {
    if k == |r.pcs| {
      LeaveAfterPop(s, limit, r);
    } else {
      ReachesStep(s, limit, r, k);
      AllIncrement(s, limit, Next(r, limit, k), k + 1);
    }
  }

  // ... and the first one takes it and leaves.
  lemma LeaveAfterPop(s: State, limit: int, r: State)
    requires Reaches(s, limit, r) && 1 <= |s.pcs| == |r.pcs| && |r.queue| == 1 && r.pcs[0] == Pop
    requires limit <= r.counter
    ensures SomeoneLeaves(s, limit)
  {
    var r1 := Next(r, limit, 0);
    ReachesStep(s, limit, r, 0);
    var r2 := Next(r1, limit, 0);
    ReachesStep(s, limit, r1, 0);
    ReachesStep(s, limit, r2, 0);
    assert Next(r2, limit, 0).pcs[0] == Left;
  }

  // ---------- when messages stay behind ----------

  ghost predicate MessagesStay(s: State, limit: int)
  {
    exists r :: Reaches(s, limit, r) && AllLeft(r) && r.queue != []
  }

  ghost predicate AllLeft(r: State)
  {
    forall t :: 0 <= t < |r.pcs| ==> r.pcs[t] == Left
  }

  /** Some interleaving ends with messages in the queue exactly if there are more of them than the
      limit and than threads: while the queue is not empty, no thread leaves without taking one. */
  lemma WhenMessagesStay(s: State, limit: int, input: seq<Message>)
    requires Initial(s, input) && |s.pcs| >= 1
    ensures MessagesStay(s, limit) <==> limit < |input| && |s.pcs| < |input|
  {
    if MessagesStay(s, limit) {
      var r :| Reaches(s, limit, r) && AllLeft(r) && r.queue != [];
      StayOnlyIf(s, limit, input, r);
    }
    if limit < |input| && |s.pcs| < |input| {
      ReachesItself(s, limit);
      TakeOneEach(s, limit, s, |s.pcs| - 1);
    }
  }

  lemma StayOnlyIf(s: State, limit: int, input: seq<Message>, r: State)
    requires Initial(s, input) && |s.pcs| >= 1 && Reaches(s, limit, r) && AllLeft(r) && r.queue != []
    ensures limit < |input| && |s.pcs| < |input|
  {
    ReachableInv(s, limit, input, r);
    SumBounds(Popping, r.pcs, 0, 0);
    assert r.pcs[0] == Left;
    var schedule :| (forall i :: 0 <= i < |schedule| ==> schedule[i] < |s.pcs|) && After(s, limit, schedule) == r;
    EachTookOne(s, limit, input, schedule);
    TakersBound(r.taken, |r.pcs|);
  }

  // Thread t has taken a message.
  ghost predicate TookOne(taken: seq<Taken>, t: nat)
  {
    exists k :: 0 <= k < |taken| && taken[k].thread == t
  }

  // While the queue is not empty, every thread that stands behind the pop has taken a message.
  lemma {:induction false} EachTookOne(s: State, limit: int, input: seq<Message>, schedule: seq<nat>)
    requires Initial(s, input) && forall i :: 0 <= i < |schedule| ==> schedule[i] < |s.pcs|
    ensures var r := After(s, limit, schedule); r.queue != [] ==>
      forall t :: 0 <= t < |r.pcs| && Behind(r.pcs[t]) ==> TookOne(r.taken, t)
  {
    var n := |schedule| - 1;
    if n >= 0 {
      EachTookOne(s, limit, input, schedule[..n]);
      InvAfter(s, limit, input, schedule[..n]);
      StepTakes(After(s, limit, schedule[..n]), limit, input, schedule[n]);
    }
  }

  predicate Behind(pc: PC) { pc.Size? || pc.Test? || pc.Left? }

  lemma StepTakes(r: State, limit: int, input: seq<Message>, u: nat)
    requires Inv(r, limit, input) && u < |r.pcs|
    requires r.queue != [] ==> forall t :: 0 <= t < |r.pcs| && Behind(r.pcs[t]) ==> TookOne(r.taken, t)
    ensures var n := Next(r, limit, u); n.queue != [] ==>
      forall t :: 0 <= t < |n.pcs| && Behind(n.pcs[t]) ==> TookOne(n.taken, t)
  {
    var n := Next(r, limit, u);
    if n.queue != [] {
      forall t | 0 <= t < |n.pcs| && Behind(n.pcs[t]) ensures TookOne(n.taken, t) {
        if Behind(r.pcs[t]) {
          var k :| 0 <= k < |r.taken| && r.taken[k].thread == t;
          assert n.taken[k].thread == t;
        } else {
          assert r.pcs[t] == Pop && n.taken[|r.taken|].thread == t;
        }
      }
    }
  }

  // Whoever takes part takes a message of its own.
  lemma {:induction false} TakersBound(taken: seq<Taken>, n: nat)
    requires forall t :: 0 <= t < n ==> TookOne(taken, t)
    ensures n <= |taken|
  {
    ThreadsCount(taken);
    forall t | 0 <= t < n ensures t in Threads(taken) {
      assert TookOne(taken, t);
    }
    Numbers(n, Threads(taken));
  }

  ghost function Threads(taken: seq<Taken>): set<int>
  {
    set k | 0 <= k < |taken| :: taken[k].thread
  }

  lemma {:induction false} ThreadsCount(taken: seq<Taken>)
    ensures |Threads(taken)| <= |taken|
  {
    var n := |taken| - 1;
    if n >= 0 {
      ThreadsCount(taken[..n]);
      assert Threads(taken) == Threads(taken[..n]) + {taken[n].thread};
    }
  }

  lemma {:induction false} Numbers(n: nat, s: set<int>)
    requires forall t :: 0 <= t < n ==> t in s
    ensures n <= |s|
  {
    if n > 0 {
      Numbers(n - 1, s - {n - 1});
    }
  }

  // Threads k and down take one message each and wait before their test.
  lemma {:induction false} TakeOneEach(s: State, limit: int, r: State, k: nat)
    requires Reaches(s, limit, r) && 1 <= |s.pcs| == |r.pcs| && k < |r.pcs|
    requires forall t :: 0 <= t < |r.pcs| ==> r.pcs[t] == if t <= k then Check else Size(false)
    requires |r.queue| > k + 1 && |r.queue| > limit - r.counter
    ensures MessagesStay(s, limit)
    decreases k
  {
    if k == 0 {
      TakeTheRest(s, limit, r);
    } else {
      var r3 := TakeAndWait(s, limit, r, k);
      TakeOneEach(s, limit, r3, k - 1);
    }
  }

  lemma TakeAndWait(s: State, limit: int, r: State, t: nat) returns (r3: State)
    requires Reaches(s, limit, r) && t < |s.pcs| == |r.pcs| && r.queue != [] && r.pcs[t] == Check
    ensures Reaches(s, limit, r3) && r3.queue == r.queue[1..] && r3.counter == r.counter + 1
    ensures r3.pcs == r.pcs[t := Size(false)]
  {
    var r1 := Next(r, limit, t);
    ReachesStep(s, limit, r, t);
    var r2 := Next(r1, limit, t);
    ReachesStep(s, limit, r1, t);
    r3 := Next(r2, limit, t);
    ReachesStep(s, limit, r2, t);
  }

  // Then thread 0 goes on until the limit is reached, and all leave.
  lemma {:induction false} TakeTheRest(s: State, limit: int, r: State)
    requires Reaches(s, limit, r) && 1 <= |s.pcs| == |r.pcs| && r.pcs[0] == Check
    requires forall t :: 0 < t < |r.pcs| ==> r.pcs[t] == Size(false)
    requires |r.queue| > 1 && |r.queue| > limit - r.counter
    ensures MessagesStay(s, limit)
    decreases |r.queue|
  {
    var r5 := TakeOne(s, limit, r);
    if r5.pcs[0] == Check {
      TakeTheRest(s, limit, r5);
    } else {
      LeaveAll(s, limit, r5, 1);
    }
  }

  lemma {:induction false} LeaveAll(s: State, limit: int, r: State, k: nat)
    requires Reaches(s, limit, r) && 1 <= |s.pcs| == |r.pcs| && k <= |r.pcs| && r.queue != [] && r.counter >= limit
    requires forall t :: 0 <= t < |r.pcs| ==> r.pcs[t] == if t < k then Left else Size(false)
    ensures MessagesStay(s, limit)
    decreases |r.pcs| - k
  {
    if k == |r.pcs| {
      assert AllLeft(r);
    } else {
      var r1 := Next(r, limit, k);
      ReachesStep(s, limit, r, k);
      ReachesStep(s, limit, r1, k);
      LeaveAll(s, limit, Next(r1, limit, k), k + 1);
    }
  }

  // ---------- the program ----------

  // concurrent_queue: every method holds the mutex from its first to its last statement.
  class ConcurrentQueue<T> {
    var items: seq<T>

    constructor ()
      ensures items == []
    {
      items := [];
    }

    method Push(data: T)
      modifies this
      ensures items == old(items) + [data]
    {
      items := items + [data];
    }

    method Empty() returns (empty: bool)
      ensures empty <==> items == []
    {
      empty := |items| == 0;
    }

    method Count() returns (n: nat)
      ensures n == |items|
    {
      n := |items|;
    }

    method TryPop() returns (popped: Option<T>)
      modifies this
      ensures old(items) == [] ==> popped == None && items == []
      ensures old(items) != [] ==> popped == Some(old(items)[0]) && items == old(items)[1..]
    {
      if |items| == 0 {
        return None;
      }
      popped := Some(items[0]);
      items := items[1..];
    }
  }

  class ProducerCli {
    const limit: int
    const volumes: ConcurrentQueue<Message>
    var counter: int
    var pcs: seq<PC>
    ghost var taken: seq<Taken>
    ghost var failed: nat

    ghost function Abs(): State
      reads this, volumes
    {
      State(volumes.items, taken, failed, counter, pcs)
    }

    // ReadyProducer and the thread creation of ForkProducer.
    constructor (input: seq<Message>, threads: nat, limit: int)
      ensures fresh(volumes) && this.limit == limit && |pcs| == threads && Initial(Abs(), input)
    {
      this.limit := limit;
      volumes := new ConcurrentQueue();
      counter, taken, failed := 0, [], 0;
      pcs := seq(threads, _ => Check);
      new;
      var i := 0;
      while i < |input|
        invariant 0 <= i <= |input| && volumes.items == input[..i]
        modifies volumes
      {
        volumes.Push(input[i]);
        i := i + 1;
      }
      assert input[..i] == input;
    }

    // One atomic step of thread t of WaitProducer.
    method Step(t: nat)
      requires t < |pcs|
      modifies this, volumes
      ensures Abs() == Next(old(Abs()), limit, t)
    {
      match pcs[t]
      case Check =>
        var empty := volumes.Empty();
        pcs := pcs[t := if !empty then Increment else Size(true)];
      case Increment =>
        counter := counter + 1;
        pcs := pcs[t := Pop];
      case Pop =>
        var popped := volumes.TryPop();
        match popped {
          case Some(message) => taken := taken + [Taken(t, message)];
          case None => failed := failed + 1;
        }
        pcs := pcs[t := Size(false)];
      case Size(e) =>
        var _ := volumes.Count();
        pcs := pcs[t := Test(e)];
      case Test(_) =>
        pcs := pcs[t := if counter >= limit then Left else Check];
      case Left =>
    }

    /** Runs any interleaving: the threads in the order of the schedule, those that have left
        being passed over. The state afterwards is the one after all steps of the schedule. */
    method Run(schedule: seq<nat>, ghost input: seq<Message>) returns (ghost steps: nat)
      requires Initial(Abs(), input)
      requires forall i :: 0 <= i < |schedule| ==> schedule[i] < |pcs|
      modifies this, volumes
      ensures |pcs| == |old(pcs)| && Abs() == After(old(Abs()), limit, schedule)
      ensures steps == Moves(old(Abs()), limit, schedule)
      ensures Inv(Abs(), limit, input)
      ensures (forall t :: 0 <= t < |pcs| ==> pcs[t] == Left) && |pcs| >= 1 && |input| <= limit ==>
        volumes.items == [] && Messages(taken) == input
      ensures |pcs| >= 1 ==> counter <= |input| + |pcs| - 1
      ensures |pcs| >= 1 && limit <= |input| ==> steps <= 5 * (|input| + |pcs| - 1) + 3 * |pcs|
    {
      steps := RunSteps(schedule);
      InvAfter(old(Abs()), limit, input, schedule);
      if |pcs| >= 1 {
        CounterBound(Abs(), limit, input);
        if limit <= |input| {
          MovesAreBounded(old(Abs()), limit, input, schedule);
        }
        if |input| <= limit && forall t :: 0 <= t < |pcs| ==> pcs[t] == Left {
          DrainedAtTheEnd(Abs(), limit, input);
        }
      }
    }

    method RunSteps(schedule: seq<nat>) returns (ghost steps: nat)
      requires forall i :: 0 <= i < |schedule| ==> schedule[i] < |pcs|
      modifies this, volumes
      ensures Abs() == After(old(Abs()), limit, schedule) && steps == Moves(old(Abs()), limit, schedule)
    {
      ghost var s := Abs();
      steps := 0;
      var i := 0;
      assert schedule[..0] == [];
      while i < |schedule|
        invariant 0 <= i <= |schedule| && |pcs| == |s.pcs|
        invariant Abs() == After(s, limit, schedule[..i]) && steps == Moves(s, limit, schedule[..i])
      {
        var t := schedule[i];
        assert schedule[..i+1][..i] == schedule[..i];
        if pcs[t] != Left {
          Step(t);
          steps := steps + 1;
        } else {
          LeftStays(Abs(), limit, t);
        }
        i := i + 1;
      }
      assert schedule[..i] == schedule;
    }
  }
}
