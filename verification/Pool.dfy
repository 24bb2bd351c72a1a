/** The connection pool's list of idle connections to one server. Each method but Connected is one
    critical section under the manager's lock; a new connection is set up outside the lock. */
module Pool {

  // A node of the idle list, head first.
  datatype Idle = Idle(conn: nat, atime: int)

  datatype Outcome = Reuse(conn: nat) | Connect(conn: nat) | NoSpace | NoMemory

  // What a pool holds; its count is that of all four kinds of connections.
  datatype PoolState = PoolState(idle: seq<Idle>, lent: set<nat>, connecting: set<nat>, failed: nat, made: nat,
                                 clock: int)

  ghost function Total(s: PoolState): nat { |s.idle| + |s.lent| + |s.connecting| + s.failed }

  class ConnectionManager {
    var idle: seq<Idle>
    var totalCount: int
    var freeCount: int
    // What callers hold, what is being connected, and how many attempts have failed so far.
    var lent: set<nat>
    var connecting: set<nat>
    ghost var failed: nat
    // Every connection made so far has a smaller number.
    var made: nat
    // The last reading of the clock under the lock.
    var clock: int

    ghost predicate Valid(limit: int)
      reads this
    {
      && freeCount == |idle|
      && totalCount == |idle| + |lent| + |connecting| + failed
      && (limit > 0 ==> totalCount <= limit)
      && lent !! connecting
      && (forall i :: 0 <= i < |idle| ==> idle[i].conn !in lent && idle[i].conn !in connecting && idle[i].conn < made)
      && (forall i, j :: 0 <= i < j < |idle| ==> idle[i].conn != idle[j].conn)
      && (forall c :: c in lent + connecting ==> c < made)
      && LatestFirst(idle) && (|idle| > 0 ==> idle[0].atime <= clock)
    }

    ghost function Abs(): PoolState
      reads this
    {
      PoolState(idle, lent, connecting, failed, made, clock)
    }

    constructor (now: int, limit: int)
      ensures Valid(limit) && idle == [] && lent == {} && connecting == {} && failed == 0
    {
      idle, totalCount, freeCount, made := [], 0, 0, 0;
      lent, connecting, failed, clock := {}, {}, 0, now;
    }

    /** The locked part of conn_pool_get_connection, for a caller that read the clock before. Either
        the head of the list is still young enough at that time and is handed out, or the whole
        list is closed. */
    method Get(now: int, limit: int, maxIdle: int, memory: bool) returns (r: Outcome)
      requires Valid(limit)
      modifies this`idle, this`freeCount, this`totalCount, this`lent, this`connecting, this`made
      ensures Valid(limit) && failed == old(failed) && clock == old(clock) && made >= old(made)
      ensures r.Reuse? <==> |old(idle)| > 0 && now - old(idle)[0].atime <= maxIdle
      ensures r.Reuse? ==>
        && r.conn == old(idle)[0].conn && idle == old(idle)[1..] && lent == old(lent) + {r.conn}
        && connecting == old(connecting) && totalCount == old(totalCount)
      ensures !r.Reuse? ==> idle == [] && lent == old(lent)
      ensures r == NoSpace <==> !r.Reuse? && limit > 0 && old(totalCount) - |old(idle)| >= limit
      ensures r == NoMemory ==> !memory
      ensures r.Connect? ==> memory && r.conn !in old(connecting) && connecting == old(connecting) + {r.conn}
      ensures if r.Connect? then r.conn == old(made) && made == old(made) + 1 else made == old(made)
      ensures !r.Connect? ==> connecting == old(connecting)
      ensures r.Connect? ==> totalCount == old(totalCount) - |old(idle)| + 1
      ensures r == NoSpace || r == NoMemory ==> totalCount == old(totalCount) - |old(idle)|
    {
      CloseOld(now, maxIdle, limit);
      if |idle| == 0 {
        r := Begin(limit, memory);
      } else {
        r := LendHead(limit);
      }
    }

    // The rounds of its loop that close the head and go on. The list is sorted, latest first, so
    // if the head is too old, all are.
    method CloseOld(now: int, maxIdle: int, ghost limit: int)
      requires Valid(limit)
      modifies this`idle, this`freeCount, this`totalCount
      ensures Valid(limit)
      ensures idle == if |old(idle)| > 0 && now - old(idle)[0].atime <= maxIdle then old(idle) else []
      ensures totalCount == old(totalCount) - |old(idle)| + |idle|
    {
      ghost var list, n := idle, 0;
      while |idle| > 0 && now - idle[0].atime > maxIdle
        invariant 0 <= n <= |list| && idle == list[n..] && Valid(limit)
        invariant n > 0 ==> now - list[0].atime > maxIdle
        invariant totalCount == old(totalCount) - n
        decreases |idle|
      {
        CloseHead(limit);
        n := n + 1;
      }
    }

    // The parts of that section: a new node, an idle one closed, an idle one handed out.
    method Begin(limit: int, memory: bool) returns (r: Outcome)
      requires Valid(limit) && idle == []
      modifies this`connecting, this`made, this`totalCount
      ensures Valid(limit)
      ensures r == if limit > 0 && old(totalCount) >= limit then NoSpace
                   else if !memory then NoMemory else Connect(old(made))
      ensures r.Connect? ==> made == old(made) + 1 && totalCount == old(totalCount) + 1
      ensures r.Connect? ==> old(made) !in old(connecting) && connecting == old(connecting) + {old(made)}
      ensures !r.Connect? ==> made == old(made) && totalCount == old(totalCount) && connecting == old(connecting)
    {
      if limit > 0 && totalCount >= limit {
        return NoSpace;
      }
      if !memory {
        return NoMemory;
      }
      r := Connect(made);
      connecting := connecting + {made};
      made := made + 1;
      totalCount := totalCount + 1;
    }

    method CloseHead(ghost limit: int)
      requires Valid(limit) && |idle| > 0
      modifies this`idle, this`freeCount, this`totalCount
      ensures Valid(limit) && idle == old(idle)[1..] && totalCount == old(totalCount) - 1
    {
      idle := idle[1..];
      freeCount := freeCount - 1;
      totalCount := totalCount - 1;
    }

    method LendHead(ghost limit: int) returns (r: Outcome)
      requires Valid(limit) && |idle| > 0
      modifies this`idle, this`freeCount, this`lent
      ensures Valid(limit) && idle == old(idle)[1..] && r == Reuse(old(idle)[0].conn)
      ensures lent == old(lent) + {old(idle)[0].conn}
    {
      r := Reuse(idle[0].conn);
      lent := lent + {idle[0].conn};
      idle := idle[1..];
      freeCount := freeCount - 1;
    }

    /** The end of an attempt to connect. If it fails, the count of connections stays as it is, and
        never comes down again. */
    method Connected(conn: nat, ok: bool, ghost limit: int)
      requires Valid(limit) && conn in connecting
      modifies this`lent, this`connecting, this`failed
      ensures Valid(limit) && connecting == old(connecting) - {conn}
      ensures lent == if ok then old(lent) + {conn} else old(lent)
      ensures failed == if ok then old(failed) else old(failed) + 1
    {
      connecting := connecting - {conn};
      if ok {
        lent := lent + {conn};
      } else {
        failed := failed + 1;
      }
    }

    // The locked part of conn_pool_close_connection_ex. The clock is read under the lock.
    method Close(conn: nat, now: int, force: bool, ghost limit: int)
      requires Valid(limit) && conn in lent && now >= clock
      modifies this
      ensures Valid(limit) && lent == old(lent) - {conn} && clock == now
      ensures connecting == old(connecting) && failed == old(failed) && made == old(made)
      ensures idle == if force then old(idle) else [Idle(conn, now)] + old(idle)
      ensures totalCount == if force then old(totalCount) - 1 else old(totalCount)
    {
      if force {
        totalCount := totalCount - 1;
      } else {
        idle := [Idle(conn, now)] + idle;
        freeCount := freeCount + 1;
      }
      lent := lent - {conn};
      clock := now;
    }
  }

  ghost predicate LatestFirst(idle: seq<Idle>)
  {
    forall i, j :: 0 <= i < j < |idle| ==> idle[i].atime >= idle[j].atime
  }

  // ---------- whole runs ----------

  // Steps of any number of callers, in the order in which they get the lock or finish connecting.
  datatype Step =
    | DoGet(now: int, memory: bool)
    | DoConnected(conn: nat, ok: bool)
    | DoClose(conn: nat, now: int, force: bool)

  predicate Possible(m: ConnectionManager, s: Step)
    reads m
  {
    match s
    case DoGet(_, _) => true
    case DoConnected(c, _) => c in m.connecting
    case DoClose(c, now, _) => c in m.lent && now >= m.clock
  }

  // The state after a step, and the answer if it is a request; what is not possible does nothing.
  ghost function AfterStep(s: PoolState, step: Step, limit: int, maxIdle: int): PoolState
  {
    match step
    case DoGet(now, memory) =>
      if HeadIsYoung(s, now, maxIdle) then s.(idle := s.idle[1..], lent := s.lent + {s.idle[0].conn})
      else if AnswerTo(s, now, memory, limit, maxIdle).Connect? then
        s.(idle := [], connecting := s.connecting + {s.made}, made := s.made + 1)
      else s.(idle := [])
    case DoConnected(c, ok) =>
      if c !in s.connecting then s
      else if ok then s.(connecting := s.connecting - {c}, lent := s.lent + {c})
      else s.(connecting := s.connecting - {c}, failed := s.failed + 1)
    case DoClose(c, now, force) =>
      if c !in s.lent || now < s.clock then s
      else if force then s.(lent := s.lent - {c}, clock := now)
      else s.(lent := s.lent - {c}, clock := now, idle := [Idle(c, now)] + s.idle)
  }

  ghost predicate HeadIsYoung(s: PoolState, now: int, maxIdle: int)
  {
    |s.idle| > 0 && now - s.idle[0].atime <= maxIdle
  }

  ghost function AnswerTo(s: PoolState, now: int, memory: bool, limit: int, maxIdle: int): Outcome
  {
    if HeadIsYoung(s, now, maxIdle) then Reuse(s.idle[0].conn)
    else if limit > 0 && Total(s.(idle := [])) >= limit then NoSpace
    else if !memory then NoMemory
    else Connect(s.made)
  }

  ghost function AfterSteps(s: PoolState, steps: seq<Step>, limit: int, maxIdle: int): PoolState
  {
    var n := |steps| - 1;
    if n < 0 then s else AfterStep(AfterSteps(s, steps[..n], limit, maxIdle), steps[n], limit, maxIdle)
  }

  ghost function AnswersTo(s: PoolState, steps: seq<Step>, limit: int, maxIdle: int): seq<Outcome>
  {
    var n := |steps| - 1;
    if n < 0 then [] else
      AnswersTo(s, steps[..n], limit, maxIdle)
      + if steps[n].DoGet?
        then [AnswerTo(AfterSteps(s, steps[..n], limit, maxIdle), steps[n].now, steps[n].memory, limit, maxIdle)]
        else []
  }

  function Gets(steps: seq<Step>): nat
  {
    var n := |steps| - 1;
    if n < 0 then 0 else Gets(steps[..n]) + if steps[n].DoGet? then 1 else 0
  }

  ghost predicate Refused(answers: seq<Outcome>)
  {
    forall k :: 0 <= k < |answers| ==> answers[k] == NoSpace
  }

  /** Whatever the order of the steps, the accounts stay right: the count is that of the idle, the
      lent and the connecting connections and of all failed attempts, and respects the limit. Once
      as many attempts have failed as the limit allows, nothing is idle, lent or connecting ever
      again, and every request for a connection is answered with ENOSPC. */
  method Run(m: ConnectionManager, steps: seq<Step>, limit: int, maxIdle: int) returns (answers: seq<Outcome>)
    requires m.Valid(limit)
    modifies m
    ensures m.Abs() == AfterSteps(old(m.Abs()), steps, limit, maxIdle)
    ensures answers == AnswersTo(old(m.Abs()), steps, limit, maxIdle)
    ensures m.Valid(limit) && old(m.failed) <= m.failed
    ensures m.totalCount == |m.idle| + |m.lent| + |m.connecting| + m.failed && m.freeCount == |m.idle|
    ensures limit > 0 ==> m.totalCount <= limit
    ensures |answers| == Gets(steps)
    ensures limit > 0 && old(m.failed) >= limit ==>
      && m.idle == [] && m.lent == {} && m.connecting == {}
      && Refused(answers)
  {
    ghost var s := m.Abs();
    answers := [];
    var i := 0;
    assert steps[..0] == [];
    while i < |steps|
      invariant 0 <= i <= |steps| && m.Valid(limit)
      invariant Done(s, steps[..i], limit, maxIdle, m.Abs(), answers)
    {
      ghost var before := m.Abs();
      var answer := Perform(m, steps[i], limit, maxIdle);
      OneMoreStep(s, steps, i, limit, maxIdle, before, answers, m.Abs(), answer);
      answers := answers + answer;
      i := i + 1;
    }
    assert steps[..i] == steps;
    Exhausted(m, limit);
  }

  // What holds after some steps from s.
  ghost predicate Done(s: PoolState, steps: seq<Step>, limit: int, maxIdle: int, now: PoolState, answers: seq<Outcome>)
  {
    && now == AfterSteps(s, steps, limit, maxIdle) && s.failed <= now.failed
    && answers == AnswersTo(s, steps, limit, maxIdle) && |answers| == Gets(steps)
    && (limit > 0 && s.failed >= limit ==> Refused(answers))
  }

  lemma OneMoreStep(s: PoolState, steps: seq<Step>, i: nat, limit: int, maxIdle: int, before: PoolState,
      answers: seq<Outcome>, now: PoolState, answer: seq<Outcome>)
    requires i < |steps| && Done(s, steps[..i], limit, maxIdle, before, answers)
    requires now == AfterStep(before, steps[i], limit, maxIdle) && before.failed <= now.failed
    requires answer == if steps[i].DoGet? then [AnswerTo(before, steps[i].now, steps[i].memory, limit, maxIdle)] else []
    requires limit > 0 && before.failed >= limit ==> Refused(answer)
    ensures Done(s, steps[..i+1], limit, maxIdle, now, answers + answer)
  {
    assert steps[..i+1][..i] == steps[..i];
  }

  // One step; a step that is not possible at that point is none.
  method Perform(m: ConnectionManager, step: Step, limit: int, maxIdle: int) returns (answer: seq<Outcome>)
    requires m.Valid(limit)
    modifies m
    ensures m.Valid(limit) && old(m.failed) <= m.failed
    ensures m.Abs() == AfterStep(old(m.Abs()), step, limit, maxIdle)
    ensures answer ==
      if step.DoGet? then [AnswerTo(old(m.Abs()), step.now, step.memory, limit, maxIdle)] else []
    ensures limit > 0 && old(m.failed) >= limit && step.DoGet? ==> answer == [NoSpace]
  {
    answer := [];
    if Possible(m, step) {
      match step {
        case DoGet(now, memory) =>
          var r := Request(m, now, limit, maxIdle, memory);
          answer := [r];
        case DoConnected(c, ok) => m.Connected(c, ok, limit);
        case DoClose(c, now, force) => m.Close(c, now, force, limit);
      }
    }
  }

  method Request(m: ConnectionManager, now: int, limit: int, maxIdle: int, memory: bool) returns (r: Outcome)
    requires m.Valid(limit)
    modifies m
    ensures m.Valid(limit) && m.failed == old(m.failed)
    ensures m.Abs() == AfterStep(old(m.Abs()), DoGet(now, memory), limit, maxIdle)
    ensures r == AnswerTo(old(m.Abs()), now, memory, limit, maxIdle)
    ensures limit > 0 && old(m.failed) >= limit ==> r == NoSpace
  {
    r := m.Get(now, limit, maxIdle, memory);
  }

  // Failed attempts are never taken off the count, so they leave no room for anything else.
  lemma Exhausted(m: ConnectionManager, limit: int)
    requires m.Valid(limit)
    ensures limit > 0 && m.failed >= limit ==> m.idle == [] && m.lent == {} && m.connecting == {}
  {
  }

  /** Attempts that fail use up the limit for good: after as many of them as the limit allows, no
      further steps, whatever they are, bring a connection to the server or an attempt to make one. */
  method FailedAttemptsExhaust(limit: int, maxIdle: int, steps: seq<Step>)
    returns (m: ConnectionManager, answers: seq<Outcome>)
    requires limit > 0
    ensures m.Valid(limit) && m.failed >= limit && m.idle == [] && m.lent == {} && m.connecting == {}
    ensures |answers| == Gets(steps) && forall k :: 0 <= k < |answers| ==> answers[k] == NoSpace
  {
    m := new ConnectionManager(0, limit);
    var i := 0;
    while i < limit
      invariant 0 <= i <= limit && m.Valid(limit) && fresh(m)
      invariant m.idle == [] && m.lent == {} && m.connecting == {} && m.failed == i
    {
      var r := m.Get(0, limit, maxIdle, true);
      m.Connected(r.conn, false, limit);
      i := i + 1;
    }
    answers := Run(m, steps, limit, maxIdle);
  }
}
