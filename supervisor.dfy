/** The reconciliation loop of program.run: one pass over the loaded registry
    that launches a retry cycle for every entry whose command is not running,
    and the start, wait, check, retry cycle that each launched entry runs. */
module Supervisor {
  import opened Text
  import opened Registry
  import opened LogName

  /** What one iteration of the retry loop met: Start returned an error; Start
      succeeded but IsRunning said no after the 2-second wait; or Start
      succeeded and IsRunning said yes. */
  datatype Outcome = StartFailed | ExitedEarly | StayedUp

  /** One iteration of the retry loop: the clock reading at which Start ran,
      which its log file is named after, and what the iteration met. */
  datatype Attempt = Attempt(at: DateTime, outcome: Outcome)

  /** The observable steps of a cycle. */
  datatype Event =
    | Start(at: DateTime, ok: bool)     // Command.Start, run at `at`
    | Backoff                           // time.Sleep(5 s) after a failed Start
    | Settle                            // time.Sleep(2 s) after a successful Start
    | Probe(running: bool)              // IsRunning after that wait

  /** The steps of one iteration of the retry loop. */
  function AttemptEvents(a: Attempt): seq<Event>
  {
    match a.outcome
    case StartFailed => [Start(a.at, false), Backoff]
    case ExitedEarly => [Start(a.at, true), Settle, Probe(false)]
    case StayedUp => [Start(a.at, true), Settle, Probe(true)]
  }

  /** The steps of a whole cycle: iterations follow each other until one finds
      the command running. When `attempts` runs out first, the cycle is still
      retrying and the trace is the part observed so far. */
  function CycleTrace(attempts: seq<Attempt>): seq<Event>
  {
    if attempts == [] then []
    else if attempts[0].outcome == StayedUp then AttemptEvents(attempts[0])
    else AttemptEvents(attempts[0]) + CycleTrace(attempts[1..])
  }

  /** The retry loop of the goroutine run() launches for an entry. Each
      element of `attempts` decides what one iteration meets. Returns the
      steps taken and whether the loop ended because the command was running. */
  method RetryCycle(attempts: seq<Attempt>) returns (trace: seq<Event>, settled: bool)
    ensures trace == CycleTrace(attempts)
    ensures settled <==> exists k :: 0 <= k < |attempts| && attempts[k].outcome == StayedUp
  {
    trace, settled := [], false;
    var i := 0;
    while i < |attempts|
      invariant 0 <= i <= |attempts|
      invariant forall k :: 0 <= k < i ==> attempts[k].outcome != StayedUp
      invariant trace + CycleTrace(attempts[i..]) == CycleTrace(attempts)
    {
      var a := attempts[i];
      ghost var before := trace;
      TraceAdvance(trace, attempts, i);
      i := i + 1;
      if a.outcome == StartFailed {
        trace := trace + [Start(a.at, false), Backoff];
        assert trace == before + AttemptEvents(a);
        continue;
      }
      trace := trace + [Start(a.at, true), Settle];
      var running := a.outcome == StayedUp;
      trace := trace + [Probe(running)];
      assert trace == before + AttemptEvents(a);
      if !running {
        continue;
      }
      assert attempts[i - 1].outcome == StayedUp;
      settled := true;
      break;
    }
    if !settled {
      assert attempts[i..] == [];
    }
  }

  /** The loop step: the trace so far plus the steps of iteration `i` is the
      whole cycle when `i` finds the command running, and otherwise still
      extends to it. */
  lemma TraceAdvance(before: seq<Event>, attempts: seq<Attempt>, i: nat)
    requires i < |attempts| && before + CycleTrace(attempts[i..]) == CycleTrace(attempts)
    ensures attempts[i].outcome == StayedUp ==> before + AttemptEvents(attempts[i]) == CycleTrace(attempts)
    ensures attempts[i].outcome != StayedUp ==>
      (before + AttemptEvents(attempts[i])) + CycleTrace(attempts[i + 1..]) == CycleTrace(attempts)
  {
    CycleTraceStep(attempts, i);
    if attempts[i].outcome != StayedUp {
      AppendAssoc(before, AttemptEvents(attempts[i]), CycleTrace(attempts[i + 1..]));
    }
  }

  lemma CycleTraceStep(attempts: seq<Attempt>, i: nat)
    requires i < |attempts|
    ensures CycleTrace(attempts[i..]) ==
      if attempts[i].outcome == StayedUp then AttemptEvents(attempts[i])
      else AttemptEvents(attempts[i]) + CycleTrace(attempts[i + 1..])
  {
    assert attempts[i..][0] == attempts[i] && attempts[i..][1..] == attempts[i + 1..];
  }

  /** How many iterations a cycle runs: up to and including the first one
      that finds the command running, or all of them. */
  function Consumed(attempts: seq<Attempt>): (n: nat)
    ensures n <= |attempts| && (attempts != [] ==> n >= 1)
  {
    if attempts == [] then 0
    else if attempts[0].outcome == StayedUp then 1
    else 1 + Consumed(attempts[1..])
  }

  /** The number of iterations whose Start failed among `attempts`. */
  function Failures(attempts: seq<Attempt>): nat
  {
    if attempts == [] then 0
    else (if attempts[0].outcome == StartFailed then 1 else 0) + Failures(attempts[1..])
  }

  function CountStarts(trace: seq<Event>): nat
  {
    if trace == [] then 0 else (if trace[0].Start? then 1 else 0) + CountStarts(trace[1..])
  }

  function CountBackoffs(trace: seq<Event>): nat
  {
    if trace == [] then 0 else (if trace[0] == Backoff then 1 else 0) + CountBackoffs(trace[1..])
  }

  function CountSettles(trace: seq<Event>): nat
  {
    if trace == [] then 0 else (if trace[0] == Settle then 1 else 0) + CountSettles(trace[1..])
  }

  function CountProbes(trace: seq<Event>): nat
  {
    if trace == [] then 0 else (if trace[0].Probe? then 1 else 0) + CountProbes(trace[1..])
  }

  lemma {:induction false} CountsAppend(a: seq<Event>, b: seq<Event>)
    ensures CountStarts(a + b) == CountStarts(a) + CountStarts(b)
    ensures CountBackoffs(a + b) == CountBackoffs(a) + CountBackoffs(b)
    ensures CountSettles(a + b) == CountSettles(a) + CountSettles(b)
    ensures CountProbes(a + b) == CountProbes(a) + CountProbes(b)
  {
    if a == [] {
      assert a + b == b;
    } else {
      assert (a + b)[1..] == a[1..] + b;
      CountsAppend(a[1..], b);
    }
  }

  lemma CountsSingle(e: Event)
    ensures CountStarts([e]) == (if e.Start? then 1 else 0)
    ensures CountBackoffs([e]) == (if e == Backoff then 1 else 0)
    ensures CountSettles([e]) == (if e == Settle then 1 else 0)
    ensures CountProbes([e]) == (if e.Probe? then 1 else 0)
    ensures StartTimes([e]) == if e.Start? then [e.at] else []
  {
    assert [e][1..] == [];
  }

  /** The steps of one iteration: one Start, at the iteration's own clock
      reading, then a backoff if it failed, or a wait and a check if not. */
  lemma AttemptCounts(a: Attempt)
    ensures var b, f := AttemptEvents(a), if a.outcome == StartFailed then 1 else 0;
      CountStarts(b) == 1 && CountBackoffs(b) == f && CountSettles(b) == 1 - f && CountProbes(b) == 1 - f &&
      StartTimes(b) == [a.at]
  {
    var b := AttemptEvents(a);
    CountsSingle(b[0]);
    CountsSingle(b[1]);
    if a.outcome == StartFailed {
      assert b == [b[0]] + [b[1]];
      CountsAppend([b[0]], [b[1]]);
      StartTimesAppend([b[0]], [b[1]]);
    } else {
      CountsSingle(b[2]);
      assert b == [b[0]] + ([b[1]] + [b[2]]);
      CountsAppend([b[1]], [b[2]]);
      StartTimesAppend([b[1]], [b[2]]);
      CountsAppend([b[0]], [b[1]] + [b[2]]);
      StartTimesAppend([b[0]], [b[1]] + [b[2]]);
    }
  }

  /** Counting the steps of a cycle: one Start per iteration run, one 5-second
      backoff per failed Start, and one 2-second wait followed by one IsRunning
      check per successful Start. */
  lemma {:induction false} CycleCounts(attempts: seq<Attempt>)
    ensures var tr, n := CycleTrace(attempts), Consumed(attempts);
      CountStarts(tr) == n &&
      CountBackoffs(tr) == Failures(attempts[..n]) &&
      CountSettles(tr) == n - Failures(attempts[..n]) &&
      CountProbes(tr) == n - Failures(attempts[..n])
  {
    if attempts != [] {
      var a := attempts[0];
      var n := Consumed(attempts);
      AttemptCounts(a);
      assert attempts[..n][0] == a;
      if a.outcome == StayedUp {
        assert attempts[..n][1..] == [];
      } else {
        CycleCounts(attempts[1..]);
        CountsAppend(AttemptEvents(a), CycleTrace(attempts[1..]));
        assert attempts[..n][1..] == attempts[1..][..n - 1];
      }
    }
  }

  /** The ordering a cycle's steps obey at position `i`:
      a failed Start is followed by a backoff, and a backoff by the next Start
      or nothing, never by an IsRunning check; a successful Start is followed
      by the 2-second wait and then exactly one IsRunning check; a "not
      running" answer is followed by the next Start (no backoff) or nothing,
      and a "running" answer by nothing at all. */
  predicate StepOrdered(tr: seq<Event>, i: nat)
    requires i < |tr|
  {
    match tr[i]
    case Start(_, ok) =>
      if ok then i + 2 < |tr| && tr[i + 1] == Settle && tr[i + 2].Probe?
      else i + 1 < |tr| && tr[i + 1] == Backoff
    case Backoff => 0 < i && tr[i - 1].Start? && !tr[i - 1].ok && (i + 1 == |tr| || tr[i + 1].Start?)
    case Settle => 0 < i && tr[i - 1].Start? && tr[i - 1].ok
    case Probe(running) =>
      1 < i && tr[i - 1] == Settle &&
      if running then i + 1 == |tr| else (i + 1 == |tr| || tr[i + 1].Start?)
  }

  predicate Ordered(tr: seq<Event>) {
    (tr != [] ==> tr[0].Start?) && forall i :: 0 <= i < |tr| ==> StepOrdered(tr, i)
  }

  lemma AttemptOrdered(a: Attempt)
    ensures Ordered(AttemptEvents(a))
  {
    var b := AttemptEvents(a);
    forall i | 0 <= i < |b| ensures StepOrdered(b, i) {
    }
  }

  /** Within the steps of an iteration that did not find the command
      running, followed by an ordered trace, the order holds. */
  lemma OrderedInBlock(a: Attempt, rest: seq<Event>, i: nat)
    requires a.outcome != StayedUp && Ordered(rest)
    requires i < |AttemptEvents(a)|
    ensures StepOrdered(AttemptEvents(a) + rest, i)
  {
    var b := AttemptEvents(a);
    var tr := b + rest;
    assert forall k :: 0 <= k < |b| ==> tr[k] == b[k];
    if rest != [] {
      assert tr[|b|] == rest[0];
    }
  }

  /** Steps of an ordered trace stay ordered behind any prefix, since a Start
      looks at nothing before it. */
  lemma OrderedInRest(b: seq<Event>, rest: seq<Event>, i: nat)
    requires Ordered(rest) && |b| <= i < |b| + |rest|
    ensures StepOrdered(b + rest, i)
  {
    var tr, j := b + rest, i - |b|;
    assert StepOrdered(rest, j);
    assert forall k :: 0 <= k < |rest| ==> tr[|b| + k] == rest[k];
  }

  /** An iteration that did not find the command running, followed by an
      ordered trace, gives an ordered trace. */
  lemma PrependOrdered(a: Attempt, rest: seq<Event>)
    requires a.outcome != StayedUp && Ordered(rest)
    ensures Ordered(AttemptEvents(a) + rest)
  {
    var b := AttemptEvents(a);
    forall i | 0 <= i < |b + rest| ensures StepOrdered(b + rest, i) {
      if i < |b| {
        OrderedInBlock(a, rest, i);
      } else {
        OrderedInRest(b, rest, i);
      }
    }
  }

  /** Every cycle's steps are ordered as StepOrdered says, so in particular a
      cycle never checks liveness right after a failed Start, never backs off
      after an early exit, and stops at the first "running" answer. */
  lemma {:induction false} CycleOrdered(attempts: seq<Attempt>)
    ensures Ordered(CycleTrace(attempts))
  {
    if attempts != [] {
      var a := attempts[0];
      if a.outcome == StayedUp {
        AttemptOrdered(a);
      } else {
        CycleOrdered(attempts[1..]);
        PrependOrdered(a, CycleTrace(attempts[1..]));
      }
    }
  }

  /** The clock readings of the Start steps of a trace, in order. */
  function StartTimes(trace: seq<Event>): seq<DateTime>
  {
    if trace == [] then []
    else (if trace[0].Start? then [trace[0].at] else []) + StartTimes(trace[1..])
  }

  lemma {:induction false} StartTimesAppend(a: seq<Event>, b: seq<Event>)
    ensures StartTimes(a + b) == StartTimes(a) + StartTimes(b)
  {
    if a == [] {
      assert a + b == b;
    } else {
      var head := if a[0].Start? then [a[0].at] else [];
      assert (a + b)[0] == a[0] && (a + b)[1..] == a[1..] + b;
      StartTimesAppend(a[1..], b);
      AppendAssoc(head, StartTimes(a[1..]), StartTimes(b));
    }
  }

  /** The Starts of a cycle run at the clock readings of the iterations it
      consumed, in order, so the k-th Start of a cycle for entry `name` opens
      the log file AttemptLogName(name, attempts[k].at). */
  lemma {:induction false} CycleStartTimes(attempts: seq<Attempt>)
    ensures var times := StartTimes(CycleTrace(attempts));
      |times| == Consumed(attempts) &&
      forall k :: 0 <= k < |times| ==> times[k] == attempts[k].at
  {
    if attempts != [] {
      var a := attempts[0];
      AttemptCounts(a);
      if a.outcome != StayedUp {
        CycleStartTimes(attempts[1..]);
        StartTimesAppend(AttemptEvents(a), CycleTrace(attempts[1..]));
        assert StartTimes(CycleTrace(attempts)) == [a.at] + StartTimes(CycleTrace(attempts[1..]));
      }
    }
  }

  /** Iterations that start in different seconds write to different log
      files, so no iteration of a cycle appends to the log of another. */
  lemma CycleLogsDistinct(name: string, attempts: seq<Attempt>)
    requires forall k :: 0 <= k < |attempts| ==> Valid(attempts[k].at) && attempts[k].at.year >= 0
    requires forall k, l :: 0 <= k < l < |attempts| ==> attempts[k].at != attempts[l].at
    ensures var times := StartTimes(CycleTrace(attempts));
      forall k, l :: 0 <= k < l < |times| ==> AttemptLogName(name, times[k]) != AttemptLogName(name, times[l])
  {
    CycleStartTimes(attempts);
    var times := StartTimes(CycleTrace(attempts));
    forall k, l | 0 <= k < l < |times| ensures AttemptLogName(name, times[k]) != AttemptLogName(name, times[l]) {
      if AttemptLogName(name, times[k]) == AttemptLogName(name, times[l]) {
        AttemptLogNameInjective(name, times[k], name, times[l]);
      }
    }
  }

  /** Start fails twice, then succeeds and the command is running: three
      Starts, two 5-second backoffs, one 2-second wait and one liveness check,
      and nothing after the "running" answer. */
  lemma FailFailThenUp(t0: DateTime, t1: DateTime, t2: DateTime, later: seq<Attempt>)
    ensures var tr := CycleTrace([Attempt(t0, StartFailed), Attempt(t1, StartFailed), Attempt(t2, StayedUp)] + later);
      tr == [Start(t0, false), Backoff, Start(t1, false), Backoff, Start(t2, true), Settle, Probe(true)] &&
      CountStarts(tr) == 3 && CountBackoffs(tr) == 2 && CountSettles(tr) == 1 && CountProbes(tr) == 1
  {
    var a0, a1, a2 := Attempt(t0, StartFailed), Attempt(t1, StartFailed), Attempt(t2, StayedUp);
    var r2 := [a2] + later;
    var r1 := [a1] + r2;
    var attempts := [a0] + r1;
    assert attempts == [a0, a1, a2] + later;
    CycleCons(a0, r1);
    CycleCons(a1, r2);
    CycleCons(a2, later);
    var used := attempts[..3];
    assert used == [a0] + ([a1] + ([a2] + []));
    CycleCons(a0, [a1] + ([a2] + []));
    CycleCons(a1, [a2] + []);
    CycleCons(a2, []);
    CycleCounts(attempts);
  }

  /** One unfolding of the cycle functions on an iteration `a` followed by `rest`. */
  lemma CycleCons(a: Attempt, rest: seq<Attempt>)
    ensures CycleTrace([a] + rest) ==
      if a.outcome == StayedUp then AttemptEvents(a) else AttemptEvents(a) + CycleTrace(rest)
    ensures Consumed([a] + rest) == if a.outcome == StayedUp then 1 else 1 + Consumed(rest)
    ensures Failures([a] + rest) == (if a.outcome == StartFailed then 1 else 0) + Failures(rest)
  {
    assert ([a] + rest)[0] == a && ([a] + rest)[1..] == rest;
  }

  /** One pass of run(): walks the loaded entries in order and launches a
      retry cycle (records the entry's index) for each entry whose command
      IsRunning reports as not running. `running[i]` is the answer of the
      `pgrep -f` query made when the pass reaches entry `i`; each entry gets
      its own answer, so two entries with the same command can get different
      ones (the first one's cycle may already have started its command). */
  method RunPass(pmList: seq<Command>, running: seq<bool>) returns (launched: seq<nat>)
    requires |running| == |pmList|
    ensures forall k :: 0 <= k < |launched| ==> launched[k] < |pmList| && !running[launched[k]]
    ensures forall i :: 0 <= i < |pmList| && !running[i] ==> i in launched
    ensures forall k, l :: 0 <= k < l < |launched| ==> launched[k] < launched[l]
  {
    launched := [];
    var i := 0;
    while i < |pmList|
      invariant 0 <= i <= |pmList|
      invariant forall k :: 0 <= k < |launched| ==> launched[k] < i && !running[launched[k]]
      invariant forall j :: 0 <= j < i && !running[j] ==> j in launched
      invariant forall k, l :: 0 <= k < l < |launched| ==> launched[k] < launched[l]
    {
      if running[i] {
        i := i + 1;
        continue;
      }
      launched := launched + [i];
      i := i + 1;
    }
  }

  /** One iteration of run()'s outer loop, up to the wait: load the registry,
      and launch cycles over whatever entries the load returned, even when it
      also returned an error. `running` holds one IsRunning answer per entry
      the load returns. */
  method ReconcilePass(path: string, open: OpenResult, tokens: seq<string>, scanErr: Option<string>, running: seq<bool>)
    returns (pmList: seq<Command>, err: Option<LoadError>, launched: seq<nat>)
    requires |running| == if open.Opened? then |ParseLines(tokens)| else 0
    ensures pmList == (if open.Opened? then ParseLines(tokens) else [])
    ensures err.None? <==> (open.Opened? && scanErr.None?) || open.NotExist?
    ensures forall k :: 0 <= k < |launched| ==> launched[k] < |pmList| && !running[launched[k]]
    ensures forall i :: 0 <= i < |pmList| && !running[i] ==> i in launched
    ensures forall k, l :: 0 <= k < l < |launched| ==> launched[k] < launched[l]
  {
    pmList, err := LoadPmList(path, open, tokens, scanErr);
    launched := RunPass(pmList, running);
  }
}
