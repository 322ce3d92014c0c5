/** The health client's reconnection: the backoff of one loop, and how loops, listeners and the two
    atomic flags interleave. */
module Reconnect {

  // ----- Backoff -----

  /** Durations in the clock's unit. */
  datatype Backoff = Backoff(attempts: nat, initial: nat, max: nat, multiplier: real)

  ghost predicate Configured(c: Backoff) {
    c.multiplier >= 0.0
  }

  /** The multiplication is in floating point and the result is truncated to whole units. */
  function Scale(b: nat, m: real): nat
    requires m >= 0.0
  {
    (b as real * m).Floor
  }

  function Grow(c: Backoff, b: nat): nat
    requires c.multiplier >= 0.0
  {
    var next := Scale(b, c.multiplier);
    if next > c.max then c.max else next
  }

  /** The value of `backoff` when attempt `k` is about to wait. */
  function WaitBefore(c: Backoff, k: nat): nat
    requires c.multiplier >= 0.0 && k >= 1
  {
    if k == 1 then c.initial else Grow(c, WaitBefore(c, k - 1))
  }

  function Pow(m: nat, k: nat): nat {
    if k == 0 then 1 else m * Pow(m, k - 1)
  }

  function Min(a: nat, b: nat): nat {
    if a <= b then a else b
  }

  /** Growing a capped value, then capping, is growing the uncapped one, then capping. */
  lemma GrowCapped(c: Backoff, m: nat, x: nat)
    requires m >= 1 && c.multiplier == m as real
    ensures Grow(c, x) == Min(x * m, c.max)
    ensures Grow(c, Min(x, c.max)) == Min(x * m, c.max)
  {
  }

  lemma PowStep(x: nat, m: nat, k: nat)
    requires k >= 1
    ensures x * Pow(m, k - 1) * m == x * Pow(m, k)
  {
  }

  /** With a whole multiplier, the wait before attempt `k` is the capped power. */
  lemma {:induction false} BackoffClosedForm(c: Backoff, m: nat, k: nat)
    requires m >= 1 && c.multiplier == m as real && k >= 2
    ensures WaitBefore(c, k) == Min(c.initial * Pow(m, k - 1), c.max)
  {
    PowStep(c.initial, m, k - 1);
    if k == 2 {
      GrowCapped(c, m, c.initial);
      assert c.initial * Pow(m, 0) == c.initial;
    } else {
      BackoffClosedForm(c, m, k - 1);
      GrowCapped(c, m, c.initial * Pow(m, k - 2));
    }
  }

  /** For any multiplier the next wait is the last one times the multiplier, rounded down, or the maximum. */
  lemma BackoffStep(c: Backoff, k: nat)
    requires c.multiplier >= 0.0 && k >= 1
    ensures var b, x := WaitBefore(c, k + 1), WaitBefore(c, k) as real * c.multiplier;
            b == c.max < x.Floor || (b <= c.max && b as real <= x < b as real + 1.0)
  {
  }

  function Total(waits: seq<nat>): nat {
    if waits == [] then 0 else Total(waits[..|waits| - 1]) + waits[|waits| - 1]
  }

  lemma {:induction false} TotalBounded(waits: seq<nat>, bound: nat)
    requires forall i :: 0 <= i < |waits| ==> waits[i] <= bound
    ensures Total(waits) <= |waits| * bound
  {
    if waits != [] {
      var n := |waits| - 1;
      TotalBounded(waits[..n], bound);
      assert (n + 1) * bound == n * bound + bound;
    }
  }

  /** What the outside does to one loop: whether a stop is seen at the top of attempt `k`, or while it
      waits, and whether its registration succeeds. */
  datatype World = World(stopAt: nat -> bool, stopIn: nat -> bool, accepts: nat -> bool)

  /** Attempt `k` is made and fails. */
  predicate Fails(w: World, k: nat) {
    !w.stopAt(k) && (k == 1 || !w.stopIn(k)) && !w.accepts(k)
  }

  predicate Succeeds(w: World, k: nat) {
    !w.stopAt(k) && (k == 1 || !w.stopIn(k)) && w.accepts(k)
  }

  /** A loop whose attempts all fail, or that is stopped at one, has no successful attempt. */
  lemma OnlyFirstOutcome(c: Backoff, w: World, calls: nat)
    requires forall j :: 1 <= j <= calls ==> Fails(w, j)
    requires calls < c.attempts ==> !Succeeds(w, calls + 1) && !Fails(w, calls + 1)
    ensures !exists k :: 1 <= k <= c.attempts && Succeeds(w, k) && forall j :: 1 <= j < k ==> Fails(w, j)
  {
    forall k | 1 <= k <= c.attempts && Succeeds(w, k) ensures exists j :: 1 <= j < k && !Fails(w, j) {
      assert !Fails(w, k);
      assert calls + 1 < k && !Fails(w, calls + 1);
    }
  }

  lemma FirstSuccess(c: Backoff, w: World)
    ensures (exists k :: 1 <= k <= c.attempts && Succeeds(w, k) && forall j :: 1 <= j < k ==> Fails(w, j)) <==>
            exists k :: && 1 <= k <= c.attempts && w.accepts(k) && (forall j :: 1 <= j < k ==> !w.accepts(j))
                        && forall j :: 1 <= j <= k ==> !w.stopAt(j) && (j == 1 || !w.stopIn(j))
  {
    if k :| 1 <= k <= c.attempts && Succeeds(w, k) && forall j :: 1 <= j < k ==> Fails(w, j) {
      assert w.accepts(k);
      forall j | 1 <= j <= k ensures !w.stopAt(j) && (j == 1 || !w.stopIn(j)) && (j < k ==> !w.accepts(j)) {
        assert j < k ==> Fails(w, j);
      }
    }
    if k :| && 1 <= k <= c.attempts && w.accepts(k) && (forall j :: 1 <= j < k ==> !w.accepts(j))
            && forall j :: 1 <= j <= k ==> !w.stopAt(j) && (j == 1 || !w.stopIn(j)) {
      assert Succeeds(w, k);
    }
  }

  /** One loop: it connects exactly when some attempt succeeds after every earlier one was made and failed;
      it never waits before the first attempt, and the others wait as `WaitBefore` says. */
  method AttemptReconnect(c: Backoff, w: World) returns (connected: bool, calls: nat, waits: seq<nat>)
    requires Configured(c)
    ensures calls <= c.attempts && |waits| <= if c.attempts == 0 then 0 else c.attempts - 1
    ensures forall j :: 0 <= j < |waits| ==> waits[j] == WaitBefore(c, j + 2)
    ensures Total(waits) <= |waits| * c.max
    ensures connected <==> exists k :: 1 <= k <= c.attempts && Succeeds(w, k) && forall j :: 1 <= j < k ==> Fails(w, j)
    ensures connected <==>
            exists k :: && 1 <= k <= c.attempts && w.accepts(k) && (forall j :: 1 <= j < k ==> !w.accepts(j))
                        && forall j :: 1 <= j <= k ==> !w.stopAt(j) && (j == 1 || !w.stopIn(j))
    ensures connected ==> 1 <= calls && Succeeds(w, calls)
    ensures |waits| == if calls == 0 then 0 else calls - 1
    ensures forall j :: 1 <= j <= (if connected then calls - 1 else calls) ==> Fails(w, j)
    ensures !connected && calls < c.attempts ==> w.stopAt(calls + 1) || (calls > 0 && w.stopIn(calls + 1))
  {
    connected, calls, waits := false, 0, [];
    var backoff := c.initial;
    var attempt := 1;
    while attempt <= c.attempts
      invariant 1 <= attempt <= c.attempts + 1 && calls == attempt - 1 && !connected
      invariant backoff == WaitBefore(c, attempt)
      invariant |waits| == if calls == 0 then 0 else calls - 1
      invariant forall j :: 0 <= j < |waits| ==> waits[j] == WaitBefore(c, j + 2)
      invariant forall j :: 1 <= j < attempt ==> Fails(w, j)
    {
      if w.stopAt(attempt) { break; }
      if attempt > 1 {
        if w.stopIn(attempt) { break; }
        waits := waits + [backoff];
      }
      calls := calls + 1;
      if w.accepts(attempt) {
        connected := true;
        break;
      }
      backoff := Scale(backoff, c.multiplier);
      if backoff > c.max { backoff := c.max; }
      attempt := attempt + 1;
    }
    FirstSuccess(c, w);
    if connected {
      assert Succeeds(w, calls);
    } else {
      assert calls < c.attempts ==> !Succeeds(w, calls + 1) && !Fails(w, calls + 1);
      OnlyFirstOutcome(c, w, calls);
    }
    TotalBounded(waits, c.max);
  }

  // ----- Interleavings -----

  /** One goroutine running `attemptReconnect`; `calls` counts the registrations it made. */
  datatype Worker = Spawned | Trying(calls: nat) | Leaving(calls: nat) | Done(calls: nat)
  {
    /** Between taking the `reconnecting` flag and giving it back. */
    predicate Inside() { Trying? || Leaving? }

    /** Still going to register. */
    predicate Owes() { Spawned? || Trying? }
  }

  /** A listener that lost its stream has spawned a worker but still has to clear `running`. */
  datatype Listener = Gone | Live | Dropped

  datatype Client = Client(running: bool, reconnecting: bool, listener: Listener, workers: seq<Worker>)

  datatype Step =
    | Drop
    | ClearRunning
    | Enter(i: nat)
    | Skip(i: nat)
    | Connect(i: nat)
    | AlreadyRunning(i: nat)
    | Fail(i: nat)
    | ClearReconnecting(i: nat)

  predicate At(s: Client, i: nat, w: Worker) {
    i < |s.workers| && s.workers[i] == w
  }

  predicate IsTrying(s: Client, i: nat) {
    i < |s.workers| && s.workers[i].Trying?
  }

  predicate Enabled(s: Client, step: Step) {
    match step
    case Drop => s.listener == Live
    case ClearRunning => s.listener == Dropped
    case Enter(i) => At(s, i, Spawned) && !s.reconnecting
    case Skip(i) => At(s, i, Spawned) && s.reconnecting
    case Connect(i) => IsTrying(s, i) && !s.running
    case AlreadyRunning(i) => IsTrying(s, i) && s.running
    case Fail(i) => IsTrying(s, i) && !s.running
    case ClearReconnecting(i) => i < |s.workers| && s.workers[i].Leaving?
  }

  function Next(s: Client, step: Step, max: nat): Client
    requires Enabled(s, step)
  {
    match step
    case Drop => s.(listener := Dropped, workers := s.workers + [Spawned])
    case ClearRunning => s.(listener := Gone, running := false)
    case Enter(i) => s.(reconnecting := true, workers := s.workers[i := if max == 0 then Leaving(0) else Trying(0)])
    case Skip(i) => s.(workers := s.workers[i := Done(0)])
    case Connect(i) => s.(running := true, listener := Live, workers := s.workers[i := Leaving(s.workers[i].calls + 1)])
    case AlreadyRunning(i) => s.(workers := s.workers[i := Leaving(s.workers[i].calls + 1)])
    case Fail(i) =>
      var calls := s.workers[i].calls + 1;
      s.(workers := s.workers[i := if calls < max then Trying(calls) else Leaving(calls)])
    case ClearReconnecting(i) => s.(reconnecting := false, workers := s.workers[i := Done(s.workers[i].calls)])
  }

  /** `Start`: the first registration succeeds, or a worker retries in the background. */
  predicate Init(s: Client) {
    || s == Client(true, false, Live, [])
    || s == Client(false, false, Gone, [Spawned])
  }

  /** At most one loop is inside, exactly when the flag is set; at most one party is responsible for the
      stream; no loop registers more than `max` times. */
  ghost predicate Inv(s: Client, max: nat) {
    && (s.running <==> s.listener != Gone)
    && LoopFlag(s)
    && OneInside(s)
    && OneOwes(s)
    && WithinLimit(s, max)
  }

  ghost predicate OneInside(s: Client) {
    forall i, j :: 0 <= i < |s.workers| && 0 <= j < |s.workers| && s.workers[i].Inside() && s.workers[j].Inside() ==> i == j
  }

  ghost predicate WithinLimit(s: Client, max: nat) {
    && (forall i :: 0 <= i < |s.workers| && !s.workers[i].Spawned? ==> s.workers[i].calls <= max)
    && (forall i :: 0 <= i < |s.workers| && s.workers[i].Trying? ==> s.workers[i].calls < max)
  }

  /** Someone is listening, or is still going to reconnect. */
  ghost predicate Tended(s: Client) {
    s.listener == Live || exists i :: 0 <= i < |s.workers| && s.workers[i].Owes()
  }

  /** The steps after which nobody is responsible any more: a worker turned away because the previous loop
      has not given its flag back, a loop told it is connected because the old listener has not cleared
      `running`, and running out of attempts. */
  predicate Loses(s: Client, step: Step, max: nat)
    requires Enabled(s, step)
  {
    match step
    case Skip(_) => true
    case AlreadyRunning(_) => true
    case Fail(i) => s.workers[i].calls + 1 >= max
    case Enter(_) => max == 0
    case Drop => false
    case ClearRunning => false
    case Connect(_) => false
    case ClearReconnecting(_) => false
  }

  /** The worker a step moves, if it moves one. */
  lemma OthersStay(s: Client, step: Step, max: nat, k: nat)
    requires Enabled(s, step) && k < |s.workers|
    requires step.Drop? || step.ClearRunning? || step.i != k
    ensures |Next(s, step, max).workers| == |s.workers| + (if step.Drop? then 1 else 0)
    ensures Next(s, step, max).workers[k] == s.workers[k]
  {
  }

  predicate LoopFlag(s: Client) {
    s.reconnecting <==> exists i :: 0 <= i < |s.workers| && s.workers[i].Inside()
  }

  lemma StepKeepsLoopFlag(s: Client, step: Step, max: nat)
    requires LoopFlag(s) && OneInside(s) && Enabled(s, step)
    ensures LoopFlag(Next(s, step, max)) && OneInside(Next(s, step, max))
  {
    var t := Next(s, step, max);
    if s.reconnecting {
      var k :| 0 <= k < |s.workers| && s.workers[k].Inside();
      if step.Drop? || step.ClearRunning? || step.i != k { OthersStay(s, step, max, k); }
      assert step.ClearReconnecting? || t.workers[k].Inside();
    } else if step.Enter? {
      assert t.workers[step.i].Inside();
    }
  }

  predicate OneOwes(s: Client) {
    && (forall i, j :: 0 <= i < |s.workers| && 0 <= j < |s.workers| && s.workers[i].Owes() && s.workers[j].Owes() ==> i == j)
    && (s.listener == Live ==> forall i :: 0 <= i < |s.workers| ==> !s.workers[i].Owes())
  }

  lemma StepKeepsOneOwes(s: Client, step: Step, max: nat)
    requires OneOwes(s) && Enabled(s, step)
    ensures OneOwes(Next(s, step, max))
  {
  }

  lemma StepKeepsInv(s: Client, step: Step, max: nat)
    requires Inv(s, max) && Enabled(s, step)
    ensures Inv(Next(s, step, max), max)
  {
    StepKeepsLoopFlag(s, step, max);
    StepKeepsOneOwes(s, step, max);
  }

  lemma StepKeepsTended(s: Client, step: Step, max: nat)
    requires Inv(s, max) && Enabled(s, step)
    ensures Tended(Next(s, step, max)) <==> Tended(s) && !Loses(s, step, max)
  {
    var t := Next(s, step, max);
    match step
    case Drop => assert t.workers[|s.workers|].Owes();
    case ClearRunning =>
    case Enter(i) => assert s.workers[i].Owes(); assert max > 0 ==> t.workers[i].Owes();
    case Skip(i) => assert s.workers[i].Owes();
    case Connect(i) => assert s.workers[i].Owes();
    case AlreadyRunning(i) => assert s.workers[i].Owes();
    case Fail(i) => assert s.workers[i].Owes(); assert !Loses(s, step, max) ==> t.workers[i].Owes();
    case ClearReconnecting(i) =>
      if Tended(s) && s.listener != Live {
        var k :| 0 <= k < |s.workers| && s.workers[k].Owes();
        assert t.workers[k].Owes();
      }
  }

  ghost predicate IsRun(states: seq<Client>, steps: seq<Step>, max: nat) {
    && |states| == |steps| + 1
    && Init(states[0])
    && forall k :: 0 <= k < |steps| ==> Enabled(states[k], steps[k]) && states[k + 1] == Next(states[k], steps[k], max)
  }

  /** Over every run: one loop at a time, at most `max` registrations in each, and the stream is tended at
      the end exactly when no losing step was taken, so a client that lost its stream never recovers it. */
  lemma {:induction false} RunStaysTended(states: seq<Client>, steps: seq<Step>, max: nat)
    requires IsRun(states, steps, max)
    ensures Inv(states[|steps|], max)
    ensures Tended(states[|steps|]) <==> forall k :: 0 <= k < |steps| ==> !Loses(states[k], steps[k], max)
  {
    var n := |steps|;
    if n == 0 {
      assert |states[0].workers| > 0 ==> states[0].workers[0].Owes();
    } else {
      var before, earlier := states[..n], steps[..n - 1];
      RunStaysTended(before, earlier, max);
      assert before[n - 1] == states[n - 1];
      StepKeepsInv(states[n - 1], steps[n - 1], max);
      StepKeepsTended(states[n - 1], steps[n - 1], max);
      if forall k :: 0 <= k < n ==> !Loses(states[k], steps[k], max) {
        forall k | 0 <= k < n - 1 ensures !Loses(before[k], earlier[k], max) { }
      }
      if Tended(states[n]) {
        forall k | 0 <= k < n ensures !Loses(states[k], steps[k], max) {
          if k < n - 1 { assert !Loses(before[k], earlier[k], max); }
        }
      }
    }
  }

  ghost predicate RunThatLoses(states: seq<Client>, steps: seq<Step>, max: nat) {
    IsRun(states, steps, max) && !Tended(states[|steps|])
  }

  /** Both races happen with attempts to spare: a stream that drops again before the loop that restored it
      has returned, and a loop that registers before the dropped listener has cleared `running`. */
  lemma RacesLoseTheStream(max: nat)
    requires max >= 1
    ensures exists states :: RunThatLoses(states, [Drop, ClearRunning, Enter(0), Connect(0), Drop, Skip(1)], max)
    ensures exists states :: RunThatLoses(states, [Drop, Enter(0), AlreadyRunning(0)], max)
  {
    SecondDropIsSkipped(max);
    RegistrationIsSkipped(max);
  }

  lemma SecondDropIsSkipped(max: nat)
    requires max >= 1
    ensures exists states :: RunThatLoses(states, [Drop, ClearRunning, Enter(0), Connect(0), Drop, Skip(1)], max)
  {
    var live := Client(true, false, Live, []);
    var a := [Drop, ClearRunning, Enter(0), Connect(0), Drop, Skip(1)];
    var run := [live, Client(true, false, Dropped, [Spawned]), Client(false, false, Gone, [Spawned]),
                Client(false, true, Gone, [Trying(0)]), Client(true, true, Live, [Leaving(1)]),
                Client(true, true, Dropped, [Leaving(1), Spawned]), Client(true, true, Dropped, [Leaving(1), Done(0)])];
    assert RunThatLoses(run, a, max);
  }

  lemma RegistrationIsSkipped(max: nat)
    requires max >= 1
    ensures exists states :: RunThatLoses(states, [Drop, Enter(0), AlreadyRunning(0)], max)
  {
    var live := Client(true, false, Live, []);
    var b := [Drop, Enter(0), AlreadyRunning(0)];
    var run := [live, Client(true, false, Dropped, [Spawned]), Client(true, true, Dropped, [Trying(0)]),
                Client(true, true, Dropped, [Leaving(1)])];
    assert RunThatLoses(run, b, max);
  }
}
