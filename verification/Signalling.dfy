/** How a change in the health map reaches the handler: a reporter that swaps the map and then signals,
    a channel holding at most one token, debounce timers, and the handler loop, in every interleaving. */
module Signalling {
  import opened Strings
  import opened HealthScan

  datatype Time = Never | At(t: int)

  /** Where the handler loop is: waiting, holding a token, updating but not yet at the map, past it. */
  datatype Phase = Idle | TookToken | Updating(start: int) | Finishing(start: int)

  /** A finished update. */
  datatype Update = Update(start: int, finish: int)

  /** `lastRead` is the map as the handler last saw it; `notifying` is the reporter's window, under its
      lock, between swapping the map and signalling. */
  datatype State = State(
    now: int, healthMap: Records, lastRead: Records, notifying: bool,
    token: bool, timers: multiset<int>, phase: Phase, lastUpdate: Time, log: seq<Update>)

  datatype Step =
    | Report(m: Records)
    | Signal
    | Take
    | Check
    | Read
    | Fail
    | Finish
    | Fire(deadline: int)
    | Pass(dt: nat)

  predicate Enabled(s: State, step: Step) {
    match step
    case Report(_) => !s.notifying
    case Signal => s.notifying
    case Take => s.phase.Idle? && s.token
    case Check => s.phase.TookToken?
    case Read => s.phase.Updating?
    case Fail => s.phase.Updating?
    case Finish => s.phase.Finishing?
    case Fire(d) => d in s.timers && d <= s.now
    case Pass(_) => true
  }

  predicate TooSoon(s: State, interval: int) {
    s.lastUpdate.At? && s.now - s.lastUpdate.t < interval
  }

  function Apply(s: State, step: Step, interval: int): State
    requires Enabled(s, step)
  {
    match step
    case Report(m) => if m == s.healthMap then s else s.(healthMap := m, notifying := true)
    case Signal => s.(notifying := false, token := true)
    case Take => s.(token := false, phase := TookToken)
    case Check =>
      if TooSoon(s, interval) then s.(timers := s.timers + multiset{s.now + interval}, phase := Idle)
      else s.(phase := Updating(s.now))
    case Read => s.(lastRead := s.healthMap, phase := Finishing(s.phase.start))
    case Fail => s.(phase := Finishing(s.phase.start))
    case Finish => s.(lastUpdate := At(s.now), log := s.log + [Update(s.phase.start, s.now)], phase := Idle)
    case Fire(d) => s.(timers := s.timers - multiset{d}, token := true)
    case Pass(dt) => s.(now := s.now + dt)
  }

  predicate IsRun(states: seq<State>, steps: seq<Step>, interval: int) {
    && |states| == |steps| + 1
    && forall i :: 0 <= i < |steps| ==>
         Enabled(states[i], steps[i]) && states[i + 1] == Apply(states[i], steps[i], interval)
  }

  predicate Initial(s: State) {
    && s.healthMap == s.lastRead == map[] && !s.notifying && !s.token && s.timers == multiset{}
    && s.phase.Idle? && s.lastUpdate.Never? && s.log == []
  }

  // ----- No change is lost -----

  /** Something is on its way that will make the handler read the map. */
  predicate Pending(s: State) {
    s.notifying || s.token || s.timers != multiset{} || s.phase.TookToken? || s.phase.Updating?
  }

  predicate NothingLost(s: State) {
    s.healthMap != s.lastRead ==> Pending(s)
  }

  /** A rediscovery may fail only when the map is unchanged or another signal is on its way. */
  predicate SafeStep(s: State, step: Step) {
    step.Fail? ==> s.healthMap == s.lastRead || s.notifying || s.token || s.timers != multiset{}
  }

  lemma StepLosesNothing(s: State, step: Step, interval: int)
    requires NothingLost(s) && Enabled(s, step)
    ensures NothingLost(Apply(s, step, interval)) <==> SafeStep(s, step)
  {
  }

  /** In every interleaving, a changed map is always accompanied by a signal that will make it read, in
      every state, exactly when no update gave up on the last such signal. */
  lemma {:induction false} RunLosesNothing(states: seq<State>, steps: seq<Step>, interval: int)
    requires IsRun(states, steps, interval) && Initial(states[0])
    ensures (forall i :: 0 <= i < |states| ==> NothingLost(states[i])) <==>
            (forall i :: 0 <= i < |steps| ==> SafeStep(states[i], steps[i]))
  {
    if steps != [] {
      var n := |steps| - 1;
      var ss, ps := states[..n + 1], steps[..n];
      RunLosesNothing(ss, ps, interval);
      assert forall i :: 0 <= i <= n ==> ss[i] == states[i];
      assert forall i :: 0 <= i < n ==> ps[i] == steps[i];
      if NothingLost(states[n]) {
        StepLosesNothing(states[n], steps[n], interval);
        assert states[n + 1] == Apply(states[n], steps[n], interval);
      }
      assert (forall i :: 0 <= i < |states| ==> NothingLost(states[i])) <==>
             (forall i :: 0 <= i < |ss| ==> NothingLost(ss[i])) && NothingLost(states[n + 1]);
      assert (forall i :: 0 <= i < |steps| ==> SafeStep(states[i], steps[i])) <==>
             (forall i :: 0 <= i < n ==> SafeStep(ss[i], ps[i])) && SafeStep(states[n], steps[n]);
    }
  }

  /** A failed rediscovery does lose a change: the report is never read unless another one arrives. */
  lemma FailureLosesAChange(interval: int)
    requires interval > 0
    ensures exists states, steps :: && IsRun(states, steps, interval) && Initial(states[0])
                                    && !NothingLost(states[|steps|])
  {
    var m: Records := map["0000:1a:00.0" := HealthRecord(REMOVED, PfType)];
    assert "0000:1a:00.0" in m;
    var s0 := State(0, map[], map[], false, false, multiset{}, Idle, Never, []);
    var s1 := Apply(s0, Report(m), interval);
    var s2 := Apply(s1, Signal, interval);
    var s3 := Apply(s2, Take, interval);
    var s4 := Apply(s3, Check, interval);
    var s5 := Apply(s4, Fail, interval);
    assert IsRun([s0, s1, s2, s3, s4, s5], [Report(m), Signal, Take, Check, Fail], interval);
    assert !NothingLost([s0, s1, s2, s3, s4, s5][|[Report(m), Signal, Take, Check, Fail]|]);
  }

  // ----- Updates are spaced -----

  predicate Spaced(log: seq<Update>, interval: int) {
    forall i :: 0 < i < |log| ==> log[i].start - log[i - 1].finish >= interval
  }

  /** An update in progress started late enough; timers are at most one interval away. */
  predicate Timely(s: State, interval: int) {
    && Spaced(s.log, interval)
    && (s.log == [] <==> s.lastUpdate.Never?)
    && (s.log != [] ==> s.lastUpdate == At(s.log[|s.log| - 1].finish) && s.lastUpdate.t <= s.now)
    && (s.phase.Updating? || s.phase.Finishing? ==>
          s.phase.start <= s.now && (s.log != [] ==> s.phase.start - s.lastUpdate.t >= interval))
    && (forall d :: d in s.timers ==> d <= s.now + interval)
  }

  /** An update never starts sooner than the debounce interval after the previous one finished. */
  lemma {:induction false} UpdatesAreSpaced(states: seq<State>, steps: seq<Step>, interval: int)
    requires IsRun(states, steps, interval) && Initial(states[0]) && interval > 0
    ensures forall i :: 0 <= i < |states| ==> Timely(states[i], interval)
  {
    if steps != [] {
      var n := |steps| - 1;
      UpdatesAreSpaced(states[..n + 1], steps[..n], interval);
      assert states[..n + 1][n] == states[n];
      StepStaysTimely(states[n], steps[n], interval);
    }
  }

  lemma StepStaysTimely(s: State, step: Step, interval: int)
    requires Timely(s, interval) && Enabled(s, step) && interval > 0
    ensures Timely(Apply(s, step, interval), interval)
  {
    var s' := Apply(s, step, interval);
    if step.Fire? {
      assert forall d :: d in s'.timers ==> d in s.timers;
    }
  }

  // ----- No update without a change -----

  /** How often the map changed in the first `n` steps. */
  function Changes(states: seq<State>, steps: seq<Step>, n: nat): nat
    requires n <= |steps| <= |states|
  {
    if n == 0 then 0
    else
      Changes(states, steps, n - 1) + if steps[n - 1].Report? && steps[n - 1].m != states[n - 1].healthMap then 1 else 0
  }

  function One(b: bool): nat {
    if b then 1 else 0
  }

  /** Updates made or under way, and signals that may still lead to one. */
  function CalledFor(s: State): nat {
    |s.log| + One(s.phase.Updating? || s.phase.Finishing?) + One(s.phase.TookToken?) + One(s.token) + |s.timers| + One(s.notifying)
  }

  /** In every interleaving there are never more updates, made, under way or still to come, than changes of
      the map: a token or a timer is used up by what it causes, and signals may be merged. */
  lemma {:induction false} UpdatesAreCalledFor(states: seq<State>, steps: seq<Step>, interval: int, n: nat)
    requires IsRun(states, steps, interval) && Initial(states[0]) && n <= |steps|
    ensures CalledFor(states[n]) <= Changes(states, steps, n)
  {
    if n > 0 {
      UpdatesAreCalledFor(states, steps, interval, n - 1);
      assert states[n] == Apply(states[n - 1], steps[n - 1], interval) && Enabled(states[n - 1], steps[n - 1]);
    }
  }

  // ----- A change can always be delivered within one interval -----

  predicate Executable(s: State, steps: seq<Step>, interval: int)
    decreases |steps|
  {
    steps == [] || (Enabled(s, steps[0]) && Executable(Apply(s, steps[0], interval), steps[1..], interval))
  }

  function Run(s: State, steps: seq<Step>, interval: int): State
    requires Executable(s, steps, interval)
    decreases |steps|
  {
    if steps == [] then s else Run(Apply(s, steps[0], interval), steps[1..], interval)
  }

  /** The plugin's own steps: no new report and no failure. */
  predicate Internal(steps: seq<Step>) {
    forall i :: 0 <= i < |steps| ==> !steps[i].Report? && !steps[i].Fail?
  }

  /** `steps` is what the plugin can do on its own from `s` to have read the present map. */
  predicate Delivers(s: State, steps: seq<Step>, interval: int) {
    && Internal(steps) && Executable(s, steps, interval)
    && var e := Run(s, steps, interval);
       e.lastRead == e.healthMap == s.healthMap && e.now <= s.now + interval
  }

  lemma DeliverAfter(s: State, step: Step, rest: seq<Step>, interval: int)
    requires Enabled(s, step) && !step.Report? && !step.Fail? && Delivers(Apply(s, step, interval), rest, interval)
    requires step.Pass? ==> Run(Apply(s, step, interval), rest, interval).now <= s.now + interval
    ensures Delivers(s, [step] + rest, interval)
  {
  }

  /** Holding a token with the interval over, the handler reads the map at once. */
  lemma ReadNow(s: State, interval: int) returns (steps: seq<Step>)
    requires s.phase.Idle? && s.token && !TooSoon(s, interval) && interval > 0
    ensures Delivers(s, steps, interval) && Run(s, steps, interval).now == s.now
  {
    var s1 := Apply(s, Take, interval);
    var s2 := Apply(s1, Check, interval);
    var s3 := Apply(s2, Read, interval);
    steps := [Take, Check, Read];
    assert steps[1..] == [Check, Read] && [Check, Read][1..] == [Read] && [Read][1..] == [];
    assert Executable(s3, [], interval) && Run(s3, [], interval) == s3;
    assert Executable(s2, [Read], interval) && Run(s2, [Read], interval) == s3;
    assert Executable(s1, [Check, Read], interval) && Run(s1, [Check, Read], interval) == s3;
  }

  lemma DeliverFromIdle(s: State, interval: int) returns (steps: seq<Step>)
    requires Timely(s, interval) && interval > 0 && s.phase.Idle? && (s.token || s.timers != multiset{})
    ensures Delivers(s, steps, interval)
  {
    var w := Apply(s, Pass(interval), interval);
    if s.token {
      var rest := ReadNow(w, interval);
      DeliverAfter(s, Pass(interval), rest, interval);
      steps := [Pass(interval)] + rest;
    } else {
      assert (forall d :: d !in s.timers) ==> s.timers == multiset{};
      var d :| d in s.timers;
      var f := Apply(w, Fire(d), interval);
      var rest := ReadNow(f, interval);
      DeliverAfter(w, Fire(d), rest, interval);
      assert ([Fire(d)] + rest)[1..] == rest;
      DeliverAfter(s, Pass(interval), [Fire(d)] + rest, interval);
      steps := [Pass(interval)] + ([Fire(d)] + rest);
    }
  }

  /** From every timely state in which nothing is lost, without any further report, the handler can have
      read the present health map within one debounce interval. */
  lemma ChangeIsDeliverable(s: State, interval: int) returns (steps: seq<Step>)
    requires Timely(s, interval) && NothingLost(s) && interval > 0
    ensures Delivers(s, steps, interval)
  {
    if s.healthMap == s.lastRead {
      steps := [];
    } else if s.notifying {
      var s' := Apply(s, Signal, interval);
      var rest := DeliverUnheld(s', interval);
      DeliverAfter(s, Signal, rest, interval);
      steps := [Signal] + rest;
    } else {
      steps := DeliverUnheld(s, interval);
    }
  }

  lemma DeliverUnheld(s: State, interval: int) returns (steps: seq<Step>)
    requires Timely(s, interval) && interval > 0
    requires s.token || s.timers != multiset{} || s.phase.TookToken? || s.phase.Updating?
    ensures Delivers(s, steps, interval)
  {
    match s.phase
    case Idle => steps := DeliverFromIdle(s, interval);
    case TookToken =>
      var s' := Apply(s, Check, interval);
      StepStaysTimely(s, Check, interval);
      var rest;
      if TooSoon(s, interval) {
        assert s.now + interval in s'.timers;
        rest := DeliverFromIdle(s', interval);
      } else {
        rest := [Read];
        assert [Read][1..] == [];
        assert Run(s', [Read], interval) == Apply(s', Read, interval);
      }
      DeliverAfter(s, Check, rest, interval);
      steps := [Check] + rest;
    case Updating(_) =>
      steps := [Read];
      assert [Read][1..] == [];
      assert Run(s, [Read], interval) == Apply(s, Read, interval);
    case Finishing(_) =>
      var s' := Apply(s, Finish, interval);
      StepStaysTimely(s, Finish, interval);
      var rest := DeliverFromIdle(s', interval);
      DeliverAfter(s, Finish, rest, interval);
      steps := [Finish] + rest;
  }

  // ----- Every change is read in time -----

  /** Time does not pass over something the plugin has to do: a reporter about to signal, a handler that has
      or could take a token, a timer that is due. An update lasts at most `longest`. */
  predicate Prompt(s: State, step: Step, longest: int) {
    step.Pass? ==>
      && !s.notifying && !s.phase.TookToken? && !(s.phase.Idle? && s.token)
      && (forall d :: d in s.timers ==> s.now + step.dt <= d)
      && (s.phase.Updating? || s.phase.Finishing? ==> s.now + step.dt - s.phase.start <= longest)
  }

  ghost predicate IsPromptRun(states: seq<State>, steps: seq<Step>, interval: int, longest: int) {
    && IsRun(states, steps, interval) && Initial(states[0])
    && forall i :: 0 <= i < |steps| ==> Prompt(states[i], steps[i], longest)
  }

  predicate WithinUpdate(s: State, longest: int) {
    s.phase.Updating? || s.phase.Finishing? ==> s.phase.start <= s.now <= s.phase.start + longest
  }

  /** A timer that will find the interval over. */
  predicate Ripe(s: State, d: int, limit: int, interval: int) {
    d in s.timers && s.now <= d <= limit && (s.lastUpdate.At? ==> s.lastUpdate.t + interval <= d)
  }

  /** What the handler still has to do about a change made at time `t`. Nothing has read the map since, so
      an update past its read is one that began before. */
  ghost predicate Awaits(s: State, t: int, interval: int, longest: int) {
    var limit := t + longest + interval;
    && t <= s.now
    && match s.phase
       case Updating(start) => start <= limit && s.now <= start + longest
       case Finishing(start) => start <= t && s.now <= start + longest && (s.notifying || s.token)
       case Idle =>
         || ((s.notifying || s.token) && s.now <= t + longest)
         || (s.token && s.now <= limit && !TooSoon(s, interval))
         || exists d :: Ripe(s, d, limit, interval)
       case TookToken =>
         || s.now <= t + longest
         || (s.now <= limit && !TooSoon(s, interval))
         || exists d :: Ripe(s, d, limit, interval)
  }

  lemma AwaitsStep(s: State, step: Step, t: int, interval: int, longest: int)
    requires Awaits(s, t, interval, longest) && Timely(s, interval) && interval > 0 && longest >= 0
    requires Enabled(s, step) && Prompt(s, step, longest) && !step.Fail?
    ensures step.Read? ==> s.now <= t + interval + 2 * longest
    ensures !step.Read? ==> Awaits(Apply(s, step, interval), t, interval, longest)
  {
    var s' := Apply(s, step, interval);
    var limit := t + longest + interval;
    if (s.phase.Idle? || s.phase.TookToken?) && exists d :: Ripe(s, d, limit, interval) {
      var d :| Ripe(s, d, limit, interval);
      RipeStep(s, step, d, limit, interval, longest);
    } else if step.Check? && TooSoon(s, interval) {
      assert Ripe(s', s.now + interval, limit, interval);
    }
  }

  /** While the handler is free, a ripe timer stays, fires with the interval over, or is forestalled. */
  lemma RipeStep(s: State, step: Step, d: int, limit: int, interval: int, longest: int)
    requires Ripe(s, d, limit, interval) && (s.phase.Idle? || s.phase.TookToken?)
    requires Enabled(s, step) && Prompt(s, step, longest)
    ensures var s' := Apply(s, step, interval);
            || (s'.phase.Updating? && s'.phase.start == s.now)
            || ((s'.phase.Idle? || s'.phase.TookToken?) &&
                (Ripe(s', d, limit, interval) || (s'.token && s'.now == d && !TooSoon(s', interval))))
  {
    var s' := Apply(s, step, interval);
    if step == Fire(d) {
      assert s'.now == d;
    } else if step.Fire? {
      assert d in s'.timers;
    }
  }

  lemma {:induction false} UpdatesAreBounded(states: seq<State>, steps: seq<Step>, interval: int, longest: int, n: nat)
    requires IsPromptRun(states, steps, interval, longest) && longest >= 0 && n < |states|
    ensures WithinUpdate(states[n], longest)
  {
    if n > 0 {
      UpdatesAreBounded(states, steps, interval, longest, n - 1);
      assert states[n] == Apply(states[n - 1], steps[n - 1], interval);
    }
  }

  /** After step `a` and before step `n` the handler read the map, no later than `limit`. */
  predicate ReadBy(states: seq<State>, steps: seq<Step>, a: nat, n: nat, limit: int)
    requires n <= |steps| <= |states|
  {
    exists i :: a < i < n && steps[i].Read? && states[i].now <= limit
  }

  lemma {:induction false} ReadOrAwaits(states: seq<State>, steps: seq<Step>, interval: int, longest: int, a: nat, n: nat)
    requires IsPromptRun(states, steps, interval, longest) && interval > 0 && longest >= 0
    requires a < n <= |steps| && steps[a].Report? && steps[a].m != states[a].healthMap
    requires forall i :: a < i < n ==> !steps[i].Fail?
    ensures ReadBy(states, steps, a, n, states[a].now + interval + 2 * longest)
         || Awaits(states[n], states[a].now, interval, longest)
    decreases n
  {
    var t := states[a].now;
    UpdatesAreSpaced(states, steps, interval);
    assert states[n] == Apply(states[n - 1], steps[n - 1], interval) && Enabled(states[n - 1], steps[n - 1]);
    if n == a + 1 {
      UpdatesAreBounded(states, steps, interval, longest, n);
      assert Timely(states[a], interval);
    } else {
      ReadOrAwaits(states, steps, interval, longest, a, n - 1);
      if Awaits(states[n - 1], t, interval, longest) {
        AwaitsStep(states[n - 1], steps[n - 1], t, interval, longest);
        assert steps[n - 1].Read? ==> ReadBy(states, steps, a, n, t + interval + 2 * longest);
      } else {
        var i :| a < i < n - 1 && steps[i].Read? && states[i].now <= t + interval + 2 * longest;
        assert ReadBy(states, steps, a, n, t + interval + 2 * longest);
      }
    }
  }

  /** In every prompt run a change of the map is followed by a read no later than one debounce interval and
      two updates after it, whatever else happens, unless an update fails first. */
  lemma EveryChangeIsRead(states: seq<State>, steps: seq<Step>, interval: int, longest: int, a: nat, b: nat)
    requires IsPromptRun(states, steps, interval, longest) && interval > 0 && longest >= 0
    requires a < b <= |steps| && steps[a].Report? && steps[a].m != states[a].healthMap
    requires forall i :: a < i < b ==> !steps[i].Fail?
    requires states[b].now > states[a].now + interval + 2 * longest
    ensures ReadBy(states, steps, a, b, states[a].now + interval + 2 * longest)
  {
    ReadOrAwaits(states, steps, interval, longest, a, b);
  }

  // ----- The reporter -----

  /** `MapsEqual`: equal sizes and one inclusion decide equality. */
  method MapsEqual(a: Records, b: Records) returns (equal: bool)
    ensures equal <==> a == b
  {
    if |a| != |b| { return false; }
    var rest := a.Keys;
    while rest != {}
      invariant rest <= a.Keys
      invariant forall k :: k in a && k !in rest ==> k in b && a[k] == b[k]
    {
      var k :| k in rest;
      rest := rest - {k};
      if k !in b || a[k] != b[k] { return false; }
    }
    SubsetSameSize(a.Keys, b.Keys);
    return true;
  }

  datatype DeviceReport = DeviceReport(addr: string, record: HealthRecord)

  /** The map a report denotes: the last entry for an address counts. */
  function ReportMap(devices: seq<DeviceReport>): Records {
    if devices == [] then map[]
    else ReportMap(devices[..|devices| - 1])[devices[|devices| - 1].addr := devices[|devices| - 1].record]
  }

  /** Each address carries the record of its last entry, and no other address is there. */
  lemma {:induction false} ReportMapSays(devices: seq<DeviceReport>, a: string)
    ensures a in ReportMap(devices) <==> exists i :: 0 <= i < |devices| && devices[i].addr == a
    ensures forall i :: 0 <= i < |devices| && devices[i].addr == a && (forall j :: i < j < |devices| ==> devices[j].addr != a) ==>
              ReportMap(devices)[a] == devices[i].record
  {
    if devices != [] {
      var n := |devices| - 1;
      ReportMapSays(devices[..n], a);
      if i :| 0 <= i < |devices| && devices[i].addr == a {
        assert i < n ==> devices[..n][i].addr == a;
      }
      forall i | 0 <= i < n && devices[i].addr == a && (forall j :: i < j < |devices| ==> devices[j].addr != a)
        ensures ReportMap(devices)[a] == devices[i].record
      {
        assert devices[n].addr != a && devices[..n][i] == devices[i];
        assert forall j :: i < j < n ==> devices[..n][j].addr != a;
      }
    }
  }

  /** The capacity-one update channel. */
  class UpdateChannel {
    var token: bool

    method SafeTriggerUpdate()
      modifies this
      ensures token
    {
      if !token { token := true; }
    }
  }

  class SpyreHealthClient {
    var healthInfoMap: Records

    /** The whole critical section: the map ends as the report says, and a token is queued exactly when
        one was queued before or the map changed. That is a `Report` step and, after a change, `Signal`. */
    method SetAndNotify(devices: seq<DeviceReport>, channel: UpdateChannel)
      modifies this, channel
      ensures healthInfoMap == ReportMap(devices)
      ensures channel.token == (old(channel.token) || old(healthInfoMap) != healthInfoMap)
      ensures forall s: State, interval: int ::
                s.healthMap == old(healthInfoMap) && s.token == old(channel.token) && !s.notifying ==>
                var r := Apply(s, Report(ReportMap(devices)), interval);
                var r' := if r.notifying then Apply(r, Signal, interval) else r;
                r' == s.(healthMap := healthInfoMap, token := channel.token)
    {
      var current: Records := map[];
      for i := 0 to |devices|
        invariant current == ReportMap(devices[..i])
      {
        assert devices[..i + 1][..i] == devices[..i];
        current := current[devices[i].addr := devices[i].record];
      }
      assert devices[..|devices|] == devices;
      var same := MapsEqual(healthInfoMap, current);
      if !same {
        healthInfoMap := current;
        channel.SafeTriggerUpdate();
      }
    }
  }
}
