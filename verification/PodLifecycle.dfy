/** Pod allocations in the node state's status: version-checked writers that read, modify and write the
    whole status, a scheduler editing reservations beside them, and what every interleaving keeps. */
module PodLifecycle {
  import opened Strings
  import opened Types

  /** One generation of a Pod; two references are the same when all three fields are. */
  datatype PodRef = PodRef(name: string, namespace: string, uid: string)

  datatype Allocation = Allocation(pod: Option<PodRef>, devices: seq<string>, pool: string)
  datatype Entry = Entry(pod: PodRef, devices: seq<string>)

  type Reservations = map<string, seq<Entry>>

  datatype Status = Status(allocations: seq<Allocation>, reservations: Reservations)

  // ----- Allocations -----

  predicate Holds(allocations: seq<Allocation>, pod: PodRef) {
    exists a :: a in allocations && a.pod == Some(pod)
  }

  predicate OnePerPod(allocations: seq<Allocation>) {
    forall i, j :: 0 <= i < j < |allocations| && allocations[i].pod.Some? ==> allocations[i].pod != allocations[j].pod
  }

  /** Every allocation but the Pod's, in order. */
  function Without(allocations: seq<Allocation>, pod: PodRef): seq<Allocation> {
    if allocations == [] then []
    else
      var n := |allocations| - 1;
      Without(allocations[..n], pod) + if allocations[n].pod == Some(pod) then [] else [allocations[n]]
  }

  /** The search of `getAllocation`. */
  method FindAllocation(allocations: seq<Allocation>, pod: PodRef) returns (index: int)
    ensures index == IndexOf(allocations, pod)
  {
    for i := 0 to |allocations|
      invariant forall j :: 0 <= j < i ==> allocations[j].pod != Some(pod)
    {
      if allocations[i].pod == Some(pod) {
        IndexOfIs(allocations, pod, i);
        return i;
      }
    }
    IndexOfIs(allocations, pod, -1);
    return -1;
  }

  function IndexOf(allocations: seq<Allocation>, pod: PodRef): (i: int)
    ensures -1 <= i < |allocations|
    ensures i >= 0 ==> allocations[i].pod == Some(pod) && forall j :: 0 <= j < i ==> allocations[j].pod != Some(pod)
    ensures i < 0 <==> !Holds(allocations, pod)
  {
    if allocations == [] then -1
    else
      var n := |allocations| - 1;
      var i := IndexOf(allocations[..n], pod);
      assert allocations == allocations[..n] + [allocations[n]];
      if i >= 0 then i else if allocations[n].pod == Some(pod) then n else -1
  }

  lemma IndexOfIs(allocations: seq<Allocation>, pod: PodRef, i: int)
    requires -1 <= i < |allocations|
    requires i >= 0 ==> allocations[i].pod == Some(pod)
    requires forall j :: 0 <= j < (if i < 0 then |allocations| else i) ==> allocations[j].pod != Some(pod)
    ensures IndexOf(allocations, pod) == i
  {
  }

  /** Out of range, the list is returned as it is; otherwise everything but that entry, in a new list. */
  function RemoveAllocationIndex(a: seq<Allocation>, index: int): seq<Allocation> {
    if 0 <= index < |a| then a[..index] + a[index + 1..] else a
  }

  lemma {:induction false} WithoutAbsent(a: seq<Allocation>, pod: PodRef)
    requires forall i :: 0 <= i < |a| ==> a[i].pod != Some(pod)
    ensures Without(a, pod) == a
  {
    if a != [] { WithoutAbsent(a[..|a| - 1], pod); }
  }

  lemma {:induction false} WithoutOne(a: seq<Allocation>, pod: PodRef, i: nat)
    requires i < |a| && a[i].pod == Some(pod)
    requires forall j :: 0 <= j < |a| && j != i ==> a[j].pod != Some(pod)
    ensures Without(a, pod) == a[..i] + a[i + 1..]
  {
    var n := |a| - 1;
    var p := a[..n];
    if i == n {
      WithoutAbsent(p, pod);
      assert Without(a, pod) == p + [];
    } else {
      WithoutOne(p, pod, i);
      assert Without(a, pod) == p[..i] + p[i + 1..] + [a[n]];
      assert p[..i] == a[..i] && p[i + 1..] + [a[n]] == a[i + 1..];
    }
  }

  lemma RemoveKeepsOnePerPod(a: seq<Allocation>, i: nat)
    requires OnePerPod(a) && i < |a| && a[i].pod.Some?
    ensures OnePerPod(a[..i] + a[i + 1..]) && !Holds(a[..i] + a[i + 1..], a[i].pod.value)
  {
  }

  /** Removing the one entry found leaves none for that generation and all others in order. */
  lemma RemovalIsExact(a: seq<Allocation>, pod: PodRef)
    requires OnePerPod(a) && Holds(a, pod)
    ensures RemoveAllocationIndex(a, IndexOf(a, pod)) == Without(a, pod)
    ensures !Holds(Without(a, pod), pod) && OnePerPod(Without(a, pod))
  {
    var i := IndexOf(a, pod);
    WithoutOne(a, pod, i);
    RemoveKeepsOnePerPod(a, i);
  }

  // ----- Reservations -----

  predicate SameDevices(a: seq<string>, b: seq<string>) {
    Elems(a) == Elems(b)
  }

  predicate Names(es: seq<Entry>, pod: PodRef) {
    exists e :: e in es && e.pod == pod
  }

  /** Whether retiring drops the entry: by Pod if some entry names the Pod, else by device set. */
  predicate Retires(byPod: bool, e: Entry, pod: PodRef, devices: seq<string>) {
    if byPod then e.pod == pod else SameDevices(e.devices, devices)
  }

  function Drop(es: seq<Entry>, byPod: bool, pod: PodRef, devices: seq<string>): seq<Entry> {
    if es == [] then []
    else
      var n := |es| - 1;
      Drop(es[..n], byPod, pod, devices) + if Retires(byPod, es[n], pod, devices) then [] else [es[n]]
  }

  function Retire(es: seq<Entry>, pod: PodRef, devices: seq<string>): seq<Entry> {
    Drop(es, Names(es, pod), pod, devices)
  }

  function ReconcileReservation(r: Reservations, pod: PodRef, devices: seq<string>): Reservations {
    map name | name in r && Retire(r[name], pod, devices) != [] :: Retire(r[name], pod, devices)
  }

  /** `RemoveByPod` and `RemoveByDevices`, the removals of one reservation. */
  method RemoveEntries(es: seq<Entry>, byPod: bool, pod: PodRef, devices: seq<string>) returns (r: seq<Entry>, removed: bool)
    ensures r == Drop(es, byPod, pod, devices)
    ensures removed <==> exists e :: e in es && Retires(byPod, e, pod, devices)
  {
    r, removed := [], false;
    for i := 0 to |es|
      invariant r == Drop(es[..i], byPod, pod, devices)
      invariant removed <==> exists j :: 0 <= j < i && Retires(byPod, es[j], pod, devices)
    {
      assert es[..i + 1][..i] == es[..i];
      if Retires(byPod, es[i], pod, devices) {
        removed := true;
      } else {
        r := r + [es[i]];
      }
    }
    assert es[..|es|] == es;
  }

  method Reconcile(reservations: Reservations, pod: PodRef, devices: seq<string>) returns (r: Reservations)
    ensures r == ReconcileReservation(reservations, pod, devices)
  {
    r := map[];
    var rest := reservations.Keys;
    while rest != {}
      invariant rest <= reservations.Keys
      invariant r == ReconcileReservation(reservations, pod, devices) - rest
    {
      var name :| name in rest;
      rest := rest - {name};
      var es, removed := RemoveEntries(reservations[name], true, pod, devices);
      if !removed {
        es, removed := RemoveEntries(reservations[name], false, pod, devices);
      }
      assert es == Retire(reservations[name], pod, devices);
      if es != [] {
        r := r[name := es];
      }
    }
  }

  function EntriesOf(r: Reservations, name: string): seq<Entry> {
    if name in r then r[name] else []
  }

  /** The entries of other Pods for other devices, in order. */
  function Foreign(es: seq<Entry>, pod: PodRef, devices: seq<string>): seq<Entry> {
    Drop(Drop(es, true, pod, devices), false, pod, devices)
  }

  lemma {:induction false} DropCommutes(es: seq<Entry>, pod: PodRef, devices: seq<string>)
    ensures Drop(Drop(es, true, pod, devices), false, pod, devices) == Drop(Drop(es, false, pod, devices), true, pod, devices)
  {
    if es != [] {
      var n := |es| - 1;
      DropCommutes(es[..n], pod, devices);
      DropLast(Drop(es[..n], true, pod, devices), es[n], false, pod, devices);
      DropLast(Drop(es[..n], false, pod, devices), es[n], true, pod, devices);
    }
  }

  lemma DropLast(es: seq<Entry>, e: Entry, byPod: bool, pod: PodRef, devices: seq<string>)
    ensures Drop(es + [e], byPod, pod, devices) ==
            Drop(es, byPod, pod, devices) + if Retires(byPod, e, pod, devices) then [] else [e]
    ensures Drop(es + [], byPod, pod, devices) == Drop(es, byPod, pod, devices)
  {
    assert (es + [e])[..|es|] == es && es + [] == es;
  }

  lemma {:induction false} DropElems(es: seq<Entry>, byPod: bool, pod: PodRef, devices: seq<string>, e: Entry)
    ensures e in Drop(es, byPod, pod, devices) <==> e in es && !Retires(byPod, e, pod, devices)
  {
    if es != [] {
      var n := |es| - 1;
      DropElems(es[..n], byPod, pod, devices, e);
      assert es == es[..n] + [es[n]];
    }
  }

  lemma {:induction false} DropNothing(es: seq<Entry>, byPod: bool, pod: PodRef, devices: seq<string>)
    requires forall e :: e in es ==> !Retires(byPod, e, pod, devices)
    ensures Drop(es, byPod, pod, devices) == es
  {
    if es != [] {
      var n := |es| - 1;
      assert es[n] in es;
      forall e | e in es[..n] ensures !Retires(byPod, e, pod, devices) { assert e in es; }
      DropNothing(es[..n], byPod, pod, devices);
      assert es == es[..n] + [es[n]];
    }
  }

  lemma DropTwice(es: seq<Entry>, byPod: bool, pod: PodRef, devices: seq<string>)
    ensures var d := Drop(es, byPod, pod, devices); Drop(d, byPod, pod, devices) == d
  {
    var d := Drop(es, byPod, pod, devices);
    forall e | e in d ensures !Retires(byPod, e, pod, devices) { DropElems(es, byPod, pod, devices, e); }
    DropNothing(d, byPod, pod, devices);
  }

  /** Retiring a reservation leaves, for every resource, the entries of other Pods with other device sets
      exactly as they were, and no entry that names the Pod. */
  lemma RetiringIsBounded(r: Reservations, pod: PodRef, devices: seq<string>, name: string)
    ensures var es, es' := EntriesOf(r, name), EntriesOf(ReconcileReservation(r, pod, devices), name);
            && Foreign(es', pod, devices) == Foreign(es, pod, devices)
            && !Names(es', pod)
            && (Names(es, pod) ==> es' == Drop(es, true, pod, devices))
  {
    var es := EntriesOf(r, name);
    var es' := EntriesOf(ReconcileReservation(r, pod, devices), name);
    assert es' == Retire(es, pod, devices);
    DropTwice(es, true, pod, devices);
    DropTwice(es, false, pod, devices);
    DropCommutes(es, pod, devices);
    DropCommutes(es', pod, devices);
    if Names(es', pod) {
      var e :| e in es' && e.pod == pod;
      DropElems(es, Names(es, pod), pod, devices, e);
      assert false;
    }
  }

  /** `es'` is the entries of `es` at the positions `ps`, in order. */
  predicate Selects(es: seq<Entry>, es': seq<Entry>, ps: seq<nat>) {
    && |ps| == |es'|
    && (forall k :: 0 <= k < |ps| ==> ps[k] < |es| && es'[k] == es[ps[k]])
    && (forall k, l :: 0 <= k < l < |ps| ==> ps[k] < ps[l])
  }

  lemma {:induction false} DropPositions(es: seq<Entry>, byPod: bool, pod: PodRef, devices: seq<string>) returns (ps: seq<nat>)
    ensures Selects(es, Drop(es, byPod, pod, devices), ps)
    ensures forall i :: 0 <= i < |es| ==> (i in ps <==> !Retires(byPod, es[i], pod, devices))
  {
    if es == [] {
      ps := [];
    } else {
      var n := |es| - 1;
      var before := DropPositions(es[..n], byPod, pod, devices);
      ps := before + if Retires(byPod, es[n], pod, devices) then [] else [n];
      OnePositionMore(es, Drop(es[..n], byPod, pod, devices), before, if Retires(byPod, es[n], pod, devices) then [] else [n]);
    }
  }

  lemma OnePositionMore(es: seq<Entry>, d: seq<Entry>, ps: seq<nat>, more: seq<nat>)
    requires es != [] && Selects(es[..|es| - 1], d, ps) && (more == [] || more == [|es| - 1])
    ensures Selects(es, d + if more == [] then [] else [es[|es| - 1]], ps + more)
    ensures forall i :: 0 <= i < |es| ==> (i in ps + more <==> if i < |es| - 1 then i in ps else more != [])
  {
    assert forall k :: 0 <= k < |ps| ==> ps[k] < |es| - 1;
  }

  /** What retiring removes from each resource's reservation, entry by entry: the entries naming the Pod if
      there are any, and otherwise those for exactly the same devices. The rest stays in order, and a
      reservation left without entries goes. */
  lemma RetiringIsExact(r: Reservations, pod: PodRef, devices: seq<string>, name: string) returns (ps: seq<nat>)
    ensures var es, r' := EntriesOf(r, name), ReconcileReservation(r, pod, devices);
            && Selects(es, EntriesOf(r', name), ps)
            && (name in r' ==> name in r && r'[name] != [])
            && ((exists e :: e in es && e.pod == pod) ==> forall i :: 0 <= i < |es| ==> (i in ps <==> es[i].pod != pod))
            && (!(exists e :: e in es && e.pod == pod) ==>
                  forall i :: 0 <= i < |es| ==> (i in ps <==> (set x | x in es[i].devices) != (set x | x in devices)))
  {
    var es := EntriesOf(r, name);
    ps := DropPositions(es, Names(es, pod), pod, devices);
  }

  // ----- The protocol -----

  /** The API server's copy: a write with a stale version is refused. */
  datatype Api = Api(version: nat, status: Status)

  /** A writer between two of its requests. A removal that does not find the Pod reads the status a
      second time, in reservation mode, before it writes. */
  datatype Writer =
    | Idle
    | Allocating(pod: PodRef, devices: seq<string>, pool: string, snap: Api)
    | Removing(pod: PodRef, snap: Api)
    | NotFound(pod: PodRef)
    | Releasing(pod: PodRef, snap: Api)

  datatype State = State(api: Api, writers: seq<Writer>, reservationMode: bool)

  datatype Step =
    | BeginAllocate(w: nat, pod: PodRef, devices: seq<string>, pool: string)
    | BeginRemove(w: nat, pod: PodRef, readOk: bool)
    | Reread(w: nat, readOk: bool)
    | Commit(w: nat)
    | Schedule(reservations: Reservations)
    | Touch

  predicate Enabled(s: State, step: Step) {
    match step
    case BeginAllocate(w, _, _, _) => w < |s.writers| && s.writers[w].Idle?
    case BeginRemove(w, _, _) => w < |s.writers| && s.writers[w].Idle?
    case Reread(w, _) => w < |s.writers| && s.writers[w].NotFound?
    case Commit(w) => w < |s.writers| && (s.writers[w].Allocating? || s.writers[w].Removing? || s.writers[w].Releasing?)
    case Schedule(_) => true
    case Touch => true
  }

  /** The status a writer sends, computed from its snapshot. */
  function Proposed(w: Writer): Status
    requires w.Allocating? || w.Removing? || w.Releasing?
  {
    var st := w.snap.status;
    match w
    case Allocating(pod, devices, pool, _) =>
      Status(st.allocations + [Allocation(Some(pod), devices, pool)], ReconcileReservation(st.reservations, pod, devices))
    case Removing(pod, _) =>
      st.(allocations := RemoveAllocationIndex(st.allocations, IndexOf(st.allocations, pod)))
    case Releasing(pod, _) =>
      st.(reservations := ReconcileReservation(st.reservations, pod, []))
  }

  predicate Accepts(s: State, step: Step)
    requires Enabled(s, step) && step.Commit?
  {
    s.writers[step.w].snap.version == s.api.version
  }

  function Apply(s: State, step: Step): State
    requires Enabled(s, step)
  {
    match step
    case BeginAllocate(w, pod, devices, pool) =>
      if Holds(s.api.status.allocations, pod) then s
      else s.(writers := s.writers[w := Allocating(pod, devices, pool, s.api)])
    case BeginRemove(w, pod, readOk) =>
      if readOk && Holds(s.api.status.allocations, pod) then s.(writers := s.writers[w := Removing(pod, s.api)])
      else if s.reservationMode then s.(writers := s.writers[w := NotFound(pod)])
      else s
    case Reread(w, readOk) =>
      if readOk then s.(writers := s.writers[w := Releasing(s.writers[w].pod, s.api)])
      else s.(writers := s.writers[w := Idle])
    case Commit(w) =>
      s.(api := if Accepts(s, step) then Api(s.api.version + 1, Proposed(s.writers[w])) else s.api,
         writers := s.writers[w := Idle])
    case Schedule(reservations) =>
      s.(api := Api(s.api.version + 1, s.api.status.(reservations := reservations)))
    case Touch =>
      s.(api := s.api.(version := s.api.version + 1))
  }

  predicate IsRun(states: seq<State>, steps: seq<Step>) {
    && |states| == |steps| + 1
    && forall i :: 0 <= i < |steps| ==> Enabled(states[i], steps[i]) && states[i + 1] == Apply(states[i], steps[i])
  }

  predicate Initial(s: State) {
    && s.api.status.allocations == []
    && forall i :: 0 <= i < |s.writers| ==> s.writers[i].Idle?
  }

  /** A snapshot is as old as its version says. */
  predicate Honest(w: Writer, api: Api) {
    w.Allocating? || w.Removing? || w.Releasing? ==>
      && w.snap.version <= api.version
      && (w.snap.version == api.version ==> w.snap == api)
  }

  predicate Sound(w: Writer) {
    && (w.Allocating? ==> !Holds(w.snap.status.allocations, w.pod))
    && (w.Removing? ==> Holds(w.snap.status.allocations, w.pod))
  }

  predicate Invariant(s: State) {
    && OnePerPod(s.api.status.allocations)
    && forall i :: 0 <= i < |s.writers| ==> Honest(s.writers[i], s.api) && Sound(s.writers[i])
  }

  lemma StepKeepsInvariant(s: State, step: Step)
    requires Invariant(s) && Enabled(s, step)
    ensures Invariant(Apply(s, step))
  {
  }

  /** In every interleaving of any number of writers with a scheduler and other edits of the object, no
      Pod generation ever has two allocations. */
  lemma {:induction false} NeverTwoAllocations(states: seq<State>, steps: seq<Step>)
    requires IsRun(states, steps) && Initial(states[0])
    ensures forall i :: 0 <= i < |states| ==> Invariant(states[i])
  {
    if steps != [] {
      var n := |steps| - 1;
      NeverTwoAllocations(states[..n + 1], steps[..n]);
      assert states[..n + 1][n] == states[n];
      StepKeepsInvariant(states[n], steps[n]);
    }
  }

  /** An accepted write does to the current status what its author meant to do to the one it read: an
      allocation adds one entry and retires the reservation, a removal takes exactly its entry away. */
  lemma AcceptedWrite(s: State, step: Step)
    requires Invariant(s) && Enabled(s, step) && step.Commit? && Accepts(s, step)
    ensures var w, st, st' := s.writers[step.w], s.api.status, Apply(s, step).api.status;
            && (w.Allocating? ==>
                  && !Holds(st.allocations, w.pod)
                  && st'.allocations == st.allocations + [Allocation(Some(w.pod), w.devices, w.pool)]
                  && st'.reservations == ReconcileReservation(st.reservations, w.pod, w.devices))
            && (w.Removing? ==>
                  && Holds(st.allocations, w.pod) && !Holds(st'.allocations, w.pod)
                  && st'.allocations == Without(st.allocations, w.pod) && st'.reservations == st.reservations)
            && (w.Releasing? ==>
                  && st'.allocations == st.allocations
                  && st'.reservations == ReconcileReservation(st.reservations, w.pod, []))
  {
    var w := s.writers[step.w];
    assert Honest(w, s.api) && Sound(w);
    if w.Removing? {
      RemovalIsExact(s.api.status.allocations, w.pod);
    }
  }

  /** The steps on which a removal reports success, and for which Pod. */
  function RemovedPod(s: State, step: Step): Option<PodRef>
    requires Enabled(s, step)
  {
    match step
    case BeginRemove(_, pod, readOk) =>
      if !(readOk && Holds(s.api.status.allocations, pod)) && !s.reservationMode then Some(pod) else None
    case Reread(w, readOk) => if readOk then None else Some(s.writers[w].pod)
    case Commit(w) =>
      if !s.writers[w].Allocating? && Accepts(s, step) then Some(s.writers[w].pod) else None
    case _ => None
  }

  // ----- What a successful removal leaves -----

  /** An accepted allocation for the Pod, and an accepted removal of its entry. */
  predicate Allots(s: State, step: Step, pod: PodRef) {
    && Enabled(s, step) && step.Commit? && Accepts(s, step)
    && s.writers[step.w].Allocating? && s.writers[step.w].pod == pod
  }

  predicate TakesAway(s: State, step: Step, pod: PodRef) {
    && Enabled(s, step) && step.Commit? && Accepts(s, step)
    && s.writers[step.w].Removing? && s.writers[step.w].pod == pod
  }

  predicate HoldsAt(states: seq<State>, n: nat, pod: PodRef)
    requires n < |states|
  {
    Holds(states[n].api.status.allocations, pod)
  }

  /** From step `b` up to step `n` the Pod was allocated after its last removal. */
  predicate AllottedSince(states: seq<State>, steps: seq<Step>, b: nat, n: nat, pod: PodRef)
    requires b <= n <= |steps| <= |states|
  {
    exists j :: b <= j < n && Allots(states[j], steps[j], pod) && NotTaken(states, steps, j + 1, n, pod)
  }

  predicate NotTaken(states: seq<State>, steps: seq<Step>, b: nat, n: nat, pod: PodRef)
    requires b <= n <= |steps| <= |states|
  {
    forall i :: b <= i < n ==> !TakesAway(states[i], steps[i], pod)
  }

  lemma HeldAfterStep(s: State, step: Step, pod: PodRef)
    requires Invariant(s) && Enabled(s, step)
    ensures Holds(Apply(s, step).api.status.allocations, pod) <==>
            Allots(s, step, pod) || (Holds(s.api.status.allocations, pod) && !TakesAway(s, step, pod))
  {
    if step.Commit? && Accepts(s, step) {
      AcceptedWrite(s, step);
      var a := s.api.status.allocations;
      if s.writers[step.w].Removing? {
        WithoutElems(a, s.writers[step.w].pod);
      } else if s.writers[step.w].Allocating? {
        var x := Allocation(Some(s.writers[step.w].pod), s.writers[step.w].devices, s.writers[step.w].pool);
        assert x in a + [x];
        forall y | y in a ensures y in a + [x] { }
      }
    }
  }

  lemma {:induction false} WithoutElems(a: seq<Allocation>, pod: PodRef)
    ensures forall x :: x in Without(a, pod) <==> x in a && x.pod != Some(pod)
  {
    if a != [] {
      var n := |a| - 1;
      WithoutElems(a[..n], pod);
      assert a == a[..n] + [a[n]];
    }
  }

  lemma AllottedStep(states: seq<State>, steps: seq<Step>, b: nat, n: nat, pod: PodRef)
    requires b < n <= |steps| <= |states|
    ensures AllottedSince(states, steps, b, n, pod) <==>
            || Allots(states[n - 1], steps[n - 1], pod)
            || (AllottedSince(states, steps, b, n - 1, pod) && !TakesAway(states[n - 1], steps[n - 1], pod))
  {
    if Allots(states[n - 1], steps[n - 1], pod) {
      assert NotTaken(states, steps, n, n, pod);
    } else {
      if j :| b <= j < n && Allots(states[j], steps[j], pod) && NotTaken(states, steps, j + 1, n, pod) {
        assert NotTaken(states, steps, j + 1, n - 1, pod);
      }
      if j :| b <= j < n - 1 && Allots(states[j], steps[j], pod) && NotTaken(states, steps, j + 1, n - 1, pod) {
        assert !TakesAway(states[n - 1], steps[n - 1], pod) ==> NotTaken(states, steps, j + 1, n, pod);
      }
    }
  }

  /** Whether a Pod is held is what the accepted writes for it since any earlier moment say. */
  lemma {:induction false} HeldByHistory(states: seq<State>, steps: seq<Step>, b: nat, n: nat, pod: PodRef)
    requires IsRun(states, steps) && Initial(states[0]) && b <= n <= |steps|
    ensures HoldsAt(states, n, pod) <==>
            AllottedSince(states, steps, b, n, pod) || (HoldsAt(states, b, pod) && NotTaken(states, steps, b, n, pod))
    decreases n
  {
    if b < n {
      HeldByHistory(states, steps, b, n - 1, pod);
      AllottedStep(states, steps, b, n, pod);
      StepInRun(states, steps, n - 1, pod);
      NotTakenStep(states, steps, b, n, pod);
    }
  }

  lemma NotTakenStep(states: seq<State>, steps: seq<Step>, b: nat, n: nat, pod: PodRef)
    requires b < n <= |steps| <= |states|
    ensures NotTaken(states, steps, b, n, pod) <==>
            NotTaken(states, steps, b, n - 1, pod) && !TakesAway(states[n - 1], steps[n - 1], pod)
  {
  }

  lemma StepInRun(states: seq<State>, steps: seq<Step>, k: nat, pod: PodRef)
    requires IsRun(states, steps) && Initial(states[0]) && k < |steps|
    ensures Invariant(states[k])
    ensures HoldsAt(states, k + 1, pod) <==>
            Allots(states[k], steps[k], pod) || (HoldsAt(states, k, pod) && !TakesAway(states[k], steps[k], pod))
  {
    NeverTwoAllocations(states, steps);
    HeldAfterStep(states[k], steps[k], pod);
  }

  /** One attempt of writer `w` at a removal: begun at step `b`, in hand ever since, and reporting success
      at step `k`. */
  predicate Attempt(states: seq<State>, steps: seq<Step>, w: nat, b: nat, k: nat) {
    && IsRun(states, steps) && b <= k < |steps|
    && steps[b].BeginRemove? && steps[b].w == w
    && (b < k ==> (steps[k].Reread? || steps[k].Commit?) && steps[k].w == w)
    && (forall i :: b < i <= k ==> InHand(states[i], w))
    && RemovedPod(states[k], steps[k]) == Some(steps[b].pod)
  }

  predicate InHand(s: State, w: nat) {
    w < |s.writers| && !s.writers[w].Idle?
  }

  /** The attempt's read succeeded and the Pod's entry was there. */
  predicate Found(states: seq<State>, steps: seq<Step>, b: nat)
    requires b < |steps| && b < |states| && steps[b].BeginRemove?
  {
    steps[b].readOk && HoldsAt(states, b, steps[b].pod)
  }

  /** Where the writer is while it has the removal in hand. */
  lemma {:induction false} WhereWriterIs(states: seq<State>, steps: seq<Step>, w: nat, b: nat, k: nat, i: nat)
    requires Attempt(states, steps, w, b, k) && b < i <= k
    ensures w < |states[i].writers|
    ensures var x := states[i].writers[w];
            if Found(states, steps, b) then x == Removing(steps[b].pod, states[b].api)
            else (x.NotFound? || x.Releasing?) && x.pod == steps[b].pod
    decreases i
  {
    assert Enabled(states[i - 1], steps[i - 1]) && states[i] == Apply(states[i - 1], steps[i - 1]);
    assert InHand(states[i], w);
    if b + 1 < i {
      WhereWriterIs(states, steps, w, b, k, i - 1);
    }
  }

  /** Any number of writers: a removal that reports success leaves the Pod's allocation behind exactly when
      it did not find the entry and, since it looked, another writer allocated the Pod for good, or the
      entry it failed to read has not been taken away by another. */
  lemma SuccessfulRemoval(states: seq<State>, steps: seq<Step>, w: nat, b: nat, k: nat)
    requires Attempt(states, steps, w, b, k) && Initial(states[0])
    ensures var pod := steps[b].pod;
            HoldsAt(states, k + 1, pod) <==>
            && !Found(states, steps, b)
            && (|| AllottedSince(states, steps, b, k, pod)
                || (!steps[b].readOk && HoldsAt(states, b, pod) && NotTaken(states, steps, b, k, pod)))
  {
    var pod := steps[b].pod;
    HeldByHistory(states, steps, b, k, pod);
    StepInRun(states, steps, k, pod);
    if b < k {
      WhereWriterIs(states, steps, w, b, k, k);
      if Found(states, steps, b) {
        AcceptedWrite(states[k], steps[k]);
      }
    }
  }

  /** The plugin's single worker: a removal that reports success leaves the allocation behind exactly when
      its first read failed and the Pod held one. */
  lemma SingleWorkerRemoves(states: seq<State>, steps: seq<Step>, b: nat, k: nat)
    requires Attempt(states, steps, 0, b, k) && Initial(states[0]) && |states[0].writers| == 1
    ensures HoldsAt(states, k + 1, steps[b].pod) <==> !steps[b].readOk && HoldsAt(states, b, steps[b].pod)
  {
    SuccessfulRemoval(states, steps, 0, b, k);
    forall i | b <= i < k
      ensures !Allots(states[i], steps[i], steps[b].pod) && !TakesAway(states[i], steps[i], steps[b].pod)
    {
      WriterCount(states, steps, i);
      if b < i {
        WhereWriterIs(states, steps, 0, b, k, i);
        assert InHand(states[i + 1], 0) && states[i + 1] == Apply(states[i], steps[i]);
      }
    }
  }

  lemma {:induction false} WriterCount(states: seq<State>, steps: seq<Step>, i: nat)
    requires IsRun(states, steps) && i < |states|
    ensures |states[i].writers| == |states[0].writers|
  {
    if i > 0 {
      WriterCount(states, steps, i - 1);
      assert states[i] == Apply(states[i - 1], steps[i - 1]);
    }
  }

  // ----- Removals that leave the allocation behind -----

  const LEAK_POD := PodRef("p1", "ns1", "uid-1")
  const LEAKED := Allocation(Some(LEAK_POD), ["d1"], "spyre_pf")

  function LeakStates(): seq<State> {
    var before, after := Api(0, Status([], map[])), Api(1, Status([LEAKED], map[]));
    [State(before, [Idle, Idle], true),
     State(before, [NotFound(LEAK_POD), Idle], true),
     State(before, [NotFound(LEAK_POD), Allocating(LEAK_POD, ["d1"], "spyre_pf", before)], true),
     State(after, [NotFound(LEAK_POD), Idle], true),
     State(after, [Releasing(LEAK_POD, after), Idle], true),
     State(after.(version := 2), [Idle, Idle], true)]
  }

  function LeakSteps(): seq<Step> {
    [BeginRemove(0, LEAK_POD, true), BeginAllocate(1, LEAK_POD, ["d1"], "spyre_pf"), Commit(1), Reread(0, true), Commit(0)]
  }

  lemma LeakIsARun()
    ensures IsRun(LeakStates(), LeakSteps())
  {
    var ss, ts := LeakStates(), LeakSteps();
    forall i | 0 <= i < 5 ensures Enabled(ss[i], ts[i]) && ss[i + 1] == Apply(ss[i], ts[i]) {
      if i == 0 {
        assert ss[0].writers[0 := NotFound(LEAK_POD)] == ss[1].writers;
      } else if i == 1 {
        assert ss[1].writers[1 := Allocating(LEAK_POD, ["d1"], "spyre_pf", ss[1].api)] == ss[2].writers;
      } else if i == 2 {
        assert ReconcileReservation(map[], LEAK_POD, ["d1"]) == map[] && [] + [LEAKED] == [LEAKED];
        assert ss[2].writers[1 := Idle] == ss[3].writers;
      } else if i == 3 {
        assert ss[3].writers[0 := Releasing(LEAK_POD, ss[3].api)] == ss[4].writers;
      } else {
        assert ReconcileReservation(map[], LEAK_POD, []) == map[];
        assert ss[4].writers[0 := Idle] == ss[5].writers;
      }
    }
  }

  /** With so many workers, a removal begun at step `b`, whose first read may succeed or not, reports
      success at step `k` and leaves the Pod's allocation behind. */
  predicate Leaks(states: seq<State>, steps: seq<Step>, b: nat, k: nat, workers: nat, readOk: bool) {
    && Attempt(states, steps, 0, b, k) && Initial(states[0])
    && |states[0].writers| == workers && steps[b].readOk == readOk
    && HoldsAt(states, k + 1, steps[b].pod)
  }

  /** With a second worker: an allocation committed between the two reads of a removal survives it. */
  lemma SecondWorkerLeaks()
    ensures exists states, steps, b, k :: Leaks(states, steps, b, k, 2, true)
  {
    LeakIsARun();
    var ss, ts := LeakStates(), LeakSteps();
    assert forall i :: 0 < i <= 4 ==> InHand(ss[i], 0);
    assert ss[4] == State(Api(1, Status([LEAKED], map[])), [Releasing(LEAK_POD, Api(1, Status([LEAKED], map[]))), Idle], true);
    assert RemovedPod(ss[4], ts[4]) == Some(LEAK_POD);
    assert ss[4 + 1].api.status.allocations == [LEAKED] && LEAKED in [LEAKED];
    assert Leaks(ss, ts, 0, 4, 2, true);
  }

  /** With one worker: outside reservation mode a removal whose read fails reports success at once. */
  lemma FailedReadLeaks()
    ensures exists states, steps, b, k :: Leaks(states, steps, b, k, 1, false)
  {
    var before, after := Api(0, Status([], map[])), Api(1, Status([LEAKED], map[]));
    var ss := [State(before, [Idle], false),
               State(before, [Allocating(LEAK_POD, ["d1"], "spyre_pf", before)], false),
               State(after, [Idle], false),
               State(after, [Idle], false)];
    var ts := [BeginAllocate(0, LEAK_POD, ["d1"], "spyre_pf"), Commit(0), BeginRemove(0, LEAK_POD, false)];
    assert Apply(ss[0], ts[0]) == ss[1];
    assert Apply(ss[1], ts[1]) == ss[2] by {
      assert ReconcileReservation(map[], LEAK_POD, ["d1"]) == map[] && [] + [LEAKED] == [LEAKED];
    }
    assert Apply(ss[2], ts[2]) == ss[3];
    assert IsRun(ss, ts);
    assert LEAKED in ss[3].api.status.allocations;
    assert Leaks(ss, ts, 2, 2, 1, false);
  }

  /** In reservation mode too, when the second read fails as well. */
  lemma FailedReadsLeak()
    ensures exists states: seq<State>, steps, b, k :: Leaks(states, steps, b, k, 1, false) && states[0].reservationMode && b < k
  {
    var before, after := Api(0, Status([], map[])), Api(1, Status([LEAKED], map[]));
    var ss := [State(before, [Idle], true),
               State(before, [Allocating(LEAK_POD, ["d1"], "spyre_pf", before)], true),
               State(after, [Idle], true),
               State(after, [NotFound(LEAK_POD)], true),
               State(after, [Idle], true)];
    var ts := [BeginAllocate(0, LEAK_POD, ["d1"], "spyre_pf"), Commit(0), BeginRemove(0, LEAK_POD, false), Reread(0, false)];
    assert Apply(ss[0], ts[0]) == ss[1];
    assert Apply(ss[1], ts[1]) == ss[2] by {
      assert ReconcileReservation(map[], LEAK_POD, ["d1"]) == map[] && [] + [LEAKED] == [LEAKED];
    }
    assert Apply(ss[2], ts[2]) == ss[3] && Apply(ss[3], ts[3]) == ss[4];
    assert IsRun(ss, ts);
    assert InHand(ss[3], 0) && LEAKED in ss[4].api.status.allocations;
    assert Leaks(ss, ts, 2, 3, 1, false);
  }
}
