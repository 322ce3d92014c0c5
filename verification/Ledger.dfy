/** The shared allocation ledger and the resource pools it informs, as values: what one notification
    does to one pool, what one message does to the whole plugin, and when the two views of who holds
    a device agree. The mutable form is in module SharedInfo. */
module Ledger {
  import opened Strings
  import opened Types

  datatype AllocationInfo = AllocationInfo(deviceIDs: seq<string>, mountPoints: seq<string>, resourceName: string)
  datatype DeallocationInfo = DeallocationInfo(deviceIDs: seq<string>, resourceName: string)

  /** A resource pool: the devices it was built with and what it believes about their allocation. */
  datatype Pool = Pool(name: string, devices: map<string, ApiDevice>, other: map<string, bool>, self: map<string, bool>)

  type Allocations = map<string, AllocationInfo>

  predicate IsTopologyAware(resourceName: string) {
    Contains(resourceName, "tier")
  }

  // ----- One notification -----

  function Marked(m: map<string, bool>): set<string> {
    set d | d in m && m[d]
  }

  /** What the update loop leaves in an allocation map: de-allocating never adds a key. */
  function SetAll(m: map<string, bool>, targets: set<string>, taken: bool): (r: map<string, bool>)
    ensures Marked(r) == if taken then Marked(m) + targets else Marked(m) - targets
  {
    map d | d in m.Keys + (if taken then targets else {}) :: if d in targets then taken else m[d]
  }

  /** Whether a notification goes to the pool's own map. A de-allocation naming another resource does
      so when it mentions any device the pool holds itself (the anonymous de-allocation rule). */
  predicate TargetsSelf(p: Pool, ds: seq<string>, taken: bool, self: bool) {
    self || (!taken && exists d :: d in ds && d in Marked(p.self))
  }

  function Informed(p: Pool, ds: seq<string>, taken: bool, self: bool): Pool {
    var targets := Elems(ds) * p.devices.Keys;
    if TargetsSelf(p, ds, taken, self)
    then p.(self := SetAll(p.self, targets, taken))
    else p.(other := SetAll(p.other, targets, taken))
  }

  function NotifyPool(p: Pool, name: string, ds: seq<string>, taken: bool): Pool {
    if p.name != name then Informed(p, ds, taken, false)
    else if IsTopologyAware(name) then Informed(p, ds, taken, true)
    else p
  }

  function Notify(ps: seq<Pool>, name: string, ds: seq<string>, taken: bool): seq<Pool> {
    seq(|ps|, i requires 0 <= i < |ps| => NotifyPool(ps[i], name, ds, taken))
  }

  /** What the pool advertises to kubelet. */
  function Advertised(p: Pool): map<string, ApiDevice> {
    map d | d in p.devices && d !in Marked(p.other) :: p.devices[d]
  }

  // ----- One message -----

  predicate IsDuplicate(l: Allocations, info: AllocationInfo, d: string) {
    d in l && l[d].resourceName == info.resourceName && l[d].mountPoints == info.mountPoints
  }

  predicate IsConflict(l: Allocations, name: string, d: string) {
    d in l && l[d].resourceName != name
  }

  /** How many device IDs the scan passes before a duplicate stops it; all of them if there is none. */
  function Scanned(l: Allocations, info: AllocationInfo, ds: seq<string>): (k: nat)
    ensures k <= |ds|
    ensures forall i :: 0 <= i < k ==> !IsDuplicate(l, info, ds[i])
    ensures k < |ds| ==> IsDuplicate(l, info, ds[k])
  {
    if ds == [] || IsDuplicate(l, info, ds[0]) then 0 else 1 + Scanned(l, info, ds[1..])
  }

  function Lookup(c: map<string, seq<string>>, r: string): seq<string> {
    if r in c then c[r] else []
  }

  /** The conflicts collected from a scanned prefix, grouped by the resource that holds them. */
  function Conflicts(l: Allocations, name: string, ds: seq<string>): map<string, seq<string>> {
    if ds == [] then map[]
    else
      var c := Conflicts(l, name, ds[..|ds| - 1]);
      var d := ds[|ds| - 1];
      if IsConflict(l, name, d) then c[l[d].resourceName := Lookup(c, l[d].resourceName) + [d]] else c
  }

  function ConflictSet(l: Allocations, name: string, ds: seq<string>): set<string> {
    set d | d in ds && IsConflict(l, name, d)
  }

  lemma {:induction false} ConflictsGrouped(l: Allocations, name: string, ds: seq<string>)
    ensures forall r, d :: d in Lookup(Conflicts(l, name, ds), r) <==>
                           d in ConflictSet(l, name, ds) && l[d].resourceName == r
    ensures forall r :: r in Conflicts(l, name, ds) <==>
                        exists d :: d in ConflictSet(l, name, ds) && l[d].resourceName == r
  {
    if ds != [] {
      var ds' := ds[..|ds| - 1];
      var last := ds[|ds| - 1];
      ConflictsGrouped(l, name, ds');
      assert ds == ds' + [last];
      var s, s' := ConflictSet(l, name, ds), ConflictSet(l, name, ds');
      assert s == if IsConflict(l, name, last) then s' + {last} else s';
      var c, c' := Conflicts(l, name, ds), Conflicts(l, name, ds');
      forall r
        ensures Lookup(c, r) == Lookup(c', r) + if last in s && l[last].resourceName == r then [last] else []
      {
        assert Lookup(c', r) + [] == Lookup(c', r);
      }
    }
  }

  /** `order` lists the keys of the conflict map once each: one of the orders Go may range over it. */
  predicate IsRangeOrder(order: seq<string>, c: map<string, seq<string>>) {
    && Elems(order) == c.Keys
    && forall i, j :: 0 <= i < j < |order| ==> order[i] != order[j]
  }

  /** De-allocate the conflicting devices, resource by resource. */
  function TakeoverPool(p: Pool, c: map<string, seq<string>>, order: seq<string>): Pool {
    if order == [] then p
    else
      var r := order[|order| - 1];
      NotifyPool(TakeoverPool(p, c, order[..|order| - 1]), r, Lookup(c, r), false)
  }

  function Takeover(ps: seq<Pool>, c: map<string, seq<string>>, order: seq<string>): seq<Pool> {
    seq(|ps|, i requires 0 <= i < |ps| => TakeoverPool(ps[i], c, order))
  }

  function AssignAll(l: Allocations, ds: seq<string>, info: AllocationInfo): Allocations {
    map d | d in l.Keys + Elems(ds) :: if d in ds then info else l[d]
  }

  /** What `updateAllocation` scans before it stops, and what it collects on the way. */
  function ScannedIDs(l: Allocations, info: AllocationInfo): seq<string> {
    info.deviceIDs[..Scanned(l, info, info.deviceIDs)]
  }

  predicate FindsDuplicate(l: Allocations, info: AllocationInfo) {
    Scanned(l, info, info.deviceIDs) < |info.deviceIDs|
  }

  function Collected(l: Allocations, info: AllocationInfo): map<string, seq<string>> {
    Conflicts(l, info.resourceName, ScannedIDs(l, info))
  }

  datatype State = State(ledger: Allocations, pools: seq<Pool>, reserved: map<string, int>)

  function UpdateAllocation(s: State, info: AllocationInfo, order: seq<string>): State {
    var freed := Takeover(s.pools, Collected(s.ledger, info), order);
    if FindsDuplicate(s.ledger, info) then s.(pools := freed)
    else s.(ledger := AssignAll(s.ledger, info.deviceIDs, info),
            pools := Notify(freed, info.resourceName, info.deviceIDs, true))
  }

  function DeleteAllocation(s: State, info: DeallocationInfo): State {
    s.(ledger := s.ledger - Elems(info.deviceIDs),
       pools := Notify(s.pools, info.resourceName, info.deviceIDs, false))
  }

  // ----- Agreement -----

  /** The pool's devices that the ledger gives to another resource. */
  function HeldByOthers(p: Pool, l: Allocations): set<string> {
    set d | d in p.devices && IsConflict(l, p.name, d)
  }

  /** The pool's devices that the ledger gives to the pool itself; only a topology-aware pool tracks them. */
  function HeldBySelf(p: Pool, l: Allocations): set<string> {
    set d | d in p.devices && IsTopologyAware(p.name) && d in l && l[d].resourceName == p.name
  }

  predicate Agrees(p: Pool, l: Allocations) {
    && Marked(p.other) == HeldByOthers(p, l)
    && Marked(p.self) == HeldBySelf(p, l)
  }

  predicate Consistent(s: State) {
    forall i :: 0 <= i < |s.pools| ==> Agrees(s.pools[i], s.ledger)
  }

  /** The pool records who holds `d`: every pool containing it except a plain pool of the holder. */
  predicate Tracks(p: Pool, l: Allocations, d: string) {
    d in HeldByOthers(p, l) + HeldBySelf(p, l)
  }

  /** An allocation may be cut short by a duplicate only if no pool tracks a conflict collected before it. */
  predicate SafeAllocation(s: State, info: AllocationInfo) {
    FindsDuplicate(s.ledger, info) ==>
      forall i, d :: 0 <= i < |s.pools| && d in ConflictSet(s.ledger, info.resourceName, ScannedIDs(s.ledger, info)) ==>
                     !Tracks(s.pools[i], s.ledger, d)
  }

  /** A pool the de-allocation names, or a topology-aware pool losing a device of its own, must not see
      a device of some other holder in the same message. */
  predicate SafeDeallocationFor(p: Pool, l: Allocations, info: DeallocationInfo) {
    p.name == info.resourceName || (exists d :: d in info.deviceIDs && d in HeldBySelf(p, l)) ==>
      forall d :: d in info.deviceIDs ==> d !in HeldByOthers(p, l)
  }

  predicate SafeDeallocation(s: State, info: DeallocationInfo) {
    forall i :: 0 <= i < |s.pools| ==> SafeDeallocationFor(s.pools[i], s.ledger, info)
  }

  /** A newly registered pool starts with empty maps. */
  predicate SafeRegistration(s: State, p: Pool) {
    forall d :: d in p.devices ==> !Tracks(p, s.ledger, d)
  }

  // ----- Conflict takeover does not depend on the order -----

  /** Devices `xs` dropped from whichever of the pool's two maps the ledger says they are in. */
  function Dropped(p: Pool, l: Allocations, xs: set<string>): Pool {
    p.(self := SetAll(p.self, xs * HeldBySelf(p, l), false),
       other := SetAll(p.other, xs * HeldByOthers(p, l), false))
  }

  function HeldByAny(l: Allocations, xs: set<string>, names: seq<string>): set<string> {
    set d | d in xs && d in l && l[d].resourceName in names
  }

  lemma ShareOf(l: Allocations, name: string, ds: seq<string>, r: string)
    ensures forall d :: d in Lookup(Conflicts(l, name, ds), r) <==>
                        d in ConflictSet(l, name, ds) && d in l && l[d].resourceName == r
  {
  }

  lemma {:induction false} TakeoverClosedForm(p: Pool, l: Allocations, name: string, ds: seq<string>, order: seq<string>)
    requires Agrees(p, l)
    ensures TakeoverPool(p, Conflicts(l, name, ds), order) ==
            Dropped(p, l, HeldByAny(l, ConflictSet(l, name, ds), order))
  {
    var c, xs := Conflicts(l, name, ds), ConflictSet(l, name, ds);
    if order == [] {
      assert HeldByAny(l, xs, order) == {};
    } else {
      var r := order[|order| - 1];
      var prev := order[..|order| - 1];
      TakeoverClosedForm(p, l, name, ds, prev);
      ShareOf(l, name, ds, r);
      assert order == prev + [r];
      DropOneResource(p, l, xs, prev, r, Lookup(c, r));
    }
  }

  /** One resource's share of the conflicts: the notification drops exactly that share. */
  lemma DropOneResource(p: Pool, l: Allocations, xs: set<string>, prev: seq<string>, r: string, ds: seq<string>)
    requires Agrees(p, l)
    requires forall d :: d in ds <==> d in xs && d in l && l[d].resourceName == r
    ensures NotifyPool(Dropped(p, l, HeldByAny(l, xs, prev)), r, ds, false) ==
            Dropped(p, l, HeldByAny(l, xs, prev + [r]))
  {
    var a, b := HeldByAny(l, xs, prev), HeldByAny(l, xs, prev + [r]);
    assert b == a + Elems(ds);
    var q := Dropped(p, l, a);
    var targets := Elems(ds) * p.devices.Keys;
    if p.name == r {
      assert b * HeldByOthers(p, l) == a * HeldByOthers(p, l);
      assert b * HeldBySelf(p, l) == a * HeldBySelf(p, l) + if IsTopologyAware(r) then targets else {};
      SetAllTwice(p.self, a * HeldBySelf(p, l), targets);
    } else {
      assert b * HeldBySelf(p, l) == a * HeldBySelf(p, l);
      assert b * HeldByOthers(p, l) == a * HeldByOthers(p, l) + targets;
      SetAllTwice(p.other, a * HeldByOthers(p, l), targets);
      assert !TargetsSelf(q, ds, false, false) by {
        forall d | d in ds ensures d !in Marked(q.self) { assert d !in HeldBySelf(p, l); }
      }
    }
  }

  lemma SetAllTwice(m: map<string, bool>, a: set<string>, b: set<string>)
    ensures SetAll(SetAll(m, a, false), b, false) == SetAll(m, a + b, false)
  {
  }

  /** Whatever order the conflict map is ranged in, the ledger and every pool end in the same state. */
  lemma TakeoverOrderIrrelevant(s: State, info: AllocationInfo, order1: seq<string>, order2: seq<string>)
    requires Consistent(s)
    requires IsRangeOrder(order1, Collected(s.ledger, info)) && IsRangeOrder(order2, Collected(s.ledger, info))
    ensures UpdateAllocation(s, info, order1) == UpdateAllocation(s, info, order2)
  {
    var l, ds := s.ledger, ScannedIDs(s.ledger, info);
    var xs := ConflictSet(l, info.resourceName, ds);
    assert HeldByAny(l, xs, order1) == HeldByAny(l, xs, order2) by {
      assert forall x :: x in order1 <==> x in Elems(order1);
      assert forall x :: x in order2 <==> x in Elems(order2);
    }
    forall i | 0 <= i < |s.pools|
      ensures TakeoverPool(s.pools[i], Collected(l, info), order1) == TakeoverPool(s.pools[i], Collected(l, info), order2)
    {
      TakeoverClosedForm(s.pools[i], l, info.resourceName, ds, order1);
      TakeoverClosedForm(s.pools[i], l, info.resourceName, ds, order2);
    }
    assert Takeover(s.pools, Collected(l, info), order1) == Takeover(s.pools, Collected(l, info), order2);
  }

  // ----- Exactly which messages keep the views in agreement -----

  lemma AllHeld(l: Allocations, name: string, ds: seq<string>, order: seq<string>)
    requires IsRangeOrder(order, Conflicts(l, name, ds))
    ensures HeldByAny(l, ConflictSet(l, name, ds), order) == ConflictSet(l, name, ds)
  {
    ConflictsGrouped(l, name, ds);
    assert forall x :: x in order <==> x in Elems(order);
  }

  lemma AllocationPool(p: Pool, l: Allocations, info: AllocationInfo, order: seq<string>)
    requires Agrees(p, l) && IsRangeOrder(order, Collected(l, info)) && !FindsDuplicate(l, info)
    ensures Agrees(NotifyPool(TakeoverPool(p, Collected(l, info), order), info.resourceName, info.deviceIDs, true),
                   AssignAll(l, info.deviceIDs, info))
  {
    assert ScannedIDs(l, info) == info.deviceIDs;
    TakeoverClosedForm(p, l, info.resourceName, info.deviceIDs, order);
    AllHeld(l, info.resourceName, info.deviceIDs, order);
    if p.name == info.resourceName {
      RecordOwn(p, l, info);
    } else {
      RecordOther(p, l, info);
    }
  }

  lemma RecordOwn(p: Pool, l: Allocations, info: AllocationInfo)
    requires Agrees(p, l) && p.name == info.resourceName
    ensures Agrees(NotifyPool(Dropped(p, l, ConflictSet(l, p.name, info.deviceIDs)), p.name, info.deviceIDs, true),
                   AssignAll(l, info.deviceIDs, info))
  {
  }

  lemma RecordOther(p: Pool, l: Allocations, info: AllocationInfo)
    requires Agrees(p, l) && p.name != info.resourceName
    ensures Agrees(NotifyPool(Dropped(p, l, ConflictSet(l, info.resourceName, info.deviceIDs)),
                              info.resourceName, info.deviceIDs, true),
                   AssignAll(l, info.deviceIDs, info))
  {
  }

  /** An allocation keeps every pool in agreement with the ledger exactly when it is safe: the only
      failure is a scan that stops at a duplicate after notifying conflicts it then does not record. */
  lemma AllocationKeepsAgreement(s: State, info: AllocationInfo, order: seq<string>)
    requires Consistent(s) && IsRangeOrder(order, Collected(s.ledger, info))
    ensures Consistent(UpdateAllocation(s, info, order)) <==> SafeAllocation(s, info)
  {
    var l, ds := s.ledger, ScannedIDs(s.ledger, info);
    var xs := ConflictSet(l, info.resourceName, ds);
    var s' := UpdateAllocation(s, info, order);
    forall i | 0 <= i < |s.pools|
      ensures Agrees(s'.pools[i], s'.ledger) <==>
              FindsDuplicate(l, info) ==> forall d :: d in xs ==> !Tracks(s.pools[i], l, d)
    {
      var p := s.pools[i];
      if FindsDuplicate(l, info) {
        TakeoverClosedForm(p, l, info.resourceName, ds, order);
        AllHeld(l, info.resourceName, ds, order);
        DropChangesTracked(p, l, xs);
      } else {
        AllocationPool(p, l, info, order);
      }
    }
  }

  lemma DropChangesTracked(p: Pool, l: Allocations, xs: set<string>)
    requires Agrees(p, l)
    ensures Agrees(Dropped(p, l, xs), l) <==> forall d :: d in xs ==> !Tracks(p, l, d)
  {
  }

  lemma DeallocationPool(p: Pool, l: Allocations, info: DeallocationInfo)
    requires Agrees(p, l)
    ensures Agrees(NotifyPool(p, info.resourceName, info.deviceIDs, false), l - Elems(info.deviceIDs)) <==>
            SafeDeallocationFor(p, l, info)
  {
  }

  /** A de-allocation keeps every pool in agreement exactly when it is safe for every pool. */
  lemma DeallocationKeepsAgreement(s: State, info: DeallocationInfo)
    requires Consistent(s)
    ensures Consistent(DeleteAllocation(s, info)) <==> SafeDeallocation(s, info)
  {
    var s' := DeleteAllocation(s, info);
    forall i | 0 <= i < |s.pools|
      ensures Agrees(s'.pools[i], s'.ledger) <==> SafeDeallocationFor(s.pools[i], s.ledger, info)
    {
      DeallocationPool(s.pools[i], s.ledger, info);
    }
  }

  function Register(s: State, name: string, devices: map<string, ApiDevice>): State {
    s.(pools := s.pools + [Pool(name, devices, map[], map[])])
  }

  /** A pool registered during the run agrees exactly when nothing it would track is allocated yet. */
  lemma RegistrationKeepsAgreement(s: State, name: string, devices: map<string, ApiDevice>)
    requires Consistent(s)
    ensures Consistent(Register(s, name, devices)) <==> SafeRegistration(s, Pool(name, devices, map[], map[]))
  {
    var p := Pool(name, devices, map[], map[]);
    var s' := Register(s, name, devices);
    assert s'.pools[|s.pools|] == p;
    assert Marked(p.other) == {} && Marked(p.self) == {};
    if SafeRegistration(s, p) {
      forall i | 0 <= i < |s'.pools| ensures Agrees(s'.pools[i], s'.ledger) {
        if i == |s.pools| {
          assert HeldByOthers(p, s.ledger) == {} && HeldBySelf(p, s.ledger) == {};
        } else {
          assert s'.pools[i] == s.pools[i];
        }
      }
    }
  }
}
