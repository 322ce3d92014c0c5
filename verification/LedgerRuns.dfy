/** Every run of the shared-info loop: the messages it serialises, the clean-up ticks beside it, and
    what holds in every state such a run reaches. */
module LedgerRuns {
  import opened Strings
  import opened Types
  import opened Ledger

  /** `WaitTimeBeforeCleanUnclaim`, in nanoseconds. */
  const WAIT_BEFORE_CLEAN_UNCLAIM: int := 30_000_000_000

  datatype Message =
    | Allocate(alloc: AllocationInfo, mountsExist: bool, now: int)
    | Deallocate(dealloc: DeallocationInfo)
    | Claim(paths: seq<string>)
    | Tick(at: int, existing: set<string>)
    | AddServer(name: string, devices: map<string, ApiDevice>)

  predicate Accepted(info: AllocationInfo, mountsExist: bool) {
    info.deviceIDs != [] && info.mountPoints != [] && mountsExist
  }

  function Normalised(info: AllocationInfo): AllocationInfo {
    info.(mountPoints := Sort(info.mountPoints))
  }

  // ----- Reserved mount paths -----

  function Reserve(reserved: map<string, int>, paths: seq<string>, now: int): map<string, int> {
    map p | p in reserved.Keys + Elems(paths) :: if p in paths then now else reserved[p]
  }

  predicate Overdue(reserved: map<string, int>, at: int, p: string)
    requires p in reserved
  {
    at - reserved[p] > WAIT_BEFORE_CLEAN_UNCLAIM
  }

  /** The reservations a clean-up tick keeps. */
  function Kept(reserved: map<string, int>, at: int, existing: set<string>): map<string, int> {
    map p | p in reserved && p in existing && !Overdue(reserved, at, p) :: reserved[p]
  }

  /** The paths whose devices a clean-up tick de-allocates by force. */
  function ForceReleased(reserved: map<string, int>, at: int, existing: set<string>): set<string> {
    set p | p in reserved && p in existing && Overdue(reserved, at, p)
  }

  function NextReserved(reserved: map<string, int>, m: Message): map<string, int> {
    match m
    case Allocate(info, exist, now) =>
      if Accepted(info, exist) then Reserve(reserved, info.mountPoints, now) else reserved
    case Claim(paths) => reserved - Elems(paths)
    case Tick(at, existing) => Kept(reserved, at, existing)
    case _ => reserved
  }

  // ----- Steps and runs -----

  ghost predicate Next(s: State, m: Message, s': State) {
    match m
    case Allocate(info, exist, now) =>
      if !Accepted(info, exist) then s' == s
      else exists order ::
             && IsRangeOrder(order, Collected(s.ledger, Normalised(info)))
             && s' == UpdateAllocation(s, Normalised(info), order).(reserved := NextReserved(s.reserved, m))
    case Deallocate(info) => s' == if info.deviceIDs != [] then DeleteAllocation(s, info) else s
    case Claim(_) => s' == s.(reserved := NextReserved(s.reserved, m))
    case Tick(_, _) => s' == s.(reserved := NextReserved(s.reserved, m))
    case AddServer(name, devices) => s' == Register(s, name, devices)
  }

  /** The messages that keep ledger and pools in agreement, read off the state they arrive in. */
  predicate Safe(s: State, m: Message) {
    match m
    case Allocate(info, exist, _) => Accepted(info, exist) ==> SafeAllocation(s, Normalised(info))
    case Deallocate(info) => info.deviceIDs != [] ==> SafeDeallocation(s, info)
    case AddServer(name, devices) => SafeRegistration(s, Pool(name, devices, map[], map[]))
    case _ => true
  }

  ghost predicate IsRun(states: seq<State>, msgs: seq<Message>) {
    && |states| == |msgs| + 1
    && forall i :: 0 <= i < |msgs| ==> Next(states[i], msgs[i], states[i + 1])
  }

  predicate Initial(s: State) {
    && s.ledger == map[] && s.reserved == map[]
    && forall i :: 0 <= i < |s.pools| ==> s.pools[i].other == map[] && s.pools[i].self == map[]
  }

  lemma StepKeepsAgreement(s: State, m: Message, s': State)
    requires Consistent(s) && Next(s, m, s')
    ensures Consistent(s') <==> Safe(s, m)
  {
    match m
    case Allocate(info, exist, now) =>
      if Accepted(info, exist) {
        var order :| IsRangeOrder(order, Collected(s.ledger, Normalised(info)))
          && s' == UpdateAllocation(s, Normalised(info), order).(reserved := NextReserved(s.reserved, m));
        AllocationKeepsAgreement(s, Normalised(info), order);
      }
    case Deallocate(info) => DeallocationKeepsAgreement(s, info);
    case AddServer(name, devices) => RegistrationKeepsAgreement(s, name, devices);
    case _ =>
  }

  /** Over every interleaving of messages, clean-up ticks and registrations, all pools agree with the
      ledger in every state exactly when every message was safe in the state it arrived in. */
  lemma {:induction false} RunKeepsAgreement(states: seq<State>, msgs: seq<Message>)
    requires IsRun(states, msgs) && Initial(states[0])
    ensures (forall i :: 0 <= i < |states| ==> Consistent(states[i])) <==>
            (forall i :: 0 <= i < |msgs| ==> Safe(states[i], msgs[i]))
  {
    if msgs == [] {
      InitiallyConsistent(states[0]);
    } else {
      var n := |msgs| - 1;
      var ss, ms := states[..n + 1], msgs[..n];
      RunKeepsAgreement(ss, ms);
      assert forall i :: 0 <= i <= n ==> ss[i] == states[i];
      assert forall i :: 0 <= i < n ==> ms[i] == msgs[i];
      if Consistent(states[n]) {
        StepKeepsAgreement(states[n], msgs[n], states[n + 1]);
      }
    }
  }

  lemma InitiallyConsistent(s: State)
    requires Initial(s)
    ensures Consistent(s)
  {
  }

  /** In every state of a run of safe messages, a pool offers kubelet exactly those of its devices that
      no other resource holds, and a topology-aware pool knows exactly which devices it holds itself. */
  lemma PoolsAdvertiseTheLedger(states: seq<State>, msgs: seq<Message>, n: nat, i: nat)
    requires IsRun(states, msgs) && Initial(states[0])
    requires forall k :: 0 <= k < |msgs| ==> Safe(states[k], msgs[k])
    requires n < |states| && i < |states[n].pools|
    ensures var p, l := states[n].pools[i], states[n].ledger;
            && Advertised(p) == (map d | d in p.devices && (d in l ==> l[d].resourceName == p.name) :: p.devices[d])
            && Marked(p.self) == set d | d in p.devices && d in l && l[d].resourceName == p.name && Contains(p.name, "tier")
  {
    RunKeepsAgreement(states, msgs);
    var p, l := states[n].pools[i], states[n].ledger;
    assert Agrees(p, l);
    forall d | d in p.devices
      ensures d in Marked(p.other) <==> !(d in l ==> l[d].resourceName == p.name)
    {
      assert d in Marked(p.other) <==> d in HeldByOthers(p, l);
    }
    assert Marked(p.self) == HeldBySelf(p, l);
  }

  // ----- What the ledger holds -----

  /** Some listed device is recorded for the same resource with the same mount points, in sorted order. */
  predicate Repeats(l: Allocations, info: AllocationInfo) {
    exists d :: d in info.deviceIDs && d in l && l[d].resourceName == info.resourceName && l[d].mountPoints == Sort(info.mountPoints)
  }

  /** The message records `d`: an allocation with devices and existing mount points that repeats nothing. */
  predicate Gives(s: State, m: Message, d: string) {
    && m.Allocate? && m.alloc.mountPoints != [] && m.mountsExist
    && d in m.alloc.deviceIDs && !Repeats(s.ledger, m.alloc)
  }

  predicate Frees(m: Message, d: string) {
    m.Deallocate? && d in m.dealloc.deviceIDs
  }

  /** The last message that gave or freed `d` before message `n` is message `j`, and it gave it. */
  predicate GivenBy(states: seq<State>, msgs: seq<Message>, d: string, j: int, n: int)
    requires |states| == |msgs| + 1
  {
    && 0 <= j < n <= |msgs| && Gives(states[j], msgs[j], d)
    && forall k :: j < k < n ==> !Gives(states[k], msgs[k], d) && !Frees(msgs[k], d)
  }

  lemma FindsRepeats(l: Allocations, info: AllocationInfo)
    ensures FindsDuplicate(l, Normalised(info)) <==> Repeats(l, info)
  {
    var ds := info.deviceIDs;
    var k := Scanned(l, Normalised(info), ds);
    if k < |ds| {
      assert IsDuplicate(l, Normalised(info), ds[k]);
    }
    if Repeats(l, info) {
      var i :| 0 <= i < |ds| && ds[i] in l && l[ds[i]].resourceName == info.resourceName && l[ds[i]].mountPoints == Sort(info.mountPoints);
      assert IsDuplicate(l, Normalised(info), ds[i]);
    }
  }

  lemma LedgerStep(s: State, m: Message, s': State, d: string)
    requires Next(s, m, s')
    ensures d in s'.ledger <==> Gives(s, m, d) || (d in s.ledger && !Frees(m, d))
    ensures d in s'.ledger ==>
              s'.ledger[d] == if Gives(s, m, d) then m.alloc.(mountPoints := Sort(m.alloc.mountPoints)) else s.ledger[d]
  {
    if m.Allocate? {
      FindsRepeats(s.ledger, m.alloc);
    }
  }

  lemma GivenByStep(states: seq<State>, msgs: seq<Message>, d: string, j: int, n: nat)
    requires |states| == |msgs| + 1 && 0 < n <= |msgs|
    ensures GivenBy(states, msgs, d, j, n) <==>
            if Gives(states[n - 1], msgs[n - 1], d) then j == n - 1
            else GivenBy(states, msgs, d, j, n - 1) && !Frees(msgs[n - 1], d)
  {
  }

  /** In every state of every run a device is in the ledger exactly when the last message that gave or freed
      it gave it, and its entry is what that message said, with the mount points sorted. */
  lemma {:induction false} LedgerHistory(states: seq<State>, msgs: seq<Message>, n: nat, d: string)
    requires IsRun(states, msgs) && Initial(states[0]) && n <= |msgs|
    ensures d in states[n].ledger <==> exists j :: GivenBy(states, msgs, d, j, n)
    ensures forall j :: GivenBy(states, msgs, d, j, n) ==>
              d in states[n].ledger && states[n].ledger[d] == msgs[j].alloc.(mountPoints := Sort(msgs[j].alloc.mountPoints))
  {
    if n > 0 {
      LedgerHistory(states, msgs, n - 1, d);
      LedgerStep(states[n - 1], msgs[n - 1], states[n], d);
      forall j
        ensures GivenBy(states, msgs, d, j, n) <==>
                if Gives(states[n - 1], msgs[n - 1], d) then j == n - 1
                else GivenBy(states, msgs, d, j, n - 1) && !Frees(msgs[n - 1], d)
      {
        GivenByStep(states, msgs, d, j, n);
      }
      hide *;
      if Gives(states[n - 1], msgs[n - 1], d) {
        assert GivenBy(states, msgs, d, n - 1, n);
      } else if d in states[n].ledger {
        var j :| GivenBy(states, msgs, d, j, n - 1);
        assert GivenBy(states, msgs, d, j, n);
      }
    }
  }

  // ----- Conditions a caller can check on the message alone -----

  /** No device of the message is both a re-announcement and a conflict with another resource. */
  predicate ConflictsOrRepeats(l: Allocations, info: AllocationInfo) {
    || (forall d :: d in info.deviceIDs ==> !IsDuplicate(l, info, d))
    || (forall d :: d in info.deviceIDs ==> !IsConflict(l, info.resourceName, d))
  }

  predicate OneHolder(l: Allocations, ds: seq<string>, holder: string) {
    forall d :: d in ds && d in l ==> l[d].resourceName == holder
  }

  /** An allocation that does not mix conflicts with duplicates, and a de-allocation of one holder's
      devices that names the holder or names no pool at all, are safe. */
  lemma DisciplinedMessagesAreSafe(s: State, m: Message)
    requires m.Allocate? || m.Deallocate?
    requires m.Allocate? ==> ConflictsOrRepeats(s.ledger, Normalised(m.alloc))
    requires m.Deallocate? ==>
               exists holder :: && OneHolder(s.ledger, m.dealloc.deviceIDs, holder)
                                && (m.dealloc.resourceName == holder ||
                                    forall i :: 0 <= i < |s.pools| ==> s.pools[i].name != m.dealloc.resourceName)
    ensures Safe(s, m)
  {
  }

  // ----- Runs in which the last message breaks the agreement -----

  /** From the start, all states agree but the last. */
  ghost predicate BreaksAtLast(states: seq<State>, msgs: seq<Message>) {
    && IsRun(states, msgs) && Initial(states[0]) && msgs != []
    && (forall i :: 0 <= i < |msgs| ==> Consistent(states[i]))
    && !Consistent(states[|msgs|])
  }

  ghost predicate AgreesSoFar(states: seq<State>, msgs: seq<Message>) {
    IsRun(states, msgs) && Initial(states[0]) && forall i :: 0 <= i < |states| ==> Consistent(states[i])
  }

  lemma StartsAgreed(s: State)
    requires Initial(s)
    ensures AgreesSoFar([s], [])
  {
    InitiallyConsistent(s);
  }

  lemma OneMore(states: seq<State>, msgs: seq<Message>, m: Message, s: State)
    requires AgreesSoFar(states, msgs) && Next(states[|msgs|], m, s)
    ensures if Consistent(s) then AgreesSoFar(states + [s], msgs + [m]) else BreaksAtLast(states + [s], msgs + [m])
  {
    var ss, ms := states + [s], msgs + [m];
    forall i | 0 <= i < |ms| ensures Next(ss[i], ms[i], ss[i + 1]) {
      if i < |msgs| { assert ss[i] == states[i] && ms[i] == msgs[i] && ss[i + 1] == states[i + 1]; }
    }
  }

  lemma {:induction false} SomeOrder(keys: set<string>) returns (order: seq<string>)
    ensures Elems(order) == keys && forall i, j :: 0 <= i < j < |order| ==> order[i] != order[j]
  {
    if keys == {} {
      order := [];
    } else {
      var k :| k in keys;
      var rest := SomeOrder(keys - {k});
      order := rest + [k];
      assert Elems(order) == Elems(rest) + {k};
      assert forall i :: 0 <= i < |rest| ==> rest[i] in Elems(rest);
    }
  }

  lemma {:induction false} TakeoverKeepsShape(p: Pool, c: map<string, seq<string>>, order: seq<string>)
    ensures TakeoverPool(p, c, order).name == p.name && TakeoverPool(p, c, order).devices == p.devices
  {
    if order != [] {
      TakeoverKeepsShape(p, c, order[..|order| - 1]);
    }
  }

  /** The pools are still the ones that were registered. */
  predicate SamePools(s: State, s': State) {
    && |s'.pools| == |s.pools|
    && forall i :: 0 <= i < |s.pools| ==> s'.pools[i].name == s.pools[i].name && s'.pools[i].devices == s.pools[i].devices
  }

  /** A step for an accepted allocation, and the ledger after it. */
  lemma AllocateStep(s: State, info: AllocationInfo) returns (s': State)
    requires info.deviceIDs != [] && |info.mountPoints| == 1
    ensures Next(s, Allocate(info, true, 0), s') && SamePools(s, s')
    ensures s'.ledger == if FindsDuplicate(s.ledger, info) then s.ledger else AssignAll(s.ledger, info.deviceIDs, info)
    ensures Safe(s, Allocate(info, true, 0)) <==> SafeAllocation(s, info)
  {
    assert Sort(info.mountPoints) == info.mountPoints;
    assert Normalised(info) == info;
    var c := Collected(s.ledger, info);
    var order := SomeOrder(c.Keys);
    s' := UpdateAllocation(s, info, order).(reserved := NextReserved(s.reserved, Allocate(info, true, 0)));
    forall i | 0 <= i < |s.pools| ensures s'.pools[i].name == s.pools[i].name && s'.pools[i].devices == s.pools[i].devices {
      TakeoverKeepsShape(s.pools[i], c, order);
    }
    assert IsRangeOrder(order, Collected(s.ledger, Normalised(info)));
  }

  const A_AND_B_TO_Q := AllocationInfo(["a", "b"], ["/m2"], "q")
  const A_TO_R := AllocationInfo(["a"], ["/m1"], "r")

  function OnlyA(): map<string, ApiDevice> {
    map["a" := ApiDevice("a", true)]
  }

  function WithQ(): State {
    State(map[], [Pool("q", OnlyA(), map[], map[])], map[])
  }

  function AThenR(): Allocations {
    AssignAll(AssignAll(map[], A_AND_B_TO_Q.deviceIDs, A_AND_B_TO_Q), A_TO_R.deviceIDs, A_TO_R)
  }

  /** Whoever the first device went to, announcing both for "q" again stops at the second. */
  lemma StopsAtSecond(s: State)
    requires s.ledger == AThenR() && SamePools(WithQ(), s)
    ensures !SafeAllocation(s, A_AND_B_TO_Q)
  {
    var l, info := s.ledger, A_AND_B_TO_Q;
    assert !IsDuplicate(l, info, "a") && IsDuplicate(l, info, "b");
    assert info.deviceIDs[0] == "a" && info.deviceIDs[1] == "b";
    assert Scanned(l, info, info.deviceIDs) == 1;
    assert ScannedIDs(l, info) == ["a"];
    assert s.pools[0].name == "q" && s.pools[0].devices == OnlyA();
    assert "a" in ConflictSet(l, "q", ["a"]) && Tracks(s.pools[0], l, "a");
  }

  /** A message that meets a conflict and then a duplicate breaks the agreement: "a" and "b" go to "q",
      "a" is taken over by "r", and announcing both for "q" again makes its pool forget that "r" holds "a". */
  lemma MixedAllocationBreaksAgreement() returns (states: seq<State>)
    ensures BreaksAtLast(states, [Allocate(A_AND_B_TO_Q, true, 0)] + [Allocate(A_TO_R, true, 0)] + [Allocate(A_AND_B_TO_Q, true, 0)])
  {
    var m, n := Allocate(A_AND_B_TO_Q, true, 0), Allocate(A_TO_R, true, 0);
    var s0 := WithQ();
    StartsAgreed(s0);
    hide *;
    var s1 := GivenToQ();
    var s2 := TakenByR(s1);
    var s3 := ForgottenByQ(s2);
    OneMore([s0], [], m, s1);
    assert [] + [m] == [m];
    OneMore([s0] + [s1], [m], n, s2);
    OneMore([s0] + [s1] + [s2], [m] + [n], m, s3);
    states := [s0] + [s1] + [s2] + [s3];
  }

  lemma GivenToQ() returns (s: State)
    ensures Next(WithQ(), Allocate(A_AND_B_TO_Q, true, 0), s) && Consistent(s) && SamePools(WithQ(), s)
    ensures s.ledger == AssignAll(map[], A_AND_B_TO_Q.deviceIDs, A_AND_B_TO_Q)
  {
    InitiallyConsistent(WithQ());
    s := AllocateStep(WithQ(), A_AND_B_TO_Q);
    StepKeepsAgreement(WithQ(), Allocate(A_AND_B_TO_Q, true, 0), s);
  }

  lemma ForgottenByQ(s: State) returns (s': State)
    requires s.ledger == AThenR() && SamePools(WithQ(), s) && Consistent(s)
    ensures Next(s, Allocate(A_AND_B_TO_Q, true, 0), s') && !Consistent(s')
  {
    s' := AllocateStep(s, A_AND_B_TO_Q);
    StopsAtSecond(s);
    StepKeepsAgreement(s, Allocate(A_AND_B_TO_Q, true, 0), s');
  }

  lemma TakenByR(s: State) returns (s': State)
    requires s.ledger == AssignAll(map[], A_AND_B_TO_Q.deviceIDs, A_AND_B_TO_Q) && SamePools(WithQ(), s) && Consistent(s)
    ensures Next(s, Allocate(A_TO_R, true, 0), s') && Consistent(s') && SamePools(WithQ(), s')
    ensures s'.ledger == AThenR()
  {
    s' := AllocateStep(s, A_TO_R);
    assert !IsDuplicate(s.ledger, A_TO_R, A_TO_R.deviceIDs[0]);
    StepKeepsAgreement(s, Allocate(A_TO_R, true, 0), s');
  }

  /** A de-allocation that names one resource but lists a device of another breaks the agreement: the
      named pool keeps a device marked that nobody holds any more. */
  lemma MisnamedDeallocationBreaksAgreement() returns (states: seq<State>)
    ensures BreaksAtLast(states, [Allocate(A_TO_R, true, 0)] + [Deallocate(DeallocationInfo(["a"], "q"))])
  {
    var n, m := Allocate(A_TO_R, true, 0), Deallocate(DeallocationInfo(["a"], "q"));
    var s0 := WithQ();
    StartsAgreed(s0);
    InitiallyConsistent(s0);
    var s1 := AllocateStep(s0, A_TO_R);
    StepKeepsAgreement(s0, n, s1);
    var s2 := WrongPoolNamed(s1);
    hide *;
    OneMore([s0], [], n, s1);
    assert [] + [n] == [n];
    OneMore([s0] + [s1], [n], m, s2);
    states := [s0] + [s1] + [s2];
  }

  lemma WrongPoolNamed(s: State) returns (s': State)
    requires s.ledger == AssignAll(map[], A_TO_R.deviceIDs, A_TO_R) && SamePools(WithQ(), s) && Consistent(s)
    ensures Next(s, Deallocate(DeallocationInfo(["a"], "q")), s') && !Consistent(s')
  {
    var info := DeallocationInfo(["a"], "q");
    assert s.pools[0].name == "q" && s.pools[0].devices == OnlyA();
    assert "a" in HeldByOthers(s.pools[0], s.ledger) && "a" in info.deviceIDs;
    assert !SafeDeallocationFor(s.pools[0], s.ledger, info);
    s' := DeleteAllocation(s, info);
    DeallocationKeepsAgreement(s, info);
  }

  /** A replacement server registered while one of its devices is held elsewhere would offer it again. */
  lemma LateRegistrationBreaksAgreement() returns (states: seq<State>)
    ensures BreaksAtLast(states, [Allocate(A_TO_R, true, 0)] + [AddServer("q", OnlyA())])
  {
    var n, m := Allocate(A_TO_R, true, 0), AddServer("q", OnlyA());
    var s0 := State(map[], [], map[]);
    InitiallyConsistent(s0);
    var s1 := AllocateStep(s0, A_TO_R);
    StepKeepsAgreement(s0, n, s1);
    assert s1.ledger == map["a" := A_TO_R];
    assert Tracks(Pool("q", OnlyA(), map[], map[]), s1.ledger, "a");
    var s2 := Register(s1, "q", OnlyA());
    StepKeepsAgreement(s1, m, s2);
    OneMore([s0], [], n, s1);
    assert [] + [n] == [n];
    OneMore([s0] + [s1], [n], m, s2);
    states := [s0] + [s1] + [s2];
  }

  // ----- Unclaimed reservations -----

  lemma ReservedStep(s: State, m: Message, s': State)
    requires Next(s, m, s')
    ensures s'.reserved == NextReserved(s.reserved, m)
  {
  }

  predicate Reserves(m: Message, p: string) {
    m.Allocate? && m.alloc.deviceIDs != [] && m.mountsExist && p in m.alloc.mountPoints
  }

  /** The message ends a reservation of `p` made at `since`. */
  predicate Ends(m: Message, p: string, since: int) {
    match m
    case Claim(paths) => p in paths
    case Tick(at, existing) => p !in existing || at - since > WAIT_BEFORE_CLEAN_UNCLAIM
    case _ => Reserves(m, p)
  }

  /** Message `j` reserved `p` and nothing before message `n` ended that reservation. */
  predicate StillReservedBy(msgs: seq<Message>, p: string, j: int, n: int) {
    && 0 <= j < n <= |msgs| && Reserves(msgs[j], p)
    && forall k :: j < k < n ==> !Ends(msgs[k], p, msgs[j].now)
  }

  /** A path is in the reservation table, with a given time, exactly when the last allocation that
      reserved it carried that time and nothing has claimed, expired or removed it since. */
  lemma {:induction false} ReservationHistory(states: seq<State>, msgs: seq<Message>, n: nat, p: string)
    requires IsRun(states, msgs) && Initial(states[0]) && n <= |msgs|
    ensures p in states[n].reserved <==> exists j :: StillReservedBy(msgs, p, j, n)
    ensures forall j :: StillReservedBy(msgs, p, j, n) ==> states[n].reserved[p] == msgs[j].now
  {
    if n > 0 {
      var m := msgs[n - 1];
      ReservationHistory(states, msgs, n - 1, p);
      ReservedStep(states[n - 1], m, states[n]);
      var before, after := states[n - 1].reserved, states[n].reserved;
      forall j | StillReservedBy(msgs, p, j, n) ensures p in after && after[p] == msgs[j].now {
        if j < n - 1 {
          assert StillReservedBy(msgs, p, j, n - 1);
          assert !Ends(m, p, msgs[j].now);
        }
      }
      if p in after {
        if Reserves(m, p) {
          assert StillReservedBy(msgs, p, n - 1, n);
        } else {
          assert p in before;
          var j :| StillReservedBy(msgs, p, j, n - 1);
          assert !Ends(m, p, msgs[j].now);
          assert StillReservedBy(msgs, p, j, n);
        }
      }
    }
  }

  /** A tick releases by force exactly the reserved paths still on disk whose last reservation is more than
      30 seconds old. */
  lemma ReleasedWhenOverdue(states: seq<State>, msgs: seq<Message>, i: nat, p: string)
    requires IsRun(states, msgs) && Initial(states[0]) && i < |msgs| && msgs[i].Tick?
    ensures ReleasedAt(states, msgs, i, p) <==>
            p in msgs[i].existing && exists j :: StillReservedBy(msgs, p, j, i) && msgs[i].at - msgs[j].now > 30_000_000_000
  {
    ReservationHistory(states, msgs, i, p);
  }

  predicate ReleasedAt(states: seq<State>, msgs: seq<Message>, i: nat, p: string)
    requires |states| == |msgs| + 1
  {
    i < |msgs| && msgs[i].Tick? && p in ForceReleased(states[i].reserved, msgs[i].at, msgs[i].existing)
  }

  /** A forced release answers one reservation, more than the waiting time old: once a path has been
      claimed or released it is not released again unless an allocation reserved it in between. */
  lemma ReleasedOncePerReservation(states: seq<State>, msgs: seq<Message>, e: nat, i: nat, p: string)
    requires IsRun(states, msgs) && Initial(states[0])
    requires e < i && ReleasedAt(states, msgs, i, p)
    requires ReleasedAt(states, msgs, e, p) || (msgs[e].Claim? && p in msgs[e].paths)
    ensures exists j :: e < j < i && Reserves(msgs[j], p) && msgs[i].at - msgs[j].now > WAIT_BEFORE_CLEAN_UNCLAIM
  {
    ReservationHistory(states, msgs, i, p);
    var j :| StillReservedBy(msgs, p, j, i);
    if j <= e {
      assert j != e;
      assert !Ends(msgs[e], p, msgs[j].now);
      ReservationHistory(states, msgs, e, p);
      assert StillReservedBy(msgs, p, j, e);
      assert false;
    }
  }

  /** What survives a tick is at most the waiting time old at that tick, and still on disk. */
  lemma SurvivorsAreFresh(states: seq<State>, msgs: seq<Message>, i: nat, p: string)
    requires IsRun(states, msgs) && Initial(states[0])
    requires i < |msgs| && msgs[i].Tick? && p in states[i + 1].reserved
    ensures msgs[i].at - states[i + 1].reserved[p] <= WAIT_BEFORE_CLEAN_UNCLAIM && p in msgs[i].existing
    ensures exists j :: StillReservedBy(msgs, p, j, i + 1) && states[i + 1].reserved[p] == msgs[j].now
  {
    ReservedStep(states[i], msgs[i], states[i + 1]);
    ReservationHistory(states, msgs, i + 1, p);
  }
}
