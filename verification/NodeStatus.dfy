/** The status half of the node state: the unhealthy list and the health condition, rewritten only when
    a change flag is raised, and the whole update written back to the API server. */
module NodeStatus {
  import opened HealthScan
  import opened Interfaces
  import opened NodeState

  // ----- Health condition -----

  datatype Status = True | False | Unknown
  datatype Message = AllDevicesHealthy | NoDetectedDevice | DevicesUnhealthy(count: nat) | OtherMessage(text: string)
  datatype Condition = Condition(kind: string, status: Status, message: Message, lastTransition: int)

  const DEVICE_HEALTHY := "DeviceHealthy"

  function GetCondition(hasDevice: bool, unhealthy: nat, time: int): Condition {
    if unhealthy > 0 then Condition(DEVICE_HEALTHY, False, DevicesUnhealthy(unhealthy), time)
    else if hasDevice then Condition(DEVICE_HEALTHY, True, AllDevicesHealthy, time)
    else Condition(DEVICE_HEALTHY, Unknown, NoDetectedDevice, time)
  }

  /** The new condition, and whether it differs; the transition time moves only with a difference. */
  function UpdateCondition(c: Condition, hasDevice: bool, unhealthy: nat, now: int): (r: (bool, Condition))
    ensures r.0 <==> (c.status, c.message) != (r.1.status, r.1.message)
    ensures r.1.lastTransition == if r.0 then now else c.lastTransition
  {
    var next := GetCondition(hasDevice, unhealthy, now);
    if c.status == next.status && c.message == next.message
    then (false, next.(lastTransition := c.lastTransition))
    else (true, next)
  }

  function FirstHealthCondition(cs: seq<Condition>): (i: nat)
    ensures i <= |cs| && (i < |cs| ==> cs[i].kind == DEVICE_HEALTHY)
    ensures forall j :: 0 <= j < i ==> cs[j].kind != DEVICE_HEALTHY
  {
    if cs == [] || cs[0].kind == DEVICE_HEALTHY then 0 else 1 + FirstHealthCondition(cs[1..])
  }

  function UpdateConditions(cs: seq<Condition>, hasDevice: bool, unhealthy: nat, now: int): (bool, seq<Condition>) {
    if cs == [] then (true, [GetCondition(hasDevice, unhealthy, now)])
    else
      var i := FirstHealthCondition(cs);
      if i == |cs| then (false, cs)
      else
        var (changed, c) := UpdateCondition(cs[i], hasDevice, unhealthy, now);
        (changed, cs[i := c])
  }

  /** Without any condition one is made. Otherwise only the first health condition is touched, it is said to
      change exactly when its status or message does, and its transition time moves only then. */
  lemma OtherConditionsKept(cs: seq<Condition>, hasDevice: bool, unhealthy: nat, now: int)
    ensures var (changed, r) := UpdateConditions(cs, hasDevice, unhealthy, now);
            && (cs == [] ==> changed && |r| == 1 && r[0].kind == "DeviceHealthy" && r[0].lastTransition == now)
            && (cs != [] ==> |r| == |cs|)
            && (!changed ==> r == cs)
            && (forall i :: 0 <= i < |cs| && (cs[i].kind != "DeviceHealthy" || i != FirstHealthCondition(cs)) ==> r[i] == cs[i])
            && (forall i :: 0 <= i < |cs| && i == FirstHealthCondition(cs) ==>
                  && r[i].kind == "DeviceHealthy"
                  && (changed <==> (r[i].status, r[i].message) != (cs[i].status, cs[i].message))
                  && r[i].lastTransition == if changed then now else cs[i].lastTransition)
  {
  }

  // ----- Unhealthy list -----

  /** The last state given for each ID. */
  function LastStates(us: seq<UnhealthyDevice>): map<string, string> {
    if us == [] then map[]
    else LastStates(us[..|us| - 1])[us[|us| - 1].id := us[|us| - 1].state]
  }

  lemma {:induction false} LastStatesKeys(us: seq<UnhealthyDevice>)
    ensures LastStates(us).Keys == IDs(us)
  {
    if us != [] {
      LastStatesKeys(us[..|us| - 1]);
      assert us == us[..|us| - 1] + [us[|us| - 1]];
    }
  }

  /** Some update tells something new to the list it is merged into. */
  predicate Novel(known: seq<UnhealthyDevice>, updated: seq<UnhealthyDevice>) {
    updated != [] &&
    var n := |updated| - 1;
    Novel(known, updated[..n]) || IsNews(LastStates(known + updated[..n]), updated[n])
  }

  predicate IsNews(states: map<string, string>, u: UnhealthyDevice) {
    u.id !in states || states[u.id] != u.state
  }

  function Listed(list: InterfaceList, states: map<string, string>): seq<UnhealthyDevice> {
    if list == [] then []
    else
      var e := list[|list| - 1];
      Listed(list[..|list| - 1], states) +
      if e.health.Unhealthy? then [UnhealthyDevice(e.addr, if e.addr in states then states[e.addr] else UNSPECIFIED)] else []
  }

  datatype Node = Node(pfs: InterfaceList, ssas: InterfaceList, unhealthy: seq<UnhealthyDevice>, conditions: seq<Condition>)

  /** What the unhealthy list would be if it were rewritten on every update. */
  function FullList(n: Node, updated: seq<UnhealthyDevice>): seq<UnhealthyDevice> {
    var states := LastStates(n.unhealthy + updated);
    Listed(n.pfs, states) + Listed(n.ssas, states)
  }

  predicate ListChange(n: Node, updated: seq<UnhealthyDevice>) {
    Novel(n.unhealthy, updated) || |FullList(n, updated)| != |n.unhealthy|
  }

  predicate HasDevice(n: Node) {
    |n.ssas| + |n.pfs| > 0
  }

  /** The list and the conditions after the merge, and whether the status must be written. */
  function MergeStatus(n: Node, updated: seq<UnhealthyDevice>, now: int): (Node, bool) {
    var full := FullList(n, updated);
    var (conditionChanged, conditions) := UpdateConditions(n.conditions, HasDevice(n), |full|, now);
    (n.(conditions := conditions, unhealthy := if ListChange(n, updated) then full else n.unhealthy),
     ListChange(n, updated) || conditionChanged)
  }

  // ----- The loops -----

  method StatesOf(us: seq<UnhealthyDevice>) returns (states: map<string, string>)
    ensures states == LastStates(us)
  {
    states := map[];
    for i := 0 to |us|
      invariant states == LastStates(us[..i])
    {
      assert us[..i + 1][..i] == us[..i];
      states := states[us[i].id := us[i].state];
    }
    assert us[..|us|] == us;
  }

  lemma OneMoreUpdate(known: seq<UnhealthyDevice>, updated: seq<UnhealthyDevice>, i: nat)
    requires i < |updated|
    ensures LastStates(known + updated[..i + 1]) == LastStates(known + updated[..i])[updated[i].id := updated[i].state]
    ensures Novel(known, updated[..i + 1]) <==>
            Novel(known, updated[..i]) || IsNews(LastStates(known + updated[..i]), updated[i])
  {
    assert updated[..i + 1][..i] == updated[..i];
    assert (known + updated[..i + 1])[..|known| + i] == known + updated[..i];
  }

  method MergeKnown(known: seq<UnhealthyDevice>, updated: seq<UnhealthyDevice>)
      returns (states: map<string, string>, news: bool)
    ensures states == LastStates(known + updated)
    ensures news <==> Novel(known, updated)
  {
    states := StatesOf(known);
    news := false;
    assert known == known + updated[..0];
    for i := 0 to |updated|
      invariant states == LastStates(known + updated[..i])
      invariant news <==> Novel(known, updated[..i])
    {
      OneMoreUpdate(known, updated, i);
      if updated[i].id !in states || states[updated[i].id] != updated[i].state {
        news := true;
      }
      states := states[updated[i].id := updated[i].state];
    }
    assert updated[..|updated|] == updated;
  }

  method ListUnhealthy(list: InterfaceList, states: map<string, string>) returns (us: seq<UnhealthyDevice>)
    ensures us == Listed(list, states)
  {
    us := [];
    for i := 0 to |list|
      invariant us == Listed(list[..i], states)
    {
      assert list[..i + 1][..i] == list[..i];
      if list[i].health == Unhealthy {
        var a := list[i].addr;
        us := us + [UnhealthyDevice(a, if a in states then states[a] else UNSPECIFIED)];
      }
    }
    assert list[..|list|] == list;
  }

  class SpyreNodeState {
    var interfaces: InterfaceList
    var ssaInterfaces: InterfaceList
    var unhealthyDevices: seq<UnhealthyDevice>
    var conditions: seq<Condition>

    constructor (n: Node)
      ensures View() == n
    {
      interfaces, ssaInterfaces, unhealthyDevices, conditions := n.pfs, n.ssas, n.unhealthy, n.conditions;
    }

    function View(): Node
      reads this
    {
      Node(interfaces, ssaInterfaces, unhealthyDevices, conditions)
    }

    method MergePatchUpdatedUnhealthyDevice(updated: seq<UnhealthyDevice>, now: int) returns (changed: bool)
      modifies this`unhealthyDevices, this`conditions
      ensures (View(), changed) == MergeStatus(old(View()), updated, now)
    {
      var states, news := MergeKnown(unhealthyDevices, updated);
      var pfs := ListUnhealthy(interfaces, states);
      var ssas := ListUnhealthy(ssaInterfaces, states);
      var merged := pfs + ssas;
      var listChange := news || |merged| != |unhealthyDevices|;
      var conditionChanged := false;
      var hasDevice := |ssaInterfaces| + |interfaces| > 0;
      if |conditions| == 0 {
        conditions := [GetCondition(hasDevice, |merged|, now)];
        conditionChanged := true;
      } else {
        var i := 0;
        while i < |conditions| && conditions[i].kind != DEVICE_HEALTHY
          invariant 0 <= i <= |conditions| && conditions == old(conditions)
          invariant forall j :: 0 <= j < i ==> conditions[j].kind != DEVICE_HEALTHY
        {
          i := i + 1;
        }
        assert i == FirstHealthCondition(conditions);
        if i < |conditions| {
          var update := UpdateCondition(conditions[i], hasDevice, |merged|, now);
          conditionChanged := update.0;
          conditions := conditions[i := update.1];
        }
      }
      if listChange {
        unhealthyDevices := merged;
      }
      changed := listChange || conditionChanged;
    }

    /** Reconciles both lists with the scan, in whatever order the reports are ranged, and the status
        with both lists. The spec flag is raised exactly when a list changes in value. */
    method UpdateSpyreInterfacesChanges(pfs: Report, ssas: Report, updated: seq<UnhealthyDevice>, now: int)
        returns (specChanged: bool, statusChanged: bool)
      requires KeyedReport(pfs) && KeyedReport(ssas)
      modifies this
      ensures Reconciled(old(interfaces), pfs, interfaces) && Reconciled(old(ssaInterfaces), ssas, ssaInterfaces)
      ensures specChanged <==> interfaces != old(interfaces) || ssaInterfaces != old(ssaInterfaces)
      ensures (View(), statusChanged) ==
              MergeStatus(old(View()).(pfs := interfaces, ssas := ssaInterfaces),
                          updated + Removed(old(interfaces), pfs) + Removed(old(ssaInterfaces), ssas), now)
    {
      var removedPfs, removedSsas, pfsChanged, ssasChanged;
      interfaces, removedPfs, pfsChanged := ReconcileList(interfaces, pfs);
      ssaInterfaces, removedSsas, ssasChanged := ReconcileList(ssaInterfaces, ssas);
      specChanged := pfsChanged || ssasChanged;
      statusChanged := MergePatchUpdatedUnhealthyDevice(updated + removedPfs + removedSsas, now);
    }
  }
}
