/** Every sequence of health scans: after each one the stored unhealthy list names exactly the unhealthy
    interfaces, although it is rewritten only when a flag says it must be, and the health condition says
    what the interfaces dictate. */
module NodeStateRuns {
  import opened Strings
  import opened HealthScan
  import opened Interfaces
  import opened NodeState
  import opened NodeStatus

  function UnhealthyAddrs(list: InterfaceList): set<string> {
    set e | e in list && e.health.Unhealthy? :: e.addr
  }

  /** The addresses the unhealthy list should name. */
  function Bad(n: Node): set<string> {
    UnhealthyAddrs(n.pfs) + UnhealthyAddrs(n.ssas)
  }

  predicate WellFormed(n: Node) {
    && Unique(n.pfs) && Unique(n.ssas) && Addrs(n.pfs) !! Addrs(n.ssas)
    && DistinctIDs(n.unhealthy)
  }

  // ----- The rewritten list -----

  lemma {:induction false} ListedExactly(list: InterfaceList, states: map<string, string>)
    requires Unique(list)
    ensures IDs(Listed(list, states)) == UnhealthyAddrs(list) && DistinctIDs(Listed(list, states))
    ensures forall u :: u in Listed(list, states) ==>
                        u.state == if u.id in states then states[u.id] else UNSPECIFIED
  {
    if list != [] {
      var prev, e := list[..|list| - 1], list[|list| - 1];
      assert list == prev + [e];
      ListedExactly(prev, states);
      var before := Listed(prev, states);
      assert UnhealthyAddrs(list) == UnhealthyAddrs(prev) + if e.health.Unhealthy? then {e.addr} else {};
      if e.health.Unhealthy? {
        var u := UnhealthyDevice(e.addr, if e.addr in states then states[e.addr] else UNSPECIFIED);
        assert e.addr !in IDs(before) by {
          assert forall f :: f in prev ==> f.addr != e.addr;
        }
        IDsAppend(before, u);
      } else {
        assert Listed(list, states) == before;
      }
    }
  }

  lemma IDsAppend(us: seq<UnhealthyDevice>, u: UnhealthyDevice)
    ensures IDs(us + [u]) == IDs(us) + {u.id}
    ensures DistinctIDs(us) && u.id !in IDs(us) ==> DistinctIDs(us + [u])
  {
  }

  lemma IDsConcat(a: seq<UnhealthyDevice>, b: seq<UnhealthyDevice>)
    ensures IDs(a + b) == IDs(a) + IDs(b)
    ensures DistinctIDs(a) && DistinctIDs(b) && IDs(a) !! IDs(b) ==> DistinctIDs(a + b)
  {
    forall u | u in a + b ensures u.id in IDs(a) + IDs(b) { assert u in a || u in b; }
    forall u | u in a ensures u.id in IDs(a + b) { assert u in a + b; }
    forall u | u in b ensures u.id in IDs(a + b) { assert u in a + b; }
    forall i | 0 <= i < |a| ensures a[i].id in IDs(a) { assert a[i] in a; }
    forall i | 0 <= i < |b| ensures b[i].id in IDs(b) { assert b[i] in b; }
  }

  lemma UnhealthySubset(list: InterfaceList)
    ensures UnhealthyAddrs(list) <= Addrs(list)
  {
  }

  lemma FullListExactly(n: Node, updated: seq<UnhealthyDevice>)
    requires WellFormed(n)
    ensures IDs(FullList(n, updated)) == Bad(n) && DistinctIDs(FullList(n, updated))
    ensures |FullList(n, updated)| == |Bad(n)|
    ensures forall u :: u in FullList(n, updated) ==>
              var states := LastStates(n.unhealthy + updated);
              u.state == if u.id in states then states[u.id] else UNSPECIFIED
  {
    var states := LastStates(n.unhealthy + updated);
    ListedExactly(n.pfs, states);
    ListedExactly(n.ssas, states);
    UnhealthySubset(n.pfs);
    UnhealthySubset(n.ssas);
    IDsConcat(Listed(n.pfs, states), Listed(n.ssas, states));
    DistinctCount(FullList(n, updated));
  }

  lemma {:induction false} DistinctCount(us: seq<UnhealthyDevice>)
    requires DistinctIDs(us)
    ensures |IDs(us)| == |us|
  {
    if us == [] {
      assert IDs(us) == {};
    } else {
      var prev, u := us[..|us| - 1], us[|us| - 1];
      assert us == prev + [u];
      DistinctCount(prev);
      IDsAppend(prev, u);
      assert u.id !in IDs(prev);
    }
  }

  // ----- The change flag -----

  lemma SameValue(m: map<string, string>, k: string)
    requires k in m
    ensures m[k := m[k]] == m
  {
  }

  lemma LastStatesAppend(us: seq<UnhealthyDevice>, u: UnhealthyDevice)
    ensures LastStates(us + [u]) == LastStates(us)[u.id := u.state]
  {
  }

  /** Updates that bring nothing new leave the recorded states as they were. */
  lemma {:induction false} NothingNew(known: seq<UnhealthyDevice>, updated: seq<UnhealthyDevice>)
    requires !Novel(known, updated)
    ensures LastStates(known + updated) == LastStates(known)
    ensures IDs(updated) <= IDs(known)
  {
    if updated == [] {
      assert known + updated == known;
    } else {
      var n := |updated| - 1;
      NothingNew(known, updated[..n]);
      assert updated == updated[..n] + [updated[n]];
      assert known + updated == known + updated[..n] + [updated[n]];
      LastStatesAppend(known + updated[..n], updated[n]);
      SameValue(LastStates(known), updated[n].id);
      LastStatesKeys(known);
      IDsAppend(updated[..n], updated[n]);
    }
  }

  lemma {:induction false} OwnStates(us: seq<UnhealthyDevice>)
    requires DistinctIDs(us)
    ensures forall u :: u in us ==> u.id in LastStates(us) && LastStates(us)[u.id] == u.state
  {
    if us != [] {
      var prev, last := us[..|us| - 1], us[|us| - 1];
      assert us == prev + [last];
      OwnStates(prev);
      forall u | u in prev ensures u.id != last.id { }
    }
  }

  /** With the flag down, the kept list and the rewritten one have the same size, so they name the same
      devices exactly when one names no device the other does not. */
  lemma QuietListAgrees(n: Node, updated: seq<UnhealthyDevice>)
    requires WellFormed(n) && !ListChange(n, updated)
    ensures IDs(n.unhealthy) == Bad(n) <==> Bad(n) <= IDs(n.unhealthy)
    ensures Bad(n) <= IDs(n.unhealthy) ==> forall u :: u in n.unhealthy <==> u in FullList(n, updated)
  {
    FullListExactly(n, updated);
    NothingNew(n.unhealthy, updated);
    DistinctCount(n.unhealthy);
    LastStatesKeys(n.unhealthy);
    OwnStates(n.unhealthy);
    if Bad(n) <= IDs(n.unhealthy) {
      SubsetSameSize(Bad(n), IDs(n.unhealthy));
      var full := FullList(n, updated);
      forall u ensures u in n.unhealthy <==> u in full {
        if u in n.unhealthy {
          assert u.id in IDs(full);
          var v :| v in full && v.id == u.id;
          assert v.state == u.state;
        }
        if u in full {
          assert u.id in IDs(n.unhealthy);
          var v :| v in n.unhealthy && v.id == u.id;
          assert v.state == u.state;
        }
      }
    }
  }

  /** The guarded rewrite equals the unconditional one, as a set of (ID, state) pairs, exactly when the
      flag is up or every unhealthy interface is already listed. */
  lemma FlagDecides(n: Node, updated: seq<UnhealthyDevice>, now: int)
    requires WellFormed(n)
    ensures var n' := MergeStatus(n, updated, now).0;
            && DistinctIDs(n'.unhealthy)
            && (IDs(n'.unhealthy) == Bad(n) <==> ListChange(n, updated) || Bad(n) <= IDs(n.unhealthy))
            && (IDs(n'.unhealthy) == Bad(n) <==> forall u :: u in n'.unhealthy <==> u in FullList(n, updated))
  {
    FullListExactly(n, updated);
    var n' := MergeStatus(n, updated, now).0;
    if !ListChange(n, updated) {
      QuietListAgrees(n, updated);
      if forall u :: u in n'.unhealthy <==> u in FullList(n, updated) {
        assert IDs(n'.unhealthy) == IDs(FullList(n, updated));
      }
    }
  }

  /** An ID's state is the one its last entry gives. */
  lemma {:induction false} LastStatesSay(us: seq<UnhealthyDevice>, id: string, state: string)
    ensures id in LastStates(us) && LastStates(us)[id] == state <==>
            exists j :: 0 <= j < |us| && us[j] == UnhealthyDevice(id, state) && forall i :: j < i < |us| ==> us[i].id != id
  {
    if us != [] {
      var n := |us| - 1;
      LastStatesSay(us[..n], id, state);
      if us[n].id != id {
        if j :| 0 <= j < n && us[..n][j] == UnhealthyDevice(id, state) && forall i :: j < i < n ==> us[..n][i].id != id {
          assert us[j] == UnhealthyDevice(id, state);
        }
        if j :| 0 <= j < |us| && us[j] == UnhealthyDevice(id, state) && forall i :: j < i < |us| ==> us[i].id != id {
          assert us[..n][j] == UnhealthyDevice(id, state);
        }
      }
    }
  }

  /** With the flag down nothing changes, so nothing is lost by not writing the status. */
  lemma QuietMeansUnchanged(n: Node, updated: seq<UnhealthyDevice>, now: int)
    requires !MergeStatus(n, updated, now).1
    ensures MergeStatus(n, updated, now).0 == n
  {
    OtherConditionsKept(n.conditions, HasDevice(n), |FullList(n, updated)|, now);
  }

  /** A condition that was there keeps its transition time unless its status or message changes, and then
      carries the time of the update. */
  lemma TransitionTimes(n: Node, updated: seq<UnhealthyDevice>, now: int, i: nat)
    requires i < |n.conditions|
    ensures var cs := MergeStatus(n, updated, now).0.conditions;
            && |cs| == |n.conditions|
            && cs[i].lastTransition ==
               if (cs[i].status, cs[i].message) == (n.conditions[i].status, n.conditions[i].message)
               then n.conditions[i].lastTransition else now
  {
    OtherConditionsKept(n.conditions, HasDevice(n), |FullList(n, updated)|, now);
  }

  /** Distinct updates that bring something new bring one that is not in the list. */
  lemma {:induction false} NovelIsUnlisted(known: seq<UnhealthyDevice>, updated: seq<UnhealthyDevice>)
    requires Novel(known, updated) && DistinctIDs(known) && DistinctIDs(updated)
    ensures exists u :: u in updated && u !in known
  {
    var n := |updated| - 1;
    if Novel(known, updated[..n]) {
      NovelIsUnlisted(known, updated[..n]);
      var u :| u in updated[..n] && u !in known;
      assert u in updated;
    } else {
      NothingNew(known, updated[..n]);
      assert updated[n] !in known by {
        if updated[n] in known { OwnStates(known); }
      }
    }
  }

  predicate SamePairs(a: seq<UnhealthyDevice>, b: seq<UnhealthyDevice>) {
    (forall u :: u in a ==> u in b) && (forall u :: u in b ==> u in a)
  }

  /** When the updates name each unhealthy interface at most once and nothing else, the list is flagged
      exactly when the pairs it should hold are not the ones it holds. */
  lemma ListFlagIsExact(n: Node, updated: seq<UnhealthyDevice>)
    requires WellFormed(n) && DistinctIDs(updated) && IDs(updated) <= Bad(n) <= IDs(n.unhealthy) + IDs(updated)
    ensures ListChange(n, updated) <==> !SamePairs(FullList(n, updated), n.unhealthy)
  {
    var full := FullList(n, updated);
    FullListExactly(n, updated);
    if !ListChange(n, updated) {
      NothingNew(n.unhealthy, updated);
      QuietListAgrees(n, updated);
    } else if SamePairs(full, n.unhealthy) {
      assert IDs(full) == IDs(n.unhealthy);
      DistinctCount(full);
      DistinctCount(n.unhealthy);
      NovelIsUnlisted(n.unhealthy, updated);
      var u :| u in updated && u !in n.unhealthy;
      UpdateIsListed(n, updated, u);
      assert false;
    }
  }

  lemma UpdateIsListed(n: Node, updated: seq<UnhealthyDevice>, u: UnhealthyDevice)
    requires WellFormed(n) && DistinctIDs(updated) && u in updated && u.id in Bad(n)
    ensures u in FullList(n, updated)
  {
    FullListExactly(n, updated);
    LastStatesConcat(n.unhealthy, updated);
    OwnStates(updated);
    var v :| v in FullList(n, updated) && v.id == u.id;
    assert v == u;
  }

  /** Otherwise it may be raised for nothing: an update about a device that is no interface, a VF of a PF
      say, is new every time. */
  lemma FlagRaisedForNothing(id: string)
    ensures var n, us := Node([], [], [], []), [UnhealthyDevice(id, REMOVED)];
            ListChange(n, us) && FullList(n, us) == n.unhealthy
  {
    var us := [UnhealthyDevice(id, REMOVED)];
    assert us[..0] == [] && [] + us[..0] == [];
    assert Novel([], us);
  }

  // ----- One scan -----

  datatype Scan = Scan(pfs: Report, ssas: Report, updated: seq<UnhealthyDevice>, now: int)

  /** Everything the merge is told: the scan's own report and the devices that went missing. */
  function Updates(n: Node, s: Scan): seq<UnhealthyDevice> {
    s.updated + Removed(n.pfs, s.pfs) + Removed(n.ssas, s.ssas)
  }

  /** What is stored: the status is written only if it is said to have changed. The spec needs no such
      case, because its flag is raised exactly when a list changed in value. */
  function Written(n: Node, pfs: InterfaceList, ssas: InterfaceList, s: Scan): Node {
    var (m, changed) := MergeStatus(n.(pfs := pfs, ssas := ssas), Updates(n, s), s.now);
    if changed then m else n.(pfs := pfs, ssas := ssas)
  }

  predicate NextNode(n: Node, s: Scan, n': Node) {
    && Reconciled(n.pfs, s.pfs, n'.pfs) && Reconciled(n.ssas, s.ssas, n'.ssas)
    && n' == Written(n, n'.pfs, n'.ssas, s)
  }

  /** `WriteSpyreInterfacesToNodeState` on a stored record, when the API server accepts the writes. */
  method WriteSpyreInterfaces(stored: Node, s: Scan) returns (stored': Node)
    requires KeyedReport(s.pfs) && KeyedReport(s.ssas)
    ensures NextNode(stored, s, stored')
  {
    var nodeState := new SpyreNodeState(stored);
    var specChanged, statusChanged := nodeState.UpdateSpyreInterfacesChanges(s.pfs, s.ssas, s.updated, s.now);
    stored' := stored;
    if specChanged {
      stored' := stored'.(pfs := nodeState.interfaces, ssas := nodeState.ssaInterfaces);
    }
    if statusChanged {
      stored' := stored'.(unhealthy := nodeState.unhealthyDevices, conditions := nodeState.conditions);
    }
    assert nodeState.View() ==
           MergeStatus(stored.(pfs := nodeState.interfaces, ssas := nodeState.ssaInterfaces), Updates(stored, s), s.now).0;
  }

  /** The scan reports every unhealthy PF and isolated VF it found. */
  predicate Complete(s: Scan) {
    && (forall a :: a in s.pfs && s.pfs[a].health.Unhealthy? ==> a in IDs(s.updated))
    && (forall a :: a in s.ssas && s.ssas[a].health.Unhealthy? ==> a in IDs(s.updated))
  }

  lemma {:induction false} RemovedListed(list: InterfaceList, report: Report, i: nat)
    requires i < |list| && list[i].addr !in report && !list[i].health.Unhealthy?
    ensures UnhealthyDevice(list[i].addr, REMOVED) in Removed(list, report)
  {
    var n := |list| - 1;
    if i < n {
      RemovedListed(list[..n], report, i);
      assert list[..n][i] == list[i];
    }
  }

  /** An unhealthy entry after the scan was reported, went missing now, or was already unhealthy. */
  lemma UnhealthyExplained(before: InterfaceList, report: Report, after: InterfaceList, known: set<string>,
                           updated: seq<UnhealthyDevice>)
    requires KeyedReport(report) && Reconciled(before, report, after) && Unique(before)
    requires forall a :: a in report && report[a].health.Unhealthy? ==> a in IDs(updated)
    requires UnhealthyAddrs(before) <= known
    ensures UnhealthyAddrs(after) <= known + IDs(updated) + IDs(Removed(before, report))
  {
    forall e | e in after && e.health.Unhealthy?
      ensures e.addr in known + IDs(updated) + IDs(Removed(before, report))
    {
      var i :| 0 <= i < |after| && after[i] == e;
      if e.addr !in report {
        assert i < |before| && before[i].addr == e.addr && before[i] in before;
        if before[i].health.Unhealthy? {
          assert e.addr in UnhealthyAddrs(before);
        } else {
          RemovedListed(before, report, i);
        }
      }
    }
  }

  /** Every interface that ends unhealthy was listed before or is among the updates. */
  lemma ScanIsKnown(n: Node, s: Scan, n': Node)
    requires WellFormed(n) && Bad(n) <= IDs(n.unhealthy) && Complete(s) && KeyedReport(s.pfs) && KeyedReport(s.ssas)
    requires NextNode(n, s, n')
    ensures Bad(n') <= IDs(n.unhealthy + Updates(n, s)) == IDs(n.unhealthy) + IDs(Updates(n, s))
  {
    UnhealthyExplained(n.pfs, s.pfs, n'.pfs, IDs(n.unhealthy), s.updated);
    UnhealthyExplained(n.ssas, s.ssas, n'.ssas, IDs(n.unhealthy), s.updated);
    IDsConcat(n.unhealthy, Updates(n, s));
    IDsConcat(s.updated + Removed(n.pfs, s.pfs), Removed(n.ssas, s.ssas));
    IDsConcat(s.updated, Removed(n.pfs, s.pfs));
  }

  /** One scan restores the agreement, whatever the stored list said about other devices before. */
  lemma ScanRestoresAgreement(n: Node, s: Scan, n': Node)
    requires WellFormed(n) && Bad(n) <= IDs(n.unhealthy)
    requires KeyedReport(s.pfs) && KeyedReport(s.ssas) && Complete(s)
    requires NextNode(n, s, n') && Addrs(n'.pfs) !! Addrs(n'.ssas)
    ensures WellFormed(n') && IDs(n'.unhealthy) == Bad(n')
  {
    var m := n.(pfs := n'.pfs, ssas := n'.ssas);
    var us := Updates(n, s);
    ScanIsKnown(n, s, n');
    ReconciledAddrs(n.pfs, s.pfs, n'.pfs);
    ReconciledAddrs(n.ssas, s.ssas, n'.ssas);
    assert WellFormed(m) && Bad(m) == Bad(n');
    FlagDecides(m, us, s.now);
    if !ListChange(m, us) {
      NothingNew(m.unhealthy, us);
    }
  }

  // ----- The state each listed device carries -----

  lemma MergeOne(m: map<string, string>, n: map<string, string>, k: string, v: string)
    ensures (m + n)[k := v] == m + n[k := v]
  {
  }

  /** Later updates win. */
  lemma {:induction false} LastStatesConcat(a: seq<UnhealthyDevice>, b: seq<UnhealthyDevice>)
    ensures LastStates(a + b) == LastStates(a) + LastStates(b)
  {
    if b == [] {
      assert a + b == a;
    } else {
      var n := |b| - 1;
      LastStatesConcat(a, b[..n]);
      assert a + b == a + b[..n] + [b[n]] && b == b[..n] + [b[n]];
      LastStatesAppend(a + b[..n], b[n]);
      LastStatesAppend(b[..n], b[n]);
      MergeOne(LastStates(a), LastStates(b[..n]), b[n].id, b[n].state);
    }
  }

  lemma {:induction false} LastStateListed(us: seq<UnhealthyDevice>, id: string)
    requires id in LastStates(us)
    ensures UnhealthyDevice(id, LastStates(us)[id]) in us
  {
    var n := |us| - 1;
    assert us == us[..n] + [us[n]];
    if id != us[n].id { LastStateListed(us[..n], id); }
  }

  /** A stored entry that was not unhealthy and is not reported any more. */
  predicate Missing(list: InterfaceList, report: Report, id: string) {
    exists i :: 0 <= i < |list| && list[i].addr == id && id !in report && !list[i].health.Unhealthy?
  }

  lemma {:induction false} RemovedAreMissing(list: InterfaceList, report: Report, u: UnhealthyDevice)
    requires u in Removed(list, report)
    ensures u.state == REMOVED && Missing(list, report, u.id)
  {
    var n := |list| - 1;
    if u in Removed(list[..n], report) {
      RemovedAreMissing(list[..n], report, u);
      var i :| 0 <= i < n && list[..n][i].addr == u.id && u.id !in report && !list[..n][i].health.Unhealthy?;
      assert list[i].addr == u.id;
    } else {
      assert list[n].addr == u.id;
    }
  }

  lemma RemovedStates(list: InterfaceList, report: Report, id: string)
    ensures id in LastStates(Removed(list, report)) <==> Missing(list, report, id)
    ensures id in LastStates(Removed(list, report)) ==> LastStates(Removed(list, report))[id] == REMOVED
  {
    var us := Removed(list, report);
    LastStatesKeys(us);
    if id in LastStates(us) {
      LastStateListed(us, id);
      RemovedAreMissing(list, report, UnhealthyDevice(id, LastStates(us)[id]));
    }
    if i :| 0 <= i < |list| && list[i].addr == id && id !in report && !list[i].health.Unhealthy? {
      RemovedListed(list, report, i);
    }
  }

  predicate WentMissing(n: Node, s: Scan, id: string) {
    Missing(n.pfs, s.pfs, id) || Missing(n.ssas, s.ssas, id)
  }

  /** Where a listed pair comes from: the device went missing in this scan, or this scan reports that
      state, or it says nothing and the pair was listed before. */
  predicate FromScan(n: Node, s: Scan, u: UnhealthyDevice) {
    if WentMissing(n, s, u.id) then u.state == "REMOVED"
    else if u.id in IDs(s.updated) then u in s.updated
    else u in n.unhealthy
  }

  lemma LastStateFromScan(n: Node, s: Scan, id: string)
    requires id in LastStates(n.unhealthy + Updates(n, s))
    ensures FromScan(n, s, UnhealthyDevice(id, LastStates(n.unhealthy + Updates(n, s))[id]))
  {
    var p, q := Removed(n.pfs, s.pfs), Removed(n.ssas, s.ssas);
    LastStatesConcat(n.unhealthy, Updates(n, s));
    LastStatesConcat(s.updated + p, q);
    LastStatesConcat(s.updated, p);
    RemovedStates(n.pfs, s.pfs, id);
    RemovedStates(n.ssas, s.ssas, id);
    LastStatesKeys(s.updated);
    if !WentMissing(n, s, id) {
      if id in IDs(s.updated) { LastStateListed(s.updated, id); } else { LastStateListed(n.unhealthy, id); }
    }
  }

  /** After one complete scan every listed pair is explained by the scan. */
  lemma ScanExplainsStates(n: Node, s: Scan, n': Node)
    requires WellFormed(n) && Bad(n) <= IDs(n.unhealthy)
    requires KeyedReport(s.pfs) && KeyedReport(s.ssas) && Complete(s)
    requires NextNode(n, s, n') && Addrs(n'.pfs) !! Addrs(n'.ssas)
    ensures forall u :: u in n'.unhealthy ==> FromScan(n, s, u)
  {
    var m := n.(pfs := n'.pfs, ssas := n'.ssas);
    var us := Updates(n, s);
    ScanRestoresAgreement(n, s, n');
    FlagDecides(m, us, s.now);
    FullListExactly(m, us);
    LastStatesKeys(n.unhealthy + us);
    ScanIsKnown(n, s, n');
    forall u | u in n'.unhealthy ensures FromScan(n, s, u) {
      assert u in FullList(m, us) && u.id in IDs(n'.unhealthy);
      LastStateFromScan(n, s, u.id);
    }
  }

  // ----- The health condition -----

  function HealthMessage(n: Node): (Status, Message) {
    if Bad(n) != {} then (False, DevicesUnhealthy(|Bad(n)|))
    else if n.pfs != [] || n.ssas != [] then (True, AllDevicesHealthy)
    else (Unknown, NoDetectedDevice)
  }

  predicate HasHealthCondition(cs: seq<Condition>) {
    FirstHealthCondition(cs) < |cs|
  }

  /** The record carries a health condition and it says what the interfaces dictate. */
  predicate ConditionAgrees(n: Node) {
    && HasHealthCondition(n.conditions)
    && var c := n.conditions[FirstHealthCondition(n.conditions)];
       (c.status, c.message) == HealthMessage(n)
  }

  lemma FirstStays(cs: seq<Condition>, c: Condition)
    requires HasHealthCondition(cs) && c.kind == DEVICE_HEALTHY
    ensures FirstHealthCondition(cs[FirstHealthCondition(cs) := c]) == FirstHealthCondition(cs)
  {
    var i := FirstHealthCondition(cs);
    var k := FirstHealthCondition(cs[i := c]);
    assert cs[i := c][i].kind == DEVICE_HEALTHY;
  }

  predicate Says(cs: seq<Condition>, status: Status, message: Message) {
    && HasHealthCondition(cs)
    && var c := cs[FirstHealthCondition(cs)];
       c.status == status && c.message == message
  }

  /** The updated conditions, and the old ones too if no change is reported, say what they should. */
  lemma ConditionsUpdated(cs: seq<Condition>, hasDevice: bool, count: nat, now: int)
    requires cs == [] || HasHealthCondition(cs)
    ensures var r, c := UpdateConditions(cs, hasDevice, count, now), GetCondition(hasDevice, count, now);
            && Says(r.1, c.status, c.message)
            && (!r.0 ==> Says(cs, c.status, c.message))
  {
    if cs == [] {
      assert FirstHealthCondition([GetCondition(hasDevice, count, now)]) == 0;
    } else {
      var i := FirstHealthCondition(cs);
      FirstStays(cs, UpdateCondition(cs[i], hasDevice, count, now).1);
    }
  }

  /** After a scan the condition is right exactly when there was none at all or one of the right type:
      a record holding only foreign conditions never gets one. */
  lemma ScanSetsCondition(n: Node, s: Scan, n': Node)
    requires NextNode(n, s, n') && WellFormed(n.(pfs := n'.pfs, ssas := n'.ssas))
    ensures ConditionAgrees(n') <==> n.conditions == [] || HasHealthCondition(n.conditions)
    ensures n'.conditions == [] || HasHealthCondition(n'.conditions) <==>
            n.conditions == [] || HasHealthCondition(n.conditions)
  {
    var m := n.(pfs := n'.pfs, ssas := n'.ssas);
    FullListExactly(m, Updates(n, s));
    var count := |FullList(m, Updates(n, s))|;
    assert Bad(n') == Bad(m) && HasDevice(n') == HasDevice(m);
    MessageFor(n', count);
    if n.conditions == [] || HasHealthCondition(n.conditions) {
      ConditionsUpdated(n.conditions, HasDevice(m), count, s.now);
    }
  }

  predicate StaysWrong(n: Node, s: Scan, n': Node) {
    Cleared(n) && NextNode(n, s, n') && !ConditionAgrees(n')
  }

  /** A cleared record that carries one condition of another type gets no health condition from a scan. */
  lemma ForeignConditionStays()
    ensures exists n, s, n' :: StaysWrong(n, s, n')
  {
    var n := Node([], [], [], [Condition("Ready", True, OtherMessage(""), 0)]);
    var s := Scan(map[], map[], [], 0);
    assert n.conditions != [] && n.conditions[1..] == [];
    var n' := Written(n, [], [], s);
    ScanSetsCondition(n, s, n');
    assert StaysWrong(n, s, n');
  }

  lemma MessageFor(n: Node, count: nat)
    requires count == |Bad(n)|
    ensures var c := GetCondition(HasDevice(n), count, 0); (c.status, c.message) == HealthMessage(n)
  {
  }

  // ----- Whole runs -----

  predicate IsScanRun(nodes: seq<Node>, scans: seq<Scan>) {
    && |nodes| == |scans| + 1
    && forall i :: 0 <= i < |scans| ==> NextNode(nodes[i], scans[i], nodes[i + 1])
  }

  /** PFs and attached VFs' PFs on one side, isolated VFs on the other: no address switches kind. */
  predicate KeepsKinds(s: Scan, pfSide: set<string>, ssaSide: set<string>) {
    && KeyedReport(s.pfs) && KeyedReport(s.ssas)
    && s.pfs.Keys <= pfSide && s.ssas.Keys <= ssaSide
  }

  predicate Cleared(n: Node) {
    n.pfs == [] && n.ssas == [] && DistinctIDs(n.unhealthy)
  }

  lemma {:induction false} RunInvariant(nodes: seq<Node>, scans: seq<Scan>, pfSide: set<string>, ssaSide: set<string>)
    requires IsScanRun(nodes, scans) && Cleared(nodes[0]) && pfSide !! ssaSide
    requires forall i :: 0 <= i < |scans| ==> KeepsKinds(scans[i], pfSide, ssaSide) && Complete(scans[i])
    ensures var n := nodes[|scans|];
            && WellFormed(n) && Addrs(n.pfs) <= pfSide && Addrs(n.ssas) <= ssaSide
            && Bad(n) <= IDs(n.unhealthy)
            && (scans != [] ==> IDs(n.unhealthy) == Bad(n))
            && (scans != [] ==> (ConditionAgrees(n) <==> nodes[0].conditions == [] || HasHealthCondition(nodes[0].conditions)))
            && (n.conditions == [] || HasHealthCondition(n.conditions) <==>
                nodes[0].conditions == [] || HasHealthCondition(nodes[0].conditions))
  {
    if scans != [] {
      var k := |scans| - 1;
      RunInvariant(nodes[..k + 1], scans[..k], pfSide, ssaSide);
      var n, s, n' := nodes[k], scans[k], nodes[k + 1];
      assert KeepsKinds(s, pfSide, ssaSide) && Complete(s) && NextNode(n, s, n');
      ReconciledAddrs(n.pfs, s.pfs, n'.pfs);
      ReconciledAddrs(n.ssas, s.ssas, n'.ssas);
      ScanRestoresAgreement(n, s, n');
      ScanSetsCondition(n, s, n');
    }
  }

  /** A health check as the plugin performs it: the devices discovered and the checker's latest answers. */
  datatype Discovery = Discovery(devices: seq<DeviceInfo>, reported: Records, now: int)

  function WithoutAddr(devices: seq<DeviceInfo>, a: string): seq<DeviceInfo> {
    if devices == [] then []
    else
      var n := |devices| - 1;
      WithoutAddr(devices[..n], a) + if devices[n].addr == a then [] else [devices[n]]
  }

  /** The discovered devices, of each address only the last. */
  function LastPerAddr(devices: seq<DeviceInfo>): seq<DeviceInfo> {
    if devices == [] then []
    else
      var n := |devices| - 1;
      WithoutAddr(LastPerAddr(devices[..n]), devices[n].addr) + [devices[n]]
  }

  lemma {:induction false} WithoutAddrElems(devices: seq<DeviceInfo>, a: string, d: DeviceInfo)
    ensures d in WithoutAddr(devices, a) <==> d in devices && d.addr != a
  {
    if devices != [] {
      var n := |devices| - 1;
      WithoutAddrElems(devices[..n], a, d);
      assert devices == devices[..n] + [devices[n]];
    }
  }

  lemma {:induction false} WithoutAddrDistinct(devices: seq<DeviceInfo>, a: string)
    requires DistinctAddrs(devices)
    ensures DistinctAddrs(WithoutAddr(devices, a))
  {
    if devices != [] {
      var n := |devices| - 1;
      var prev := WithoutAddr(devices[..n], a);
      WithoutAddrDistinct(devices[..n], a);
      forall i | 0 <= i < |prev| ensures prev[i].addr != devices[n].addr {
        WithoutAddrElems(devices[..n], a, prev[i]);
      }
    }
  }

  lemma {:induction false} LastPerAddrElems(devices: seq<DeviceInfo>, d: DeviceInfo)
    ensures d in LastPerAddr(devices) <==> d.addr in InfoMap(devices) && InfoMap(devices)[d.addr] == d
  {
    if devices != [] {
      var n := |devices| - 1;
      var m := InfoMap(devices[..n]);
      LastPerAddrElems(devices[..n], d);
      WithoutAddrElems(LastPerAddr(devices[..n]), devices[n].addr, d);
      assert InfoMap(devices) == m[devices[n].addr := devices[n]];
      assert d in LastPerAddr(devices) <==> (d in LastPerAddr(devices[..n]) && d.addr != devices[n].addr) || d == devices[n];
    }
  }

  lemma {:induction false} LastPerAddrDistinct(devices: seq<DeviceInfo>)
    ensures DistinctAddrs(LastPerAddr(devices))
  {
    if devices != [] {
      var n := |devices| - 1;
      var prev := WithoutAddr(LastPerAddr(devices[..n]), devices[n].addr);
      LastPerAddrDistinct(devices[..n]);
      WithoutAddrDistinct(LastPerAddr(devices[..n]), devices[n].addr);
      forall i | 0 <= i < |prev| ensures prev[i].addr != devices[n].addr {
        WithoutAddrElems(LastPerAddr(devices[..n]), devices[n].addr, prev[i]);
      }
    }
  }

  function ScannedDevices(d: Discovery): seq<Device> {
    var ds, records := LastPerAddr(d.devices), ScanRecords(d.devices, d.reported);
    seq(|ds|, i requires 0 <= i < |ds| =>
      assert ds[i].addr in records by { LastPerAddrElems(d.devices, ds[i]); }
      Device(ds[i], EndsHealthy(ds[i], records)))
  }

  /** A scanned device is the last of its address, with the health the records give it. */
  lemma ScannedElems(d: Discovery)
    ensures DistinctDevices(ScannedDevices(d))
    ensures forall dev :: dev in ScannedDevices(d) <==>
              && dev.info.addr in InfoMap(d.devices) && InfoMap(d.devices)[dev.info.addr] == dev.info
              && dev.healthy == EndsHealthy(dev.info, ScanRecords(d.devices, d.reported))
  {
    LastPerAddrDistinct(d.devices);
    var ds, scanned := LastPerAddr(d.devices), ScannedDevices(d);
    forall dev: Device
      ensures dev.info in ds <==> dev.info.addr in InfoMap(d.devices) && InfoMap(d.devices)[dev.info.addr] == dev.info
      ensures dev in scanned <==> dev.info in ds && dev.healthy == EndsHealthy(dev.info, ScanRecords(d.devices, d.reported))
    {
      LastPerAddrElems(d.devices, dev.info);
      if i :| 0 <= i < |ds| && ds[i] == dev.info { assert scanned[i].info == dev.info; }
    }
  }

  /** The scan a discovery leads to; the report may list the unhealthy devices in any order. */
  predicate IsScanOf(d: Discovery, s: Scan) {
    && s.pfs == PfReport(ScannedDevices(d)) && s.ssas == SsaReport(ScannedDevices(d)) && s.now == d.now
    && ReportsExactly(s.updated, Expected(InfoMap(d.devices), ScanRecords(d.devices, d.reported)))
  }

  /** Every scan is complete: each discovered device has a record, so an unhealthy one is reported. */
  lemma ScansAreComplete(d: Discovery, s: Scan)
    requires IsScanOf(d, s)
    ensures Complete(s) && KeyedReport(s.pfs) && KeyedReport(s.ssas)
  {
    var ds := ScannedDevices(d);
    ScannedElems(d);
    forall a | a in s.pfs && s.pfs[a].health.Unhealthy? ensures a in IDs(s.updated) {
      PfHealthOf(ds, a);
      var dev :| dev in ds && dev.info.IsSriovPF() && dev.info.addr == a;
    }
    forall a | a in s.ssas && s.ssas[a].health.Unhealthy? ensures a in IDs(s.updated) {
      SsaHealthOf(ds, a);
      var dev :| dev in ds && dev.info.IsIsolatedVF() && dev.info.addr == a;
    }
  }

  // ----- What the reports of a check say about its devices -----

  /** The health service calls the device something else than online. */
  predicate Down(d: Discovery, a: string) {
    a in d.reported && d.reported[a].state != "ONLINE"
  }

  /** A VF whose discovered PF is called that, and called a PF. */
  predicate PfIsDown(d: Discovery, info: DeviceInfo) {
    && !IsPf(info) && !IsAlone(info) && info.pfAddr in AddrsOf(d.devices)
    && Down(d, info.pfAddr) && d.reported[info.pfAddr].deviceType == PfType
  }

  /** Each discovered device, the last of its address, is scanned, and is healthy unless it or its PF is
      called down; without a report for either it is healthy. */
  lemma ScannedSays(d: Discovery, i: nat)
    requires LastIn(d.devices, i)
    ensures var info := d.devices[i];
            Device(info, !Down(d, info.addr) && !PfIsDown(d, info)) in ScannedDevices(d)
  {
    var info := d.devices[i];
    var records := ScanRecords(d.devices, d.reported);
    RecordsSay(d.devices, d.reported, i);
    EndsHealthySays(info, records);
    if info.pfAddr in AddrsOf(d.devices) {
      var j := SomeLast(d.devices, info.pfAddr);
      RecordsSay(d.devices, d.reported, j);
    }
    ScannedElems(d);
  }

  lemma ScannedIsLast(d: Discovery, dev: Device) returns (i: nat)
    requires dev in ScannedDevices(d)
    ensures LastIn(d.devices, i) && d.devices[i] == dev.info
    ensures dev.healthy <==> !Down(d, dev.info.addr) && !PfIsDown(d, dev.info)
  {
    ScannedElems(d);
    i := SomeLast(d.devices, dev.info.addr);
    RecordsSay(d.devices, d.reported, i);
    ScannedSays(d, i);
  }

  /** The unhealthy report of a check: one entry for each device that is down or whose PF is, with the state
      called out. */
  lemma UpdatedSays(d: Discovery, s: Scan, i: nat)
    requires IsScanOf(d, s) && LastIn(d.devices, i)
    ensures var info := d.devices[i];
            forall state :: UnhealthyDevice(info.addr, state) in s.updated <==>
              || (Down(d, info.addr) && state == d.reported[info.addr].state)
              || (!Down(d, info.addr) && PfIsDown(d, info) && state == d.reported[info.pfAddr].state)
  {
    var info, records := d.devices[i], ScanRecords(d.devices, d.reported);
    RecordsSay(d.devices, d.reported, i);
    EndsHealthySays(info, records);
    if info.pfAddr in AddrsOf(d.devices) {
      var j := SomeLast(d.devices, info.pfAddr);
      RecordsSay(d.devices, d.reported, j);
    }
    var expected := Expected(InfoMap(d.devices), records);
    if info.addr in expected {
      assert info.addr in IDs(s.updated);
      var u :| u in s.updated && u.id == info.addr;
      assert u == UnhealthyDevice(info.addr, expected[info.addr]);
    }
  }

  /** The check discovers the PF at the address, or one of its VFs. */
  ghost predicate SeesPf(d: Discovery, a: string) {
    exists i :: && LastIn(d.devices, i) && !IsAlone(d.devices[i])
                && a == if IsPf(d.devices[i]) then d.devices[i].addr else d.devices[i].pfAddr
  }

  ghost predicate SeesAlone(d: Discovery, a: string) {
    exists i :: LastIn(d.devices, i) && IsAlone(d.devices[i]) && d.devices[i].addr == a
  }

  /** The check discovers a PF, or an isolated VF, that is called down. */
  ghost predicate SeesDown(d: Discovery, a: string) {
    exists i :: LastIn(d.devices, i) && d.devices[i].addr == a && (IsPf(d.devices[i]) || IsAlone(d.devices[i])) && Down(d, a)
  }

  lemma ReportsSeen(d: Discovery, s: Scan, a: string)
    requires IsScanOf(d, s)
    ensures a in s.pfs <==> SeesPf(d, a)
    ensures a in s.ssas <==> SeesAlone(d, a)
  {
    var ds := ScannedDevices(d);
    ScannedElems(d);
    PfReportSays(ds, a);
    SsaReportSays(ds, a);
    forall i: int | LastIn(d.devices, i) ensures exists dev :: dev in ds && dev.info == d.devices[i] { ScannedSays(d, i); }
    forall dev | dev in ds ensures exists i :: LastIn(d.devices, i) && d.devices[i] == dev.info { var i := ScannedIsLast(d, dev); }
  }

  lemma ReportsDown(d: Discovery, s: Scan, a: string)
    requires IsScanOf(d, s)
    ensures (a in s.pfs && s.pfs[a].health.Unhealthy?) || (a in s.ssas && s.ssas[a].health.Unhealthy?) <==> SeesDown(d, a)
  {
    var ds := ScannedDevices(d);
    ScannedElems(d);
    PfReportSays(ds, a);
    SsaReportSays(ds, a);
    if i :| LastIn(d.devices, i) && d.devices[i].addr == a && (IsPf(d.devices[i]) || IsAlone(d.devices[i])) && Down(d, a) {
      ScannedSays(d, i);
    }
    if a in s.pfs && s.pfs[a].health.Unhealthy? {
      var dev :| dev in ds && IsPf(dev.info) && dev.info.addr == a;
      var i := ScannedIsLast(d, dev);
    }
    if a in s.ssas && s.ssas[a].health.Unhealthy? {
      var dev :| dev in ds && IsAlone(dev.info) && dev.info.addr == a;
      var i := ScannedIsLast(d, dev);
    }
  }

  /** The two sides an address may be reported on. */
  predicate SidesOf(devices: seq<DeviceInfo>, pfSide: set<string>, ssaSide: set<string>) {
    forall d :: d in devices ==>
      if d.IsIsolatedVF() then d.addr in ssaSide
      else if d.IsSriovPF() then d.addr in pfSide
      else d.pfAddr in pfSide
  }

  // ----- The list, read off the checks -----

  /** After a scan an interface is unhealthy when it is reported so, or stored and not reported. */
  lemma UnhealthyAfter(before: InterfaceList, report: Report, after: InterfaceList, a: string)
    requires KeyedReport(report) && Reconciled(before, report, after) && Unique(before)
    ensures a in UnhealthyAddrs(after) <==> if a in report then report[a].health.Unhealthy? else a in Addrs(before)
  {
    ReconciledAddrs(before, report, after);
    if a in Addrs(after) {
      var i :| 0 <= i < |after| && after[i].addr == a;
      assert after[i] in after && FirstAt(after, i);
      forall e | e in after && e.addr == a ensures e == after[i] { }
    }
  }

  /** Some check before the `k`-th discovered the PF or one of its VFs, or the isolated VF. */
  ghost predicate SawPf(checks: seq<Discovery>, k: int, a: string) {
    exists j :: 0 <= j < k <= |checks| && SeesPf(checks[j], a)
  }

  ghost predicate SawAlone(checks: seq<Discovery>, k: int, a: string) {
    exists j :: 0 <= j < k <= |checks| && SeesAlone(checks[j], a)
  }

  lemma SawStep(checks: seq<Discovery>, k: nat, a: string)
    requires 0 < k <= |checks|
    ensures SawPf(checks, k, a) <==> SawPf(checks, k - 1, a) || SeesPf(checks[k - 1], a)
    ensures SawAlone(checks, k, a) <==> SawAlone(checks, k - 1, a) || SeesAlone(checks[k - 1], a)
  {
    hide SeesPf, SeesAlone;
  }

  lemma StoredStep(n: Node, s: Scan, n': Node, d: Discovery, a: string)
    requires NextNode(n, s, n') && IsScanOf(d, s)
    ensures a in Addrs(n'.pfs) <==> a in Addrs(n.pfs) || SeesPf(d, a)
    ensures a in Addrs(n'.ssas) <==> a in Addrs(n.ssas) || SeesAlone(d, a)
  {
    ScansAreComplete(d, s);
    ReportsSeen(d, s, a);
    ReconciledAddrs(n.pfs, s.pfs, n'.pfs);
    ReconciledAddrs(n.ssas, s.ssas, n'.ssas);
  }

  lemma {:induction false} StoredByHistory(nodes: seq<Node>, scans: seq<Scan>, checks: seq<Discovery>, k: nat, a: string)
    requires IsScanRun(nodes, scans) && Cleared(nodes[0]) && |checks| == |scans| && k < |nodes|
    requires forall i :: 0 <= i < |scans| ==> IsScanOf(checks[i], scans[i])
    ensures a in Addrs(nodes[k].pfs) <==> SawPf(checks, k, a)
    ensures a in Addrs(nodes[k].ssas) <==> SawAlone(checks, k, a)
  {
    if k > 0 {
      hide NextNode, IsScanOf, SawPf, SawAlone;
      StoredByHistory(nodes, scans, checks, k - 1, a);
      assert NextNode(nodes[k - 1], scans[k - 1], nodes[k]) && IsScanOf(checks[k - 1], scans[k - 1]);
      StoredStep(nodes[k - 1], scans[k - 1], nodes[k], checks[k - 1], a);
      SawStep(checks, k, a);
    }
  }

  /** What the list must name after the `k`-th check, read off the checks alone: the PFs and isolated VFs this
      check finds called down, and those an earlier check found and this one does not. */
  ghost predicate ShouldList(checks: seq<Discovery>, k: int, a: string)
    requires 0 < k <= |checks|
  {
    || SeesDown(checks[k - 1], a)
    || (SawPf(checks, k - 1, a) && !SeesPf(checks[k - 1], a))
    || (SawAlone(checks, k - 1, a) && !SeesAlone(checks[k - 1], a))
  }

  lemma BadByHistory(nodes: seq<Node>, scans: seq<Scan>, checks: seq<Discovery>, k: nat, a: string)
    requires IsScanRun(nodes, scans) && Cleared(nodes[0]) && |checks| == |scans| && 0 < k < |nodes|
    requires forall i :: 0 <= i < |scans| ==> IsScanOf(checks[i], scans[i])
    requires WellFormed(nodes[k - 1])
    ensures a in Bad(nodes[k]) <==> ShouldList(checks, k, a)
  {
    var n, s, n' := nodes[k - 1], scans[k - 1], nodes[k];
    assert NextNode(n, s, n') && IsScanOf(checks[k - 1], s);
    ScansAreComplete(checks[k - 1], s);
    StoredByHistory(nodes, scans, checks, k - 1, a);
    ReportsSeen(checks[k - 1], s, a);
    ReportsDown(checks[k - 1], s, a);
    UnhealthyAfter(n.pfs, s.pfs, n'.pfs, a);
    UnhealthyAfter(n.ssas, s.ssas, n'.ssas, a);
  }

  /** From cleared interface lists and a list of distinct IDs, however stale, over every sequence of
      health checks in which no address switches kind: after each check the stored list names exactly
      the unhealthy interfaces, which are those the checks call for, and the condition is false, true or
      unknown exactly as they dictate, with their number, unless the record holds only conditions of other
      types. Each listed device carries the state of this check if it went missing or was reported in it,
      and otherwise the one it had. */
  lemma HealthViewsAgree(nodes: seq<Node>, scans: seq<Scan>, checks: seq<Discovery>,
                         pfSide: set<string>, ssaSide: set<string>, k: nat)
    requires IsScanRun(nodes, scans) && Cleared(nodes[0]) && pfSide !! ssaSide && |checks| == |scans|
    requires forall i :: 0 <= i < |scans| ==>
               && SidesOf(LastPerAddr(checks[i].devices), pfSide, ssaSide)
               && IsScanOf(checks[i], scans[i])
    requires 0 < k < |nodes|
    ensures IDs(nodes[k].unhealthy) == Bad(nodes[k]) && DistinctIDs(nodes[k].unhealthy)
    ensures forall a :: a in IDs(nodes[k].unhealthy) <==> ShouldList(checks, k, a)
    ensures forall u :: u in nodes[k].unhealthy ==> FromScan(nodes[k - 1], scans[k - 1], u)
    ensures ConditionAgrees(nodes[k]) <==> nodes[0].conditions == [] || HasHealthCondition(nodes[0].conditions)
  {
    forall i | 0 <= i < k ensures KeepsKinds(scans[i], pfSide, ssaSide) && Complete(scans[i]) {
      ScansAreComplete(checks[i], scans[i]);
      SidesKept(checks[i], pfSide, ssaSide);
    }
    RunInvariant(nodes[..k + 1], scans[..k], pfSide, ssaSide);
    RunInvariant(nodes[..k], scans[..k - 1], pfSide, ssaSide);
    var n, s, n' := nodes[k - 1], scans[k - 1], nodes[k];
    assert KeepsKinds(s, pfSide, ssaSide) && NextNode(n, s, n');
    ScanExplainsStates(n, s, n');
    forall a ensures a in Bad(n') <==> ShouldList(checks, k, a) {
      BadByHistory(nodes, scans, checks, k, a);
    }
  }

  lemma SidesKept(d: Discovery, pfSide: set<string>, ssaSide: set<string>)
    requires SidesOf(LastPerAddr(d.devices), pfSide, ssaSide)
    ensures PfReport(ScannedDevices(d)).Keys <= pfSide && SsaReport(ScannedDevices(d)).Keys <= ssaSide
  {
  }

  // ----- The health check as a method -----

  /** The slice handed to the node-state writer, in whatever order the device map is ranged. */
  method DeviceSlice(unique: map<string, PciDevice>) returns (slice: seq<Device>)
    requires Keyed(unique)
    ensures DistinctDevices(slice)
    ensures forall d :: d in slice <==> d.info.addr in unique && d == unique[d.info.addr].View()
  {
    slice := [];
    var rest := unique.Keys;
    while rest != {}
      invariant rest <= unique.Keys && DistinctDevices(slice)
      invariant forall d :: d in slice <==> d.info.addr in unique.Keys - rest && d == unique[d.info.addr].View()
    {
      var a :| a in rest;
      rest := rest - {a};
      slice := slice + [unique[a].View()];
    }
  }

  /** The map holds the last device of every address, with the health the scan's records give it. */
  ghost predicate HoldsScan(check: Discovery, unique: map<string, PciDevice>)
    reads unique.Values
  {
    && Keyed(unique) && InfosOf(unique) == InfoMap(check.devices)
    && forall a :: a in unique ==>
         && a in ScanRecords(check.devices, check.reported)
         && unique[a].healthy == EndsHealthy(unique[a].info, ScanRecords(check.devices, check.reported))
  }

  /** Records and device health, before the reports are built. */
  method ScanDevices(devices: seq<PciDevice>, reported: Records, ghost now: int)
      returns (unique: map<string, PciDevice>, unhealthy: seq<UnhealthyDevice>)
    modifies devices
    ensures HoldsScan(Discovery(InfosIn(devices), reported, now), unique)
    ensures ReportsExactly(unhealthy, Expected(InfoMap(InfosIn(devices)), ScanRecords(InfosIn(devices), reported)))
  {
    var infos := InfosIn(devices);
    var initial := InitHealthInfo(infos);
    var records := UpdateHealths(initial, reported);
    OverlayIsScanRecords(infos, reported);
    unique, unhealthy := ProcessDeviceHealth(devices, records);
    UniqueInfos(devices);
    assert unique.Keys == InfosOf(unique).Keys == records.Keys;
  }

  lemma SliceIsScan(check: Discovery, unique: map<string, PciDevice>, slice: seq<Device>)
    requires HoldsScan(check, unique)
    requires forall d :: d in slice <==> d.info.addr in unique && d == unique[d.info.addr].View()
    ensures forall d :: d in slice <==> d in ScannedDevices(check)
  {
    ScannedElems(check);
    forall d ensures d in slice <==> d in ScannedDevices(check) {
      assert d.info.addr in unique ==> InfosOf(unique)[d.info.addr] == unique[d.info.addr].info;
    }
  }

  /** Records, device health and reports: the scan of exactly these devices and answers. */
  method ScanHealth(devices: seq<PciDevice>, reported: Records, now: int) returns (s: Scan)
    modifies devices
    ensures IsScanOf(Discovery(InfosIn(devices), reported, now), s)
  {
    ghost var check := Discovery(InfosIn(devices), reported, now);
    var unique, unhealthy := ScanDevices(devices, reported, now);
    var slice := DeviceSlice(unique);
    var pfs, ssas := GetSpyreInterfaceMaps(slice);
    SliceIsScan(check, unique, slice);
    ScannedElems(check);
    ReportsIgnoreOrder(slice, ScannedDevices(check));
    s := Scan(pfs, ssas, unhealthy, now);
  }

  /** `updateSpyreNodestate`: what it stores is a step of the runs above. */
  method CheckHealth(stored: Node, devices: seq<PciDevice>, reported: Records, now: int)
      returns (stored': Node, ghost s: Scan)
    modifies devices
    ensures IsScanOf(Discovery(InfosIn(devices), reported, now), s)
    ensures NextNode(stored, s, stored')
  {
    var scan := ScanHealth(devices, reported, now);
    ScansAreComplete(Discovery(InfosIn(devices), reported, now), scan);
    stored' := WriteSpyreInterfaces(stored, scan);
    s := scan;
  }
}
