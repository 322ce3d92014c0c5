/** The node-state record: reconciling its interface lists with a scan's reports, and its unhealthy list
    and health condition with the reconciled lists. */
module NodeState {
  import opened HealthScan
  import opened Interfaces

  type InterfaceList = seq<Interface>

  function Addrs(list: InterfaceList): set<string> {
    set e | e in list :: e.addr
  }

  predicate Unique(list: InterfaceList) {
    forall i, j :: 0 <= i < j < |list| ==> list[i].addr != list[j].addr
  }

  predicate KeyedReport(report: Report) {
    forall a :: a in report ==> report[a].addr == a
  }

  // ----- Reconciling one interface list -----

  /** The first entry with its address; the lists are searched from the front. */
  predicate FirstAt(list: InterfaceList, i: nat)
    requires i < |list|
  {
    forall j :: 0 <= j < i ==> list[j].addr != list[i].addr
  }

  /** Every first entry that is reported equals the report, new ones are appended, the rest keep their
      fields, with the health of the unreported marked once the scan for missing devices has run. */
  predicate Merged(before: InterfaceList, report: Report, after: InterfaceList, marked: bool) {
    && |before| <= |after|
    && (forall i :: 0 <= i < |before| ==>
          after[i] == if before[i].addr in report then (if FirstAt(before, i) then report[before[i].addr] else before[i])
                      else if marked then MarkUnhealthy(before[i])
                      else before[i])
    && (forall i :: |before| <= i < |after| ==>
          after[i].addr in report && after[i] == report[after[i].addr] && FirstAt(after, i))
    && report.Keys <= Addrs(after)
  }

  function MarkUnhealthy(e: Interface): Interface {
    e.(health := Unhealthy)
  }

  /** One list after a whole scan: a device that is no longer reported stays, unhealthy. */
  predicate Reconciled(before: InterfaceList, report: Report, after: InterfaceList) {
    Merged(before, report, after, true)
  }

  /** `containsDevice` and `containsSSADevice`. */
  method ContainsDevice(list: InterfaceList, a: string) returns (index: int)
    ensures -1 <= index < |list|
    ensures index >= 0 ==> list[index].addr == a && forall i :: 0 <= i < index ==> list[i].addr != a
    ensures index < 0 ==> a !in Addrs(list)
  {
    for i := 0 to |list|
      invariant forall j :: 0 <= j < i ==> list[j].addr != a
    {
      if list[i].addr == a { return i; }
    }
    return -1;
  }

  /** The first loop over one report: update what differs, append what is new. */
  method MergeReport(list: InterfaceList, report: Report) returns (after: InterfaceList, changed: bool)
    requires KeyedReport(report)
    ensures Merged(list, report, after, false)
    ensures changed <==> after != list
  {
    after, changed := list, false;
    var rest := report.Keys;
    while rest != {}
      invariant rest <= report.Keys
      invariant Merged(list, report - rest, after, false)
      invariant changed <==> after != list
    {
      var a :| a in rest;
      ghost var done := report - rest;
      rest := rest - {a};
      assert report - rest == done[a := report[a]];
      var index := ContainsDevice(after, a);
      if index >= 0 {
        MergeUpdate(list, done, after, a, report[a], index);
        UpdateDiffers(list, after, report[a], index);
        if after[index] == report[a] {
          assert after[index := report[a]] == after;
        } else {
          after := after[index := report[a]];
          changed := true;
        }
      } else {
        MergeAppend(list, done, after, a, report[a]);
        after := after + [report[a]];
        changed := true;
      }
    }
    assert report - rest == report;
  }

  /** Only an entry the list began with can still be waiting for its report. */
  lemma MergeUpdate(list: InterfaceList, done: Report, cur: InterfaceList, a: string, info: Interface, index: nat)
    requires KeyedReport(done) && Merged(list, done, cur, false) && a !in done && info.addr == a
    requires index < |cur| && cur[index].addr == a && FirstAt(cur, index)
    ensures index < |list| && cur[index] == list[index]
    ensures Merged(list, done[a := info], cur[index := info], false)
  {
    assert index < |list| && cur[index] == list[index];
    AddrsUpdate(cur, index, info);
    assert a in Addrs(cur) by { assert cur[index] in cur; }
    SameAddrs(list, done, cur);
  }

  lemma SameAddrs(before: InterfaceList, report: Report, after: InterfaceList)
    requires KeyedReport(report) && (Merged(before, report, after, false) || Merged(before, report, after, true))
    ensures forall i :: 0 <= i < |before| ==> after[i].addr == before[i].addr && (FirstAt(after, i) <==> FirstAt(before, i))
  {
  }

  /** An update at an entry still untouched makes a difference exactly when the value is new. */
  lemma UpdateDiffers(list: InterfaceList, cur: InterfaceList, info: Interface, index: nat)
    requires |list| <= |cur| && index < |list| && cur[index] == list[index]
    ensures cur[index := info] != list <==> cur != list || cur[index] != info
  {
  }

  lemma MergeAppend(list: InterfaceList, done: Report, cur: InterfaceList, a: string, info: Interface)
    requires KeyedReport(done) && Merged(list, done, cur, false) && a !in done && info.addr == a && a !in Addrs(cur)
    ensures Merged(list, done[a := info], cur + [info], false)
  {
    SameAddrs(list, done, cur);
    forall i | 0 <= i < |cur| ensures cur[i].addr != a { assert cur[i] in cur; }
  }

  lemma AddrsUpdate(list: InterfaceList, i: nat, e: Interface)
    requires i < |list| && list[i].addr == e.addr
    ensures Addrs(list[i := e]) == Addrs(list)
  {
    var list' := list[i := e];
    forall x ensures x in Addrs(list') <==> x in Addrs(list) {
      if x in Addrs(list) {
        var k :| 0 <= k < |list| && list[k].addr == x;
        assert list'[k] in list' && list'[k].addr == x;
      }
      if x in Addrs(list') {
        var k :| 0 <= k < |list'| && list'[k].addr == x;
        assert list[k] in list && list[k].addr == x;
      }
    }
  }

  /** The entries that lose their health because the scan did not report them. */
  function Removed(list: InterfaceList, report: Report): seq<UnhealthyDevice> {
    if list == [] then []
    else
      var e := list[|list| - 1];
      Removed(list[..|list| - 1], report) +
      if e.addr !in report && !e.health.Unhealthy? then [UnhealthyDevice(e.addr, REMOVED)] else []
  }

  /** The second loop over one list: whatever is not reported becomes unhealthy. */
  method MarkMissing(list: InterfaceList, report: Report)
      returns (after: InterfaceList, removed: seq<UnhealthyDevice>, changed: bool)
    ensures |after| == |list|
    ensures forall i :: 0 <= i < |list| ==>
              after[i] == if list[i].addr in report then list[i] else MarkUnhealthy(list[i])
    ensures removed == Removed(list, report)
    ensures changed <==> after != list
  {
    after, removed, changed := list, [], false;
    for i := 0 to |list|
      invariant |after| == |list|
      invariant forall j :: 0 <= j < i ==>
                  after[j] == if list[j].addr in report then list[j] else MarkUnhealthy(list[j])
      invariant forall j :: i <= j < |list| ==> after[j] == list[j]
      invariant removed == Removed(list[..i], report)
      invariant changed <==> after != list
    {
      assert list[..i + 1][..i] == list[..i];
      if list[i].addr !in report && !list[i].health.Unhealthy? {
        after := after[i := MarkUnhealthy(list[i])];
        assert after[i] != list[i];
        removed := removed + [UnhealthyDevice(list[i].addr, REMOVED)];
        changed := true;
      }
    }
    assert list[..|list|] == list;
  }

  predicate SameWhereUnreported(before: InterfaceList, mid: InterfaceList, report: Report) {
    && |before| <= |mid|
    && (forall i :: 0 <= i < |before| ==> mid[i].addr == before[i].addr && (before[i].addr !in report ==> mid[i] == before[i]))
    && (forall i :: |before| <= i < |mid| ==> mid[i].addr in report)
  }

  /** Appended entries are reported, so the missing ones can be read off the list before the scan. */
  lemma {:induction false} RemovedFromBefore(before: InterfaceList, mid: InterfaceList, report: Report)
    requires SameWhereUnreported(before, mid, report)
    ensures Removed(mid, report) == Removed(before, report)
  {
    if |mid| > |before| {
      RemovedFromBefore(before, mid[..|mid| - 1], report);
    } else if mid != [] {
      RemovedFromBefore(before[..|before| - 1], mid[..|mid| - 1], report);
    }
  }

  /** Both loops over one list. */
  method ReconcileList(list: InterfaceList, report: Report)
      returns (after: InterfaceList, removed: seq<UnhealthyDevice>, changed: bool)
    requires KeyedReport(report)
    ensures Reconciled(list, report, after)
    ensures removed == Removed(list, report)
    ensures changed <==> after != list
  {
    var mid, merged := MergeReport(list, report);
    var marked;
    after, removed, marked := MarkMissing(mid, report);
    changed := merged || marked;
    RemovedFromBefore(list, mid, report);
    MarkedIsReconciled(list, report, mid, after);
  }

  lemma MarkedIsReconciled(before: InterfaceList, report: Report, mid: InterfaceList, after: InterfaceList)
    requires KeyedReport(report) && Merged(before, report, mid, false) && |after| == |mid|
    requires forall i :: 0 <= i < |mid| ==> after[i] == if mid[i].addr in report then mid[i] else MarkUnhealthy(mid[i])
    ensures Reconciled(before, report, after)
    ensures after != before <==> mid != before || after != mid
  {
  }

  /** No address is ever forgotten and none is invented; an address the list holds once it still holds
      once. Every first entry that is reported equals its report and every unreported one is unhealthy. */
  lemma ReconciledAddrs(before: InterfaceList, report: Report, after: InterfaceList)
    requires KeyedReport(report) && Reconciled(before, report, after)
    ensures Addrs(after) == Addrs(before) + report.Keys
    ensures forall i :: 0 <= i < |after| ==>
              if after[i].addr in report then FirstAt(after, i) ==> after[i] == report[after[i].addr]
              else after[i].health == Unhealthy
    ensures forall i :: 0 <= i < |before| && before[i].addr !in report ==>
              after[i] == Interface(before[i].addr, before[i].numVfs, before[i].vfs, Unhealthy)
    ensures Unique(before) ==> Unique(after)
  {
    SameAddrs(before, report, after);
    forall e | e in before ensures e.addr in Addrs(after) {
      var i :| 0 <= i < |before| && before[i] == e;
      assert after[i] in after;
    }
    forall e | e in after ensures e.addr in Addrs(before) + report.Keys {
      var i :| 0 <= i < |after| && after[i] == e;
      if i < |before| { assert before[i] in before; }
    }
  }

  lemma NothingAppended(before: InterfaceList, report: Report, after: InterfaceList)
    requires KeyedReport(report) && Reconciled(before, report, after) && report.Keys <= Addrs(before)
    ensures |after| == |before|
  {
    if |after| > |before| {
      AppendedIsNew(before, report, after, |before|);
      assert false;
    }
  }

  lemma AppendedIsNew(before: InterfaceList, report: Report, after: InterfaceList, i: nat)
    requires KeyedReport(report) && Reconciled(before, report, after) && |before| <= i < |after|
    ensures after[i].addr in report && after[i].addr !in Addrs(before)
  {
    SameAddrs(before, report, after);
    forall e | e in before ensures e.addr != after[i].addr {
      var j :| 0 <= j < |before| && before[j] == e;
      assert after[j].addr != after[i].addr;
    }
  }

  /** Reconciling again with the same report changes nothing, so the second call reports no change. */
  lemma ReconcileTwice(before: InterfaceList, report: Report, once: InterfaceList, twice: InterfaceList)
    requires KeyedReport(report) && Reconciled(before, report, once) && Reconciled(once, report, twice)
    ensures twice == once
  {
    ReconciledAddrs(before, report, once);
    SameAddrs(before, report, once);
    NothingAppended(once, report, twice);
  }
}
