/** One health scan: the discovered PCI devices, the health records kept for them, and the pass that
    sets each device's health and reports the unhealthy ones. */
module HealthScan {

  datatype Product = PfProduct | VfProduct | OtherProduct

  /** What identifies a PCI device; `pfAddr` is empty when no physical function is known. */
  datatype DeviceInfo = DeviceInfo(addr: string, product: Product, pfAddr: string) {
    predicate IsSriovPF() { product.PfProduct? }
    predicate IsIsolatedVF() { pfAddr == "" && product.VfProduct? }
    predicate IsAttachedVF() { !IsSriovPF() && !IsIsolatedVF() }
  }

  /** A device as the node-state code reads it. */
  datatype Device = Device(info: DeviceInfo, healthy: bool)

  class PciDevice {
    const info: DeviceInfo
    var healthy: bool

    constructor (info: DeviceInfo)
      ensures this.info == info && healthy
    {
      this.info, healthy := info, true;
    }

    method SetHealth(healthy: bool)
      modifies this
      ensures this.healthy == healthy
    {
      this.healthy := healthy;
    }

    function View(): Device
      reads this
    {
      Device(info, healthy)
    }
  }

  const ONLINE := "ONLINE"
  const REMOVED := "REMOVED"
  const UNSPECIFIED := "DEVICE_STATE_UNSPECIFIED"

  datatype DeviceType = PfType | VfType | OtherType

  /** `DeviceHealthState`: the last state the health checker gave a device. */
  datatype HealthRecord = HealthRecord(state: string, deviceType: DeviceType) {
    predicate Healthy() { state == ONLINE }
  }

  type Records = map<string, HealthRecord>

  datatype UnhealthyDevice = UnhealthyDevice(id: string, state: string)

  // ----- The records a scan works from -----

  /** Every discovered device starts the scan healthy. */
  function InitialRecord(info: DeviceInfo): HealthRecord {
    HealthRecord(ONLINE, if info.IsSriovPF() then PfType else VfType)
  }

  predicate DistinctAddrs(devices: seq<DeviceInfo>) {
    forall i, j :: 0 <= i < j < |devices| ==> devices[i].addr != devices[j].addr
  }

  function AddrsOf(devices: seq<DeviceInfo>): set<string> {
    set d | d in devices :: d.addr
  }

  /** The device each address stands for: the last one listed. */
  function InfoMap(devices: seq<DeviceInfo>): (m: map<string, DeviceInfo>)
    ensures m.Keys == AddrsOf(devices)
    ensures forall a :: a in m ==> m[a].addr == a && m[a] in devices
  {
    if devices == [] then map[]
    else
      var n := |devices| - 1;
      assert devices == devices[..n] + [devices[n]];
      InfoMap(devices[..n])[devices[n].addr := devices[n]]
  }

  /** The records after the checker's latest answers are laid over the initial ones. */
  function ScanRecords(devices: seq<DeviceInfo>, reported: Records): (r: Records)
    ensures r.Keys == AddrsOf(devices)
  {
    if devices == [] then map[]
    else
      var d := devices[|devices| - 1];
      var r := ScanRecords(devices[..|devices| - 1], reported);
      assert AddrsOf(devices) == AddrsOf(devices[..|devices| - 1]) + {d.addr} by {
        assert devices == devices[..|devices| - 1] + [d];
      }
      r[d.addr := if d.addr in reported then reported[d.addr] else InitialRecord(d)]
  }

  /** Position `i` lists the last device of its address. */
  predicate LastIn(devices: seq<DeviceInfo>, i: int) {
    0 <= i < |devices| && forall j :: i < j < |devices| ==> devices[j].addr != devices[i].addr
  }

  lemma {:induction false} SomeLast(devices: seq<DeviceInfo>, a: string) returns (i: nat)
    requires a in AddrsOf(devices)
    ensures LastIn(devices, i) && devices[i].addr == a
  {
    var n := |devices| - 1;
    assert devices == devices[..n] + [devices[n]];
    if devices[n].addr == a {
      i := n;
    } else {
      i := SomeLast(devices[..n], a);
    }
  }

  /** A discovered device's record is what was reported for it and, without a report, online with the type
      of the last device at the address. */
  lemma {:induction false} RecordsSay(devices: seq<DeviceInfo>, reported: Records, i: nat)
    requires LastIn(devices, i)
    ensures var a := devices[i].addr;
            && a in InfoMap(devices) && InfoMap(devices)[a] == devices[i]
            && a in ScanRecords(devices, reported)
            && ScanRecords(devices, reported)[a] ==
               if a in reported then reported[a]
               else HealthRecord("ONLINE", if devices[i].product == PfProduct then PfType else VfType)
  {
    var n := |devices| - 1;
    if i < n {
      assert devices[..n][i] == devices[i] && devices[n].addr != devices[i].addr;
      RecordsSay(devices[..n], reported, i);
    }
  }

  method InitHealthInfo(devices: seq<DeviceInfo>) returns (records: Records)
    ensures records == ScanRecords(devices, map[])
  {
    records := map[];
    for i := 0 to |devices|
      invariant records == ScanRecords(devices[..i], map[])
    {
      assert devices[..i + 1][..i] == devices[..i];
      records := records[devices[i].addr := InitialRecord(devices[i])];
    }
    assert devices[..|devices|] == devices;
  }

  function Overlay(records: Records, reported: Records): Records {
    map a | a in records :: if a in reported then reported[a] else records[a]
  }

  lemma {:induction false} OverlayIsScanRecords(devices: seq<DeviceInfo>, reported: Records)
    ensures Overlay(ScanRecords(devices, map[]), reported) == ScanRecords(devices, reported)
  {
    if devices != [] {
      OverlayIsScanRecords(devices[..|devices| - 1], reported);
    }
  }

  /** Only devices the scan discovered are updated; the checker cannot add one. */
  method UpdateHealths(initial: Records, reported: Records) returns (records: Records)
    ensures records == Overlay(initial, reported)
  {
    records := initial;
    var rest := reported.Keys;
    while rest != {}
      invariant rest <= reported.Keys
      invariant records == Overlay(initial, reported - rest)
    {
      var id :| id in rest;
      rest := rest - {id};
      if id in records {
        records := records[id := reported[id]];
      }
    }
    assert reported - rest == reported;
  }

  // ----- Deciding health -----

  /** The PF record an attached VF inherits an unhealthy state from. */
  predicate InheritsUnhealthy(info: DeviceInfo, records: Records) {
    && info.IsAttachedVF() && info.pfAddr in records
    && records[info.pfAddr].deviceType.PfType? && !records[info.pfAddr].Healthy()
  }

  predicate EndsHealthy(info: DeviceInfo, records: Records)
    requires info.addr in records
  {
    records[info.addr].Healthy() && !InheritsUnhealthy(info, records)
  }

  function ReportedState(info: DeviceInfo, records: Records): string
    requires info.addr in records && !EndsHealthy(info, records)
  {
    if records[info.addr].Healthy() then records[info.pfAddr].state else records[info.addr].state
  }

  /** A recorded device ends healthy exactly when its own state is ONLINE and it is neither a PF nor a VF on
      its own whose PF has a PF record in another state; the state to blame is its own before its PF's. */
  lemma EndsHealthySays(info: DeviceInfo, records: Records)
    requires info.addr in records
    ensures var pfDown := && info.product != PfProduct && !(info.product == VfProduct && info.pfAddr == "")
                          && info.pfAddr in records && records[info.pfAddr].deviceType == PfType
                          && records[info.pfAddr].state != "ONLINE";
            && (EndsHealthy(info, records) <==> records[info.addr].state == "ONLINE" && !pfDown)
            && (!EndsHealthy(info, records) ==>
                  ReportedState(info, records) ==
                  if records[info.addr].state != "ONLINE" then records[info.addr].state else records[info.pfAddr].state)
  {
  }

  predicate DistinctIDs(us: seq<UnhealthyDevice>) {
    forall i, j :: 0 <= i < j < |us| ==> us[i].id != us[j].id
  }

  function IDs(us: seq<UnhealthyDevice>): set<string> {
    set u | u in us :: u.id
  }

  /** The list has exactly one entry per expected address, with the expected state. */
  predicate ReportsExactly(us: seq<UnhealthyDevice>, expected: map<string, string>) {
    && DistinctIDs(us) && IDs(us) == expected.Keys
    && forall u :: u in us ==> u.id in expected && u.state == expected[u.id]
  }

  lemma ReportOneMore(us: seq<UnhealthyDevice>, expected: map<string, string>, a: string, state: string)
    requires ReportsExactly(us, expected) && a !in expected
    ensures ReportsExactly(us + [UnhealthyDevice(a, state)], expected[a := state])
  {
  }

  /** The devices a scan reports unhealthy, and as what. */
  function Expected(infos: map<string, DeviceInfo>, records: Records): map<string, string>
    requires forall a :: a in infos ==> infos[a].addr == a
  {
    map a | a in infos && a in records && !EndsHealthy(infos[a], records) :: ReportedState(infos[a], records)
  }

  function InfosIn(devices: seq<PciDevice>): seq<DeviceInfo> {
    seq(|devices|, i requires 0 <= i < |devices| => devices[i].info)
  }

  /** The last device listed for each address. */
  function UniqueOf(devices: seq<PciDevice>): (m: map<string, PciDevice>)
    ensures forall a :: a in m ==> m[a] in devices && m[a].info.addr == a
  {
    if devices == [] then map[]
    else
      var n := |devices| - 1;
      UniqueOf(devices[..n])[devices[n].info.addr := devices[n]]
  }

  lemma {:induction false} UniqueOfLast(devices: seq<PciDevice>, i: nat)
    requires i < |devices| && forall j :: i < j < |devices| ==> devices[j].info.addr != devices[i].info.addr
    ensures devices[i].info.addr in UniqueOf(devices) && UniqueOf(devices)[devices[i].info.addr] == devices[i]
  {
    var n := |devices| - 1;
    if i < n {
      UniqueOfLast(devices[..n], i);
      assert devices[n].info.addr != devices[i].info.addr;
    }
  }

  lemma {:induction false} UniqueInfos(devices: seq<PciDevice>)
    ensures InfosOf(UniqueOf(devices)) == InfoMap(InfosIn(devices))
  {
    if devices != [] {
      var n := |devices| - 1;
      UniqueInfos(devices[..n]);
      assert InfosIn(devices)[..n] == InfosIn(devices[..n]);
    }
  }

  method UniqueDevices(allDevices: seq<PciDevice>) returns (unique: map<string, PciDevice>)
    ensures unique == UniqueOf(allDevices)
  {
    unique := map[];
    for i := 0 to |allDevices|
      invariant unique == UniqueOf(allDevices[..i])
    {
      assert allDevices[..i + 1][..i] == allDevices[..i];
      unique := unique[allDevices[i].info.addr := allDevices[i]];
    }
    assert allDevices[..|allDevices|] == allDevices;
  }

  ghost predicate Keyed(unique: map<string, PciDevice>) {
    forall a :: a in unique ==> unique[a].info.addr == a
  }

  ghost function InfosOf(unique: map<string, PciDevice>): map<string, DeviceInfo> {
    map a | a in unique :: unique[a].info
  }

  /** The devices among `keys` whose own record is online, and the reports of those whose own is not. */
  function Online(keys: set<string>, records: Records): set<string> {
    set a | a in keys && a in records && records[a].Healthy()
  }

  function OwnReports(keys: set<string>, records: Records): map<string, string> {
    map a | a in keys && a in records && !records[a].Healthy() :: records[a].state
  }

  lemma OwnOneMore(keys: set<string>, records: Records, a: string)
    ensures Online(keys + {a}, records) ==
            Online(keys, records) + if a in records && records[a].Healthy() then {a} else {}
    ensures OwnReports(keys + {a}, records) ==
            if a in records && !records[a].Healthy() then OwnReports(keys, records)[a := records[a].state]
            else OwnReports(keys, records)
  {
  }

  /** First pass: every recorded device takes the health its own record says. */
  method ApplyRecords(unique: map<string, PciDevice>, records: Records)
      returns (healthy: set<string>, unhealthy: seq<UnhealthyDevice>)
    requires Keyed(unique)
    modifies unique.Values
    ensures healthy == Online(unique.Keys, records)
    ensures ReportsExactly(unhealthy, OwnReports(unique.Keys, records))
    ensures forall a :: a in unique ==>
              unique[a].healthy == if a in records then records[a].Healthy() else old(unique[a].healthy)
  {
    healthy, unhealthy := {}, [];
    var rest := unique.Keys;
    ghost var done := {};
    assert OwnReports(done, records) == map[];
    while rest != {}
      invariant rest <= unique.Keys && done == unique.Keys - rest
      invariant healthy == Online(done, records)
      invariant ReportsExactly(unhealthy, OwnReports(done, records))
      invariant forall a :: a in unique ==>
                  unique[a].healthy ==
                  if a in records && a in done then records[a].Healthy() else old(unique[a].healthy)
    {
      var a :| a in rest;
      rest := rest - {a};
      OwnOneMore(done, records, a);
      assert a in unique && unique[a] in unique.Values;
      if a in records {
        unique[a].SetHealth(records[a].Healthy());
        if records[a].Healthy() {
          healthy := healthy + {a};
        } else {
          ReportOneMore(unhealthy, OwnReports(done, records), a, records[a].state);
          unhealthy := unhealthy + [UnhealthyDevice(a, records[a].state)];
        }
      }
      done := done + {a};
    }
    assert done == unique.Keys;
  }

  function Inherited(infos: map<string, DeviceInfo>, healthy: set<string>, records: Records): map<string, string> {
    map a | a in healthy && a in infos && InheritsUnhealthy(infos[a], records) :: records[infos[a].pfAddr].state
  }

  lemma InheritOneMore(infos: map<string, DeviceInfo>, done: set<string>, a: string, records: Records)
    requires a in infos
    ensures Inherited(infos, done + {a}, records) ==
            if InheritsUnhealthy(infos[a], records) then Inherited(infos, done, records)[a := records[infos[a].pfAddr].state]
            else Inherited(infos, done, records)
  {
  }

  lemma InheritReport(us: seq<UnhealthyDevice>, own: map<string, string>, more: map<string, string>, a: string, state: string)
    requires ReportsExactly(us, own + more) && a !in own && a !in more
    ensures ReportsExactly(us + [UnhealthyDevice(a, state)], own + more[a := state])
  {
  }

  /** Second pass: a VF of an unhealthy PF is unhealthy too, and is reported with the PF's state. */
  method InheritFromPfs(unique: map<string, PciDevice>, records: Records, healthy: set<string>,
                        reported: seq<UnhealthyDevice>, ghost own: map<string, string>)
      returns (unhealthy: seq<UnhealthyDevice>)
    requires Keyed(unique) && healthy <= unique.Keys
    requires ReportsExactly(reported, own) && own.Keys !! healthy
    modifies unique.Values
    ensures ReportsExactly(unhealthy, own + Inherited(InfosOf(unique), healthy, records))
    ensures forall a :: a in unique ==>
              unique[a].healthy ==
              if a in healthy && InheritsUnhealthy(unique[a].info, records) then false else old(unique[a].healthy)
  {
    unhealthy := reported;
    ghost var infos, done := InfosOf(unique), {};
    var rest := healthy;
    assert own == own + Inherited(infos, done, records);
    while rest != {}
      invariant rest <= healthy && done == healthy - rest
      invariant ReportsExactly(unhealthy, own + Inherited(infos, done, records))
      invariant forall a :: a in unique ==>
                  unique[a].healthy ==
                  if a in done && InheritsUnhealthy(unique[a].info, records) then false
                  else old(unique[a].healthy)
    {
      var a :| a in rest;
      rest := rest - {a};
      assert a in unique && unique[a] in unique.Values;
      var info := unique[a].info;
      InheritOneMore(infos, done, a, records);
      if !info.IsIsolatedVF() && !info.IsSriovPF() && info.pfAddr in records
         && records[info.pfAddr].deviceType.PfType? && !records[info.pfAddr].Healthy() {
        unique[a].SetHealth(false);
        InheritReport(unhealthy, own, Inherited(infos, done, records), a, records[info.pfAddr].state);
        unhealthy := unhealthy + [UnhealthyDevice(a, records[info.pfAddr].state)];
      }
      done := done + {a};
    }
    assert done == healthy;
  }

  lemma BothPasses(infos: map<string, DeviceInfo>, records: Records)
    requires forall a :: a in infos ==> infos[a].addr == a
    ensures OwnReports(infos.Keys, records) + Inherited(infos, Online(infos.Keys, records), records) == Expected(infos, records)
  {
  }

  /** A recorded device ends healthy exactly when its own record is online and it is not an attached VF
      of an unhealthy PF; the report lists each recorded device that ends unhealthy once and nothing
      else; devices without a record keep their health. */
  method ProcessDeviceHealth(allDevices: seq<PciDevice>, records: Records)
      returns (unique: map<string, PciDevice>, unhealthy: seq<UnhealthyDevice>)
    modifies allDevices
    ensures unique == UniqueOf(allDevices)
    ensures forall a :: a in unique ==>
              unique[a].healthy ==
              if a in records then EndsHealthy(unique[a].info, records) else old(unique[a].healthy)
    ensures forall d :: d in allDevices && d !in unique.Values ==> d.healthy == old(d.healthy)
    ensures ReportsExactly(unhealthy, Expected(InfosOf(unique), records))
  {
    unique := UniqueDevices(allDevices);
    var healthy, reported := ApplyRecords(unique, records);
    BothPasses(InfosOf(unique), records);
    unhealthy := InheritFromPfs(unique, records, healthy, reported, OwnReports(unique.Keys, records));
  }
}
