/** Building resource pools: which configuration a discovered device goes to, how a base pool is split
    into per-device pools, and how a hotplug rebuilds one of those from its name. */
module PoolConstruction {
  import opened Strings
  import opened Types
  import opened HealthScan

  datatype PoolDevice = PoolDevice(info: DeviceInfo, vendor: string, code: string, driver: string)

  datatype Selectors = Selectors(vendors: seq<string>, devices: seq<string>, drivers: seq<string>, pciAddresses: seq<string>)

  /** A resource configuration, with the prefix that holds for it. */
  datatype Config = Config(prefix: string, name: string, selectors: Selectors)

  const PF_RESOURCE := "spyre_pf"
  const VF_RESOURCE := "spyre_vf"

  // ----- Selecting -----

  predicate Allows(list: seq<string>, value: string) {
    list == [] || value in list
  }

  predicate Accepts(s: Selectors, d: PoolDevice) {
    && Allows(s.vendors, d.vendor) && Allows(s.devices, d.code) && Allows(s.drivers, d.driver)
    && Allows(s.pciAddresses, d.info.addr)
  }

  /** The devices a predicate keeps, in order. */
  function Filter(ds: seq<PoolDevice>, keep: PoolDevice -> bool): seq<PoolDevice> {
    if ds == [] then []
    else
      var n := |ds| - 1;
      Filter(ds[..n], keep) + if keep(ds[n]) then [ds[n]] else []
  }

  lemma {:induction false} FilterElems(ds: seq<PoolDevice>, keep: PoolDevice -> bool, d: PoolDevice)
    ensures d in Filter(ds, keep) <==> d in ds && keep(d)
  {
    if ds != [] {
      var n := |ds| - 1;
      FilterElems(ds[..n], keep, d);
      assert ds == ds[..n] + [ds[n]];
    }
  }

  lemma {:induction false} FilterTwice(ds: seq<PoolDevice>, p: PoolDevice -> bool, q: PoolDevice -> bool, both: PoolDevice -> bool)
    requires forall d :: d in ds ==> (both(d) <==> p(d) && q(d))
    ensures Filter(Filter(ds, p), q) == Filter(ds, both)
  {
    if ds != [] {
      var n := |ds| - 1;
      assert ds == ds[..n] + [ds[n]] && ds[n] in ds;
      FilterTwice(ds[..n], p, q, both);
      var f := Filter(ds[..n], p);
      assert (f + [ds[n]])[..|f|] == f && f + [] == f;
    }
  }

  /** Which field of a device a selector list is compared with. */
  datatype Attribute = Vendor | Code | Driver | Address

  function ValueOf(d: PoolDevice, a: Attribute): string {
    match a
    case Vendor => d.vendor
    case Code => d.code
    case Driver => d.driver
    case Address => d.info.addr
  }

  /** What one selector stage keeps. */
  function Keeps(list: seq<string>, a: Attribute): PoolDevice -> bool {
    d => Allows(list, ValueOf(d, a))
  }

  function Takes(s: Selectors): PoolDevice -> bool {
    d => Accepts(s, d)
  }

  /** One selector stage; an empty list selects everything. */
  method SelectBy(ds: seq<PoolDevice>, list: seq<string>, a: Attribute) returns (r: seq<PoolDevice>)
    ensures r == Filter(ds, Keeps(list, a))
  {
    if list == [] {
      KeepsAll(ds, Keeps(list, a));
      return ds;
    }
    r := [];
    for i := 0 to |ds|
      invariant r == Filter(ds[..i], Keeps(list, a))
    {
      assert ds[..i + 1][..i] == ds[..i];
      if ValueOf(ds[i], a) in list {
        r := r + [ds[i]];
      }
    }
    assert ds[..|ds|] == ds;
  }

  lemma {:induction false} KeepsAll(ds: seq<PoolDevice>, keep: PoolDevice -> bool)
    requires forall d :: d in ds ==> keep(d)
    ensures Filter(ds, keep) == ds
  {
    if ds != [] {
      var n := |ds| - 1;
      assert ds == ds[..n] + [ds[n]] && ds[n] in ds;
      KeepsAll(ds[..n], keep);
    }
  }

  function Selected(ds: seq<PoolDevice>, s: Selectors): seq<PoolDevice> {
    Filter(ds, Takes(s))
  }

  method GetFilteredDevices(ds: seq<PoolDevice>, s: Selectors) returns (r: seq<PoolDevice>)
    ensures r == Selected(ds, s)
  {
    r := SelectBy(ds, s.vendors, Vendor);
    r := SelectBy(r, s.devices, Code);
    r := SelectBy(r, s.drivers, Driver);
    r := SelectBy(r, s.pciAddresses, Address);
    StagesSelect(ds, s);
  }

  function Both(p: PoolDevice -> bool, q: PoolDevice -> bool): PoolDevice -> bool {
    d => p(d) && q(d)
  }

  lemma StagesSelect(ds: seq<PoolDevice>, s: Selectors)
    ensures Filter(Filter(Filter(Filter(ds, Keeps(s.vendors, Vendor)), Keeps(s.devices, Code)), Keeps(s.drivers, Driver)),
                   Keeps(s.pciAddresses, Address)) == Selected(ds, s)
  {
    var v, c, r := Keeps(s.vendors, Vendor), Keeps(s.devices, Code), Keeps(s.drivers, Driver);
    FilterTwice(ds, v, c, Both(v, c));
    FilterTwice(ds, Both(v, c), r, Both(Both(v, c), r));
    FilterTwice(ds, Both(Both(v, c), r), Keeps(s.pciAddresses, Address), Takes(s));
  }

  /** A device is selected exactly when every list of the selectors is empty or holds its value. */
  lemma SelectedSays(ds: seq<PoolDevice>, s: Selectors, d: PoolDevice)
    ensures d in Selected(ds, s) <==>
            && d in ds
            && (s.vendors == [] || d.vendor in s.vendors) && (s.devices == [] || d.code in s.devices)
            && (s.drivers == [] || d.driver in s.drivers) && (s.pciAddresses == [] || d.info.addr in s.pciAddresses)
  {
    FilterElems(ds, Takes(s), d);
  }

  // ----- Base pools -----

  function AddrsIn(ds: seq<PoolDevice>): set<string> {
    if ds == [] then {}
    else
      var n := |ds| - 1;
      AddrsIn(ds[..n]) + {ds[n].info.addr}
  }

  lemma {:induction false} AddrOf(ds: seq<PoolDevice>, a: string)
    ensures a in AddrsIn(ds) <==> exists i :: 0 <= i < |ds| && ds[i].info.addr == a
  {
    if ds != [] {
      var n := |ds| - 1;
      AddrOf(ds[..n], a);
      if i :| 0 <= i < |ds| && ds[i].info.addr == a {
        assert i < n ==> ds[..n][i].info.addr == a;
      }
    }
  }

  predicate Distinct(ds: seq<PoolDevice>) {
    forall i, j :: 0 <= i < j < |ds| ==> ds[i].info.addr != ds[j].info.addr
  }

  /** The devices whose address nobody has taken yet, each address once. */
  function Exclude(ds: seq<PoolDevice>, taken: set<string>): seq<PoolDevice> {
    if ds == [] then []
    else
      var n := |ds| - 1;
      Exclude(ds[..n], taken) + if ds[n].info.addr in taken || ds[n].info.addr in AddrsIn(ds[..n]) then [] else [ds[n]]
  }

  lemma ExcludeStep(ds: seq<PoolDevice>, i: nat, taken: set<string>)
    requires i < |ds|
    ensures AddrsIn(ds[..i + 1]) == AddrsIn(ds[..i]) + {ds[i].info.addr}
    ensures Exclude(ds[..i + 1], taken) ==
            Exclude(ds[..i], taken) + if ds[i].info.addr in taken || ds[i].info.addr in AddrsIn(ds[..i]) then [] else [ds[i]]
  {
    assert ds[..i + 1][..i] == ds[..i];
  }

  /** The shared map, which only ever holds `true`, says exactly these addresses are taken. */
  ghost predicate Marks(marks: map<string, bool>, taken: set<string>) {
    && (forall a :: a in marks <==> a in taken)
    && (forall a :: a in marks ==> marks[a])
  }

  /** `excludeAllocatedDevices`; the shared map ends up marking every device it was given. */
  method ExcludeAllocatedDevices(ds: seq<PoolDevice>, marks: map<string, bool>, ghost taken: set<string>)
      returns (r: seq<PoolDevice>, marks2: map<string, bool>)
    requires Marks(marks, taken)
    ensures r == Exclude(ds, taken)
    ensures Marks(marks2, taken + AddrsIn(ds))
  {
    r, marks2 := [], marks;
    for i := 0 to |ds|
      invariant r == Exclude(ds[..i], taken)
      invariant Marks(marks2, taken + AddrsIn(ds[..i]))
    {
      ExcludeStep(ds, i, taken);
      var a := ds[i].info.addr;
      if a in marks2 && marks2[a] {
        assert r + [] == r;
      } else {
        marks2 := marks2[a := true];
        r := r + [ds[i]];
      }
    }
    assert ds[..|ds|] == ds;
  }

  /** The addresses the first `n` configurations have taken. */
  function TakenBefore(devices: seq<PoolDevice>, configs: seq<Config>, n: nat): set<string>
    requires n <= |configs|
  {
    if n == 0 then {}
    else TakenBefore(devices, configs, n - 1) + AddrsIn(Selected(devices, configs[n - 1].selectors))
  }

  /** The base pool of configuration `i`; a configuration left without devices gets no server. */
  function BasePool(devices: seq<PoolDevice>, configs: seq<Config>, i: nat): seq<PoolDevice>
    requires i < |configs|
  {
    Exclude(Selected(devices, configs[i].selectors), TakenBefore(devices, configs, i))
  }

  method InitBasePools(devices: seq<PoolDevice>, configs: seq<Config>) returns (pools: seq<seq<PoolDevice>>)
    ensures |pools| == |configs|
    ensures forall i :: 0 <= i < |configs| ==> pools[i] == BasePool(devices, configs, i)
  {
    pools := [];
    var marks: map<string, bool> := map[];
    for i := 0 to |configs|
      invariant |pools| == i && forall j :: 0 <= j < i ==> pools[j] == BasePool(devices, configs, j)
      invariant Marks(marks, TakenBefore(devices, configs, i))
    {
      var filtered := GetFilteredDevices(devices, configs[i].selectors);
      var kept;
      kept, marks := ExcludeAllocatedDevices(filtered, marks, TakenBefore(devices, configs, i));
      pools := pools + [kept];
    }
  }

  lemma {:induction false} ExcludeAddrs(ds: seq<PoolDevice>, taken: set<string>)
    ensures AddrsIn(Exclude(ds, taken)) == AddrsIn(ds) - taken
  {
    if ds != [] {
      var n := |ds| - 1;
      var before := Exclude(ds[..n], taken);
      ExcludeAddrs(ds[..n], taken);
      assert (before + [ds[n]])[..|before|] == before && before + [] == before;
    }
  }

  /** Position `i` lists the first device of an address nobody has taken. */
  predicate FirstUntaken(ds: seq<PoolDevice>, taken: set<string>, i: int) {
    0 <= i < |ds| && ds[i].info.addr !in taken && forall j :: 0 <= j < i ==> ds[j].info.addr != ds[i].info.addr
  }

  lemma UntakenStep(ds: seq<PoolDevice>, taken: set<string>)
    requires ds != []
    ensures var n := |ds| - 1;
            && (FirstUntaken(ds, taken, n) <==> ds[n].info.addr !in taken && ds[n].info.addr !in AddrsIn(ds[..n]))
            && forall i :: 0 <= i < n ==> (FirstUntaken(ds, taken, i) <==> FirstUntaken(ds[..n], taken, i))
  {
    AddrOf(ds[..|ds| - 1], ds[|ds| - 1].info.addr);
  }

  /** What is kept is the first device of each address nobody has taken. */
  lemma {:induction false} ExcludeSays(ds: seq<PoolDevice>, taken: set<string>, d: PoolDevice)
    ensures d in Exclude(ds, taken) <==> exists i :: 0 <= i < |ds| && FirstUntaken(ds, taken, i) && ds[i] == d
  {
    if ds != [] {
      var n := |ds| - 1;
      ExcludeSays(ds[..n], taken, d);
      UntakenStep(ds, taken);
      hide FirstUntaken, AddrsIn;
      if i :| 0 <= i < n && FirstUntaken(ds[..n], taken, i) && ds[..n][i] == d {
        assert FirstUntaken(ds, taken, i) && ds[i] == d;
      }
      if i :| 0 <= i < |ds| && FirstUntaken(ds, taken, i) && ds[i] == d {
        assert i < n ==> FirstUntaken(ds[..n], taken, i) && ds[..n][i] == d;
      }
    }
  }

  lemma {:induction false} ExcludeDistinct(ds: seq<PoolDevice>, taken: set<string>)
    ensures Distinct(Exclude(ds, taken))
    ensures forall d :: d in Exclude(ds, taken) ==> d in ds
  {
    if ds != [] {
      var n := |ds| - 1;
      var before := Exclude(ds[..n], taken);
      ExcludeDistinct(ds[..n], taken);
      ExcludeAddrs(ds[..n], taken);
      forall i | 0 <= i < |before| ensures before[i].info.addr in AddrsIn(ds[..n]) {
        AddrOf(before, before[i].info.addr);
      }
    }
  }

  lemma {:induction false} TakenGrows(devices: seq<PoolDevice>, configs: seq<Config>, i: nat, j: nat)
    requires i < j <= |configs|
    ensures AddrsIn(Selected(devices, configs[i].selectors)) <= TakenBefore(devices, configs, j)
    decreases j
  {
    if i < j - 1 { TakenGrows(devices, configs, i, j - 1); }
  }

  /** No address is in two base pools, nor twice in one; this holds for any device list. */
  lemma BasePoolsDisjoint(devices: seq<PoolDevice>, configs: seq<Config>, i: nat, j: nat)
    requires i < j < |configs|
    ensures AddrsIn(BasePool(devices, configs, i)) !! AddrsIn(BasePool(devices, configs, j))
    ensures Distinct(BasePool(devices, configs, i))
  {
    ExcludeDistinct(Selected(devices, configs[i].selectors), TakenBefore(devices, configs, i));
    ExcludeAddrs(Selected(devices, configs[i].selectors), TakenBefore(devices, configs, i));
    ExcludeAddrs(Selected(devices, configs[j].selectors), TakenBefore(devices, configs, j));
    TakenGrows(devices, configs, i, j);
  }

  predicate NoEarlier(configs: seq<Config>, i: nat, d: PoolDevice)
    requires i <= |configs|
  {
    forall j :: 0 <= j < i ==> !Accepts(configs[j].selectors, d)
  }

  lemma {:induction false} TakenBy(devices: seq<PoolDevice>, configs: seq<Config>, n: nat, d: PoolDevice)
    requires n <= |configs| && Distinct(devices) && d in devices
    ensures d.info.addr in TakenBefore(devices, configs, n) <==> !NoEarlier(configs, n, d)
  {
    if n > 0 {
      TakenBy(devices, configs, n - 1, d);
      var s := configs[n - 1].selectors;
      assert d.info.addr in AddrsIn(Selected(devices, s)) <==> Accepts(s, d) by {
        FilterElems(devices, Takes(s), d);
        AddrOf(Selected(devices, s), d.info.addr);
        if d.info.addr in AddrsIn(Selected(devices, s)) {
          var e :| e in Selected(devices, s) && e.info.addr == d.info.addr;
          FilterElems(devices, Takes(s), e);
          SameAddrSameDevice(devices, d, e);
        }
      }
    }
  }

  lemma SameAddrSameDevice(ds: seq<PoolDevice>, d: PoolDevice, e: PoolDevice)
    requires Distinct(ds) && d in ds && e in ds && d.info.addr == e.info.addr
    ensures d == e
  {
  }

  lemma {:induction false} ExcludeIsFilter(ds: seq<PoolDevice>, taken: set<string>)
    requires Distinct(ds)
    ensures Exclude(ds, taken) == Filter(ds, (d: PoolDevice) => d.info.addr !in taken)
  {
    if ds != [] {
      var n := |ds| - 1;
      ExcludeIsFilter(ds[..n], taken);
      AddrOf(ds[..n], ds[n].info.addr);
    }
  }

  lemma {:induction false} FilterDistinct(ds: seq<PoolDevice>, keep: PoolDevice -> bool)
    requires Distinct(ds)
    ensures Distinct(Filter(ds, keep))
  {
    if ds != [] {
      var n := |ds| - 1;
      FilterDistinct(ds[..n], keep);
      forall d | d in Filter(ds[..n], keep) ensures d.info.addr != ds[n].info.addr {
        FilterElems(ds[..n], keep, d);
      }
    }
  }

  /** With distinct addresses, the base pool of a configuration is the devices it accepts and no earlier
      configuration does, in discovery order. */
  lemma FirstConfigTakes(devices: seq<PoolDevice>, configs: seq<Config>, i: nat)
    requires i < |configs| && Distinct(devices)
    ensures BasePool(devices, configs, i) ==
            Filter(devices, d => Accepts(configs[i].selectors, d) && NoEarlier(configs, i, d))
  {
    var s, taken := configs[i].selectors, TakenBefore(devices, configs, i);
    FilterDistinct(devices, Takes(s));
    ExcludeIsFilter(Selected(devices, s), taken);
    forall d | d in devices ensures d.info.addr in taken <==> !NoEarlier(configs, i, d) {
      TakenBy(devices, configs, i, d);
    }
    FilterTwice(devices, Takes(s), (d: PoolDevice) => d.info.addr !in taken,
                d => Accepts(configs[i].selectors, d) && NoEarlier(configs, i, d));
  }

  // ----- Names -----

  function ReplaceAll(s: string, from: char, to: char): string {
    seq(|s|, i requires 0 <= i < |s| => if s[i] == from then to else s[i])
  }

  /** `SafePciAddress`: a pool name for one address. */
  function SafePciAddress(name: string, addr: string): string {
    name + "_" + ReplaceAll(addr, ':', '_')
  }

  function ExtractPciAddr(resourceName: string): string {
    var pf, vf := PF_RESOURCE + "_", VF_RESOURCE + "_";
    if HasPrefix(resourceName, pf) then ReplaceAll(resourceName[|pf|..], '_', ':')
    else if HasPrefix(resourceName, vf) then ReplaceAll(resourceName[|vf|..], '_', ':')
    else ""
  }

  /** Extraction undoes the naming exactly for addresses without an underscore. */
  lemma NameRoundTrip(name: string, addr: string)
    requires name == PF_RESOURCE || name == VF_RESOURCE
    ensures ':' !in SafePciAddress(name, addr)
    ensures ExtractPciAddr(SafePciAddress(name, addr)) == ReplaceAll(addr, '_', ':')
    ensures ExtractPciAddr(SafePciAddress(name, addr)) == addr <==> '_' !in addr
  {
  }

  // ----- Per-device pools -----

  /** The address an initial per-device pool is named after. */
  function GroupAddr(name: string, d: PoolDevice): string {
    if name == PF_RESOURCE || (name == VF_RESOURCE && d.info.IsIsolatedVF()) then d.info.addr else d.info.pfAddr
  }

  function GroupName(name: string, d: PoolDevice): string {
    SafePciAddress(name, GroupAddr(name, d))
  }

  /** PFs and isolated VFs have a pool each, and the VFs of one PF share a pool. */
  lemma SharesPool(name: string, d: PoolDevice, e: PoolDevice)
    requires name == PF_RESOURCE || name == VF_RESOURCE
    requires PlainAddresses([d, e])
    ensures GroupName(name, d) == GroupName(name, e) <==>
            (if name == "spyre_pf" || (d.info.product == VfProduct && d.info.pfAddr == "") then d.info.addr else d.info.pfAddr) ==
            (if name == "spyre_pf" || (e.info.product == VfProduct && e.info.pfAddr == "") then e.info.addr else e.info.pfAddr)
  {
    NameRoundTrip(name, GroupAddr(name, d));
    NameRoundTrip(name, GroupAddr(name, e));
    assert d in [d, e] && e in [d, e];
  }

  function GroupOf(name: string, ds: seq<PoolDevice>, n: string): seq<PoolDevice> {
    Filter(ds, d => GroupName(name, d) == n)
  }

  function GroupNames(name: string, ds: seq<PoolDevice>): set<string> {
    if ds == [] then {}
    else
      var n := |ds| - 1;
      GroupNames(name, ds[..n]) + {GroupName(name, ds[n])}
  }

  lemma GroupStep(name: string, ds: seq<PoolDevice>, d: PoolDevice)
    ensures GroupNames(name, ds + [d]) == GroupNames(name, ds) + {GroupName(name, d)}
    ensures forall n :: GroupOf(name, ds + [d], n) == GroupOf(name, ds, n) + if GroupName(name, d) == n then [d] else []
  {
  }

  method SplitPerDevice(name: string, ds: seq<PoolDevice>) returns (pools: map<string, seq<PoolDevice>>)
    ensures pools.Keys == GroupNames(name, ds)
    ensures forall n :: n in pools ==> pools[n] == GroupOf(name, ds, n)
  {
    pools := map[];
    for i := 0 to |ds|
      invariant pools.Keys == GroupNames(name, ds[..i])
      invariant forall n :: n in pools ==> pools[n] == GroupOf(name, ds[..i], n)
    {
      var n := GroupName(name, ds[i]);
      GroupStep(name, ds[..i], ds[i]);
      assert ds[..i + 1] == ds[..i] + [ds[i]];
      if n !in pools { EmptyGroup(name, ds[..i], n); }
      pools := pools[n := (if n in pools then pools[n] else []) + [ds[i]]];
    }
    assert ds[..|ds|] == ds;
  }

  lemma {:induction false} EmptyGroup(name: string, ds: seq<PoolDevice>, n: string)
    ensures n in GroupNames(name, ds) <==> GroupOf(name, ds, n) != []
  {
    if ds != [] {
      EmptyGroup(name, ds[..|ds| - 1], n);
    }
  }

  /** The address a hotplug compares with the one in the pool's name. */
  function MatchAddr(d: PoolDevice): string {
    if !d.info.IsSriovPF() && !d.info.IsIsolatedVF() then d.info.pfAddr else d.info.addr
  }

  method FilterDevicesByPCIAddr(ds: seq<PoolDevice>, addr: string) returns (r: seq<PoolDevice>)
    ensures r == Filter(ds, d => MatchAddr(d) == addr)
  {
    r := [];
    for i := 0 to |ds|
      invariant r == Filter(ds[..i], d => MatchAddr(d) == addr)
    {
      assert ds[..i + 1][..i] == ds[..i];
      if MatchAddr(ds[i]) == addr {
        r := r + [ds[i]];
      }
    }
    assert ds[..|ds|] == ds;
  }

  // ----- Hotplug -----

  /** What a hotplug brought, and whether there are per-device pools. */
  datatype Hotplug = Hotplug(perDevice: bool, pfAdded: bool, vfAdded: bool)

  predicate Brought(h: Hotplug, base: string) {
    if base == PF_RESOURCE then h.pfAdded else h.vfAdded
  }

  /** The base configuration a pool is rebuilt with, if it is: the guard means to spare the tiered pools. */
  function BaseName(h: Hotplug, pool: string): Option<string> {
    if pool == PF_RESOURCE && h.pfAdded then Some(PF_RESOURCE)
    else if pool == VF_RESOURCE && h.vfAdded then Some(VF_RESOURCE)
    else if h.perDevice && HasPrefix(pool, PF_RESOURCE + "_") && h.pfAdded && !HasSuffix(pool, "tier") then Some(PF_RESOURCE)
    else if h.perDevice && HasPrefix(pool, VF_RESOURCE + "_") && h.vfAdded && !HasSuffix(pool, "tier") then Some(VF_RESOURCE)
    else None
  }

  /** The first configuration of that name, or the number of configurations. */
  function FirstNamed(configs: seq<Config>, name: string): (j: nat)
    ensures j <= |configs| && (j < |configs| ==> configs[j].name == name)
    ensures forall i :: 0 <= i < j ==> configs[i].name != name
  {
    if configs == [] || configs[0].name == name then 0 else 1 + FirstNamed(configs[1..], name)
  }

  predicate PerDeviceName(pool: string) {
    HasPrefix(pool, PF_RESOURCE + "_") || HasPrefix(pool, VF_RESOURCE + "_")
  }

  /** The devices a configuration selects for the pool of one address. */
  function SelectedAt(devices: seq<PoolDevice>, config: Config, pool: string): seq<PoolDevice> {
    Selected(Filter(devices, d => MatchAddr(d) == ExtractPciAddr(pool)), config.selectors)
  }

  /** What a hotplug rebuilds a pool with; nothing is done without a configuration to go by. */
  function Rebuilt(devices: seq<PoolDevice>, configs: seq<Config>, pool: string, h: Hotplug): Option<seq<PoolDevice>> {
    match BaseName(h, pool)
    case None => None
    case Some(base) =>
      var j := FirstNamed(configs, base);
      if j == |configs| then None
      else if h.perDevice && PerDeviceName(pool) then Some(SelectedAt(devices, configs[j], pool))
      else Some(Selected(devices, configs[j].selectors))
  }

  /** Pools of other resources are left alone, and so are those of a kind nothing was added of. */
  lemma LeftAlone(devices: seq<PoolDevice>, configs: seq<Config>, pool: string, h: Hotplug)
    requires pool != "spyre_pf" && pool != "spyre_vf"
    requires (forall rest :: pool != "spyre_pf_" + rest && pool != "spyre_vf_" + rest) || !h.perDevice || (!h.pfAdded && !h.vfAdded)
    ensures Rebuilt(devices, configs, pool, h) == None
  {
    AffixSplits(pool, PF_RESOURCE + "_");
    AffixSplits(pool, VF_RESOURCE + "_");
    assert PF_RESOURCE + "_" == "spyre_pf_" && VF_RESOURCE + "_" == "spyre_vf_";
  }

  method RebuildPool(devices: seq<PoolDevice>, configs: seq<Config>, pool: string, h: Hotplug)
      returns (r: Option<seq<PoolDevice>>)
    ensures r == Rebuilt(devices, configs, pool, h)
  {
    var base := BaseName(h, pool);
    if base.None? { return None; }
    var j := 0;
    while j < |configs| && configs[j].name != base.value
      invariant j <= |configs| && forall i :: 0 <= i < j ==> configs[i].name != base.value
    {
      j := j + 1;
    }
    if j == |configs| { return None; }
    assert j == FirstNamed(configs, base.value);
    var ds := devices;
    if h.perDevice && PerDeviceName(pool) {
      ds := FilterDevicesByPCIAddr(ds, ExtractPciAddr(pool));
    }
    ds := GetFilteredDevices(ds, configs[j].selectors);
    return Some(ds);
  }

  /** The PF configuration accepts only PFs, the VF configuration none. */
  predicate KindsApart(devices: seq<PoolDevice>, config: Config) {
    forall d :: d in devices && Accepts(config.selectors, d) ==> (d.info.IsSriovPF() <==> config.name == PF_RESOURCE)
  }

  predicate PlainAddresses(devices: seq<PoolDevice>) {
    forall d :: d in devices ==> '_' !in d.info.addr && '_' !in d.info.pfAddr
  }

  lemma SameGroup(devices: seq<PoolDevice>, config: Config, n: string, a: string, d: PoolDevice)
    requires config.name == PF_RESOURCE || config.name == VF_RESOURCE
    requires KindsApart(devices, config) && PlainAddresses(devices) && '_' !in a && n == SafePciAddress(config.name, a)
    requires d in devices && Accepts(config.selectors, d)
    ensures GroupName(config.name, d) == n <==> MatchAddr(d) == ExtractPciAddr(n)
  {
  }

  /** The initial group, and what a hotplug rebuilds, each as one filter over all devices. */
  lemma GroupIsOneFilter(devices: seq<PoolDevice>, configs: seq<Config>, i: nat, n: string, all: PoolDevice -> bool)
    requires i < |configs| && Distinct(devices)
    requires forall d :: d in devices ==>
               (all(d) <==> Accepts(configs[i].selectors, d) && NoEarlier(configs, i, d) && GroupName(configs[i].name, d) == n)
    ensures GroupOf(configs[i].name, BasePool(devices, configs, i), n) == Filter(devices, all)
  {
    FirstConfigTakes(devices, configs, i);
    FilterTwice(devices, d => Accepts(configs[i].selectors, d) && NoEarlier(configs, i, d),
                d => GroupName(configs[i].name, d) == n, all);
  }

  lemma SelectedAtIsOneFilter(devices: seq<PoolDevice>, config: Config, n: string, hot: PoolDevice -> bool)
    requires forall d :: d in devices ==> (hot(d) <==> MatchAddr(d) == ExtractPciAddr(n) && Accepts(config.selectors, d))
    ensures SelectedAt(devices, config, n) == Filter(devices, hot)
  {
    FilterTwice(devices, d => MatchAddr(d) == ExtractPciAddr(n), Takes(config.selectors), hot);
  }

  lemma SelectedAtElems(devices: seq<PoolDevice>, config: Config, n: string, d: PoolDevice)
    ensures d in SelectedAt(devices, config, n) <==>
            d in devices && MatchAddr(d) == ExtractPciAddr(n) && Accepts(config.selectors, d)
  {
    FilterElems(devices, d => MatchAddr(d) == ExtractPciAddr(n), d);
    FilterElems(Filter(devices, d => MatchAddr(d) == ExtractPciAddr(n)), Takes(config.selectors), d);
  }

  /** The initial group is what the pool's own configuration selects for it, less what was taken earlier. */
  lemma GroupWithinSelected(devices: seq<PoolDevice>, configs: seq<Config>, i: nat, n: string, a: string)
    requires i < |configs| && Distinct(devices) && PlainAddresses(devices) && '_' !in a
    requires configs[i].name == PF_RESOURCE || configs[i].name == VF_RESOURCE
    requires KindsApart(devices, configs[i]) && n == SafePciAddress(configs[i].name, a)
    ensures GroupOf(configs[i].name, BasePool(devices, configs, i), n)
         == Filter(SelectedAt(devices, configs[i], n), d => NoEarlier(configs, i, d))
  {
    var c := configs[i];
    var hot: PoolDevice -> bool := d => MatchAddr(d) == ExtractPciAddr(n) && Accepts(c.selectors, d);
    var all: PoolDevice -> bool := d => hot(d) && NoEarlier(configs, i, d);
    forall d | d in devices && Accepts(c.selectors, d) ensures GroupName(c.name, d) == n <==> MatchAddr(d) == ExtractPciAddr(n) {
      SameGroup(devices, c, n, a, d);
    }
    GroupIsOneFilter(devices, configs, i, n, all);
    SelectedAtIsOneFilter(devices, c, n, hot);
    FilterTwice(devices, hot, d => NoEarlier(configs, i, d), all);
  }

  /** No device of the group is accepted by an earlier configuration. */
  predicate GroupIsOwn(devices: seq<PoolDevice>, configs: seq<Config>, i: nat, n: string)
    requires i < |configs|
  {
    forall d :: d in devices && Accepts(configs[i].selectors, d) && GroupName(configs[i].name, d) == n ==> NoEarlier(configs, i, d)
  }

  lemma GroupIsSelected(devices: seq<PoolDevice>, configs: seq<Config>, i: nat, n: string, a: string)
    requires i < |configs| && Distinct(devices) && PlainAddresses(devices) && '_' !in a
    requires configs[i].name == PF_RESOURCE || configs[i].name == VF_RESOURCE
    requires KindsApart(devices, configs[i]) && n == SafePciAddress(configs[i].name, a)
    ensures GroupOf(configs[i].name, BasePool(devices, configs, i), n) == SelectedAt(devices, configs[i], n) <==>
            GroupIsOwn(devices, configs, i, n)
  {
    var selected := SelectedAt(devices, configs[i], n);
    GroupWithinSelected(devices, configs, i, n, a);
    FixedByFilter(selected, d => NoEarlier(configs, i, d));
    forall d | d in devices && Accepts(configs[i].selectors, d) ensures d in selected <==> GroupName(configs[i].name, d) == n {
      SelectedAtElems(devices, configs[i], n, d);
      SameGroup(devices, configs[i], n, a, d);
    }
    forall d | d in selected ensures d in devices && Accepts(configs[i].selectors, d) {
      SelectedAtElems(devices, configs[i], n, d);
    }
  }

  lemma InBasePool(devices: seq<PoolDevice>, configs: seq<Config>, i: nat, d: PoolDevice)
    requires i < |configs| && Distinct(devices)
    ensures d in BasePool(devices, configs, i) <==>
            d in devices && Accepts(configs[i].selectors, d) && NoEarlier(configs, i, d)
  {
    FirstConfigTakes(devices, configs, i);
    FilterElems(devices, d => Accepts(configs[i].selectors, d) && NoEarlier(configs, i, d), d);
  }

  /** When a per-device pool is rebuilt, and with which configuration. */
  lemma RebuiltForm(devices: seq<PoolDevice>, configs: seq<Config>, base: string, a: string, h: Hotplug)
    requires base == PF_RESOURCE || base == VF_RESOURCE
    requires FirstNamed(configs, base) < |configs|
    ensures var n := SafePciAddress(base, a);
            Rebuilt(devices, configs, n, h) ==
            if h.perDevice && Brought(h, base) && !HasSuffix(n, "tier")
            then Some(SelectedAt(devices, configs[FirstNamed(configs, base)], n)) else None
  {
    var n := SafePciAddress(base, a);
    assert n[..|base| + 1] == base + "_";
    assert HasPrefix(n, base + "_") && |n| > 8;
    assert base == PF_RESOURCE ==> n[6] == 'p';
    assert base == VF_RESOURCE ==> n[6] == 'v';
    assert (PF_RESOURCE + "_")[6] == 'p' && (VF_RESOURCE + "_")[6] == 'v';
  }

  /** When selectors keep PFs and VFs apart and addresses are distinct and hold no underscore: a hotplug
      rebuilds the initial per-device pool from the same devices exactly when its configuration is the
      first of its name and none of its devices is accepted by an earlier configuration. It leaves the pool
      alone when it brought no device of the kind, or the address ends like a tier. */
  lemma HotplugRebuildsGroup(devices: seq<PoolDevice>, configs: seq<Config>, i: nat, d0: PoolDevice, h: Hotplug)
    requires i < |configs| && Distinct(devices) && PlainAddresses(devices)
    requires configs[i].name == PF_RESOURCE || configs[i].name == VF_RESOURCE
    requires KindsApart(devices, configs[i]) && d0 in BasePool(devices, configs, i)
    ensures var name := configs[i].name;
            var n := GroupName(name, d0);
            var group, rebuilt := GroupOf(name, BasePool(devices, configs, i), n), Rebuilt(devices, configs, n, h);
            && d0 in group
            && (rebuilt.Some? <==> h.perDevice && (if name == "spyre_pf" then h.pfAdded else h.vfAdded) && !HasSuffix(n, "tier"))
            && (rebuilt.Some? ==>
                  (rebuilt.value == group <==> FirstNamed(configs, name) == i && GroupIsOwn(devices, configs, i, n)))
  {
    var name := configs[i].name;
    var n, a := GroupName(name, d0), GroupAddr(name, d0);
    InBasePool(devices, configs, i, d0);
    FilterElems(BasePool(devices, configs, i), d => GroupName(name, d) == n, d0);
    RebuiltForm(devices, configs, name, a, h);
    var j := FirstNamed(configs, name);
    if j == i {
      GroupIsSelected(devices, configs, i, n, a);
    } else {
      SelectedAtElems(devices, configs[j], n, d0);
    }
  }

  lemma BasePoolIsSelected(devices: seq<PoolDevice>, configs: seq<Config>, i: nat)
    requires i < |configs| && Distinct(devices)
    ensures BasePool(devices, configs, i) == Selected(devices, configs[i].selectors) <==>
            forall d :: d in devices && Accepts(configs[i].selectors, d) ==> NoEarlier(configs, i, d)
  {
    var selected := Selected(devices, configs[i].selectors);
    FirstConfigTakes(devices, configs, i);
    FilterTwice(devices, Takes(configs[i].selectors), d => NoEarlier(configs, i, d),
                d => Accepts(configs[i].selectors, d) && NoEarlier(configs, i, d));
    FixedByFilter(selected, d => NoEarlier(configs, i, d));
    forall d ensures d in selected <==> d in devices && Accepts(configs[i].selectors, d) {
      FilterElems(devices, Takes(configs[i].selectors), d);
    }
  }

  lemma RebuiltBaseForm(devices: seq<PoolDevice>, configs: seq<Config>, base: string, h: Hotplug)
    requires base == PF_RESOURCE || base == VF_RESOURCE
    requires Brought(h, base) && FirstNamed(configs, base) < |configs|
    ensures Rebuilt(devices, configs, base, h) == Some(Selected(devices, configs[FirstNamed(configs, base)].selectors))
  {
    assert |base| == 8 && !PerDeviceName(base);
  }

  /** A hotplug rebuilds a base pool exactly when its configuration is the first of its name and accepts
      nothing an earlier one does. */
  lemma HotplugRebuildsBasePool(devices: seq<PoolDevice>, configs: seq<Config>, i: nat, h: Hotplug)
    requires i < |configs| && Distinct(devices) && BasePool(devices, configs, i) != []
    requires configs[i].name == PF_RESOURCE || configs[i].name == VF_RESOURCE
    requires Brought(h, configs[i].name)
    ensures Rebuilt(devices, configs, configs[i].name, h) == Some(BasePool(devices, configs, i)) <==>
            && FirstNamed(configs, configs[i].name) == i
            && forall d :: d in devices && Accepts(configs[i].selectors, d) ==> NoEarlier(configs, i, d)
  {
    var j, pool := FirstNamed(configs, configs[i].name), BasePool(devices, configs, i);
    RebuiltBaseForm(devices, configs, configs[i].name, h);
    if j == i {
      BasePoolIsSelected(devices, configs, i);
    } else {
      InBasePool(devices, configs, i, pool[0]);
      FilterElems(devices, Takes(configs[j].selectors), pool[0]);
    }
  }

  lemma FixedByFilter(ds: seq<PoolDevice>, keep: PoolDevice -> bool)
    ensures Filter(ds, keep) == ds <==> forall d :: d in ds ==> keep(d)
  {
    if forall d :: d in ds ==> keep(d) {
      KeepsAll(ds, keep);
    } else if Filter(ds, keep) == ds {
      forall d | d in ds ensures keep(d) { FilterElems(ds, keep, d); }
    }
  }

  // ----- Pools a hotplug does not rebuild -----

  const ANY := Selectors([], [], [], [])

  function At(addr: string, product: Product, pfAddr: string): PoolDevice {
    PoolDevice(DeviceInfo(addr, product, pfAddr), "", "", "")
  }

  /** What validation demands of names: no two configurations share prefix and name. */
  predicate ValidNames(configs: seq<Config>) {
    forall i, j :: 0 <= i < j < |configs| ==> (configs[i].prefix, configs[i].name) != (configs[j].prefix, configs[j].name)
  }

  ghost predicate Misbuilt(devices: seq<PoolDevice>, configs: seq<Config>, i: nat, d0: PoolDevice, h: Hotplug) {
    && i < |configs| && Distinct(devices) && PlainAddresses(devices) && ValidNames(configs)
    && KindsApart(devices, configs[i]) && d0 in BasePool(devices, configs, i)
    && var n := GroupName(configs[i].name, d0);
       var rebuilt := Rebuilt(devices, configs, n, h);
       rebuilt.Some? && rebuilt.value != GroupOf(configs[i].name, BasePool(devices, configs, i), n)
  }

  /** Two configurations of one name under different prefixes: the second one's pool is rebuilt with the
      selectors of the first. */
  lemma SameNameIsMisbuilt(x: string, y: string)
    requires x != y && '_' !in y && !HasSuffix(SafePciAddress(PF_RESOURCE, y), "tier")
    ensures Misbuilt([At(y, PfProduct, "")],
                     [Config("a", PF_RESOURCE, ANY.(pciAddresses := [x])), Config("b", PF_RESOURCE, ANY)], 1,
                     At(y, PfProduct, ""), Hotplug(true, true, false))
  {
    var d := At(y, PfProduct, "");
    var configs := [Config("a", PF_RESOURCE, ANY.(pciAddresses := [x])), Config("b", PF_RESOURCE, ANY)];
    assert !Accepts(configs[0].selectors, d);
    InBasePool([d], configs, 1, d);
    HotplugRebuildsGroup([d], configs, 1, d, Hotplug(true, true, false));
  }

  /** Two VFs of one PF, one of them taken by an earlier configuration: the pool is rebuilt with both. */
  lemma TakenDeviceIsMisbuilt(v: string, w: string, pf: string)
    requires v != w && pf != "" && '_' !in v && '_' !in w && '_' !in pf
    requires !HasSuffix(SafePciAddress(VF_RESOURCE, pf), "tier")
    ensures Misbuilt([At(v, VfProduct, pf), At(w, VfProduct, pf)],
                     [Config("a", "spyre_one", ANY.(pciAddresses := [v])), Config("a", VF_RESOURCE, ANY)], 1,
                     At(w, VfProduct, pf), Hotplug(true, false, true))
  {
    var d, e := At(v, VfProduct, pf), At(w, VfProduct, pf);
    var configs := [Config("a", "spyre_one", ANY.(pciAddresses := [v])), Config("a", VF_RESOURCE, ANY)];
    assert Accepts(configs[0].selectors, d) && !Accepts(configs[0].selectors, e);
    InBasePool([d, e], configs, 1, e);
    HotplugRebuildsGroup([d, e], configs, 1, e, Hotplug(true, false, true));
    assert !NoEarlier(configs, 1, d) && GroupName(VF_RESOURCE, d) == GroupName(VF_RESOURCE, e);
    assert !GroupIsOwn([d, e], configs, 1, GroupName(VF_RESOURCE, e));
  }

  lemma TierName(base: string, tier: string)
    requires base == PF_RESOURCE || base == VF_RESOURCE
    requires tier == "tier0" || tier == "tier1" || tier == "tier2"
    ensures var name := base + "_" + tier;
            name == SafePciAddress(base, tier) && !HasSuffix(name, "tier") && ExtractPciAddr(name) == tier
  {
    var name := base + "_" + tier;
    assert ReplaceAll(tier, ':', '_') == tier && '_' !in tier;
    assert name[|name| - 1] == tier[4] != "tier"[3];
    NameRoundTrip(base, tier);
  }

  /** The guard does not spare the tiered pools: their names end in the tier's digit, so a hotplug of their
      own kind rebuilds each with the devices whose address is literally the tier's name, that is none. */
  lemma TierPoolIsEmptied(devices: seq<PoolDevice>, configs: seq<Config>, base: string, tier: string, h: Hotplug)
    requires base == PF_RESOURCE || base == VF_RESOURCE
    requires tier == "tier0" || tier == "tier1" || tier == "tier2"
    requires h.perDevice && Brought(h, base) && FirstNamed(configs, base) < |configs|
    ensures var rebuilt := Rebuilt(devices, configs, base + "_" + tier, h);
            && rebuilt.Some?
            && (rebuilt.value == [] <==>
                forall d :: d in devices && Accepts(configs[FirstNamed(configs, base)].selectors, d) ==> MatchAddr(d) != tier)
  {
    var name, c := base + "_" + tier, configs[FirstNamed(configs, base)];
    TierName(base, tier);
    RebuiltForm(devices, configs, base, tier, h);
    var rebuilt := SelectedAt(devices, c, name);
    forall d ensures d in rebuilt <==> d in devices && MatchAddr(d) == tier && Accepts(c.selectors, d) {
      SelectedAtElems(devices, c, name, d);
    }
    assert rebuilt != [] ==> rebuilt[0] in rebuilt;
  }
}
