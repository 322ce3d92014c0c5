/** From a scan's devices to the two reports the node state is reconciled with: one entry per physical
    function with its virtual functions, one entry per isolated virtual function. */
module Interfaces {
  import opened Strings
  import opened HealthScan

  /** `Unset` is the zero value a PF entry has when only its VFs were discovered. */
  datatype Health = Unset | Healthy | Unhealthy

  /** A `SpyreInterface`; a `SpyreSSAInterface` is one without virtual functions. */
  datatype Interface = Interface(addr: string, numVfs: nat, vfs: seq<string>, health: Health)

  type Report = map<string, Interface>

  function HealthOf(d: Device): Health {
    if d.healthy then Healthy else Unhealthy
  }

  // ----- What the reports should say -----

  function AttachedTo(devices: seq<Device>, pf: string): seq<string> {
    if devices == [] then []
    else
      var d := devices[|devices| - 1];
      AttachedTo(devices[..|devices| - 1], pf) + if d.info.IsAttachedVF() && d.info.pfAddr == pf then [d.info.addr] else []
  }

  /** The health of the last PF listed at the address. */
  function PfHealth(devices: seq<Device>, a: string): Health {
    if devices == [] then Unset
    else
      var d := devices[|devices| - 1];
      if d.info.IsSriovPF() && d.info.addr == a then HealthOf(d) else PfHealth(devices[..|devices| - 1], a)
  }

  /** The health of the first isolated VF listed at the address. */
  function SsaHealth(devices: seq<Device>, a: string): Health {
    if devices == [] then Unset
    else
      var d := devices[|devices| - 1];
      var before := SsaHealth(devices[..|devices| - 1], a);
      if !d.info.IsSriovPF() && d.info.IsIsolatedVF() && d.info.addr == a && before.Unset? then HealthOf(d) else before
  }

  function PfKey(d: Device): string {
    if d.info.IsSriovPF() then d.info.addr else d.info.pfAddr
  }

  predicate InPfReport(d: Device) {
    !d.info.IsIsolatedVF()
  }

  function PfKeys(devices: seq<Device>): set<string> {
    set d | d in devices && InPfReport(d) :: PfKey(d)
  }

  function SsaKeys(devices: seq<Device>): set<string> {
    set d | d in devices && d.info.IsIsolatedVF() :: d.info.addr
  }

  function PfEntry(devices: seq<Device>, a: string): Interface {
    Interface(a, |AttachedTo(devices, a)|, Sort(AttachedTo(devices, a)), PfHealth(devices, a))
  }

  function PfReport(devices: seq<Device>): Report {
    map a | a in PfKeys(devices) :: PfEntry(devices, a)
  }

  function SsaReport(devices: seq<Device>): Report {
    map a | a in SsaKeys(devices) :: Interface(a, 0, [], SsaHealth(devices, a))
  }

  // ----- The loop -----

  function EntryOr(m: Report, a: string): Interface {
    if a in m then m[a] else Interface(a, 0, [], Unset)
  }

  function Updated(e: Interface, d: Device): Interface {
    if d.info.IsSriovPF() then e.(health := HealthOf(d))
    else e.(vfs := Sort(e.vfs + [d.info.addr]), numVfs := |e.vfs| + 1)
  }

  function AddToPf(m: Report, d: Device): Report {
    m[PfKey(d) := Updated(EntryOr(m, PfKey(d)), d)]
  }

  /** What the loop body makes of the PF report. */
  function PfAfter(m: Report, d: Device): Report {
    if InPfReport(d) then AddToPf(m, d) else m
  }

  function SsaAfter(m: Report, d: Device): Report {
    if d.info.IsIsolatedVF() && d.info.addr !in m
    then m[d.info.addr := Interface(d.info.addr, 0, [], HealthOf(d))]
    else m
  }

  /** Files a VF under its PF, creating the PF's entry if the PF itself has not been seen. */
  method AddVf(pfs: Report, d: Device) returns (pfs': Report)
    requires d.info.IsAttachedVF()
    ensures pfs' == AddToPf(pfs, d)
  {
    var a, pf := d.info.addr, d.info.pfAddr;
    if pf in pfs {
      var vfs := Sort(pfs[pf].vfs + [a]);
      SortLength(pfs[pf].vfs + [a]);
      pfs' := pfs[pf := pfs[pf].(vfs := vfs, numVfs := |vfs|)];
    } else {
      SortOne(a);
      assert [] + [a] == [a];
      pfs' := pfs[pf := Interface(pf, 1, [a], Unset)];
    }
  }

  method AddDevice(pfs: Report, ssas: Report, d: Device) returns (pfs': Report, ssas': Report)
    ensures pfs' == PfAfter(pfs, d) && ssas' == SsaAfter(ssas, d)
  {
    pfs', ssas' := pfs, ssas;
    var a := d.info.addr;
    if d.info.IsSriovPF() {
      pfs' := pfs[a := if a in pfs then pfs[a].(health := HealthOf(d)) else Interface(a, 0, [], HealthOf(d))];
    } else if d.info.IsIsolatedVF() {
      if a !in ssas {
        ssas' := ssas[a := Interface(a, 0, [], HealthOf(d))];
      }
    } else {
      pfs' := AddVf(pfs, d);
    }
  }

  method GetSpyreInterfaceMaps(devices: seq<Device>) returns (pfs: Report, ssas: Report)
    ensures pfs == PfReport(devices)
    ensures ssas == SsaReport(devices)
  {
    pfs, ssas := map[], map[];
    for i := 0 to |devices|
      invariant pfs == PfReport(devices[..i])
      invariant ssas == SsaReport(devices[..i])
    {
      pfs, ssas := AddDevice(pfs, ssas, devices[i]);
      ReportsAfter(devices, i);
    }
    assert devices[..|devices|] == devices;
  }

  /** One more device changes the reports as one turn of the loop does. */
  lemma ReportsAfter(devices: seq<Device>, i: nat)
    requires i < |devices|
    ensures PfReport(devices[..i + 1]) == PfAfter(PfReport(devices[..i]), devices[i])
    ensures SsaReport(devices[..i + 1]) == SsaAfter(SsaReport(devices[..i]), devices[i])
  {
    assert devices[..i + 1] == devices[..i] + [devices[i]];
    PfStep(devices[..i], devices[i]);
    SsaStep(devices[..i], devices[i]);
  }

  lemma PfEntryStep(devices: seq<Device>, d: Device, b: string)
    ensures PfEntry(devices + [d], b) ==
            if InPfReport(d) && b == PfKey(d) then Updated(PfEntry(devices, b), d) else PfEntry(devices, b)
  {
    assert (devices + [d])[..|devices|] == devices;
    var before := AttachedTo(devices, b);
    assert before + [] == before;
    SortLength(before);
    SortMultiset(before);
    SortPermutation(Sort(before) + [d.info.addr], before + [d.info.addr]);
  }

  lemma PfKeysStep(devices: seq<Device>, d: Device)
    ensures PfKeys(devices + [d]) == PfKeys(devices) + if InPfReport(d) then {PfKey(d)} else {}
  {
  }

  lemma {:induction false} NoPfEntry(devices: seq<Device>, a: string)
    requires a !in PfKeys(devices)
    ensures AttachedTo(devices, a) == [] && PfHealth(devices, a) == Unset
  {
    if devices != [] {
      var prev, d := devices[..|devices| - 1], devices[|devices| - 1];
      assert devices == prev + [d] && d in devices;
      assert PfKeys(devices) == PfKeys(prev) + if InPfReport(d) then {PfKey(d)} else {};
      NoPfEntry(prev, a);
    }
  }

  lemma SortOne(v: string)
    ensures Sort([v]) == [v] && Sort([]) == []
  {
  }

  lemma PfEntryOr(devices: seq<Device>, a: string)
    ensures EntryOr(PfReport(devices), a) == PfEntry(devices, a)
  {
    if a !in PfKeys(devices) {
      NoPfEntry(devices, a);
      SortOne("");
    }
  }

  lemma PfStepAt(devices: seq<Device>, d: Device, b: string)
    requires b in PfKeys(devices + [d])
    ensures EntryOr(PfAfter(PfReport(devices), d), b) == PfEntry(devices + [d], b)
  {
    PfEntryStep(devices, d, b);
    PfEntryOr(devices, b);
    var m := PfReport(devices);
    assert PfEntry(devices, b) == EntryOr(m, b);
    if InPfReport(d) && b == PfKey(d) {
      assert PfAfter(m, d)[b] == Updated(EntryOr(m, b), d);
    }
  }

  lemma PfStep(devices: seq<Device>, d: Device)
    ensures PfReport(devices + [d]) == PfAfter(PfReport(devices), d)
  {
    var after := PfAfter(PfReport(devices), d);
    PfKeysStep(devices, d);
    assert after.Keys == PfKeys(devices + [d]);
    forall b | b in PfKeys(devices + [d]) ensures after[b] == PfEntry(devices + [d], b) {
      PfStepAt(devices, d, b);
    }
  }

  lemma {:induction false} SsaFound(devices: seq<Device>, a: string)
    ensures SsaHealth(devices, a) == Unset <==> a !in SsaKeys(devices)
  {
    if devices != [] {
      var prev, d := devices[..|devices| - 1], devices[|devices| - 1];
      assert devices == prev + [d];
      SsaFound(prev, a);
      assert SsaKeys(devices) == SsaKeys(prev) + if d.info.IsIsolatedVF() then {d.info.addr} else {};
    }
  }

  lemma SsaStep(devices: seq<Device>, d: Device)
    ensures SsaReport(devices + [d]) == SsaAfter(SsaReport(devices), d)
  {
    var devices' := devices + [d];
    assert devices'[..|devices|] == devices && d in devices';
    assert SsaKeys(devices') == SsaKeys(devices) + if d.info.IsIsolatedVF() then {d.info.addr} else {};
    SsaFound(devices, d.info.addr);
  }

  // ----- Every entry, and every order -----

  lemma {:induction false} AttachedElems(devices: seq<Device>, pf: string, v: string)
    ensures v in AttachedTo(devices, pf) <==>
            exists d :: d in devices && d.info.IsAttachedVF() && d.info.pfAddr == pf && d.info.addr == v
  {
    if devices != [] {
      var prev, d := devices[..|devices| - 1], devices[|devices| - 1];
      assert devices == prev + [d] && d in devices;
      AttachedElems(prev, pf, v);
      assert forall e :: e in devices <==> e in prev || e == d;
    }
  }

  predicate IsPf(info: DeviceInfo) {
    info.product == PfProduct
  }

  predicate IsAlone(info: DeviceInfo) {
    info.product == VfProduct && info.pfAddr == ""
  }

  lemma {:induction false} AttachedOnce(devices: seq<Device>, pf: string)
    requires DistinctDevices(devices)
    ensures AllDifferent(AttachedTo(devices, pf))
  {
    if devices != [] {
      var prev, d := devices[..|devices| - 1], devices[|devices| - 1];
      AttachedOnce(prev, pf);
      var before := AttachedTo(prev, pf);
      forall k | 0 <= k < |before| ensures before[k] != d.info.addr {
        AttachedElems(prev, pf, before[k]);
        var i :| 0 <= i < |prev| && prev[i].info.addr == before[k];
        assert devices[i].info.addr != d.info.addr;
      }
      assert AttachedTo(devices, pf) == before || AttachedTo(devices, pf) == before + [d.info.addr];
    }
  }

  /** Each PF entry lists, in order and with their number, exactly the VFs attached to that PF. */
  lemma PfEntryListsItsVfs(devices: seq<Device>, a: string)
    ensures var e := PfEntry(devices, a);
            && (a in PfReport(devices) ==> PfReport(devices)[a] == e)
            && e.addr == a && Sorted(e.vfs) && |e.vfs| == e.numVfs
            && (DistinctDevices(devices) ==> forall i, j :: 0 <= i < j < |e.vfs| ==> e.vfs[i] != e.vfs[j])
            && forall v :: v in e.vfs <==>
                           exists d :: d in devices && !IsPf(d.info) && !IsAlone(d.info) && d.info.pfAddr == a && d.info.addr == v
  {
    var vfs := AttachedTo(devices, a);
    if DistinctDevices(devices) {
      AttachedOnce(devices, a);
      SortKeepsDistinct(vfs);
    }
    SortSorted(vfs);
    SortElems(vfs);
    forall v ensures v in Sort(vfs) <==> v in vfs {
      assert v in Sort(vfs) <==> v in Elems(Sort(vfs));
      assert v in vfs <==> v in Elems(vfs);
    }
    forall v ensures v in vfs <==>
                     exists d :: d in devices && d.info.IsAttachedVF() && d.info.pfAddr == a && d.info.addr == v
    {
      AttachedElems(devices, a, v);
    }
  }

  predicate DistinctDevices(devices: seq<Device>) {
    forall i, j :: 0 <= i < j < |devices| ==> devices[i].info.addr != devices[j].info.addr
  }

  lemma {:induction false} AttachedConcat(a: seq<Device>, b: seq<Device>, pf: string)
    ensures AttachedTo(a + b, pf) == AttachedTo(a, pf) + AttachedTo(b, pf)
  {
    if b == [] {
      assert a + b == a;
    } else {
      assert (a + b)[..|a + b| - 1] == a + b[..|b| - 1];
      AttachedConcat(a, b[..|b| - 1], pf);
    }
  }

  lemma MatchLast(a: seq<Device>, b: seq<Device>) returns (k: nat)
    requires multiset(a) == multiset(b) && a != []
    ensures k < |b| && b[k] == a[|a| - 1]
    ensures multiset(a[..|a| - 1]) == multiset(b[..k] + b[k + 1..])
  {
    var n := |a| - 1;
    assert a[n] in multiset(b);
    k :| 0 <= k < |b| && b[k] == a[n];
    assert a == a[..n] + [a[n]];
    assert b == b[..k] + [b[k]] + b[k + 1..];
    assert multiset(b) == multiset(b[..k] + b[k + 1..]) + multiset{a[n]};
    assert multiset(a) == multiset(a[..n]) + multiset{a[n]};
    assert multiset(a[..n]) == multiset(a) - multiset{a[n]};
  }

  lemma {:induction false} AttachedPermutation(a: seq<Device>, b: seq<Device>, pf: string)
    requires multiset(a) == multiset(b)
    ensures multiset(AttachedTo(a, pf)) == multiset(AttachedTo(b, pf))
  {
    if a == [] {
      assert |multiset(b)| == |multiset(a)|;
    } else {
      var k := MatchLast(a, b);
      var n := |a| - 1;
      AttachedPermutation(a[..n], b[..k] + b[k + 1..], pf);
      AttachedWithout(b, k, pf);
      AttachedWithout(a, n, pf);
      assert a[..n] + a[n + 1..] == a[..n];
    }
  }

  lemma AttachedWithout(b: seq<Device>, k: nat, pf: string)
    requires k < |b|
    ensures multiset(AttachedTo(b, pf)) ==
            multiset(AttachedTo(b[..k] + b[k + 1..], pf)) + multiset(AttachedTo([b[k]], pf))
  {
    assert b == b[..k] + [b[k]] + b[k + 1..];
    AttachedConcat(b[..k], b[k + 1..], pf);
    AttachedConcat(b[..k], [b[k]], pf);
    AttachedConcat(b[..k] + [b[k]], b[k + 1..], pf);
  }

  /** With distinct addresses a PF entry carries its own PF's health; without a PF it is unset. */
  lemma {:induction false} PfHealthOf(devices: seq<Device>, a: string)
    requires DistinctDevices(devices)
    ensures forall d :: d in devices && d.info.IsSriovPF() && d.info.addr == a ==>
              PfHealth(devices, a) == if d.healthy then Healthy else Unhealthy
    ensures (forall d :: d in devices ==> !(d.info.IsSriovPF() && d.info.addr == a)) ==> PfHealth(devices, a) == Unset
  {
    if devices != [] {
      var prev, e := devices[..|devices| - 1], devices[|devices| - 1];
      assert devices == prev + [e] && e in devices;
      PfHealthOf(prev, a);
      assert forall d :: d in devices <==> d in prev || d == e;
    }
  }

  lemma {:induction false} SsaHealthOf(devices: seq<Device>, a: string)
    requires DistinctDevices(devices)
    ensures forall d :: d in devices && d.info.IsIsolatedVF() && d.info.addr == a ==>
              SsaHealth(devices, a) == if d.healthy then Healthy else Unhealthy
  {
    if devices != [] {
      var prev, e := devices[..|devices| - 1], devices[|devices| - 1];
      assert devices == prev + [e] && e in devices;
      SsaHealthOf(prev, a);
      SsaFound(prev, a);
      assert forall d :: d in devices <==> d in prev || d == e;
      assert e.info.addr == a ==> a !in SsaKeys(prev);
    }
  }

  /** A PF entry stands for a PF, or for the PF of a VF; its health is the PF's, if the PF was discovered. */
  lemma PfReportSays(devices: seq<Device>, a: string)
    requires DistinctDevices(devices)
    ensures a in PfReport(devices) <==>
            exists d :: d in devices && !IsAlone(d.info) && a == if IsPf(d.info) then d.info.addr else d.info.pfAddr
    ensures forall d :: d in devices && IsPf(d.info) && d.info.addr == a ==>
              a in PfReport(devices) && PfReport(devices)[a].health == if d.healthy then Healthy else Unhealthy
    ensures a in PfReport(devices) && (forall d :: d in devices && d.info.addr == a ==> !IsPf(d.info)) ==>
              PfReport(devices)[a].health == Unset
  {
    PfHealthOf(devices, a);
    forall d | d in devices && IsPf(d.info) && d.info.addr == a ensures a in PfKeys(devices) {
      assert InPfReport(d) && PfKey(d) == a;
    }
  }

  /** An entry of its own for each isolated VF, with the VF's health and no VFs. */
  lemma SsaReportSays(devices: seq<Device>, a: string)
    requires DistinctDevices(devices)
    ensures a in SsaReport(devices) <==> exists d :: d in devices && IsAlone(d.info) && d.info.addr == a
    ensures forall d :: d in devices && IsAlone(d.info) && d.info.addr == a ==>
              a in SsaReport(devices) && SsaReport(devices)[a] == Interface(a, 0, [], if d.healthy then Healthy else Unhealthy)
  {
    SsaHealthOf(devices, a);
  }

  lemma SamePfEntry(a: seq<Device>, b: seq<Device>, k: string)
    requires DistinctDevices(a) && DistinctDevices(b) && multiset(a) == multiset(b)
    requires forall d :: d in a <==> d in b
    ensures PfEntry(a, k) == PfEntry(b, k)
  {
    AttachedPermutation(a, b, k);
    SortPermutation(AttachedTo(a, k), AttachedTo(b, k));
    SortLength(AttachedTo(a, k));
    SortLength(AttachedTo(b, k));
    PfHealthOf(a, k);
    PfHealthOf(b, k);
  }

  lemma SameSsaHealth(a: seq<Device>, b: seq<Device>, k: string)
    requires DistinctDevices(a) && DistinctDevices(b)
    requires forall d :: d in a <==> d in b
    requires k in SsaKeys(a)
    ensures SsaHealth(a, k) == SsaHealth(b, k)
  {
    var d :| d in a && d.info.IsIsolatedVF() && d.info.addr == k;
    SsaHealthOf(a, k);
    SsaHealthOf(b, k);
  }

  lemma {:induction false} DistinctMultiplicity(a: seq<Device>, x: Device)
    requires DistinctDevices(a)
    ensures multiset(a)[x] == if x in a then 1 else 0
  {
    if a != [] {
      var prev, d := a[..|a| - 1], a[|a| - 1];
      assert a == prev + [d];
      DistinctMultiplicity(prev, x);
    }
  }

  lemma SameElements(a: seq<Device>, b: seq<Device>)
    requires DistinctDevices(a) && DistinctDevices(b)
    requires forall d :: d in a <==> d in b
    ensures multiset(a) == multiset(b)
  {
    forall x ensures multiset(a)[x] == multiset(b)[x] {
      DistinctMultiplicity(a, x);
      DistinctMultiplicity(b, x);
    }
  }

  /** The devices come from ranging over a map: both reports are the same in every order. */
  lemma ReportsIgnoreOrder(a: seq<Device>, b: seq<Device>)
    requires DistinctDevices(a) && DistinctDevices(b)
    requires forall d :: d in a <==> d in b
    ensures PfReport(a) == PfReport(b) && SsaReport(a) == SsaReport(b)
  {
    SameElements(a, b);
    assert PfKeys(a) == PfKeys(b) && SsaKeys(a) == SsaKeys(b);
    forall k ensures PfEntry(a, k) == PfEntry(b, k) { SamePfEntry(a, b, k); }
    forall k | k in SsaKeys(a) ensures SsaHealth(a, k) == SsaHealth(b, k) { SameSsaHealth(a, b, k); }
  }
}
