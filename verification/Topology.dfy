/** The PCI topology: filtering it by presence or by health, and choosing the largest group of peers a
    tiered resource can offer. */
module Topology {
  import opened Strings
  import opened Types

  type Hops = map<string, int>

  /** Peers by tier: the hop count of every peer first reachable at that tier. */
  datatype Peers = Peers(peer0: Hops, peer1: Hops, peer2: Hops)

  datatype TopoDevice = TopoDevice(name: string, peers: Peers, vfPeers: Peers)

  type Devices = map<string, TopoDevice>

  datatype Pcitopo = Pcitopo(version: int, numDevices: int, devices: Devices, vfNumDevices: int, vfDevices: Devices)

  // ----- Filtering -----

  function KeepHops(m: Hops, keep: set<string>): Hops {
    map p | p in m && p in keep :: m[p]
  }

  function KeepPeers(p: Peers, keep: set<string>): Peers {
    Peers(KeepHops(p.peer0, keep), KeepHops(p.peer1, keep), KeepHops(p.peer2, keep))
  }

  /** The peer list the filters clean: a PF's peers, an isolated VF's VF peers. */
  function PeersOf(d: TopoDevice, vf: bool): Peers {
    if vf then d.vfPeers else d.peers
  }

  function Kept(d: TopoDevice, keep: set<string>, vf: bool): TopoDevice {
    if vf then d.(vfPeers := KeepPeers(d.vfPeers, keep)) else d.(peers := KeepPeers(d.peers, keep))
  }

  function KeptDevices(devices: Devices, keep: set<string>, vf: bool): Devices {
    map a | a in devices && a in keep :: Kept(devices[a], keep, vf)
  }

  /** The topology restricted to a set of addresses: devices and the peers they list. */
  function Restrict(t: Pcitopo, keep: set<string>): Pcitopo {
    var devices := KeptDevices(t.devices, keep, false);
    var vfs := KeptDevices(t.vfDevices, keep, true);
    Pcitopo(t.version, |devices|, devices, |vfs|, vfs)
  }

  /** A Go map of booleans read with a default of false. */
  function Trues(m: map<string, bool>): set<string> {
    set a | a in m && m[a]
  }

  /** Deletes the peers that are not kept, one by one. */
  method CleanHops(m: Hops, healthy: map<string, bool>) returns (r: Hops)
    ensures r == KeepHops(m, Trues(healthy))
  {
    r := m;
    var rest := m.Keys;
    while rest != {}
      invariant rest <= m.Keys && r == KeepHops(m, Trues(healthy) + rest)
    {
      var peer :| peer in rest;
      rest := rest - {peer};
      if !(peer in healthy && healthy[peer]) {
        r := r - {peer};
      }
    }
    assert Trues(healthy) + rest == Trues(healthy);
  }

  method CleanPeers(p: Peers, healthy: map<string, bool>) returns (r: Peers)
    ensures r == KeepPeers(p, Trues(healthy))
  {
    var p0 := CleanHops(p.peer0, healthy);
    var p1 := CleanHops(p.peer1, healthy);
    var p2 := CleanHops(p.peer2, healthy);
    r := Peers(p0, p1, p2);
  }

  /** The devices kept and then cleaned, for the PF map or the VF map. */
  method CleanDevices(devices: Devices, healthy: map<string, bool>, vf: bool) returns (r: Devices)
    ensures r == KeptDevices(devices, Trues(healthy), vf)
  {
    r := map[];
    var rest := devices.Keys;
    while rest != {}
      invariant rest <= devices.Keys
      invariant r == KeptDevices(devices, Trues(healthy), vf) - rest
    {
      var a :| a in rest;
      rest := rest - {a};
      if a in healthy && healthy[a] {
        var peers := CleanPeers(PeersOf(devices[a], vf), healthy);
        r := r[a := if vf then devices[a].(vfPeers := peers) else devices[a].(peers := peers)];
      }
    }
  }

  method FilterTopologyByDeviceHealth(original: Pcitopo, healthy: map<string, bool>) returns (t: Pcitopo)
    ensures t == Restrict(original, Trues(healthy))
  {
    var devices := CleanDevices(original.devices, healthy, false);
    var vfs := CleanDevices(original.vfDevices, healthy, true);
    t := original.(devices := devices, vfDevices := vfs, numDevices := |devices|, vfNumDevices := |vfs|);
  }

  /** The presence map: every listed device, and whether its device path exists. */
  function PresenceMap(t: Pcitopo, existing: set<string>): map<string, bool> {
    Presence(t.devices.Keys + t.vfDevices.Keys, existing)
  }

  /** Removes the missing devices of one map and notes which are present. */
  method DropMissing(devices: Devices, known: map<string, bool>, existing: set<string>)
      returns (r: Devices, present: map<string, bool>)
    requires forall a :: a in known ==> known[a] == (a in existing)
    ensures r == Among(devices, existing)
    ensures present == Presence(known.Keys + devices.Keys, existing)
  {
    r, present := devices, known;
    var rest := devices.Keys;
    ghost var done := {};
    assert r == Among(devices, existing + rest) && present == Presence(known.Keys + done, existing);
    while rest != {}
      invariant rest <= devices.Keys && done == devices.Keys - rest
      invariant r == Among(devices, existing + rest)
      invariant present == Presence(known.Keys + done, existing)
    {
      var a :| a in rest;
      DropOne(devices, existing, rest, a);
      PresenceOne(known.Keys + done, existing, a);
      rest, done := rest - {a}, done + {a};
      present := present[a := a in existing];
      if a !in existing {
        r := r - {a};
      }
      assert known.Keys + done == known.Keys + (done - {a}) + {a};
    }
    assert existing + rest == existing && done == devices.Keys;
  }

  function Among(devices: Devices, keep: set<string>): Devices {
    map a | a in devices && a in keep :: devices[a]
  }

  function Presence(keys: set<string>, existing: set<string>): map<string, bool> {
    map a | a in keys :: a in existing
  }

  lemma DropOne(devices: Devices, existing: set<string>, rest: set<string>, a: string)
    requires a in rest
    ensures Among(devices, existing + (rest - {a})) ==
            if a in existing then Among(devices, existing + rest) else Among(devices, existing + rest) - {a}
  {
  }

  lemma PresenceOne(keys: set<string>, existing: set<string>, a: string)
    ensures Presence(keys + {a}, existing) == Presence(keys, existing)[a := a in existing]
  {
  }

  /** The presence filter is the health filter applied to the presence map. */
  method FilterOutMissingDevices(t: Pcitopo, existing: set<string>) returns (r: Pcitopo)
    ensures r == Restrict(t, Trues(PresenceMap(t, existing)))
  {
    var devices, present := DropMissing(t.devices, map[], existing);
    var vfs;
    vfs, present := DropMissing(t.vfDevices, present, existing);
    assert present == PresenceMap(t, existing);
    assert Trues(present) <= existing;
    PresentOnly(t.devices, Trues(present), existing, false);
    PresentOnly(t.vfDevices, Trues(present), existing, true);
    devices := CleanDevices(devices, present, false);
    vfs := CleanDevices(vfs, present, true);
    r := t.(devices := devices, vfDevices := vfs, numDevices := |devices|, vfNumDevices := |vfs|);
  }

  lemma PresentOnly(devices: Devices, keep: set<string>, existing: set<string>, vf: bool)
    requires keep <= existing
    ensures KeptDevices(Among(devices, existing), keep, vf) == KeptDevices(devices, keep, vf)
  {
  }

  // ----- What filtering keeps -----

  /** The peers that are kept, with their hop counts. */
  predicate HopsKept(before: Hops, after: Hops, keep: set<string>) {
    && (forall p :: p in after ==> p in before && p in keep && after[p] == before[p])
    && (forall p :: p in before && p in keep ==> p in after)
  }

  predicate PeersKept(before: Peers, after: Peers, keep: set<string>) {
    HopsKept(before.peer0, after.peer0, keep) && HopsKept(before.peer1, after.peer1, keep) && HopsKept(before.peer2, after.peer2, keep)
  }

  /** The filtered topology device by device: those kept stay under their names, a PF loses only peers and an
      isolated VF only VF peers, tier by tier, and what stays keeps its hop count. */
  lemma RestrictSays(t: Pcitopo, keep: set<string>, a: string)
    ensures var r := Restrict(t, keep);
            && r.version == t.version && r.numDevices == |r.devices| && r.vfNumDevices == |r.vfDevices|
            && (a in r.devices <==> a in t.devices && a in keep)
            && (a in r.vfDevices <==> a in t.vfDevices && a in keep)
            && (a in r.devices ==>
                  && r.devices[a].name == t.devices[a].name && r.devices[a].vfPeers == t.devices[a].vfPeers
                  && PeersKept(t.devices[a].peers, r.devices[a].peers, keep))
            && (a in r.vfDevices ==>
                  && r.vfDevices[a].name == t.vfDevices[a].name && r.vfDevices[a].peers == t.vfDevices[a].peers
                  && PeersKept(t.vfDevices[a].vfPeers, r.vfDevices[a].vfPeers, keep))
  {
  }

  /** The presence map is true of exactly the listed devices whose path exists. */
  lemma PresenceSays(t: Pcitopo, existing: set<string>, a: string)
    ensures a in PresenceMap(t, existing) <==> a in t.devices || a in t.vfDevices
    ensures a in Trues(PresenceMap(t, existing)) <==> (a in t.devices || a in t.vfDevices) && a in existing
  {
  }

  function Listed(p: Peers): set<string> {
    p.peer0.Keys + p.peer1.Keys + p.peer2.Keys
  }

  predicate ListsOnly(devices: Devices, vf: bool, all: set<string>) {
    forall a :: a in devices ==> Listed(PeersOf(devices[a], vf)) <= all
  }

  /** Every peer a device still lists is a device that is still there. */
  predicate Closed(t: Pcitopo) {
    var all := t.devices.Keys + t.vfDevices.Keys;
    ListsOnly(t.devices, false, all) && ListsOnly(t.vfDevices, true, all)
  }

  /** No kept device lists a kept peer outside `all`. */
  predicate KnowsKept(devices: Devices, keep: set<string>, vf: bool, all: set<string>) {
    forall a :: a in devices && a in keep ==> Listed(PeersOf(devices[a], vf)) * keep <= all
  }

  lemma KeptListsOnly(devices: Devices, keep: set<string>, vf: bool, all: set<string>)
    ensures ListsOnly(KeptDevices(devices, keep, vf), vf, all * keep) <==> KnowsKept(devices, keep, vf, all)
  {
    var r := KeptDevices(devices, keep, vf);
    forall a | a in r
      ensures a in devices && a in keep
      ensures Listed(PeersOf(r[a], vf)) == Listed(PeersOf(devices[a], vf)) * keep
    {
      assert PeersOf(r[a], vf) == KeepPeers(PeersOf(devices[a], vf), keep);
    }
    assert forall a :: a in r <==> a in devices && a in keep;
  }

  /** A restriction is closed exactly when no kept device lists a kept peer the topology does not know. */
  lemma RestrictClosed(t: Pcitopo, keep: set<string>)
    ensures var all := t.devices.Keys + t.vfDevices.Keys;
            Closed(Restrict(t, keep)) <==>
            KnowsKept(t.devices, keep, false, all) && KnowsKept(t.vfDevices, keep, true, all)
  {
    var r, all := Restrict(t, keep), t.devices.Keys + t.vfDevices.Keys;
    assert r.devices.Keys + r.vfDevices.Keys == all * keep;
    KeptListsOnly(t.devices, keep, false, all);
    KeptListsOnly(t.vfDevices, keep, true, all);
  }

  function OneDevice(a: string, b: string): Pcitopo {
    var none := Peers(map[], map[], map[]);
    Pcitopo(0, 1, map[a := TopoDevice("", Peers(map[b := 1], map[], map[]), none)], 0, map[])
  }

  /** A healthy peer that is no device of the topology stays listed after the health filter. */
  lemma UnknownPeerStays(a: string, b: string)
    requires a != b
    ensures !Closed(Restrict(OneDevice(a, b), {a, b}))
  {
    var t := OneDevice(a, b);
    var all := t.devices.Keys + t.vfDevices.Keys;
    assert b in Listed(PeersOf(t.devices[a], false)) * {a, b} && b !in all;
    RestrictClosed(t, {a, b});
  }

  /** After the presence filter the topology is closed and its counts are the sizes of its maps. */
  lemma PresenceFilterClosed(t: Pcitopo, existing: set<string>)
    ensures var r := Restrict(t, Trues(PresenceMap(t, existing)));
            Closed(r) && r.numDevices == |r.devices| && r.vfNumDevices == |r.vfDevices|
  {
    RestrictClosed(t, Trues(PresenceMap(t, existing)));
  }

  /** Filtering twice is filtering by both, in either order. */
  lemma RestrictTwice(t: Pcitopo, a: set<string>, b: set<string>)
    ensures Restrict(Restrict(t, a), b) == Restrict(t, a * b)
    ensures Restrict(Restrict(t, a), b) == Restrict(Restrict(t, b), a)
  {
    RestrictOnce(t, a, b);
    RestrictOnce(t, b, a);
    assert a * b == b * a;
  }

  lemma RestrictOnce(t: Pcitopo, a: set<string>, b: set<string>)
    ensures Restrict(Restrict(t, a), b) == Restrict(t, a * b)
  {
    KeptTwice(t.devices, a, b, false);
    KeptTwice(t.vfDevices, a, b, true);
  }

  lemma KeptTwice(devices: Devices, a: set<string>, b: set<string>, vf: bool)
    ensures KeptDevices(KeptDevices(devices, a, vf), b, vf) == KeptDevices(devices, a * b, vf)
  {
    forall d | d in devices ensures Kept(Kept(devices[d], a, vf), b, vf) == Kept(devices[d], a * b, vf) {
      KeepPeersTwice(PeersOf(devices[d], vf), a, b);
    }
  }

  lemma KeepPeersTwice(p: Peers, a: set<string>, b: set<string>)
    ensures KeepPeers(KeepPeers(p, a), b) == KeepPeers(p, a * b)
  {
  }

  // ----- Tiers -----

  /** The peers a resource of the given tier may combine a device with. */
  function TierPeers(p: Peers, tier: nat): set<string> {
    p.peer0.Keys + (if tier >= 1 then p.peer1.Keys else {}) + (if tier >= 2 then p.peer2.Keys else {})
  }

  predicate Within(t: Pcitopo, tier: nat, a: string, b: string) {
    a in t.devices && b in TierPeers(t.devices[a].peers, tier)
  }

  ghost predicate Symmetric(t: Pcitopo, tier: nat) {
    forall a, b :: Within(t, tier, a, b) ==> Within(t, tier, b, a)
  }

  ghost predicate Transitive(t: Pcitopo, tier: nat) {
    forall a, b, c :: Within(t, tier, a, b) && Within(t, tier, b, c) && a != c ==> Within(t, tier, a, c)
  }

  lemma WithinKept(t: Pcitopo, keep: set<string>, tier: nat, a: string, b: string)
    ensures Within(Restrict(t, keep), tier, a, b) <==> Within(t, tier, a, b) && a in keep && b in keep
  {
  }

  predicate WithinVf(t: Pcitopo, tier: nat, a: string, b: string) {
    a in t.vfDevices && b in TierPeers(t.vfDevices[a].vfPeers, tier)
  }

  /** Isolated VFs too are within a tier after filtering exactly when they were before and both are kept. */
  lemma WithinVfKept(t: Pcitopo, keep: set<string>, tier: nat, a: string, b: string)
    ensures WithinVf(Restrict(t, keep), tier, a, b) <==> WithinVf(t, tier, a, b) && a in keep && b in keep
  {
  }

  /** A tier that is symmetric and transitive stays so when devices are filtered out. */
  lemma TiersSurviveFiltering(t: Pcitopo, keep: set<string>, tier: nat)
    requires Symmetric(t, tier) && Transitive(t, tier)
    ensures Symmetric(Restrict(t, keep), tier) && Transitive(Restrict(t, keep), tier)
  {
    var r := Restrict(t, keep);
    forall a, b | Within(r, tier, a, b) ensures Within(r, tier, b, a) {
      WithinKept(t, keep, tier, a, b);
      WithinKept(t, keep, tier, b, a);
    }
    forall a, b, c | Within(r, tier, a, b) && Within(r, tier, b, c) && a != c ensures Within(r, tier, a, c) {
      WithinKept(t, keep, tier, a, b);
      WithinKept(t, keep, tier, b, c);
      WithinKept(t, keep, tier, a, c);
    }
  }

  // ----- The largest group -----

  const TIER_ONE_SUFFIX := "_tier1"
  const TIER_TWO_SUFFIX := "_tier2"

  function TierOf(resourceName: string): nat {
    if HasSuffix(resourceName, TIER_ONE_SUFFIX) then 1
    else if HasSuffix(resourceName, TIER_TWO_SUFFIX) then 2
    else 0
  }

  /** A device that may be the centre of a group: offered, free and with peers at the tier. */
  predicate Candidate(t: Pcitopo, tier: nat, offered: set<string>, held: set<string>, c: string) {
    c in offered && c !in held && c in t.devices && TierPeers(t.devices[c].peers, tier) != {}
  }

  /** The free offered devices within the tier of a centre, and the centre itself. */
  function Group(t: Pcitopo, tier: nat, offered: set<string>, held: set<string>, c: string): set<string>
    requires c in t.devices
  {
    {c} + (TierPeers(t.devices[c].peers, tier) * offered - held)
  }

  /** Nothing, or some candidate's group, and no smaller than the group of any candidate seen. */
  predicate LargestOf(t: Pcitopo, tier: nat, offered: set<string>, held: set<string>, seen: set<string>, g: set<string>) {
    && (g == {} || exists c :: c in offered && Candidate(t, tier, offered, held, c) && g == Group(t, tier, offered, held, c))
    && forall c :: c in seen && Candidate(t, tier, offered, held, c) ==> |Group(t, tier, offered, held, c)| <= |g|
  }

  /** Nothing if there is no candidate; otherwise a group no candidate's group is larger than. */
  predicate LargestGroup(t: Pcitopo, tier: nat, offered: set<string>, held: set<string>, g: set<string>) {
    LargestOf(t, tier, offered, held, offered, g)
  }

  /** The group a candidate gives rise to, built as the loop builds it. */
  method ValidPeers(topo: Pcitopo, tier: nat, offered: map<string, ApiDevice>, self: map<string, bool>, dev: string)
      returns (peers: map<string, ApiDevice>)
    requires dev in topo.devices && dev in offered && dev !in Trues(self)
    ensures peers.Keys == Group(topo, tier, offered.Keys, Trues(self), dev)
    ensures forall d :: d in peers ==> d in offered && peers[d] == offered[d]
  {
    peers := map[dev := offered[dev]];
    var rest := TierPeers(topo.devices[dev].peers, tier);
    ghost var all := rest;
    while rest != {}
      invariant rest <= all
      invariant peers.Keys == {dev} + ((all - rest) * offered.Keys - Trues(self))
      invariant forall d :: d in peers ==> d in offered && peers[d] == offered[d]
    {
      var peer :| peer in rest;
      rest := rest - {peer};
      if !(peer in self && self[peer]) && peer in offered {
        peers := peers[peer := offered[peer]];
      }
    }
  }

  /** The selection loop: a running maximum over the offered devices, in whatever order they are ranged. */
  method LargestFreeGroup(topo: Pcitopo, tier: nat, offered: map<string, ApiDevice>, self: map<string, bool>)
      returns (best: map<string, ApiDevice>)
    ensures LargestGroup(topo, tier, offered.Keys, Trues(self), best.Keys)
    ensures forall d :: d in best ==> d in offered && best[d] == offered[d]
  {
    best := map[];
    var rest := offered.Keys;
    ghost var held := Trues(self);
    while rest != {}
      invariant rest <= offered.Keys
      invariant LargestOf(topo, tier, offered.Keys, held, offered.Keys - rest, best.Keys)
      invariant forall d :: d in best ==> d in offered && best[d] == offered[d]
    {
      var dev :| dev in rest;
      OneMoreCentre(topo, tier, offered.Keys, held, offered.Keys - rest, best.Keys, dev);
      assert offered.Keys - (rest - {dev}) == offered.Keys - rest + {dev};
      rest := rest - {dev};
      if !(dev in self && self[dev]) && dev in topo.devices && TierPeers(topo.devices[dev].peers, tier) != {} {
        var peers := ValidPeers(topo, tier, offered, self, dev);
        assert |peers| == |peers.Keys| && |best| == |best.Keys|;
        if |peers| > |best| {
          best := peers;
        }
      }
    }
    assert offered.Keys - rest == offered.Keys;
  }

  lemma OneMoreCentre(t: Pcitopo, tier: nat, offered: set<string>, held: set<string>, seen: set<string>, g: set<string>, c: string)
    requires LargestOf(t, tier, offered, held, seen, g)
    ensures LargestOf(t, tier, offered, held, seen + {c},
                      if Candidate(t, tier, offered, held, c) && |Group(t, tier, offered, held, c)| > |g|
                      then Group(t, tier, offered, held, c) else g)
  {
  }

  /** Adds the held devices that are still offered to the selection. */
  method AppendHeld(group: map<string, ApiDevice>, offered: map<string, ApiDevice>, self: map<string, bool>)
      returns (r: map<string, ApiDevice>)
    requires forall d :: d in group ==> d in offered && group[d] == offered[d]
    ensures r.Keys == group.Keys + Trues(self) * offered.Keys
    ensures forall d :: d in r ==> r[d] == offered[d]
  {
    r := group;
    var rest := self.Keys;
    while rest != {}
      invariant rest <= self.Keys
      invariant r.Keys == group.Keys + (Trues(self) - rest) * offered.Keys
      invariant forall d :: d in r ==> d in offered && r[d] == offered[d]
    {
      var dev :| dev in rest;
      rest := rest - {dev};
      if self[dev] && dev in offered {
        r := r[dev := offered[dev]];
      }
    }
  }

  // ----- The selection in terms of the resource's name -----

  /** Which peers count for a resource: those of tier 0 always, of tier 1 for the wider tiers, of tier 2 for
      the widest. */
  predicate Near(p: Peers, resourceName: string, b: string) {
    || b in p.peer0
    || (b in p.peer1 && (HasSuffix(resourceName, "_tier1") || HasSuffix(resourceName, "_tier2")))
    || (b in p.peer2 && HasSuffix(resourceName, "_tier2"))
  }

  predicate Free(self: map<string, bool>, d: string) {
    !(d in self && self[d])
  }

  /** A free offered device the topology knows with some peer that counts. */
  ghost predicate IsCentre(topo: Pcitopo, offered: map<string, ApiDevice>, self: map<string, bool>, resourceName: string, c: string) {
    c in offered && Free(self, c) && c in topo.devices && exists b :: Near(topo.devices[c].peers, resourceName, b)
  }

  /** The centre and the free offered peers that count for it. */
  function Around(topo: Pcitopo, offered: map<string, ApiDevice>, self: map<string, bool>, resourceName: string, c: string): set<string>
    requires c in topo.devices
  {
    set b | b in offered && (b == c || (Free(self, b) && Near(topo.devices[c].peers, resourceName, b)))
  }

  lemma TierSays(p: Peers, resourceName: string, b: string)
    ensures b in TierPeers(p, TierOf(resourceName)) <==> Near(p, resourceName, b)
  {
  }

  lemma CentreSays(topo: Pcitopo, offered: map<string, ApiDevice>, self: map<string, bool>, resourceName: string, c: string)
    ensures Candidate(topo, TierOf(resourceName), offered.Keys, Trues(self), c) <==> IsCentre(topo, offered, self, resourceName, c)
    ensures c in offered && c in topo.devices ==>
              Group(topo, TierOf(resourceName), offered.Keys, Trues(self), c) == Around(topo, offered, self, resourceName, c)
  {
    if c in topo.devices {
      var p := topo.devices[c].peers;
      forall b ensures b in TierPeers(p, TierOf(resourceName)) <==> Near(p, resourceName, b) {
        TierSays(p, resourceName, b);
      }
      assert forall b :: b in Trues(self) <==> !Free(self, b);
    }
  }

  /** For a loaded topology and a resource that is not a VF resource: the held devices still offered together
      with a group of free ones, which is empty or a centre with its peers that count, and no smaller than
      that of any centre. Otherwise the devices are returned as they are. */
  method GetMaxValidPeers(topo: Pcitopo, loaded: bool, deviceMap: map<string, ApiDevice>, resourceName: string,
                          self: map<string, bool>)
      returns (r: map<string, ApiDevice>, ghost free: set<string>)
    ensures !loaded || Contains(resourceName, "vf") ==> r == deviceMap
    ensures forall d :: d in r ==> d in deviceMap && r[d] == deviceMap[d]
    ensures loaded && !Contains(resourceName, "vf") ==>
              && (free == {} || exists c :: && IsCentre(topo, deviceMap, self, resourceName, c)
                                            && free == Around(topo, deviceMap, self, resourceName, c))
              && (forall c :: IsCentre(topo, deviceMap, self, resourceName, c) ==>
                    |Around(topo, deviceMap, self, resourceName, c)| <= |free|)
              && (forall d :: d in free ==> Free(self, d))
              && (forall d :: d in r <==> d in free || (d in deviceMap && !Free(self, d)))
              && LargestGroup(topo, TierOf(resourceName), deviceMap.Keys, Trues(self), free)
  {
    free := {};
    if !loaded || Contains(resourceName, "vf") {
      return deviceMap, free;
    }
    var group := LargestFreeGroup(topo, TierOf(resourceName), deviceMap, self);
    free := group.Keys;
    r := AppendHeld(group, deviceMap, self);
    forall c
      ensures Candidate(topo, TierOf(resourceName), deviceMap.Keys, Trues(self), c) <==> IsCentre(topo, deviceMap, self, resourceName, c)
      ensures c in deviceMap && c in topo.devices ==>
                Group(topo, TierOf(resourceName), deviceMap.Keys, Trues(self), c) == Around(topo, deviceMap, self, resourceName, c)
    {
      CentreSays(topo, deviceMap, self, resourceName, c);
    }
    assert forall d :: d in Trues(self) <==> !Free(self, d);
  }

  /** The size of the selection does not depend on the order the devices are ranged in. */
  lemma SelectionSizeIsDetermined(t: Pcitopo, tier: nat, offered: set<string>, held: set<string>, g: set<string>, h: set<string>)
    requires LargestGroup(t, tier, offered, held, g) && LargestGroup(t, tier, offered, held, h)
    ensures |g| == |h| && |g + held * offered| == |h + held * offered|
  {
    assert g !! held * offered && h !! held * offered;
    assert |g + held * offered| == |g| + |held * offered|;
    assert |h + held * offered| == |h| + |held * offered|;
    SizeAtMost(t, tier, tier, offered, held, g, h);
    SizeAtMost(t, tier, tier, offered, held, h, g);
  }

  lemma SubsetSize(a: set<string>, b: set<string>)
    requires a <= b
    ensures |a| <= |b|
  {
    assert |b - a| == |b| - |a|;
  }

  lemma SizeAtMost(t: Pcitopo, low: nat, high: nat, offered: set<string>, held: set<string>, g: set<string>, h: set<string>)
    requires low <= high && LargestGroup(t, low, offered, held, g) && LargestGroup(t, high, offered, held, h)
    ensures |g| <= |h|
  {
    if g != {} {
      var c :| c in offered && Candidate(t, low, offered, held, c) && g == Group(t, low, offered, held, c);
      assert TierPeers(t.devices[c].peers, low) <= TierPeers(t.devices[c].peers, high);
      assert Candidate(t, high, offered, held, c);
      SubsetSize(g, Group(t, high, offered, held, c));
    }
  }

  /** A wider tier never offers fewer devices. */
  lemma WiderTierNeverSmaller(t: Pcitopo, low: nat, high: nat, offered: set<string>, held: set<string>,
                              g: set<string>, h: set<string>)
    requires low <= high && LargestGroup(t, low, offered, held, g) && LargestGroup(t, high, offered, held, h)
    ensures |g| <= |h| && |g + held * offered| <= |h + held * offered|
  {
    assert g !! held * offered && h !! held * offered;
    assert |g + held * offered| == |g| + |held * offered|;
    assert |h + held * offered| == |h| + |held * offered|;
    SizeAtMost(t, low, high, offered, held, g, h);
  }

  predicate Clique(t: Pcitopo, tier: nat, g: set<string>) {
    forall a, b :: a in g && b in g && a != b ==> Within(t, tier, a, b)
  }

  /** No device of `free` within the tier of a member is left out. */
  predicate Absorbs(t: Pcitopo, tier: nat, g: set<string>, free: set<string>) {
    forall a, b :: a in g && b in free && Within(t, tier, a, b) ==> b in g
  }

  lemma GroupIsAClique(t: Pcitopo, tier: nat, offered: set<string>, held: set<string>, c: string)
    requires Symmetric(t, tier) && Transitive(t, tier) && c in t.devices
    ensures var g := Group(t, tier, offered, held, c); Clique(t, tier, g) && Absorbs(t, tier, g, offered - held)
  {
    var g := Group(t, tier, offered, held, c);
    forall b | b in g && b != c ensures Within(t, tier, c, b) && Within(t, tier, b, c) { }
    forall a, b | a in g && b in g && a != b ensures Within(t, tier, a, b) {
      if a != c && b != c { assert Within(t, tier, a, c) && Within(t, tier, c, b); }
    }
    forall a, b | a in g && b in offered - held && Within(t, tier, a, b) ensures b in g {
      if a != c && b != c { assert Within(t, tier, c, a) && Within(t, tier, a, b); }
    }
  }

  lemma CliqueBeforeFiltering(t: Pcitopo, healthy: set<string>, tier: nat, g: set<string>, free: set<string>)
    requires Clique(Restrict(t, healthy), tier, g) && Absorbs(Restrict(t, healthy), tier, g, free) && g <= healthy
    ensures Clique(t, tier, g) && Absorbs(t, tier, g, healthy * free)
  {
    forall a, b | a in g && b in g && a != b ensures Within(t, tier, a, b) {
      WithinKept(t, healthy, tier, a, b);
    }
    forall a, b | a in g && b in healthy * free && Within(t, tier, a, b) ensures b in g {
      WithinKept(t, healthy, tier, a, b);
    }
  }

  lemma PeersAreKept(t: Pcitopo, keep: set<string>, tier: nat, c: string)
    requires c in Restrict(t, keep).devices
    ensures c in keep && TierPeers(Restrict(t, keep).devices[c].peers, tier) <= keep
  {
  }

  lemma GroupIsHealthy(t: Pcitopo, healthy: set<string>, tier: nat, offered: set<string>, held: set<string>, c: string)
    requires Candidate(Restrict(t, healthy), tier, offered, held, c)
    ensures Group(Restrict(t, healthy), tier, offered, held, c) <= healthy * (offered - held)
  {
    PeersAreKept(t, healthy, tier, c);
  }

  /** On a filtered topology whose tier is an equivalence, the free group is made of healthy devices that
      are pairwise within the tier, and no free healthy device within the tier of one of them is missed. */
  lemma GroupIsAHealthyClique(t: Pcitopo, healthy: set<string>, tier: nat, offered: set<string>, held: set<string>, g: set<string>)
    requires Symmetric(t, tier) && Transitive(t, tier)
    requires LargestGroup(Restrict(t, healthy), tier, offered, held, g)
    ensures g <= healthy * (offered - held)
    ensures Clique(t, tier, g) && Absorbs(t, tier, g, healthy * (offered - held))
  {
    if g != {} {
      var r := Restrict(t, healthy);
      var c :| c in offered && Candidate(r, tier, offered, held, c) && g == Group(r, tier, offered, held, c);
      TiersSurviveFiltering(t, healthy, tier);
      GroupIsHealthy(t, healthy, tier, offered, held, c);
      GroupIsAClique(r, tier, offered, held, c);
      CliqueBeforeFiltering(t, healthy, tier, g, offered - held);
    }
  }
}
