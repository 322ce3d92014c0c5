/** The plugin's mutable objects: a resource pool with its two allocation maps, and the shared info
    that owns the ledger and the reservation table. Each method is tied to the value it computes in
    module Ledger. */
module SharedInfo {
  import opened Strings
  import opened Types
  import opened Ledger
  import opened LedgerRuns

  class ResourcePool {
    const name: string
    const devices: map<string, ApiDevice>
    var otherAllocation: map<string, bool>
    var selfAllocation: map<string, bool>

    /** Pools are built with every device filed under its own ID. */
    constructor (name: string, devices: map<string, ApiDevice>)
      requires forall d :: d in devices ==> devices[d].id == d
      ensures View() == Pool(name, devices, map[], map[]) && Keyed()
    {
      this.name, this.devices := name, devices;
      otherAllocation, selfAllocation := map[], map[];
    }

    predicate Keyed() {
      forall d :: d in devices ==> devices[d].id == d
    }

    function View(): Pool
      reads this
    {
      Pool(name, devices, otherAllocation, selfAllocation)
    }

    /** Returns exactly what the pool may offer, whatever order the device map is ranged in. */
    method GetDevices() returns (available: map<string, ApiDevice>)
      requires Keyed()
      ensures available == Advertised(View())
    {
      available := map[];
      var rest := devices.Keys;
      while rest != {}
        invariant rest <= devices.Keys
        invariant available == map d | d in devices && d !in rest && d !in Marked(otherAllocation) :: devices[d]
      {
        var id :| id in rest;
        rest := rest - {id};
        var dev := devices[id];
        if !(dev.id in otherAllocation && otherAllocation[dev.id]) {
          available := available[id := dev];
        }
      }
    }

    /** The copy kubelet-facing code works on: the pool's own map is not handed out. */
    method GetSelfAllocation() returns (copied: map<string, bool>)
      ensures copied == selfAllocation
    {
      copied := map[];
      var rest := selfAllocation.Keys;
      while rest != {}
        invariant rest <= selfAllocation.Keys
        invariant copied == map d | d in selfAllocation && d !in rest :: selfAllocation[d]
      {
        var dev :| dev in rest;
        rest := rest - {dev};
        copied := copied[dev := selfAllocation[dev]];
      }
    }

    /** The anonymous de-allocation test: does the list mention a device the pool holds itself? */
    method HoldsAny(deviceList: seq<string>) returns (holds: bool)
      ensures holds <==> exists d :: d in deviceList && d in Marked(selfAllocation)
    {
      for i := 0 to |deviceList|
        invariant forall j :: 0 <= j < i ==> deviceList[j] !in Marked(selfAllocation)
      {
        if deviceList[i] in selfAllocation && selfAllocation[deviceList[i]] {
          assert deviceList[i] in Marked(selfAllocation);
          return true;
        }
      }
      return false;
    }

    /** The update loop over one of the two maps. */
    method MarkAll(m: map<string, bool>, deviceList: seq<string>, taken: bool)
        returns (r: map<string, bool>, changed: bool)
      ensures r == SetAll(m, Elems(deviceList) * devices.Keys, taken)
      ensures changed <==> Marked(r) != Marked(m)
    {
      r, changed := m, false;
      ghost var witnessed := "";
      for i := 0 to |deviceList|
        invariant r == SetAll(m, Elems(deviceList[..i]) * devices.Keys, taken)
        invariant !changed ==> r == m
        invariant changed ==> witnessed in Marked(r) + Marked(m) && !(witnessed in Marked(r) * Marked(m))
        invariant changed ==> witnessed in deviceList[..i] && witnessed in devices
      {
        var d := deviceList[i];
        assert deviceList[..i + 1] == deviceList[..i] + [d];
        ghost var done := Elems(deviceList[..i]) * devices.Keys;
        if d in devices {
          assert Elems(deviceList[..i + 1]) * devices.Keys == done + {d};
          SetOneMore(m, done, d, taken);
          if (d !in r && taken) || (d in r && r[d] != taken) {
            changed, witnessed := true, d;
            r := r[d := taken];
          }
        } else {
          assert Elems(deviceList[..i + 1]) * devices.Keys == done;
        }
      }
      assert deviceList[..|deviceList|] == deviceList;
    }

    /** Reports a change exactly when the set of devices the pool believes allocated changes. */
    method InformedBySharedInfo(deviceList: seq<string>, taken: bool, self: bool) returns (changed: bool)
      modifies this
      ensures View() == Informed(old(View()), deviceList, taken, self)
      ensures changed <==> (Marked(selfAllocation), Marked(otherAllocation)) !=
                           (old(Marked(selfAllocation)), old(Marked(otherAllocation)))
    {
      var useSelf := self;
      if !self && !taken {
        useSelf := HoldsAny(deviceList);
      }
      if useSelf {
        selfAllocation, changed := MarkAll(selfAllocation, deviceList, taken);
      } else {
        otherAllocation, changed := MarkAll(otherAllocation, deviceList, taken);
      }
    }
  }

  class SpyreDeviceSharedInfo {
    var servers: seq<ResourcePool>
    var allocation: Allocations
    var reservedPathWithTime: map<string, int>

    constructor ()
      ensures Valid() && View() == State(map[], [], map[])
    {
      servers, allocation, reservedPathWithTime := [], map[], map[];
    }

    ghost predicate Valid()
      reads this
    {
      forall i, j :: 0 <= i < j < |servers| ==> servers[i] != servers[j]
    }

    ghost function PoolViews(): seq<Pool>
      reads this, servers
    {
      seq(|servers|, i requires 0 <= i < |servers| reads this, servers => servers[i].View())
    }

    ghost function View(): State
      reads this, servers
    {
      State(allocation, PoolViews(), reservedPathWithTime)
    }

    method AddServer(server: ResourcePool)
      requires Valid() && server !in servers
      requires server.otherAllocation == map[] && server.selfAllocation == map[]
      modifies this
      ensures Valid() && servers == old(servers) + [server]
      ensures Next(old(View()), Message.AddServer(server.name, server.devices), View())
    {
      servers := servers + [server];
      assert PoolViews() == old(PoolViews()) + [server.View()];
    }

    method Notify(resourceName: string, deviceList: seq<string>, taken: bool)
      requires Valid()
      modifies servers
      ensures PoolViews() == Ledger.Notify(old(PoolViews()), resourceName, deviceList, taken)
    {
      for i := 0 to |servers|
        invariant forall j :: 0 <= j < i ==>
                    servers[j].View() == NotifyPool(old(servers[j].View()), resourceName, deviceList, taken)
        invariant forall j :: i <= j < |servers| ==> servers[j].View() == old(servers[j].View())
      {
        var server := servers[i];
        if server.name == resourceName {
          if IsTopologyAware(resourceName) {
            var _ := server.InformedBySharedInfo(deviceList, taken, true);
          }
        } else {
          var _ := server.InformedBySharedInfo(deviceList, taken, false);
        }
      }
    }

    /** The scan of the device list: what conflicts, grouped by holder, and whether a duplicate stopped it. */
    method Scan(info: AllocationInfo) returns (conflicts: map<string, seq<string>>, duplicate: bool)
      ensures conflicts == Collected(allocation, info)
      ensures duplicate == FindsDuplicate(allocation, info)
    {
      conflicts, duplicate := map[], false;
      var ds := info.deviceIDs;
      var i := 0;
      while i < |ds| && !duplicate
        invariant 0 <= i <= |ds|
        invariant conflicts == Conflicts(allocation, info.resourceName, ds[..i])
        invariant forall j :: 0 <= j < i ==> !IsDuplicate(allocation, info, ds[j])
        invariant duplicate ==> i < |ds| && IsDuplicate(allocation, info, ds[i])
        decreases |ds| - i, !duplicate
      {
        var d := ds[i];
        assert ds[..i + 1][..i] == ds[..i];
        if d in allocation {
          var exist := allocation[d];
          if exist.resourceName == info.resourceName {
            if exist.mountPoints == info.mountPoints { duplicate := true; }
          } else {
            conflicts := conflicts[exist.resourceName := Lookup(conflicts, exist.resourceName) + [d]];
          }
        }
        if !duplicate { i := i + 1; }
      }
      ScannedUnique(allocation, info, ds, i);
    }

    /** De-allocates the conflicting devices from their holders, in whatever order the map is ranged. */
    method ReleaseConflicts(conflicts: map<string, seq<string>>) returns (ghost order: seq<string>)
      requires Valid()
      modifies servers
      ensures IsRangeOrder(order, conflicts)
      ensures PoolViews() == Takeover(old(PoolViews()), conflicts, order)
    {
      order := [];
      var rest := conflicts.Keys;
      assert PoolViews() == Takeover(old(PoolViews()), conflicts, order);
      while rest != {}
        invariant rest <= conflicts.Keys && Elems(order) == conflicts.Keys - rest
        invariant forall i, j :: 0 <= i < j < |order| ==> order[i] != order[j]
        invariant PoolViews() == Takeover(old(PoolViews()), conflicts, order)
      {
        var r :| r in rest;
        rest := rest - {r};
        assert r !in Elems(order);
        Notify(r, conflicts[r], false);
        TakeoverOneMore(old(PoolViews()), conflicts, order, r);
        assert Elems(order + [r]) == Elems(order) + {r};
        order := order + [r];
      }
    }

    method Record(info: AllocationInfo)
      modifies this`allocation
      ensures allocation == AssignAll(old(allocation), info.deviceIDs, info)
    {
      for i := 0 to |info.deviceIDs|
        invariant allocation == AssignAll(old(allocation), info.deviceIDs[..i], info)
      {
        allocation := allocation[info.deviceIDs[i] := info];
      }
      assert info.deviceIDs[..|info.deviceIDs|] == info.deviceIDs;
    }

    /** Takes conflicting devices over, then records and announces the allocation unless it is a repeat. */
    method UpdateAllocation(info: AllocationInfo) returns (ghost order: seq<string>)
      requires Valid()
      modifies this`allocation, servers
      ensures IsRangeOrder(order, Collected(old(allocation), info))
      ensures View() == Ledger.UpdateAllocation(old(View()), info, order)
    {
      var conflicts, duplicate := Scan(info);
      order := ReleaseConflicts(conflicts);
      ghost var freed := PoolViews();
      if !duplicate {
        Record(info);
        assert PoolViews() == freed;
        Notify(info.resourceName, info.deviceIDs, true);
      }
    }

    method ReservePaths(paths: seq<string>, now: int)
      modifies this`reservedPathWithTime
      ensures reservedPathWithTime == Reserve(old(reservedPathWithTime), paths, now)
    {
      for i := 0 to |paths|
        invariant reservedPathWithTime == Reserve(old(reservedPathWithTime), paths[..i], now)
      {
        reservedPathWithTime := reservedPathWithTime[paths[i] := now];
      }
      assert paths[..|paths|] == paths;
    }

    method HandleAllocated(info: AllocationInfo, mountsExist: bool, now: int)
      requires Valid()
      modifies this`allocation, this`reservedPathWithTime, servers
      ensures Next(old(View()), Allocate(info, mountsExist, now), View())
    {
      if info.deviceIDs == [] || info.mountPoints == [] || !mountsExist {
        return;
      }
      var sorted := info.(mountPoints := Sort(info.mountPoints));
      ghost var order := UpdateAllocation(sorted);
      ReservePaths(sorted.mountPoints, now);
      SortElems(info.mountPoints);
      ReserveSamePaths(old(reservedPathWithTime), sorted.mountPoints, info.mountPoints, now);
      assert View() == Ledger.UpdateAllocation(old(View()), Normalised(info), order)
                       .(reserved := NextReserved(old(View()).reserved, Allocate(info, mountsExist, now)));
    }

    method DeleteAllocation(info: DeallocationInfo)
      requires Valid()
      modifies this`allocation, servers
      ensures View() == Ledger.DeleteAllocation(old(View()), info)
    {
      for i := 0 to |info.deviceIDs|
        invariant allocation == old(allocation) - Elems(info.deviceIDs[..i])
        invariant PoolViews() == old(PoolViews())
      {
        assert Elems(info.deviceIDs[..i + 1]) == Elems(info.deviceIDs[..i]) + {info.deviceIDs[i]};
        allocation := allocation - {info.deviceIDs[i]};
      }
      assert info.deviceIDs[..|info.deviceIDs|] == info.deviceIDs;
      Notify(info.resourceName, info.deviceIDs, false);
    }

    method ClaimMountedPaths(mntHostPaths: seq<string>)
      requires Valid()
      modifies this`reservedPathWithTime
      ensures Next(old(View()), Claim(mntHostPaths), View())
    {
      for i := 0 to |mntHostPaths|
        invariant reservedPathWithTime == old(reservedPathWithTime) - Elems(mntHostPaths[..i])
      {
        assert Elems(mntHostPaths[..i + 1]) == Elems(mntHostPaths[..i]) + {mntHostPaths[i]};
        reservedPathWithTime := reservedPathWithTime - {mntHostPaths[i]};
      }
      assert mntHostPaths[..|mntHostPaths|] == mntHostPaths;
      assert PoolViews() == old(PoolViews());
    }

    /** One tick of `periodicClean`; `released` are the paths handed to the forced de-allocation. */
    method PeriodicClean(at: int, existing: set<string>) returns (released: set<string>)
      requires Valid()
      modifies this`reservedPathWithTime
      ensures released == ForceReleased(old(reservedPathWithTime), at, existing)
      ensures Next(old(View()), Tick(at, existing), View())
    {
      released := {};
      var newMap: map<string, int> := map[];
      var rest := reservedPathWithTime.Keys;
      while rest != {}
        invariant rest <= reservedPathWithTime.Keys
        invariant released == ForceReleased(reservedPathWithTime, at, existing) - rest
        invariant newMap == Kept(reservedPathWithTime, at, existing) - rest
      {
        var path :| path in rest;
        rest := rest - {path};
        if path in existing {
          if at - reservedPathWithTime[path] > WAIT_BEFORE_CLEAN_UNCLAIM {
            released := released + {path};
          } else {
            newMap := newMap[path := reservedPathWithTime[path]];
          }
        }
      }
      reservedPathWithTime := newMap;
      assert PoolViews() == old(PoolViews());
    }

    /** The select loop, fed with the messages and ticks in the order they are taken: its states are a
        run in the sense of module LedgerRuns. */
    method Run(msgs: seq<Message>) returns (ghost states: seq<State>)
      requires Valid() && forall m :: m in msgs ==> !m.AddServer?
      modifies this`allocation, this`reservedPathWithTime, servers
      ensures IsRun(states, msgs) && states[0] == old(View()) && states[|msgs|] == View()
    {
      states := [View()];
      for i := 0 to |msgs|
        invariant IsRun(states, msgs[..i]) && states[0] == old(View()) && states[i] == View()
      {
        assert msgs[i] in msgs;
        match msgs[i] {
          case Allocate(info, mountsExist, now) => HandleAllocated(info, mountsExist, now);
          case Deallocate(info) => if info.deviceIDs != [] { DeleteAllocation(info); }
          case Claim(paths) => ClaimMountedPaths(paths);
          case Tick(at, existing) => var _ := PeriodicClean(at, existing);
        }
        assert msgs[..i + 1] == msgs[..i] + [msgs[i]];
        states := states + [View()];
      }
      assert msgs[..|msgs|] == msgs;
    }
  }

  /** One iteration of the update loop, where the map already holds the value or does not. */
  lemma SetOneMore(m: map<string, bool>, done: set<string>, d: string, taken: bool)
    ensures var r := SetAll(m, done, taken);
            SetAll(m, done + {d}, taken) ==
            if (d !in r && taken) || (d in r && r[d] != taken) then r[d := taken] else r
  {
  }

  lemma TakeoverOneMore(ps: seq<Pool>, c: map<string, seq<string>>, order: seq<string>, r: string)
    requires r in c
    ensures Ledger.Notify(Takeover(ps, c, order), r, c[r], false) == Takeover(ps, c, order + [r])
  {
  }

  lemma ReserveSamePaths(reserved: map<string, int>, a: seq<string>, b: seq<string>, now: int)
    requires Elems(a) == Elems(b)
    ensures Reserve(reserved, a, now) == Reserve(reserved, b, now)
  {
    assert forall p :: p in a <==> p in Elems(a);
    assert forall p :: p in b <==> p in Elems(b);
  }

  lemma ScannedUnique(l: Allocations, info: AllocationInfo, ds: seq<string>, k: nat)
    requires k <= |ds|
    requires forall i :: 0 <= i < k ==> !IsDuplicate(l, info, ds[i])
    requires k < |ds| ==> IsDuplicate(l, info, ds[k])
    ensures Scanned(l, info, ds) == k
  {
  }
}
