/**
 * The slot router of `ValgAce`: up to four ACE units, four filament slots each,
 * numbered by one global slot index. `_build_slot_mapping` numbers the slots
 * densely over the configured device ids taken in ascending order; the helpers
 * `global_to_local` / `local_to_global` use the arithmetic `g / 4`, `g % 4` and
 * `4 * id + slot` instead. Device objects are represented by their ids.
 */
module Router {
  import opened Wrappers
  import opened Sets

  /** Filament slots on one unit. */
  const SlotsPerDevice: int := 4

  /** A device id with one of its local slots: a key of `_device_slot_to_global`. */
  datatype Placement = Placement(device: int, local: int)

  /** How many configured ids sort below `d`: the device's position in `sorted(devices)`. */
  function Rank(ids: set<int>, d: int): nat
  {
    |Lower(ids, d)|
  }

  function Lower(ids: set<int>, d: int): set<int>
  {
    set x | x in ids && x < d
  }

  /** The global slot the dense numbering gives to local slot `l` of device `d`. */
  function DenseSlot(ids: set<int>, d: int, l: int): int
  {
    SlotsPerDevice * Rank(ids, d) + l
  }

  /** A smaller configured id has a smaller rank. */
  lemma RankMonotone(ids: set<int>, a: int, b: int)
    requires a in ids && a < b
    ensures Rank(ids, a) < Rank(ids, b)
  {
    assert Lower(ids, a) <= Lower(ids, b);
    ProperSubsetSmaller(Lower(ids, a), Lower(ids, b), a);
  }

  /** Every configured id ranks below the number of ids. */
  lemma RankBound(ids: set<int>, d: int)
    requires d in ids
    ensures Rank(ids, d) < |ids|
  {
    ProperSubsetSmaller(Lower(ids, d), ids, d);
  }

  /**
   * The dense numbering is `4 * id + slot` for every configured device exactly when
   * the configured ids are 0 .. k - 1 (`serial`, `serial_1`, ... with no gap).
   */
  lemma DenseIsArithmeticIff(ids: set<int>)
    ensures (forall d :: d in ids ==> Rank(ids, d) == d) <==> ids == Below(|ids|)
  {
    if forall d :: d in ids ==> Rank(ids, d) == d {
      forall d | d in ids
        ensures d in Below(|ids|)
      {
        RankBound(ids, d);
      }
      BelowSize(|ids|);
      SubsetOfSameSize(ids, Below(|ids|));
    }
    if ids == Below(|ids|) {
      forall d | d in ids
        ensures Rank(ids, d) == d
      {
        assert Lower(ids, d) == Below(d);
        BelowSize(d);
      }
    }
  }

  /** With unit 1 configured alone, its first slot is global slot 0, not 4. */
  lemma GapShiftsNumbering()
    ensures DenseSlot({1}, 1, 0) == 0
  {
    assert Lower({1}, 1) == {};
  }

  /**
   * Tables `toDevice` and `toGlobal` cover the slots of the devices in `done` and
   * the first `k` slots of device `d`; they are mutual inverses, and every slot is
   * numbered densely by device rank among `ids`.
   */
  ghost predicate TablesCover(ids: set<int>, toDevice: map<int, Placement>, toGlobal: map<Placement, int>,
                              done: set<int>, d: int, k: int)
  {
    && (forall p :: p in toGlobal <==>
          (p.device in done && 0 <= p.local < SlotsPerDevice) || (p.device == d && 0 <= p.local < k))
    && (forall p :: p in toGlobal ==>
          toGlobal[p] == DenseSlot(ids, p.device, p.local) && toGlobal[p] in toDevice && toDevice[toGlobal[p]] == p)
    && (forall g :: g in toDevice ==> toDevice[g] in toGlobal && toGlobal[toDevice[g]] == g)
  }

  /** Entering local slot `k` of device `d` under its dense number extends the cover by that slot. */
  lemma CoverStep(ids: set<int>, toDevice: map<int, Placement>, toGlobal: map<Placement, int>,
                  done: set<int>, d: int, k: int, next: int)
    requires TablesCover(ids, toDevice, toGlobal, done, d, k)
    requires d !in done && 0 <= k && next == DenseSlot(ids, d, k) && next !in toDevice
    ensures TablesCover(ids, toDevice[next := Placement(d, k)], toGlobal[Placement(d, k) := next], done, d, k + 1)
  {
    var p := Placement(d, k);
    assert p !in toGlobal;
  }

  /** Once device `d` is fully entered, it joins the devices that are done. */
  lemma CoverDeviceDone(ids: set<int>, toDevice: map<int, Placement>, toGlobal: map<Placement, int>,
                        done: set<int>, d: int)
    requires TablesCover(ids, toDevice, toGlobal, done, d, SlotsPerDevice)
    ensures TablesCover(ids, toDevice, toGlobal, done + {d}, 0, 0)
  {
  }

  /** The least remaining id ranks after exactly the ids already done. */
  lemma LeastRemaining(ids: set<int>, remaining: set<int>, d: int)
    requires remaining <= ids && d in remaining
    requires forall x, y :: x in ids && x !in remaining && y in remaining ==> x < y
    requires forall x :: x in remaining ==> d <= x
    ensures Lower(ids, d) == ids - remaining
    ensures ids - (remaining - {d}) == (ids - remaining) + {d}
    ensures |ids - (remaining - {d})| == |ids - remaining| + 1
    ensures forall x, y :: x in ids && x !in remaining - {d} && y in remaining - {d} ==> x < y
  {
  }

  class ValgAce {
    /** The configured device ids (the keys of `self.devices`). */
    const devices: set<int>
    /** `_slot_to_device` */
    var slotToDevice: map<int, Placement>
    /** `_device_slot_to_global` */
    var deviceSlotToGlobal: map<Placement, int>
    /** `_total_slots` */
    var totalSlots: int

    ghost predicate Covers(done: set<int>, d: int, k: int)
      reads this
    {
      TablesCover(devices, slotToDevice, deviceSlotToGlobal, done, d, k)
    }

    /** The state `_build_slot_mapping` leaves: both tables built over every device, `4 * devices` slots. */
    ghost predicate Mapped()
      reads this
    {
      && totalSlots == SlotsPerDevice * |devices|
      && (forall g :: g in slotToDevice <==> 0 <= g < totalSlots)
      && Covers(devices, 0, 0)
    }

    constructor (ids: set<int>)
      ensures devices == ids && Mapped()
    {
      devices := ids;
      new;
      BuildSlotMapping();
    }

    /** `_build_slot_mapping`: device ids in ascending order, four consecutive global slots each. */
    method BuildSlotMapping()
      modifies this`slotToDevice, this`deviceSlotToGlobal, this`totalSlots
      ensures Mapped()
    {
      slotToDevice := map[];
      deviceSlotToGlobal := map[];
      var globalSlot := 0;
      var remaining := devices;
      while remaining != {}
        invariant remaining <= devices
        invariant forall x, y :: x in devices && x !in remaining && y in remaining ==> x < y
        invariant globalSlot == SlotsPerDevice * |devices - remaining|
        invariant forall g :: g in slotToDevice <==> 0 <= g < globalSlot
        invariant Covers(devices - remaining, 0, 0)
        decreases |remaining|
      {
        HasMinimum(remaining);
        var deviceId :| deviceId in remaining && forall x :: x in remaining ==> deviceId <= x;
        LeastRemaining(devices, remaining, deviceId);
        globalSlot := MapDevice(deviceId, devices - remaining, globalSlot);
        remaining := remaining - {deviceId};
      }
      assert devices - remaining == devices;
      totalSlots := globalSlot;
    }

    /** The inner loop of `_build_slot_mapping`: local slots 0 .. 3 of one device. */
    method MapDevice(deviceId: int, ghost done: set<int>, first: int) returns (next: int)
      requires deviceId in devices && deviceId !in done && done <= devices
      requires first == SlotsPerDevice * Rank(devices, deviceId)
      requires forall g :: g in slotToDevice <==> 0 <= g < first
      requires Covers(done, 0, 0)
      modifies this`slotToDevice, this`deviceSlotToGlobal
      ensures next == first + SlotsPerDevice
      ensures forall g :: g in slotToDevice <==> 0 <= g < next
      ensures Covers(done + {deviceId}, 0, 0)
    {
      next := first;
      var localSlot := 0;
      while localSlot < SlotsPerDevice
        invariant 0 <= localSlot <= SlotsPerDevice && next == first + localSlot
        invariant forall g :: g in slotToDevice <==> 0 <= g < next
        invariant Covers(done, deviceId, localSlot)
      {
        CoverStep(devices, slotToDevice, deviceSlotToGlobal, done, deviceId, localSlot, next);
        slotToDevice := slotToDevice[next := Placement(deviceId, localSlot)];
        deviceSlotToGlobal := deviceSlotToGlobal[Placement(deviceId, localSlot) := next];
        next := next + 1;
        localSlot := localSlot + 1;
      }
      CoverDeviceDone(devices, slotToDevice, deviceSlotToGlobal, done, deviceId);
    }

    /** `get_device_and_slot`: `(None, -1)` for a slot outside the table or a device that is not configured. */
    function GetDeviceAndSlot(globalSlot: int): (r: (Option<int>, int))
      reads this
      ensures r.0.None? <==> globalSlot !in slotToDevice || slotToDevice[globalSlot].device !in devices
      ensures r.0.None? ==> r.1 == -1
      ensures r.0.Some? ==> slotToDevice[globalSlot] == Placement(r.0.value, r.1)
    {
      if globalSlot !in slotToDevice then (None, -1)
      else
        var p := slotToDevice[globalSlot];
        if p.device !in devices then (None, -1) else (Some(p.device), p.local)
    }

    /** `get_global_slot`: `-1` for a pair that is not in the table. */
    function GetGlobalSlot(deviceId: int, localSlot: int): (g: int)
      reads this
      ensures Placement(deviceId, localSlot) !in deviceSlotToGlobal ==> g == -1
    {
      var p := Placement(deviceId, localSlot);
      if p in deviceSlotToGlobal then deviceSlotToGlobal[p] else -1
    }

    /** `global_to_local`: `None` where the source raises `ValueError`. */
    function GlobalToLocal(globalSlot: int): (r: Option<Placement>)
      reads this
      ensures r.Some? <==> 0 <= globalSlot < totalSlots
      ensures r.Some? ==> SlotsPerDevice * r.value.device + r.value.local == globalSlot && 0 <= r.value.local < SlotsPerDevice
    {
      if globalSlot < 0 || globalSlot >= totalSlots then None
      else Some(Placement(globalSlot / SlotsPerDevice, globalSlot % SlotsPerDevice))
    }

    /** `local_to_global`: `None` where the source raises `ValueError`. */
    function LocalToGlobal(deviceId: int, localSlot: int): (r: Option<int>)
      ensures r.Some? <==> deviceId in devices && 0 <= localSlot < SlotsPerDevice
      ensures r.Some? ==> r.value / SlotsPerDevice == deviceId && r.value % SlotsPerDevice == localSlot
    {
      if deviceId !in devices then None
      else if localSlot < 0 || localSlot > 3 then None
      else Some(deviceId * SlotsPerDevice + localSlot)
    }

    /** Every global slot of the table leads to a configured device and back to the same slot. */
    lemma SlotLeadsBack(globalSlot: int)
      requires Mapped() && 0 <= globalSlot < totalSlots
      ensures var (device, local) := GetDeviceAndSlot(globalSlot);
              device.Some? && device.value in devices && 0 <= local < SlotsPerDevice &&
              GetGlobalSlot(device.value, local) == globalSlot
    {
    }

    /** Every slot of a configured device has a global slot in range that leads back to it. */
    lemma PlacementLeadsBack(deviceId: int, localSlot: int)
      requires Mapped() && deviceId in devices && 0 <= localSlot < SlotsPerDevice
      ensures var g := GetGlobalSlot(deviceId, localSlot);
              0 <= g < totalSlots && g == DenseSlot(devices, deviceId, localSlot) &&
              GetDeviceAndSlot(g) == (Some(deviceId), localSlot)
    {
    }

    /** Lookups of unknown keys answer `(None, -1)` and `-1` instead of raising. */
    lemma UnknownKeys(globalSlot: int, deviceId: int, localSlot: int)
      requires Mapped()
      ensures !(0 <= globalSlot < totalSlots) ==> GetDeviceAndSlot(globalSlot) == (None, -1)
      ensures !(deviceId in devices && 0 <= localSlot < SlotsPerDevice) ==> GetGlobalSlot(deviceId, localSlot) == -1
    {
    }

    /**
     * `local_to_global` agrees with `_device_slot_to_global` on every configured
     * slot exactly when the configured ids are 0 .. k - 1.
     */
    lemma ArithmeticAgreesIff()
      requires Mapped()
      ensures (forall d, l :: d in devices && 0 <= l < SlotsPerDevice ==> LocalToGlobal(d, l) == Some(GetGlobalSlot(d, l)))
              <==> devices == Below(|devices|)
    {
      DenseIsArithmeticIff(devices);
      forall d, l | d in devices && 0 <= l < SlotsPerDevice
        ensures LocalToGlobal(d, l) == Some(GetGlobalSlot(d, l)) <==> Rank(devices, d) == d
      {
        PlacementLeadsBack(d, l);
      }
      if forall d, l :: d in devices && 0 <= l < SlotsPerDevice ==> LocalToGlobal(d, l) == Some(GetGlobalSlot(d, l)) {
        forall d | d in devices
          ensures Rank(devices, d) == d
        {
          assert LocalToGlobal(d, 0) == Some(GetGlobalSlot(d, 0));
        }
      }
    }

    /**
     * With unit 1 configured alone, `local_to_global(1, 0)` is 4, which the table
     * does not know and `global_to_local` rejects; the table numbers that slot 0.
     */
    lemma GapBreaksArithmetic()
      requires Mapped() && devices == {1}
      ensures GetGlobalSlot(1, 0) == 0
      ensures LocalToGlobal(1, 0) == Some(4) && GlobalToLocal(4) == None && GetDeviceAndSlot(4) == (None, -1)
    {
      GapShiftsNumbering();
    }
  }
}
