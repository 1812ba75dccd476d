/**
 * The driver-to-controller logic of the smart_drive_info table: the sorted,
 * duplicate-free list of storage-controller drivers, the choice of the
 * smartctl device type from that list, and the walk that decides which
 * (device, type, id) triples are handed to the per-device handler.
 * udev enumeration and libsmartctl are outside the model: the PCI devices,
 * the block devices and the identification probe are parameters.
 */
module SmartDrives {
  import opened Text

  // ---------------------------------------------------------------------
  // The sorted, duplicate-free driver list
  // ---------------------------------------------------------------------

  /** Strictly increasing under std::string's operator<, hence free of duplicates. */
  predicate StrictlySorted(s: seq<string>)
  {
    forall i, j :: 0 <= i < j < |s| ==> Less(s[i], s[j])
  }

  /** std::lower_bound: binary search for the first element not less than x. */
  method LowerBound(s: seq<string>, x: string) returns (i: nat)
    requires StrictlySorted(s)
    ensures i <= |s|
    ensures forall k :: 0 <= k < i ==> Less(s[k], x)
    ensures forall k :: i <= k < |s| ==> !Less(s[k], x)
  {
    var lo, hi := 0, |s|;
    while lo < hi
      invariant 0 <= lo <= hi <= |s|
      invariant forall k :: 0 <= k < lo ==> Less(s[k], x)
      invariant forall k :: hi <= k < |s| ==> !Less(s[k], x)
      decreases hi - lo
    {
      var mid := (lo + hi) / 2;
      if Less(s[mid], x) {
        forall k | 0 <= k < mid ensures Less(s[k], x) {
          LessTransitive(s[k], s[mid], x);
        }
        lo := mid + 1;
      } else {
        forall k | mid < k < |s| ensures !Less(s[k], x) {
          if Less(s[k], x) {
            LessTransitive(s[mid], s[k], x);
          }
        }
        hi := mid;
      }
    }
    i := lo;
  }

  /**
   * The insert of getStorageCtlerClassDrivers: find the lower bound of the
   * driver name and insert it there unless it is already present. The list
   * stays strictly sorted, gains exactly the name, and is unchanged when the
   * name was already in it.
   */
  method InsertDriver(results: seq<string>, driverName: string) returns (r: seq<string>)
    requires StrictlySorted(results)
    ensures StrictlySorted(r)
    ensures forall x :: x in r <==> x in results || x == driverName
    ensures driverName in results ==> r == results
    ensures |r| == if driverName in results then |results| else |results| + 1
  {
    var i := LowerBound(results, driverName);
    if i == |results| || Less(driverName, results[i]) {
      assert driverName !in results by {
        forall k | 0 <= k < |results| ensures results[k] != driverName {
          if k < i {
            LessIrreflexive(driverName);
          } else if k == i {
            LessIrreflexive(driverName);
          } else {
            LessTransitive(driverName, results[i], results[k]);
            LessIrreflexive(driverName);
          }
        }
      }
      r := results[..i] + [driverName] + results[i..];
      forall a, b | 0 <= a < b < |r| ensures Less(r[a], r[b]) {
        if b < i || a > i {
          assert r[a] == results[if a < i then a else a - 1];
          assert r[b] == results[if b < i then b else b - 1];
        } else if a == i {
          assert r[b] == results[b - 1];
          if b - 1 > i {
            LessTransitive(driverName, results[i], results[b - 1]);
          }
        } else if b == i {
          assert r[a] == results[a];
        } else {
          assert r[a] == results[a] && r[b] == results[b - 1];
        }
      }
      assert forall x :: x in r <==> x in results[..i] || x == driverName || x in results[i..];
      assert results == results[..i] + results[i..];
    } else {
      LessTotal(driverName, results[i]);
      r := results;
    }
  }

  /** A PCI device as udev describes it: its class from the PCI database and its driver. */
  datatype PciDevice = PciDevice(pciClass: string, driver: string)

  const MassStorage: string := "Mass storage controller"

  /**
   * getStorageCtlerClassDrivers over the enumerated PCI devices: the drivers
   * of the mass-storage controllers, strictly sorted and without duplicates.
   */
  method StorageControllerDrivers(pcis: seq<PciDevice>) returns (results: seq<string>)
    ensures StrictlySorted(results)
    ensures forall x :: x in results <==> exists k :: 0 <= k < |pcis| && pcis[k].pciClass == MassStorage && pcis[k].driver == x
  {
    results := [];
    for i := 0 to |pcis|
      invariant StrictlySorted(results)
      invariant forall x :: x in results <==> exists k :: 0 <= k < i && pcis[k].pciClass == MassStorage && pcis[k].driver == x
    {
      if pcis[i].pciClass == MassStorage {
        results := InsertDriver(results, pcis[i].driver);
      }
    }
  }

  // ---------------------------------------------------------------------
  // getSmartCtlDeviceType
  // ---------------------------------------------------------------------

  /** A hardware RAID controller's smartctl type prefix and the number of device ids it takes. */
  datatype HwSmartCtl = HwSmartCtl(driver: string, maxId: int)

  /** Software controllers: the devices are addressed directly, the type only matters next to a hardware one. */
  const SWDriverToClter: map<string, string> := map["ahci" := "sat"]

  const HWDriverToClter: map<string, HwSmartCtl> :=
    map["megaraid_sas" := HwSmartCtl("megaraid,", 127), "hpsa" := HwSmartCtl("cciss,", 14)]

  /** The result and the two in-out parameters of getSmartCtlDeviceType. */
  datatype DeviceType = DeviceType(ok: bool, devType: string, count: int)

  /** The combinations of drivers smartctl can be driven for. */
  predicate Supported(drivers: seq<string>)
  {
    || (|drivers| == 1 && (drivers[0] in SWDriverToClter || drivers[0] in HWDriverToClter))
    || (|drivers| == 2 && drivers[0] in SWDriverToClter && drivers[1] in HWDriverToClter)
    || (|drivers| == 2 && drivers[1] in SWDriverToClter && drivers[0] in HWDriverToClter)
  }

  /**
   * getSmartCtlDeviceType as written: for a software driver alone the type
   * is cleared, for a hardware one it is the controller's prefix with its id
   * count, for a software driver followed by a hardware one it is the two
   * joined by '+'. The hardware-then-software pair sets the type and count
   * and then falls through into the default branch, which reports failure.
   */
  function SmartCtlDeviceType(drivers: seq<string>, devType: string, count: int): DeviceType
  {
    if |drivers| == 1 then
      if drivers[0] in SWDriverToClter then DeviceType(true, "", count)
      else if drivers[0] in HWDriverToClter then
        DeviceType(true, HWDriverToClter[drivers[0]].driver, HWDriverToClter[drivers[0]].maxId)
      else DeviceType(false, devType, count)
    else if |drivers| == 2 then
      if drivers[0] in SWDriverToClter && drivers[1] in HWDriverToClter then
        DeviceType(true, SWDriverToClter[drivers[0]] + "+" + HWDriverToClter[drivers[1]].driver,
                   HWDriverToClter[drivers[1]].maxId)
      else if drivers[1] in SWDriverToClter && drivers[0] in HWDriverToClter then
        DeviceType(false, SWDriverToClter[drivers[1]] + "+" + HWDriverToClter[drivers[0]].driver,
                   HWDriverToClter[drivers[0]].maxId)
      else DeviceType(false, devType, count)
    else DeviceType(false, devType, count)
  }

  /** getSmartCtlDeviceType with the hardware-then-software pair accepted like the other order. */
  function DeviceTypeFor(drivers: seq<string>, devType: string, count: int): DeviceType
  {
    var r := SmartCtlDeviceType(drivers, devType, count);
    if |drivers| == 2 && drivers[1] in SWDriverToClter && drivers[0] in HWDriverToClter then r.(ok := true)
    else r
  }

  /**
   * DeviceTypeFor succeeds exactly for the supported combinations; on
   * success the type and count are those the tables give, and on failure
   * both in-out parameters are left as they were.
   */
  lemma DeviceTypeForSpec(drivers: seq<string>, devType: string, count: int)
    ensures var r := DeviceTypeFor(drivers, devType, count);
      && (r.ok <==> Supported(drivers))
      && (!r.ok ==> r.devType == devType && r.count == count)
      && (|drivers| == 1 && drivers[0] in SWDriverToClter ==> r.devType == "" && r.count == count)
      && (|drivers| == 1 && drivers[0] !in SWDriverToClter && drivers[0] in HWDriverToClter ==>
            r.devType == HWDriverToClter[drivers[0]].driver && r.count == HWDriverToClter[drivers[0]].maxId)
      && (|drivers| == 2 && r.ok ==>
            exists s, h :: {s, h} == {0, 1} && drivers[s] in SWDriverToClter && drivers[h] in HWDriverToClter
                           && r.devType == SWDriverToClter[drivers[s]] + "+" + HWDriverToClter[drivers[h]].driver
                           && r.count == HWDriverToClter[drivers[h]].maxId)
  {
    var r := DeviceTypeFor(drivers, devType, count);
    if |drivers| == 2 && r.ok {
      if drivers[0] in SWDriverToClter && drivers[1] in HWDriverToClter {
        assert {0, 1} == {0, 1};
      } else {
        assert {1, 0} == {0, 1};
      }
    }
  }

  /**
   * No software driver name sorts after a hardware one, so on the strictly
   * sorted list getStorageCtlerClassDrivers produces the fall-through is
   * never reached and the source agrees with DeviceTypeFor.
   */
  lemma SortedDriversAgree(drivers: seq<string>, devType: string, count: int)
    requires StrictlySorted(drivers)
    ensures SmartCtlDeviceType(drivers, devType, count) == DeviceTypeFor(drivers, devType, count)
  {
  }

  /** The hardware-then-software pair: the source sets type and count but reports failure. */
  lemma ReversedPairFallsThrough()
    ensures SmartCtlDeviceType(["hpsa", "ahci"], "", 0) == DeviceType(false, "sat+cciss,", 14)
    ensures DeviceTypeFor(["hpsa", "ahci"], "", 0) == DeviceType(true, "sat+cciss,", 14)
  {
  }

  // ---------------------------------------------------------------------
  // walkSmartDevices
  // ---------------------------------------------------------------------

  /** libsmartctl's answer to "can this device not be identified with this type?". */
  datatype ProbeResult = ProbeError | Identified(cantId: bool)

  /** One call of the per-device handler: device node, smartctl type and device id (-1 for none). */
  datatype Visit = Visit(dev: string, devType: string, id: int)

  /** The ids i from `from` up to count for which the typed probe identifies dev. */
  function ControllerVisits(dev: string, devType: string, count: int, probe: (string, string) -> ProbeResult, from: nat): seq<Visit>
    decreases count - from
  {
    if from >= count then []
    else
      var fullType := devType + Decimal(from);
      (if probe(dev, fullType) == Identified(false) then [Visit(dev, fullType, from)] else [])
      + ControllerVisits(dev, devType, count, probe, from + 1)
  }

  /** The handler calls for one block device. */
  function DeviceVisits(dev: string, devType: string, count: int, probe: (string, string) -> ProbeResult): seq<Visit>
  {
    if devType != "" then
      if FirstIn(dev, Digits) < |dev| then [] else ControllerVisits(dev, devType, count, probe, 0)
    else [Visit(dev, devType, -1)]
  }

  /** The handler calls for a list of block devices, device after device. */
  function Visits(devs: seq<string>, devType: string, count: int, probe: (string, string) -> ProbeResult): seq<Visit>
  {
    if devs == [] then []
    else Visits(devs[..|devs| - 1], devType, count, probe) + DeviceVisits(devs[|devs| - 1], devType, count, probe)
  }

  /** All handler calls of walkSmartDevices. */
  function SmartVisits(drivers: seq<string>, devs: seq<string>, probe: (string, string) -> ProbeResult): seq<Visit>
  {
    var t := DeviceTypeFor(drivers, "", 0);
    if t.ok then Visits(devs, t.devType, t.count, probe) else []
  }

  /** The inner loop of walkSmartDevices: probe every controller id of one device. */
  method ProbeController(dev: string, devType: string, count: int, probe: (string, string) -> ProbeResult)
    returns (visits: seq<Visit>)
    ensures visits == ControllerVisits(dev, devType, count, probe, 0)
  {
    visits := [];
    var i: nat := 0;
    while i < count
      invariant visits + ControllerVisits(dev, devType, count, probe, i) == ControllerVisits(dev, devType, count, probe, 0)
      decreases count - i
    {
      var fullType := devType + Decimal(i);
      var cantId := probe(dev, fullType);
      if cantId == Identified(false) {
        visits := visits + [Visit(dev, fullType, i)];
      }
      i := i + 1;
    }
  }

  /**
   * walkSmartDevices: choose the device type, then hand each block device
   * to the handler once with no type, or, behind a RAID controller, skip
   * the partitions (names with a digit) and hand over every controller id
   * whose typed probe identifies the device. The drivers are the strictly
   * sorted list getStorageCtlerClassDrivers returns, on which the type
   * choice as written agrees with DeviceTypeFor.
   */
  method WalkSmartDevices(drivers: seq<string>, devs: seq<string>, probe: (string, string) -> ProbeResult)
    returns (visits: seq<Visit>)
    requires StrictlySorted(drivers)
    ensures visits == SmartVisits(drivers, devs, probe)
  {
    visits := [];
    var t := SmartCtlDeviceType(drivers, "", 0);
    SortedDriversAgree(drivers, "", 0);
    if !t.ok {
      return;
    }
    var devType, count := t.devType, t.count;
    for k := 0 to |devs|
      invariant visits == Visits(devs[..k], devType, count, probe)
    {
      assert devs[..k + 1][..k] == devs[..k];
      var dev := devs[k];
      if devType != "" {
        if FirstIn(dev, Digits) < |dev| {
          continue;
        }
        var found := ProbeController(dev, devType, count, probe);
        visits := visits + found;
        continue;
      }
      visits := visits + [Visit(dev, devType, -1)];
    }
    assert devs[..|devs|] == devs;
  }

  /** Without a controller type every block device is handed over once, in order, with id -1. */
  lemma {:induction false} VisitsWithoutType(devs: seq<string>, count: int, probe: (string, string) -> ProbeResult)
    ensures Visits(devs, "", count, probe) == seq(|devs|, k requires 0 <= k < |devs| => Visit(devs[k], "", -1))
  {
    if devs != [] {
      VisitsWithoutType(devs[..|devs| - 1], count, probe);
    }
  }

  /**
   * The ids ControllerVisits hands over are exactly those from `from` to
   * count whose typed probe identifies the device, each with its full type.
   */
  lemma {:induction false} ControllerVisitsSpec(dev: string, devType: string, count: int,
                                                probe: (string, string) -> ProbeResult, from: nat)
    ensures forall v :: v in ControllerVisits(dev, devType, count, probe, from) <==>
              && v.dev == dev && from <= v.id < count
              && v.devType == devType + Decimal(v.id) && probe(dev, v.devType) == Identified(false)
    decreases count - from
  {
    if from < count {
      ControllerVisitsSpec(dev, devType, count, probe, from + 1);
    }
  }

  /** The ids handed over from `from` on are at least `from`. */
  lemma {:induction false} ControllerVisitsFrom(dev: string, devType: string, count: int,
                                                probe: (string, string) -> ProbeResult, from: nat)
    ensures forall a :: 0 <= a < |ControllerVisits(dev, devType, count, probe, from)| ==>
              from <= ControllerVisits(dev, devType, count, probe, from)[a].id
    decreases count - from
  {
    if from < count {
      var next: nat := from + 1;
      ControllerVisitsFrom(dev, devType, count, probe, next);
      var rest := ControllerVisits(dev, devType, count, probe, next);
      var vs := ControllerVisits(dev, devType, count, probe, from);
      var h := |vs| - |rest|;
      assert vs[h..] == rest;
      forall a | h <= a < |vs| ensures from <= vs[a].id {
        assert vs[a] == rest[a - h];
      }
    }
  }

  /** The ids of one device are handed over once each, in increasing order. */
  lemma {:induction false} ControllerVisitsIncreasing(dev: string, devType: string, count: int,
                                                      probe: (string, string) -> ProbeResult, from: nat)
    ensures forall a, b :: 0 <= a < b < |ControllerVisits(dev, devType, count, probe, from)| ==>
              ControllerVisits(dev, devType, count, probe, from)[a].id < ControllerVisits(dev, devType, count, probe, from)[b].id
    decreases count - from
  {
    if from < count {
      var next: nat := from + 1;
      ControllerVisitsIncreasing(dev, devType, count, probe, next);
      ControllerVisitsFrom(dev, devType, count, probe, next);
      var rest := ControllerVisits(dev, devType, count, probe, next);
      var vs := ControllerVisits(dev, devType, count, probe, from);
      var h := |vs| - |rest|;
      assert vs[h..] == rest;
      forall a, b | 0 <= a < b < |vs| ensures vs[a].id < vs[b].id {
        assert vs[b] == rest[b - h];
        if a >= h {
          assert vs[a] == rest[a - h];
        }
      }
    }
  }

  /** The walk goes device by device: the calls for a + b are those for a, then those for b. */
  lemma {:induction false} VisitsAppend(a: seq<string>, b: seq<string>, devType: string, count: int,
                                        probe: (string, string) -> ProbeResult)
    ensures Visits(a + b, devType, count, probe) == Visits(a, devType, count, probe) + Visits(b, devType, count, probe)
    decreases |b|
  {
    if b != [] {
      var b', last := b[..|b| - 1], b[|b| - 1];
      assert (a + b)[..|a + b| - 1] == a + b';
      VisitsAppend(a, b', devType, count, probe);
    } else {
      assert a + b == a;
    }
  }

  /** The calls for device k come after those of the devices before it and before those after it. */
  lemma VisitsAt(devs: seq<string>, k: nat, devType: string, count: int, probe: (string, string) -> ProbeResult)
    requires k < |devs|
    ensures Visits(devs, devType, count, probe) ==
              Visits(devs[..k], devType, count, probe) + DeviceVisits(devs[k], devType, count, probe)
              + Visits(devs[k + 1..], devType, count, probe)
  {
    assert devs == devs[..k] + ([devs[k]] + devs[k + 1..]);
    VisitsAppend(devs[..k], [devs[k]] + devs[k + 1..], devType, count, probe);
    VisitsAppend([devs[k]], devs[k + 1..], devType, count, probe);
    assert Visits([devs[k]], devType, count, probe) == DeviceVisits(devs[k], devType, count, probe) by {
      assert [devs[k]][..0] == [];
    }
  }

  /** Every call names a device of the list. */
  lemma {:induction false} VisitsDevices(devs: seq<string>, devType: string, count: int,
                                         probe: (string, string) -> ProbeResult)
    ensures forall v :: v in Visits(devs, devType, count, probe) ==> v.dev in devs
  {
    if devs != [] {
      var init, last := devs[..|devs| - 1], devs[|devs| - 1];
      VisitsDevices(init, devType, count, probe);
      ControllerVisitsSpec(last, devType, count, probe, 0);
      assert devs == init + [last];
    }
  }

  /** On a list of distinct block devices no call is made twice. */
  lemma {:induction false} VisitsDistinct(devs: seq<string>, devType: string, count: int,
                                          probe: (string, string) -> ProbeResult)
    requires forall a, b :: 0 <= a < b < |devs| ==> devs[a] != devs[b]
    ensures forall a, b :: 0 <= a < b < |Visits(devs, devType, count, probe)| ==>
              Visits(devs, devType, count, probe)[a] != Visits(devs, devType, count, probe)[b]
  {
    if devs != [] {
      var init, last := devs[..|devs| - 1], devs[|devs| - 1];
      VisitsDistinct(init, devType, count, probe);
      VisitsDevices(init, devType, count, probe);
      ControllerVisitsSpec(last, devType, count, probe, 0);
      ControllerVisitsIncreasing(last, devType, count, probe, 0);
      var front, back := Visits(init, devType, count, probe), DeviceVisits(last, devType, count, probe);
      var vs := Visits(devs, devType, count, probe);
      assert vs == front + back;
      assert last !in init;
      forall a, b | 0 <= a < b < |vs| ensures vs[a] != vs[b] {
        if b >= |front| {
          assert vs[b] == back[b - |front|] && vs[b] in back && vs[b].dev == last;
          if a < |front| {
            assert vs[a] in front;
          } else {
            assert vs[a] == back[a - |front|];
            if devType != "" {
              assert back == ControllerVisits(last, devType, count, probe, 0);
            }
          }
        }
      }
    }
  }

  /**
   * Behind a RAID controller the walk hands over exactly the pairs of a
   * block device without a digit in its name and an id below count whose
   * typed probe identifies the device.
   */
  lemma {:induction false} VisitsWithType(devs: seq<string>, devType: string, count: int,
                                          probe: (string, string) -> ProbeResult)
    requires devType != ""
    ensures forall v :: v in Visits(devs, devType, count, probe) <==>
              && v.dev in devs && FirstIn(v.dev, Digits) == |v.dev| && 0 <= v.id < count
              && v.devType == devType + Decimal(v.id) && probe(v.dev, v.devType) == Identified(false)
  {
    if devs != [] {
      var init, last := devs[..|devs| - 1], devs[|devs| - 1];
      VisitsWithType(init, devType, count, probe);
      ControllerVisitsSpec(last, devType, count, probe, 0);
      assert devs == init + [last];
      forall v ensures v in Visits(devs, devType, count, probe) <==>
                       && v.dev in devs && FirstIn(v.dev, Digits) == |v.dev| && 0 <= v.id < count
                       && v.devType == devType + Decimal(v.id) && probe(v.dev, v.devType) == Identified(false)
      {
        assert v.dev in devs <==> v.dev in init || v.dev == last;
      }
    }
  }

  /** An unsupported driver combination hands nothing to the handler. */
  lemma UnsupportedVisitsNothing(drivers: seq<string>, devs: seq<string>, probe: (string, string) -> ProbeResult)
    requires !Supported(drivers)
    ensures SmartVisits(drivers, devs, probe) == []
  {
    DeviceTypeForSpec(drivers, "", 0);
  }
}
