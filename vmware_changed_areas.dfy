/**
 * The lookups of lib/v2k/vmware_changed_areas.py over plain values: parsing
 * a `scsi<bus>:<unit>` disk identifier, resolving it against the virtual
 * machine's device list, finding a snapshot by name in the snapshot tree,
 * and turning the changed extents the hypervisor reports into
 * `{offset, length}` records.
 */
module VmwareChangedAreas {
  import opened Common
  import opened Areas

  /** The reasons the script exits with an error message. */
  datatype LookupError =
    | UnsupportedDiskId(diskId: string)
    | DiskNotFound(diskId: string)
    | SnapshotNotFound(snapshotName: string)
    | QueryFailed(message: string)

  // ---------------------------------------------------------------------------
  // Disk identifiers: ^scsi(\d+):(\d+)$
  // ---------------------------------------------------------------------------

  /** The SCSI bus number and unit number a disk identifier names. */
  datatype DiskAddress = DiskAddress(bus: nat, unit: nat)

  predicate IsDigit(c: char) { '0' <= c <= '9' }

  predicate AllDigits(s: string) { forall i :: 0 <= i < |s| ==> IsDigit(s[i]) }

  /** One or more ASCII digits, the text matched by `\d+`. */
  predicate IsNumeral(s: string) { |s| > 0 && AllDigits(s) }

  /** The value of a string of decimal digits, as `int()` reads it (leading zeros allowed). */
  function DecimalValue(s: string): nat
    requires AllDigits(s)
    decreases |s|
  {
    if s == [] then 0
    else 10 * DecimalValue(s[..|s| - 1]) + (s[|s| - 1] as int - '0' as int)
  }

  /** The index of the first ':' in `s`, or |s| when there is none. */
  function ColonIndex(s: string): (k: nat)
    ensures k <= |s|
    ensures k < |s| ==> s[k] == ':'
    ensures forall j :: 0 <= j < k ==> s[j] != ':'
  {
    if s == [] || s[0] == ':' then 0 else 1 + ColonIndex(s[1..])
  }

  /**
   * `id` is "scsi", a numeral, ':' at index `k`, and a numeral, with nothing
   * before or after.
   */
  predicate DiskIdSplitsAt(id: string, k: int) {
    && 4 <= k < |id|
    && id[..4] == "scsi"
    && id[k] == ':'
    && IsNumeral(id[4..k])
    && IsNumeral(id[k + 1..])
  }

  /**
   * The text the pattern has to match from start to end: `$` also matches
   * just before a final newline, so one final newline is not part of it.
   */
  function MatchSubject(id: string): (t: string)
    ensures t == id || t + "\n" == id
    ensures t == id <==> !(|id| > 0 && id[|id| - 1] == '\n')
  {
    if |id| > 0 && id[|id| - 1] == '\n' then id[..|id| - 1] else id
  }

  /**
   * The identifier check and group conversion of `_disk_key_for_scsi`: an
   * identifier is accepted exactly when its match subject has the form
   * scsi<digits>:<digits>, and then bus and unit are the decimal values of the
   * two numerals.
   */
  function ParseDiskId(id: string): (r: Option<DiskAddress>)
    ensures r.Some? <==> exists k :: DiskIdSplitsAt(MatchSubject(id), k)
    ensures forall k :: DiskIdSplitsAt(MatchSubject(id), k) ==>
      r == Some(DiskAddress(DecimalValue(MatchSubject(id)[4..k]), DecimalValue(MatchSubject(id)[k + 1..])))
  {
    var t := MatchSubject(id);
    if |t| < 4 || t[..4] != "scsi" then None
    else
      var rest := t[4..];
      var c := ColonIndex(rest);
      if c == |rest| then None
      else
        var bus, unit := rest[..c], rest[c + 1..];
        assert bus == t[4..4 + c] && unit == t[4 + c + 1..];
        assert forall k :: DiskIdSplitsAt(t, k) ==> k == 4 + c by {
          forall k | DiskIdSplitsAt(t, k) ensures k == 4 + c {
            assert rest[k - 4] == ':';
            forall j | 4 <= j < k ensures t[j] != ':' {
              assert IsDigit(t[4..k][j - 4]);
            }
          }
        }
        if IsNumeral(bus) && IsNumeral(unit) then
          assert DiskIdSplitsAt(t, 4 + c);
          Some(DiskAddress(DecimalValue(bus), DecimalValue(unit)))
        else None
  }

  /** Every identifier built from two numerals is accepted with their values. */
  lemma ParseDiskIdOfNumerals(bus: string, unit: string)
    requires IsNumeral(bus) && IsNumeral(unit)
    ensures ParseDiskId("scsi" + bus + ":" + unit) == Some(DiskAddress(DecimalValue(bus), DecimalValue(unit)))
  {
    var id := "scsi" + bus + ":" + unit;
    var k := 4 + |bus|;
    assert id[..4] == "scsi";
    assert id[4..k] == bus;
    assert id[k + 1..] == unit;
    assert DiskIdSplitsAt(id, k);
  }

  /** The first disk on the first controller. */
  lemma ParseDiskIdFirstDisk()
    ensures ParseDiskId("scsi0:0") == Some(DiskAddress(0, 0))
  {
    assert "scsi0:0" == "scsi" + "0" + ":" + "0";
    assert DecimalValue("0") == 0;
    ParseDiskIdOfNumerals("0", "0");
  }

  /** A bus number of two digits. */
  lemma ParseDiskIdTwoDigitBus()
    ensures ParseDiskId("scsi12:3") == Some(DiskAddress(12, 3))
  {
    assert "scsi12:3" == "scsi" + "12" + ":" + "3";
    assert "12"[..1] == "1";
    assert DecimalValue("12") == 12;
    assert DecimalValue("3") == 3;
    ParseDiskIdOfNumerals("12", "3");
  }

  /** A missing bus number, another controller type and the empty string are rejected. */
  lemma ParseDiskIdRejectsExamples()
    ensures ParseDiskId("scsi:0") == None
    ensures ParseDiskId("sata0:0") == None
    ensures ParseDiskId("") == None
  {
    assert "scsi:0"[..4] == "scsi" && "scsi:0"[4..] == ":0";
    assert ColonIndex(":0") == 0;
    assert "sata0:0"[..4][1] != "scsi"[1];
  }

  /** One final newline is accepted, as `$` allows. */
  lemma ParseDiskIdFinalNewline()
    ensures ParseDiskId("scsi0:0\n") == Some(DiskAddress(0, 0))
  {
    assert MatchSubject("scsi0:0\n") == MatchSubject("scsi0:0");
    ParseDiskIdFirstDisk();
  }

  /** A second final newline is rejected. */
  lemma ParseDiskIdTwoNewlines()
    ensures ParseDiskId("scsi0:0\n\n") == None
  {
    var t := MatchSubject("scsi0:0\n\n");
    assert t == "scsi0:0\n";
    assert t[..4] == "scsi" && t[4..] == "0:0\n";
    assert ColonIndex("0:0\n") == 1;
    assert t[4..][2..] == "0\n";
    assert !IsDigit(t[4..][2..][1]);
  }

  // ---------------------------------------------------------------------------
  // Devices of the virtual machine's hardware configuration
  // ---------------------------------------------------------------------------

  /** The three kinds of device the lookup tells apart. */
  datatype Device =
    | ScsiController(key: int, busNumber: Option<int>)
    | VirtualDisk(key: int, controllerKey: int, unitNumber: int)
    | OtherDevice

  /** A controller's bus number; a controller without one counts as bus 0. */
  function BusOf(d: Device): int
    requires d.ScsiController?
  {
    match d.busNumber
    case Some(b) => b
    case None => 0
  }

  predicate IsControllerWithKey(d: Device, k: int) {
    d.ScsiController? && d.key == k
  }

  /** No SCSI controller after index `i` has the key of the controller at `i`. */
  predicate LastWithItsKey(devices: seq<Device>, i: nat)
    requires i < |devices| && devices[i].ScsiController?
  {
    forall j :: i < j < |devices| ==> !IsControllerWithKey(devices[j], devices[i].key)
  }

  /** The controller-key to bus map after visiting `devices` in order. */
  function ControllerBuses(devices: seq<Device>): map<int, int>
    decreases |devices|
  {
    if devices == [] then map[]
    else
      var buses := ControllerBuses(devices[..|devices| - 1]);
      var d := devices[|devices| - 1];
      if d.ScsiController? then buses[d.key := BusOf(d)] else buses
  }

  /** The map has a key exactly for each SCSI controller's key. */
  lemma {:induction false} ControllerBusesKeys(devices: seq<Device>)
    ensures forall k :: k in ControllerBuses(devices) <==>
      exists i :: 0 <= i < |devices| && IsControllerWithKey(devices[i], k)
    decreases |devices|
  {
    if devices != [] {
      var init := devices[..|devices| - 1];
      ControllerBusesKeys(init);
      var buses := ControllerBuses(devices);
      forall k ensures k in buses <==> exists i :: 0 <= i < |devices| && IsControllerWithKey(devices[i], k) {
        if k in ControllerBuses(init) {
          var i :| 0 <= i < |init| && IsControllerWithKey(init[i], k);
          assert devices[i] == init[i];
        }
        if exists i :: 0 <= i < |devices| && IsControllerWithKey(devices[i], k) {
          var i :| 0 <= i < |devices| && IsControllerWithKey(devices[i], k);
          if i < |init| {
            assert init[i] == devices[i];
          }
        }
      }
    }
  }

  /** A controller's key is sent to that controller's bus when no later controller has the same key. */
  lemma {:induction false} ControllerBusesLast(devices: seq<Device>)
    ensures forall i :: 0 <= i < |devices| && devices[i].ScsiController? && LastWithItsKey(devices, i) ==>
      devices[i].key in ControllerBuses(devices) && ControllerBuses(devices)[devices[i].key] == BusOf(devices[i])
    decreases |devices|
  {
    if devices != [] {
      var init := devices[..|devices| - 1];
      var d := devices[|devices| - 1];
      ControllerBusesLast(init);
      var buses := ControllerBuses(devices);
      forall i | 0 <= i < |devices| && devices[i].ScsiController? && LastWithItsKey(devices, i)
        ensures devices[i].key in buses && buses[devices[i].key] == BusOf(devices[i])
      {
        if i < |init| {
          assert init[i] == devices[i];
          assert forall j :: i < j < |init| ==> init[j] == devices[j];
          assert LastWithItsKey(init, i);
          assert !IsControllerWithKey(d, devices[i].key);
        }
      }
    }
  }

  /** `d` is a virtual disk on a known controller whose bus and unit are those of `addr`. */
  predicate IsDiskAt(d: Device, buses: map<int, int>, addr: DiskAddress) {
    && d.VirtualDisk?
    && d.controllerKey in buses
    && buses[d.controllerKey] == addr.bus
    && d.unitNumber == addr.unit
  }

  /** The index of the first device from index `from` on that is the disk at `addr`. */
  function FirstDiskAt(devices: seq<Device>, buses: map<int, int>, addr: DiskAddress, from: nat): (r: Option<nat>)
    requires from <= |devices|
    ensures r.Some? ==> from <= r.value < |devices| && IsDiskAt(devices[r.value], buses, addr)
    ensures r.Some? ==> forall j :: from <= j < r.value ==> !IsDiskAt(devices[j], buses, addr)
    ensures r.None? ==> forall j :: from <= j < |devices| ==> !IsDiskAt(devices[j], buses, addr)
    decreases |devices| - from
  {
    if from == |devices| then None
    else if IsDiskAt(devices[from], buses, addr) then Some(from)
    else FirstDiskAt(devices, buses, addr, from + 1)
  }

  /** What `_disk_key_for_scsi` returns or fails with. */
  function ResolveDisk(devices: seq<Device>, diskId: string): Result<(int, Device), LookupError>
  {
    match ParseDiskId(diskId)
    case None => Failure(UnsupportedDiskId(diskId))
    case Some(addr) =>
      match FirstDiskAt(devices, ControllerBuses(devices), addr, 0)
      case None => Failure(DiskNotFound(diskId))
      case Some(i) => Success((devices[i].key, devices[i]))
  }

  /**
   * `_disk_key_for_scsi(vm, disk_id)`: parses the identifier, maps each SCSI
   * controller's key to its bus, then returns the key of and the first
   * virtual disk in device order on that bus with that unit number.
   */
  method DiskKeyForScsi(devices: seq<Device>, diskId: string) returns (r: Result<(int, Device), LookupError>)
    ensures r == ResolveDisk(devices, diskId)
  {
    var parsed := ParseDiskId(diskId);
    if parsed.None? {
      return Failure(UnsupportedDiskId(diskId));
    }
    var addr := parsed.value;

    var ctrlBus: map<int, int> := map[];
    var i := 0;
    while i < |devices|
      invariant 0 <= i <= |devices|
      invariant ctrlBus == ControllerBuses(devices[..i])
    {
      var dev := devices[i];
      if dev.ScsiController? {
        ctrlBus := ctrlBus[dev.key := BusOf(dev)];
      }
      assert devices[..i + 1][..i] == devices[..i];
      i := i + 1;
    }
    assert devices[..i] == devices;

    i := 0;
    while i < |devices|
      invariant 0 <= i <= |devices|
      invariant FirstDiskAt(devices, ctrlBus, addr, 0) == FirstDiskAt(devices, ctrlBus, addr, i)
    {
      var dev := devices[i];
      if dev.VirtualDisk? {
        var ck := dev.controllerKey;
        if ck in ctrlBus && ctrlBus[ck] == addr.bus && dev.unitNumber == addr.unit {
          return Success((dev.key, dev));
        }
      }
      i := i + 1;
    }
    return Failure(DiskNotFound(diskId));
  }

  /**
   * A resolved disk is the first virtual disk in device order whose
   * controller key is a SCSI controller's key, whose controller is on the
   * requested bus and whose unit number is the requested one; the lookup
   * fails with DiskNotFound exactly when no device is such a disk.
   */
  lemma ResolveDiskCorrect(devices: seq<Device>, diskId: string)
    requires ParseDiskId(diskId).Some?
    ensures var addr := ParseDiskId(diskId).value;
      var buses := ControllerBuses(devices);
      match ResolveDisk(devices, diskId)
      case Success(found) =>
        exists i :: 0 <= i < |devices| && devices[i] == found.1 && found.0 == devices[i].key
          && IsDiskAt(devices[i], buses, addr)
          && forall j :: 0 <= j < i ==> !IsDiskAt(devices[j], buses, addr)
      case Failure(e) =>
        e == DiskNotFound(diskId) && forall j :: 0 <= j < |devices| ==> !IsDiskAt(devices[j], buses, addr)
  {
    var addr := ParseDiskId(diskId).value;
    var buses := ControllerBuses(devices);
    var first := FirstDiskAt(devices, buses, addr, 0);
    if first.Some? {
      var i := first.value;
      assert devices[i] == ResolveDisk(devices, diskId).value.1;
    }
  }

  // ---------------------------------------------------------------------------
  // Snapshot tree
  // ---------------------------------------------------------------------------

  /** A handle of a snapshot, passed back to the hypervisor unchanged. */
  type SnapshotRef = nat

  /** A node of the snapshot tree: its name, its snapshot and its child nodes. */
  datatype SnapshotTree = SnapshotTree(name: string, snapshot: SnapshotRef, children: seq<SnapshotTree>)

  /** The snapshot information of a virtual machine that has snapshots. */
  datatype SnapshotInfo = SnapshotInfo(rootSnapshotList: seq<SnapshotTree>)

  /** The roots of the snapshot tree; a machine without snapshot information has none. */
  function RootsOf(info: Option<SnapshotInfo>): seq<SnapshotTree> {
    match info
    case Some(i) => i.rootSnapshotList
    case None => []
  }

  function TreeSize(t: SnapshotTree): nat
    decreases t, 1
  {
    1 + ForestSize(t.children)
  }

  function ForestSize(f: seq<SnapshotTree>): nat
    decreases f, 0
  {
    if f == [] then 0 else ForestSize(f[..|f| - 1]) + TreeSize(f[|f| - 1])
  }

  lemma {:induction false} ForestSizeAppend(a: seq<SnapshotTree>, b: seq<SnapshotTree>)
    ensures ForestSize(a + b) == ForestSize(a) + ForestSize(b)
    decreases |b|
  {
    if b == [] {
      assert a + b == a;
    } else {
      ForestSizeAppend(a, b[..|b| - 1]);
      assert (a + b)[..|a + b| - 1] == a + b[..|b| - 1];
    }
  }

  /**
   * The snapshot a last-in-first-out search of forest `f` finds: the last
   * tree is searched first, a node before its children, and among the
   * children again the last one first.
   */
  function SearchForest(f: seq<SnapshotTree>, name: string): Option<SnapshotRef>
    decreases ForestSize(f), 1
  {
    if f == [] then None
    else
      match SearchTree(f[|f| - 1], name)
      case Some(s) => Some(s)
      case None => SearchForest(f[..|f| - 1], name)
  }

  function SearchTree(t: SnapshotTree, name: string): Option<SnapshotRef>
    decreases TreeSize(t), 0
  {
    if t.name == name then Some(t.snapshot) else SearchForest(t.children, name)
  }

  /** Searching a stack with `b` pushed on top of `a` searches `b` first, then `a`. */
  lemma {:induction false} SearchForestAppend(a: seq<SnapshotTree>, b: seq<SnapshotTree>, name: string)
    ensures SearchForest(a + b, name) ==
      if SearchForest(b, name).Some? then SearchForest(b, name) else SearchForest(a, name)
    decreases |b|
  {
    if b == [] {
      assert a + b == a;
    } else {
      SearchForestAppend(a, b[..|b| - 1], name);
      assert (a + b)[..|a + b| - 1] == a + b[..|b| - 1];
    }
  }

  /** Some node of tree `t` has the name `name` and the snapshot `s`. */
  predicate InTree(t: SnapshotTree, name: string, s: SnapshotRef)
    decreases TreeSize(t), 0
  {
    (t.name == name && t.snapshot == s) || InForest(t.children, name, s)
  }

  /** Some node of forest `f` has the name `name` and the snapshot `s`. */
  predicate InForest(f: seq<SnapshotTree>, name: string, s: SnapshotRef)
    decreases ForestSize(f), 1
  {
    f != [] && (InTree(f[|f| - 1], name, s) || InForest(f[..|f| - 1], name, s))
  }

  /**
   * The search finds a snapshot exactly when some node has the requested
   * name, and what it finds is the snapshot of such a node.
   */
  lemma {:induction false} SearchForestCorrect(f: seq<SnapshotTree>, name: string)
    ensures SearchForest(f, name).Some? ==> InForest(f, name, SearchForest(f, name).value)
    ensures forall s :: InForest(f, name, s) ==> SearchForest(f, name).Some?
    decreases ForestSize(f), 1
  {
    if f != [] {
      SearchTreeCorrect(f[|f| - 1], name);
      SearchForestCorrect(f[..|f| - 1], name);
    }
  }

  lemma {:induction false} SearchTreeCorrect(t: SnapshotTree, name: string)
    ensures SearchTree(t, name).Some? ==> InTree(t, name, SearchTree(t, name).value)
    ensures forall s :: InTree(t, name, s) ==> SearchTree(t, name).Some?
    decreases TreeSize(t), 0
  {
    SearchForestCorrect(t.children, name);
  }

  /**
   * `_find_snapshot(vm, snap_name)`: pops nodes off a stack that starts as
   * the root list, returns the snapshot of the first popped node with the
   * requested name and pushes the children of every other node.
   */
  method FindSnapshot(info: Option<SnapshotInfo>, name: string) returns (r: Result<SnapshotRef, LookupError>)
    ensures r == match SearchForest(RootsOf(info), name)
      case Some(s) => Success(s)
      case None => Failure(SnapshotNotFound(name))
  {
    var stack := RootsOf(info);
    while stack != []
      invariant SearchForest(stack, name) == SearchForest(RootsOf(info), name)
      decreases ForestSize(stack)
    {
      ghost var before := stack;
      var node := stack[|stack| - 1];
      stack := stack[..|stack| - 1];
      assert ForestSize(before) == ForestSize(stack) + TreeSize(node);
      if node.name == name {
        return Success(node.snapshot);
      }
      SearchForestAppend(stack, node.children, name);
      ForestSizeAppend(stack, node.children);
      stack := stack + node.children;
    }
    return Failure(SnapshotNotFound(name));
  }

  // ---------------------------------------------------------------------------
  // Changed areas
  // ---------------------------------------------------------------------------

  /** One changed extent as the hypervisor reports it. */
  datatype DiskChangeExtent = DiskChangeExtent(start: nat, length: nat)

  /**
   * The result handling of `_query_changed_areas`: `reply` is what the
   * hypervisor's changed-area query returned (its extents) or the message
   * it failed with. Each extent becomes one record, in the same order.
   */
  method QueryChangedAreas(reply: Result<seq<DiskChangeExtent>, string>) returns (r: Result<seq<Area>, LookupError>)
    ensures reply.Failure? ==> r == Failure(QueryFailed(reply.error))
    ensures reply.Success? ==> r.Success? && |r.value| == |reply.value|
    ensures reply.Success? ==> forall i :: 0 <= i < |reply.value| ==>
      r.value[i] == Area(reply.value[i].start, reply.value[i].length)
  {
    if reply.Failure? {
      return Failure(QueryFailed(reply.error));
    }
    var areas := reply.value;
    var out: seq<Area> := [];
    var i := 0;
    while i < |areas|
      invariant 0 <= i <= |areas|
      invariant |out| == i
      invariant forall j :: 0 <= j < i ==> out[j] == Area(areas[j].start, areas[j].length)
    {
      out := out + [Area(areas[i].start, areas[i].length)];
      i := i + 1;
    }
    return Success(out);
  }
}
