/** One poll cycle of the coordinator as a function of what the device
    answers and what the coordinator kept from earlier cycles: discovery on
    the first cycle (and while no port is known), the status walks, the
    one-time PoE discovery, and the per-port merge. The class in module
    Coordinator is proved to do exactly this. */
module Polling {
  import opened Wrappers
  import opened PyText
  import opened Snmp
  import opened Naming
  import opened Tables
  import opened DeviceInfo

  /** The PoE part of a port record; `None` entries are the `None` values
      (or the missing `power_w` key) of the source's dictionary. */
  datatype PoeStatus = PoeStatus(enabled: Option<bool>, detectionStatus: Option<string>, powerW: Option<int>)

  /** One port of the published snapshot. */
  datatype PortState = PortState(name: string, status: LinkStatus, adminOn: bool, poe: Option<PoeStatus>)

  /** Why a cycle failed: a walk the cycle depends on raised, or a PoE
      reading did not convert to an integer. */
  datatype CycleError = WalkError(oid: string) | ConversionError

  /** What the coordinator keeps between cycles: the discovered ports and
      PoE mapping, the device metadata, and the last published snapshot. */
  datatype CoordState = CoordState(
    ports: map<int, string>,
    poeIndex: map<int, string>,
    meta: DeviceMeta,
    data: Option<map<int, PortState>>)

  const Initial := CoordState(map[], map[], NoMeta, None)

  // ---------------------------------------------------------------------------
  // Discovery

  /** `_discover_ports`: both walks must succeed; a failure of either leaves
      the known ports as they were. */
  function DiscoveredPorts(t: Transport): Result<map<int, string>, CycleError>
  {
    match t.walk(OID_IFTYPE)
    case WalkFailed => Err(WalkError(OID_IFTYPE))
    case Rows(typeRows) =>
      match t.walk(OID_IFNAME)
      case WalkFailed => Err(WalkError(OID_IFNAME))
      case Rows(nameRows) => Ok(PortsOf(typeRows, nameRows))
  }

  /** The rows `_discover_poe` goes through: none when the walk raised. */
  function PoeRows(t: Transport): seq<Row>
  {
    match t.walk(OID_PETH_PORT_TABLE)
    case WalkFailed => []
    case Rows(rows) => rows
  }

  /** `_discover_poe`: a failed walk gives an empty mapping, not an error. */
  function DiscoveredPoe(t: Transport): map<int, string>
  {
    PoeMapping(PoeRows(t))
  }

  // ---------------------------------------------------------------------------
  // PoE readings of one port

  /** One PoE reading: a value, no value, or an `int()` that raised. */
  datatype Reading<T> = Known(value: T) | Unknown | Unconvertible

  function AsOption<T>(r: Reading<T>): Option<T>
  {
    if r.Known? then Some(r.value) else None
  }

  function AdminEnableOid(gp: string): string { Child(OID_PETH_PORT_ADMIN_ENABLE, gp) }
  function DetectStatusOid(gp: string): string { Child(OID_PETH_PORT_DETECT_STATUS, gp) }
  function PowerOid(idx: int): string { Child(OID_PETH_PORT_POWER_W, DecimalString(idx)) }
  function AdminStatusOid(idx: int): string { Child(OID_IFADMINSTATUS, DecimalString(idx)) }

  /** `not err and not st and vb and int(vb[0][1]) == 1`, `None` when the
      GET raised. */
  function EnabledReading(r: GetResult): Reading<bool>
  {
    match r
    case Raise => Unknown
    case Resp(error, values) =>
      if error || values == [] then Known(false)
      else
        match values[0].asInt
        case None => Unconvertible
        case Some(code) => Known(code == CODE_UP)
  }

  /** The detection status name, `None` when the GET raised or answered
      with an error or nothing. */
  function DetectionReading(r: GetResult): Reading<string>
  {
    match FirstValue(r)
    case None => Unknown
    case Some(v) =>
      match v.asInt
      case None => Unconvertible
      case Some(code) => Known(DetectStatusName(code))
  }

  /** The delivered power, absent when the GET raised or answered with an
      error or nothing. */
  function PowerReading(r: GetResult): Reading<int>
  {
    match FirstValue(r)
    case None => Unknown
    case Some(v) =>
      match v.asInt
      case None => Unconvertible
      case Some(w) => Known(w)
  }

  /** The PoE record of port `idx` at `group.port` text `gp`, or `None` when
      one of its readings raised on conversion (which aborts the cycle). */
  function PoeStatusOf(t: Transport, idx: int, gp: string): Option<PoeStatus>
  {
    var e := EnabledReading(t.get(AdminEnableOid(gp)));
    var d := DetectionReading(t.get(DetectStatusOid(gp)));
    var p := PowerReading(t.get(PowerOid(idx)));
    if e.Unconvertible? || d.Unconvertible? || p.Unconvertible? then None
    else Some(PoeStatus(AsOption(e), AsOption(d), AsOption(p)))
  }

  // ---------------------------------------------------------------------------
  // The merge

  /** The record of port `idx`, or `None` when its PoE readings abort. */
  function PortRecord(t: Transport, idx: int, name: string, poeIndex: map<int, string>,
                      statuses: map<int, LinkStatus>, admin: map<int, bool>): Option<PortState>
  {
    var status, adminOn := GetOr(statuses, idx, Down), GetOr(admin, idx, false);
    if idx in poeIndex then
      match PoeStatusOf(t, idx, poeIndex[idx])
      case None => None
      case Some(poe) => Some(PortState(name, status, adminOn, Some(poe)))
    else Some(PortState(name, status, adminOn, None))
  }

  /** The snapshot of one cycle: one record per known port, or an error
      when some port's PoE readings abort. */
  function Snapshot(t: Transport, ports: map<int, string>, poeIndex: map<int, string>,
                    statuses: map<int, LinkStatus>, admin: map<int, bool>): Result<map<int, PortState>, CycleError>
  {
    if forall idx | idx in ports :: PortRecord(t, idx, ports[idx], poeIndex, statuses, admin).Some? then
      Ok(map idx | idx in ports :: PortRecord(t, idx, ports[idx], poeIndex, statuses, admin).value)
    else Err(ConversionError)
  }

  // ---------------------------------------------------------------------------
  // The cycle

  /** The status walks, the PoE discovery while no PoE port is known, and
      the merge; only a completed merge publishes a new snapshot. */
  function Poll(t: Transport, s: CoordState): (CoordState, Outcome<CycleError>)
  {
    match t.walk(OID_IFOPERSTATUS)
    case WalkFailed => (s, Fail(WalkError(OID_IFOPERSTATUS)))
    case Rows(operRows) =>
      match t.walk(OID_IFADMINSTATUS)
      case WalkFailed => (s, Fail(WalkError(OID_IFADMINSTATUS)))
      case Rows(adminRows) =>
        var s1 := if s.poeIndex == map[] then s.(poeIndex := DiscoveredPoe(t)) else s;
        match Snapshot(t, s1.ports, s1.poeIndex, OperStatuses(operRows), AdminStatuses(adminRows))
        case Err(e) => (s1, Fail(e))
        case Ok(snapshot) => (s1.(data := Some(snapshot)), Pass)
  }

  /** `_async_update_data` together with the coordinator keeping the last
      snapshot a cycle returned: discovery and a full metadata read while no
      port is known, a metrics refresh otherwise, then the poll. */
  function Cycle(t: Transport, s: CoordState): (CoordState, Outcome<CycleError>)
  {
    if s.ports == map[] then
      match DiscoveredPorts(t)
      case Err(e) => (s, Fail(e))
      case Ok(found) => Poll(t, s.(ports := found, meta := PopulatedMeta(t)))
    else Poll(t, s.(meta := WithMetrics(t, s.meta)))
  }

  // ---------------------------------------------------------------------------
  // Properties of the PoE readings

  /** The enable reading is true exactly for a clean answer of true(1),
      unknown exactly when the GET raised, and aborts exactly on an answer
      that does not convert. */
  lemma EnabledReadingSpec(r: GetResult)
    ensures EnabledReading(r) == Known(true) <==> FirstValue(r).Some? && FirstValue(r).value.asInt == Some(CODE_UP)
    ensures EnabledReading(r) == Unknown <==> r.Raise?
    ensures EnabledReading(r) == Unconvertible <==> FirstValue(r).Some? && FirstValue(r).value.asInt.None?
  {
  }

  /** A port's PoE record exists exactly when none of its three readings
      aborts, and then holds each reading as it came: a missing power
      reading does not affect the enable and detection readings. */
  lemma PoeStatusSpec(t: Transport, idx: int, gp: string)
    ensures PoeStatusOf(t, idx, gp).Some? <==>
              && !EnabledReading(t.get(AdminEnableOid(gp))).Unconvertible?
              && !DetectionReading(t.get(DetectStatusOid(gp))).Unconvertible?
              && !PowerReading(t.get(PowerOid(idx))).Unconvertible?
    ensures PoeStatusOf(t, idx, gp).Some? ==>
              var poe := PoeStatusOf(t, idx, gp).value;
              && poe.enabled == AsOption(EnabledReading(t.get(AdminEnableOid(gp))))
              && poe.detectionStatus == AsOption(DetectionReading(t.get(DetectStatusOid(gp))))
              && (poe.powerW.Some? <==> FirstValue(t.get(PowerOid(idx))).Some?)
    ensures PoeStatusOf(t, idx, gp).Some? && FirstValue(t.get(PowerOid(idx))).Some? ==>
              PoeStatusOf(t, idx, gp).value.powerW == FirstValue(t.get(PowerOid(idx))).value.asInt
  {
  }

  /** The power reading is addressed by the interface index, the other two
      by the `group.port` text: the power GET is for row `idx` of its table. */
  lemma PowerOidIndex(idx: int)
    ensures RowIndex(PowerOid(idx)) == Some(idx)
  {
    RowIndexOfChild(OID_PETH_PORT_POWER_W, idx);
  }

  // ---------------------------------------------------------------------------
  // Properties of the merge

  /** The snapshot fails exactly when some known PoE port's readings abort;
      otherwise it has a record for every known port and no other. */
  lemma SnapshotSpec(t: Transport, ports: map<int, string>, poeIndex: map<int, string>,
                     statuses: map<int, LinkStatus>, admin: map<int, bool>)
    ensures Snapshot(t, ports, poeIndex, statuses, admin).Err? <==>
              exists idx :: idx in ports && idx in poeIndex && PoeStatusOf(t, idx, poeIndex[idx]).None?
    ensures Snapshot(t, ports, poeIndex, statuses, admin).Ok? ==>
              Snapshot(t, ports, poeIndex, statuses, admin).value.Keys == ports.Keys
  {
    if Snapshot(t, ports, poeIndex, statuses, admin).Err? {
      var idx :| idx in ports && PortRecord(t, idx, ports[idx], poeIndex, statuses, admin).None?;
      assert idx in poeIndex && PoeStatusOf(t, idx, poeIndex[idx]).None?;
    }
  }

  /** Each record carries the port's discovered name, its operational status
      (`Down` when the walk had no row for it), its admin state (off when the
      walk had no row for it), and PoE data exactly when it is a PoE port. */
  lemma SnapshotRecord(t: Transport, ports: map<int, string>, poeIndex: map<int, string>,
                       statuses: map<int, LinkStatus>, admin: map<int, bool>, k: int)
    requires Snapshot(t, ports, poeIndex, statuses, admin).Ok?
    requires k in ports
    ensures k in Snapshot(t, ports, poeIndex, statuses, admin).value
    ensures var r := Snapshot(t, ports, poeIndex, statuses, admin).value[k];
            && r.name == ports[k]
            && (r.status == Up <==> k in statuses && statuses[k] == Up)
            && (r.adminOn <==> k in admin && admin[k])
            && (r.poe.Some? <==> k in poeIndex)
            && (r.poe.Some? ==> Some(r.poe.value) == PoeStatusOf(t, k, poeIndex[k]))
  {
    assert PortRecord(t, k, ports[k], poeIndex, statuses, admin).Some?;
  }

  /** The last row of a walk that is an entry for `k`. */
  predicate LastEntryAt<T>(rows: seq<Row>, entry: Row -> Option<(int, T)>, j: int, k: int)
  {
    EntryAt(rows, entry, j, k) && forall j' :: j < j' < |rows| ==> !EntryAt(rows, entry, j', k)
  }

  lemma LastEntryUnique<T>(rows: seq<Row>, entry: Row -> Option<(int, T)>, j1: int, j2: int, k: int)
    requires LastEntryAt(rows, entry, j1, k) && LastEntryAt(rows, entry, j2, k)
    ensures j1 == j2
  {
  }

  /** Per port, the published operational and admin states are those of the
      last convertible row for that port in the respective walk: up(1)
      means `Up` and on, anything else or no row means `Down` and off. */
  lemma StatusFromRows(rows: seq<Row>, k: int)
    ensures (k in OperStatuses(rows) && OperStatuses(rows)[k] == Up) <==>
              exists j :: LastEntryAt(rows, OperEntry, j, k) && rows[j].value.asInt == Some(CODE_UP)
    ensures (k in AdminStatuses(rows) && AdminStatuses(rows)[k]) <==>
              exists j :: LastEntryAt(rows, AdminEntry, j, k) && rows[j].value.asInt == Some(CODE_UP)
  {
    TabulateSpec(rows, OperEntry, k);
    TabulateSpec(rows, AdminEntry, k);
    if k in OperStatuses(rows) {
      var j :| EntryAt(rows, OperEntry, j, k) && OperStatuses(rows)[k] == OperEntry(rows[j]).value.1
               && forall j' :: j < j' < |rows| ==> !EntryAt(rows, OperEntry, j', k);
      assert LastEntryAt(rows, OperEntry, j, k);
      forall j2 | LastEntryAt(rows, OperEntry, j2, k) ensures j2 == j {
        LastEntryUnique(rows, OperEntry, j, j2, k);
      }
    } else {
      forall j | 0 <= j < |rows| ensures !EntryAt(rows, OperEntry, j, k) {
      }
    }
    if k in AdminStatuses(rows) {
      var j :| EntryAt(rows, AdminEntry, j, k) && AdminStatuses(rows)[k] == AdminEntry(rows[j]).value.1
               && forall j' :: j < j' < |rows| ==> !EntryAt(rows, AdminEntry, j', k);
      assert LastEntryAt(rows, AdminEntry, j, k);
      forall j2 | LastEntryAt(rows, AdminEntry, j2, k) ensures j2 == j {
        LastEntryUnique(rows, AdminEntry, j, j2, k);
      }
    } else {
      forall j | 0 <= j < |rows| ensures !EntryAt(rows, AdminEntry, j, k) {
      }
    }
  }

  // ---------------------------------------------------------------------------
  // Properties of the cycle

  /** A failed cycle publishes nothing: the previous snapshot stays. A
      failed discovery changes nothing at all. */
  lemma FailedCycleKeepsSnapshot(t: Transport, s: CoordState)
    ensures Cycle(t, s).1.Fail? ==> Cycle(t, s).0.data == s.data
    ensures s.ports == map[] && DiscoveredPorts(t).Err? ==> Cycle(t, s) == (s, Fail(DiscoveredPorts(t).error))
  {
  }

  /** A successful cycle publishes a record for exactly the known ports. */
  lemma CycleCoversPorts(t: Transport, s: CoordState)
    ensures Cycle(t, s).1.Pass? ==>
              Cycle(t, s).0.data.Some? && Cycle(t, s).0.data.value.Keys == Cycle(t, s).0.ports.Keys
  {
    var s0 := if s.ports == map[] && DiscoveredPorts(t).Ok? then s.(ports := DiscoveredPorts(t).value, meta := PopulatedMeta(t))
              else s.(meta := WithMetrics(t, s.meta));
    if Cycle(t, s).1.Pass? {
      var operRows, adminRows := t.walk(OID_IFOPERSTATUS).rows, t.walk(OID_IFADMINSTATUS).rows;
      var s1 := if s0.poeIndex == map[] then s0.(poeIndex := DiscoveredPoe(t)) else s0;
      SnapshotSpec(t, s1.ports, s1.poeIndex, OperStatuses(operRows), AdminStatuses(adminRows));
    }
  }

  /** A status walk that raises fails the cycle with that walk's identifier,
      whatever else the device answers. */
  lemma StatusWalkFailureFails(t: Transport, s: CoordState)
    requires s.ports != map[] || DiscoveredPorts(t).Ok?
    ensures t.walk(OID_IFOPERSTATUS).WalkFailed? ==> Cycle(t, s).1 == Fail(WalkError(OID_IFOPERSTATUS))
    ensures t.walk(OID_IFOPERSTATUS).Rows? && t.walk(OID_IFADMINSTATUS).WalkFailed? ==>
              Cycle(t, s).1 == Fail(WalkError(OID_IFADMINSTATUS))
  {
  }

  /** Discovery runs only while nothing is known: once ports are known a
      cycle neither rediscovers them nor reads the identity metadata again,
      and a known PoE mapping is never walked again. */
  lemma DiscoveryOnlyWhileEmpty(t: Transport, s: CoordState)
    ensures s.ports != map[] ==>
              Cycle(t, s).0.ports == s.ports
              && Cycle(t, s).0.meta == WithMetrics(t, s.meta)
    ensures s.poeIndex != map[] ==> Cycle(t, s).0.poeIndex == s.poeIndex
    ensures s.ports == map[] && DiscoveredPorts(t).Ok? ==>
              Cycle(t, s).0.ports == DiscoveredPorts(t).value
              && Cycle(t, s).0.meta == PopulatedMeta(t)
  {
  }

  /** The PoE mapping a cycle starts from empty is the discovered one, even
      when the PoE walk raised (then it stays empty and the cycle goes on). */
  lemma PoeDiscoveryNeverFails(t: Transport, s: CoordState)
    requires s.poeIndex == map[]
    requires t.walk(OID_IFOPERSTATUS).Rows? && t.walk(OID_IFADMINSTATUS).Rows?
    requires s.ports != map[] || DiscoveredPorts(t).Ok?
    ensures Cycle(t, s).0.poeIndex == DiscoveredPoe(t)
    ensures t.walk(OID_PETH_PORT_TABLE).WalkFailed? ==> Cycle(t, s).0.poeIndex == map[]
    ensures t.walk(OID_PETH_PORT_TABLE).WalkFailed? ==> Cycle(t, s).1 == Pass
  {
  }

  /** The published record of port `k`, in terms of the rows the cycle's
      walks returned. */
  lemma CyclePortRecord(t: Transport, s: CoordState, k: int)
    requires Cycle(t, s).1.Pass?
    requires k in Cycle(t, s).0.ports
    ensures t.walk(OID_IFOPERSTATUS).Rows? && t.walk(OID_IFADMINSTATUS).Rows?
    ensures Cycle(t, s).0.data.Some? && k in Cycle(t, s).0.data.value
    ensures var s' := Cycle(t, s).0;
            var r := s'.data.value[k];
            && r.name == s'.ports[k]
            && (r.status == Up <==> exists j :: LastEntryAt(t.walk(OID_IFOPERSTATUS).rows, OperEntry, j, k)
                                              && t.walk(OID_IFOPERSTATUS).rows[j].value.asInt == Some(CODE_UP))
            && (r.adminOn <==> exists j :: LastEntryAt(t.walk(OID_IFADMINSTATUS).rows, AdminEntry, j, k)
                                          && t.walk(OID_IFADMINSTATUS).rows[j].value.asInt == Some(CODE_UP))
            && (r.poe.Some? <==> k in s'.poeIndex)
  {
    var s0 := if s.ports == map[] then s.(ports := DiscoveredPorts(t).value, meta := PopulatedMeta(t))
              else s.(meta := WithMetrics(t, s.meta));
    var operRows, adminRows := t.walk(OID_IFOPERSTATUS).rows, t.walk(OID_IFADMINSTATUS).rows;
    var s1 := if s0.poeIndex == map[] then s0.(poeIndex := DiscoveredPoe(t)) else s0;
    assert Cycle(t, s) == Poll(t, s0);
    assert Cycle(t, s).0.ports == s1.ports;
    SnapshotRecord(t, s1.ports, s1.poeIndex, OperStatuses(operRows), AdminStatuses(adminRows), k);
    StatusFromRows(operRows, k);
    StatusFromRows(adminRows, k);
  }
}
