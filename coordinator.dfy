/** `NetworkSwitchCoordinator`: the object that owns the discovered ports,
    the PoE mapping and the device metadata, runs the poll cycle, and sends
    the two control writes. Each method is proved to do what the functions
    of modules Polling and DeviceInfo describe. */
module Coordinator {
  import opened Wrappers
  import opened PyText
  import opened Snmp
  import opened Naming
  import opened Tables
  import opened DeviceInfo
  import opened Polling

  /** Why a control write failed: the port has no PoE mapping, or the
      device refused the SET. */
  datatype ControlError = PoeNotSupported | Rejected(oid: string)

  // ---------------------------------------------------------------------------
  // The loops over walked rows

  /** A `for oid, value in rows: d[key] = val` loop. */
  method TabulateRows<T>(rows: seq<Row>, entry: Row -> Option<(int, T)>) returns (m: map<int, T>)
    ensures m == Tabulate(rows, entry)
  {
    m := map[];
    for i := 0 to |rows|
      invariant m == Tabulate(rows[..i], entry)
    {
      assert rows[..i + 1][..i] == rows[..i];
      match entry(rows[i])
      case None =>
      case Some(kv) => m := m[kv.0 := kv.1];
    }
    assert rows[..|rows|] == rows;
  }

  /** A `for oid, value in rows: s.add(key)` loop. */
  method CollectRows(rows: seq<Row>, pick: Row -> Option<int>) returns (s: set<int>)
    ensures s == Collect(rows, pick)
  {
    s := {};
    for i := 0 to |rows|
      invariant s == Collect(rows[..i], pick)
    {
      assert rows[..i + 1][..i] == rows[..i];
      match pick(rows[i])
      case None =>
      case Some(k) => s := s + {k};
    }
    assert rows[..|rows|] == rows;
  }

  /** A non-empty set has an element: the fact a `:|` pick from `s` needs,
      proved by contradiction so that no other statement runs under the
      contradictory branch. */
  lemma NonEmptyHasElement(s: set<int>)
    requires s != {}
    ensures exists x :: x in s
  {
    if forall x :: x !in s {
      assert false;
    }
  }

  /** The write community choice of `_V3ArchBackend.async_set_integer`. */
  function SetRequest(backend: BackendConfig, oid: string, value: int): Write
  {
    Write(oid, value, WriteAuth(backend))
  }

  /** The SET `async_set_admin_status` sends. */
  function AdminWrite(backend: BackendConfig, ifIndex: int, enable: bool): Write
  {
    SetRequest(backend, AdminStatusOid(ifIndex), EnableCode(enable))
  }

  /** The SET `async_set_poe_admin` sends, none for a port without a PoE
      mapping. */
  function PoeAdminWrite(backend: BackendConfig, poeIndex: map<int, string>, ifIndex: int, enable: bool): Option<Write>
  {
    if ifIndex in poeIndex then Some(SetRequest(backend, AdminEnableOid(poeIndex[ifIndex]), EnableCode(enable)))
    else None
  }

  class NetworkSwitchCoordinator {
    const transport: Transport
    const backend: BackendConfig
    var ports: map<int, string>
    var poeIndex: map<int, string>
    var meta: DeviceMeta
    var data: Option<map<int, PortState>>
    /** The SETs sent so far, oldest first. */
    var writes: seq<Write>

    function State(): CoordState
      reads this
    {
      CoordState(ports, poeIndex, meta, data)
    }

    constructor(transport: Transport, backend: BackendConfig)
      ensures this.transport == transport && this.backend == backend
      ensures State() == Initial && writes == []
    {
      this.transport := transport;
      this.backend := backend;
      ports := map[];
      poeIndex := map[];
      meta := NoMeta;
      data := None;
      writes := [];
    }

    /** `_discover_ports`. */
    method DiscoverPorts() returns (o: Outcome<CycleError>)
      modifies this`ports
      ensures DiscoveredPorts(transport).Ok? ==> o == Pass && ports == DiscoveredPorts(transport).value
      ensures DiscoveredPorts(transport).Err? ==> o == Fail(DiscoveredPorts(transport).error) && ports == old(ports)
    {
      var typeWalk := transport.walk(OID_IFTYPE);
      if typeWalk.WalkFailed? {
        return Fail(WalkError(OID_IFTYPE));
      }
      var ethernet := CollectRows(typeWalk.rows, EthernetEntry);
      var nameWalk := transport.walk(OID_IFNAME);
      if nameWalk.WalkFailed? {
        return Fail(WalkError(OID_IFNAME));
      }
      ports := TabulateRows(nameWalk.rows, NameEntries(ethernet));
      o := Pass;
    }

    /** `_discover_poe`. */
    method DiscoverPoe()
      modifies this`poeIndex
      ensures poeIndex == DiscoveredPoe(transport)
    {
      var walk := transport.walk(OID_PETH_PORT_TABLE);
      var rows := if walk.Rows? then walk.rows else [];
      poeIndex := TabulateRows(rows, PoeEntry);
    }

    /** `_get_scalar_str`. */
    method GetScalarStr(base: string) returns (r: Option<string>)
      ensures r == ScalarStr(transport, base)
    {
      var candidates := ScalarCandidates(base);
      var i := 0;
      while i < |candidates|
        invariant 0 <= i <= |candidates|
        invariant FirstText(transport, candidates[i..]) == ScalarStr(transport, base)
      {
        var v := FirstValue(transport.get(candidates[i]));
        if v.Some? {
          return Some(v.value.text);
        }
        assert candidates[i..][1..] == candidates[i + 1..];
        i := i + 1;
      }
      r := None;
    }

    /** `_populate_device_meta`. */
    method PopulateDeviceMeta()
      modifies this`meta
      ensures meta == PopulatedMeta(transport)
    {
      var sysName: Option<string> := None;
      var name := FirstValue(transport.get(OID_SYSNAME));
      if name.Some? {
        sysName := Some(name.value.text);
      }
      var mac: Option<string> := None;
      var addr := FirstValue(transport.get(OID_BRIDGE_ADDR));
      if addr.Some? {
        match addr.value.asBytes
        case Some(b) => mac := Some(MacString(b));
        case None => mac := Some(addr.value.text);
      }
      var hardware := GetScalarStr(OID_HW_TYPE_BASE);
      var fwRaw := GetScalarStr(OID_FW_VER_BASE);
      var firmware: Option<string> := None;
      if fwRaw.Some? {
        firmware := Some(FirmwareVersion(fwRaw.value));
      }
      meta := DeviceMeta(sysName, mac, hardware, firmware, None, None, None);
      var budget := FirstValue(transport.get(OID_POE_POWER_W));
      if budget.Some? && budget.value.asInt.Some? {
        meta := meta.(poePowerW := budget.value.asInt);
      }
      UpdateDeviceMetrics();
    }

    /** `_async_update_device_metrics`. */
    method UpdateDeviceMetrics()
      modifies this`meta
      ensures meta == WithMetrics(transport, old(meta))
    {
      UpdateTemperature();
      UpdateUptime();
    }

    /** `_async_update_temperature`. */
    method UpdateTemperature()
      modifies this`meta
      ensures meta == old(meta).(temperatureC := Applied(old(meta).temperatureC, TemperatureUpdate(transport)))
    {
      var candidates := ScalarCandidates(OID_DEVICE_TEMPERATURE);
      var foundInvalid := false;
      var i := 0;
      while i < |candidates|
        invariant 0 <= i <= |candidates|
        invariant TemperatureFrom(transport, candidates[i..], foundInvalid) == TemperatureUpdate(transport)
        invariant meta == old(meta)
      {
        var v := FirstValue(transport.get(candidates[i]));
        assert candidates[i..][1..] == candidates[i + 1..];
        if v.Some? {
          if v.value.asInt.Some? {
            meta := meta.(temperatureC := v.value.asInt);
            return;
          }
          foundInvalid := true;
        }
        i := i + 1;
      }
      if foundInvalid {
        meta := meta.(temperatureC := None);
      }
    }

    /** `_async_update_uptime`. */
    method UpdateUptime()
      modifies this`meta
      ensures meta == old(meta).(uptimeSeconds := Applied(old(meta).uptimeSeconds, UptimeUpdate(transport)))
    {
      var v := FirstValue(transport.get(OID_SYSUPTIME));
      if v.None? {
        return;
      }
      match v.value.asInt
      case Some(ticks) => meta := meta.(uptimeSeconds := Some(Seconds(ticks)));
      case None => meta := meta.(uptimeSeconds := None);
    }

    /** The three PoE readings of one port, in the order the cycle takes
        them. */
    method ReadPoe(idx: int, gp: string) returns (poe: Option<PoeStatus>)
      ensures poe == PoeStatusOf(transport, idx, gp)
    {
      var enabled := EnabledReading(transport.get(AdminEnableOid(gp)));
      if enabled.Unconvertible? {
        return None;
      }
      var detection := DetectionReading(transport.get(DetectStatusOid(gp)));
      if detection.Unconvertible? {
        return None;
      }
      var power := PowerReading(transport.get(PowerOid(idx)));
      if power.Unconvertible? {
        return None;
      }
      poe := Some(PoeStatus(AsOption(enabled), AsOption(detection), AsOption(power)));
    }

    /** The merge loop over the known ports. */
    method MergePorts(statuses: map<int, LinkStatus>, admin: map<int, bool>) returns (r: Result<map<int, PortState>, CycleError>)
      ensures r == Snapshot(transport, ports, poeIndex, statuses, admin)
    {
      var result: map<int, PortState> := map[];
      var todo := ports.Keys;
      while todo != {}
        invariant todo <= ports.Keys
        invariant result.Keys == ports.Keys - todo
        invariant forall idx | idx in result :: PortRecord(transport, idx, ports[idx], poeIndex, statuses, admin) == Some(result[idx])
        decreases todo
      {
        // the next key of the dictionary, in an order the model leaves open
        NonEmptyHasElement(todo);
        var idx :| idx in todo;
        var poe: Option<PoeStatus> := None;
        if idx in poeIndex {
          poe := ReadPoe(idx, poeIndex[idx]);
          if poe.None? {
            assert PortRecord(transport, idx, ports[idx], poeIndex, statuses, admin).None?;
            return Err(ConversionError);
          }
        }
        var record := PortState(ports[idx], GetOr(statuses, idx, Down), GetOr(admin, idx, false), poe);
        assert PortRecord(transport, idx, ports[idx], poeIndex, statuses, admin) == Some(record);
        result := result[idx := record];
        todo := todo - {idx};
      }
      assert result == map idx | idx in ports :: PortRecord(transport, idx, ports[idx], poeIndex, statuses, admin).value;
      r := Ok(result);
    }

    /** `_async_update_data`, with the snapshot it returns published. */
    method UpdateData() returns (o: Outcome<CycleError>)
      modifies this`ports, this`poeIndex, this`meta, this`data
      ensures (State(), o) == Cycle(transport, old(State()))
    {
      if ports == map[] {
        o := DiscoverPorts();
        if o.Fail? {
          return;
        }
        PopulateDeviceMeta();
      } else {
        UpdateDeviceMetrics();
      }
      var operWalk := transport.walk(OID_IFOPERSTATUS);
      if operWalk.WalkFailed? {
        return Fail(WalkError(OID_IFOPERSTATUS));
      }
      var statuses := TabulateRows(operWalk.rows, OperEntry);
      var adminWalk := transport.walk(OID_IFADMINSTATUS);
      if adminWalk.WalkFailed? {
        return Fail(WalkError(OID_IFADMINSTATUS));
      }
      var admin := TabulateRows(adminWalk.rows, AdminEntry);
      if poeIndex == map[] {
        DiscoverPoe();
      }
      var snapshot := MergePorts(statuses, admin);
      match snapshot
      case Err(e) => o := Fail(e);
      case Ok(m) =>
        data := Some(m);
        o := Pass;
    }

    /** `_V3ArchBackend.async_set_integer`: one SET, sent with the write
        credentials, failing when the device refuses it. */
    method SetInteger(oid: string, value: int) returns (o: Outcome<ControlError>)
      modifies this`writes
      ensures writes == old(writes) + [SetRequest(backend, oid, value)]
      ensures o == if transport.refuses(SetRequest(backend, oid, value)) then Fail(Rejected(oid)) else Pass
    {
      var w := SetRequest(backend, oid, value);
      writes := writes + [w];
      o := if transport.refuses(w) then Fail(Rejected(oid)) else Pass;
    }

    /** `async_set_admin_status`: no check that the port is known. */
    method SetAdminStatus(ifIndex: int, enable: bool) returns (o: Outcome<ControlError>)
      modifies this`writes
      ensures writes == old(writes) + [AdminWrite(backend, ifIndex, enable)]
      ensures o.Fail? <==> transport.refuses(AdminWrite(backend, ifIndex, enable))
    {
      var w := AdminWrite(backend, ifIndex, enable);
      o := SetInteger(w.oid, w.value);
    }

    /** `async_set_poe_admin`: a port without a PoE mapping fails before
        anything is sent. */
    method SetPoeAdmin(ifIndex: int, enable: bool) returns (o: Outcome<ControlError>)
      modifies this`writes
      ensures ifIndex !in poeIndex ==> o == Fail(PoeNotSupported) && writes == old(writes)
      ensures ifIndex in poeIndex ==>
                && writes == old(writes) + [PoeAdminWrite(backend, poeIndex, ifIndex, enable).value]
                && (o.Fail? <==> transport.refuses(writes[|writes| - 1]))
    {
      if ifIndex !in poeIndex {
        return Fail(PoeNotSupported);
      }
      var w := PoeAdminWrite(backend, poeIndex, ifIndex, enable).value;
      o := SetInteger(w.oid, w.value);
    }
  }

  // ---------------------------------------------------------------------------
  // What the control writes mean

  /** The admin SET targets row `ifIndex` of ifAdminStatus with up(1) to
      enable and down(2) to disable, and a poll reading that value back
      reports the port's admin state as requested. */
  lemma AdminWriteReadsBack(backend: BackendConfig, ifIndex: int, enable: bool, text: string, bytes: Option<seq<byte>>)
    ensures var w := AdminWrite(backend, ifIndex, enable);
            && RowIndex(w.oid) == Some(ifIndex)
            && AdminEntry(Row(w.oid, Value(text, Some(w.value), bytes))) == Some((ifIndex, enable))
  {
    RowIndexOfChild(OID_IFADMINSTATUS, ifIndex);
  }

  /** The PoE SET targets the very row the poll reads the port's enable
      state from, and a poll reading that value back reports the requested
      state. */
  lemma PoeWriteReadsBack(backend: BackendConfig, poeIndex: map<int, string>, ifIndex: int, enable: bool,
                          text: string, bytes: Option<seq<byte>>)
    requires ifIndex in poeIndex
    ensures PoeAdminWrite(backend, poeIndex, ifIndex, enable).Some?
    ensures var w := PoeAdminWrite(backend, poeIndex, ifIndex, enable).value;
            && w.oid == AdminEnableOid(poeIndex[ifIndex])
            && EnabledReading(Resp(false, [Value(text, Some(w.value), bytes)])) == Known(enable)
  {
  }

  /** A port discovered from row `j` of a pethPsePortTable walk,
      `<column>.<group>.<port>`, is switched at
      `pethPsePortAdminEnable.<group>.<port>`, provided no later row of the
      walk carries the same port key (a later one would win). */
  lemma PoeWriteTargetsDiscoveredRow(backend: BackendConfig, rows: seq<Row>, j: int,
                                     column: string, group: int, port: int, enable: bool)
    requires 0 <= j < |rows|
    requires rows[j].oid == Child(Child(column, DecimalString(group)), DecimalString(port))
    requires forall j' :: j < j' < |rows| ==> !PoeKeyAt(rows, j', port)
    ensures port in PoeMapping(rows)
    ensures PoeAdminWrite(backend, PoeMapping(rows), port, enable).value.oid
            == Child(Child(OID_PETH_PORT_ADMIN_ENABLE, DecimalString(group)), DecimalString(port))
  {
    var g, p := DecimalString(group), DecimalString(port);
    PoeRowOfChild(column, group, port);
    PoeMappingLastRow(rows, j, port, g + "." + p);
    assert Child(OID_PETH_PORT_ADMIN_ENABLE, g + "." + p) == Child(Child(OID_PETH_PORT_ADMIN_ENABLE, g), p);
  }

  /** Sets use the write community when one is configured and not blank,
      with the read credentials otherwise. */
  lemma SetRequestCredentials(backend: BackendConfig, oid: string, value: int)
    ensures var a := SetRequest(backend, oid, value).auth;
            && (backend.version == V3 ==> a == Usm(backend.username))
            && (backend.version != V3 && backend.communityWrite.Some? && Strip(backend.communityWrite.value) != []
                ==> a == Community(Strip(backend.communityWrite.value), if backend.version == V1 then 0 else 1))
            && (backend.version != V3 && (backend.communityWrite.None? || Strip(backend.communityWrite.value) == [])
                ==> a == Community(backend.communityRead, if backend.version == V1 then 0 else 1))
  {
  }
}
