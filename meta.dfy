/** Device-level metadata: the identity read once after port discovery
    (system name, bridge MAC address, hardware type, firmware version, PoE
    power budget) and the metrics refreshed every cycle (temperature and
    uptime). Each entry is either present with a value or absent. */
module DeviceInfo {
  import opened Wrappers
  import opened PyText
  import opened Snmp

  datatype DeviceMeta = DeviceMeta(
    sysName: Option<string>,
    mac: Option<string>,
    hardware: Option<string>,
    firmware: Option<string>,
    poePowerW: Option<int>,
    temperatureC: Option<int>,
    uptimeSeconds: Option<real>)

  /** Metadata before the first discovery. */
  const NoMeta := DeviceMeta(None, None, None, None, None, None, None)

  // ---------------------------------------------------------------------------
  // Bridge MAC address: `":".join(f"{x:02x}" for x in bytes(raw))`

  /** One lower-case hexadecimal digit. */
  function HexDigit(d: nat): (c: char)
    requires d < 16
    ensures c != ':'
  {
    if d < 10 then ('0' as int + d) as char else ('a' as int + d - 10) as char
  }

  /** `f"{x:02x}"`: two lower-case hexadecimal digits. */
  function Hex2(x: byte): (s: string)
    ensures |s| == 2 && ':' !in s
  {
    [HexDigit(x / 16), HexDigit(x % 16)]
  }

  function HexPairs(b: seq<byte>): seq<string>
  {
    seq(|b|, i requires 0 <= i < |b| => Hex2(b[i]))
  }

  function MacString(b: seq<byte>): string
  {
    Join(HexPairs(b), ':')
  }

  /** The value of one lower-case hexadecimal digit. */
  function HexDigitValue(c: char): Option<nat>
  {
    if '0' <= c <= '9' then Some(c as int - '0' as int)
    else if 'a' <= c <= 'f' then Some(c as int - 'a' as int + 10)
    else None
  }

  /** Reads back one two-digit group. */
  function PairValue(s: string): Option<byte>
  {
    if |s| != 2 then None
    else
      match (HexDigitValue(s[0]), HexDigitValue(s[1]))
      case (Some(h), Some(l)) => if h < 16 && l < 16 then Some(16 * h + l) else None
      case _ => None
  }

  function PairsValue(parts: seq<string>): Option<seq<byte>>
  {
    if parts == [] then Some([])
    else
      match (PairValue(parts[0]), PairsValue(parts[1..]))
      case (Some(x), Some(rest)) => Some([x] + rest)
      case _ => None
  }

  /** Reads a colon-separated MAC rendering back into its bytes. */
  function ParseMac(s: string): Option<seq<byte>>
  {
    if s == [] then Some([]) else PairsValue(Split(s, ':'))
  }

  lemma Hex2Value(x: byte)
    ensures PairValue(Hex2(x)) == Some(x)
  {
    assert HexDigitValue(HexDigit(x / 16)) == Some(x / 16);
    assert HexDigitValue(HexDigit(x % 16)) == Some(x % 16);
  }

  lemma {:induction false} PairsValueOfHex(b: seq<byte>)
    ensures PairsValue(HexPairs(b)) == Some(b)
    decreases |b|
  {
    if b != [] {
      assert HexPairs(b)[1..] == HexPairs(b[1..]);
      Hex2Value(b[0]);
      PairsValueOfHex(b[1..]);
      assert [b[0]] + b[1..] == b;
    }
  }

  /** The rendering is `3n - 1` characters for `n` bytes (two digits per
      byte, one colon between neighbours) and empty for no bytes. */
  lemma {:induction false} MacStringLength(b: seq<byte>)
    ensures |MacString(b)| == if b == [] then 0 else 3 * |b| - 1
    decreases |b|
  {
    if |b| > 1 {
      assert HexPairs(b)[1..] == HexPairs(b[1..]);
      MacStringLength(b[1..]);
    }
  }

  /** The colon-separated rendering loses nothing: the bytes read back. */
  lemma MacRoundTrip(b: seq<byte>)
    ensures ParseMac(MacString(b)) == Some(b)
  {
    var parts := HexPairs(b);
    PairsValueOfHex(b);
    if b != [] {
      MacStringLength(b);
      assert forall j :: 0 <= j < |parts| ==> ':' !in parts[j] by {
        forall j | 0 <= j < |parts| ensures ':' !in parts[j] {
          assert parts[j] == Hex2(b[j]);
        }
      }
      SplitJoin(parts, ':');
    }
  }

  // ---------------------------------------------------------------------------
  // Scalars read as text, and the firmware version

  /** The two identifiers a scalar is tried under: the base, then `base.0`. */
  function ScalarCandidates(base: string): seq<string>
  {
    [base, Child(base, "0")]
  }

  /** The candidate answers a GET with at least one value and no error. */
  predicate Readable(t: Transport, oid: string)
  {
    FirstValue(t.get(oid)).Some?
  }

  function TextAt(t: Transport, oid: string): string
    requires Readable(t, oid)
  {
    FirstValue(t.get(oid)).value.text
  }

  /** The text of the first readable candidate. */
  function FirstText(t: Transport, candidates: seq<string>): Option<string>
  {
    if candidates == [] then None
    else if Readable(t, candidates[0]) then Some(TextAt(t, candidates[0]))
    else FirstText(t, candidates[1..])
  }

  /** `_get_scalar_str`. */
  function ScalarStr(t: Transport, base: string): Option<string>
  {
    FirstText(t, ScalarCandidates(base))
  }

  /** A text is found exactly when some candidate is readable, and it is the
      text of the first readable one. */
  lemma {:induction false} FirstTextSpec(t: Transport, candidates: seq<string>)
    ensures FirstText(t, candidates).Some? <==> exists i :: 0 <= i < |candidates| && Readable(t, candidates[i])
    ensures FirstText(t, candidates).Some? ==>
              exists i :: 0 <= i < |candidates| && Readable(t, candidates[i])
                          && FirstText(t, candidates).value == TextAt(t, candidates[i])
                          && forall i' :: 0 <= i' < i ==> !Readable(t, candidates[i'])
    decreases |candidates|
  {
    if candidates != [] && !Readable(t, candidates[0]) {
      var rest := candidates[1..];
      FirstTextSpec(t, rest);
      assert forall i :: 1 <= i < |candidates| ==> candidates[i] == rest[i - 1];
      if FirstText(t, rest).Some? {
        var i :| 0 <= i < |rest| && Readable(t, rest[i])
                 && FirstText(t, rest).value == TextAt(t, rest[i])
                 && forall i' :: 0 <= i' < i ==> !Readable(t, rest[i']);
        assert candidates[i + 1] == rest[i];
        forall i' | 0 <= i' < i + 1 ensures !Readable(t, candidates[i']) {
          if i' > 0 { assert candidates[i'] == rest[i' - 1]; }
        }
      } else {
        forall i | 0 <= i < |candidates| ensures !Readable(t, candidates[i]) {
          if i > 0 { assert candidates[i] == rest[i - 1]; }
        }
      }
    }
  }

  /** A readable base is used without consulting `base.0`; `base.0` is used
      only when the base is unreadable. */
  lemma ScalarStrSpec(t: Transport, base: string)
    ensures Readable(t, base) ==> ScalarStr(t, base) == Some(TextAt(t, base))
    ensures !Readable(t, base) && Readable(t, Child(base, "0"))
            ==> ScalarStr(t, base) == Some(TextAt(t, Child(base, "0")))
    ensures ScalarStr(t, base).None? <==> !Readable(t, base) && !Readable(t, Child(base, "0"))
  {
    FirstTextSpec(t, ScalarCandidates(base));
    assert ScalarCandidates(base)[1] == Child(base, "0");
    assert ScalarCandidates(base)[1..] == [Child(base, "0")];
  }

  const RAM_MARKER := "RAM:"

  /** `raw.split("RAM:", 1)[0].strip()`. */
  function FirmwareVersion(raw: string): string
  {
    Strip(Before(raw, RAM_MARKER))
  }

  /** `n` is where `raw` is cut: the first `RAM:` marker, or the end. */
  predicate FirstMarkerAt(raw: string, n: int)
  {
    && 0 <= n <= |raw|
    && (forall i :: 0 <= i < n ==> !OccursAt(raw, RAM_MARKER, i))
    && (n < |raw| ==> OccursAt(raw, RAM_MARKER, n))
  }

  lemma BeforeFirstMarker(raw: string, n: int)
    requires FirstMarkerAt(raw, n)
    ensures Before(raw, RAM_MARKER) == raw[..n]
  {
  }

  /** The firmware version is the text before the first `RAM:` marker (all
      of it when there is none), with surrounding whitespace removed. */
  lemma FirmwareVersionSpec(raw: string)
    ensures exists n :: FirstMarkerAt(raw, n) && exists i :: StrippedAt(raw[..n], FirmwareVersion(raw), i)
    ensures FirmwareVersion(raw) != [] ==> !IsSpace(FirmwareVersion(raw)[0]) && !IsSpace(Last(FirmwareVersion(raw)))
  {
    var p := Before(raw, RAM_MARKER);
    StripSpec(p);
    var i :| StrippedAt(p, Strip(p), i);
    assert raw[..|p|] == p;
    assert FirstMarkerAt(raw, |p|);
    assert StrippedAt(raw[..|p|], FirmwareVersion(raw), i);
  }

  lemma RamLineMarker(raw: string)
    requires raw == "v1.2.3 RAM:256k FLASH:..."
    ensures FirstMarkerAt(raw, 7)
  {
    assert raw[7..11] == RAM_MARKER;
    forall i | 0 <= i < 7 ensures !OccursAt(raw, RAM_MARKER, i) {
      assert raw[i] != 'R';
      assert raw[i..i + 4][0] == raw[i];
    }
  }

  lemma StripVersionPrefix(p: string)
    requires p == "v1.2.3 "
    ensures Strip(p) == "v1.2.3"
  {
    assert !IsSpace(p[0]);
    assert TrimStart(p) == p;
    assert IsSpace(p[6]) && !IsSpace(p[5]);
    assert TrimEnd(p) == TrimEnd(p[..6]);
    assert TrimEnd(p[..6]) == p[..6];
  }

  /** A version line carrying memory sizes keeps only the version. */
  lemma FirmwareOfRamLine(raw: string)
    requires raw == "v1.2.3 RAM:256k FLASH:..."
    ensures FirmwareVersion(raw) == "v1.2.3"
  {
    RamLineMarker(raw);
    BeforeFirstMarker(raw, 7);
    var p := raw[..7];
    assert p == "v1.2.3 ";
    StripVersionPrefix(p);
    assert Before(raw, RAM_MARKER) == p;
  }

  // ---------------------------------------------------------------------------
  // Identity

  /** A GET of a single scalar, rendered by `str()`. */
  function TextOf(t: Transport, oid: string): Option<string>
  {
    if Readable(t, oid) then Some(TextAt(t, oid)) else None
  }

  /** The bridge address as colon-separated hex when the value converts to
      bytes, its text otherwise. */
  function MacOf(t: Transport): Option<string>
  {
    match FirstValue(t.get(OID_BRIDGE_ADDR))
    case None => None
    case Some(v) =>
      match v.asBytes
      case Some(b) => Some(MacString(b))
      case None => Some(v.text)
  }

  /** The PoE power budget when it is readable and converts to an integer. */
  function PoeBudgetOf(t: Transport): Option<int>
  {
    match FirstValue(t.get(OID_POE_POWER_W))
    case None => None
    case Some(v) => v.asInt
  }

  /** The metadata `_populate_device_meta` assigns before refreshing the
      metrics: a fresh record, so earlier metrics are dropped. */
  function IdentityMeta(t: Transport): DeviceMeta
  {
    var fwRaw := ScalarStr(t, OID_FW_VER_BASE);
    DeviceMeta(
      TextOf(t, OID_SYSNAME),
      MacOf(t),
      ScalarStr(t, OID_HW_TYPE_BASE),
      if fwRaw.Some? then Some(FirmwareVersion(fwRaw.value)) else None,
      PoeBudgetOf(t),
      None,
      None)
  }

  /** Reading the identity never fails as a whole: each entry is present
      exactly when its own read answered (and, for the PoE budget, converted),
      and the metrics start out absent. The name is the sysName text; a
      bridge address that converts to bytes is rendered so that it parses
      back to those bytes, and otherwise is kept as its text; hardware and
      firmware come from the base object when it answers and from `.0`
      otherwise, the firmware cut at its first `RAM:` and stripped. */
  lemma IdentityMetaSpec(t: Transport)
    ensures IdentityMeta(t).sysName.Some? <==> Readable(t, OID_SYSNAME)
    ensures Readable(t, OID_SYSNAME) ==> IdentityMeta(t).sysName.value == TextAt(t, OID_SYSNAME)
    ensures IdentityMeta(t).mac.Some? <==> Readable(t, OID_BRIDGE_ADDR)
    ensures Readable(t, OID_BRIDGE_ADDR) ==>
              var v := FirstValue(t.get(OID_BRIDGE_ADDR)).value;
              if v.asBytes.Some? then ParseMac(IdentityMeta(t).mac.value) == v.asBytes
              else IdentityMeta(t).mac.value == v.text
    ensures IdentityMeta(t).hardware.None? <==>
              !Readable(t, OID_HW_TYPE_BASE) && !Readable(t, Child(OID_HW_TYPE_BASE, "0"))
    ensures Readable(t, OID_HW_TYPE_BASE) ==> IdentityMeta(t).hardware == Some(TextAt(t, OID_HW_TYPE_BASE))
    ensures !Readable(t, OID_HW_TYPE_BASE) && Readable(t, Child(OID_HW_TYPE_BASE, "0")) ==>
              IdentityMeta(t).hardware == Some(TextAt(t, Child(OID_HW_TYPE_BASE, "0")))
    ensures IdentityMeta(t).firmware.None? <==>
              !Readable(t, OID_FW_VER_BASE) && !Readable(t, Child(OID_FW_VER_BASE, "0"))
    ensures Readable(t, OID_FW_VER_BASE) ==>
              IdentityMeta(t).firmware == Some(FirmwareVersion(TextAt(t, OID_FW_VER_BASE)))
    ensures !Readable(t, OID_FW_VER_BASE) && Readable(t, Child(OID_FW_VER_BASE, "0")) ==>
              IdentityMeta(t).firmware == Some(FirmwareVersion(TextAt(t, Child(OID_FW_VER_BASE, "0"))))
    ensures IdentityMeta(t).poePowerW.Some? <==> Parses(t, OID_POE_POWER_W)
    ensures Parses(t, OID_POE_POWER_W) ==> IdentityMeta(t).poePowerW == Some(IntAt(t, OID_POE_POWER_W))
    ensures IdentityMeta(t).temperatureC.None? && IdentityMeta(t).uptimeSeconds.None?
  {
    ScalarStrSpec(t, OID_HW_TYPE_BASE);
    ScalarStrSpec(t, OID_FW_VER_BASE);
    if Readable(t, OID_BRIDGE_ADDR) {
      var v := FirstValue(t.get(OID_BRIDGE_ADDR)).value;
      if v.asBytes.Some? {
        MacRoundTrip(v.asBytes.value);
      }
    }
  }

  // ---------------------------------------------------------------------------
  // Metrics

  /** What one metric refresh does to a stored metric. */
  datatype MetricUpdate<T> = Store(value: T) | Clear | Keep

  function Applied<T>(current: Option<T>, u: MetricUpdate<T>): Option<T>
  {
    match u
    case Store(v) => Some(v)
    case Clear => None
    case Keep => current
  }

  /** The candidate answers with a value that converts to an integer. */
  predicate Parses(t: Transport, oid: string)
  {
    Readable(t, oid) && FirstValue(t.get(oid)).value.asInt.Some?
  }

  function IntAt(t: Transport, oid: string): int
    requires Parses(t, oid)
  {
    FirstValue(t.get(oid)).value.asInt.value
  }

  /** The temperature loop from the given candidates on, `foundInvalid`
      recording that an earlier candidate answered with a value that does
      not convert. */
  function TemperatureFrom(t: Transport, candidates: seq<string>, foundInvalid: bool): MetricUpdate<int>
  {
    if candidates == [] then (if foundInvalid then Clear else Keep)
    else if Parses(t, candidates[0]) then Store(IntAt(t, candidates[0]))
    else TemperatureFrom(t, candidates[1..], foundInvalid || Readable(t, candidates[0]))
  }

  function TemperatureUpdate(t: Transport): MetricUpdate<int>
  {
    TemperatureFrom(t, ScalarCandidates(OID_DEVICE_TEMPERATURE), false)
  }

  /** The first candidate whose value converts is stored; when none
      converts, the stored temperature is removed if some candidate answered
      at all, and kept untouched if none did. */
  lemma {:induction false} TemperatureFromSpec(t: Transport, candidates: seq<string>, foundInvalid: bool)
    ensures TemperatureFrom(t, candidates, foundInvalid).Store? ==>
              exists i :: 0 <= i < |candidates| && Parses(t, candidates[i])
                          && TemperatureFrom(t, candidates, foundInvalid).value == IntAt(t, candidates[i])
                          && forall i' :: 0 <= i' < i ==> !Parses(t, candidates[i'])
    ensures TemperatureFrom(t, candidates, foundInvalid).Store? <==>
              exists i :: 0 <= i < |candidates| && Parses(t, candidates[i])
    ensures TemperatureFrom(t, candidates, foundInvalid).Keep? <==>
              !foundInvalid && forall i :: 0 <= i < |candidates| ==> !Readable(t, candidates[i])
    decreases |candidates|
  {
    if candidates != [] && !Parses(t, candidates[0]) {
      var rest := candidates[1..];
      var fi := foundInvalid || Readable(t, candidates[0]);
      TemperatureFromSpec(t, rest, fi);
      assert forall i :: 1 <= i < |candidates| ==> candidates[i] == rest[i - 1];
      if TemperatureFrom(t, rest, fi).Store? {
        var i :| 0 <= i < |rest| && Parses(t, rest[i])
                 && TemperatureFrom(t, rest, fi).value == IntAt(t, rest[i])
                 && forall i' :: 0 <= i' < i ==> !Parses(t, rest[i']);
        assert candidates[i + 1] == rest[i];
        forall i' | 0 <= i' < i + 1 ensures !Parses(t, candidates[i']) {
          if i' > 0 { assert candidates[i'] == rest[i' - 1]; }
        }
      } else {
        forall i | 0 <= i < |candidates| ensures !Parses(t, candidates[i]) {
          if i > 0 { assert candidates[i] == rest[i - 1]; }
        }
      }
      if !TemperatureFrom(t, rest, fi).Keep? && !fi {
        var i :| 0 <= i < |rest| && Readable(t, rest[i]);
        assert candidates[i + 1] == rest[i];
      }
    }
  }

  /** The temperature refresh: a converting base wins without `.0` being
      consulted; the temperature is removed exactly when neither candidate
      converts and at least one answered. */
  lemma TemperatureUpdateSpec(t: Transport)
    ensures Parses(t, OID_DEVICE_TEMPERATURE) ==> TemperatureUpdate(t) == Store(IntAt(t, OID_DEVICE_TEMPERATURE))
    ensures !Parses(t, OID_DEVICE_TEMPERATURE) && Parses(t, Child(OID_DEVICE_TEMPERATURE, "0"))
            ==> TemperatureUpdate(t) == Store(IntAt(t, Child(OID_DEVICE_TEMPERATURE, "0")))
    ensures TemperatureUpdate(t).Clear? <==>
              && !Parses(t, OID_DEVICE_TEMPERATURE) && !Parses(t, Child(OID_DEVICE_TEMPERATURE, "0"))
              && (Readable(t, OID_DEVICE_TEMPERATURE) || Readable(t, Child(OID_DEVICE_TEMPERATURE, "0")))
  {
    var c := ScalarCandidates(OID_DEVICE_TEMPERATURE);
    TemperatureFromSpec(t, c, false);
    assert c[1] == Child(OID_DEVICE_TEMPERATURE, "0");
    assert c[1..] == [c[1]];
    if !Parses(t, c[0]) {
      TemperatureFromSpec(t, c[1..], Readable(t, c[0]));
    }
  }

  /** A temperature that stops converting removes the one stored earlier:
      neither the old value nor zero remains. */
  lemma InvalidTemperatureClears(t: Transport, previous: int)
    requires Readable(t, OID_DEVICE_TEMPERATURE) && !Parses(t, OID_DEVICE_TEMPERATURE)
    requires !Parses(t, Child(OID_DEVICE_TEMPERATURE, "0"))
    ensures Applied(Some(previous), TemperatureUpdate(t)) == None
  {
    TemperatureUpdateSpec(t);
  }

  /** Centiseconds as seconds: `ticks / 100`. */
  function Seconds(ticks: int): real
  {
    ticks as real / 100.0
  }

  /** The uptime refresh: kept when sysUpTime does not answer, stored as
      seconds when it converts, removed when it answers with something
      that does not convert. */
  function UptimeUpdate(t: Transport): MetricUpdate<real>
  {
    if !Readable(t, OID_SYSUPTIME) then Keep
    else if Parses(t, OID_SYSUPTIME) then Store(Seconds(IntAt(t, OID_SYSUPTIME)))
    else Clear
  }

  /** A stored uptime gives back the tick count it came from. */
  lemma UptimeSpec(t: Transport)
    ensures UptimeUpdate(t).Store? <==> Parses(t, OID_SYSUPTIME)
    ensures UptimeUpdate(t).Store? ==> UptimeUpdate(t).value * 100.0 == IntAt(t, OID_SYSUPTIME) as real
    ensures UptimeUpdate(t).Keep? <==> !Readable(t, OID_SYSUPTIME)
  {
  }

  lemma UptimeOfTicks()
    ensures Seconds(123456) == 1234.56
  {
  }

  /** `_async_update_device_metrics`: temperature, then uptime. */
  function WithMetrics(t: Transport, m: DeviceMeta): DeviceMeta
  {
    m.(temperatureC := Applied(m.temperatureC, TemperatureUpdate(t)),
       uptimeSeconds := Applied(m.uptimeSeconds, UptimeUpdate(t)))
  }

  /** `_populate_device_meta`. */
  function PopulatedMeta(t: Transport): DeviceMeta
  {
    WithMetrics(t, IdentityMeta(t))
  }

  /** A metrics refresh leaves the identity entries alone, and a population
      depends on the device only, not on what was stored before. */
  lemma MetricsKeepIdentity(t: Transport, m: DeviceMeta)
    ensures WithMetrics(t, m).(temperatureC := m.temperatureC, uptimeSeconds := m.uptimeSeconds) == m
    ensures PopulatedMeta(t).temperatureC == Applied(None, TemperatureUpdate(t))
    ensures PopulatedMeta(t).uptimeSeconds == Applied(None, UptimeUpdate(t))
  {
  }
}
