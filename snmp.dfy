/** The SNMP side of the coordinator: the object identifiers it uses, the
    values a device returns, and the transport as deterministic data.

    A transport is what one poll sees of the device: the answer to every GET,
    the rows of every table walk, and whether the device refuses a given SET.
    The pysnmp engine, USM key handling and UDP target selection behind it are
    not modelled. */
module Snmp {
  import opened Wrappers
  import opened PyText

  type byte = b: int | 0 <= b < 256

  /** One SNMP value as the coordinator uses it: `str(v)`, `int(v)` and
      `bytes(v)`, where `None` stands for the `ValueError` or `TypeError`
      the conversion raises. */
  datatype Value = Value(text: string, asInt: Option<int>, asBytes: Option<seq<byte>>)

  /** One row of a table walk: the row's object identifier, rendered as
      dotted text, and its value. */
  datatype Row = Row(oid: string, value: Value)

  /** The outcome of one GET as the coordinator's handlers see it. `Resp` is
      what pysnmp returns: an error flag (set for a timeout, an error
      indication or an error status) and the returned values. `Raise` is
      the `UpdateFailed` the coordinator's GET wrapper raises when it has
      no backend, which every `except UpdateFailed` around a GET catches.
      The coordinator builds its backend on construction, so a device never
      produces `Raise`; the handlers' behaviour on it is modelled all the
      same. */
  datatype GetResult = Raise | Resp(error: bool, values: seq<Value>)

  /** A walk either fails (the transport raises `UpdateFailed` on any error
      indication or status), or yields its rows in order. */
  datatype WalkResult = WalkFailed | Rows(rows: seq<Row>)

  datatype SnmpVersion = V1 | V2c | V3

  /** The credentials a request is sent with. */
  datatype Auth = Community(community: string, mpModel: nat) | Usm(user: string)

  /** One SET the coordinator sent: target, integer value and credentials. */
  datatype Write = Write(oid: string, value: int, auth: Auth)

  datatype Transport = Transport(
    get: string -> GetResult,
    walk: string -> WalkResult,
    refuses: Write -> bool)

  /** The settings the backend is built from. */
  datatype BackendConfig = BackendConfig(
    version: SnmpVersion,
    communityRead: string,
    communityWrite: Option<string>,
    username: string)

  // ---------------------------------------------------------------------------
  // Object identifiers and codes

  const OID_SYSNAME := "1.3.6.1.2.1.1.5.0"
  const OID_IFTYPE := "1.3.6.1.2.1.2.2.1.3"
  const OID_IFOPERSTATUS := "1.3.6.1.2.1.2.2.1.8"
  const OID_IFADMINSTATUS := "1.3.6.1.2.1.2.2.1.7"
  const OID_IFNAME := "1.3.6.1.2.1.31.1.1.1.1"
  const OID_BRIDGE_ADDR := "1.3.6.1.2.1.17.1.1.0"
  const OID_HW_TYPE_BASE := "1.3.6.1.4.1.248.14.1.1.9.1.3.1"
  const OID_FW_VER_BASE := "1.3.6.1.4.1.248.14.1.1.9.1.5.1"
  const OID_POE_POWER_W := "1.3.6.1.2.1.105.1.3.1.1.2.1"
  const OID_DEVICE_TEMPERATURE := "1.3.6.1.4.1.248.14.2.5.1"
  const OID_SYSUPTIME := "1.3.6.1.2.1.1.3.0"
  const OID_PETH_PORT_TABLE := "1.3.6.1.2.1.105.1.1.1"
  const OID_PETH_PORT_ADMIN_ENABLE := OID_PETH_PORT_TABLE + ".3"
  const OID_PETH_PORT_DETECT_STATUS := OID_PETH_PORT_TABLE + ".6"
  const OID_PETH_PORT_POWER_W := "1.3.6.1.4.1.248.14.2.14.2.1.2"

  /** ifType ethernetCsmacd(6) of RFC 2863. */
  const IF_TYPE_ETHERNET := 6
  /** up(1) of ifOperStatus and ifAdminStatus, true(1) of pethPsePortAdminEnable. */
  const CODE_UP := 1
  /** down(2) of ifAdminStatus, false(2) of pethPsePortAdminEnable. */
  const CODE_DOWN := 2

  /** `f"{base}.{suffix}"`. */
  function Child(base: string, suffix: string): string
  {
    base + "." + suffix
  }

  /** The first value of a GET that raised nothing, reported no error and
      returned at least one binding: `not (err or status) and var_binds`. */
  function FirstValue(r: GetResult): Option<Value>
  {
    if r.Resp? && !r.error && r.values != [] then Some(r.values[0]) else None
  }

  /** The credentials of reads, built once by the backend. */
  function ReadAuth(cfg: BackendConfig): Auth
  {
    match cfg.version
    case V1 => Community(cfg.communityRead, 0)
    case V2c => Community(cfg.communityRead, 1)
    case V3 => Usm(cfg.username)
  }

  /** The credentials of a SET: for v1 and v2c a write community replaces
      the read community when it is set and not blank after stripping, with
      the same message-processing model; otherwise reads and writes share
      credentials. */
  function WriteAuth(cfg: BackendConfig): (a: Auth)
    ensures cfg.version == V3 ==> a == ReadAuth(cfg)
    ensures cfg.version != V3 && (cfg.communityWrite.None? || Strip(cfg.communityWrite.value) == [])
            ==> a == ReadAuth(cfg)
    ensures cfg.version != V3 && cfg.communityWrite.Some? && Strip(cfg.communityWrite.value) != []
            ==> a.Community? && a.community == Strip(cfg.communityWrite.value)
                && a.mpModel == ReadAuth(cfg).mpModel
  {
    var w := if cfg.communityWrite.Some? then Strip(cfg.communityWrite.value) else "";
    if cfg.version != V3 && w != [] then
      Community(w, if cfg.version == V1 then 0 else 1)
    else ReadAuth(cfg)
  }

  /** The integer written for an enable/disable request. */
  function EnableCode(enable: bool): int
  {
    if enable then CODE_UP else CODE_DOWN
  }

  /** The rendering of a pethPsePortDetectionStatus code: the integration's
      own name for codes 1 to 6 (`DETECTION_STATUS_MAP` in const.py), or the
      decimal code. */
  function DetectStatusName(code: int): string
  {
    if code == 1 then "Disabled"
    else if code == 2 then "Searching"
    else if code == 3 then "Delivering"
    else if code == 4 then "Fault"
    else if code == 5 then "Test"
    else if code == 6 then "Other"
    else DecimalString(code)
  }

  /** The six names of detection codes 1 to 6. */
  predicate IsDetectName(s: string)
  {
    s == "Disabled" || s == "Searching" || s == "Delivering" || s == "Fault" || s == "Test" || s == "Other"
  }

  lemma DecimalStart(n: int)
    ensures |DecimalString(n)| > 0
    ensures DecimalString(n)[0] == '-' || IsDigit(DecimalString(n)[0])
  {
    var digits := NatString(if n < 0 then -n else n);
    assert IsDigit(digits[0]);
  }

  lemma NotDetectName(s: string)
    requires s != [] && (s[0] == '-' || IsDigit(s[0]))
    ensures !IsDetectName(s)
  {
    assert s[0] != 'D' && s[0] != 'S' && s[0] != 'F' && s[0] != 'T' && s[0] != 'O';
  }

  /** The detection name determines the code: named codes are 1 to 6, and
      every other code can be read back from its decimal rendering. */
  lemma DetectStatusNameDecodes(code: int)
    ensures 1 <= code <= 6 <==> IsDetectName(DetectStatusName(code))
    ensures !(1 <= code <= 6) ==> ParseInt(DetectStatusName(code)) == Some(code)
  {
    if !(1 <= code <= 6) {
      var s := DecimalString(code);
      assert DetectStatusName(code) == s;
      DecimalStart(code);
      NotDetectName(s);
      DecimalRoundTrip(code);
    }
  }

  lemma DetectStatusNameInjective(a: int, b: int)
    requires DetectStatusName(a) == DetectStatusName(b)
    ensures a == b
  {
    DetectStatusNameDecodes(a);
    DetectStatusNameDecodes(b);
  }
}
