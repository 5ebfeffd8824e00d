/** What the coordinator's loops over walked table rows build: the set of
    Ethernet interface indexes, and dictionaries keyed by row index in which
    a later row overwrites an earlier one with the same key, and rows whose
    key or value does not convert are skipped. */
module Tables {
  import opened Wrappers
  import opened PyText
  import opened Snmp
  import opened Naming

  datatype LinkStatus = Up | Down

  // ---------------------------------------------------------------------------
  // Dictionaries built row by row

  /** The dictionary a `for oid, value in rows: d[key] = val` loop builds,
      where `entry` gives the key and value of a row, or `None` when the
      loop skips the row (a conversion raised and the loop continued). */
  function Tabulate<T>(rows: seq<Row>, entry: Row -> Option<(int, T)>): map<int, T>
    decreases |rows|
  {
    if rows == [] then map[]
    else
      var m := Tabulate(rows[..|rows| - 1], entry);
      match entry(Last(rows))
      case None => m
      case Some(kv) => m[kv.0 := kv.1]
  }

  /** Row `j` of `rows` is an entry for key `k`. */
  predicate EntryAt<T>(rows: seq<Row>, entry: Row -> Option<(int, T)>, j: int, k: int)
  {
    0 <= j < |rows| && entry(rows[j]).Some? && entry(rows[j]).value.0 == k
  }

  /** A key is in the dictionary exactly when some row is an entry for it,
      and its value is that of the last such row. */
  lemma {:induction false} TabulateSpec<T>(rows: seq<Row>, entry: Row -> Option<(int, T)>, k: int)
    ensures k in Tabulate(rows, entry) <==> exists j :: EntryAt(rows, entry, j, k)
    ensures k in Tabulate(rows, entry) ==>
              exists j :: EntryAt(rows, entry, j, k)
                          && Tabulate(rows, entry)[k] == entry(rows[j]).value.1
                          && forall j' :: j < j' < |rows| ==> !EntryAt(rows, entry, j', k)
    decreases |rows|
  {
    if rows != [] {
      var n := |rows| - 1;
      var init := rows[..n];
      TabulateSpec(init, entry, k);
      assert forall j :: 0 <= j < n ==> (EntryAt(init, entry, j, k) <==> EntryAt(rows, entry, j, k));
      if EntryAt(rows, entry, n, k) {
        assert Tabulate(rows, entry)[k] == entry(rows[n]).value.1;
      } else if k in Tabulate(init, entry) {
        var j :| EntryAt(init, entry, j, k)
                 && Tabulate(init, entry)[k] == entry(init[j]).value.1
                 && forall j' :: j < j' < n ==> !EntryAt(init, entry, j', k);
        assert EntryAt(rows, entry, j, k);
      }
    }
  }

  /** A row that is an entry for `k` with value `v`, and after which no row
      is an entry for `k`, decides the dictionary's value for `k`. */
  lemma TabulateLast<T>(rows: seq<Row>, entry: Row -> Option<(int, T)>, j: int, k: int, v: T)
    requires 0 <= j < |rows| && entry(rows[j]) == Some((k, v))
    requires forall j' :: j < j' < |rows| ==> !EntryAt(rows, entry, j', k)
    ensures k in Tabulate(rows, entry) && Tabulate(rows, entry)[k] == v
  {
    TabulateSpec(rows, entry, k);
    assert EntryAt(rows, entry, j, k);
    var last :| EntryAt(rows, entry, last, k)
                && Tabulate(rows, entry)[k] == entry(rows[last]).value.1
                && forall j' :: last < j' < |rows| ==> !EntryAt(rows, entry, j', k);
    assert last == j;
  }

  // ---------------------------------------------------------------------------
  // Sets built row by row

  /** The set a `for oid, value in rows: s.add(key)` loop builds, where
      `pick` gives the key a row adds, or `None` when the row adds nothing. */
  function Collect(rows: seq<Row>, pick: Row -> Option<int>): set<int>
    decreases |rows|
  {
    if rows == [] then {}
    else
      var s := Collect(rows[..|rows| - 1], pick);
      match pick(Last(rows))
      case None => s
      case Some(k) => s + {k}
  }

  /** Row `j` of `rows` adds key `k`. */
  predicate PickedAt(rows: seq<Row>, pick: Row -> Option<int>, j: int, k: int)
  {
    0 <= j < |rows| && pick(rows[j]) == Some(k)
  }

  /** A key is in the set exactly when some row adds it: a later row never
      takes a key out again. */
  lemma {:induction false} CollectSpec(rows: seq<Row>, pick: Row -> Option<int>, k: int)
    ensures k in Collect(rows, pick) <==> exists j :: PickedAt(rows, pick, j, k)
    decreases |rows|
  {
    if rows != [] {
      var n := |rows| - 1;
      var init := rows[..n];
      CollectSpec(init, pick, k);
      assert forall j :: 0 <= j < n ==> (PickedAt(init, pick, j, k) <==> PickedAt(rows, pick, j, k));
      if pick(rows[n]) == Some(k) {
        assert PickedAt(rows, pick, n, k);
      }
    }
  }

  // ---------------------------------------------------------------------------
  // The row handling of each loop

  /** ifType rows: the integer index of a row whose integer value is
      ethernetCsmacd(6). */
  function EthernetEntry(row: Row): Option<int>
  {
    match RowIndex(row.oid)
    case None => None
    case Some(k) => if row.value.asInt == Some(IF_TYPE_ETHERNET) then Some(k) else None
  }

  /** ifName rows: integer index kept only when it is Ethernet, `str(value)`. */
  function NameEntry(ethernet: set<int>, row: Row): Option<(int, string)>
  {
    match RowIndex(row.oid)
    case None => None
    case Some(k) => if k in ethernet then Some((k, row.value.text)) else None
  }

  /** ifOperStatus rows: `"Up" if int(value) == 1 else "Down"`. */
  function OperEntry(row: Row): Option<(int, LinkStatus)>
  {
    match RowIndex(row.oid)
    case None => None
    case Some(k) =>
      match row.value.asInt
      case None => None
      case Some(code) => Some((k, if code == CODE_UP then Up else Down))
  }

  /** ifAdminStatus rows: `int(value) == 1`. */
  function AdminEntry(row: Row): Option<(int, bool)>
  {
    match RowIndex(row.oid)
    case None => None
    case Some(k) =>
      match row.value.asInt
      case None => None
      case Some(code) => Some((k, code == CODE_UP))
  }

  /** The ifName row handler for a given set of Ethernet indexes. */
  function NameEntries(ethernet: set<int>): Row -> Option<(int, string)>
  {
    row => NameEntry(ethernet, row)
  }

  /** pethPsePortTable rows. */
  function PoeEntry(row: Row): Option<(int, string)>
  {
    PoeRow(row.oid)
  }

  /** The `ethernet_indexes` set built from the ifType walk. */
  function EthernetIndexes(typeRows: seq<Row>): set<int>
  {
    Collect(typeRows, EthernetEntry)
  }

  /** The port map of one discovery from the ifType and ifName walks. */
  function PortsOf(typeRows: seq<Row>, nameRows: seq<Row>): map<int, string>
  {
    Tabulate(nameRows, NameEntries(EthernetIndexes(typeRows)))
  }

  /** The status dictionaries and the PoE mapping of one cycle. */
  function OperStatuses(rows: seq<Row>): map<int, LinkStatus>
  {
    Tabulate(rows, OperEntry)
  }

  function AdminStatuses(rows: seq<Row>): map<int, bool>
  {
    Tabulate(rows, AdminEntry)
  }

  function PoeMapping(rows: seq<Row>): map<int, string>
  {
    Tabulate(rows, PoeEntry)
  }

  // ---------------------------------------------------------------------------
  // What each loop keeps

  /** Row `j` of a walk carries the integer index `k`. */
  predicate IndexedAt(rows: seq<Row>, j: int, k: int)
  {
    0 <= j < |rows| && RowIndex(rows[j].oid) == Some(k)
  }

  /** Port discovery keeps exactly the indexes that have an ifType row
      saying ethernetCsmacd and an ifName row, each named by its last
      ifName row. */
  lemma PortsOfSpec(typeRows: seq<Row>, nameRows: seq<Row>, k: int)
    ensures k in PortsOf(typeRows, nameRows) <==>
              (exists j :: PickedAt(typeRows, EthernetEntry, j, k)) && (exists j :: IndexedAt(nameRows, j, k))
    ensures k in PortsOf(typeRows, nameRows) ==>
              exists j :: IndexedAt(nameRows, j, k)
                          && PortsOf(typeRows, nameRows)[k] == nameRows[j].value.text
                          && forall j' :: j < j' < |nameRows| ==> !IndexedAt(nameRows, j', k)
  {
    var ethernet := EthernetIndexes(typeRows);
    var entry := NameEntries(ethernet);
    CollectSpec(typeRows, EthernetEntry, k);
    TabulateSpec(nameRows, entry, k);
    assert forall j :: EntryAt(nameRows, entry, j, k) <==> k in ethernet && IndexedAt(nameRows, j, k);
  }

  /** Row `j` of a pethPsePortTable walk has at least two components and
      the integer `k` as its last one. */
  predicate PoeKeyAt(rows: seq<Row>, j: int, k: int)
  {
    0 <= j < |rows| && '.' in rows[j].oid && ParseInt(Last(Split(rows[j].oid, '.'))) == Some(k)
  }

  /** The PoE mapping has key `k` exactly when some row ends in the integer
      `k` after at least one dot: rows with a single component or a
      non-integer last component never add a key. */
  lemma PoeMappingKeys(rows: seq<Row>, k: int)
    ensures k in PoeMapping(rows) <==> exists j :: PoeKeyAt(rows, j, k)
  {
    TabulateSpec(rows, PoeEntry, k);
    forall j | 0 <= j < |rows|
      ensures EntryAt(rows, PoeEntry, j, k) <==> PoeKeyAt(rows, j, k)
    {
      PoeRowSkips(rows[j].oid);
    }
  }

  /** A row that gives key `k` with text `gp`, and after which no row
      carries key `k`, decides the mapping's value for `k`. */
  lemma PoeMappingLastRow(rows: seq<Row>, j: int, k: int, gp: string)
    requires 0 <= j < |rows| && PoeRow(rows[j].oid) == Some((k, gp))
    requires forall j' :: j < j' < |rows| ==> !PoeKeyAt(rows, j', k)
    ensures k in PoeMapping(rows) && PoeMapping(rows)[k] == gp
  {
    forall j' | j < j' < |rows|
      ensures !EntryAt(rows, PoeEntry, j', k)
    {
      assert !PoeKeyAt(rows, j', k);
      PoeRowSkips(rows[j'].oid);
      assert PoeEntry(rows[j']) == PoeRow(rows[j'].oid);
    }
    TabulateLast(rows, PoeEntry, j, k, gp);
  }
}
