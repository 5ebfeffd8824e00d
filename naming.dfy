/** Names and keys: the display-name clean-up applied to ifName values and
    the parsing of table-row object identifiers into the integer keys the
    coordinator stores ports under. */
module Naming {
  import opened Wrappers
  import opened PyText
  import opened Snmp

  /** `normalize_port_name`: a name of more than two slash-separated
      segments (a stack-prefixed name such as `1/2/3`) loses its first
      segment; any other name is returned as it is. */
  function NormalizePortName(name: string): (r: string)
    ensures Count(name, '/') <= 1 ==> r == name
    ensures Count(name, '/') >= 2 ==> '/' in name && r == name[FirstIndex(name, '/') + 1..]
    ensures Count(name, '/') >= 2 ==> Split(r, '/') == Split(name, '/')[1..]
  {
    SplitCount(name, '/');
    var parts := Split(name, '/');
    if |parts| > 2 then
      var k := FirstIndex(name, '/');
      SplitAtFirst(name, '/');
      JoinSplit(name[k + 1..], '/');
      Join(parts[1..], '/')
    else name
  }

  /** Normalising twice drops a further segment only while three or more
      remain: a name with exactly two slashes is stable after one step. */
  lemma NormalizeTwoSlashesStable(name: string)
    requires Count(name, '/') == 2
    ensures NormalizePortName(NormalizePortName(name)) == NormalizePortName(name)
  {
    var r := NormalizePortName(name);
    SplitCount(name, '/');
    SplitCount(r, '/');
  }

  /** `int(str(oid).split(".")[-1])`: the row index carried by the last
      dot-separated component of a row identifier, if it is an integer. */
  function RowIndex(oid: string): Option<int>
  {
    ParseInt(Last(Split(oid, '.')))
  }

  /** A row identifier built as `<column>.<index>` carries that index. */
  lemma RowIndexOfChild(column: string, index: int)
    ensures RowIndex(Child(column, DecimalString(index))) == Some(index)
  {
    DecimalHasNoSeparator(index);
    assert Child(column, DecimalString(index)) == column + ['.'] + DecimalString(index);
    LastPieceAfter(column, '.', DecimalString(index));
    DecimalRoundTrip(index);
  }

  /** A row identifier whose last component is not an integer has no index. */
  lemma RowIndexOfNonInteger(column: string, last: string)
    requires '.' !in last && ParseInt(last).None?
    ensures RowIndex(Child(column, last)).None?
  {
    assert Child(column, last) == column + ['.'] + last;
    LastPieceAfter(column, '.', last);
  }

  /** One pethPsePortTable row: `suffix = oid.split(".")[-2:]` keyed by
      `int(suffix[1])` with value `".".join(suffix)`; a row identifier with
      fewer than two components, or a non-integer last one, gives nothing. */
  function PoeRow(oid: string): Option<(int, string)>
  {
    var parts := Split(oid, '.');
    if |parts| < 2 then None
    else
      var group, port := parts[|parts| - 2], parts[|parts| - 1];
      match ParseInt(port)
      case None => None
      case Some(k) => Some((k, group + "." + port))
  }

  /** A pethPsePortTable row gives a key exactly when its identifier has at
      least two components and its last one is an integer; that integer is
      the key. Any other row is skipped. */
  lemma PoeRowSkips(oid: string)
    ensures PoeRow(oid).Some? <==> '.' in oid && ParseInt(Last(Split(oid, '.'))).Some?
    ensures PoeRow(oid).Some? ==> PoeRow(oid).value.0 == ParseInt(Last(Split(oid, '.'))).value
  {
    SplitCount(oid, '.');
    assert '.' in oid <==> '.' in multiset(oid);
  }

  lemma SplitTwoChildren(column: string, group: string, port: string)
    requires '.' !in group && '.' !in port
    ensures Split(Child(Child(column, group), port), '.') == Split(column, '.') + [group, port]
  {
    assert Child(Child(column, group), port) == (column + ['.'] + group) + ['.'] + port;
    assert Child(column, group) == column + ['.'] + group;
    SplitAppend(column + ['.'] + group, '.', port);
    SplitAppend(column, '.', group);
    SplitNoSeparator(group, '.');
    SplitNoSeparator(port, '.');
  }

  /** A pethPsePortTable row identifier `<column>.<group>.<port>` is keyed
      by its port number, with the `group.port` text as its value; the
      group does not take part in the key. */
  lemma PoeRowOfChild(column: string, group: int, port: int)
    ensures PoeRow(Child(Child(column, DecimalString(group)), DecimalString(port)))
            == Some((port, DecimalString(group) + "." + DecimalString(port)))
  {
    var g, p := DecimalString(group), DecimalString(port);
    DecimalHasNoSeparator(group);
    DecimalHasNoSeparator(port);
    SplitTwoChildren(column, g, p);
    var parts := Split(Child(Child(column, g), p), '.');
    assert parts[|parts| - 2] == g && parts[|parts| - 1] == p;
    DecimalRoundTrip(port);
  }
}
