/** The handful of Python string operations the coordinator relies on:
    `str.strip`, `str.split` on one character, `sep.join`, splitting once at a
    marker, `int(str)` and `str(int)`.  Each is written out so that the
    coordinator's parsing of object identifiers and device strings can be
    stated exactly. */
module PyText {
  import opened Wrappers

  /** Python's `str.isspace()` for a single character. */
  predicate IsSpace(c: char) {
    || c == ' '
    || ('\t' <= c <= '\r')
    || ('\U{1C}' <= c <= '\U{1F}')
    || c == '\U{85}' || c == '\U{A0}' || c == '\U{1680}'
    || ('\U{2000}' <= c <= '\U{200A}')
    || c == '\U{2028}' || c == '\U{2029}' || c == '\U{202F}' || c == '\U{205F}' || c == '\U{3000}'
  }

  predicate IsDigit(c: char) {
    '0' <= c <= '9'
  }

  // ---------------------------------------------------------------------------
  // str.strip()

  /** Drops the leading whitespace of `s`. */
  function TrimStart(s: string): string
    decreases |s|
  {
    if s != [] && IsSpace(s[0]) then TrimStart(s[1..]) else s
  }

  /** Drops the trailing whitespace of `s`. */
  function TrimEnd(s: string): string
    decreases |s|
  {
    if s != [] && IsSpace(s[|s| - 1]) then TrimEnd(s[..|s| - 1]) else s
  }

  /** Python's `s.strip()`. */
  function Strip(s: string): string
  {
    TrimEnd(TrimStart(s))
  }

  /** TrimStart removes a run of whitespace from the front, and the whole run. */
  lemma {:induction false} TrimStartSpec(s: string)
    ensures |TrimStart(s)| <= |s| && TrimStart(s) == s[|s| - |TrimStart(s)|..]
    ensures forall i :: 0 <= i < |s| - |TrimStart(s)| ==> IsSpace(s[i])
    ensures TrimStart(s) != [] ==> !IsSpace(TrimStart(s)[0])
    decreases |s|
  {
    if s != [] && IsSpace(s[0]) {
      TrimStartSpec(s[1..]);
    }
  }

  /** TrimEnd removes a run of whitespace from the back, and the whole run. */
  lemma {:induction false} TrimEndSpec(s: string)
    ensures |TrimEnd(s)| <= |s| && TrimEnd(s) == s[..|TrimEnd(s)|]
    ensures forall i :: |TrimEnd(s)| <= i < |s| ==> IsSpace(s[i])
    ensures TrimEnd(s) != [] ==> !IsSpace(Last(TrimEnd(s)))
    decreases |s|
  {
    if s != [] && IsSpace(s[|s| - 1]) {
      TrimEndSpec(s[..|s| - 1]);
    }
  }

  /** `r` is the part of `s` starting at `i`, with only whitespace around it. */
  predicate StrippedAt(s: string, r: string, i: int)
  {
    && 0 <= i <= |s| - |r|
    && r == s[i..i + |r|]
    && (forall k :: 0 <= k < i ==> IsSpace(s[k]))
    && (forall k :: i + |r| <= k < |s| ==> IsSpace(s[k]))
  }

  /** Strip gives the middle of `s` between maximal whitespace runs. */
  lemma StripSpec(s: string)
    ensures exists i :: StrippedAt(s, Strip(s), i)
    ensures Strip(s) != [] ==> !IsSpace(Strip(s)[0]) && !IsSpace(Last(Strip(s)))
  {
    var t := TrimStart(s);
    TrimStartSpec(s);
    TrimEndSpec(t);
    var r := TrimEnd(t);
    var i := |s| - |t|;
    assert Strip(s) == r;
    assert r == s[i..i + |r|];
    assert forall k :: i + |r| <= k < |s| ==> s[k] == t[k - i];
    assert StrippedAt(s, r, i);
    assert r != [] ==> r[0] == t[0];
  }

  /** A string with no whitespace at either end is its own strip. */
  lemma StripNoSpace(s: string)
    requires s != [] ==> !IsSpace(s[0]) && !IsSpace(s[|s| - 1])
    ensures Strip(s) == s
  {
    if s != [] {
      assert TrimStart(s) == s;
      assert TrimEnd(s) == s;
    }
  }

  // ---------------------------------------------------------------------------
  // str.split(sep) and sep.join(parts) for a one-character separator

  function FirstIndex(s: string, c: char): (k: nat)
    requires c in s
    ensures k < |s| && s[k] == c && c !in s[..k]
  {
    if s[0] == c then 0 else 1 + FirstIndex(s[1..], c)
  }

  /** Python's `s.split(sep)`: the maximal separator-free pieces, in order.
      A separator starts a new piece; any other character joins the piece
      that the rest of the string begins with. */
  function Split(s: string, sep: char): (parts: seq<string>)
    ensures |parts| >= 1
    decreases |s|
  {
    if s == [] then [[]]
    else
      var rest := Split(s[1..], sep);
      if s[0] == sep then [[]] + rest
      else [[s[0]] + rest[0]] + rest[1..]
  }

  /** A string without the separator is a single piece. */
  lemma {:induction false} SplitNoSeparator(s: string, sep: char)
    requires sep !in s
    ensures Split(s, sep) == [s]
    decreases |s|
  {
    if s != [] {
      SplitNoSeparator(s[1..], sep);
      assert [s[0]] + s[1..] == s;
    }
  }

  /** No piece of a split holds the separator. */
  lemma {:induction false} SplitPiecesHaveNoSeparator(s: string, sep: char)
    ensures forall j :: 0 <= j < |Split(s, sep)| ==> sep !in Split(s, sep)[j]
    decreases |s|
  {
    if s != [] {
      var rest := Split(s[1..], sep);
      SplitPiecesHaveNoSeparator(s[1..], sep);
      var parts := Split(s, sep);
      forall j | 0 <= j < |parts| ensures sep !in parts[j] {
        if s[0] == sep {
          if j > 0 { assert parts[j] == rest[j - 1]; }
        } else if j > 0 {
          assert parts[j] == rest[j];
        } else {
          assert parts[0] == [s[0]] + rest[0];
        }
      }
    }
  }

  /** Python's `sep.join(parts)`. */
  function Join(parts: seq<string>, sep: char): string
  {
    if |parts| == 0 then []
    else if |parts| == 1 then parts[0]
    else parts[0] + [sep] + Join(parts[1..], sep)
  }

  function Last<T>(s: seq<T>): T
    requires s != []
  {
    s[|s| - 1]
  }

  lemma JoinCons(p: string, rest: seq<string>, sep: char)
    requires |rest| >= 1
    ensures Join([p] + rest, sep) == p + [sep] + Join(rest, sep)
  {
    assert ([p] + rest)[1..] == rest;
  }

  /** Joining the pieces of a split gives back the original string. */
  lemma {:induction false} JoinSplit(s: string, sep: char)
    ensures Join(Split(s, sep), sep) == s
    decreases |s|
  {
    if s != [] {
      var c, tail := s[0], s[1..];
      var rest := Split(tail, sep);
      JoinSplit(tail, sep);
      assert s == [c] + tail;
      if c == sep {
        JoinCons([], rest, sep);
      } else {
        var first := [c] + rest[0];
        assert Split(s, sep) == [first] + rest[1..];
        if |rest| == 1 {
          assert Join(rest, sep) == rest[0];
        } else {
          JoinCons(first, rest[1..], sep);
          JoinCons(rest[0], rest[1..], sep);
          assert rest == [rest[0]] + rest[1..];
          assert Join(rest, sep) == rest[0] + [sep] + Join(rest[1..], sep);
        }
      }
    }
  }

  /** Splitting at a separator placed between `a` and `b` splits each side. */
  lemma {:induction false} SplitAppend(a: string, sep: char, b: string)
    ensures Split(a + [sep] + b, sep) == Split(a, sep) + Split(b, sep)
    decreases |a|
  {
    var s := a + [sep] + b;
    if a == [] {
      assert s == [sep] + b && s[1..] == b;
    } else {
      assert s[0] == a[0] && s[1..] == a[1..] + [sep] + b;
      SplitAppend(a[1..], sep, b);
      var pa, pb := Split(a[1..], sep), Split(b, sep);
      if a[0] != sep {
        assert (pa + pb)[0] == pa[0];
        assert (pa + pb)[1..] == pa[1..] + pb;
      }
    }
  }

  /** Splitting a join of separator-free pieces gives back the pieces. */
  lemma {:induction false} SplitJoin(parts: seq<string>, sep: char)
    requires |parts| >= 1
    requires forall j :: 0 <= j < |parts| ==> sep !in parts[j]
    ensures Split(Join(parts, sep), sep) == parts
    decreases |parts|
  {
    SplitNoSeparator(parts[0], sep);
    if |parts| > 1 {
      SplitJoin(parts[1..], sep);
      SplitAppend(parts[0], sep, Join(parts[1..], sep));
      assert parts == [parts[0]] + parts[1..];
    }
  }

  /** A split starts with the text before the first separator. */
  lemma SplitAtFirst(s: string, sep: char)
    requires sep in s
    ensures Split(s, sep) == [s[..FirstIndex(s, sep)]] + Split(s[FirstIndex(s, sep) + 1..], sep)
  {
    var k := FirstIndex(s, sep);
    assert s == s[..k] + [sep] + s[k + 1..];
    SplitAppend(s[..k], sep, s[k + 1..]);
    SplitNoSeparator(s[..k], sep);
  }

  /** Number of occurrences of `c` in `s`. */
  function Count(s: string, c: char): nat
  {
    multiset(s)[c]
  }

  /** A string with `n` separators splits into `n + 1` pieces. */
  lemma {:induction false} SplitCount(s: string, sep: char)
    ensures |Split(s, sep)| == Count(s, sep) + 1
    decreases |s|
  {
    if s != [] {
      SplitCount(s[1..], sep);
      assert s == [s[0]] + s[1..];
      assert multiset(s) == multiset([s[0]]) + multiset(s[1..]);
    }
  }

  /** The last piece of a split is the text after the last separator. */
  lemma LastPieceAfter(prefix: string, sep: char, last: string)
    requires sep !in last
    ensures Last(Split(prefix + [sep] + last, sep)) == last
  {
    SplitAppend(prefix, sep, last);
    SplitNoSeparator(last, sep);
  }

  // ---------------------------------------------------------------------------
  // s.split(pat, 1)[0]

  predicate OccursAt(s: string, pat: string, i: int)
  {
    0 <= i && i + |pat| <= |s| && s[i..i + |pat|] == pat
  }

  /** Python's `s.split(pat, 1)[0]`: the text before the first occurrence of
      `pat`, or all of `s` when `pat` does not occur. */
  function Before(s: string, pat: string): (r: string)
    requires pat != []
    ensures |r| <= |s| && r == s[..|r|]
    ensures forall i :: 0 <= i < |r| ==> !OccursAt(s, pat, i)
    ensures |r| < |s| ==> OccursAt(s, pat, |r|)
    decreases |s|
  {
    if |s| < |pat| then s
    else if s[..|pat|] == pat then []
    else
      var r := [s[0]] + Before(s[1..], pat);
      assert !OccursAt(s, pat, 0);
      assert forall i :: 1 <= i < |r| ==> !OccursAt(s, pat, i) by {
        forall i | 1 <= i < |r| ensures !OccursAt(s, pat, i) {
          OccursShift(s, pat, i);
        }
      }
      if |r| < |s| then
        OccursShift(s, pat, |r|);
        r
      else r
  }

  lemma OccursShift(s: string, pat: string, i: int)
    requires s != [] && 1 <= i
    ensures OccursAt(s, pat, i) == OccursAt(s[1..], pat, i - 1)
  {
    if i + |pat| <= |s| {
      var a, b := s[i..i + |pat|], s[1..][i - 1..i - 1 + |pat|];
      assert forall k :: 0 <= k < |pat| ==> a[k] == s[i + k] == b[k];
      assert a == b;
    }
  }

  // ---------------------------------------------------------------------------
  // int(text) and str(n)

  /** The body of a Python integer literal: decimal digits, with single
      underscores allowed between digits. */
  predicate DigitGroups(s: string)
    decreases |s|
  {
    && |s| > 0
    && IsDigit(s[0])
    && (|s| == 1 || (if s[1] == '_' then |s| > 2 && DigitGroups(s[2..]) else DigitGroups(s[1..])))
  }

  /** The value of a digit string, underscores ignored. */
  function DigitsValue(s: string): nat
  {
    if s == [] then 0
    else if IsDigit(Last(s)) then DigitsValue(s[..|s| - 1]) * 10 + (Last(s) as int - '0' as int)
    else DigitsValue(s[..|s| - 1])
  }

  /** Python's `int(text)` on a string: surrounding whitespace, an optional
      sign, then digit groups; `None` stands for the `ValueError` it raises. */
  function ParseInt(s: string): Option<int>
  {
    var t := Strip(s);
    if t != [] && (t[0] == '+' || t[0] == '-') then
      if DigitGroups(t[1..]) then
        var v: int := DigitsValue(t[1..]);
        Some(if t[0] == '-' then -v else v)
      else None
    else if DigitGroups(t) then Some(DigitsValue(t))
    else None
  }

  function DigitChar(d: nat): char
    requires d < 10
  {
    ('0' as int + d) as char
  }

  /** Decimal digits of a natural number, most significant first. */
  function NatString(n: nat): (r: string)
    ensures |r| >= 1
    ensures forall j :: 0 <= j < |r| ==> IsDigit(r[j])
  {
    if n < 10 then [DigitChar(n)] else NatString(n / 10) + [DigitChar(n % 10)]
  }

  /** Python's `str(n)` for an integer. */
  function DecimalString(n: int): string
  {
    if n < 0 then "-" + NatString(-n) else NatString(n)
  }

  lemma {:induction false} NatStringValue(n: nat)
    ensures DigitsValue(NatString(n)) == n
  {
    if n >= 10 {
      NatStringValue(n / 10);
      var s := NatString(n);
      assert s[..|s| - 1] == NatString(n / 10);
    }
  }

  lemma {:induction false} AllDigitsAreGroups(s: string)
    requires |s| > 0
    requires forall j :: 0 <= j < |s| ==> IsDigit(s[j])
    ensures DigitGroups(s)
    decreases |s|
  {
    if |s| > 1 {
      assert IsDigit(s[1]);
      AllDigitsAreGroups(s[1..]);
    }
  }

  /** Reading back the decimal rendering of an integer gives the integer. */
  lemma DecimalRoundTrip(n: int)
    ensures ParseInt(DecimalString(n)) == Some(n)
  {
    var m: nat := if n < 0 then -n else n;
    var digits := NatString(m);
    NatStringValue(m);
    AllDigitsAreGroups(digits);
    assert IsDigit(digits[0]) && IsDigit(Last(digits));
    if n < 0 {
      var s := "-" + digits;
      assert Last(s) == Last(digits);
      StripNoSpace(s);
      assert s[1..] == digits;
    } else {
      StripNoSpace(digits);
    }
  }

  /** The decimal rendering of an integer holds neither a dot nor a slash. */
  lemma DecimalHasNoSeparator(n: int)
    ensures '.' !in DecimalString(n) && '/' !in DecimalString(n)
  {
    var digits := NatString(if n < 0 then -n else n);
    assert '.' !in digits && '/' !in digits by {
      forall j | 0 <= j < |digits| ensures digits[j] != '.' && digits[j] != '/' { assert IsDigit(digits[j]); }
    }
    if n < 0 { assert DecimalString(n) == ['-'] + digits; }
  }
}
