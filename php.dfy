/** The PHP and PDO value semantics the handlers depend on: PHP's `empty()` on
    strings, the decimal strings PDO hands back for integer columns, `intval()`,
    `str_replace(…, '', …)`, and the JSON values a handler writes out. */
module Php {

  /** A value that may be PHP `null`. */
  datatype Option<+T> = None | Some(value: T)

  /** PHP's `empty($s)` (and `!$s`) on a string: only "" and "0" are falsy. */
  predicate Empty(s: string) {
    s == "" || s == "0"
  }

  predicate IsDigit(c: char) {
    '0' <= c <= '9'
  }

  predicate AllDigits(s: string) {
    forall i :: 0 <= i < |s| ==> IsDigit(s[i])
  }

  function DigitValue(c: char): nat
    requires IsDigit(c)
  {
    (c as int) - ('0' as int)
  }

  function DigitChar(d: nat): (c: char)
    requires d < 10
    ensures IsDigit(c) && DigitValue(c) == d
  {
    (('0' as int) + d) as char
  }

  /** Decimal digits of a natural number, most significant first, no leading zeros. */
  function NatDigits(n: nat): (s: string)
    ensures |s| > 0 && AllDigits(s)
    ensures |s| > 1 ==> s[0] != '0'
  {
    if n < 10 then [DigitChar(n)] else NatDigits(n / 10) + [DigitChar(n % 10)]
  }

  /** How an integer column value reaches PHP through PDO: as a decimal string,
      with a leading '-' for negative values (e.g. `borrowed_by` = "-1"). */
  function Show(n: int): (s: string)
    ensures |s| > 0 && (IsDigit(s[0]) || s[0] == '-')
  {
    if n < 0 then "-" + NatDigits(-n) else NatDigits(n)
  }

  /** The number a string of digits denotes. */
  function DecimalValue(s: string): nat
    requires AllDigits(s)
  {
    if s == [] then 0 else DecimalValue(s[..|s| - 1]) * 10 + DigitValue(s[|s| - 1])
  }

  /** The longest prefix of `s` made of digits. */
  function LeadingDigits(s: string): (p: string)
    ensures |p| <= |s| && p == s[..|p|] && AllDigits(p)
    ensures |p| < |s| ==> !IsDigit(s[|p|])
  {
    if s != [] && IsDigit(s[0]) then [s[0]] + LeadingDigits(s[1..]) else []
  }

  predicate IsSpace(c: char) {
    c == ' ' || c == '\t' || c == '\n' || c == '\r' || c == '\U{0B}' || c == '\U{0C}'
  }

  function SkipSpace(s: string): (r: string)
    ensures |r| <= |s| && r == s[|s| - |r|..]
    ensures r != [] ==> !IsSpace(r[0])
  {
    if s != [] && IsSpace(s[0]) then SkipSpace(s[1..]) else s
  }

  /** PHP's `intval()` on a string: leading white space, an optional sign, then
      as many decimal digits as follow; anything else contributes nothing. */
  function IntVal(s: string): (n: int)
    ensures var t := SkipSpace(s);
      t == [] || !(IsDigit(t[0]) || t[0] == '-' || t[0] == '+') ==> n == 0
    ensures n < 0 ==> SkipSpace(s)[0] == '-'
  {
    var t := SkipSpace(s);
    if t != [] && t[0] == '-' then -(DecimalValue(LeadingDigits(t[1..])) as int)
    else if t != [] && t[0] == '+' then DecimalValue(LeadingDigits(t[1..]))
    else DecimalValue(LeadingDigits(t))
  }

  lemma {:induction false} DecimalValueOfDigits(n: nat)
    ensures DecimalValue(NatDigits(n)) == n
    decreases n
  {
    if n >= 10 {
      var s := NatDigits(n);
      assert s[..|s| - 1] == NatDigits(n / 10);
      DecimalValueOfDigits(n / 10);
    }
  }

  lemma {:induction false} LeadingDigitsOfDigits(s: string)
    requires AllDigits(s)
    ensures LeadingDigits(s) == s
  {
    if s != [] {
      LeadingDigitsOfDigits(s[1..]);
      assert [s[0]] + s[1..] == s;
    }
  }

  /** `intval` recovers every integer from the decimal string PDO produced for it. */
  lemma IntValShow(n: int)
    ensures IntVal(Show(n)) == n
  {
    var s := Show(n);
    assert SkipSpace(s) == s;
    if n < 0 {
      assert s[1..] == NatDigits(-n);
      LeadingDigitsOfDigits(NatDigits(-n));
      DecimalValueOfDigits(-n);
    } else {
      LeadingDigitsOfDigits(s);
      DecimalValueOfDigits(n);
    }
  }

  /** `str_replace($pat, '', $s)`: one left-to-right pass that drops every
      non-overlapping occurrence of `pat`; the result is not scanned again. */
  function RemoveAll(s: string, pat: string): (r: string)
    requires pat != ""
    ensures |r| <= |s|
    decreases |s|
  {
    if |s| < |pat| then s
    else if s[..|pat|] == pat then RemoveAll(s[|pat|..], pat)
    else [s[0]] + RemoveAll(s[1..], pat)
  }

  /** A string with a character that `pat` needs but `s` lacks holds no occurrence,
      so the pass leaves it as it is. */
  lemma {:induction false} RemoveAllAbsent(s: string, pat: string, k: nat)
    requires k < |pat| && pat[k] !in s
    ensures RemoveAll(s, pat) == s
    decreases |s|
  {
    if |s| >= |pat| {
      assert s[k] != pat[k];
      assert s[..|pat|] != pat;
      RemoveAllAbsent(s[1..], pat, k);
      assert [s[0]] + s[1..] == s;
    }
  }

  /** The pass strips a leading occurrence from a tail that holds none. */
  lemma RemoveAllPrefix(pat: string, t: string, k: nat)
    requires k < |pat| && pat[k] !in t
    ensures RemoveAll(pat + t, pat) == t
  {
    var s := pat + t;
    assert s[..|pat|] == pat && s[|pat|..] == t;
    RemoveAllAbsent(t, pat, k);
  }

  /** The pass is single: dropping an inner occurrence can bring a new one
      together, which stays in the result. */
  lemma RemoveAllSinglePass()
    ensures RemoveAll("BBearer earer ", "Bearer ") == "Bearer "
  {
    var s := "BBearer earer ";
    assert s[..7][1] == 'B' && "Bearer "[1] == 'e';
    assert s[1..][..7] == "Bearer ";
    assert s[1..][7..] == "earer ";
    assert RemoveAll("earer ", "Bearer ") == "earer ";
  }

  /** A JSON value as a handler writes it out. */
  datatype Json = JNull | JInt(i: int) | JStr(s: string)

  /** One fetched row (`PDO::FETCH_ASSOC`), column name to value. */
  type Row = map<string, Json>

  /** `$row[$key]`: a missing key reads as null. */
  function Column(row: Row, key: string): Json {
    if key in row then row[key] else JNull
  }

  /** `intval()` on any fetched value. */
  function ToInt(v: Json): int {
    match v
    case JNull => 0
    case JInt(i) => i
    case JStr(s) => IntVal(s)
  }

  /** One `$row[$key] = intval($row[$key]);` */
  function CastColumn(row: Row, key: string): (r: Row)
    ensures r.Keys == row.Keys + {key}
    ensures r[key] == JInt(ToInt(Column(row, key)))
    ensures forall k :: k in row && k != key ==> r[k] == row[k]
  {
    row[key := JInt(ToInt(Column(row, key)))]
  }

  /** Casting two columns PDO fetched for integers gives back those integers
      and leaves every other column as it was. */
  lemma CastFetchedInts(row: Row, first: string, n: int, second: string, m: int)
    requires first != second
    requires first in row && row[first] == JStr(Show(n))
    requires second in row && row[second] == JStr(Show(m))
    ensures CastColumn(CastColumn(row, first), second) == row[first := JInt(n)][second := JInt(m)]
  {
    var r1 := CastColumn(row, first);
    assert ToInt(Column(row, first)) == n by {
      IntValShow(n);
    }
    assert r1 == row[first := JInt(n)];
    assert ToInt(Column(r1, second)) == m by {
      assert Column(r1, second) == JStr(Show(m));
      IntValShow(m);
    }
  }

  /** The body of the handlers' `foreach ($rows as &$row)` loops: two casts, in order. */
  function CastRow(row: Row, first: string, second: string): Row {
    CastColumn(CastColumn(row, first), second)
  }

  /** `foreach ($rows as &$row) { $row[first] = intval(…); $row[second] = intval(…); }`:
      every row is cast in place, the list keeps its length and order. */
  method CastColumns(rows: seq<Row>, first: string, second: string) returns (out: seq<Row>)
    ensures |out| == |rows|
    ensures forall i :: 0 <= i < |rows| ==> out[i] == CastRow(rows[i], first, second)
  {
    out := rows;
    var i := 0;
    while i < |out|
      invariant 0 <= i <= |out| == |rows|
      invariant forall k :: 0 <= k < i ==> out[k] == CastRow(rows[k], first, second)
      invariant forall k :: i <= k < |out| ==> out[k] == rows[k]
    {
      out := out[i := CastRow(out[i], first, second)];
      i := i + 1;
    }
  }
}
