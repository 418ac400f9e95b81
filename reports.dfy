/**
  The line-oriented text format of the region-log report: decimal
  rendering as `printf` does it for `%d` and `%zu`, the space-separated
  field lines, and a parser that reads a header line back.
 */
module Reports {

  import opened Wrappers

  predicate IsDigit(c: char)
  {
    '0' <= c <= '9'
  }

  predicate AllDigits(s: string)
  {
    forall i :: 0 <= i < |s| ==> IsDigit(s[i])
  }

  function DigitChar(d: nat): (c: char)
    requires d < 10
    ensures IsDigit(c) && c as int - '0' as int == d
  {
    (d + '0' as int) as char
  }

  function DigitValue(c: char): nat
    requires IsDigit(c)
  {
    c as int - '0' as int
  }

  /** `%zu` and `%d` of a non-negative value: decimal digits, no leading zeros. */
  function NatToString(n: nat): (s: string)
    ensures |s| >= 1 && AllDigits(s)
    ensures |s| > 1 ==> s[0] != '0'
    decreases n
  {
    if n < 10 then [DigitChar(n)] else NatToString(n / 10) + [DigitChar(n % 10)]
  }

  /** `%d`: a minus sign before the digits of a negative value. */
  function IntToString(i: int): (s: string)
    ensures |s| >= 1 && ' ' !in s && '\n' !in s
  {
    if i < 0 then "-" + NatToString(-i) else NatToString(i)
  }

  function ParseNat(s: string): nat
    requires AllDigits(s)
  {
    if s == [] then 0 else ParseNat(s[..|s| - 1]) * 10 + DigitValue(s[|s| - 1])
  }

  function ParseInt(s: string): Option<int>
  {
    if |s| >= 2 && s[0] == '-' && AllDigits(s[1..]) then Some(0 - ParseNat(s[1..]) as int)
    else if |s| >= 1 && AllDigits(s) then Some(ParseNat(s))
    else None
  }

  lemma {:induction false} NatRoundTrip(n: nat)
    ensures ParseNat(NatToString(n)) == n
    decreases n
  {
    if n >= 10 {
      var s := NatToString(n);
      assert s[..|s| - 1] == NatToString(n / 10);
      NatRoundTrip(n / 10);
    }
  }

  lemma IntRoundTrip(i: int)
    ensures ParseInt(IntToString(i)) == Some(i)
  {
    if i < 0 {
      var d := NatToString(-i);
      assert IntToString(i) == "-" + d;
      NatRoundTrip(-i);
      ParseNegative(d);
    } else {
      var d := NatToString(i);
      assert IntToString(i) == d;
      NatRoundTrip(i);
      ParseDigits(d);
    }
  }

  /** A minus sign and digits parse as the negated number. */
  lemma ParseNegative(d: string)
    requires |d| >= 1 && AllDigits(d)
    ensures ParseInt("-" + d) == Some(0 - ParseNat(d) as int)
  {
    assert ("-" + d)[1..] == d;
  }

  /** Digits alone parse as their number. */
  lemma ParseDigits(d: string)
    requires |d| >= 1 && AllDigits(d)
    ensures ParseInt(d) == Some(ParseNat(d))
  {
    assert IsDigit(d[0]);
  }

  /** The fields after the line's first column: " x1 x2 ... xn". */
  function Fields(xs: seq<int>): string
  {
    if xs == [] then "" else " " + IntToString(xs[0]) + Fields(xs[1..])
  }

  lemma {:induction false} FieldsHaveNoNewline(xs: seq<int>)
    ensures '\n' !in Fields(xs)
  {
    if xs != [] {
      FieldsHaveNoNewline(xs[1..]);
    }
  }

  /** A header line: a one-character kind marker, the fields, a newline. */
  function HeaderLine(kind: char, xs: seq<int>): string
  {
    [kind] + Fields(xs) + "\n"
  }

  /** A line of symbol offsets (each already followed by its space). */
  function OffsetLine(offsets: string): string
  {
    offsets + "\n"
  }

  /** A call-site line: the cumulative byte count, a space, the symbol offsets. */
  function CallsiteLine(bytes: nat, offsets: string): string
  {
    NatToString(bytes) + " " + OffsetLine(offsets)
  }

  function Concat(ss: seq<string>): string
  {
    if ss == [] then "" else ss[0] + Concat(ss[1..])
  }

  lemma {:induction false} ConcatAppend(ss: seq<string>, s: string)
    ensures Concat(ss + [s]) == Concat(ss) + s
  {
    if ss == [] {
      assert [] + [s] == [s];
    } else {
      assert (ss + [s])[1..] == ss[1..] + [s];
      ConcatAppend(ss[1..], s);
    }
  }

  /** Length of the leading token: the characters before the first space. */
  function TokenLength(s: string): (n: nat)
    ensures n <= |s|
  {
    if s == [] || s[0] == ' ' then 0 else 1 + TokenLength(s[1..])
  }

  function ParseFields(s: string): Option<seq<int>>
    decreases |s|
  {
    if s == [] then Some([])
    else if s[0] != ' ' then None
    else
      var n := TokenLength(s[1..]);
      match ParseInt(s[1..1 + n])
      case None => None
      case Some(x) =>
        match ParseFields(s[1 + n..])
        case None => None
        case Some(rest) => Some([x] + rest)
  }

  /** Reads a header line back into its kind marker and its fields. */
  function ParseHeader(line: string): Option<(char, seq<int>)>
  {
    if |line| >= 2 && line[|line| - 1] == '\n' then
      match ParseFields(line[1..|line| - 1])
      case None => None
      case Some(xs) => Some((line[0], xs))
    else None
  }

  lemma {:induction false} TokenLengthOf(t: string, rest: string)
    requires ' ' !in t
    requires rest == [] || rest[0] == ' '
    ensures TokenLength(t + rest) == |t|
  {
    if t != [] {
      assert (t + rest)[1..] == t[1..] + rest;
      TokenLengthOf(t[1..], rest);
    } else {
      assert t + rest == rest;
    }
  }

  /** One field in front of the rest: its token ends at the next space. */
  lemma ParseFieldsCons(t: string, rest: string, x: int)
    requires ' ' !in t && (rest == [] || rest[0] == ' ')
    requires ParseInt(t) == Some(x)
    ensures ParseFields(" " + t + rest) ==
      match ParseFields(rest) case None => None case Some(ys) => Some([x] + ys)
  {
    var s := " " + t + rest;
    assert s[1..] == t + rest;
    TokenLengthOf(t, rest);
    assert s[1..1 + |t|] == t;
    assert s[1 + |t|..] == rest;
  }

  lemma {:induction false} FieldsRoundTrip(xs: seq<int>)
    ensures ParseFields(Fields(xs)) == Some(xs)
  {
    if xs != [] {
      var t := IntToString(xs[0]);
      var ys := xs[1..];
      var rest := Fields(ys);
      assert Fields(xs) == " " + t + rest;
      assert rest == [] || rest[0] == ' ';
      IntRoundTrip(xs[0]);
      FieldsRoundTrip(ys);
      ParseFieldsCons(t, rest, xs[0]);
      assert [xs[0]] + ys == xs;
    }
  }

  /** A rendered header line parses back to exactly the marker and fields it was made from. */
  lemma HeaderRoundTrip(kind: char, xs: seq<int>)
    ensures ParseHeader(HeaderLine(kind, xs)) == Some((kind, xs))
  {
    var line := HeaderLine(kind, xs);
    assert line[1..|line| - 1] == Fields(xs);
    FieldsRoundTrip(xs);
  }
}
