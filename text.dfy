/**
 * String primitives of the JavaScript runtime that the tab manager relies on:
 * `toLowerCase`, the white-space class shared by `trim` and the regular
 * expression `\s`, `includes`, `split` and `join`, and the decimal
 * rendering and parsing of integers (`${n}` and `parseInt`).
 */
module Text {
  import opened Wrappers

  /** `toLowerCase` on one character; only ASCII letters are folded. */
  function LowerChar(c: char): char {
    if 'A' <= c <= 'Z' then (c as int + 32) as char else c
  }

  /**
   * `toLowerCase` on a string, character by character: no upper-case ASCII
   * letter is left, each one becomes its lower-case letter, and every other
   * character stays where it was.
   */
  function Lower(s: string): (r: string)
    ensures |r| == |s|
    ensures forall i :: 0 <= i < |r| ==> !('A' <= r[i] <= 'Z')
    ensures forall i :: 0 <= i < |s| && 'A' <= s[i] <= 'Z' ==> r[i] as int == s[i] as int + 32
    ensures forall i :: 0 <= i < |s| && !('A' <= s[i] <= 'Z') ==> r[i] == s[i]
    ensures forall i :: 0 <= i < |s| ==> r[i] == LowerChar(s[i])
  {
    seq(|s|, i requires 0 <= i < |s| => LowerChar(s[i]))
  }

  /** Lower-casing twice is lower-casing once. */
  lemma LowerIdempotent(s: string)
    ensures Lower(Lower(s)) == Lower(s)
  {
    forall i | 0 <= i < |s|
      ensures Lower(Lower(s))[i] == Lower(s)[i]
    {
      LowerCharIdempotent(s[i]);
    }
  }

  /** Lower-casing works on the parts of a concatenation independently. */
  lemma LowerConcat(a: string, b: string)
    ensures Lower(a + b) == Lower(a) + Lower(b)
  {
    assert forall i :: 0 <= i < |a + b| ==> Lower(a + b)[i] == (Lower(a) + Lower(b))[i];
  }

  lemma LowerCharIdempotent(c: char)
    ensures LowerChar(LowerChar(c)) == LowerChar(c)
  {
  }

  /** White space and line terminators: what `trim` removes and `\s` matches. */
  predicate IsSpace(c: char) {
    || c == ' ' || c == '\t' || c == '\n' || c == '\r' || c == '\U{000B}' || c == '\U{000C}'
    || c == '\U{00A0}' || c == '\U{1680}' || ('\U{2000}' <= c <= '\U{200A}')
    || c == '\U{2028}' || c == '\U{2029}' || c == '\U{202F}' || c == '\U{205F}'
    || c == '\U{3000}' || c == '\U{FEFF}'
  }

  /** True of a string that `trim` leaves as it is. */
  predicate IsTrimmed(s: string) {
    s == [] || (!IsSpace(s[0]) && !IsSpace(s[|s| - 1]))
  }

  function TrimStart(s: string): (r: string)
    ensures |r| <= |s| && r == s[|s| - |r|..]
    ensures r == [] || !IsSpace(r[0])
    ensures forall i :: 0 <= i < |s| - |r| ==> IsSpace(s[i])
  {
    if |s| > 0 && IsSpace(s[0]) then TrimStart(s[1..]) else s
  }

  function TrimEnd(s: string): (r: string)
    ensures |r| <= |s| && r == s[..|r|]
    ensures r == [] || !IsSpace(r[|r| - 1])
    ensures forall i :: |r| <= i < |s| ==> IsSpace(s[i])
  {
    if |s| > 0 && IsSpace(s[|s| - 1]) then TrimEnd(s[..|s| - 1]) else s
  }

  /** `r` is the slice of `s` that starts at `a`, and every character of `s` outside it is white space. */
  predicate CutFrom(s: string, a: int, r: string) {
    && 0 <= a && a + |r| <= |s| && r == s[a..a + |r|]
    && forall i :: 0 <= i < |s| && !(a <= i < a + |r|) ==> IsSpace(s[i])
  }

  /**
   * `String.prototype.trim`: the result is the slice of `s` that starts at the
   * first and ends at the last character that is not white space, and
   * everything cut away is white space.
   */
  function Trim(s: string): (r: string)
    ensures IsTrimmed(r)
    ensures CutFrom(s, |s| - |TrimStart(s)|, r)
  {
    var t := TrimStart(s);
    var r := TrimEnd(t);
    TrimCut(s, t, r, |s| - |t|);
    r
  }

  /**
   * Cutting `s[..a]` and then the tail of `t == s[a..]` from `|r|` on, both
   * white space, leaves `r` cut from `s` at `a`; it is trimmed when `t` starts
   * and `r` ends with a character that is not white space.
   */
  lemma TrimCut(s: string, t: string, r: string, a: nat)
    requires a <= |s| && t == s[a..] && |r| <= |t| && r == t[..|r|]
    requires forall i :: 0 <= i < a ==> IsSpace(s[i])
    requires forall i :: |r| <= i < |t| ==> IsSpace(t[i])
    requires t == [] || !IsSpace(t[0])
    requires r == [] || !IsSpace(r[|r| - 1])
    ensures IsTrimmed(r)
    ensures CutFrom(s, a, r)
  {
    assert r != [] ==> r[0] == t[0];
    forall i | a + |r| <= i < |s|
      ensures IsSpace(s[i])
    {
      assert s[i] == t[i - a];
    }
  }

  /** Trimming a string that has no white space at either end changes nothing. */
  lemma TrimOfTrimmed(s: string)
    requires IsTrimmed(s)
    ensures Trim(s) == s
  {
  }

  /** `s.includes(sub)`. */
  predicate Contains(s: string, sub: string) {
    (|sub| <= |s| && s[..|sub|] == sub) || (|s| > 0 && Contains(s[1..], sub))
  }

  /** `s.split(sep)` for a one-character separator: never an empty list. */
  function Split(s: string, sep: char): (r: seq<string>)
    ensures |r| > 0
  {
    if |s| == 0 then [""]
    else
      var rest := Split(s[1..], sep);
      if s[0] == sep then [""] + rest else [[s[0]] + rest[0]] + rest[1..]
  }

  /** `parts.join(sep)` for a one-character separator. */
  function Join(parts: seq<string>, sep: char): string {
    if |parts| == 0 then ""
    else if |parts| == 1 then parts[0]
    else parts[0] + [sep] + Join(parts[1..], sep)
  }

  /** Splitting `p + s` where `p` has no separator extends the first piece of `s`. */
  lemma {:induction false} SplitPrefix(p: string, s: string, sep: char)
    requires sep !in p
    ensures Split(p + s, sep) == [p + Split(s, sep)[0]] + Split(s, sep)[1..]
  {
    if |p| > 0 {
      SplitPrefix(p[1..], s, sep);
      assert (p + s)[1..] == p[1..] + s;
      assert [p[0]] + (p[1..] + Split(s, sep)[0]) == p + Split(s, sep)[0];
    } else {
      assert p + s == s;
      assert Split(s, sep) == [Split(s, sep)[0]] + Split(s, sep)[1..];
      assert p + Split(s, sep)[0] == Split(s, sep)[0];
    }
  }

  /** `split` undoes `join` when no part contains the separator. */
  lemma {:induction false} SplitJoin(parts: seq<string>, sep: char)
    requires |parts| > 0
    requires forall k :: 0 <= k < |parts| ==> sep !in parts[k]
    ensures Split(Join(parts, sep), sep) == parts
  {
    if |parts| == 1 {
      SplitPrefix(parts[0], "", sep);
      assert parts[0] + "" == parts[0];
    } else {
      JoinCons(parts, sep);
      SplitJoin(parts[1..], sep);
      SplitSep(Join(parts[1..], sep), sep);
      SplitPrefix(parts[0], [sep] + Join(parts[1..], sep), sep);
      SplitJoinParts(Split(Join(parts, sep), sep), parts, Split([sep] + Join(parts[1..], sep), sep));
    }
  }

  lemma JoinCons(parts: seq<string>, sep: char)
    requires |parts| > 1
    ensures Join(parts, sep) == parts[0] + ([sep] + Join(parts[1..], sep))
  {
    assert parts[0] + [sep] + Join(parts[1..], sep) == parts[0] + ([sep] + Join(parts[1..], sep));
  }

  lemma SplitSep(s: string, sep: char)
    ensures Split([sep] + s, sep) == [""] + Split(s, sep)
  {
    assert ([sep] + s)[1..] == s;
  }

  lemma SplitJoinParts(r: seq<string>, parts: seq<string>, after: seq<string>)
    requires |parts| > 0 && |after| > 0
    requires r == [parts[0] + after[0]] + after[1..] && after == [""] + parts[1..]
    ensures r == parts
  {
    assert parts[0] + "" == parts[0];
    assert parts == [parts[0]] + parts[1..];
  }

  /** A join of trimmed, non-empty parts is itself trimmed. */
  lemma {:induction false} JoinTrimmed(parts: seq<string>, sep: char)
    requires forall k :: 0 <= k < |parts| ==> parts[k] != [] && IsTrimmed(parts[k])
    ensures IsTrimmed(Join(parts, sep))
    ensures |parts| > 0 ==> Join(parts, sep) != [] && Join(parts, sep)[0] == parts[0][0]
  {
    if |parts| > 1 {
      JoinTrimmed(parts[1..], sep);
      var tail := Join(parts[1..], sep);
      var j := parts[0] + [sep] + tail;
      assert j[0] == parts[0][0];
      assert j[|j| - 1] == tail[|tail| - 1];
    }
  }

  // ---- Integers as decimal text ----

  predicate IsDigit(c: char) {
    '0' <= c <= '9'
  }

  predicate AllDigits(s: string) {
    forall i :: 0 <= i < |s| ==> IsDigit(s[i])
  }

  function DigitValue(c: char): nat
    requires IsDigit(c)
  {
    c as int - '0' as int
  }

  function DigitChar(d: nat): (c: char)
    requires d < 10
    ensures IsDigit(c) && DigitValue(c) == d
  {
    (d + '0' as int) as char
  }

  /** The decimal digits of `n`, without leading zeros. */
  function NatDecimal(n: nat): (r: string)
    ensures |r| > 0 && AllDigits(r)
  {
    if n < 10 then [DigitChar(n)] else NatDecimal(n / 10) + [DigitChar(n % 10)]
  }

  /** An integer in a template literal, `${n}`. */
  function Decimal(n: int): string {
    if n < 0 then "-" + NatDecimal(-n) else NatDecimal(n)
  }

  /** The value of a string of decimal digits. */
  function DigitsValue(s: string): nat
    requires AllDigits(s)
  {
    if |s| == 0 then 0 else DigitsValue(s[..|s| - 1]) * 10 + DigitValue(s[|s| - 1])
  }

  /** The length of the run of digits that `s` starts with. */
  function DigitRun(s: string): (n: nat)
    ensures n <= |s| && AllDigits(s[..n])
    ensures n < |s| ==> !IsDigit(s[n])
  {
    if |s| == 0 || !IsDigit(s[0]) then 0
    else
      var n := DigitRun(s[1..]);
      assert s[..n + 1] == [s[0]] + s[1..][..n];
      n + 1
  }

  /**
   * `parseInt(s)` where `s` is decimal: leading white space, an optional
   * sign, then the longest run of digits; none (`NaN`) when no digit follows.
   */
  function ParseInt(s: string): Option<int> {
    ParseSigned(TrimStart(s))
  }

  /** An optional sign and the digits after it, once leading white space is gone. */
  function ParseSigned(t: string): Option<int> {
    var body := if |t| > 0 && (t[0] == '-' || t[0] == '+') then t[1..] else t;
    var n := DigitRun(body);
    var value: int := if n == 0 then 0 else DigitsValue(body[..n]);
    if n == 0 then None
    else if |t| > 0 && t[0] == '-' then Some(-value)
    else Some(value)
  }

  lemma {:induction false} NatDecimalValue(n: nat)
    ensures DigitsValue(NatDecimal(n)) == n
  {
    if n >= 10 {
      NatDecimalValue(n / 10);
      var r := NatDecimal(n);
      assert r[..|r| - 1] == NatDecimal(n / 10);
    }
  }

  lemma NoSpaceStart(s: string)
    requires |s| > 0 && (s[0] == '-' || IsDigit(s[0]))
    ensures TrimStart(s) == s
  {
    assert !IsSpace(s[0]);
  }

  /** A string of digits is one run of digits. */
  lemma DigitRunAll(d: string)
    requires AllDigits(d)
    ensures DigitRun(d) == |d| && d[..DigitRun(d)] == d
  {
    assert d[..|d|] == d;
  }

  lemma ParseSignedDigits(d: string, v: nat)
    requires |d| > 0 && AllDigits(d) && DigitsValue(d) == v
    ensures ParseSigned(d) == Some(v)
  {
    assert IsDigit(d[0]);
    DigitRunAll(d);
  }

  lemma ParseDigits(d: string)
    requires |d| > 0 && AllDigits(d)
    ensures ParseInt(d) == Some(DigitsValue(d))
  {
    NoSpaceStart(d);
    ParseSignedDigits(d, DigitsValue(d));
  }

  lemma ParseSignedNegative(t: string, d: string, v: nat)
    requires |t| > 1 && t[0] == '-' && t[1..] == d && AllDigits(d) && DigitsValue(d) == v
    ensures ParseSigned(t) == Some(-(v as int))
  {
    DigitRunAll(d);
  }

  lemma ParseDecimalNegative(n: int)
    requires n < 0
    ensures ParseInt(Decimal(n)) == Some(n)
  {
    NatDecimalValue(-n);
    ParseMinus(Decimal(n), -n, NatDecimal(-n));
  }

  lemma ParseMinus(t: string, m: nat, d: string)
    requires t == "-" + d && |d| > 0 && AllDigits(d) && DigitsValue(d) == m
    ensures ParseInt(t) == Some(-(m as int))
  {
    MinusShape(t, d);
    NoSpaceStart(t);
    ParseSignedNegative(t, d, m);
  }

  lemma MinusShape(s: string, d: string)
    requires s == "-" + d
    ensures |s| == |d| + 1 && s[0] == '-' && s[1..] == d
  {
  }

  lemma ParseDecimalNatural(n: nat)
    ensures ParseInt(Decimal(n)) == Some(n)
  {
    NatDecimalValue(n);
    ParseDigits(NatDecimal(n));
  }

  /** `parseInt` reads back what `${n}` writes. */
  lemma ParseDecimal(n: int)
    ensures ParseInt(Decimal(n)) == Some(n)
  {
    if n < 0 {
      ParseDecimalNegative(n);
    } else {
      ParseDecimalNatural(n);
    }
  }
}
