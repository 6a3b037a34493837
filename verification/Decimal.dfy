/** Decimal printing (`std::to_string`) and the C parsers `strtol` and `strtoull`, base 10, 64 bits. */
module Decimal {
  import opened Text

  const TWO63: int := 0x8000_0000_0000_0000
  const TWO64: int := 0x1_0000_0000_0000_0000

  /** The values of a signed 64-bit count of seconds. */
  predicate Int64(i: int) {
    -TWO63 <= i < TWO63
  }

  predicate Digit(c: char) {
    '0' <= c <= '9'
  }

  predicate AllDigits(s: string) {
    forall i | 0 <= i < |s| :: Digit(s[i])
  }

  function DigitChar(d: nat): (c: char)
    requires d < 10
    ensures Digit(c) && DigitValue(c) == d
  {
    '0' + d as char
  }

  function DigitValue(c: char): (d: nat)
    requires Digit(c)
    ensures d < 10
  {
    (c - '0') as nat
  }

  function Digits(n: nat): (s: string)
    ensures s != "" && AllDigits(s)
  {
    if n < 10 then [DigitChar(n)] else Digits(n / 10) + [DigitChar(n % 10)]
  }

  function PrintInt(i: int): string {
    if i < 0 then "-" + Digits(-i) else Digits(i)
  }

  function Value(s: string): nat
    requires AllDigits(s)
  {
    if s == "" then 0 else 10 * Value(s[..|s| - 1]) + DigitValue(s[|s| - 1])
  }

  lemma {:induction false} ValueOfDigits(n: nat)
    ensures Value(Digits(n)) == n
  {
    var s := Digits(n);
    if n >= 10 {
      ValueOfDigits(n / 10);
      assert s[..|s| - 1] == Digits(n / 10);
    } else {
      assert s[..0] == "";
    }
  }

  /** Printing is injective, so a printed number can serve as a name. */
  lemma DigitsInjective(m: nat, n: nat)
    ensures Digits(m) == Digits(n) ==> m == n
  {
    ValueOfDigits(m);
    ValueOfDigits(n);
  }

  /** Losing digits at the end divides by ten at least once. */
  lemma {:induction false} TruncationShrinks(n: nat, k: nat)
    requires k < |Digits(n)|
    ensures Value(Digits(n)[..k]) <= n / 10
    decreases n
  {
    var s := Digits(n);
    if n >= 10 {
      var shorter := Digits(n / 10);
      assert s[..k] == shorter[..k];
      if k == |shorter| {
        assert shorter[..k] == shorter;
        ValueOfDigits(n / 10);
      } else {
        TruncationShrinks(n / 10, k);
      }
    } else {
      assert s[..k] == "";
    }
  }

  /** A part of the digits is worth no more than all of them, and no less than one unless it starts with zero. */
  lemma PrefixBounds(n: nat, k: nat)
    requires 0 < k <= |Digits(n)|
    ensures AllDigits(Digits(n)[..k])
    ensures Value(Digits(n)[..k]) <= n
    ensures n > 0 ==> Value(Digits(n)[..k]) > 0
  {
    if k == |Digits(n)| {
      assert Digits(n)[..k] == Digits(n);
      ValueOfDigits(n);
    } else {
      TruncationShrinks(n, k);
      PrefixPositive(n, k);
    }
  }

  /** The first digit of a positive number is not zero. */
  lemma {:induction false} PrefixPositive(n: nat, k: nat)
    requires 0 < k < |Digits(n)|
    ensures Value(Digits(n)[..k]) > 0
    decreases n
  {
    var shorter := Digits(n / 10);
    assert Digits(n)[..k] == shorter[..k];
    if k == |shorter| {
      assert shorter[..k] == shorter;
      ValueOfDigits(n / 10);
    } else {
      PrefixPositive(n / 10, k);
    }
  }

  // ---- Parsing -------------------------------------------------------------------------------

  predicate Space(c: char) {
    c == ' ' || ('\t' <= c <= '\r')
  }

  function SkipSpaces(s: string): nat
    ensures SkipSpaces(s) <= |s|
  {
    if s != "" && Space(s[0]) then 1 + SkipSpaces(s[1..]) else 0
  }

  /** The length of the longest run of digits at the start. */
  function DigitRun(s: string): (n: nat)
    ensures n <= |s| && AllDigits(s[..n])
    ensures n < |s| ==> !Digit(s[n])
  {
    if s != "" && Digit(s[0]) then
      var n := DigitRun(s[1..]);
      assert s[..n + 1] == [s[0]] + s[1..][..n];
      1 + n
    else 0
  }

  /** Sign, magnitude and end of the number a C parser finds; `end` is 0 when it finds none. */
  datatype Scanned = Scanned(negative: bool, magnitude: nat, end: nat)

  function Scan(s: string): (r: Scanned)
    ensures r.end <= |s|
  {
    var start := SkipSpaces(s);
    var signed := start < |s| && (s[start] == '-' || s[start] == '+');
    var first := if signed then start + 1 else start;
    var n := DigitRun(s[first..]);
    if n == 0 then Scanned(false, 0, 0)
    else Scanned(signed && s[start] == '-', Value(s[first..][..n]), first + n)
  }

  /** `strtoull`: too large values become the largest one, a minus sign negates modulo 2^64. */
  function Strtoull(s: string): (r: (nat, nat))
    ensures r.0 < TWO64 && r.1 <= |s|
  {
    var n := Scan(s);
    if n.magnitude >= TWO64 then (TWO64 - 1, n.end)
    else if n.negative && n.magnitude > 0 then (TWO64 - n.magnitude, n.end)
    else (n.magnitude, n.end)
  }

  /** `strtol`: values outside the range become its nearest end. */
  function Strtol(s: string): (r: (int, nat))
    ensures -TWO63 <= r.0 < TWO63 && r.1 <= |s|
  {
    var n := Scan(s);
    if n.negative then (if n.magnitude > TWO63 then -TWO63 else 0 - n.magnitude, n.end)
    else (if n.magnitude >= TWO63 then TWO63 - 1 else n.magnitude, n.end)
  }

  /** Conversion of a 64-bit unsigned value to the signed type of the same width. */
  function ToSigned(u: nat): (i: int)
    requires u < TWO64
    ensures -TWO63 <= i < TWO63 && (i == u || i == u - TWO64)
  {
    if u < TWO63 then u else u - TWO64
  }

  lemma DigitRunWhole(s: string)
    requires AllDigits(s)
    ensures DigitRun(s) == |s|
  {
  }

  /** A parser reads a string of digits to its end. */
  lemma {:induction false} ScanDigits(s: string)
    requires AllDigits(s) && s != ""
    ensures Scan(s) == Scanned(false, Value(s), |s|)
  {
    assert Digit(s[0]);
    assert SkipSpaces(s) == 0;
    assert s[0..] == s && s[..|s|] == s;
    DigitRunWhole(s);
  }

  lemma {:induction false} ScanNegative(s: string)
    requires AllDigits(s) && s != ""
    ensures Scan("-" + s) == Scanned(true, Value(s), |s| + 1)
  {
    var t := "-" + s;
    assert SkipSpaces(t) == 0;
    assert t[1..] == s && s[..|s|] == s;
    DigitRunWhole(s);
  }

  lemma ReadNegative(s: string, n: nat)
    requires AllDigits(s) && s != "" && Value(s) == n && 0 < n <= TWO63
    ensures var r := Strtoull("-" + s); r.1 == |s| + 1 && ToSigned(r.0) == 0 - n
  {
    ScanNegative(s);
  }

  lemma ReadNonNegative(s: string, n: nat)
    requires AllDigits(s) && s != "" && Value(s) == n && n < TWO63
    ensures var r := Strtoull(s); r.1 == |s| && ToSigned(r.0) == n
  {
    ScanDigits(s);
  }

  /** Printing a 64-bit time and reading it back through the unsigned parser returns it, whatever its sign. */
  lemma PrintedTimeReadsBack(i: int)
    requires Int64(i)
    ensures var r := Strtoull(PrintInt(i)); r.1 == |PrintInt(i)| && ToSigned(r.0) == i
  {
    if i < 0 {
      ValueOfDigits(-i);
      ReadNegative(Digits(-i), -i);
    } else {
      ValueOfDigits(i);
      ReadNonNegative(Digits(i), i);
    }
  }

  // ---- What the parsers accept ---------------------------------------------------------------

  /** The parts of a number in a text: white space, a sign or none, and at least one digit. */
  predicate NumberParts(spaces: string, sign: string, digits: string) {
    && (forall i | 0 <= i < |spaces| :: spaces[i] == ' ' || 9 <= spaces[i] as int <= 13)
    && (sign == "" || sign == "-" || sign == "+")
    && digits != "" && forall i | 0 <= i < |digits| :: 48 <= digits[i] as int <= 57
  }

  /** The number that the parts stand for. */
  function Worth(sign: string, digits: string): int
    requires AllDigits(digits)
  {
    if sign == "-" then 0 - Value(digits) else Value(digits)
  }

  lemma {:induction false} SkipsSpaces(spaces: string, rest: string)
    requires forall i | 0 <= i < |spaces| :: Space(spaces[i])
    requires rest != "" ==> !Space(rest[0])
    ensures SkipSpaces(spaces + rest) == |spaces|
  {
    if spaces == "" {
      assert spaces + rest == rest;
    } else {
      assert (spaces + rest)[1..] == spaces[1..] + rest;
      SkipsSpaces(spaces[1..], rest);
    }
  }

  lemma {:induction false} RunsToTheEnd(digits: string, rest: string)
    requires AllDigits(digits) && (rest != "" ==> !Digit(rest[0]))
    ensures DigitRun(digits + rest) == |digits|
  {
    if digits == "" {
      assert digits + rest == rest;
    } else {
      assert (digits + rest)[1..] == digits[1..] + rest;
      RunsToTheEnd(digits[1..], rest);
    }
  }

  lemma {:induction false} ScanIs(s: string, start: nat, first: nat, n: nat)
    requires start == SkipSpaces(s) < |s| && first <= |s|
    requires first == if s[start] == '-' || s[start] == '+' then start + 1 else start
    requires n == DigitRun(s[first..]) && n > 0
    ensures Scan(s) == Scanned(s[start] == '-', Value(s[first..][..n]), first + n)
  {
  }

  lemma {:induction false} AfterSign(spaces: string, sign: string, tail: string)
    requires tail != ""
    ensures var s := spaces + (sign + tail);
            && |s| == |spaces| + |sign| + |tail| && s[|spaces| + |sign|..] == tail
            && s[|spaces|] == if sign == "" then tail[0] else sign[0]
  {
  }

  lemma {:induction false} PartsAreOfTheirKind(spaces: string, sign: string, digits: string)
    requires NumberParts(spaces, sign, digits)
    ensures AllDigits(digits) && forall i | 0 <= i < |spaces| :: Space(spaces[i])
    ensures sign != "" ==> !Space(sign[0]) && !Digit(sign[0])
    ensures !Space(digits[0])
  {
    assert forall i | 0 <= i < |digits| :: Digit(digits[i]);
  }

  lemma {:induction false} FindsAt(s: string, start: nat, first: nat, digits: string, rest: string)
    requires start == SkipSpaces(s) < |s| && first <= |s|
    requires first == if s[start] == '-' || s[start] == '+' then start + 1 else start
    requires s[first..] == digits + rest && digits != "" && AllDigits(digits) && (rest != "" ==> !Digit(rest[0]))
    ensures Scan(s) == Scanned(s[start] == '-', Value(digits), first + |digits|)
  {
    RunsToTheEnd(digits, rest);
    assert (digits + rest)[..|digits|] == digits;
    ScanIs(s, start, first, |digits|);
  }

  /** A number at the start of a text is found with its sign, its digits and its end, whatever follows it. */
  lemma {:induction false} ScanFinds(spaces: string, sign: string, digits: string, rest: string)
    requires NumberParts(spaces, sign, digits) && (rest != "" ==> !Digit(rest[0]))
    ensures AllDigits(digits)
    ensures Scan(spaces + (sign + (digits + rest))) ==
            Scanned(sign == "-", Value(digits), |spaces| + |sign| + |digits|)
  {
    var tail := digits + rest;
    var s := spaces + (sign + tail);
    PartsAreOfTheirKind(spaces, sign, digits);
    assert tail[0] == digits[0] && Digit(digits[0]);
    AfterSign(spaces, sign, tail);
    assert (sign + tail)[0] == if sign == "" then tail[0] else sign[0];
    SkipsSpaces(spaces, sign + tail);
    FindsAt(s, |spaces|, |spaces| + |sign|, digits, rest);
  }

  lemma {:induction false} SkippedAreSpaces(s: string)
    ensures forall i | 0 <= i < SkipSpaces(s) :: Space(s[i])
  {
    if s != "" && Space(s[0]) {
      SkippedAreSpaces(s[1..]);
    }
  }

  lemma {:induction false} FoundAt(s: string) returns (start: nat, first: nat, n: nat)
    requires Scan(s).end != 0
    ensures start <= first && first - start <= 1 && start < |s| && n > 0 && first + n <= |s|
    ensures forall i | 0 <= i < start :: Space(s[i])
    ensures first > start <==> s[start] == '-' || s[start] == '+'
    ensures AllDigits(s[first..][..n])
    ensures Scan(s) == Scanned(s[start] == '-', Value(s[first..][..n]), first + n)
  {
    SkippedAreSpaces(s);
    start := SkipSpaces(s);
    first := if start < |s| && (s[start] == '-' || s[start] == '+') then start + 1 else start;
    n := DigitRun(s[first..]);
  }

  lemma {:induction false} PartsAt(s: string, start: nat, first: nat, n: nat)
    requires start <= first && first - start <= 1 && start < |s| && n > 0 && first + n <= |s|
    requires forall i | 0 <= i < start :: Space(s[i])
    requires first > start ==> s[start] == '-' || s[start] == '+'
    requires AllDigits(s[first..][..n])
    ensures NumberParts(s[..start], s[start..first], s[first..][..n])
    ensures s[start..first] == if first > start then [s[start]] else ""
  {
    var digits := s[first..][..n];
    assert forall i | 0 <= i < n :: Digit(digits[i]);
  }

  /** Where a number is found there is one, in these parts. */
  lemma {:induction false} FoundHasParts(s: string) returns (spaces: string, sign: string, digits: string)
    requires Scan(s).end != 0
    ensures NumberParts(spaces, sign, digits) && s[..Scan(s).end] == spaces + (sign + digits)
    ensures AllDigits(digits) && Scan(s).magnitude == Value(digits) && (Scan(s).negative <==> sign == "-")
  {
    var start, first, n := FoundAt(s);
    spaces, sign, digits := s[..start], s[start..first], s[first..][..n];
    PartsAt(s, start, first, n);
    Split(s, start, first, first + n);
    assert s[first..first + n] == digits;
  }

  lemma {:induction false} Split(s: string, i: nat, j: nat, k: nat)
    requires i <= j <= k <= |s|
    ensures s[..k] == s[..i] + (s[i..j] + s[j..k])
  {
  }

  /** The whole text is a number of this worth. */
  ghost predicate Spells(s: string, value: int) {
    exists spaces: string, sign: string, digits: string ::
      && NumberParts(spaces, sign, digits) && s == spaces + (sign + digits)
      && AllDigits(digits) && value == Worth(sign, digits)
  }

  /** The number, or the nearest limit of 64 bits. */
  function Limited(v: int): int {
    if v < -TWO63 then -TWO63 else if v >= TWO63 then TWO63 - 1 else v
  }

  /** `strtol` reaches the end exactly of the texts that are a number, and gives the number or the nearest limit. */
  lemma {:induction false} StrtolWhole(s: string, r: int)
    ensures Strtol(s) == (r, |s|) && s != "" <==> exists v :: Spells(s, v) && r == Limited(v)
  {
    if Strtol(s) == (r, |s|) && s != "" {
      var spaces, sign, digits := FoundHasParts(s);
      assert s[..|s|] == s;
      assert Spells(s, Worth(sign, digits));
    }
    if v :| Spells(s, v) && r == Limited(v) {
      SpelledIsRead(s, v);
    }
  }

  lemma {:induction false} PartsAreRead(spaces: string, sign: string, digits: string)
    requires NumberParts(spaces, sign, digits) && AllDigits(digits)
    ensures var s := spaces + (sign + digits); Strtol(s) == (Limited(Worth(sign, digits)), |s|)
  {
    assert digits + "" == digits;
    ScanFinds(spaces, sign, digits, "");
  }

  lemma {:induction false} SpelledIsRead(s: string, v: int)
    requires Spells(s, v)
    ensures Strtol(s) == (Limited(v), |s|) && s != ""
  {
    var spaces: string, sign: string, digits: string :|
      && NumberParts(spaces, sign, digits) && s == spaces + (sign + digits)
      && AllDigits(digits) && v == Worth(sign, digits);
    PartsAreRead(spaces, sign, digits);
  }

  /** `strtoull` on a number with anything after it; a minus sign and too large numbers included. */
  lemma {:induction false} StrtoullFinds(spaces: string, sign: string, digits: string, rest: string)
    requires NumberParts(spaces, sign, digits) && (rest != "" ==> !Digit(rest[0]))
    ensures AllDigits(digits)
    ensures Strtoull(spaces + (sign + (digits + rest))) == (Wrapped(sign, digits), |spaces| + |sign| + |digits|)
  {
    ScanFinds(spaces, sign, digits, rest);
  }

  /** The number modulo 2^64, and the largest one for those that are too large. */
  function Wrapped(sign: string, digits: string): nat
    requires AllDigits(digits)
  {
    if Value(digits) >= TWO64 then TWO64 - 1
    else if Worth(sign, digits) < 0 then Worth(sign, digits) + TWO64
    else Worth(sign, digits)
  }

  lemma {:induction false} DigitsAreParts(sign: string, digits: string)
    requires AllDigits(digits) && digits != "" && (sign == "" || sign == "-")
    ensures Spells(sign + digits, Worth(sign, digits))
  {
    assert sign + digits == "" + (sign + digits);
    assert forall i | 0 <= i < |digits| :: Digit(digits[i]);
    assert NumberParts("", sign, digits);
  }

  /** A number that is printed spells itself, so it is its own name. */
  lemma {:induction false} PrintedSpells(i: int)
    ensures Spells(PrintInt(i), i)
  {
    if i < 0 {
      DigitsAreParts("-", Digits(-i));
      ValueOfDigits(-i);
    } else {
      DigitsAreParts("", Digits(i));
      ValueOfDigits(i);
      assert "" + Digits(i) == Digits(i);
    }
  }
}
