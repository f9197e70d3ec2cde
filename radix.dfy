/** The JavaScript number/string conversions the simulator relies on:
    Number.prototype.toString(radix), parseInt(string, radix), String.prototype.padStart,
    String.prototype.toUpperCase (on digit strings) and Array.prototype.findIndex. */
module Radix {
  import opened Wrappers

  function Pow(base: nat, k: nat): (r: nat)
    ensures base >= 1 ==> r >= 1
  {
    if k == 0 then 1 else base * Pow(base, k - 1)
  }

  lemma {:induction false} PowMonotonic(base: nat, j: nat, k: nat)
    requires base >= 1 && j <= k
    ensures Pow(base, j) <= Pow(base, k)
    decreases k
  {
    if j < k {
      PowMonotonic(base, j, k - 1);
      MulMonotonic(Pow(base, k - 1), 1, base);
    }
  }

  lemma {:induction false} PowAdd(base: nat, j: nat, k: nat)
    ensures Pow(base, j + k) == Pow(base, j) * Pow(base, k)
    decreases k
  {
    if k > 0 {
      PowAdd(base, j, k - 1);
      MulAssociates(base, Pow(base, j), Pow(base, k - 1));
    }
  }

  /** The value parseInt gives a digit character: 0-9, then a-z or A-Z for 10 to 35. */
  function DigitValue(c: char): Option<nat>
  {
    if '0' <= c <= '9' then Some(c as int - '0' as int)
    else if 'a' <= c <= 'z' then Some(c as int - 'a' as int + 10)
    else if 'A' <= c <= 'Z' then Some(c as int - 'A' as int + 10)
    else None
  }

  predicate IsDigit(c: char, radix: nat)
  {
    DigitValue(c).Some? && DigitValue(c).value < radix
  }

  predicate AllDigits(s: string, radix: nat)
  {
    forall i :: 0 <= i < |s| ==> IsDigit(s[i], radix)
  }

  /** A non-empty run of digits, as toString produces and parseInt reads whole. */
  predicate IsNumeral(s: string, radix: nat)
  {
    s != [] && AllDigits(s, radix)
  }

  /** The (lower-case) character toString writes for digit d. */
  function DigitChar(d: nat): (c: char)
    requires d < 36
    ensures DigitValue(c) == Some(d)
  {
    if d < 10 then ('0' as int + d) as char else ('a' as int + d - 10) as char
  }

  /** The value of a digit string, most significant digit first. */
  function Value(s: string, radix: nat): nat
    requires AllDigits(s, radix)
  {
    if s == [] then 0 else Value(s[..|s| - 1], radix) * radix + DigitValue(s[|s| - 1]).value
  }

  lemma ValueOfDigit(c: char, radix: nat)
    requires IsDigit(c, radix)
    ensures Value([c], radix) == DigitValue(c).value
  {
    assert [c][..0] == [];
  }

  /** Appending a digit shifts the value by one place. */
  lemma ValueAppend(s: string, c: char, radix: nat)
    requires AllDigits(s, radix) && IsDigit(c, radix)
    ensures AllDigits(s + [c], radix)
    ensures Value(s + [c], radix) == Value(s, radix) * radix + DigitValue(c).value
  {
    assert (s + [c])[..|s|] == s;
  }

  /** Value of a concatenation: the left part counts Pow(radix, |right|) times. */
  lemma {:induction false} ValueConcat(a: string, b: string, radix: nat)
    requires AllDigits(a, radix) && AllDigits(b, radix)
    ensures AllDigits(a + b, radix)
    ensures Value(a + b, radix) == Value(a, radix) * Pow(radix, |b|) + Value(b, radix)
    decreases |b|
  {
    if b == [] {
      assert a + b == a;
    } else {
      var b' := b[..|b| - 1];
      var c := b[|b| - 1];
      assert a + b == (a + b') + [c];
      assert b == b' + [c];
      ValueConcat(a, b', radix);
      ValueAppend(a + b', c, radix);
      ValueAppend(b', c, radix);
      ShiftDistributes(Value(a, radix), Pow(radix, |b'|), Value(b', radix), radix, DigitValue(c).value);
    }
  }

  lemma ShiftDistributes(x: nat, p: nat, y: nat, radix: nat, d: nat)
    ensures (x * p + y) * radix + d == x * (radix * p) + (y * radix + d)
  {
  }

  /** Every digit string of length k is worth less than Pow(radix, k). */
  lemma {:induction false} ValueBound(s: string, radix: nat)
    requires AllDigits(s, radix)
    ensures Value(s, radix) < Pow(radix, |s|)
    decreases |s|
  {
    if s != [] {
      var s' := s[..|s| - 1];
      ValueBound(s', radix);
      NextPlace(Value(s', radix), DigitValue(s[|s| - 1]).value, radix, Pow(radix, |s'|));
    }
  }

  /** If x < p and d < radix then x * radix + d < radix * p. */
  lemma NextPlace(x: nat, d: nat, radix: nat, p: nat)
    requires x < p && d < radix
    ensures x * radix + d < radix * p
  {
    assert x * radix + d < (x + 1) * radix;
    assert (x + 1) * radix <= p * radix;
  }

  function Repeat(c: char, n: nat): (r: string)
    ensures |r| == n && forall i :: 0 <= i < n ==> r[i] == c
  {
    seq(n, _ => c)
  }

  /** Leading zeros do not change a value. */
  lemma ValueLeadingZeros(k: nat, s: string, radix: nat)
    requires AllDigits(s, radix) && radix >= 1
    ensures AllDigits(Repeat('0', k) + s, radix)
    ensures Value(Repeat('0', k) + s, radix) == Value(s, radix)
  {
    ZerosAreWorthNothing(k, radix);
    ValueConcat(Repeat('0', k), s, radix);
  }

  lemma {:induction false} ZerosAreWorthNothing(k: nat, radix: nat)
    requires radix >= 1
    ensures AllDigits(Repeat('0', k), radix) && Value(Repeat('0', k), radix) == 0
    decreases k
  {
    if k > 0 {
      ZerosAreWorthNothing(k - 1, radix);
      assert Repeat('0', k)[..k - 1] == Repeat('0', k - 1);
    }
  }

  /** Number.prototype.toString(radix) of a non-negative integer: a digit string whose
      value is n. */
  function ToString(n: nat, radix: nat): (s: string)
    requires 2 <= radix <= 36
    ensures IsNumeral(s, radix) && Value(s, radix) == n
    decreases n
  {
    if n < radix then
      ValueOfDigit(DigitChar(n), radix);
      [DigitChar(n)]
    else
      var qd := DivMod(n, radix);
      var high := ToString(qd.0, radix);
      var c := DigitChar(qd.1);
      ValueAppend(high, c, radix);
      high + [c]
  }

  /** toString writes no leading zero: its length is the number of places n needs. */
  lemma {:induction false} ToStringLength(n: nat, radix: nat)
    requires 2 <= radix <= 36
    ensures n < Pow(radix, |ToString(n, radix)|)
    ensures |ToString(n, radix)| == 1 || Pow(radix, |ToString(n, radix)| - 1) <= n
    decreases n
  {
    if n < radix {
      assert Pow(radix, 1) == radix;
    } else {
      var qd := DivMod(n, radix);
      ToStringLength(qd.0, radix);
      PlaceBounds(n, radix, qd.0, qd.1, |ToString(qd.0, radix)|);
    }
  }

  /** Quotient and remainder of n by radix, as a pair. */
  function DivMod(n: nat, radix: nat): (r: (nat, nat))
    requires 2 <= radix <= n
    ensures n == r.0 * radix + r.1 && r.1 < radix && 1 <= r.0 < n
  {
    (n / radix, n % radix)
  }

  lemma PlaceBounds(n: nat, radix: nat, q: nat, d: nat, h: nat)
    requires 2 <= radix && d < radix && q >= 1 && n == q * radix + d && h >= 1
    requires q < Pow(radix, h)
    requires h == 1 || Pow(radix, h - 1) <= q
    ensures n < Pow(radix, h + 1)
    ensures Pow(radix, h) <= n
  {
    NextPlace(q, d, radix, Pow(radix, h));
    assert Pow(radix, h + 1) == radix * Pow(radix, h);
    if h > 1 {
      assert Pow(radix, h) == radix * Pow(radix, h - 1);
      MulMonotonic(radix, Pow(radix, h - 1), q);
    } else {
      assert Pow(radix, 1) == radix;
    }
  }

  lemma MulAssociates(a: nat, b: nat, c: nat)
    ensures a * (b * c) == b * (a * c)
  {
  }

  lemma MulMonotonic(k: nat, x: nat, y: nat)
    requires x <= y
    ensures k * x <= k * y
  {
  }

  /** toString for any integer: a '-' sign in front of the magnitude for negatives. */
  function SignedToString(n: int, radix: nat): string
    requires 2 <= radix <= 36
  {
    if n < 0 then "-" + ToString(-n, radix) else ToString(n, radix)
  }

  /** String.prototype.padStart(width, fill): never truncates. */
  function PadStart(s: string, width: int, fill: char): (r: string)
    ensures |r| == if |s| >= width then |s| else width
    ensures r[|r| - |s|..] == s
    ensures forall i :: 0 <= i < |r| - |s| ==> r[i] == fill
  {
    if |s| >= width then s else Repeat(fill, width - |s|) + s
  }

  predicate IsLowerLetter(c: char)
  {
    'a' <= c <= 'z'
  }

  function UpperChar(c: char): char
  {
    if IsLowerLetter(c) then (c as int - 32) as char else c
  }

  /** String.prototype.toUpperCase, on the ASCII letters digit strings can hold:
      no lower-case letter is left, every other character is kept, and every digit
      keeps its value. */
  function ToUpperCase(s: string): (r: string)
    ensures |r| == |s|
    ensures forall i :: 0 <= i < |r| ==> !IsLowerLetter(r[i])
    ensures forall i :: 0 <= i < |s| && !IsLowerLetter(s[i]) ==> r[i] == s[i]
    ensures forall i :: 0 <= i < |s| ==> DigitValue(r[i]) == DigitValue(s[i])
  {
    seq(|s|, i requires 0 <= i < |s| => UpperChar(s[i]))
  }

  /** Upper-casing a digit string keeps its value. */
  lemma {:induction false} ValueUpperCase(s: string, radix: nat)
    requires AllDigits(s, radix)
    ensures AllDigits(ToUpperCase(s), radix)
    ensures Value(ToUpperCase(s), radix) == Value(s, radix)
    decreases |s|
  {
    if s != [] {
      var s' := s[..|s| - 1];
      assert ToUpperCase(s)[..|s| - 1] == ToUpperCase(s');
      ValueUpperCase(s', radix);
    }
  }

  /** The white space parseInt skips before the number: the WhiteSpace and
      LineTerminator code points of ECMA-262 (sections 12.2 and 12.3), that is tab,
      vertical tab, form feed, the byte order mark, line feed, carriage return, the
      line and paragraph separators, and every space separator of Unicode (category
      Zs). */
  predicate IsWhiteSpace(c: char)
  {
    || c == '\t' || c == '\U{000B}' || c == '\U{000C}' || c == '\U{FEFF}'
    || c == '\n' || c == '\r' || c == '\U{2028}' || c == '\U{2029}'
    || c == ' ' || c == '\U{00A0}' || c == '\U{1680}' || '\U{2000}' <= c <= '\U{200A}'
    || c == '\U{202F}' || c == '\U{205F}' || c == '\U{3000}'
  }

  function TrimStart(s: string): (r: string)
    ensures |r| <= |s|
  {
    if s != [] && IsWhiteSpace(s[0]) then TrimStart(s[1..]) else s
  }

  /** Length of the longest prefix of s made of digits of the radix. */
  function DigitRun(s: string, radix: nat): (n: nat)
    ensures n <= |s| && AllDigits(s[..n], radix)
    ensures n < |s| ==> !IsDigit(s[n], radix)
  {
    if s == [] || !IsDigit(s[0], radix) then 0
    else
      var n := 1 + DigitRun(s[1..], radix);
      assert forall i :: 1 <= i < n ==> s[..n][i] == s[1..][..n - 1][i - 1];
      n
  }

  /** parseInt(s, radix): skip white space, read an optional sign, for radix 16 an
      optional 0x / 0X, then as many digits as there are; no digit at all is NaN (None). */
  function ParseInt(s: string, radix: nat): (r: Option<int>)
    requires 2 <= radix <= 36
    ensures TrimStart(s) == [] ==> r.None?
    ensures r.Some? && r.value < 0 ==> TrimStart(s)[0] == '-'
  {
    var trimmed := TrimStart(s);
    var negative := trimmed != [] && trimmed[0] == '-';
    var unsigned := if trimmed != [] && (trimmed[0] == '-' || trimmed[0] == '+') then trimmed[1..] else trimmed;
    var body :=
      if radix == 16 && |unsigned| >= 2 && unsigned[0] == '0' && (unsigned[1] == 'x' || unsigned[1] == 'X')
      then unsigned[2..] else unsigned;
    var n := DigitRun(body, radix);
    if n == 0 then None
    else
      var magnitude: int := Value(body[..n], radix);
      Some(if negative then -magnitude else magnitude)
  }

  /** A string that is nothing but digits parses to its value. */
  lemma ParseNumeral(s: string, radix: nat)
    requires 2 <= radix <= 36 && IsNumeral(s, radix)
    requires radix == 16 ==> |s| < 2 || s[0] != '0' || (s[1] != 'x' && s[1] != 'X')
    ensures ParseInt(s, radix) == Some(Value(s, radix))
  {
    assert TrimStart(s) == s;
    DigitRunAll(s, radix);
    assert s[..|s|] == s;
  }

  /** A "0x"-prefixed hexadecimal numeral parses to its value. */
  lemma ParseHexLiteral(h: string)
    requires IsNumeral(h, 16)
    ensures ParseInt("0x" + h, 16) == Some(Value(h, 16))
  {
    var s := "0x" + h;
    assert TrimStart(s) == s;
    assert s[2..] == h;
    DigitRunAll(h, 16);
    assert h[..|h|] == h;
  }

  lemma {:induction false} DigitRunAll(s: string, radix: nat)
    requires AllDigits(s, radix)
    ensures DigitRun(s, radix) == |s|
    decreases |s|
  {
    if s != [] {
      DigitRunAll(s[1..], radix);
    }
  }

  /** Array.prototype.findIndex (and, through the index, Array.prototype.find):
      the first position whose element satisfies p. */
  function FindIndex<T>(s: seq<T>, p: T -> bool): (r: Option<nat>)
    ensures r.Some? ==> r.value < |s| && p(s[r.value])
    ensures r.Some? ==> forall j :: 0 <= j < r.value ==> !p(s[j])
    ensures r.None? ==> forall j :: 0 <= j < |s| ==> !p(s[j])
  {
    if s == [] then None
    else if p(s[0]) then Some(0)
    else match FindIndex(s[1..], p)
      case None => None
      case Some(k) => Some(k + 1)
  }
}
