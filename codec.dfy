/** The bit codec of app/page.js: toBinary, binaryToHex and hexToBinary, with the
    round trips between binary strings, numbers and hexadecimal strings. */
module Codec {
  import opened Wrappers
  import opened Radix

  /** toBinary(num, bits): num in base 2, left-padded with '0' to `bits` characters. */
  function ToBinary(n: nat, bits: int): (r: string)
    ensures |r| == if |ToString(n, 2)| >= bits then |ToString(n, 2)| else bits
  {
    PadStart(ToString(n, 2), bits, '0')
  }

  /** toBinary writes only binary digits, and reading them back in base 2 gives n. */
  lemma ToBinaryValue(n: nat, bits: int)
    ensures IsNumeral(ToBinary(n, bits), 2) && Value(ToBinary(n, bits), 2) == n
  {
    var digits := ToString(n, 2);
    if |digits| < bits {
      ValueLeadingZeros(bits - |digits|, digits, 2);
    }
  }

  /** toBinary never truncates: the string is exactly `bits` long when n fits in `bits`
      bits, and longer when it does not. */
  lemma ToBinaryWidth(n: nat, bits: nat)
    requires bits >= 1
    ensures |ToBinary(n, bits)| == bits <==> n < Pow(2, bits)
    ensures |ToBinary(n, bits)| > bits <==> n >= Pow(2, bits)
  {
    ToStringLength(n, 2);
    var len := |ToString(n, 2)|;
    if len > bits {
      PowMonotonic(2, bits, len - 1);
    } else {
      PowMonotonic(2, len, bits);
    }
  }

  /** parseInt(toBinary(n, bits), 2) gives n back. */
  lemma ParseToBinary(n: nat, bits: int)
    ensures ParseInt(ToBinary(n, bits), 2) == Some(n)
  {
    ToBinaryValue(n, bits);
    ParseNumeral(ToBinary(n, bits), 2);
  }

  /** A binary numeral of width w is toBinary of its own value at width w. */
  lemma {:induction false} CanonicalBinary(s: string)
    requires IsNumeral(s, 2)
    ensures ToBinary(Value(s, 2), |s|) == s
    decreases |s|
  {
    if s[0] == '1' {
      ToStringOfLeadingOne(s);
    } else if |s| == 1 {
      assert s == "0";
      ValueOfDigit('0', 2);
    } else {
      CanonicalBinary(s[1..]);
      PrependZero(s);
    }
  }

  /** One more column of width puts one more '0' in front. */
  lemma PrependZero(s: string)
    requires IsNumeral(s, 2) && |s| > 1 && s[0] == '0'
    requires ToBinary(Value(s[1..], 2), |s| - 1) == s[1..]
    ensures ToBinary(Value(s, 2), |s|) == s
  {
    var rest := s[1..];
    var n := Value(rest, 2);
    assert |ToString(n, 2)| <= |rest|;
    ToBinaryWiden(n, |rest|);
    assert s == Repeat('0', 1) + rest == ['0'] + rest;
    ValueLeadingZeros(1, rest, 2);
  }

  lemma ToBinaryWiden(n: nat, width: nat)
    requires |ToString(n, 2)| <= width
    ensures ToBinary(n, width + 1) == ['0'] + ToBinary(n, width)
  {
    var digits := ToString(n, 2);
    var k := width - |digits|;
    RepeatCons('0', k);
    assert ToBinary(n, width + 1) == Repeat('0', k + 1) + digits;
    assert ToBinary(n, width) == Repeat('0', k) + digits;
    assert (['0'] + Repeat('0', k)) + digits == ['0'] + (Repeat('0', k) + digits);
  }

  lemma RepeatCons(c: char, k: nat)
    ensures Repeat(c, k + 1) == [c] + Repeat(c, k)
  {
    assert forall i :: 0 <= i < k + 1 ==> Repeat(c, k + 1)[i] == ([c] + Repeat(c, k))[i];
  }

  /** A binary numeral with a leading '1' is exactly what toString(2) writes for its value. */
  lemma {:induction false} ToStringOfLeadingOne(s: string)
    requires IsNumeral(s, 2) && s[0] == '1'
    ensures ToString(Value(s, 2), 2) == s
    decreases |s|
  {
    if |s| == 1 {
      assert s == "1";
      ValueOfDigit('1', 2);
    } else {
      var high := s[..|s| - 1];
      assert s == high + [s[|s| - 1]];
      ToStringOfLeadingOne(high);
      AppendBit(high, s[|s| - 1]);
    }
  }

  /** One more binary digit after a numeral that toString(2) writes. */
  lemma AppendBit(high: string, c: char)
    requires IsNumeral(high, 2) && IsDigit(c, 2) && high[0] == '1'
    requires ToString(Value(high, 2), 2) == high
    ensures AllDigits(high + [c], 2) && ToString(Value(high + [c], 2), 2) == high + [c]
  {
    var v := Value(high, 2);
    var b := DigitValue(c).value;
    BitChar(c);
    ValueAppend(high, c, 2);
    ToStringAppend(v, b);
  }

  lemma BitChar(c: char)
    requires IsDigit(c, 2)
    ensures c == DigitChar(DigitValue(c).value)
  {
  }

  /** toString(2) of 2v + b is toString(2) of v followed by the digit b. */
  lemma ToStringAppend(v: nat, b: nat)
    requires v >= 1 && b < 2
    ensures ToString(v * 2 + b, 2) == ToString(v, 2) + [DigitChar(b)]
  {
    assert DivMod(v * 2 + b, 2) == (v, b);
  }

  /** binaryToHex(binaryStr): cut the string into groups of four characters from the
      LEFT (the last group may be shorter) and write each group as one upper-case hex
      digit. */
  function BinaryToHex(s: string): (h: string)
    requires IsNumeral(s, 2)
    ensures IsNumeral(h, 16) && |h| == (|s| + 3) / 4
    ensures forall i :: 0 <= i < |h| ==> !IsLowerLetter(h[i])
    decreases |s|
  {
    var chunk := if |s| <= 4 then s else s[..4];
    // The chunk holds binary digits only, so parseInt(chunk, 2) reads all of it.
    HexDigitOfChunk(chunk);
    var digit := ToUpperCase(ToString(Value(chunk, 2), 16));
    if |s| <= 4 then digit else digit + BinaryToHex(s[4..])
  }

  /** The hex digit of a group of at most four bits. */
  lemma HexDigitOfChunk(chunk: string)
    requires IsNumeral(chunk, 2) && |chunk| <= 4
    ensures var d := ToUpperCase(ToString(Value(chunk, 2), 16));
      |d| == 1 && IsNumeral(d, 16) && Value(d, 16) == Value(chunk, 2) && !IsLowerLetter(d[0])
  {
    ValueBound(chunk, 2);
    PowMonotonic(2, |chunk|, 4);
    assert Pow(2, 4) == 16;
    ValueUpperCase(ToString(Value(chunk, 2), 16), 16);
  }

  lemma Pow16(k: nat)
    ensures Pow(16, k) == Pow(2, 4 * k)
  {
    if k > 0 {
      Pow16(k - 1);
      PowAdd(2, 4, 4 * (k - 1));
      assert Pow(2, 4) == 16;
    }
  }

  /** On a whole number of nibbles, binaryToHex is a faithful change of base: one hex
      digit per four bits, and the same value. */
  lemma {:induction false} BinaryToHexValue(s: string)
    requires IsNumeral(s, 2) && |s| % 4 == 0
    ensures IsNumeral(BinaryToHex(s), 16)
    ensures |BinaryToHex(s)| == |s| / 4
    ensures Value(BinaryToHex(s), 16) == Value(s, 2)
    decreases |s|
  {
    var chunk := if |s| <= 4 then s else s[..4];
    HexDigitOfChunk(chunk);
    if |s| > 4 {
      var rest := s[4..];
      assert s == chunk + rest;
      BinaryToHexValue(rest);
      var d := ToUpperCase(ToString(Value(chunk, 2), 16));
      var h := BinaryToHex(rest);
      assert BinaryToHex(s) == d + h;
      ValueConcat(chunk, rest, 2);
      ValueConcat(d, h, 16);
      Pow16(|h|);
      assert 4 * |h| == |rest|;
    }
  }

  /** Width of the binary string rounded up to a whole number of nibbles. */
  function NibbleWidth(width: nat): (w: nat)
    ensures w % 4 == 0 && width <= w < width + 4
  {
    (width + 3) / 4 * 4
  }

  /** binaryToHex done right: pad on the left to a whole number of nibbles first, so
      that the groups of four line up with the hex digits. */
  function NibbleAlignedHex(s: string): (h: string)
    requires IsNumeral(s, 2)
    ensures IsNumeral(h, 16) && Value(h, 16) == Value(s, 2)
    ensures |h| == NibbleWidth(|s|) / 4
    ensures forall i :: 0 <= i < |h| ==> !IsLowerLetter(h[i])
  {
    var padded := PadStart(s, NibbleWidth(|s|), '0');
    ValueLeadingZeros(NibbleWidth(|s|) - |s|, s, 2);
    assert padded == Repeat('0', NibbleWidth(|s|) - |s|) + s;
    BinaryToHexValue(padded);
    BinaryToHex(padded)
  }

  /** hexToBinary(hexStr, bits): parseInt(hexStr, 16) written in base 2 and padded to
      `bits`; an unparsable string gives NaN, which is padded in the same way. */
  function HexToBinary(h: string, bits: int): (r: string)
    ensures |r| >= bits
    ensures ParseInt(h, 16).None? ==> |r| >= 3 && r[|r| - 3..] == "NaN"
    ensures ParseInt(h, 16).Some? && ParseInt(h, 16).value >= 0 ==>
      IsNumeral(r, 2) && Value(r, 2) == ParseInt(h, 16).value
  {
    match ParseInt(h, 16)
    case None => PadStart("NaN", bits, '0')
    case Some(v) =>
      if v >= 0 then ToBinaryValue(v, bits); PadStart(SignedToString(v, 2), bits, '0')
      else PadStart(SignedToString(v, 2), bits, '0')
  }

  /** A hex numeral with no "0x" in front parses to its value. */
  lemma ParseHexNumeral(h: string)
    requires IsNumeral(h, 16)
    ensures ParseInt(h, 16) == Some(Value(h, 16))
  {
    if |h| >= 2 {
      assert IsDigit(h[1], 16);
    }
    ParseNumeral(h, 16);
  }

  /** hexToBinary undoes binaryToHex on a whole number of nibbles. */
  lemma HexRoundTrip(s: string)
    requires IsNumeral(s, 2) && |s| % 4 == 0
    ensures HexToBinary(BinaryToHex(s), |s|) == s
  {
    BinaryToHexValue(s);
    ParseHexNumeral(BinaryToHex(s));
    CanonicalBinary(s);
  }

  /** hexToBinary reads back the upper-case hex that toString(16) writes. */
  lemma HexToBinaryOfHexString(n: nat, bits: int)
    ensures HexToBinary(ToUpperCase(ToString(n, 16)), bits) == ToBinary(n, bits)
  {
    ValueUpperCase(ToString(n, 16), 16);
    ParseHexNumeral(ToUpperCase(ToString(n, 16)));
  }
}
