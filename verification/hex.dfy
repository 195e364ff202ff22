/**
 * Base16 ("hex") encoding of byte strings, as in section 8 of RFC 4648, in the
 * form the Rust `hex` crate gives it: `Encode` writes lower-case digits, and
 * `Decode` accepts digits of either case, fails on an odd length before looking
 * at any digit, and otherwise reports the first byte that is not a digit.
 */
module Hex {
  import opened Wrappers

  newtype byte = x: int | 0 <= x < 256

  // ASCII code points of the digit ranges
  const ZERO: byte := 48   // '0'
  const NINE: byte := 57   // '9'
  const UPPER_A: byte := 65  // 'A'
  const UPPER_F: byte := 70  // 'F'
  const UPPER_Z: byte := 90  // 'Z'
  const LOWER_A: byte := 97  // 'a'
  const LOWER_F: byte := 102 // 'f'

  /** A hexadecimal digit of either case: `0-9`, `A-F`, `a-f`. */
  predicate IsHexDigit(c: byte) {
    (ZERO <= c <= NINE) || (UPPER_A <= c <= UPPER_F) || (LOWER_A <= c <= LOWER_F)
  }

  predicate AllHex(s: seq<byte>) {
    forall i :: 0 <= i < |s| ==> IsHexDigit(s[i])
  }

  /** `k` is the position of the first byte of `s` that is not a hex digit. */
  predicate FirstNonHex(s: seq<byte>, k: nat) {
    k < |s| && !IsHexDigit(s[k]) && forall j :: 0 <= j < k ==> IsHexDigit(s[j])
  }

  /** ASCII lower-casing of one byte; every other byte is left as it is. */
  function ToLowerAscii(c: byte): byte {
    if UPPER_A <= c <= UPPER_Z then c + 32 else c
  }

  function LowerAscii(s: seq<byte>): (r: seq<byte>)
    ensures |r| == |s|
  {
    seq(|s|, i requires 0 <= i < |s| => ToLowerAscii(s[i]))
  }

  /** The lower-case digit for a nibble, as the encoder writes it. */
  function DigitFor(v: byte): (c: byte)
    requires v < 16
    ensures IsHexDigit(c) && ToLowerAscii(c) == c
  {
    if v < 10 then ZERO + v else LOWER_A + (v - 10)
  }

  /**
   * The value of one digit (the `hex` crate's `val`): `None` exactly for a byte
   * that is not a digit; upper- and lower-case letters give the same value.
   */
  function HexVal(c: byte): (r: Option<byte>)
    ensures r.Some? <==> IsHexDigit(c)
    ensures r.Some? ==> r.value < 16 && DigitFor(r.value) == ToLowerAscii(c)
  {
    if UPPER_A <= c <= UPPER_F then Some(c - UPPER_A + 10)
    else if LOWER_A <= c <= LOWER_F then Some(c - LOWER_A + 10)
    else if ZERO <= c <= NINE then Some(c - ZERO)
    else None
  }

  /** The digit written for a nibble reads back as that nibble. */
  lemma HexValOfDigit(v: byte)
    requires v < 16
    ensures HexVal(DigitFor(v)) == Some(v)
  {
  }

  /** Letter case does not change a digit's value. */
  lemma HexValIgnoresCase(c: byte)
    ensures HexVal(ToLowerAscii(c)) == HexVal(c)
  {
  }

  /** A byte that lower-cases to the digit of a nibble is a digit of that value. */
  lemma DigitOfEitherCase(c: byte, v: byte)
    requires v < 16 && ToLowerAscii(c) == DigitFor(v)
    ensures IsHexDigit(c) && HexVal(c) == Some(v)
  {
  }

  /**
   * `b` is what the digit pairs of `s` spell: one byte per pair, the first digit
   * of a pair giving the high four bits and the second the low four bits.
   */
  ghost predicate PairsDecode(s: seq<byte>, b: seq<byte>) {
    |s| == 2 * |b| && AllHex(s) &&
    forall i {:trigger b[i]} :: 0 <= i < |b| ==>
      b[i] as int == 16 * HexVal(s[2 * i]).value as int + HexVal(s[2 * i + 1]).value as int
  }

  lemma {:induction false} PairsDecodeUnique(s: seq<byte>, b1: seq<byte>, b2: seq<byte>)
    requires PairsDecode(s, b1) && PairsDecode(s, b2)
    ensures b1 == b2
  {
    assert |b1| == |b2|;
    forall i | 0 <= i < |b1| ensures b1[i] == b2[i] {
    }
  }

  datatype FromHexError =
    | OddLength
    | InvalidHexCharacter(c: byte, index: nat)

  /**
   * Decoding of a hex string. An odd length is reported before any digit is
   * looked at; otherwise the first byte that is not a digit is reported with its
   * position; otherwise the result is the byte string the pairs spell.
   */
  function Decode(s: seq<byte>): (r: Result<seq<byte>, FromHexError>)
    ensures r == Err(OddLength) <==> |s| % 2 == 1
    ensures r.Ok? <==> |s| % 2 == 0 && AllHex(s)
    ensures r.Ok? ==> PairsDecode(s, r.value)
    ensures r.Err? && |s| % 2 == 0 ==> r.error.InvalidHexCharacter?
    ensures r.Err? && |s| % 2 == 0 ==> FirstNonHex(s, r.error.index)
    ensures r.Err? && |s| % 2 == 0 ==> r.error.index < |s| && r.error.c == s[r.error.index]
  {
    if |s| % 2 != 0 then Err(OddLength) else DecodePairs(s)
  }

  /** Decodes an even-length string pair by pair, left to right. */
  function DecodePairs(s: seq<byte>): (r: Result<seq<byte>, FromHexError>)
    requires |s| % 2 == 0
    ensures r.Ok? <==> AllHex(s)
    ensures r.Ok? ==> PairsDecode(s, r.value)
    ensures r.Err? ==> r.error.InvalidHexCharacter?
    ensures r.Err? ==> FirstNonHex(s, r.error.index)
    ensures r.Err? ==> r.error.index < |s| && r.error.c == s[r.error.index]
    decreases |s|
  {
    if s == [] then Ok([])
    else if HexVal(s[0]).None? then
      FirstNonHexNotAll(s, 0);
      Err(InvalidHexCharacter(s[0], 0))
    else if HexVal(s[1]).None? then
      FirstNonHexNotAll(s, 1);
      Err(InvalidHexCharacter(s[1], 1))
    else
      match DecodePairs(s[2..])
      case Err(e) =>
        FirstNonHexShift(s, e.index);
        FirstNonHexNotAll(s, e.index + 2);
        Err(InvalidHexCharacter(e.c, e.index + 2))
      case Ok(rest) =>
        PairsDecodeCons(s, rest);
        // `hi << 4 | lo` with `hi, lo < 16` is `16 * hi + lo`
        Ok([16 * HexVal(s[0]).value + HexVal(s[1]).value] + rest)
  }

  lemma FirstNonHexNotAll(s: seq<byte>, k: nat)
    requires FirstNonHex(s, k)
    ensures !AllHex(s)
  {
  }

  lemma FirstNonHexShift(s: seq<byte>, k: nat)
    requires |s| >= 2 && IsHexDigit(s[0]) && IsHexDigit(s[1]) && FirstNonHex(s[2..], k)
    ensures FirstNonHex(s, k + 2) && s[k + 2] == s[2..][k]
  {
    forall j | 0 <= j < k + 2 ensures IsHexDigit(s[j]) {
      if j >= 2 { assert s[j] == s[2..][j - 2]; }
    }
  }

  lemma PairsDecodeCons(s: seq<byte>, rest: seq<byte>)
    requires |s| >= 2 && IsHexDigit(s[0]) && IsHexDigit(s[1]) && PairsDecode(s[2..], rest)
    ensures PairsDecode(s, [16 * HexVal(s[0]).value + HexVal(s[1]).value] + rest)
  {
    var b := [16 * HexVal(s[0]).value + HexVal(s[1]).value] + rest;
    forall j | 0 <= j < |s| ensures IsHexDigit(s[j]) {
      if j >= 2 { assert s[j] == s[2..][j - 2]; }
    }
    forall i | 1 <= i < |b|
      ensures b[i] as int == 16 * HexVal(s[2 * i]).value as int + HexVal(s[2 * i + 1]).value as int
    {
      assert b[i] == rest[i - 1];
      assert s[2 * i] == s[2..][2 * (i - 1)] && s[2 * i + 1] == s[2..][2 * (i - 1) + 1];
    }
  }

  /**
   * `e` is the lower-case encoding of `b`: positions `2 * i` and `2 * i + 1`
   * hold the digits of the high and the low nibble of `b[i]`.
   */
  ghost predicate IsEncoding(e: seq<byte>, b: seq<byte>) {
    |e| == 2 * |b| &&
    forall i :: 0 <= i < |b| ==> e[2 * i] == DigitFor(b[i] / 16) && e[2 * i + 1] == DigitFor(b[i] % 16)
  }

  /** Lower-case encoding (the `hex` crate's `encode`): two digits per byte, high nibble first. */
  function Encode(b: seq<byte>): (r: seq<byte>)
    ensures |r| == 2 * |b|
    ensures forall i :: 0 <= i < |b| ==> r[2 * i] == DigitFor(b[i] / 16) && r[2 * i + 1] == DigitFor(b[i] % 16)
  {
    if b == [] then [] else [DigitFor(b[0] / 16), DigitFor(b[0] % 16)] + Encode(b[1..])
  }

  /** Every position of a digit string is the first or the second digit of a pair. */
  lemma Halve(k: nat)
    ensures k == 2 * (k / 2) || k == 2 * (k / 2) + 1
  {
  }

  /** A byte made of two nibbles splits back into them. */
  lemma SplitByte(x: byte, hi: byte, lo: byte)
    requires hi < 16 && lo < 16 && x as int == 16 * hi as int + lo as int
    ensures x / 16 == hi && x % 16 == lo
  {
  }

  /** An encoding spells the bytes it encodes. */
  lemma EncodingSpells(e: seq<byte>, b: seq<byte>)
    requires IsEncoding(e, b)
    ensures PairsDecode(e, b)
  {
    forall i | 0 <= i < |b|
      ensures IsHexDigit(e[2 * i]) && HexVal(e[2 * i]) == Some(b[i] / 16)
      ensures IsHexDigit(e[2 * i + 1]) && HexVal(e[2 * i + 1]) == Some(b[i] % 16)
    {
      HexValOfDigit(b[i] / 16);
      HexValOfDigit(b[i] % 16);
    }
    forall k | 0 <= k < |e| ensures IsHexDigit(e[k]) {
      Halve(k);
    }
  }

  /** A string that spells `b` decodes to `b`. */
  lemma DecodeSpelled(s: seq<byte>, b: seq<byte>)
    requires PairsDecode(s, b)
    ensures Decode(s) == Ok(b)
  {
    assert |s| % 2 == 0;
    PairsDecodeUnique(s, Decode(s).value, b);
  }

  /** Every encoding decodes, and to the bytes it encodes. */
  lemma {:induction false} DecodeEncode(b: seq<byte>)
    ensures Decode(Encode(b)) == Ok(b)
  {
    var e := Encode(b);
    assert IsEncoding(e, b);
    EncodingSpells(e, b);
    DecodeSpelled(e, b);
  }

  /** A string that spells `b` is, lower-cased, the encoding of `b`. */
  lemma SpelledIsEncoding(s: seq<byte>, b: seq<byte>, e: seq<byte>)
    requires PairsDecode(s, b) && IsEncoding(e, b)
    ensures e == LowerAscii(s)
  {
    var l := LowerAscii(s);
    forall i | 0 <= i < |b|
      ensures e[2 * i] == l[2 * i] && e[2 * i + 1] == l[2 * i + 1]
    {
      SplitByte(b[i], HexVal(s[2 * i]).value, HexVal(s[2 * i + 1]).value);
    }
    forall k | 0 <= k < |s| ensures e[k] == l[k] {
      Halve(k);
    }
  }

  /**
   * Whatever decodes is, up to letter case, the encoding of what it decodes to:
   * the decoder accepts exactly the encodings, in either case.
   */
  lemma {:induction false} EncodeDecode(s: seq<byte>, b: seq<byte>)
    requires Decode(s) == Ok(b)
    ensures Encode(b) == LowerAscii(s)
  {
    var e := Encode(b);
    assert IsEncoding(e, b);
    SpelledIsEncoding(s, b, e);
  }

  /** A string that lower-cases to the encoding of `b` spells `b`. */
  lemma LoweredEncodingSpells(s: seq<byte>, b: seq<byte>, e: seq<byte>)
    requires LowerAscii(s) == e && IsEncoding(e, b)
    ensures PairsDecode(s, b)
  {
    forall i | 0 <= i < |b|
      ensures IsHexDigit(s[2 * i]) && HexVal(s[2 * i]) == Some(b[i] / 16)
      ensures IsHexDigit(s[2 * i + 1]) && HexVal(s[2 * i + 1]) == Some(b[i] % 16)
    {
      assert ToLowerAscii(s[2 * i]) == e[2 * i];
      assert ToLowerAscii(s[2 * i + 1]) == e[2 * i + 1];
      DigitOfEitherCase(s[2 * i], b[i] / 16);
      DigitOfEitherCase(s[2 * i + 1], b[i] % 16);
    }
    forall k | 0 <= k < |s| ensures IsHexDigit(s[k]) {
      Halve(k);
    }
  }

  /**
   * The converse: a string that lower-cases to the encoding of `b`, whatever
   * the case of each of its letters, decodes to `b`.
   */
  lemma {:induction false} DecodeAnyCase(s: seq<byte>, b: seq<byte>)
    requires LowerAscii(s) == Encode(b)
    ensures Decode(s) == Ok(b)
  {
    var e := Encode(b);
    assert IsEncoding(e, b);
    LoweredEncodingSpells(s, b, e);
    DecodeSpelled(s, b);
  }
}
