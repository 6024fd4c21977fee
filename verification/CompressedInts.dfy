/**
 * Compressed integers (section II.23.2 of ECMA-335): the encodings the standard defines and the
 * decodings of custom_binary_reader.cc. Bytes are integers here, so masks and shifts are written
 * as divisions and remainders; the lemmas at the end justify that reading bit by bit.
 */
module CompressedInts {
  import opened Wrappers
  import opened Integers

  // ---------------------------------------------------------------- unsigned

  const MAX_UNSIGNED: nat := 0x1FFF_FFFF

  /** The numbers a compressed integer can hold, unsigned and signed. */
  type uint29 = n: nat | n <= MAX_UNSIGNED
  type int29 = i: int | -0x1000_0000 <= i < 0x1000_0000

  function TwoBytes(n: nat): (s: Bytes)
    requires n <= 0x3FFF
    ensures |s| == 2
  {
    [0x80 + n / 0x100, n % 0x100]
  }

  function FourBytes(n: uint29): (s: Bytes)
    ensures |s| == 4
  {
    var n1 := n / 0x100;
    var n2 := n1 / 0x100;
    var n3 := n2 / 0x100;
    [0xC0 + n3, n2 % 0x100, n1 % 0x100, n % 0x100]
  }

  /** The standard's encoding, in the fewest bytes. */
  function Encode(n: uint29): (s: Bytes)
    ensures |s| == if n <= 0x7F then 1 else if n <= 0x3FFF then 2 else 4
  {
    if n <= 0x7F then [n] else if n <= 0x3FFF then TwoBytes(n) else FourBytes(n)
  }

  function Join2(a: int, b: int): int {
    a * 0x100 + b
  }

  function Join4(a: int, b: int, c: int, d: int): int {
    a * 0x100_0000 + b * 0x1_0000 + c * 0x100 + d
  }

  /** The value at the front of s and the number of bytes it takes; None when there is none. */
  function Decode(s: Bytes): Option<(nat, nat)> {
    if |s| < 1 then None
    else if s[0] < 0x80 then Some((s[0], 1))
    else if |s| < 2 then None
    else if s[0] < 0xC0 then Some((Join2(s[0], s[1]) % 0x4000, 2))
    else if |s| < 4 then None
    else if s[0] < 0xE0 then Some((Join4(s[0], s[1], s[2], s[3]) % 0x2000_0000, 4))
    else None
  }

  lemma DecodeTwoBytes(n: nat, tail: Bytes)
    requires n <= 0x3FFF
    ensures Decode(TwoBytes(n) + tail) == Some((n, 2))
  {
  }

  lemma DecodeFourBytes(n: uint29, tail: Bytes)
    ensures Decode(FourBytes(n) + tail) == Some((n, 4))
  {
    var s := FourBytes(n) + tail;
    assert Join4(s[0], s[1], s[2], s[3]) == 0xC000_0000 + n;
  }

  /** Decoding inverts encoding and takes exactly the bytes the standard prescribes. */
  lemma UnsignedRoundTrip(n: uint29, tail: Bytes)
    ensures Decode(Encode(n) + tail) == Some((n, |Encode(n)|))
  {
    if n <= 0x7F {
    } else if n <= 0x3FFF {
      DecodeTwoBytes(n, tail);
    } else {
      DecodeFourBytes(n, tail);
    }
  }

  /** What is decoded is in range, of its width's form. */
  lemma {:induction false} DecodeRange(s: Bytes)
    requires Decode(s).Some?
    ensures var (n, width) := Decode(s).value;
            && width <= |s| && s[0] < 0xE0
            && (width == 1 ==> s[0] < 0x80 && n <= 0x7F && s[..1] == [n])
            && (width == 2 ==> 0x80 <= s[0] < 0xC0 && n <= 0x3FFF && s[..2] == TwoBytes(n))
            && (width == 4 ==> 0xC0 <= s[0] && n <= MAX_UNSIGNED && s[..4] == FourBytes(n))
            && (width == 1 || width == 2 || width == 4)
  {
    if 0x80 <= s[0] < 0xC0 {
      RangeTwo(s[0], s[1]);
    } else if 0xC0 <= s[0] {
      RangeFour(s[0], s[1], s[2], s[3]);
    }
  }

  lemma RangeTwo(a: byte, b: byte)
    requires 0x80 <= a < 0xC0
    ensures var n := Join2(a, b) % 0x4000;
            n <= 0x3FFF && TwoBytes(n) == [a, b]
  {
    assert Join2(a, b) % 0x4000 == Join2(a - 0x80, b);
  }

  lemma RangeFour(a: byte, b: byte, c: byte, d: byte)
    requires 0xC0 <= a < 0xE0
    ensures var n := Join4(a, b, c, d) % 0x2000_0000;
            n <= MAX_UNSIGNED && FourBytes(n) == [a, b, c, d]
  {
    assert Join4(a, b, c, d) % 0x2000_0000 == Join4(a - 0xC0, b, c, d);
    FourBytesOf(a, b, c, d);
  }

  lemma FourBytesOf(a: byte, b: byte, c: byte, d: byte)
    requires 0xC0 <= a < 0xE0
    ensures FourBytes(Join4(a - 0xC0, b, c, d)) == [a, b, c, d]
  {
    var n2 := Join2(a - 0xC0, b);
    var n1 := Join2(n2, c);
    assert Join4(a - 0xC0, b, c, d) == Join2(n1, d);
    SplitJoin2(n1, d);
    SplitJoin2(n2, c);
    SplitJoin2(a - 0xC0, b);
  }

  lemma SplitJoin2(high: int, low: byte)
    ensures Join2(high, low) / 0x100 == high && Join2(high, low) % 0x100 == low
  {
  }

  /** A decoded value is the standard's encoding of itself exactly when no shorter one exists. */
  lemma CanonicalExactly(s: Bytes)
    requires Decode(s).Some?
    ensures var (n, width) := Decode(s).value;
            n <= MAX_UNSIGNED && width <= |s| && (s[..width] == Encode(n) <==> width == |Encode(n)|)
  {
    DecodeRange(s);
  }

  // ---------------------------------------------------------------- signed

  /** i in the two's complement of modulus m, rotated left by one bit. */
  function Rotate(i: int, m: nat): nat
    requires m > 0 && m % 2 == 0 && -(m / 2) <= i < m / 2
  {
    if i < 0 then 2 * (i + m) - m + 1 else 2 * i
  }

  /** The standard's encoding: 7, 14 or 29 bits, sign bit last. */
  function EncodeSigned(i: int29): (s: Bytes)
    ensures |s| == if -0x40 <= i < 0x40 then 1 else if -0x2000 <= i < 0x2000 then 2 else 4
  {
    if -0x40 <= i < 0x40 then [Rotate(i, 0x80)]
    else if -0x2000 <= i < 0x2000 then TwoBytes(Rotate(i, 0x4000))
    else FourBytes(Rotate(i, 0x2000_0000))
  }

  /** The mask whose bits are merged into a negative value, chosen by the first byte. */
  function SignMask(first: byte): nat
    requires first < 0xE0
  {
    if first < 0x80 then 0xFFFF_FFC0 else if first < 0xC0 then 0xFFFF_E000 else 0xF000_0000
  }

  /** ReadCompressSignedInt32: the value's bits lie below the mask's, so merging them is adding. */
  function DecodeSigned(s: Bytes): Option<(int, nat)> {
    match Decode(s)
    case None => None
    case Some((raw, width)) =>
      BelowMask(s);
      if raw % 2 == 0 then Some((raw / 2, width))
      else Some((ToInt32(raw / 2 + SignMask(s[0])), width))
  }

  lemma BelowMask(s: Bytes)
    requires Decode(s).Some?
    ensures s[0] < 0xE0 && Decode(s).value.0 / 2 + SignMask(s[0]) < 0x1_0000_0000
  {
    DecodeRange(s);
  }

  /** Rotating back, where half is the magnitude of the sign bit. */
  lemma RotatedBack(i: int, half: int)
    requires half > 0 && -half <= i < half
    ensures var r := Rotate(i, 2 * half);
            r < 2 * half && i == if r % 2 == 0 then r / 2 else r / 2 - half
  {
  }

  /** Decoding inverts the signed encoding for all 29-bit values, by whichever mask applies. */
  lemma SignedRoundTrip(i: int29, tail: Bytes)
    ensures DecodeSigned(EncodeSigned(i) + tail) == Some((i, |EncodeSigned(i)|))
  {
    var s := EncodeSigned(i) + tail;
    if -0x40 <= i < 0x40 {
      RotatedBack(i, 0x40);
    } else if -0x2000 <= i < 0x2000 {
      RotatedBack(i, 0x2000);
      DecodeTwoBytes(Rotate(i, 0x4000), tail);
    } else {
      RotatedBack(i, 0x1000_0000);
      DecodeFourBytes(Rotate(i, 0x2000_0000), tail);
    }
    SignedExactly(s);
  }

  /** A reader that only skips a signed value as an unsigned one passes over the same bytes. */
  lemma SkipSigned(i: int29, tail: Bytes)
    ensures Decode(EncodeSigned(i) + tail).Some?
    ensures Decode(EncodeSigned(i) + tail).value.1 == |EncodeSigned(i)|
  {
    SignedRoundTrip(i, tail);
  }

  // ---------------------------------------------------------------- bytes and values

  lemma DecodesTwo(a: byte, b: byte, tail: Bytes)
    requires 0x80 <= a < 0xC0
    ensures Decode([a, b] + tail) == Some(((a % 0x40) * 0x100 + b, 2))
  {
    assert Join2(a, b) == Join2(a - 0x80, b) + 2 * 0x4000;
  }

  lemma DecodesFour(a: byte, b: byte, c: byte, d: byte, tail: Bytes)
    requires 0xC0 <= a < 0xE0
    ensures Decode([a, b, c, d] + tail) == Some(((a % 0x20) * 0x100_0000 + b * 0x1_0000 + c * 0x100 + d, 4))
  {
    assert Join4(a, b, c, d) == Join4(a - 0xC0, b, c, d) + 6 * 0x2000_0000;
  }

  /** The value of the bytes in each of the three forms; the first byte decides. */
  lemma DecodesExactly(a: byte, b: byte, c: byte, d: byte, tail: Bytes)
    ensures a < 0x80 ==> Decode([a] + tail) == Some((a, 1))
    ensures 0x80 <= a < 0xC0 ==> Decode([a, b] + tail) == Some(((a % 0x40) * 0x100 + b, 2))
    ensures 0xC0 <= a < 0xE0 ==>
              Decode([a, b, c, d] + tail) ==
              Some(((a % 0x20) * 0x100_0000 + b * 0x1_0000 + c * 0x100 + d, 4))
    ensures 0xE0 <= a ==> Decode([a] + tail) == None
  {
    if 0x80 <= a < 0xC0 {
      DecodesTwo(a, b, tail);
    } else if 0xC0 <= a < 0xE0 {
      DecodesFour(a, b, c, d, tail);
    }
  }

  /** An even number is twice the signed value; an odd one its two's complement of 7, 14 or 29 bits. */
  lemma SignedExactly(s: Bytes)
    requires Decode(s).Some?
    ensures var (n, width) := Decode(s).value;
            var half := if width == 1 then 0x40 else if width == 2 then 0x2000 else 0x1000_0000;
            DecodeSigned(s) == Some((if n % 2 == 0 then n / 2 else n / 2 - half, width))
  {
    DecodeRange(s);
  }

  /** The examples the standard gives. */
  lemma StandardsExamples()
    ensures Encode(0x03) == [0x03] && Encode(0x7F) == [0x7F] && Encode(0x80) == [0x80, 0x80]
    ensures Encode(0x2E57) == [0xAE, 0x57] && Encode(0x3FFF) == [0xBF, 0xFF]
    ensures Encode(0x4000) == [0xC0, 0x00, 0x40, 0x00] && Encode(0x1FFF_FFFF) == [0xDF, 0xFF, 0xFF, 0xFF]
    ensures EncodeSigned(3) == [0x06] && EncodeSigned(-3) == [0x7B]
    ensures EncodeSigned(64) == [0x80, 0x80] && EncodeSigned(-64) == [0x01]
    ensures EncodeSigned(8192) == [0xC0, 0x00, 0x40, 0x00] && EncodeSigned(-8192) == [0x80, 0x01]
    ensures EncodeSigned(0xFFF_FFFF) == [0xDF, 0xFF, 0xFF, 0xFE]
    ensures EncodeSigned(-0x1000_0000) == [0xC0, 0x00, 0x00, 0x01]
  {
  }

  // ---------------------------------------------------------------- masks and shifts

  /** The three tests on the first byte. */
  lemma LeadBits(b: bv8)
    ensures b & 0x80 == 0 <==> b < 0x80
    ensures b & 0xC0 == 0x80 <==> 0x80 <= b < 0xC0
    ensures b & 0xE0 == 0xC0 <==> 0xC0 <= b < 0xE0
  {
  }

  /** Joining bytes with shifts and masking off the lead bits. */
  lemma JoinedBits(a: bv32, b: bv32, c: bv32, d: bv32)
    requires a < 0x100 && b < 0x100 && c < 0x100 && d < 0x100
    ensures ((a << 8) | b) & 0x3FFF == (a % 0x40) * 0x100 + b
    ensures ((a << 24) | (b << 16) | (c << 8) | d) & 0x1FFF_FFFF ==
            (a % 0x20) * 0x100_0000 + b * 0x1_0000 + c * 0x100 + d
  {
  }

  /** Merging the sign mask into a value below it. */
  lemma MaskBits(n: bv32)
    ensures n < 0x40 ==> n | 0xFFFF_FFC0 == n + 0xFFFF_FFC0
    ensures n < 0x2000 ==> n | 0xFFFF_E000 == n + 0xFFFF_E000
    ensures n < 0x1000_0000 ==> n | 0xF000_0000 == n + 0xF000_0000
  {
  }
}
