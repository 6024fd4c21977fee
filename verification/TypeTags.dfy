/**
 * What the bytes of a type signature mean, element type by element type (sections II.23.1.16 and
 * II.23.2.8 of ECMA-335), stated on the bytes and on the metadata alone.
 */
module TypeTags {
  import opened Wrappers
  import opened CompressedInts
  import opened TypeSignatures

  // ---------------------------------------------------------------- tokens

  /** The signature of a class with this name, or the error when the metadata has no name. */
  function ClassOf(md: Metadata, name: Option<string>, tail: Bytes): Result<(TypeSignature, Bytes), ParseError> {
    if name.None? then Failure(NameNotFound)
    else Success((TypeSignature(md.corTypeOf(name.value), name.value, [], false, 0), tail))
  }

  lemma {:induction false} AfterTag(code: byte, s: Bytes, md: Metadata)
    ensures ParseType([code] + s, md) == ParseBody(code, s, md)
  {
    assert ([code] + s)[1..] == s;
  }

  lemma {:induction false} TokenBody(code: byte, s: Bytes, md: Metadata)
    requires code == 0x11 || code == 0x12
    ensures ParseType([code] + s, md) == ParseByToken(s, md)
  {
    AfterTag(code, s, md);
    BodyOfByToken(code, s, md);
  }

  lemma {:induction false} TokenNamed(token: uint29, high: nat, row: nat, tag: nat, md: Metadata, tail: Bytes)
    requires token / 4 / 0x100_0000 == high && token / 4 % 0x100_0000 == row && token % 4 == tag
    ensures ParseByToken(Encode(token) + tail, md) ==
            if tag == 0 && (high == 0 || high == 2) then ClassOf(md, md.typeDefName(row), tail)
            else if tag == 1 && (high == 0 || high == 1) then ClassOf(md, md.typeRefName(row), tail)
            else Failure(NotImplemented)
  {
    CompressedRoundTrip(token, tail);
  }

  lemma SplitToken(high: nat, row: nat, tag: nat)
    requires high < 8 && row < 0x100_0000 && tag < 4
    ensures var token := 4 * (high * 0x100_0000 + row) + tag;
            && token <= 0x1FFF_FFFF && token % 4 == tag
            && token / 4 / 0x100_0000 == high && token / 4 % 0x100_0000 == row
  {
    var rid := high * 0x100_0000 + row;
    assert (4 * rid + tag) / 4 == rid;
  }

  /**
   * Tag 0 is a row of the TypeDef table, whose tokens have the top byte 0x02, and tag 1 one of the
   * TypeRef table, with 0x01; others have no name here. The high bits of a row number of more than
   * 24 bits are merged into that byte, which must stay what it is.
   */
  lemma {:induction false} TokensExactly(code: byte, high: bv8, row: nat, tag: nat, md: Metadata, tail: Bytes)
    requires (code == 0x11 || code == 0x12) && high < 8 && row < 0x100_0000 && tag < 4
    ensures var token := 4 * ((high as nat) * 0x100_0000 + row) + tag;
            token <= 0x1FFF_FFFF &&
            ParseType([code] + (Encode(token) + tail), md) ==
            if tag == 0 && 0x02 | high == 0x02 then ClassOf(md, md.typeDefName(row), tail)
            else if tag == 1 && 0x01 | high == 0x01 then ClassOf(md, md.typeRefName(row), tail)
            else Failure(NotImplemented)
  {
    var h: nat := high as nat;
    var token := 4 * (h * 0x100_0000 + row) + tag;
    HighBits(high);
    TopBytes(high);
    SplitToken(h, row, tag);
    TokenNamed(token, h, row, tag, md, tail);
    TokenBody(code, Encode(token) + tail, md);
  }

  lemma HighBits(high: bv8)
    requires high < 8
    ensures (high as nat) < 8
    ensures ((high as nat) == 0 <==> high == 0) && ((high as nat) == 1 <==> high == 1)
    ensures (high as nat) == 2 <==> high == 2
  {
  }

  /** The same for row numbers of at most 24 bits, which the standard's tables have. */
  lemma {:induction false} TableTokens(code: byte, row: nat, tag: nat, md: Metadata, tail: Bytes)
    requires (code == 0x11 || code == 0x12) && row < 0x100_0000 && tag < 4
    ensures ParseType([code] + (Encode(4 * row + tag) + tail), md) ==
            if tag == 0 then ClassOf(md, md.typeDefName(row), tail)
            else if tag == 1 then ClassOf(md, md.typeRefName(row), tail)
            else Failure(NotImplemented)
  {
    SplitToken(0, row, tag);
    TokenNamed(4 * row + tag, 0, row, tag, md, tail);
    TokenBody(code, Encode(4 * row + tag) + tail, md);
  }

  // ---------------------------------------------------------------- the other element types

  /** A simple type is its one byte, whatever follows. */
  ghost predicate IsSimple(code: byte, name: string, md: Metadata) {
    forall s :: ParseType([code] + s, md) == Success((TypeSignature(code, name, [], false, 0), s))
  }

  lemma SimpleIs(code: byte, name: string, md: Metadata)
    requires SimpleName(code) == Some(name)
    ensures IsSimple(code, name, md)
  {
    forall s ensures ParseType([code] + s, md) == Success((TypeSignature(code, name, [], false, 0), s)) {
      AfterTag(code, s, md);
    }
  }

  lemma NumbersExactly(md: Metadata)
    ensures IsSimple(0x04, "System.SByte", md) && IsSimple(0x05, "System.Byte", md)
    ensures IsSimple(0x06, "System.Int16", md) && IsSimple(0x07, "System.UInt16", md)
    ensures IsSimple(0x08, "System.Int32", md) && IsSimple(0x09, "System.UInt32", md)
    ensures IsSimple(0x0A, "System.Int64", md) && IsSimple(0x0B, "System.UInt64", md)
    ensures IsSimple(0x0C, "System.Single", md) && IsSimple(0x0D, "System.Double", md)
    ensures IsSimple(0x18, "System.IntPtr", md) && IsSimple(0x19, "System.UIntPtr", md)
  {
    SimpleIs(0x04, "System.SByte", md);
    SimpleIs(0x05, "System.Byte", md);
    SimpleIs(0x06, "System.Int16", md);
    SimpleIs(0x07, "System.UInt16", md);
    SimpleIs(0x08, "System.Int32", md);
    SimpleIs(0x09, "System.UInt32", md);
    SimpleIs(0x0A, "System.Int64", md);
    SimpleIs(0x0B, "System.UInt64", md);
    SimpleIs(0x0C, "System.Single", md);
    SimpleIs(0x0D, "System.Double", md);
    SimpleIs(0x18, "System.IntPtr", md);
    SimpleIs(0x19, "System.UIntPtr", md);
  }

  lemma OtherSimpleExactly(md: Metadata)
    ensures IsSimple(0x02, "System.Boolean", md) && IsSimple(0x03, "System.Char", md)
    ensures IsSimple(0x0E, "System.String", md) && IsSimple(0x1C, "System.Object", md)
  {
    SimpleIs(0x02, "System.Boolean", md);
    SimpleIs(0x03, "System.Char", md);
    SimpleIs(0x0E, "System.String", md);
    SimpleIs(0x1C, "System.Object", md);
  }

  /** 0x1D, then a type: an array of it. Where there is no type, its error. */
  lemma SzArrayExactly(s: Bytes, md: Metadata)
    ensures var element := ParseType(s, md);
            ParseType([0x1D] + s, md) ==
            if element.Failure? then Failure(element.error)
            else Success((TypeSignature(0x1D, "System.Array", [element.value.0], true, 0), element.value.1))
  {
    AfterTag(0x1D, s, md);
  }

  /** 0x14, then a type, a rank and two counted lists of numbers: an array of that rank. */
  lemma ArrayExactly(s: Bytes, md: Metadata, element: TypeSignature, shape: Bytes, rank: uint29, sizes: seq<uint29>,
                     lowerBounds: seq<int29>, tail: Bytes)
    requires ParseType(s, md) == Success((element, shape + tail)) && IsShape(shape, rank, sizes, lowerBounds)
    ensures ParseType([0x14] + s, md) == Success((TypeSignature(0x14, "System.Array", [element], true, rank), tail))
  {
    AfterTag(0x14, s, md);
    BodyOfArray(s, md);
    ShapeParses(shape, rank, sizes, lowerBounds, tail);
  }

  /** 0x15, then a type, a count and so many types: the type with these as arguments. */
  lemma GenericInstExactly(s: Bytes, md: Metadata, main: TypeSignature, count: uint29, s2: Bytes,
                           arguments: seq<TypeSignature>, tail: Bytes)
    requires ParseType(s, md) == Success((main, Encode(count) + s2))
    requires ParseTypes(s2, count, md) == Success((arguments, tail))
    ensures ParseType([0x15] + s, md) ==
            Success((TypeSignature(0x15, main.typeName, arguments, false, 0), tail))
  {
    AfterTag(0x15, s, md);
    BodyOfGenericInst(s, md);
    CompressedRoundTrip(count, s2);
  }

  /** A list of types is read in order. */
  lemma {:induction false} TypesInOrder(s: Bytes, n: nat, md: Metadata, ts: seq<TypeSignature>, tail: Bytes)
    requires ParseTypes(s, n, md) == Success((ts, tail))
    ensures |ts| == n
    ensures n == 0 ==> tail == s
    ensures n > 0 ==> ParseType(s, md).Success? && ParseType(s, md).value.0 == ts[0]
                      && ParseTypes(ParseType(s, md).value.1, n - 1, md) == Success((ts[1..], tail))
    decreases n
  {
    if n > 0 {
      var (_, s1) := ParseType(s, md).value;
      var (others, rest) := ParseTypes(s1, n - 1, md).value;
      assert ts[1..] == others;
      TypesInOrder(s1, n - 1, md, others, rest);
    }
  }

  /** 0x13, then a number: the type argument of the enclosing class with that number. */
  lemma VariableExactly(number: uint29, md: Metadata, tail: Bytes)
    ensures ParseType([0x13] + (Encode(number) + tail), md) ==
            if number < |md.generics| then Success((md.generics[number], tail)) else Failure(VariableNotFound)
  {
    AfterTag(0x13, Encode(number) + tail, md);
    CompressedRoundTrip(number, tail);
  }

  /** Every other first byte is not supported. */
  lemma OthersNotImplemented(code: byte, s: Bytes, md: Metadata)
    requires code < 0x02 || code == 0x0F || code == 0x10 || code == 0x16 || code == 0x17 || code == 0x1A ||
             code == 0x1B || code > 0x1D
    ensures ParseType([code] + s, md) == Failure(NotImplemented)
  {
    AfterTag(code, s, md);
  }

  /** The masks of the two calling conventions, bit by bit, are what the checks look at. */
  lemma ConventionBits(n: bv32)
    ensures n & 0x06 != 0 <==> n / 2 % 4 != 0
    ensures n & 0x08 != 0 <==> n / 8 % 2 != 0
  {
  }
}
