/**
 * Type signatures (sections II.23.2.12, II.23.2.13, II.23.2.4 and II.23.2.5 of ECMA-335): the
 * printer the standard defines and the recursive-descent parser of cor_debug_helper.cc.
 */
module TypeSignatures {
  import opened Wrappers
  import opened CompressedInts

  const SZARRAY: byte := 0x1D
  const ARRAY: byte := 0x14
  const GENERICINST: byte := 0x15
  const CLASS: byte := 0x12
  const VALUETYPE: byte := 0x11
  const VAR: byte := 0x13
  const ARRAY_CLASS := "System.Array"

  /** ConvertCorElementTypeToString: the names of the simple types. */
  function SimpleName(code: byte): Option<string> {
    match code
    case 0x02 => Some("System.Boolean")
    case 0x03 => Some("System.Char")
    case 0x04 => Some("System.SByte")
    case 0x05 => Some("System.Byte")
    case 0x06 => Some("System.Int16")
    case 0x07 => Some("System.UInt16")
    case 0x08 => Some("System.Int32")
    case 0x09 => Some("System.UInt32")
    case 0x0A => Some("System.Int64")
    case 0x0B => Some("System.UInt64")
    case 0x0C => Some("System.Single")
    case 0x0D => Some("System.Double")
    case 0x0E => Some("System.String")
    case 0x18 => Some("System.IntPtr")
    case 0x19 => Some("System.UIntPtr")
    case 0x1C => Some("System.Object")
    case _ => None
  }

  datatype TypeSignature = TypeSignature(corType: byte, typeName: string, genericTypes: seq<TypeSignature>,
                                         isArray: bool, arrayRank: nat)

  /** The tables a two-bit tag can refer to. */
  datatype TokenKind = TypeDef | TypeRef | TypeSpec | BaseType

  function KindOf(tag: nat): TokenKind
    requires tag < 4
  {
    if tag == 0 then TypeDef else if tag == 1 then TypeRef else if tag == 2 then TypeSpec else BaseType
  }

  /** Overrun: the parser took a byte the signature does not have. */
  datatype ParseError = Overrun | BadSignature | NotImplemented | NameNotFound | VariableNotFound

  /** What the parser asks the metadata, and the type arguments of the enclosing class. */
  datatype Metadata = Metadata(typeDefName: nat -> Option<string>, typeRefName: nat -> Option<string>,
                               corTypeOf: string -> byte, generics: seq<TypeSignature>)

  /**
   * GetTypeNameFromMdToken of a row number merged with its table's tag, the top byte of a token.
   * A row number of more than 24 bits reaches into that byte (TopBytes).
   */
  function NameOf(md: Metadata, kind: TokenKind, rid: nat): Result<string, ParseError> {
    var high, row := rid / 0x100_0000, rid % 0x100_0000;
    if kind == TypeDef && (high == 0 || high == 2) then Named(md.typeDefName(row))
    else if kind == TypeRef && (high == 0 || high == 1) then Named(md.typeRefName(row))
    else Failure(NotImplemented)
  }

  /** Which top bytes of a row number leave the tag of a TypeDef or a TypeRef token. */
  lemma TopBytes(high: bv8)
    requires high < 8
    ensures 0x02 | high == 0x02 <==> high == 0 || high == 2
    ensures 0x01 | high == 0x01 <==> high == 0 || high == 1
    ensures 0x02 | high != 0x01 && 0x01 | high != 0x02
    ensures 0x1B | high != 0x01 && 0x1B | high != 0x02 && 0x72 | high != 0x01 && 0x72 | high != 0x02
  {
  }

  function Named(name: Option<string>): Result<string, ParseError> {
    match name
    case Some(n) => Success(n)
    case None => Failure(NameNotFound)
  }

  // ---------------------------------------------------------------- the parser, as a function

  function ParseCompressed(s: Bytes): (r: Result<(nat, Bytes), ParseError>)
    ensures r.Success? ==> |r.value.1| < |s|
  {
    match Decode(s)
    case None => Failure(BadSignature)
    case Some((n, width)) =>
      CanonicalExactly(s);
      Success((n, s[width..]))
  }

  /** Skips n compressed integers. */
  function SkipMany(s: Bytes, n: nat): (r: Result<Bytes, ParseError>)
    ensures r.Success? ==> |r.value| <= |s|
  {
    if n == 0 then Success(s)
    else
      var (_, rest) :- ParseCompressed(s);
      SkipMany(rest, n - 1)
  }

  /** Skips a count and as many compressed integers. */
  function SkipCounted(s: Bytes): (r: Result<Bytes, ParseError>)
    ensures r.Success? ==> |r.value| < |s|
  {
    var (n, rest) :- ParseCompressed(s);
    SkipMany(rest, n)
  }

  /** ParseTypeFromSig: the element type decides how the rest is read. */
  function ParseType(s: Bytes, md: Metadata): (r: Result<(TypeSignature, Bytes), ParseError>)
    ensures r.Success? ==> |r.value.1| < |s|
    decreases |s|, 0
  {
    if s == [] then Failure(Overrun) else ParseBody(s[0], s[1..], md)
  }

  function ParseBody(code: byte, s: Bytes, md: Metadata): (r: Result<(TypeSignature, Bytes), ParseError>)
    ensures r.Success? ==> |r.value.1| <= |s|
    decreases |s|, 2
  {
    if SimpleName(code).Some? then
      Success((TypeSignature(code, SimpleName(code).value, [], false, 0), s))
    else if code == SZARRAY then ParseSzArray(s, md)
    else if code == ARRAY then ParseArray(s, md)
    else if code == GENERICINST then ParseGenericInst(s, md)
    else if code == CLASS || code == VALUETYPE then ParseByToken(s, md)
    else if code == VAR then ParseVariable(s, md)
    else Failure(NotImplemented)
  }

  function ParseSzArray(s: Bytes, md: Metadata): (r: Result<(TypeSignature, Bytes), ParseError>)
    ensures r.Success? ==> |r.value.1| <= |s|
    decreases |s|, 1
  {
    var (element, rest) :- ParseType(s, md);
    Success((TypeSignature(SZARRAY, ARRAY_CLASS, [element], true, 0), rest))
  }

  function ParseArray(s: Bytes, md: Metadata): (r: Result<(TypeSignature, Bytes), ParseError>)
    ensures r.Success? ==> |r.value.1| <= |s|
    decreases |s|, 1
  {
    var (element, s2) :- ParseType(s, md);
    var (rank, s3) :- ParseShape(s2);
    Success((TypeSignature(ARRAY, ARRAY_CLASS, [element], true, rank), s3))
  }

  /** The rank of an array; sizes and lower bounds are skipped. */
  function ParseShape(s: Bytes): (r: Result<(nat, Bytes), ParseError>)
    ensures r.Success? ==> |r.value.1| <= |s|
  {
    var (rank, s2) :- ParseCompressed(s);
    var s3 :- SkipCounted(s2);
    var s4 :- SkipCounted(s3);
    Success((rank, s4))
  }

  function ParseGenericInst(s: Bytes, md: Metadata): (r: Result<(TypeSignature, Bytes), ParseError>)
    ensures r.Success? ==> |r.value.1| <= |s|
    decreases |s|, 1
  {
    var (main, s2) :- ParseType(s, md);
    var (count, s3) :- ParseCompressed(s2);
    var (arguments, s4) :- ParseTypes(s3, count, md);
    Success((TypeSignature(GENERICINST, main.typeName, arguments, false, 0), s4))
  }

  function ParseByToken(s: Bytes, md: Metadata): (r: Result<(TypeSignature, Bytes), ParseError>)
    ensures r.Success? ==> |r.value.1| <= |s|
  {
    var (token, rest) :- ParseCompressed(s);
    var name :- NameOf(md, KindOf(token % 4), token / 4);
    Success((TypeSignature(md.corTypeOf(name), name, [], false, 0), rest))
  }

  function ParseVariable(s: Bytes, md: Metadata): (r: Result<(TypeSignature, Bytes), ParseError>)
    ensures r.Success? ==> |r.value.1| <= |s|
  {
    var (number, rest) :- ParseCompressed(s);
    if number < |md.generics| then Success((md.generics[number], rest)) else Failure(VariableNotFound)
  }

  function ParseTypes(s: Bytes, n: nat, md: Metadata): (r: Result<(seq<TypeSignature>, Bytes), ParseError>)
    ensures r.Success? ==> |r.value.1| <= |s|
    decreases |s|, n
  {
    if n == 0 then Success(([], s))
    else
      var (first, s1) :- ParseType(s, md);
      var (others, s2) :- ParseTypes(s1, n - 1, md);
      Success(([first] + others, s2))
  }

  // ---------------------------------------------------------------- the standard's printer

  /** Types as the standard's grammar has them. Lower bounds of arrays are signed. */
  datatype Type =
    | Simple(code: byte)
    | SzArray(element: Type)
    | Array(element: Type, rank: uint29, sizes: seq<uint29>, lowerBounds: seq<int29>)
    | GenericInst(main: Type, arguments: seq<Type>)
    | ByToken(isValueType: bool, tag: nat, rid: nat)
    | Variable(number: uint29)

  /** The numbers of a type fit the compressed encodings. */
  ghost predicate Encodable(t: Type) {
    match t
    case Simple(code) => SimpleName(code).Some?
    case SzArray(element) => Encodable(element)
    case Array(element, _, sizes, lowerBounds) =>
      Encodable(element) && |sizes| <= MAX_UNSIGNED && |lowerBounds| <= MAX_UNSIGNED
    case GenericInst(main, arguments) =>
      Encodable(main) && |arguments| <= MAX_UNSIGNED && forall a :: a in arguments ==> Encodable(a)
    case ByToken(_, tag, rid) => tag < 4 && 4 * rid + tag <= MAX_UNSIGNED
    case Variable(_) => true
  }

  ghost function Print(t: Type): Bytes
    requires Encodable(t)
    decreases t, 0
  {
    match t
    case Simple(code) => [code]
    case SzArray(element) => [SZARRAY] + Print(element)
    case Array(element, rank, sizes, lowerBounds) =>
      [ARRAY] + Print(element) + PrintShape(rank, sizes, lowerBounds)
    case GenericInst(main, arguments) =>
      [GENERICINST] + Print(main) + (Encode(|arguments|) + PrintAll(arguments))
    case ByToken(isValueType, tag, rid) =>
      [if isValueType then VALUETYPE else CLASS] + Encode(4 * rid + tag)
    case Variable(number) => [VAR] + Encode(number)
  }

  ghost function PrintAll(ts: seq<Type>): Bytes
    requires forall t :: t in ts ==> Encodable(t)
    decreases ts, |ts|
  {
    if ts == [] then [] else Print(ts[0]) + PrintAll(ts[1..])
  }

  function PrintShape(rank: uint29, sizes: seq<uint29>, lowerBounds: seq<int29>): Bytes
    requires |sizes| <= MAX_UNSIGNED && |lowerBounds| <= MAX_UNSIGNED
  {
    Encode(rank) + (Encode(|sizes|) + (PrintSizes(sizes) + (Encode(|lowerBounds|) + PrintBounds(lowerBounds))))
  }

  function PrintSizes(sizes: seq<uint29>): Bytes {
    if sizes == [] then [] else Encode(sizes[0]) + PrintSizes(sizes[1..])
  }

  function PrintBounds(bounds: seq<int29>): Bytes {
    if bounds == [] then [] else EncodeSigned(bounds[0]) + PrintBounds(bounds[1..])
  }

  // ---------------------------------------------------------------- what a type resolves to

  /** The signature a type stands for; the first part, left to right, that cannot be resolved decides. */
  function Resolve(t: Type, md: Metadata): Result<TypeSignature, ParseError>
    decreases t, 0
  {
    match t
    case Simple(code) =>
      (match SimpleName(code)
       case Some(name) => Success(TypeSignature(code, name, [], false, 0))
       case None => Failure(NotImplemented))
    case SzArray(element) =>
      var e :- Resolve(element, md);
      Success(TypeSignature(SZARRAY, ARRAY_CLASS, [e], true, 0))
    case Array(element, rank, _, _) =>
      var e :- Resolve(element, md);
      Success(TypeSignature(ARRAY, ARRAY_CLASS, [e], true, rank))
    case GenericInst(main, arguments) =>
      var m :- Resolve(main, md);
      var args :- ResolveAll(arguments, md);
      Success(TypeSignature(GENERICINST, m.typeName, args, false, 0))
    case ByToken(_, tag, rid) =>
      if tag < 4 then
        var name :- NameOf(md, KindOf(tag), rid);
        Success(TypeSignature(md.corTypeOf(name), name, [], false, 0))
      else Failure(NotImplemented)
    case Variable(number) =>
      if number < |md.generics| then Success(md.generics[number]) else Failure(VariableNotFound)
  }

  function ResolveAll(ts: seq<Type>, md: Metadata): Result<seq<TypeSignature>, ParseError>
    decreases ts, |ts|
  {
    if ts == [] then Success([])
    else
      var first :- Resolve(ts[0], md);
      var others :- ResolveAll(ts[1..], md);
      Success([first] + others)
  }

  /** A result with the bytes that follow it. */
  function With<T>(r: Result<T, ParseError>, tail: Bytes): Result<(T, Bytes), ParseError> {
    var t :- r;
    Success((t, tail))
  }

  // ---------------------------------------------------------------- encodings of a type

  /** s is one number, in as few bytes as it needs or in more. */
  ghost predicate IsNumber(s: Bytes, n: nat) {
    Decode(s) == Some((n, |s|))
  }

  ghost predicate IsSigned(s: Bytes, i: int29) {
    DecodeSigned(s) == Some((i, |s|))
  }

  ghost predicate AreNumbers(s: Bytes, ns: seq<uint29>)
    decreases |ns|
  {
    if ns == [] then s == []
    else exists a, b :: s == a + b && IsNumber(a, ns[0]) && AreNumbers(b, ns[1..])
  }

  ghost predicate AreSigned(s: Bytes, bounds: seq<int29>)
    decreases |bounds|
  {
    if bounds == [] then s == []
    else exists a, b :: s == a + b && IsSigned(a, bounds[0]) && AreSigned(b, bounds[1..])
  }

  /** A rank, counted sizes and counted lower bounds. */
  ghost predicate IsShape(s: Bytes, rank: uint29, sizes: seq<uint29>, lowerBounds: seq<int29>) {
    exists a, b, c :: s == a + (b + c) && IsNumber(a, rank) && AreSizes(b, sizes) && AreBounds(c, lowerBounds)
  }

  ghost predicate AreSizes(s: Bytes, sizes: seq<uint29>) {
    exists a, b :: s == a + b && IsNumber(a, |sizes|) && AreNumbers(b, sizes)
  }

  ghost predicate AreBounds(s: Bytes, lowerBounds: seq<int29>) {
    exists a, b :: s == a + b && IsNumber(a, |lowerBounds|) && AreSigned(b, lowerBounds)
  }

  /** s encodes t as the standard's grammar has it, with numbers of any width that holds them. */
  ghost predicate Encodes(s: Bytes, t: Type)
    decreases t, 0
  {
    s != [] &&
    match t
    case Simple(code) => s == [code] && SimpleName(code).Some?
    case SzArray(element) => s[0] == SZARRAY && Encodes(s[1..], element)
    case Array(element, rank, sizes, lowerBounds) =>
      s[0] == ARRAY &&
      exists a, b :: s[1..] == a + b && Encodes(a, element) && IsShape(b, rank, sizes, lowerBounds)
    case GenericInst(main, arguments) =>
      s[0] == GENERICINST &&
      exists a, b, c :: s[1..] == a + (b + c) && Encodes(a, main) && IsNumber(b, |arguments|)
                        && EncodesAll(c, arguments)
    case ByToken(isValueType, tag, rid) =>
      s[0] == (if isValueType then VALUETYPE else CLASS) && tag < 4 && IsNumber(s[1..], 4 * rid + tag)
    case Variable(number) => s[0] == VAR && IsNumber(s[1..], number)
  }

  ghost predicate EncodesAll(s: Bytes, ts: seq<Type>)
    decreases ts, |ts|
  {
    if ts == [] then s == []
    else exists a, b :: s == a + b && Encodes(a, ts[0]) && EncodesAll(b, ts[1..])
  }

  // ---------------------------------------------------------------- every encoding parses

  lemma NumberParses(s: Bytes, n: nat, tail: Bytes)
    requires IsNumber(s, n)
    ensures ParseCompressed(s + tail) == Success((n, tail))
  {
    assert (s + tail)[|s|..] == tail;
  }

  lemma {:induction false} NumbersSkipped(s: Bytes, ns: seq<uint29>, tail: Bytes)
    requires AreNumbers(s, ns)
    ensures SkipMany(s + tail, |ns|) == Success(tail)
    decreases |ns|
  {
    if ns == [] {
      assert [] + tail == tail;
    } else {
      var a, b :| s == a + b && IsNumber(a, ns[0]) && AreNumbers(b, ns[1..]);
      Assoc(a, b, tail);
      NumberParses(a, ns[0], b + tail);
      NumbersSkipped(b, ns[1..], tail);
    }
  }

  /** Lower bounds, skipped as if they were unsigned. */
  lemma {:induction false} SignedSkipped(s: Bytes, bounds: seq<int29>, tail: Bytes)
    requires AreSigned(s, bounds)
    ensures SkipMany(s + tail, |bounds|) == Success(tail)
    decreases |bounds|
  {
    if bounds == [] {
      assert [] + tail == tail;
    } else {
      var a, b :| s == a + b && IsSigned(a, bounds[0]) && AreSigned(b, bounds[1..]);
      Assoc(a, b, tail);
      NumberParses(a, Decode(a).value.0, b + tail);
      SignedSkipped(b, bounds[1..], tail);
    }
  }

  lemma ShapeParses(s: Bytes, rank: uint29, sizes: seq<uint29>, lowerBounds: seq<int29>, tail: Bytes)
    requires IsShape(s, rank, sizes, lowerBounds)
    ensures ParseShape(s + tail) == Success((rank, tail))
  {
    var a, b, c :| s == a + (b + c) && IsNumber(a, rank) && AreSizes(b, sizes) && AreBounds(c, lowerBounds);
    Assoc(a, b + c, tail);
    Assoc(b, c, tail);
    NumberParses(a, rank, b + (c + tail));
    SizesSkipped(b, sizes, c + tail);
    BoundsSkipped(c, lowerBounds, tail);
  }

  lemma SizesSkipped(s: Bytes, sizes: seq<uint29>, tail: Bytes)
    requires AreSizes(s, sizes)
    ensures SkipCounted(s + tail) == Success(tail)
  {
    var a, b :| s == a + b && IsNumber(a, |sizes|) && AreNumbers(b, sizes);
    Assoc(a, b, tail);
    NumberParses(a, |sizes|, b + tail);
    NumbersSkipped(b, sizes, tail);
  }

  lemma BoundsSkipped(s: Bytes, lowerBounds: seq<int29>, tail: Bytes)
    requires AreBounds(s, lowerBounds)
    ensures SkipCounted(s + tail) == Success(tail)
  {
    var a, b :| s == a + b && IsNumber(a, |lowerBounds|) && AreSigned(b, lowerBounds);
    Assoc(a, b, tail);
    NumberParses(a, |lowerBounds|, b + tail);
    SignedSkipped(b, lowerBounds, tail);
  }

  /** The parser reads the first byte and hands the rest to the case it selects. */
  lemma Dispatch(s: Bytes, tail: Bytes, md: Metadata)
    requires s != []
    ensures ParseType(s + tail, md) == ParseBody(s[0], s[1..] + tail, md)
  {
    assert (s + tail)[1..] == s[1..] + tail;
  }

  lemma {:induction false} BodyOfArray(body: Bytes, md: Metadata)
    ensures ParseBody(ARRAY, body, md) == ParseArray(body, md)
  {
    assert SimpleName(ARRAY) == None;
    var r := ParseArray(body, md);
    assert ParseBody(ARRAY, body, md) == r;
  }

  lemma ArrayResult(body: Bytes, shape: Bytes, t: Type, md: Metadata, tail: Bytes)
    requires t.Array? && ParseType(body, md) == With(Resolve(t.element, md), shape)
    requires ParseShape(shape) == Success((t.rank, tail))
    ensures ParseArray(body, md) == With(Resolve(t, md), tail)
  {
  }

  lemma {:induction false} BodyOfGenericInst(body: Bytes, md: Metadata)
    ensures ParseBody(GENERICINST, body, md) == ParseGenericInst(body, md)
  {
    assert SimpleName(GENERICINST) == None;
    var r := ParseGenericInst(body, md);
    assert ParseBody(GENERICINST, body, md) == r;
  }

  lemma GenericResult(body: Bytes, counted: Bytes, arguments: Bytes, t: Type, md: Metadata, tail: Bytes)
    requires t.GenericInst? && ParseType(body, md) == With(Resolve(t.main, md), counted)
    requires ParseCompressed(counted) == Success((|t.arguments|, arguments))
    requires ParseTypes(arguments, |t.arguments|, md) == With(ResolveAll(t.arguments, md), tail)
    ensures ParseGenericInst(body, md) == With(Resolve(t, md), tail)
  {
  }

  lemma {:induction false} ArrayParses(s: Bytes, t: Type, md: Metadata, tail: Bytes)
    requires t.Array? && Encodes(s, t)
    ensures ParseBody(ARRAY, s[1..] + tail, md) == With(Resolve(t, md), tail)
    decreases t, 0
  {
    var a, b :| s[1..] == a + b && Encodes(a, t.element) && IsShape(b, t.rank, t.sizes, t.lowerBounds);
    Assoc(a, b, tail);
    EncodingParses(a, t.element, md, b + tail);
    ShapeParses(b, t.rank, t.sizes, t.lowerBounds, tail);
    BodyOfArray(s[1..] + tail, md);
    ArrayResult(s[1..] + tail, b + tail, t, md, tail);
  }

  lemma {:induction false} GenericParses(s: Bytes, t: Type, md: Metadata, tail: Bytes)
    requires t.GenericInst? && Encodes(s, t)
    ensures ParseBody(GENERICINST, s[1..] + tail, md) == With(Resolve(t, md), tail)
    decreases t, 0
  {
    var a, b, c :| s[1..] == a + (b + c) && Encodes(a, t.main) && IsNumber(b, |t.arguments|)
                   && EncodesAll(c, t.arguments);
    Assoc(a, b + c, tail);
    Assoc(b, c, tail);
    EncodingParses(a, t.main, md, b + (c + tail));
    NumberParses(b, |t.arguments|, c + tail);
    EncodingsParse(c, t.arguments, md, tail);
    BodyOfGenericInst(s[1..] + tail, md);
    GenericResult(s[1..] + tail, b + (c + tail), c + tail, t, md, tail);
  }

  lemma {:induction false} BodyOfByToken(code: byte, body: Bytes, md: Metadata)
    requires code == CLASS || code == VALUETYPE
    ensures ParseBody(code, body, md) == ParseByToken(body, md)
  {
    assert SimpleName(code) == None;
    var r := ParseByToken(body, md);
    assert ParseBody(code, body, md) == r;
  }

  lemma {:induction false} ByTokenParses(s: Bytes, t: Type, md: Metadata, tail: Bytes)
    requires t.ByToken? && Encodes(s, t)
    ensures ParseBody(s[0], s[1..] + tail, md) == With(Resolve(t, md), tail)
  {
    BodyOfByToken(s[0], s[1..] + tail, md);
    NumberParses(s[1..], 4 * t.rid + t.tag, tail);
    TokenParts(t.rid, t.tag);
  }

  /**
   * Parsing any encoding of a type, whatever follows it, takes exactly its bytes and yields what
   * the type resolves to, or the error that keeps it from resolving.
   */
  lemma {:induction false} EncodingParses(s: Bytes, t: Type, md: Metadata, tail: Bytes)
    requires Encodes(s, t)
    ensures ParseType(s + tail, md) == With(Resolve(t, md), tail)
    decreases t, 1
  {
    Dispatch(s, tail, md);
    match t
    case Simple(_) =>
      assert [] + tail == tail;
    case SzArray(element) =>
      EncodingParses(s[1..], element, md, tail);
    case Array(_, _, _, _) =>
      ArrayParses(s, t, md, tail);
    case GenericInst(_, _) =>
      GenericParses(s, t, md, tail);
    case ByToken(_, _, _) =>
      ByTokenParses(s, t, md, tail);
    case Variable(number) =>
      NumberParses(s[1..], number, tail);
  }

  lemma {:induction false} EncodingsParse(s: Bytes, ts: seq<Type>, md: Metadata, tail: Bytes)
    requires EncodesAll(s, ts)
    ensures ParseTypes(s + tail, |ts|, md) == With(ResolveAll(ts, md), tail)
    decreases ts, |ts|
  {
    if ts == [] {
      assert [] + tail == tail;
    } else {
      var a, b :| s == a + b && Encodes(a, ts[0]) && EncodesAll(b, ts[1..]);
      Assoc(a, b, tail);
      EncodingParses(a, ts[0], md, b + tail);
      EncodingsParse(b, ts[1..], md, tail);
    }
  }

  lemma TokenParts(rid: nat, tag: nat)
    requires tag < 4
    ensures (4 * rid + tag) % 4 == tag && (4 * rid + tag) / 4 == rid
  {
  }

  // ---------------------------------------------------------------- round trip

  lemma EncodedNumber(n: uint29)
    ensures IsNumber(Encode(n), n)
  {
    UnsignedRoundTrip(n, []);
    assert Encode(n) + [] == Encode(n);
  }

  lemma CompressedRoundTrip(n: uint29, tail: Bytes)
    ensures ParseCompressed(Encode(n) + tail) == Success((n, tail))
  {
    EncodedNumber(n);
    NumberParses(Encode(n), n, tail);
  }

  lemma {:induction false} PrintedSizes(sizes: seq<uint29>)
    ensures AreNumbers(PrintSizes(sizes), sizes)
  {
    if sizes != [] {
      EncodedNumber(sizes[0]);
      PrintedSizes(sizes[1..]);
    }
  }

  lemma {:induction false} PrintedBounds(bounds: seq<int29>)
    ensures AreSigned(PrintBounds(bounds), bounds)
  {
    if bounds != [] {
      SignedRoundTrip(bounds[0], []);
      assert EncodeSigned(bounds[0]) + [] == EncodeSigned(bounds[0]);
      PrintedBounds(bounds[1..]);
    }
  }

  lemma PrintedShape(rank: uint29, sizes: seq<uint29>, lowerBounds: seq<int29>)
    requires |sizes| <= MAX_UNSIGNED && |lowerBounds| <= MAX_UNSIGNED
    ensures IsShape(PrintShape(rank, sizes, lowerBounds), rank, sizes, lowerBounds)
  {
    var b, c := Encode(|sizes|) + PrintSizes(sizes), Encode(|lowerBounds|) + PrintBounds(lowerBounds);
    EncodedNumber(rank);
    EncodedNumber(|sizes|);
    EncodedNumber(|lowerBounds|);
    PrintedSizes(sizes);
    PrintedBounds(lowerBounds);
    assert AreSizes(b, sizes) && AreBounds(c, lowerBounds);
    Assoc(Encode(|sizes|), PrintSizes(sizes), c);
  }

  /** The rank is read, and the sizes and lower bounds are passed over. */
  lemma ShapeRoundTrip(rank: uint29, sizes: seq<uint29>, lowerBounds: seq<int29>, tail: Bytes)
    requires |sizes| <= MAX_UNSIGNED && |lowerBounds| <= MAX_UNSIGNED
    ensures ParseShape(PrintShape(rank, sizes, lowerBounds) + tail) == Success((rank, tail))
  {
    PrintedShape(rank, sizes, lowerBounds);
    ShapeParses(PrintShape(rank, sizes, lowerBounds), rank, sizes, lowerBounds, tail);
  }

  lemma Tail(code: byte, body: Bytes)
    ensures ([code] + body)[0] == code && ([code] + body)[1..] == body
  {
  }

  /** The standard's printer writes an encoding. */
  lemma {:induction false} PrintEncodes(t: Type)
    requires Encodable(t)
    ensures Encodes(Print(t), t)
    decreases t, 0
  {
    match t
    case Simple(_) =>
    case SzArray(element) =>
      PrintEncodes(element);
      Tail(SZARRAY, Print(element));
    case Array(element, rank, sizes, lowerBounds) =>
      var shape := PrintShape(rank, sizes, lowerBounds);
      PrintEncodes(element);
      PrintedShape(rank, sizes, lowerBounds);
      Assoc([ARRAY], Print(element), shape);
      Tail(ARRAY, Print(element) + shape);
    case GenericInst(main, arguments) =>
      var rest := Encode(|arguments|) + PrintAll(arguments);
      PrintEncodes(main);
      EncodedNumber(|arguments|);
      PrintEncodesAll(arguments);
      Assoc([GENERICINST], Print(main), rest);
      Tail(GENERICINST, Print(main) + rest);
    case ByToken(isValueType, tag, rid) =>
      EncodedNumber(4 * rid + tag);
      Tail(if isValueType then VALUETYPE else CLASS, Encode(4 * rid + tag));
    case Variable(number) =>
      EncodedNumber(number);
      Tail(VAR, Encode(number));
  }

  lemma {:induction false} PrintEncodesAll(ts: seq<Type>)
    requires forall t :: t in ts ==> Encodable(t)
    ensures EncodesAll(PrintAll(ts), ts)
    decreases ts, |ts|
  {
    if ts != [] {
      PrintEncodes(ts[0]);
      PrintEncodesAll(ts[1..]);
    }
  }

  /** Parsing a printed type, whatever follows it, takes exactly the printed bytes and resolves it. */
  lemma TypeRoundTrip(t: Type, md: Metadata, tail: Bytes)
    requires Encodable(t)
    ensures ParseType(Print(t) + tail, md) == With(Resolve(t, md), tail)
  {
    PrintEncodes(t);
    EncodingParses(Print(t), t, md, tail);
  }

  lemma TypesRoundTrip(ts: seq<Type>, md: Metadata, tail: Bytes)
    requires forall t :: t in ts ==> Encodable(t)
    ensures ParseTypes(PrintAll(ts) + tail, |ts|, md) == With(ResolveAll(ts, md), tail)
  {
    PrintEncodesAll(ts);
    EncodingsParse(PrintAll(ts), ts, md, tail);
  }

  // ---------------------------------------------------------------- only encodings parse

  lemma ParsedNumber(s: Bytes) returns (used: Bytes)
    requires ParseCompressed(s).Success?
    ensures var (n, rest) := ParseCompressed(s).value;
            n <= MAX_UNSIGNED && s == used + rest && IsNumber(used, n)
  {
    var width := Decode(s).value.1;
    CanonicalExactly(s);
    DecodeRange(s);
    used := s[..width];
  }

  lemma {:induction false} SkippedNumbers(s: Bytes, n: nat) returns (used: Bytes, ns: seq<uint29>)
    requires SkipMany(s, n).Success?
    ensures |ns| == n && s == used + SkipMany(s, n).value && AreNumbers(used, ns)
  {
    used, ns := [], [];
    if n != 0 {
      var (k, rest) := ParseCompressed(s).value;
      var a := ParsedNumber(s);
      var b, others := SkippedNumbers(rest, n - 1);
      Assoc(a, b, SkipMany(rest, n - 1).value);
      used, ns := a + b, [k] + others;
      assert ns[1..] == others;
    }
  }

  /** What can be read as an unsigned number can be read as a signed one. */
  lemma NumberIsSigned(s: Bytes, n: nat) returns (i: int29)
    requires IsNumber(s, n)
    ensures IsSigned(s, i)
  {
    DecodeRange(s);
    i := DecodeSigned(s).value.0;
  }

  lemma {:induction false} NumbersAreSigned(s: Bytes, ns: seq<uint29>) returns (bounds: seq<int29>)
    requires AreNumbers(s, ns)
    ensures |bounds| == |ns| && AreSigned(s, bounds)
    decreases |ns|
  {
    bounds := [];
    if ns != [] {
      var a, b :| s == a + b && IsNumber(a, ns[0]) && AreNumbers(b, ns[1..]);
      var i := NumberIsSigned(a, ns[0]);
      var others := NumbersAreSigned(b, ns[1..]);
      bounds := [i] + others;
      assert bounds[1..] == others;
    }
  }

  lemma SkippedSizes(s: Bytes) returns (used: Bytes, sizes: seq<uint29>)
    requires SkipCounted(s).Success?
    ensures s == used + SkipCounted(s).value && AreSizes(used, sizes)
    ensures exists bounds :: AreBounds(used, bounds)
  {
    var (n, rest) := ParseCompressed(s).value;
    var a := ParsedNumber(s);
    var b, ns := SkippedNumbers(rest, n);
    Assoc(a, b, SkipMany(rest, n).value);
    used, sizes := a + b, ns;
    var bounds := NumbersAreSigned(b, ns);
    assert AreBounds(used, bounds);
  }

  lemma ParsedShape(s: Bytes) returns (used: Bytes, rank: uint29, sizes: seq<uint29>, lowerBounds: seq<int29>)
    requires ParseShape(s).Success?
    ensures rank == ParseShape(s).value.0 && s == used + ParseShape(s).value.1
    ensures IsShape(used, rank, sizes, lowerBounds)
  {
    var (n, s2) := ParseCompressed(s).value;
    var a := ParsedNumber(s);
    var b, ns := SkippedSizes(s2);
    var s3 := SkipCounted(s2).value;
    var c, _ := SkippedSizes(s3);
    sizes := ns;
    lowerBounds :| AreBounds(c, lowerBounds);
    used, rank := a + (b + c), n;
    Assoc(b, c, SkipCounted(s3).value);
    Assoc(a, b + c, SkipCounted(s3).value);
  }

  /** What the parser takes for a type, from whatever bytes, is an encoding of a type that resolves so. */
  lemma {:induction false} ParsedIsEncoding(s: Bytes, md: Metadata) returns (used: Bytes, t: Type)
    requires ParseType(s, md).Success?
    ensures var (signature, rest) := ParseType(s, md).value;
            s == used + rest && Encodes(used, t) && Resolve(t, md) == Success(signature)
    decreases |s|, 0
  {
    var code, body := s[0], s[1..];
    var inner: Bytes;
    inner, t := ParsedBody(code, body, md);
    used := [code] + inner;
    Tail(code, inner);
    Assoc([code], inner, ParseType(s, md).value.1);
    assert s == [code] + body;
  }

  lemma {:induction false} ParsedBody(code: byte, s: Bytes, md: Metadata) returns (used: Bytes, t: Type)
    requires ParseBody(code, s, md).Success?
    ensures var (signature, rest) := ParseBody(code, s, md).value;
            s == used + rest && Encodes([code] + used, t) && Resolve(t, md) == Success(signature)
    decreases |s|, 2
  {
    if SimpleName(code).Some? {
      used, t := [], Simple(code);
      assert [code] + [] == [code] && [] + s == s;
    } else if code == SZARRAY {
      var element;
      used, element := ParsedIsEncoding(s, md);
      t := SzArray(element);
      Tail(code, used);
    } else if code == ARRAY {
      used, t := ParsedArray(s, md);
    } else if code == GENERICINST {
      used, t := ParsedGenericInst(s, md);
    } else if code == CLASS || code == VALUETYPE {
      used := ParsedNumber(s);
      var n := ParseCompressed(s).value.0;
      t := ByToken(code == VALUETYPE, n % 4, n / 4);
      Tail(code, used);
    } else {
      used := ParsedNumber(s);
      t := Variable(ParseCompressed(s).value.0);
      Tail(code, used);
    }
  }

  lemma {:induction false} ParsedArray(s: Bytes, md: Metadata) returns (used: Bytes, t: Type)
    requires ParseArray(s, md).Success?
    ensures var (signature, rest) := ParseArray(s, md).value;
            s == used + rest && Encodes([ARRAY] + used, t) && Resolve(t, md) == Success(signature)
    decreases |s|, 1
  {
    var a, element := ParsedIsEncoding(s, md);
    var s2 := ParseType(s, md).value.1;
    var b, rank, sizes, lowerBounds := ParsedShape(s2);
    used, t := a + b, Array(element, rank, sizes, lowerBounds);
    Tail(ARRAY, used);
    Assoc(a, b, ParseShape(s2).value.1);
  }

  lemma {:induction false} ParsedGenericInst(s: Bytes, md: Metadata) returns (used: Bytes, t: Type)
    requires ParseGenericInst(s, md).Success?
    ensures var (signature, rest) := ParseGenericInst(s, md).value;
            s == used + rest && Encodes([GENERICINST] + used, t) && Resolve(t, md) == Success(signature)
    decreases |s|, 1
  {
    var a, main := ParsedIsEncoding(s, md);
    var s2 := ParseType(s, md).value.1;
    var (n, s3) := ParseCompressed(s2).value;
    var b := ParsedNumber(s2);
    var c, arguments := ParsedAreEncodings(s3, n, md);
    used, t := a + (b + c), GenericInst(main, arguments);
    Tail(GENERICINST, used);
    Assoc(b, c, ParseTypes(s3, n, md).value.1);
    Assoc(a, b + c, ParseTypes(s3, n, md).value.1);
  }

  lemma {:induction false} ParsedAreEncodings(s: Bytes, n: nat, md: Metadata) returns (used: Bytes, ts: seq<Type>)
    requires ParseTypes(s, n, md).Success?
    ensures var (signatures, rest) := ParseTypes(s, n, md).value;
            && |ts| == n && s == used + rest && EncodesAll(used, ts)
            && ResolveAll(ts, md) == Success(signatures)
    decreases |s|, 1
  {
    used, ts := [], [];
    if n != 0 {
      var a, first := ParsedIsEncoding(s, md);
      var s1 := ParseType(s, md).value.1;
      var b, others := ParsedAreEncodings(s1, n - 1, md);
      used, ts := a + b, [first] + others;
      assert ts[1..] == others;
      Assoc(a, b, ParseTypes(s1, n - 1, md).value.1);
    }
  }

  /** The bytes begin with an encoding of t, which resolves to the signature; the rest follows. */
  ghost predicate Explains(used: Bytes, t: Type, s: Bytes, md: Metadata, signature: TypeSignature, rest: Bytes) {
    s == used + rest && Encodes(used, t) && Resolve(t, md) == Success(signature)
  }

  /** The parser accepts exactly the encodings of types that resolve, and yields what they resolve to. */
  lemma ParsesExactly(s: Bytes, md: Metadata, signature: TypeSignature, rest: Bytes)
    ensures ParseType(s, md) == Success((signature, rest)) <==>
            exists used, t :: Explains(used, t, s, md, signature, rest)
  {
    if ParseType(s, md) == Success((signature, rest)) {
      var used, t := ParsedIsEncoding(s, md);
      assert Explains(used, t, s, md, signature, rest);
    }
    if used, t :| Explains(used, t, s, md, signature, rest) {
      EncodingParses(used, t, md, rest);
    }
  }

  // ---------------------------------------------------------------- field and property signatures

  /** The calling conventions the parsers look for. */
  const FIELD: nat := 0x06
  const PROPERTY: nat := 0x08

  /** A number with any of the bits of the convention set: bits 1 or 2 for FIELD, bit 3 for PROPERTY. */
  predicate SharesBit(n: nat, convention: nat)
    requires convention == FIELD || convention == PROPERTY
  {
    if convention == FIELD then n / 2 % 4 != 0 else n / 8 % 2 != 0
  }

  /** ParseAndCheckFirstByte. */
  function ParseConvention(s: Bytes, convention: nat): Result<Bytes, ParseError>
    requires convention == FIELD || convention == PROPERTY
  {
    var (n, rest) :- ParseCompressed(s);
    if SharesBit(n, convention) then Success(rest) else Failure(BadSignature)
  }

  function ParseField(s: Bytes, md: Metadata): Result<(TypeSignature, Bytes), ParseError> {
    var rest :- ParseConvention(s, FIELD);
    ParseType(rest, md)
  }

  function ParseProperty(s: Bytes, md: Metadata): Result<(TypeSignature, Bytes), ParseError> {
    var rest :- ParseConvention(s, PROPERTY);
    var (_, rest) :- ParseCompressed(rest);
    ParseType(rest, md)
  }

  /** A field's type, after the byte 0x06. */
  lemma FieldRoundTrip(t: Type, md: Metadata, tail: Bytes)
    requires Encodable(t)
    ensures ParseField([0x06] + (Print(t) + tail), md) == With(Resolve(t, md), tail)
  {
    assert Encode(0x06) == [0x06];
    CompressedRoundTrip(0x06, Print(t) + tail);
    TypeRoundTrip(t, md, tail);
  }

  /** A property's type, after 0x08, or 0x28 with HASTHIS, and read before its parameters. */
  lemma PropertyRoundTrip(t: Type, parameters: uint29, hasThis: bool, md: Metadata, tail: Bytes)
    requires Encodable(t)
    ensures ParseProperty([if hasThis then 0x28 else 0x08] + (Encode(parameters) + (Print(t) + tail)), md) ==
            With(Resolve(t, md), tail)
  {
    PropertyHeader(parameters, hasThis, Print(t) + tail, md);
    TypeRoundTrip(t, md, tail);
  }

  lemma {:induction false} PropertyHeader(parameters: uint29, hasThis: bool, rest: Bytes, md: Metadata)
    ensures ParseProperty([if hasThis then 0x28 else 0x08] + (Encode(parameters) + rest), md) == ParseType(rest, md)
  {
    var convention: uint29 := if hasThis then 0x28 else 0x08;
    assert Encode(convention) == [convention];
    CompressedRoundTrip(convention, Encode(parameters) + rest);
    CompressedRoundTrip(parameters, rest);
  }

  /** The check lets any first number through that shares one bit with the convention, as 7 does with FIELD. */
  lemma ConventionCheckExactly(n: uint29, rest: Bytes)
    ensures ParseConvention(Encode(n) + rest, 0x06) == Success(rest) <==> n / 2 % 4 != 0
    ensures ParseConvention(Encode(n) + rest, 0x08) == Success(rest) <==> n / 8 % 2 != 0
    ensures ParseConvention(Encode(7) + rest, 0x06) == Success(rest)
  {
    CompressedRoundTrip(n, rest);
    CompressedRoundTrip(7, rest);
  }

  // ---------------------------------------------------------------- the parser, in place

  /** Results with more values in front. */
  function Prepend(done: seq<TypeSignature>, r: Result<(seq<TypeSignature>, Bytes), ParseError>)
    : Result<(seq<TypeSignature>, Bytes), ParseError>
  {
    var (ts, rest) :- r;
    Success((done + ts, rest))
  }

  /** The signature pointer and the length left, which the parsers advance and lower together. */
  class SignatureReader {
    const data: Bytes
    var signature: nat
    var sigLen: nat

    ghost predicate Valid()
      reads this
    {
      signature + sigLen <= |data|
    }

    function Remaining(): Bytes
      reads this
      requires Valid()
    {
      data[signature..signature + sigLen]
    }

    constructor (data: Bytes)
      ensures Valid() && Remaining() == data
    {
      this.data := data;
      signature := 0;
      sigLen := |data|;
    }

    /** The reader did what the function describes, its end staying where it was. */
    ghost predicate Did<T>(described: Result<(T, Bytes), ParseError>, r: Result<T, ParseError>, end: nat)
      reads this
    {
      && Valid() && signature + sigLen == end
      && match described
         case Success((value, rest)) => r == Success(value) && Remaining() == rest
         case Failure(e) => r == Failure(e)
    }

    method ParseCompressedBytes() returns (r: Result<nat, ParseError>)
      requires Valid()
      modifies this
      ensures Did(ParseCompressed(old(Remaining())), r, old(signature + sigLen))
    {
      ghost var s := Remaining();
      var decoded := Decode(data[signature..signature + sigLen]);
      if decoded.None? {
        return Failure(BadSignature);
      }
      var (n, bytesRead) := decoded.value;
      CanonicalExactly(s);
      sigLen := sigLen - bytesRead;
      signature := signature + bytesRead;
      assert Remaining() == s[bytesRead..];
      return Success(n);
    }

    /** The result carries no value; the boolean stands for success. */
    method ParseAndSkipBasedOnFirstByteSignature() returns (r: Result<bool, ParseError>)
      requires Valid()
      modifies this
      ensures Valid() && signature + sigLen == old(signature + sigLen)
      ensures match SkipCounted(old(Remaining()))
              case Success(rest) => r == Success(true) && Remaining() == rest
              case Failure(e) => r == Failure(e)
    {
      ghost var s, end := Remaining(), signature + sigLen;
      var count := ParseCompressedBytes();
      if count.Failure? {
        return Failure(count.error);
      }
      var i := 0;
      while i < count.value
        invariant i <= count.value && Valid() && signature + sigLen == end
        invariant SkipCounted(s) == SkipMany(Remaining(), count.value - i)
      {
        var compressed := ParseCompressedBytes();
        if compressed.Failure? {
          return Failure(compressed.error);
        }
        i := i + 1;
      }
      return Success(true);
    }

    method ParseTypeFromSig(md: Metadata) returns (r: Result<TypeSignature, ParseError>)
      requires Valid()
      modifies this
      ensures Did(ParseType(old(Remaining()), md), r, old(signature + sigLen))
      decreases sigLen, 0
    {
      if sigLen == 0 {
        return Failure(Overrun);
      }
      ghost var s := Remaining();
      var code := data[signature];
      signature := signature + 1;
      sigLen := sigLen - 1;
      assert Remaining() == s[1..] && code == s[0];
      var name := SimpleName(code);
      if name.Some? {
        return Success(TypeSignature(code, name.value, [], false, 0));
      }
      if code == SZARRAY {
        r := ParseSzArrayInPlace(md);
      } else if code == ARRAY {
        r := ParseArrayInPlace(md);
      } else if code == GENERICINST {
        r := ParseGenericInstInPlace(md);
      } else if code == CLASS || code == VALUETYPE {
        r := ParseByTokenInPlace(md);
      } else if code == VAR {
        r := ParseVariableInPlace(md);
      } else {
        r := Failure(NotImplemented);
      }
    }

    method ParseSzArrayInPlace(md: Metadata) returns (r: Result<TypeSignature, ParseError>)
      requires Valid()
      modifies this
      ensures Did(ParseSzArray(old(Remaining()), md), r, old(signature + sigLen))
      decreases sigLen, 1
    {
      var element := ParseTypeFromSig(md);
      if element.Failure? {
        return element;
      }
      return Success(TypeSignature(SZARRAY, ARRAY_CLASS, [element.value], true, 0));
    }

    method ParseArrayInPlace(md: Metadata) returns (r: Result<TypeSignature, ParseError>)
      requires Valid()
      modifies this
      ensures Did(ParseArray(old(Remaining()), md), r, old(signature + sigLen))
      decreases sigLen, 1
    {
      var element := ParseTypeFromSig(md);
      if element.Failure? {
        return element;
      }
      var rank := ParseCompressedBytes();
      if rank.Failure? {
        return Failure(rank.error);
      }
      var sizes := ParseAndSkipBasedOnFirstByteSignature();
      if sizes.Failure? {
        return Failure(sizes.error);
      }
      var bounds := ParseAndSkipBasedOnFirstByteSignature();
      if bounds.Failure? {
        return Failure(bounds.error);
      }
      return Success(TypeSignature(ARRAY, ARRAY_CLASS, [element.value], true, rank.value));
    }

    method ParseGenericInstInPlace(md: Metadata) returns (r: Result<TypeSignature, ParseError>)
      requires Valid()
      modifies this
      ensures Did(ParseGenericInst(old(Remaining()), md), r, old(signature + sigLen))
      decreases sigLen, 1
    {
      var main := ParseTypeFromSig(md);
      if main.Failure? {
        return main;
      }
      var count := ParseCompressedBytes();
      if count.Failure? {
        return Failure(count.error);
      }
      var genericTypes := ParseTypesInPlace(count.value, md);
      if genericTypes.Failure? {
        return Failure(genericTypes.error);
      }
      return Success(TypeSignature(GENERICINST, main.value.typeName, genericTypes.value, false, 0));
    }

    /** The loop over the generic arguments. */
    method ParseTypesInPlace(count: nat, md: Metadata) returns (r: Result<seq<TypeSignature>, ParseError>)
      requires Valid()
      modifies this
      ensures Did(ParseTypes(old(Remaining()), count, md), r, old(signature + sigLen))
      decreases sigLen, 1
    {
      ghost var s, before, end := Remaining(), sigLen, signature + sigLen;
      var genericTypes: seq<TypeSignature> := [];
      var i := 0;
      PrependNone(ParseTypes(s, count, md));
      while i < count
        invariant i <= count && Valid() && sigLen <= before && signature + sigLen == end
        invariant ParseTypes(s, count, md) == Prepend(genericTypes, ParseTypes(Remaining(), count - i, md))
      {
        var generic := ParseTypeFromSig(md);
        if generic.Failure? {
          return Failure(generic.error);
        }
        PrependMore(genericTypes, generic.value, ParseTypes(Remaining(), count - i - 1, md));
        genericTypes := genericTypes + [generic.value];
        i := i + 1;
      }
      assert genericTypes + [] == genericTypes;
      return Success(genericTypes);
    }

    method ParseByTokenInPlace(md: Metadata) returns (r: Result<TypeSignature, ParseError>)
      requires Valid()
      modifies this
      ensures Did(ParseByToken(old(Remaining()), md), r, old(signature + sigLen))
    {
      var token := ParseCompressedBytes();
      if token.Failure? {
        return Failure(token.error);
      }
      var name := NameOf(md, KindOf(token.value % 4), token.value / 4);
      if name.Failure? {
        return Failure(name.error);
      }
      return Success(TypeSignature(md.corTypeOf(name.value), name.value, [], false, 0));
    }

    method ParseVariableInPlace(md: Metadata) returns (r: Result<TypeSignature, ParseError>)
      requires Valid()
      modifies this
      ensures Did(ParseVariable(old(Remaining()), md), r, old(signature + sigLen))
    {
      var number := ParseCompressedBytes();
      if number.Failure? {
        return Failure(number.error);
      }
      if number.value >= |md.generics| {
        return Failure(VariableNotFound);
      }
      return Success(md.generics[number.value]);
    }

    method ParseFieldSig(md: Metadata) returns (r: Result<TypeSignature, ParseError>)
      requires Valid()
      modifies this
      ensures Did(ParseField(old(Remaining()), md), r, old(signature + sigLen))
    {
      var convention := ParseCompressedBytes();
      if convention.Failure? {
        return Failure(convention.error);
      }
      if !SharesBit(convention.value, FIELD) {
        return Failure(BadSignature);
      }
      r := ParseTypeFromSig(md);
    }

    method ParsePropertySig(md: Metadata) returns (r: Result<TypeSignature, ParseError>)
      requires Valid()
      modifies this
      ensures Did(ParseProperty(old(Remaining()), md), r, old(signature + sigLen))
    {
      var convention := ParseCompressedBytes();
      if convention.Failure? {
        return Failure(convention.error);
      }
      if !SharesBit(convention.value, PROPERTY) {
        return Failure(BadSignature);
      }
      var parameters := ParseCompressedBytes();
      if parameters.Failure? {
        return Failure(parameters.error);
      }
      r := ParseTypeFromSig(md);
    }
  }

  lemma PrependNone(r: Result<(seq<TypeSignature>, Bytes), ParseError>)
    ensures Prepend([], r) == r
  {
    if r.Success? {
      assert [] + r.value.0 == r.value.0;
    }
  }

  lemma PrependMore(done: seq<TypeSignature>, next: TypeSignature,
                    r: Result<(seq<TypeSignature>, Bytes), ParseError>)
    ensures Prepend(done, Prepend([next], r)) == Prepend(done + [next], r)
  {
    if r.Success? {
      assert done + ([next] + r.value.0) == (done + [next]) + r.value.0;
    }
  }
}
