/**
 * Type signatures that end too early: which cuts the parser of cor_debug_helper.cc reports, and
 * which make it run past the end.
 */
module TruncatedSignatures {
  import opened Wrappers
  import opened CompressedInts
  import opened TypeSignatures

  /** The bytes there are decide the result; more bytes could only help after one of two errors. */
  predicate Settled<T>(r: Result<T, ParseError>) {
    r.Success? || (r.error != Overrun && r.error != BadSignature)
  }

  function Extended<T>(r: Result<(T, Bytes), ParseError>, more: Bytes): Result<(T, Bytes), ParseError> {
    var (value, rest) :- r;
    Success((value, rest + more))
  }

  /** What a settled result is when more bytes follow. */
  ghost predicate Extends<T>(r: Result<(T, Bytes), ParseError>, longer: Result<(T, Bytes), ParseError>, more: Bytes) {
    Settled(r) ==> longer == Extended(r, more)
  }

  ghost predicate RestExtends(r: Result<Bytes, ParseError>, longer: Result<Bytes, ParseError>, more: Bytes) {
    Settled(r) ==> r.Success? && longer == Success(r.value + more)
  }

  lemma CompressedExtends(s: Bytes, more: Bytes)
    ensures Extends(ParseCompressed(s), ParseCompressed(s + more), more)
  {
    if Decode(s).Some? {
      var width := Decode(s).value.1;
      CanonicalExactly(s);
      assert (s + more)[width..] == s[width..] + more;
    }
  }

  lemma {:induction false} SkipManyExtends(s: Bytes, n: nat, more: Bytes)
    ensures RestExtends(SkipMany(s, n), SkipMany(s + more, n), more)
  {
    if n != 0 {
      CompressedExtends(s, more);
      if ParseCompressed(s).Success? {
        SkipManyExtends(ParseCompressed(s).value.1, n - 1, more);
      }
    }
  }

  lemma SkipCountedExtends(s: Bytes, more: Bytes)
    ensures RestExtends(SkipCounted(s), SkipCounted(s + more), more)
  {
    CompressedExtends(s, more);
    if ParseCompressed(s).Success? {
      SkipManyExtends(ParseCompressed(s).value.1, ParseCompressed(s).value.0, more);
    }
  }

  lemma {:induction false} TypeExtends(s: Bytes, md: Metadata, more: Bytes)
    ensures Extends(ParseType(s, md), ParseType(s + more, md), more)
    decreases |s|, 0
  {
    if s != [] {
      BodyExtends(s[0], s[1..], md, more);
      assert (s + more)[1..] == s[1..] + more;
    }
  }

  lemma {:induction false} BodyExtends(code: byte, s: Bytes, md: Metadata, more: Bytes)
    ensures Extends(ParseBody(code, s, md), ParseBody(code, s + more, md), more)
    decreases |s|, 2
  {
    if SimpleName(code).Some? {
    } else if code == SZARRAY {
      TypeExtends(s, md, more);
    } else if code == ARRAY {
      ArrayExtends(s, md, more);
    } else if code == GENERICINST {
      GenericExtends(s, md, more);
    } else {
      CompressedExtends(s, more);
    }
  }

  lemma {:induction false} ArrayExtends(s: Bytes, md: Metadata, more: Bytes)
    ensures Extends(ParseArray(s, md), ParseArray(s + more, md), more)
    decreases |s|, 1
  {
    TypeExtends(s, md, more);
    var element := ParseType(s, md);
    if element.Success? {
      ShapeExtends(element.value.1, more);
    }
  }

  lemma ShapeExtends(s: Bytes, more: Bytes)
    ensures Extends(ParseShape(s), ParseShape(s + more), more)
  {
    CompressedExtends(s, more);
    if ParseCompressed(s).Success? {
      var s2 := ParseCompressed(s).value.1;
      SkipCountedExtends(s2, more);
      if SkipCounted(s2).Success? {
        SkipCountedExtends(SkipCounted(s2).value, more);
      }
    }
  }

  lemma {:induction false} GenericExtends(s: Bytes, md: Metadata, more: Bytes)
    ensures Extends(ParseGenericInst(s, md), ParseGenericInst(s + more, md), more)
    decreases |s|, 1
  {
    TypeExtends(s, md, more);
    var main := ParseType(s, md);
    if main.Success? {
      var s2 := main.value.1;
      CompressedExtends(s2, more);
      if ParseCompressed(s2).Success? {
        var (count, s3) := ParseCompressed(s2).value;
        TypesExtends(s3, count, md, more);
      }
    }
  }

  lemma {:induction false} TypesExtends(s: Bytes, n: nat, md: Metadata, more: Bytes)
    ensures Extends(ParseTypes(s, n, md), ParseTypes(s + more, n, md), more)
    decreases |s|, n
  {
    if n != 0 {
      TypeExtends(s, md, more);
      if ParseType(s, md).Success? {
        TypesExtends(ParseType(s, md).value.1, n - 1, md, more);
      }
    }
  }

  /** A complete type never makes the parser take bytes beyond the end. */
  lemma {:induction false} CompleteNeverOverruns(t: Type, md: Metadata)
    ensures Resolve(t, md) != Failure(Overrun) && Resolve(t, md) != Failure(BadSignature)
    decreases t, 0
  {
    match t
    case SzArray(element) => CompleteNeverOverruns(element, md);
    case Array(element, _, _, _) => CompleteNeverOverruns(element, md);
    case GenericInst(main, arguments) =>
      CompleteNeverOverruns(main, md);
      AllCompleteNeverOverrun(arguments, md);
    case _ =>
  }

  lemma {:induction false} AllCompleteNeverOverrun(ts: seq<Type>, md: Metadata)
    ensures ResolveAll(ts, md) != Failure(Overrun) && ResolveAll(ts, md) != Failure(BadSignature)
    decreases ts, |ts|
  {
    if ts != [] {
      CompleteNeverOverruns(ts[0], md);
      AllCompleteNeverOverrun(ts[1..], md);
    }
  }

  /**
   * No truncated type is taken for a type: the parser notices a cut number, or runs past the end,
   * unless a part before the cut already fails to resolve.
   */
  lemma TruncatedNeverParses(t: Type, md: Metadata, s: Bytes, cut: Bytes)
    requires Encodable(t) && s + cut == Print(t) && cut != []
    ensures var r := ParseType(s, md);
            r.Failure? && (r.error == Overrun || r.error == BadSignature || Resolve(t, md) == Failure(r.error))
  {
    TypeExtends(s, md, cut);
    TypeRoundTrip(t, md, []);
    assert Print(t) + [] == Print(t);
  }

  // ---------------------------------------------------------------- where a cut makes the parser overrun

  /** A type that t is made of, or t itself, begins at offset i of the printed t. */
  ghost predicate BeginsType(t: Type, i: nat)
    requires Encodable(t) && i < |Print(t)|
    decreases t, 0
  {
    i == 0 ||
    match t
    case SzArray(element) => BeginsType(element, i - 1)
    case Array(element, _, _, _) => i - 1 < |Print(element)| && BeginsType(element, i - 1)
    case GenericInst(main, arguments) =>
      if i - 1 < |Print(main)| then BeginsType(main, i - 1)
      else
        var j := i - 1 - |Print(main)|;
        j >= |Encode(|arguments|)| && BeginsOneOf(arguments, j - |Encode(|arguments|)|)
    case _ => false
  }

  ghost predicate BeginsOneOf(ts: seq<Type>, i: nat)
    requires (forall t :: t in ts ==> Encodable(t)) && i < |PrintAll(ts)|
    decreases ts, |ts|
  {
    if i < |Print(ts[0])| then BeginsType(ts[0], i) else BeginsOneOf(ts[1..], i - |Print(ts[0])|)
  }

  lemma CutNumber(n: uint29, i: nat)
    requires i < |Encode(n)|
    ensures ParseCompressed(Encode(n)[..i]) == Failure(BadSignature)
  {
    var s, cut := Encode(n)[..i], Encode(n)[i..];
    assert s + cut == Encode(n) && Encode(n) + [] == Encode(n);
    CompressedExtends(s, cut);
    CompressedRoundTrip(n, []);
  }

  lemma {:induction false} SkipManyFails(s: Bytes, n: nat)
    ensures SkipMany(s, n).Failure? ==> SkipMany(s, n).error == BadSignature
  {
    if n != 0 && ParseCompressed(s).Success? {
      SkipManyFails(ParseCompressed(s).value.1, n - 1);
    }
  }

  lemma SkipCountedFails(s: Bytes)
    ensures SkipCounted(s).Failure? ==> SkipCounted(s).error == BadSignature
  {
    if ParseCompressed(s).Success? {
      SkipManyFails(ParseCompressed(s).value.1, ParseCompressed(s).value.0);
    }
  }

  lemma ShapeFails(s: Bytes)
    ensures ParseShape(s).Failure? ==> ParseShape(s).error == BadSignature
  {
    if ParseCompressed(s).Success? {
      var s2 := ParseCompressed(s).value.1;
      SkipCountedFails(s2);
      if SkipCounted(s2).Success? {
        SkipCountedFails(SkipCounted(s2).value);
      }
    }
  }

  lemma {:induction false} CutShape(t: Type, i: nat)
    requires t.Array? && Encodable(t) && i < |PrintShape(t.rank, t.sizes, t.lowerBounds)|
    ensures ParseShape(PrintShape(t.rank, t.sizes, t.lowerBounds)[..i]) == Failure(BadSignature)
  {
    var shape := PrintShape(t.rank, t.sizes, t.lowerBounds);
    assert shape[..i] + shape[i..] == shape && shape + [] == shape;
    ShapeExtends(shape[..i], shape[i..]);
    ShapeRoundTrip(t.rank, t.sizes, t.lowerBounds, []);
    ShapeFails(shape[..i]);
  }

  /** Cutting a + b before or after where b begins. */
  lemma CutWithin(a: Bytes, b: Bytes, i: nat)
    requires i <= |a + b|
    ensures (a + b)[..i] == if i <= |a| then a[..i] else a + b[..i - |a|]
    ensures i >= |a| ==> (a + b)[..i] == a + b[..i - |a|]
  {
  }

  /** What parsing the first i bytes of a type comes to. */
  ghost function CutError(t: Type, i: nat): ParseError
    requires Encodable(t) && i < |Print(t)|
  {
    if BeginsType(t, i) then Overrun else BadSignature
  }

  lemma ParseTagged(code: byte, body: Bytes, md: Metadata)
    ensures ParseType([code] + body, md) == ParseBody(code, body, md)
  {
    assert ([code] + body)[1..] == body;
  }

  /** A type cut after its first byte. */
  lemma CutTagged(code: byte, body: Bytes, i: nat, md: Metadata)
    requires 0 < i <= |body|
    ensures ParseType(([code] + body)[..i], md) == ParseBody(code, body[..i - 1], md)
  {
    CutWithin([code], body, i);
    ParseTagged(code, body[..i - 1], md);
  }

  lemma CutNumbered(code: byte, n: uint29, i: nat, md: Metadata)
    requires code == CLASS || code == VALUETYPE || code == VAR
    requires i <= |Encode(n)|
    ensures ParseType(([code] + Encode(n))[..i], md) == Failure(if i == 0 then Overrun else BadSignature)
  {
    if i != 0 {
      CutTagged(code, Encode(n), i, md);
      CutNumber(n, i - 1);
    }
  }

  /** An array's element and shape, cut after k bytes. */
  lemma {:induction false} CutArrayBody(element: Bytes, shape: Bytes, k: nat, md: Metadata, error: ParseError)
    requires k < |element + shape|
    requires k < |element| ==> ParseType(element[..k], md) == Failure(error)
    requires k >= |element| ==>
               var rest := shape[..k - |element|];
               var r := ParseType(element + rest, md);
               r.Success? && r.value.1 == rest && ParseShape(rest) == Failure(BadSignature)
    ensures ParseArray((element + shape)[..k], md) == Failure(if k < |element| then error else BadSignature)
  {
    CutWithin(element, shape, k);
  }

  lemma {:induction false} CutAfterElement(t: Type, md: Metadata, k: nat)
    requires t.Array? && Encodable(t) && Resolve(t, md).Success?
    requires k < |PrintShape(t.rank, t.sizes, t.lowerBounds)|
    ensures var rest := PrintShape(t.rank, t.sizes, t.lowerBounds)[..k];
            var r := ParseType(Print(t.element) + rest, md);
            r.Success? && r.value.1 == rest && ParseShape(rest) == Failure(BadSignature)
  {
    TypeRoundTrip(t.element, md, PrintShape(t.rank, t.sizes, t.lowerBounds)[..k]);
    CutShape(t, k);
  }

  lemma {:induction false} CutInElement(t: Type, md: Metadata, i: nat, error: ParseError)
    requires t.Array? && Encodable(t) && 0 < i <= |Print(t.element)|
    requires ParseType(Print(t.element)[..i - 1], md) == Failure(error)
    ensures i < |Print(t)| && ParseType(Print(t)[..i], md) == Failure(error)
  {
    var element, shape := Print(t.element), PrintShape(t.rank, t.sizes, t.lowerBounds);
    PrintOfArray(t);
    CutArrayBody(element, shape, i - 1, md, error);
    CutTaggedArray(element, shape, i, md, error);
  }

  lemma {:induction false} CutInShape(t: Type, md: Metadata, i: nat)
    requires t.Array? && Encodable(t) && Resolve(t, md).Success? && |Print(t.element)| < i < |Print(t)|
    ensures ParseType(Print(t)[..i], md) == Failure(BadSignature)
  {
    var element, shape := Print(t.element), PrintShape(t.rank, t.sizes, t.lowerBounds);
    PrintOfArray(t);
    CutAfterElement(t, md, i - 1 - |element|);
    CutArrayBody(element, shape, i - 1, md, BadSignature);
    CutTaggedArray(element, shape, i, md, BadSignature);
  }

  lemma {:induction false} PrintOfArray(t: Type)
    requires t.Array? && Encodable(t)
    ensures Print(t) == [ARRAY] + (Print(t.element) + PrintShape(t.rank, t.sizes, t.lowerBounds))
  {
    Assoc([ARRAY], Print(t.element), PrintShape(t.rank, t.sizes, t.lowerBounds));
  }

  lemma {:induction false} CutTaggedArray(element: Bytes, shape: Bytes, i: nat, md: Metadata, error: ParseError)
    requires 0 < i <= |element + shape|
    requires ParseArray((element + shape)[..i - 1], md) == Failure(error)
    ensures ParseType(([ARRAY] + (element + shape))[..i], md) == Failure(error)
  {
    CutTagged(ARRAY, element + shape, i, md);
    BodyOfArray((element + shape)[..i - 1], md);
  }

  /** The main type, count and arguments of a generic instantiation, cut after k bytes. */
  lemma {:induction false} CutGenericBody(main: Bytes, counted: Bytes, k: nat, n: nat, md: Metadata, error: ParseError)
    requires k < |main + counted|
    requires k < |main| ==> ParseType(main[..k], md) == Failure(error)
    requires k >= |main| ==>
               var rest := counted[..k - |main|];
               var r, count := ParseType(main + rest, md), ParseCompressed(rest);
               && r.Success? && r.value.1 == rest
               && if count.Failure? then count.error == error
                  else count.value.0 == n && ParseTypes(count.value.1, n, md) == Failure(error)
    ensures ParseGenericInst((main + counted)[..k], md) == Failure(error)
  {
    CutWithin(main, counted, k);
  }

  lemma {:induction false} CutGenericInst(t: Type, md: Metadata, i: nat, error: ParseError)
    requires t.GenericInst? && Encodable(t) && Resolve(t, md).Success? && 0 < i < |Print(t)|
    requires i - 1 < |Print(t.main)| ==> ParseType(Print(t.main)[..i - 1], md) == Failure(error)
    requires var j := i - 1 - |Print(t.main)| - |Encode(|t.arguments|)|;
             j >= 0 ==> ParseTypes(PrintAll(t.arguments)[..j], |t.arguments|, md) == Failure(error)
    ensures ParseType(Print(t)[..i], md) ==
            var j := i - 1 - |Print(t.main)|;
            Failure(if 0 <= j < |Encode(|t.arguments|)| then BadSignature else error)
  {
    var main, arguments := Print(t.main), PrintAll(t.arguments);
    var counted, j := Encode(|t.arguments|) + arguments, i - 1 - |main|;
    var e := if 0 <= j < |Encode(|t.arguments|)| then BadSignature else error;
    PrintOfGenericInst(t);
    if j >= 0 {
      CutAfterMain(t, md, j, error);
    }
    CutGenericBody(main, counted, i - 1, |t.arguments|, md, e);
    CutTaggedGenericInst(main, counted, i, md, e);
  }

  lemma {:induction false} CutAfterMain(t: Type, md: Metadata, k: nat, error: ParseError)
    requires t.GenericInst? && Encodable(t) && Resolve(t, md).Success?
    requires k < |Encode(|t.arguments|) + PrintAll(t.arguments)|
    requires k >= |Encode(|t.arguments|)| ==>
               ParseTypes(PrintAll(t.arguments)[..k - |Encode(|t.arguments|)|], |t.arguments|, md) == Failure(error)
    ensures var rest := (Encode(|t.arguments|) + PrintAll(t.arguments))[..k];
            var r, count := ParseType(Print(t.main) + rest, md), ParseCompressed(rest);
            && r.Success? && r.value.1 == rest
            && if k < |Encode(|t.arguments|)| then count == Failure(BadSignature)
               else
                 && count.Success? && count.value.0 == |t.arguments|
                 && ParseTypes(count.value.1, |t.arguments|, md) == Failure(error)
  {
    TypeRoundTrip(t.main, md, (Encode(|t.arguments|) + PrintAll(t.arguments))[..k]);
    CutCounted(t.arguments, PrintAll(t.arguments), md, k, error);
  }

  lemma {:induction false} PrintOfGenericInst(t: Type)
    requires t.GenericInst? && Encodable(t)
    ensures Print(t) == [GENERICINST] + (Print(t.main) + (Encode(|t.arguments|) + PrintAll(t.arguments)))
  {
    Assoc([GENERICINST], Print(t.main), Encode(|t.arguments|) + PrintAll(t.arguments));
  }

  lemma {:induction false} CutTaggedGenericInst(main: Bytes, counted: Bytes, i: nat, md: Metadata, error: ParseError)
    requires 0 < i <= |main + counted|
    requires ParseGenericInst((main + counted)[..i - 1], md) == Failure(error)
    ensures ParseType(([GENERICINST] + (main + counted))[..i], md) == Failure(error)
  {
    CutTagged(GENERICINST, main + counted, i, md);
    BodyOfGenericInst((main + counted)[..i - 1], md);
  }

  /** Arguments cut within their count or after it. */
  lemma {:induction false} CutCounted(ts: seq<Type>, arguments: Bytes, md: Metadata, j: nat, error: ParseError)
    requires |ts| <= MAX_UNSIGNED && j <= |Encode(|ts|) + arguments|
    requires j >= |Encode(|ts|)| ==> ParseTypes(arguments[..j - |Encode(|ts|)|], |ts|, md) == Failure(error)
    ensures var s := (Encode(|ts|) + arguments)[..j];
            if j < |Encode(|ts|)| then ParseCompressed(s) == Failure(BadSignature)
            else
              && ParseCompressed(s).Success? && ParseCompressed(s).value.0 == |ts|
              && ParseTypes(ParseCompressed(s).value.1, |ts|, md) == Failure(error)
  {
    var count := Encode(|ts|);
    CutWithin(count, arguments, j);
    if j < |count| {
      CutNumber(|ts|, j);
    } else {
      CompressedRoundTrip(|ts|, arguments[..j - |count|]);
    }
  }

  /**
   * A type cut short makes the parser run past the end exactly when the cut falls where a type
   * begins; every other cut is reported as a bad signature.
   */
  lemma {:induction false} CutExactly(t: Type, md: Metadata, i: nat)
    requires Encodable(t) && Resolve(t, md).Success? && i < |Print(t)|
    ensures ParseType(Print(t)[..i], md) == Failure(if BeginsType(t, i) then Overrun else BadSignature)
    decreases t, 1
  {
    if i != 0 {
      match t
      case Simple(_) =>
      case SzArray(element) =>
        CutTagged(SZARRAY, Print(element), i, md);
        CutExactly(element, md, i - 1);
      case Array(element, _, _, _) =>
        if i - 1 < |Print(element)| {
          CutExactly(element, md, i - 1);
          CutInElement(t, md, i, CutError(t, i));
        } else {
          CutInShape(t, md, i);
        }
      case GenericInst(_, _) =>
        CutParts(t, md, i);
        CutGenericInst(t, md, i, CutError(t, i));
      case ByToken(isValueType, tag, rid) =>
        CutNumbered(if isValueType then VALUETYPE else CLASS, 4 * rid + tag, i, md);
      case Variable(number) =>
        CutNumbered(VAR, number, i, md);
    }
  }

  lemma {:induction false} CutParts(t: Type, md: Metadata, i: nat)
    requires t.GenericInst? && Encodable(t) && Resolve(t, md).Success? && 0 < i < |Print(t)|
    ensures i - 1 < |Print(t.main)| ==> ParseType(Print(t.main)[..i - 1], md) == Failure(CutError(t, i))
    ensures var j := i - 1 - |Print(t.main)| - |Encode(|t.arguments|)|;
            j >= 0 ==> ParseTypes(PrintAll(t.arguments)[..j], |t.arguments|, md) == Failure(CutError(t, i))
    decreases t, 0
  {
    var j := i - 1 - |Print(t.main)| - |Encode(|t.arguments|)|;
    if i - 1 < |Print(t.main)| {
      CutExactly(t.main, md, i - 1);
    } else if j >= 0 {
      CutOneOf(t.arguments, md, j);
    }
  }

  lemma {:induction false} PrintAllCut(ts: seq<Type>, i: nat)
    requires ts != [] && (forall t :: t in ts ==> Encodable(t)) && i < |PrintAll(ts)|
    ensures PrintAll(ts)[..i] ==
            if i < |Print(ts[0])| then Print(ts[0])[..i] else Print(ts[0]) + PrintAll(ts[1..])[..i - |Print(ts[0])|]
    ensures i >= |Print(ts[0])| ==> i - |Print(ts[0])| < |PrintAll(ts[1..])|
  {
    CutWithin(Print(ts[0]), PrintAll(ts[1..]), i);
  }

  lemma {:induction false} CutOneOf(ts: seq<Type>, md: Metadata, i: nat)
    requires (forall t :: t in ts ==> Encodable(t)) && ResolveAll(ts, md).Success? && i < |PrintAll(ts)|
    ensures ParseTypes(PrintAll(ts)[..i], |ts|, md) == Failure(if BeginsOneOf(ts, i) then Overrun else BadSignature)
    decreases ts, |ts|
  {
    PrintAllCut(ts, i);
    if i < |Print(ts[0])| {
      CutExactly(ts[0], md, i);
      TypesFail(Print(ts[0])[..i], |ts|, md, CutError(ts[0], i));
    } else {
      var k := i - |Print(ts[0])|;
      CutOneOf(ts[1..], md, k);
      CutAfterFirst(ts, md, k, if BeginsOneOf(ts[1..], k) then Overrun else BadSignature);
    }
  }

  lemma {:induction false} CutAfterFirst(ts: seq<Type>, md: Metadata, k: nat, error: ParseError)
    requires ts != [] && (forall t :: t in ts ==> Encodable(t)) && ResolveAll(ts, md).Success?
    requires k < |PrintAll(ts[1..])|
    requires ParseTypes(PrintAll(ts[1..])[..k], |ts| - 1, md) == Failure(error)
    ensures ParseTypes(Print(ts[0]) + PrintAll(ts[1..])[..k], |ts|, md) == Failure(error)
  {
    var rest := PrintAll(ts[1..])[..k];
    TypeRoundTrip(ts[0], md, rest);
    TypesFail(Print(ts[0]) + rest, |ts|, md, error);
  }

  lemma {:induction false} TypesFail(s: Bytes, n: nat, md: Metadata, error: ParseError)
    requires n > 0
    requires var r := ParseType(s, md);
             if r.Failure? then r.error == error else ParseTypes(r.value.1, n - 1, md) == Failure(error)
    ensures ParseTypes(s, n, md) == Failure(error)
  {
  }

  /** An array without its element type; the source's length wraps here, and it reads on past the end. */
  lemma CutElementOverruns(md: Metadata)
    ensures ParseField([0x06, SZARRAY], md) == Failure(Overrun)
  {
    assert Decode([0x06, SZARRAY]) == Some((6, 1));
    assert [0x06, SZARRAY][1..] == [SZARRAY];
    assert ParseType([SZARRAY], md) == ParseBody(SZARRAY, [], md);
    assert ParseType([], md) == Failure(Overrun);
  }
}
