/**
 * Rendering an enum value by its constants (dbg_enum.cc). The code only applies bitwise
 * operations to its 64-bit values, so a value is the set of positions of its one bits: & is
 * intersection, | is union, & ~ is difference and 0 is the empty set.
 */
module Enums {
  import opened Wrappers

  type Bit = i: nat | i < 64

  type Word = set<Bit>

  /** A constant of the enum, its value widened to 64 bits. */
  datatype Constant = Constant(value: Word, name: string)

  // ---------------------------------------------------------------- what is printed

  /** The first constant equal to the value, or the number of constants. */
  function FirstExact(table: seq<Constant>, value: Word): (i: nat)
    ensures i <= |table|
    ensures i < |table| ==> table[i].value == value
    ensures forall j :: 0 <= j < i ==> table[j].value != value
  {
    if table == [] || table[0].value == value then 0 else 1 + FirstExact(table[1..], value)
  }

  /** Whether a constant's name joins the list, given the bits no name stands for yet. */
  predicate Fits(c: Word, residual: Word) {
    !(residual != c && (c == {} || c * residual != c))
  }

  /** The bits left over after the first n constants. */
  function Residual(table: seq<Constant>, value: Word, n: nat): Word
    requires n <= |table|
  {
    if n == 0 then value
    else
      var c, r := table[n - 1].value, Residual(table, value, n - 1);
      if Fits(c, r) then r - c else r
  }

  /** The constants named among the first n. */
  function Chosen(table: seq<Constant>, value: Word, n: nat): seq<Constant>
    requires n <= |table|
  {
    if n == 0 then []
    else if Fits(table[n - 1].value, Residual(table, value, n - 1)) then
      Chosen(table, value, n - 1) + [table[n - 1]]
    else Chosen(table, value, n - 1)
  }

  /** Names joined by " | "; an empty text takes no separator. */
  function Joined(cs: seq<Constant>): string {
    if cs == [] then "" else Append(Joined(cs[..|cs| - 1]), cs[|cs| - 1].name)
  }

  function Append(text: string, name: string): string {
    if text == "" then name else text + " | " + name
  }

  /** One exact name, or else the names of the bits. */
  function Rendered(table: seq<Constant>, value: Word): string {
    var e := FirstExact(table, value);
    if e < |table| then table[e].name else Joined(Chosen(table, value, |table|))
  }

  ghost predicate IsFirstExact(table: seq<Constant>, value: Word, i: int) {
    0 <= i < |table| && table[i].value == value && forall j :: 0 <= j < i ==> table[j].value != value
  }

  /** Name i, after " | " unless nothing has been shown before it. */
  function Piece(cs: seq<Constant>, i: nat): string
    requires i < |cs|
  {
    (if forall j :: 0 <= j < i ==> cs[j].name == "" then "" else " | ") + cs[i].name
  }

  function Pieces(cs: seq<Constant>): seq<string> {
    seq(|cs|, i requires 0 <= i < |cs| => Piece(cs, i))
  }

  lemma {:induction false} JoinedEmpty(cs: seq<Constant>)
    ensures Joined(cs) == "" <==> forall j :: 0 <= j < |cs| ==> cs[j].name == ""
  {
    if cs != [] {
      JoinedEmpty(cs[..|cs| - 1]);
    }
  }

  lemma {:induction false} JoinedIsPieces(cs: seq<Constant>)
    ensures Joined(cs) == Flatten(Pieces(cs))
  {
    if cs != [] {
      var n := |cs| - 1;
      JoinedIsPieces(cs[..n]);
      JoinedEmpty(cs[..n]);
      PiecesNext(cs);
      FlattenAppend(Pieces(cs[..n]), [Piece(cs, n)]);
      assert Flatten([Piece(cs, n)]) == Piece(cs, n);
      LastPiece(cs, Joined(cs[..n]));
    }
  }

  lemma PiecesNext(cs: seq<Constant>)
    requires cs != []
    ensures Pieces(cs) == Pieces(cs[..|cs| - 1]) + [Piece(cs, |cs| - 1)]
  {
    forall i | 0 <= i < |cs| - 1 ensures Piece(cs, i) == Piece(cs[..|cs| - 1], i) {
    }
  }

  lemma LastPiece(cs: seq<Constant>, before: string)
    requires cs != [] && (before == "" <==> forall j :: 0 <= j < |cs| - 1 ==> cs[j].name == "")
    ensures Append(before, cs[|cs| - 1].name) == before + Piece(cs, |cs| - 1)
  {
    assert "" + cs[|cs| - 1].name == cs[|cs| - 1].name;
    Assoc(before, " | ", cs[|cs| - 1].name);
  }

  /** Only the first exact name is shown; without one, the names of the chosen constants. */
  lemma RenderedExactly(table: seq<Constant>, value: Word)
    ensures forall i :: IsFirstExact(table, value, i) ==> Rendered(table, value) == table[i].name
    ensures (forall c :: c in table ==> c.value != value) ==>
              Rendered(table, value) == Flatten(Pieces(Chosen(table, value, |table|)))
  {
    JoinedIsPieces(Chosen(table, value, |table|));
    if FirstExact(table, value) < |table| {
      assert table[FirstExact(table, value)] in table;
    }
  }

  class DbgEnum {
    const enumValue: Word
    var enumString: string

    constructor (value: Word)
      ensures enumValue == value && enumString == ""
    {
      enumValue := value;
      enumString := "";
    }

    /** The text is computed once; later calls return the cached one. */
    method PopulateValue(table: seq<Constant>) returns (text: string)
      modifies this
      ensures text == enumString
      ensures enumString == if old(enumString) != "" then old(enumString) else Rendered(table, enumValue)
      ensures forall i :: old(enumString) == "" && IsFirstExact(table, enumValue, i) ==> text == table[i].name
      ensures old(enumString) == "" && (forall c :: c in table ==> c.value != enumValue) ==>
                text == Flatten(Pieces(Chosen(table, enumValue, |table|)))
    {
      RenderedExactly(table, enumValue);
      if enumString != "" {
        return enumString;
      }
      var mutableEnumValue := enumValue;
      for i := 0 to |table|
        invariant mutableEnumValue == Residual(table, enumValue, i)
        invariant enumString == Joined(Chosen(table, enumValue, i))
        invariant forall j :: 0 <= j < i ==> table[j].value != enumValue
      {
        var c := table[i].value;
        if enumValue == c {
          enumString := table[i].name;
          return enumString;
        }
        if mutableEnumValue != c && (c == {} || c * mutableEnumValue != c) {
          continue;
        }
        mutableEnumValue := mutableEnumValue - c;
        ghost var chosen := Chosen(table, enumValue, i);
        assert (chosen + [table[i]])[..|chosen|] == chosen;
        enumString := if enumString == "" then table[i].name else enumString + " | " + table[i].name;
      }
      return enumString;
    }
  }

  // ---------------------------------------------------------------- what the names stand for

  function Union(cs: seq<Constant>): Word {
    if cs == [] then {} else Union(cs[..|cs| - 1]) + cs[|cs| - 1].value
  }

  lemma {:induction false} MemberOfUnion(cs: seq<Constant>)
    ensures forall c :: c in cs ==> c.value <= Union(cs)
  {
    if cs != [] {
      MemberOfUnion(cs[..|cs| - 1]);
    }
  }

  /**
   * The named constants are subsets of the value that share no bit with each other, and with the
   * left-over bits, disjoint from them, they make up the value.
   */
  lemma {:induction false} DecompositionExact(table: seq<Constant>, value: Word, n: nat)
    requires n <= |table|
    ensures var cs, r := Chosen(table, value, n), Residual(table, value, n);
            && Union(cs) + r == value && Union(cs) * r == {}
            && (forall c :: c in cs ==> c.value <= value)
            && (forall i, j :: 0 <= i < j < |cs| ==> cs[i].value * cs[j].value == {})
  {
    if n != 0 {
      DecompositionExact(table, value, n - 1);
      var before, r, c := Chosen(table, value, n - 1), Residual(table, value, n - 1), table[n - 1];
      if Fits(c.value, r) {
        assert (before + [c])[..|before|] == before;
        MemberOfUnion(before);
        assert c.value <= r;
      }
    }
  }

  // ---------------------------------------------------------------- what is left over

  /** A constant goes unnamed: it is not within the value, or shares a bit with one named before it. */
  ghost predicate PassedOver(table: seq<Constant>, value: Word, i: nat)
    requires i < |table|
  {
    !(table[i].value <= value) || exists c :: c in Chosen(table, value, i) && c.value * table[i].value != {}
  }

  lemma PassedOverExactly(table: seq<Constant>, value: Word, i: nat)
    requires i < |table|
    ensures PassedOver(table, value, i) <==> !(table[i].value <= Residual(table, value, i))
  {
    var cs, v, r := Chosen(table, value, i), table[i].value, Residual(table, value, i);
    DecompositionExact(table, value, i);
    MemberOfUnion(cs);
    RestIs(Union(cs), r, value);
    if b: Bit :| b in v && b in Union(cs) {
      var c := NamedFor(cs, b);
      assert b in c.value * v && b !in r;
    } else {
      assert v <= value ==> v <= r;
      assert forall c :: c in cs ==> c.value * v == {};
    }
  }

  lemma RestIs(named: Word, rest: Word, whole: Word)
    requires named + rest == whole && named * rest == {}
    ensures rest == whole - named
  {
    assert forall b: Bit :: b in named ==> b !in rest by {
      forall b: Bit | b in named ensures b !in rest {
        assert b in rest ==> b in named * rest;
      }
    }
  }

  /**
   * Which constants are named: one other than 0 if and only if it lies within the value and shares
   * no bit with those named before it; 0 if and only if those named before it make up the value.
   */
  lemma ChosenExactly(table: seq<Constant>, value: Word, i: nat)
    requires i < |table|
    ensures var before, c := Chosen(table, value, i), table[i];
            var named := if c.value == {} then Union(before) == value
                         else c.value <= value && forall d :: d in before ==> d.value * c.value == {};
            Chosen(table, value, i + 1) == if named then before + [c] else before
  {
    PassedOverExactly(table, value, i);
    DecompositionExact(table, value, i);
    RestIs(Union(Chosen(table, value, i)), Residual(table, value, i), value);
    FitsExactly(table[i].value, Residual(table, value, i));
  }

  lemma FitsExactly(c: Word, residual: Word)
    ensures Fits(c, residual) <==> if c == {} then residual == {} else c <= residual
  {
    assert c * residual == c <==> c <= residual;
  }

  lemma {:induction false} NamedFor(cs: seq<Constant>, b: Bit) returns (c: Constant)
    requires b in Union(cs)
    ensures c in cs && b in c.value
  {
    if b in cs[|cs| - 1].value {
      c := cs[|cs| - 1];
    } else {
      c := NamedFor(cs[..|cs| - 1], b);
    }
  }

  /** A bit of the value is left over exactly when every constant holding it is passed over. */
  lemma {:induction false} LeftOverExactly(table: seq<Constant>, value: Word, n: nat, b: Bit)
    requires n <= |table|
    ensures b in Residual(table, value, n) <==>
            b in value && forall i :: 0 <= i < n && b in table[i].value ==> PassedOver(table, value, i)
  {
    if n != 0 {
      LeftOverExactly(table, value, n - 1, b);
      PassedOverExactly(table, value, n - 1);
      ResidualStep(table, value, n, b);
    }
  }

  lemma ResidualStep(table: seq<Constant>, value: Word, n: nat, b: Bit)
    requires 0 < n <= |table|
    ensures var c, r := table[n - 1].value, Residual(table, value, n - 1);
            b in Residual(table, value, n) <==> b in r && !(b in c && c <= r)
  {
    var c, r := table[n - 1].value, Residual(table, value, n - 1);
    assert c * r == c <==> c <= r;
  }

  lemma {:induction false} ResidualShrinks(table: seq<Constant>, value: Word, n: nat)
    requires n <= |table|
    ensures Residual(table, value, n) <= value
  {
    if n != 0 {
      ResidualShrinks(table, value, n - 1);
    }
  }

  /** Nothing is left over when each bit of the value has a constant of its own. */
  lemma NothingLeftOver(table: seq<Constant>, value: Word)
    requires forall b :: b in value ==> exists i :: 0 <= i < |table| && table[i].value == {b}
    ensures Residual(table, value, |table|) == {}
    ensures Union(Chosen(table, value, |table|)) == value
  {
    forall b | b in value ensures b !in Residual(table, value, |table|) {
      var i :| 0 <= i < |table| && table[i].value == {b};
      ResidualStep(table, value, i + 1, b);
      ResidualMonotone(table, value, i + 1, |table|);
    }
    ResidualShrinks(table, value, |table|);
    DecompositionExact(table, value, |table|);
  }

  lemma {:induction false} ResidualMonotone(table: seq<Constant>, value: Word, i: nat, n: nat)
    requires i <= n <= |table|
    ensures Residual(table, value, n) <= Residual(table, value, i)
  {
    if i < n {
      ResidualMonotone(table, value, i, n - 1);
    }
  }

  /** A constant 0 is named exactly when the constants named before it make up the whole value. */
  lemma ZeroNamedExactly(table: seq<Constant>, value: Word, n: nat)
    requires n < |table| && table[n].value == {}
    ensures Chosen(table, value, n + 1) == Chosen(table, value, n) + [table[n]] <==>
            Union(Chosen(table, value, n)) == value
  {
    DecompositionExact(table, value, n);
    assert Chosen(table, value, n + 1) == Chosen(table, value, n) + [table[n]] <==> Residual(table, value, n) == {};
  }

  /** Taking constants greedily can leave bits over that other constants would have covered. */
  lemma GreedyCanLeaveBits()
    ensures var table := [Constant({0, 1}, "a"), Constant({1, 2}, "b"), Constant({0}, "c")];
            Residual(table, {0, 1, 2}, 3) == {2} && table[1].value + table[2].value == {0, 1, 2}
  {
    var table := [Constant({0, 1}, "a"), Constant({1, 2}, "b"), Constant({0}, "c")];
    assert Residual(table, {0, 1, 2}, 1) == {2};
    assert Residual(table, {0, 1, 2}, 2) == {2};
  }
}
