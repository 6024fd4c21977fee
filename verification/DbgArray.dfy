/** Naming the elements of a multi-dimensional array (dbg_array.cc). */
module Arrays {
  import opened Wrappers
  import opened Integers
  import opened Strings
  import Decimal

  type uint32 = n: nat | n < 0x1_0000_0000

  function Product(dims: seq<nat>): nat {
    if dims == [] then 1 else Product(dims[..|dims| - 1]) * dims[|dims| - 1]
  }

  // ---------------------------------------------------------------- row-major order

  /** The i-th index of the k-th element, the last index changing fastest. */
  function IndexAt(k: nat, dims: seq<nat>, i: nat): nat
    requires i < |dims| && Product(dims[i + 1..]) > 0 && dims[i] > 0
  {
    k / Product(dims[i + 1..]) % dims[i]
  }

  /** t holds the row-major indices of element k. */
  ghost predicate IsRowMajor(t: seq<nat>, k: nat, dims: seq<nat>) {
    && |t| == |dims|
    && forall i :: 0 <= i < |dims| ==>
         Product(dims[i + 1..]) > 0 && dims[i] > 0 && t[i] == IndexAt(k, dims, i)
  }

  // ---------------------------------------------------------------- mixed-radix numerals

  ghost predicate Digits(t: seq<nat>, dims: seq<nat>) {
    |t| == |dims| && forall i :: 0 <= i < |t| ==> t[i] < dims[i]
  }

  function Value(t: seq<nat>, dims: seq<nat>): nat
    requires |t| == |dims|
  {
    if t == [] then 0
    else
      var n := |t| - 1;
      Value(t[..n], dims[..n]) * dims[n] + t[n]
  }

  /** The odometer's next position: add one to the last digit and carry. */
  function Increment(t: seq<nat>, dims: seq<nat>): (r: seq<nat>)
    requires |t| == |dims|
    ensures |r| == |t|
  {
    if t == [] then []
    else
      var n := |t| - 1;
      if t[n] + 1 != dims[n] then t[..n] + [t[n] + 1] else Increment(t[..n], dims[..n]) + [0]
  }

  lemma MulMono(a: nat, b: nat, d: nat)
    requires a <= b
    ensures a * d <= b * d
  {
  }

  lemma {:induction false} ValueBelowProduct(t: seq<nat>, dims: seq<nat>)
    requires Digits(t, dims)
    ensures Value(t, dims) < Product(dims)
  {
    if t != [] {
      var n := |t| - 1;
      ValueBelowProduct(t[..n], dims[..n]);
      MulMono(Value(t[..n], dims[..n]) + 1, Product(dims[..n]), dims[n]);
    }
  }

  lemma CarryFits(v: nat, p: nat, d: nat)
    requires v * d + d < p * d
    ensures v + 1 < p
  {
    Carried(v, d);
    if p <= v + 1 {
      MulMono(p, v + 1, d);
    }
  }

  lemma Carried(v: nat, d: nat)
    ensures (v + 1) * d == v * d + d
  {
  }

  /** Incrementing adds one to the value, until every position has been visited. */
  lemma {:induction false} IncrementValue(t: seq<nat>, dims: seq<nat>)
    requires Digits(t, dims) && Value(t, dims) + 1 < Product(dims)
    ensures Digits(Increment(t, dims), dims)
    ensures Value(Increment(t, dims), dims) == Value(t, dims) + 1
  {
    if t != [] {
      var n := |t| - 1;
      var v, d := Value(t[..n], dims[..n]), dims[n];
      var r := Increment(t, dims);
      if t[n] + 1 != d {
        assert r[..n] == t[..n];
      } else {
        Carried(v, d);
        CarryFits(v, Product(dims[..n]), d);
        IncrementValue(t[..n], dims[..n]);
        assert r[..n] == Increment(t[..n], dims[..n]);
      }
    }
  }

  lemma {:induction false} ZeroValue(dims: seq<nat>)
    ensures Value(Zeros(|dims|), dims) == 0
  {
    if dims != [] {
      var n := |dims| - 1;
      ZeroValue(dims[..n]);
      assert Zeros(|dims|)[..n] == Zeros(n);
    }
  }

  // ---------------------------------------------------------------- the value decides the digits

  lemma MultipleBound(m: int, d: nat)
    requires d > 0
    ensures m >= 1 ==> m * d >= d
    ensures m <= -1 ==> m * d + d <= 0
  {
  }

  lemma DivUnique(k: nat, d: nat, q: nat, r: nat)
    requires r < d && k == q * d + r
    ensures k / d == q && k % d == r
  {
    var m := k / d - q;
    assert m * d == (k / d) * d - q * d;
    MultipleBound(m, d);
  }

  /** Dividing by a product is dividing twice. */
  lemma DivDiv(k: nat, d: nat, p: nat)
    requires d > 0 && p > 0
    ensures p * d > 0 && k / (p * d) == k / d / p
  {
    var q := k / d;
    DivMod(k, d);
    DivMod(q, p);
    QuotientByProduct(k, d, p, q / p, q % p, k % d);
  }

  lemma DivMod(k: nat, d: nat)
    requires d > 0
    ensures k == (k / d) * d + k % d && k % d < d
  {
  }

  lemma QuotientByProduct(k: nat, d: nat, p: nat, q: nat, r2: nat, r: nat)
    requires k == (q * p + r2) * d + r && r2 < p && r < d
    ensures p * d > 0 && k / (p * d) == q
  {
    Distribute(q, p, r2, d);
    TwoDigits(r2, p, r, d);
    DivUnique(k, p * d, q, r2 * d + r);
  }

  lemma TwoDigits(r2: nat, p: nat, r: nat, d: nat)
    requires r2 < p && r < d
    ensures r2 * d + r < p * d
  {
    MulMono(r2 + 1, p, d);
    assert (r2 + 1) * d == r2 * d + d;
  }

  lemma Distribute(a: nat, b: nat, c: nat, d: nat)
    ensures (a * b + c) * d == a * (b * d) + c * d
  {
  }

  /** An index of k is that of k without its last digit. */
  lemma IndexOfFront(k: nat, dims: seq<nat>, i: nat)
    requires dims != [] && i < |dims| - 1
    requires var n := |dims| - 1; dims[n] > 0 && Product(dims[..n][i + 1..]) > 0 && dims[i] > 0
    ensures Product(dims[i + 1..]) > 0
    ensures IndexAt(k, dims, i) == IndexAt(k / dims[|dims| - 1], dims[..|dims| - 1], i)
  {
    var n := |dims| - 1;
    var p := Product(dims[..n][i + 1..]);
    assert dims[i + 1..][..n - i - 1] == dims[..n][i + 1..];
    DivDiv(k, dims[n], p);
    assert Product(dims[i + 1..]) == p * dims[n];
  }

  /** Digits with value k are the row-major indices of element k. */
  lemma {:induction false} ValueDetermines(t: seq<nat>, dims: seq<nat>)
    requires Digits(t, dims)
    ensures IsRowMajor(t, Value(t, dims), dims)
  {
    if t != [] {
      var n := |t| - 1;
      var k, k' := Value(t, dims), Value(t[..n], dims[..n]);
      ValueDetermines(t[..n], dims[..n]);
      DivUnique(k, dims[n], k', t[n]);
      forall i | 0 <= i < |dims|
        ensures Product(dims[i + 1..]) > 0 && dims[i] > 0 && t[i] == IndexAt(k, dims, i)
      {
        if i < n {
          assert t[..n][i] == t[i] == IndexAt(k', dims[..n], i) && dims[..n][i] == dims[i];
          IndexOfFront(k, dims, i);
        } else {
          assert dims[i + 1..] == [];
        }
      }
    }
  }

  /** The odometer's position after k steps. */
  ghost function NthTuple(k: nat, dims: seq<nat>): (t: seq<nat>)
    requires k < Product(dims)
    ensures Digits(t, dims) && Value(t, dims) == k
  {
    if k == 0 then
      PositiveDims(dims);
      ZeroValue(dims);
      Zeros(|dims|)
    else
      IncrementValue(NthTuple(k - 1, dims), dims);
      Increment(NthTuple(k - 1, dims), dims)
  }

  /** The odometer shows the row-major indices of element k after k steps, and nothing else is them. */
  lemma OdometerExact(t: seq<nat>, k: nat, dims: seq<nat>)
    requires k < Product(dims)
    ensures IsRowMajor(t, k, dims) <==> t == NthTuple(k, dims)
  {
    ValueDetermines(NthTuple(k, dims), dims);
  }

  lemma {:induction false} PositiveDims(dims: seq<nat>)
    requires Product(dims) > 0
    ensures forall i :: 0 <= i < |dims| ==> dims[i] > 0
  {
    if dims != [] {
      var n := |dims| - 1;
      assert dims[n] > 0 && Product(dims[..n]) > 0;
      PositiveDims(dims[..n]);
      assert forall i :: 0 <= i < n ==> dims[..n][i] == dims[i];
    }
  }

  // ---------------------------------------------------------------- names

  function Prints(t: seq<nat>): seq<string> {
    seq(|t|, i requires 0 <= i < |t| => Decimal.Print(t[i]))
  }

  /** The indices in order, separated and in brackets. */
  function Name(t: seq<nat>): string {
    "[" + Join(Prints(t), ", ") + "]"
  }

  lemma PrintsNext(t: seq<nat>)
    requires t != []
    ensures Prints(t) == Prints(t[..|t| - 1]) + [Decimal.Print(t[|t| - 1])]
    ensures Join(Prints(t), ", ") ==
            if |t| == 1 then Decimal.Print(t[0])
            else Join(Prints(t[..|t| - 1]), ", ") + ", " + Decimal.Print(t[|t| - 1])
  {
    JoinNext(Prints(t[..|t| - 1]), Decimal.Print(t[|t| - 1]), ", ");
    assert Prints(t) == Prints(t[..|t| - 1]) + [Decimal.Print(t[|t| - 1])];
  }

  lemma {:induction false} JoinInjective(t: seq<nat>, u: seq<nat>)
    requires |t| == |u| && Join(Prints(t), ", ") == Join(Prints(u), ", ")
    ensures t == u
  {
    if t != [] {
      PrintsNext(t);
      PrintsNext(u);
    }
    if |t| == 1 {
      Decimal.NumeralSuffix("", "", t[0], u[0]);
      assert "" + Decimal.Print(t[0]) == Decimal.Print(t[0]) && "" + Decimal.Print(u[0]) == Decimal.Print(u[0]);
    } else if |t| > 1 {
      var n := |t| - 1;
      var a, b := Join(Prints(t[..n]), ", "), Join(Prints(u[..n]), ", ");
      Decimal.NumeralSuffix(a + ", ", b + ", ", t[n], u[n]);
      assert a == (a + ", ")[..|a|] && b == (b + ", ")[..|b|];
      JoinInjective(t[..n], u[..n]);
      assert t == t[..n] + [t[n]] && u == u[..n] + [u[n]];
    }
  }

  lemma NameInjective(t: seq<nat>, u: seq<nat>)
    requires |t| == |u| && Name(t) == Name(u)
    ensures t == u
  {
    var a, b := Join(Prints(t), ", "), Join(Prints(u), ", ");
    assert a == Name(t)[1..|Name(t)| - 1] && b == Name(u)[1..|Name(u)| - 1];
    JoinInjective(t, u);
  }

  /** Different elements have different names. */
  lemma NamesDistinct(j: nat, k: nat, dims: seq<nat>)
    requires j < Product(dims) && k < Product(dims)
    ensures Name(NthTuple(j, dims)) == Name(NthTuple(k, dims)) <==> j == k
  {
    if Name(NthTuple(j, dims)) == Name(NthTuple(k, dims)) {
      NameInjective(NthTuple(j, dims), NthTuple(k, dims));
    }
  }

  // ---------------------------------------------------------------- the size, in 32 bits

  /** The product of the dimensions as an int accumulates it, wrapping at 32 bits. */
  function Total(dims: seq<uint32>): int {
    ToInt32(Product(dims))
  }

  lemma WrapTwice(n: int, d: int)
    ensures ToInt32(ToInt32(n) * d) == ToInt32(n * d)
  {
    var q := (n - ToInt32(n)) / 0x1_0000_0000;
    assert n == ToInt32(n) + q * 0x1_0000_0000;
    assert n * d == ToInt32(n) * d + (q * d) * 0x1_0000_0000;
    AddWraps(ToInt32(n) * d, q * d);
  }

  lemma AddWraps(a: int, k: int)
    ensures ToInt32(a + k * 0x1_0000_0000) == ToInt32(a)
  {
  }

  method GetArraySize(dims: seq<uint32>) returns (result: int)
    ensures result == Total(dims)
    ensures Product(dims) < 0x8000_0000 ==> result == Product(dims)
  {
    result := 1;
    for i := 0 to |dims|
      invariant result == Total(dims[..i])
    {
      assert dims[..i + 1][..i] == dims[..i];
      WrapTwice(Product(dims[..i]), dims[i]);
      result := ToInt32(result * dims[i]);
    }
    assert dims[..|dims|] == dims;
  }

  // ---------------------------------------------------------------- the loop

  /** A member of the rendered array: its name, and the position its value is fetched from. */
  datatype Member = Member(name: string, position: nat)

  /** Element k's member; its name lists the row-major indices of k. */
  ghost predicate IsMember(m: Member, k: nat, dims: seq<nat>) {
    k < Product(dims) && m == Member(Name(NthTuple(k, dims)), k)
  }

  /** The k-th member is element k's. */
  ghost predicate AreMembers(members: seq<Member>, dims: seq<nat>) {
    forall k :: 0 <= k < |members| ==> IsMember(members[k], k, dims)
  }

  lemma AppendMember(members: seq<Member>, m: Member, dims: seq<nat>)
    requires AreMembers(members, dims) && IsMember(m, |members|, dims)
    ensures AreMembers(members + [m], dims)
  {
  }

  /** The member of element k lists its row-major indices, first dimension first. */
  lemma MemberExactly(m: Member, k: nat, dims: seq<nat>) returns (t: seq<nat>)
    requires IsMember(m, k, dims)
    ensures IsRowMajor(t, k, dims) && m.position == k
    ensures m.name == "[" + Join(seq(|t|, i requires 0 <= i < |t| => Decimal.Print(t[i])), ", ") + "]"
  {
    t := NthTuple(k, dims);
    OdometerExact(t, k, dims);
    assert seq(|t|, i requires 0 <= i < |t| => Decimal.Print(t[i])) == Prints(t);
  }

  /** The number of members shown; a limit of 0 stands for the default one. */
  function Shown(dims: seq<uint32>, maxItems: uint32, defaultItems: uint32): nat {
    var limit: int := if maxItems == 0 then defaultItems else maxItems;
    var n := if Total(dims) < limit then Total(dims) else limit;
    if n < 0 then 0 else n
  }

  /** All elements up to the limit are shown, unless the 32-bit product of the dimensions wrapped. */
  lemma ShownExactly(dims: seq<uint32>, maxItems: uint32, defaultItems: uint32)
    ensures var limit: int := if maxItems == 0 then defaultItems else maxItems;
            Shown(dims, maxItems, defaultItems) == (if Product(dims) < limit then Product(dims) else limit)
            <==> Total(dims) == Product(dims) || limit <= Total(dims) || limit == 0
    ensures Product(dims) < 0x8000_0000 ==> Total(dims) == Product(dims)
    ensures Total(dims) <= 0 ==> Shown(dims, maxItems, defaultItems) == 0
    ensures 0 < Total(dims) ==> Shown(dims, maxItems, defaultItems) <= Total(dims)
  {
    TotalBound(dims);
  }

  lemma TotalBound(dims: seq<uint32>)
    ensures Total(dims) <= Product(dims)
  {
  }

  method PopulateMembers(dims: seq<uint32>, maxItems: uint32, defaultItems: uint32) returns (members: seq<Member>)
    ensures |members| == Shown(dims, maxItems, defaultItems)
    ensures AreMembers(members, dims)
  {
    var totalItems := GetArraySize(dims);
    TotalBound(dims);
    members := AddMembers(dims, totalItems, if maxItems == 0 then defaultItems else maxItems);
  }

  /** The tracker stands at element k. */
  ghost predicate StandsAt(tracker: seq<nat>, k: int, dims: seq<nat>) {
    0 <= k < Product(dims) && tracker == NthTuple(k, dims)
  }

  /** A tracker at the first element, if there is one. */
  method Begin(dims: seq<nat>) returns (tracker: seq<nat>)
    ensures 0 < Product(dims) ==> StandsAt(tracker, 0, dims)
  {
    tracker := Zeros(|dims|);
  }

  lemma NextElement(tracker: seq<nat>, k: nat, dims: seq<nat>)
    requires StandsAt(tracker, k, dims) && k + 1 < Product(dims)
    ensures StandsAt(Increment(tracker, dims), k + 1, dims)
  {
  }

  lemma NamedByTracker(tracker: seq<nat>, k: nat, dims: seq<nat>)
    requires StandsAt(tracker, k, dims)
    ensures |tracker| == |dims| && IsMember(Member(Name(tracker), k), k, dims)
  {
  }

  /** The loop of PopulateMembers. */
  method AddMembers(dims: seq<nat>, totalItems: int, limit: nat) returns (members: seq<Member>)
    requires totalItems <= Product(dims)
    ensures |members| == if totalItems < 0 then 0 else if totalItems < limit then totalItems else limit
    ensures AreMembers(members, dims)
  {
    var tracker := Begin(dims);
    var currentIndex := 0;
    members := [];
    while currentIndex < totalItems && currentIndex < limit
      invariant 0 <= currentIndex == |members| <= limit
      invariant currentIndex <= totalItems || currentIndex == 0
      invariant currentIndex < totalItems ==> StandsAt(tracker, currentIndex, dims)
      invariant AreMembers(members, dims)
    {
      members := AddMember(members, tracker, dims);
      currentIndex := currentIndex + 1;
      if currentIndex < totalItems {
        tracker := MoveOn(tracker, currentIndex - 1, dims);
      }
    }
  }

  /** Moves the tracker from element k to the next. */
  method MoveOn(tracker: seq<nat>, ghost k: nat, dims: seq<nat>) returns (t: seq<nat>)
    requires StandsAt(tracker, k, dims) && k + 1 < Product(dims)
    ensures StandsAt(t, k + 1, dims)
  {
    NextElement(tracker, k, dims);
    t := Advance(tracker, dims);
  }

  /** Adds the member whose indices the tracker shows. */
  method AddMember(members: seq<Member>, tracker: seq<nat>, dims: seq<nat>) returns (longer: seq<Member>)
    requires StandsAt(tracker, |members|, dims) && AreMembers(members, dims)
    ensures |longer| == |members| + 1 && AreMembers(longer, dims)
  {
    var name := PrintName(tracker);
    NamedByTracker(tracker, |members|, dims);
    AppendMember(members, Member(name, |members|), dims);
    longer := members + [Member(name, |members|)];
  }

  lemma PrintStep(t: seq<nat>, i: nat)
    requires i < |t|
    ensures "[" + Join(Prints(t[..i]), ", ") + (if 0 < i then ", " else "") + Decimal.Print(t[i]) ==
            "[" + Join(Prints(t[..i + 1]), ", ")
  {
    PrintsNext(t[..i + 1]);
    assert t[..i + 1][..i] == t[..i];
    var before, next := Join(Prints(t[..i]), ", "), Decimal.Print(t[i]);
    Assoc("[", before, ", ");
    Assoc("[", before + ", ", next);
    assert i == 0 ==> before == "";
  }

  method PrintName(tracker: seq<nat>) returns (name: string)
    ensures name == Name(tracker)
  {
    name := "[";
    assert tracker[..0] == [];
    for index := 0 to |tracker|
      invariant name == "[" + Join(Prints(tracker[..index]), ", ") + if 0 < index < |tracker| then ", " else ""
    {
      PrintStep(tracker, index);
      name := name + Decimal.Print(tracker[index]);
      if index != |tracker| - 1 {
        name := name + ", ";
      }
    }
    assert tracker[..|tracker|] == tracker;
    name := name + "]";
  }

  /** The inner loop: spill the addition over until it fits. */
  method Advance(tracker: seq<nat>, dims: seq<nat>) returns (t: seq<nat>)
    requires |tracker| == |dims|
    ensures t == Increment(tracker, dims)
  {
    t := tracker;
    var i := |dims| - 1;
    assert tracker[..|dims|] == tracker && dims[..|dims|] == dims && t[|dims|..] == [];
    assert Increment(tracker, dims) + [] == Increment(tracker, dims);
    while i >= 0
      invariant -1 <= i < |dims| == |t|
      invariant t[..i + 1] == tracker[..i + 1]
      invariant Increment(tracker, dims) == Increment(tracker[..i + 1], dims[..i + 1]) + t[i + 1..]
      decreases i
    {
      assert tracker[..i + 1][..i] == tracker[..i] && dims[..i + 1][..i] == dims[..i];
      ghost var rest := t[i + 1..];
      t := t[i := t[i] + 1];
      if t[i] == dims[i] {
        t := t[i := 0];
        assert t[i..] == [0] + rest;
        i := i - 1;
      } else {
        assert t == tracker[..i] + [tracker[i] + 1] + rest;
        return;
      }
    }
  }
}
