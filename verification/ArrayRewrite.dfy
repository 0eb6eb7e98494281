/** `ExprRewriter::rewrite`: a test that the index of some constant array is one of the solutions given for it,
    compressed to ranges, and inverted if the solutions are the majority.  The flag for the inversion is one for
    all arrays, and so the test can be another one if there are several. */
module ArrayRewrite {
  import opened Sets
  import opened BitVectors
  import opened Expr
  import opened IndexTerms

  // ----- Terms -----

  /** `createEqExpr` or `createRangeExpr` for the elements `lo` to `hi`, both included. */
  function RangeTest(index: Expr, lo: nat, hi: nat, width: nat): Expr {
    var w := Width(index);
    if lo == hi then Bin(Eq, Num(lo * width, w), index)
    else Bin(And, Bin(Ule, Num(lo * width, w), index), Bin(Ule, index, Num(hi * width, w)))
  }

  /** `concatenateOrExpr`: conditions are widened to 32 bits and combined from the right. */
  function OrChain(es: seq<Expr>): Expr
    requires |es| >= 2
  {
    if |es| == 2 then Bin(Or, Un(ZExt(32), es[0]), Un(ZExt(32), es[1]))
    else Bin(Or, Un(ZExt(32), es[0]), OrChain(es[1..]))
  }

  /** The end of `rewrite`. */
  function Combined(es: seq<Expr>, invert: bool): Expr
    requires es != []
  {
    var wanted := if invert then 0 else 1;
    if |es| >= 2 then Bin(Eq, Num(wanted, 32), OrChain(es))
    else if es[0].Bin? && es[0].op.And? then Bin(Eq, Num(wanted, Width(es[0])), es[0])
    else if invert then Un(Not, es[0]) else es[0]
  }

  // ----- What the terms test -----

  lemma ScaledOrder(a: nat, b: nat, width: nat)
    requires width > 0
    ensures a <= b <==> a * width <= b * width
    ensures a == b <==> a * width == b * width
  {
    if a < b {
      MulAtLeast(b - a, width);
      assert b * width == a * width + (b - a) * width;
    } else if b < a {
      MulAtLeast(a - b, width);
      assert a * width == b * width + (a - b) * width;
    }
  }

  /** On the index of an element, the test of a range is that the element lies in it. */
  lemma RangeTestMeaning(index: Expr, lo: nat, hi: nat, width: nat, k: nat, env: Env)
    requires WellFormed(index) && Width(index) > 0 && width > 0
    requires lo <= hi && hi * width < Pow2(Width(index)) && ToNat(Eval(index, env)) == k * width
    ensures Condition(RangeTest(index, lo, hi, width))
    ensures Holds(RangeTest(index, lo, hi, width), env) <==> lo <= k <= hi
  {
    hide FromNat, ToInt, ToNat, Eval, WellFormed, Width, Num, Pow2;
    var w := Width(index);
    var a, b := Num(lo * width, w), Num(hi * width, w);
    var x := Eval(index, env);
    ScaledOrder(lo, hi, width);
    ScaledOrder(lo, k, width);
    ScaledOrder(k, hi, width);
    NumValue(lo * width, w);
    NumValue(hi * width, w);
    NumWide(lo * width, w, env);
    NumWide(hi * width, w, env);
    if lo == hi {
      ComparisonMeaning(Eq, a, index, env);
      if ToNat(x) == lo * width {
        ToNatInjective(FromNat(lo * width, w), x);
      }
    } else {
      ComparisonMeaning(Ule, a, index, env);
      ComparisonMeaning(Ule, index, b, env);
      AndMeaning(Bin(Ule, a, index), Bin(Ule, index, b), env);
    }
  }

  lemma RangeTestCondition(index: Expr, lo: nat, hi: nat, width: nat)
    requires WellFormed(index) && Width(index) > 0
    ensures Condition(RangeTest(index, lo, hi, width))
  {
    hide FromNat, WellFormed, Width, Num;
    var w, env := Width(index), (_, _) => 0;
    var a, b := Num(lo * width, w), Num(hi * width, w);
    NumWide(lo * width, w, env);
    NumWide(hi * width, w, env);
    ComparisonMeaning(Eq, a, index, env);
    ComparisonMeaning(Ule, a, index, env);
    ComparisonMeaning(Ule, index, b, env);
    AndMeaning(Bin(Ule, a, index), Bin(Ule, index, b), env);
  }

  ghost predicate AllConditions(es: seq<Expr>) {
    forall i :: 0 <= i < |es| ==> Condition(es[i])
  }

  ghost predicate AnyHolds(es: seq<Expr>, env: Env)
    requires AllConditions(es)
  {
    exists i :: 0 <= i < |es| && Holds(es[i], env)
  }

  lemma WidenedOr(x: bool, y: bool)
    ensures Apply(Or, ZeroExtend([x], 32), ZeroExtend([y], 32)) == ZeroExtend([x || y], 32)
  {
    var a, b, c := ZeroExtend([x], 32), ZeroExtend([y], 32), ZeroExtend([x || y], 32);
    var r := Apply(Or, a, b);
    forall i | 0 <= i < 32
      ensures r[i] == c[i]
    {
      assert r[i] == Bitwise(Or, a[i], b[i]);
    }
  }

  lemma WidenedMeaning(e: Expr, env: Env)
    requires Condition(e)
    ensures WellFormed(Un(ZExt(32), e)) && Width(Un(ZExt(32), e)) == 32
    ensures Eval(Un(ZExt(32), e), env) == ZeroExtend([Holds(e, env)], 32)
  {
    hide ZeroExtend;
    SingleBit(Eval(e, env));
  }

  lemma {:induction false} OrChainMeaning(es: seq<Expr>, env: Env)
    requires |es| >= 2 && AllConditions(es)
    ensures WellFormed(OrChain(es)) && Width(OrChain(es)) == 32
    ensures Eval(OrChain(es), env) == ZeroExtend([AnyHolds(es, env)], 32)
  {
    hide ZeroExtend, Apply, Condition, Holds;
    WidenedMeaning(es[0], env);
    if |es| == 2 {
      WidenedMeaning(es[1], env);
      WidenedOr(Holds(es[0], env), Holds(es[1], env));
    } else {
      OrChainMeaning(es[1..], env);
      WidenedOr(Holds(es[0], env), AnyHolds(es[1..], env));
      assert forall i :: 1 <= i < |es| ==> es[i] == es[1..][i - 1];
    }
  }

  lemma BitNumber(b: bool, w: nat)
    requires w > 0
    ensures FromNat(if b then 1 else 0, w) == ZeroExtend([b], w)
  {
    var n := if b then 1 else 0;
    ToNatZeroExtend([b], w);
    assert ToNat([b]) == n by {
      assert [b][1..] == [];
    }
    Pow2Monotone(1, w);
    assert Pow2(1) == 2;
    NumValue(n, w);
    ToNatInjective(FromNat(n, w), ZeroExtend([b], w));
  }

  lemma EqualBits(b: bool, c: bool, w: nat)
    requires w > 0
    ensures ZeroExtend([b], w) == ZeroExtend([c], w) <==> b == c
  {
    assert ZeroExtend([b], w)[0] == b && ZeroExtend([c], w)[0] == c;
  }

  /** The combination holds if one of the conditions does, or inverted if none does. */
  lemma CombinedMeaning(es: seq<Expr>, invert: bool, env: Env)
    requires es != [] && AllConditions(es)
    ensures Condition(Combined(es, invert))
    ensures Holds(Combined(es, invert), env) <==> AnyHolds(es, env) != invert
  {
    hide ZeroExtend, FromNat, Eval, WellFormed, Width, Num;
    var wanted := if invert then 0 else 1;
    if |es| >= 2 {
      OrChainMeaning(es, env);
      NumWide(wanted, 32, env);
      ComparisonMeaning(Eq, Num(wanted, 32), OrChain(es), env);
      BitNumber(!invert, 32);
      EqualBits(!invert, AnyHolds(es, env), 32);
    } else {
      assert AnyHolds(es, env) == Holds(es[0], env);
      NotMeaning(es[0], env);
      OneMeaning(es[0], !invert, env);
    }
  }

  lemma OneMeaning(e: Expr, wanted: bool, env: Env)
    requires Condition(e)
    ensures
      var test := Bin(Eq, Num(if wanted then 1 else 0, Width(e)), e);
      Condition(test) && (Holds(test, env) <==> Holds(e, env) == wanted)
  {
    hide Eval, WellFormed, Num;
    var n := if wanted then 1 else 0;
    NumWide(n, 1, env);
    ComparisonMeaning(Eq, Num(n, 1), e, env);
    SingleBit(Eval(e, env));
    SingleBit(FromNat(n, 1));
    BitNumber(wanted, 1);
  }

  // ----- Compressing the solutions -----

  /** The element is one that the tests are made for. */
  predicate Selected(bits: seq<bool>, invert: bool, k: nat)
    requires k < |bits|
  {
    bits[k] != invert
  }

  predicate Within(ranges: seq<(nat, nat)>, k: nat) {
    exists j :: 0 <= j < |ranges| && ranges[j].0 <= k <= ranges[j].1
  }

  /** The ranges are those of the selected elements below `n`. */
  ghost predicate Covers(ranges: seq<(nat, nat)>, bits: seq<bool>, invert: bool, n: nat)
    requires n <= |bits|
  {
    && (forall j :: 0 <= j < |ranges| ==> ranges[j].0 <= ranges[j].1 < n)
    && (forall k :: 0 <= k < n ==> (Within(ranges, k) <==> Selected(bits, invert, k)))
  }

  lemma CoversNext(ranges: seq<(nat, nat)>, bits: seq<bool>, invert: bool, n: nat)
    requires n < |bits| && Covers(ranges, bits, invert, n) && !Selected(bits, invert, n)
    ensures Covers(ranges, bits, invert, n + 1)
  {
  }

  lemma CoversRange(ranges: seq<(nat, nat)>, bits: seq<bool>, invert: bool, lo: nat, hi: nat)
    requires lo <= hi < |bits| && Covers(ranges, bits, invert, lo)
    requires forall k :: lo <= k <= hi ==> Selected(bits, invert, k)
    ensures Covers(ranges + [(lo, hi)], bits, invert, hi + 1)
  {
    var more := ranges + [(lo, hi)];
    forall k | 0 <= k < hi + 1
      ensures Within(more, k) <==> Selected(bits, invert, k)
    {
      assert more[|ranges|] == (lo, hi);
      assert forall j :: 0 <= j < |ranges| ==> more[j] == ranges[j];
    }
  }

  /** The loop over the bit array: a test for every range of selected elements. */
  method Compress(index: Expr, bits: array<bool>, invert: bool, width: nat)
    returns (es: seq<Expr>, ghost ranges: seq<(nat, nat)>)
    ensures Covers(ranges, bits[..], invert, bits.Length) && |es| == |ranges|
    ensures forall j :: 0 <= j < |es| ==> es[j] == RangeTest(index, ranges[j].0, ranges[j].1, width)
  {
    hide Covers, RangeTest;
    es, ranges := [], [];
    assert Covers(ranges, bits[..], invert, 0) by {
      CoversNone(bits[..], invert);
    }
    var start := -1;
    for i := 0 to bits.Length
      invariant -1 <= start < i && |es| == |ranges|
      invariant Covers(ranges, bits[..], invert, if start >= 0 then start else i)
      invariant start >= 0 ==> forall k :: start <= k < i ==> Selected(bits[..], invert, k)
      invariant forall j :: 0 <= j < |es| ==> es[j] == RangeTest(index, ranges[j].0, ranges[j].1, width)
    {
      if bits[i] != invert {
        if start < 0 {
          start := i;
        }
      } else {
        if start >= 0 {
          CoversRange(ranges, bits[..], invert, start, i - 1);
          es, ranges := es + [RangeTest(index, start, i - 1, width)], ranges + [(start, i - 1)];
          start := -1;
        }
        CoversNext(ranges, bits[..], invert, i);
      }
    }
    if start >= 0 {
      CoversRange(ranges, bits[..], invert, start, bits.Length - 1);
      es, ranges := es + [RangeTest(index, start, bits.Length - 1, width)], ranges + [(start, bits.Length - 1)];
    }
  }

  lemma CoversNone(bits: seq<bool>, invert: bool)
    ensures Covers([], bits, invert, 0)
  {
  }

  // ----- The rewritten test -----

  /** The element that an index lies in. */
  function ElementOf(v: nat, width: nat): nat
    requires width > 0
  {
    v / width
  }

  /** A solution lies in the element. */
  predicate Holding(solutions: seq<nat>, width: nat, k: nat)
    requires width > 0
  {
    exists v :: v in solutions && ElementOf(v, width) == k
  }

  /** The element is a solution.  A single one is compared as it is, and of several the element that each
      lies in. */
  predicate Listed(solutions: seq<nat>, width: nat, k: nat)
    requires width > 0
  {
    if |solutions| == 1 then solutions[0] == k * width
    else Holding(solutions, width, k)
  }

  lemma HoldingMore(solutions: seq<nat>, v: nat, width: nat)
    requires width > 0
    ensures forall k: nat :: Holding(solutions + [v], width, k) <==>
            Holding(solutions, width, k) || ElementOf(v, width) == k
  {
    hide ElementOf;
    assert forall u :: u in solutions + [v] <==> u in solutions || u == v;
  }

  /** The bit array of the elements that solutions lie in. */
  method Marked(solutions: seq<nat>, width: nat, n: nat) returns (bits: array<bool>)
    requires width > 0 && forall v :: v in solutions ==> ElementOf(v, width) < n
    ensures fresh(bits) && bits.Length == n
    ensures forall k :: 0 <= k < n ==> (bits[k] <==> Holding(solutions, width, k))
  {
    hide ElementOf;
    bits := new bool[n](_ => false);
    for i := 0 to |solutions|
      invariant forall k :: 0 <= k < n ==> (bits[k] <==> Holding(solutions[..i], width, k))
    {
      var v := solutions[i];
      assert v in solutions;
      HoldingMore(solutions[..i], v, width);
      assert solutions[..i + 1] == solutions[..i] + [v];
      bits[ElementOf(v, width)] := true;
    }
    assert solutions[..|solutions|] == solutions;
  }

  type Positive = n: nat | n > 0 witness 1

  /** A constant array, the index it is read at, and the solutions found for the index.  There is one index for
      each array (`computeIndexes` asserts it). */
  datatype Lookup = Lookup(index: Expr, solutions: seq<nat>, size: nat, width: Positive) {
    ghost predicate Valid() {
      && WellFormed(index) && Width(index) > 0
      && size % width == 0 && size <= Pow2(Width(index))
      && forall v :: v in solutions ==> v < size
    }

    function Count(): nat {
      size / width
    }

    /** The index is that of the element. */
    ghost predicate At(k: nat, env: Env)
      requires Valid()
    {
      k < Count() && ToNat(Eval(index, env)) == k * width
    }

    /** The flag after the lookup: several solutions set it, unless there are as many as elements. */
    function NextFlag(invert: bool): bool {
      if 2 <= |solutions| < Count() then 2 * |solutions| > Count() else invert
    }

    /** What the conditions made for the lookup test of an element. */
    ghost predicate Tested(invert: bool, k: nat) {
      if |solutions| <= 1 then Listed(solutions, width, k) else Listed(solutions, width, k) != invert
    }

    /** The conditions do test this. */
    ghost predicate TestedBy(es: seq<Expr>, invert: bool)
      requires Valid()
    {
      && AllConditions(es)
      && forall env: Env, k: nat :: At(k, env) ==> (AnyHolds(es, env) <==> Tested(invert, k))
    }
  }

  lemma RangesTested(index: Expr, es: seq<Expr>, ranges: seq<(nat, nat)>, width: nat, size: nat, k: nat, env: Env)
    requires WellFormed(index) && Width(index) > 0 && width > 0 && |es| == |ranges|
    requires size % width == 0 && size <= Pow2(Width(index)) && ToNat(Eval(index, env)) == k * width
    requires forall j :: 0 <= j < |es| ==> es[j] == RangeTest(index, ranges[j].0, ranges[j].1, width)
    requires forall j :: 0 <= j < |ranges| ==> ranges[j].0 <= ranges[j].1 < size / width
    ensures AllConditions(es) && (AnyHolds(es, env) <==> Within(ranges, k))
  {
    hide RangeTest, Eval, WellFormed, Width, ToNat, Pow2, Condition, Holds;
    forall j | 0 <= j < |es|
      ensures Condition(es[j]) && (Holds(es[j], env) <==> ranges[j].0 <= k <= ranges[j].1)
    {
      ScaledBelow(ranges[j].1, size, width);
      RangeTestMeaning(index, ranges[j].0, ranges[j].1, width, k, env);
    }
  }

  lemma ScaledBelow(k: nat, size: nat, width: nat)
    requires width > 0 && size % width == 0 && k < size / width
    ensures k * width < size
  {
    var n := size / width;
    MulAtLeast(n - k, width);
    assert size == n * width == k * width + (n - k) * width;
  }

  lemma RangesTest(l: Lookup, es: seq<Expr>, ranges: seq<(nat, nat)>, bits: seq<bool>, invert: bool)
    requires l.Valid() && |es| == |ranges| && |bits| == l.Count() && |l.solutions| >= 2
    requires forall k :: 0 <= k < |bits| ==> (bits[k] <==> Holding(l.solutions, l.width, k))
    requires forall j :: 0 <= j < |es| ==> es[j] == RangeTest(l.index, ranges[j].0, ranges[j].1, l.width)
    requires Covers(ranges, bits, invert, |bits|)
    ensures l.TestedBy(es, invert)
  {
    hide RangeTest, Eval, WellFormed, Width, ToNat, Pow2, AnyHolds;
    forall j | 0 <= j < |es|
      ensures Condition(es[j])
    {
      RangeTestCondition(l.index, ranges[j].0, ranges[j].1, l.width);
    }
    forall env: Env, k: nat | l.At(k, env)
      ensures AnyHolds(es, env) <==> l.Tested(invert, k)
    {
      RangesTested(l.index, es, ranges, l.width, l.size, k, env);
      assert Within(ranges, k) <==> Selected(bits, invert, k);
    }
  }

  /** The body of the loop over the indices: the conditions made for one lookup, and the flag after it. */
  method RewriteLookup(l: Lookup, before: bool) returns (es: seq<Expr>, invert: bool)
    requires l.Valid()
    ensures invert == l.NextFlag(before) && l.TestedBy(es, invert)
    ensures l.solutions == [] ==> es == []
    ensures l.solutions != [] && !before ==> es != []
  {
    hide Lookup.TestedBy, Covers, RangeTest, Pow2, WellFormed, Width, ElementOf;
    if l.solutions == [] {
      assert l.TestedBy([], before) by {
        NoneTested(l, before);
      }
      return [], before;
    }
    if |l.solutions| == 1 {
      SingleTested(l, before);
      return [Bin(Eq, Num(l.solutions[0], Width(l.index)), l.index)], before;
    }
    forall v | v in l.solutions
      ensures ElementOf(v, l.width) < l.Count()
    {
      DividedBelow(v, l.size, l.width);
    }
    var n := l.Count();
    var bits := Marked(l.solutions, l.width, n);
    invert := if |l.solutions| < n then 2 * |l.solutions| > n else before;
    ghost var ranges;
    es, ranges := Compress(l.index, bits, invert, l.width);
    RangesTest(l, es, ranges, bits[..], invert);
    if !before {
      SomeSelected(bits[..], invert, l.solutions, l.width, ranges);
    }
  }

  lemma NoneTested(l: Lookup, invert: bool)
    requires l.Valid() && l.solutions == []
    ensures l.TestedBy([], invert)
  {
  }

  ghost predicate AllValid(ls: seq<Lookup>) {
    forall i :: 0 <= i < |ls| ==> ls[i].Valid()
  }

  /** The flag after the first `i` lookups. */
  ghost function Flag(ls: seq<Lookup>, i: nat): bool
    requires i <= |ls| && AllValid(ls)
  {
    if i == 0 then false else ls[i - 1].NextFlag(Flag(ls, i - 1))
  }

  /** Some condition made for the first `i` lookups holds. */
  ghost predicate AnyTested(ls: seq<Lookup>, i: nat, ks: seq<nat>)
    requires i <= |ls| == |ks| && AllValid(ls)
  {
    exists j :: 0 <= j < i && ls[j].Tested(Flag(ls, j + 1), ks[j])
  }

  /** What the whole rewritten condition tests. */
  ghost predicate Outcome(ls: seq<Lookup>, ks: seq<nat>)
    requires |ls| == |ks| && AllValid(ls)
  {
    AnyTested(ls, |ls|, ks) != Flag(ls, |ls|)
  }

  ghost predicate NoSolutions(ls: seq<Lookup>, i: nat)
    requires i <= |ls|
  {
    forall j :: 0 <= j < i ==> ls[j].solutions == []
  }

  lemma {:induction false} NoFlag(ls: seq<Lookup>, i: nat)
    requires i <= |ls| && AllValid(ls) && NoSolutions(ls, i)
    ensures !Flag(ls, i)
  {
    hide Lookup.Valid;
    if i > 0 {
      NoFlag(ls, i - 1);
    }
  }

  /** The lookups with solutions are read at these elements. */
  ghost predicate AllAt(ls: seq<Lookup>, ks: seq<nat>, env: Env)
    requires AllValid(ls)
  {
    |ks| == |ls| && forall i :: 0 <= i < |ls| && ls[i].solutions != [] ==> ls[i].At(ks[i], env)
  }

  ghost predicate AllTestedBy(ls: seq<Lookup>, i: nat, es: seq<Expr>)
    requires i <= |ls| && AllValid(ls)
  {
    && AllConditions(es)
    && forall env: Env, ks: seq<nat> :: AllAt(ls, ks, env) ==> (AnyHolds(es, env) <==> AnyTested(ls, i, ks))
  }

  lemma NextTestedBy(ls: seq<Lookup>, i: nat, es: seq<Expr>, more: seq<Expr>)
    requires i < |ls| && AllValid(ls) && AllTestedBy(ls, i, es) && ls[i].TestedBy(more, Flag(ls, i + 1))
    requires ls[i].solutions == [] ==> more == []
    ensures AllTestedBy(ls, i + 1, es + more)
  {
    hide Lookup.Valid, Flag, Lookup.Tested, Lookup.At, Condition, Holds, AnyHolds, AnyTested;
    AnyOfBoth(es, more, (_, _) => 0);
    forall env: Env, ks: seq<nat> | AllAt(ls, ks, env)
      ensures AnyHolds(es + more, env) <==> AnyTested(ls, i + 1, ks)
    {
      AnyOfBoth(es, more, env);
      NextTested(ls, i, ks);
      if ls[i].solutions == [] {
        NothingTested(ls[i], Flag(ls, i + 1), ks[i]);
        NoneHolds(env);
      }
    }
  }

  lemma NoneHolds(env: Env)
    ensures !AnyHolds([], env)
  {
  }

  lemma NextTested(ls: seq<Lookup>, i: nat, ks: seq<nat>)
    requires i < |ls| == |ks| && AllValid(ls)
    ensures AnyTested(ls, i + 1, ks) <==> AnyTested(ls, i, ks) || ls[i].Tested(Flag(ls, i + 1), ks[i])
  {
    hide Lookup.Valid, Flag, Lookup.Tested;
  }

  lemma NothingTested(l: Lookup, invert: bool, k: nat)
    requires l.Valid() && l.solutions == []
    ensures !l.Tested(invert, k) && !Listed(l.solutions, l.width, k)
  {
  }

  lemma AnyOfBoth(es: seq<Expr>, more: seq<Expr>, env: Env)
    requires AllConditions(es) && AllConditions(more)
    ensures AllConditions(es + more) && (AnyHolds(es + more, env) <==> AnyHolds(es, env) || AnyHolds(more, env))
  {
    hide Condition, Holds;
    assert forall i :: 0 <= i < |es| ==> (es + more)[i] == es[i];
    assert forall i :: 0 <= i < |more| ==> (es + more)[|es| + i] == more[i];
  }

  /** `rewrite`: nothing without solutions, and otherwise a condition that tests, on the indices of any elements,
      what the flags make of the solutions. */
  method Rewrite(ls: seq<Lookup>) returns (r: Option<Expr>)
    requires AllValid(ls)
    ensures r.None? <==> NoSolutions(ls, |ls|)
    ensures r.Some? ==> Condition(r.value)
    ensures r.Some? ==> forall env: Env, ks: seq<nat> :: AllAt(ls, ks, env) ==>
                          (Holds(r.value, env) <==> Outcome(ls, ks))
  {
    hide Lookup.Valid, Lookup.TestedBy, AllTestedBy, Lookup.NextFlag, Condition, Holds, AllAt;
    var es, invert := [], false;
    NothingYet(ls);
    for i := 0 to |ls|
      invariant invert == Flag(ls, i) && AllTestedBy(ls, i, es)
      invariant es == [] <==> NoSolutions(ls, i)
    {
      if es == [] {
        NoFlag(ls, i);
      }
      var more;
      more, invert := RewriteLookup(ls[i], invert);
      NextTestedBy(ls, i, es, more);
      es := es + more;
    }
    if es == [] {
      return None;
    }
    OutcomeTested(ls, es);
    return Some(Combined(es, invert));
  }

  lemma NothingYet(ls: seq<Lookup>)
    requires AllValid(ls)
    ensures AllTestedBy(ls, 0, [])
  {
  }

  lemma OutcomeTested(ls: seq<Lookup>, es: seq<Expr>)
    requires AllValid(ls) && AllTestedBy(ls, |ls|, es) && es != []
    ensures Condition(Combined(es, Flag(ls, |ls|)))
    ensures forall env: Env, ks: seq<nat> :: AllAt(ls, ks, env) ==>
              (Holds(Combined(es, Flag(ls, |ls|)), env) <==> Outcome(ls, ks))
  {
    hide Lookup.Valid, Combined, Flag, Condition, Holds, AnyTested, AnyHolds;
    CombinedMeaning(es, Flag(ls, |ls|), (_, _) => 0);
    forall env: Env, ks: seq<nat> | AllAt(ls, ks, env)
      ensures Holds(Combined(es, Flag(ls, |ls|)), env) <==> Outcome(ls, ks)
    {
      CombinedMeaning(es, Flag(ls, |ls|), env);
    }
  }

  lemma DividedBelow(v: nat, size: nat, width: nat)
    requires width > 0 && size % width == 0 && v < size
    ensures ElementOf(v, width) < size / width
  {
    var q, n := v / width, size / width;
    ScaledOrder(n, q, width);
    assert q * width <= v && size == n * width;
  }

  lemma SingleTested(l: Lookup, invert: bool)
    requires l.Valid() && |l.solutions| == 1
    ensures l.TestedBy([Bin(Eq, Num(l.solutions[0], Width(l.index)), l.index)], invert)
  {
    hide FromNat, ToNat, Eval, WellFormed, Width, Num, Pow2;
    var v, w := l.solutions[0], Width(l.index);
    assert v in l.solutions;
    var e := Bin(Eq, Num(v, w), l.index);
    NumValue(v, w);
    forall env: Env
      ensures Condition(e) && (Holds(e, env) <==> ToNat(Eval(l.index, env)) == v)
    {
      NumWide(v, w, env);
      ComparisonMeaning(Eq, Num(v, w), l.index, env);
      if ToNat(Eval(l.index, env)) == v {
        ToNatInjective(FromNat(v, w), Eval(l.index, env));
      }
    }
    assert Condition(e) by {
      NumWide(v, w, (_, _) => 0);
      ComparisonMeaning(Eq, Num(v, w), l.index, (_, _) => 0);
    }
    forall env: Env
      ensures AnyHolds([e], env) <==> Holds(e, env)
    {
      assert [e][0] == e;
    }
  }

  /** The elements that solutions lie in. */
  function Elements(solutions: seq<nat>, width: nat): set<nat>
    requires width > 0
  {
    set v | v in solutions :: ElementOf(v, width)
  }

  lemma {:induction false} ElementsAtMost(solutions: seq<nat>, width: nat)
    requires width > 0
    ensures |Elements(solutions, width)| <= |solutions|
  {
    hide ElementOf;
    if solutions != [] {
      var n := |solutions| - 1;
      ElementsAtMost(solutions[..n], width);
      assert solutions == solutions[..n] + [solutions[n]];
      assert Elements(solutions, width) == Elements(solutions[..n], width) + {ElementOf(solutions[n], width)};
    }
  }

  lemma {:induction false} BelowCount(n: nat) returns (below: set<nat>)
    ensures |below| == n && forall k: nat :: k in below <==> k < n
  {
    if n == 0 {
      below := {};
    } else {
      below := BelowCount(n - 1);
      below := below + {n - 1};
    }
  }

  lemma NotAllMarked(bits: seq<bool>, solutions: seq<nat>, width: nat) returns (k: nat)
    requires width > 0 && |solutions| < |bits|
    requires forall k :: 0 <= k < |bits| ==> (bits[k] <==> Holding(solutions, width, k))
    ensures k < |bits| && !bits[k]
  {
    hide ElementOf;
    var below := BelowCount(|bits|);
    ElementsAtMost(solutions, width);
    if below <= Elements(solutions, width) {
      SubsetSize(below, Elements(solutions, width));
    }
    k :| k in below && k !in Elements(solutions, width);
  }

  /** Whether inverted or not, there is an element to test for. */
  lemma SomeSelected(bits: seq<bool>, invert: bool, solutions: seq<nat>, width: nat, ranges: seq<(nat, nat)>)
    requires width > 0 && solutions != [] && Covers(ranges, bits, invert, |bits|)
    requires forall v :: v in solutions ==> ElementOf(v, width) < |bits|
    requires forall k :: 0 <= k < |bits| ==> (bits[k] <==> Holding(solutions, width, k))
    requires invert ==> |solutions| < |bits|
    ensures ranges != []
  {
    var k: nat;
    if invert {
      k := NotAllMarked(bits, solutions, width);
    } else {
      assert solutions[0] in solutions;
      k := ElementOf(solutions[0], width);
    }
    assert Selected(bits, invert, k);
    assert Within(ranges, k);
  }

  /** The first index of the element that an index lies in. */
  function Aligned(v: nat, width: nat): nat
    requires width > 0
  {
    ElementOf(v, width) * width
  }

  lemma AlignedElement(v: nat, width: nat, k: nat)
    requires width > 0
    ensures ElementOf(k * width, width) == k && (v % width == 0 <==> Aligned(v, width) == v)
  {
    DivModUnique(k * width, width, k, 0);
  }

  /** The test is membership in the list exactly if the first index of every element that a solution lies in
      is a solution too, as it is for solutions at the beginning of elements. */
  lemma ListedIsMembership(solutions: seq<nat>, width: nat, n: nat)
    requires width > 0 && |solutions| >= 2 && forall v :: v in solutions ==> ElementOf(v, width) < n
    ensures (forall k: nat :: k < n ==> (Listed(solutions, width, k) <==> k * width in solutions)) <==>
            (forall v :: v in solutions ==> Aligned(v, width) in solutions)
    ensures (forall v :: v in solutions ==> v % width == 0) ==>
            forall v :: v in solutions ==> Aligned(v, width) in solutions
  {
    hide ElementOf;
    forall k: nat
      ensures ElementOf(k * width, width) == k
    {
      AlignedElement(0, width, k);
    }
    forall v | v in solutions
      ensures v % width == 0 <==> Aligned(v, width) == v
    {
      AlignedElement(v, width, 0);
    }
    if forall k: nat :: k < n ==> (Listed(solutions, width, k) <==> k * width in solutions) {
      forall v | v in solutions
        ensures Aligned(v, width) in solutions
      {
        assert Listed(solutions, width, ElementOf(v, width));
      }
    }
  }

  // ----- When the shared flag does no harm -----

  /** The elements that the lookups with solutions are read at exist. */
  ghost predicate InArrays(ls: seq<Lookup>, ks: seq<nat>)
    requires AllValid(ls)
  {
    |ks| == |ls| && forall i :: 0 <= i < |ls| && ls[i].solutions != [] ==> ks[i] < ls[i].Count()
  }

  /** What the rewritten condition is for: some array is read at one of its solutions. */
  ghost predicate AnyListed(ls: seq<Lookup>, ks: seq<nat>)
    requires |ls| == |ks| && AllValid(ls)
  {
    exists i :: 0 <= i < |ls| && Listed(ls[i].solutions, ls[i].width, ks[i])
  }

  ghost predicate Right(ls: seq<Lookup>)
    requires AllValid(ls)
  {
    forall ks: seq<nat> :: InArrays(ls, ks) ==> (Outcome(ls, ks) <==> AnyListed(ls, ks))
  }

  /** The conditions of the lookup are made inverted. */
  ghost predicate Inverted(ls: seq<Lookup>, i: nat)
    requires i < |ls| && AllValid(ls)
  {
    |ls[i].solutions| >= 2 && Flag(ls, i + 1)
  }

  /** Every element is a solution. */
  ghost predicate Full(l: Lookup)
    requires l.Valid()
  {
    l.solutions != [] && forall k: nat :: k < l.Count() ==> Listed(l.solutions, l.width, k)
  }

  /** At most one array has solutions. */
  ghost predicate Alone(ls: seq<Lookup>) {
    forall i, j :: 0 <= i < |ls| && 0 <= j < |ls| && ls[i].solutions != [] && ls[j].solutions != [] ==> i == j
  }

  ghost predicate Harmless(ls: seq<Lookup>)
    requires AllValid(ls)
  {
    || Alone(ls)
    || (&& !Flag(ls, |ls|)
        && (|| (forall i :: 0 <= i < |ls| ==> !Inverted(ls, i))
            || (exists i :: 0 <= i < |ls| && Full(ls[i]) && !Inverted(ls, i))))
  }

  /** The solutions are indices of elements, as `computeIndexes` collects them. */
  ghost predicate AllAligned(ls: seq<Lookup>)
    requires AllValid(ls)
  {
    forall i, v :: 0 <= i < |ls| && v in ls[i].solutions ==> v % ls[i].width == 0
  }

  /** The rewritten condition is the one intended exactly if at most one array has solutions, or the last flag
      is not set and either no conditions were made inverted or an array all of whose elements are solutions
      has them as they are. */
  lemma RightIff(ls: seq<Lookup>)
    requires AllValid(ls) && AllAligned(ls)
    ensures Right(ls) <==> Harmless(ls)
  {
    hide Lookup.Valid, Right, Harmless, AllAligned;
    if Harmless(ls) {
      HarmlessRight(ls);
    }
    if Right(ls) && !Harmless(ls) {
      HarmfulWrong(ls);
    }
  }

  lemma TestedPlain(ls: seq<Lookup>, i: nat, k: nat)
    requires i < |ls| && AllValid(ls)
    ensures ls[i].Tested(Flag(ls, i + 1), k) <==> Listed(ls[i].solutions, ls[i].width, k) != Inverted(ls, i)
  {
    hide Listed, Flag;
  }

  lemma HarmlessRight(ls: seq<Lookup>)
    requires AllValid(ls) && Harmless(ls)
    ensures Right(ls)
  {
    hide Lookup.Valid, Flag, Listed, Lookup.Tested, Inverted, Full;
    forall ks: seq<nat> | InArrays(ls, ks)
      ensures Outcome(ls, ks) <==> AnyListed(ls, ks)
    {
      forall i | 0 <= i < |ls|
        ensures ls[i].Tested(Flag(ls, i + 1), ks[i]) <==> Listed(ls[i].solutions, ls[i].width, ks[i]) != Inverted(ls, i)
      {
        TestedPlain(ls, i, ks[i]);
      }
      if Alone(ls) {
        AloneRight(ls, ks);
      } else if i :| 0 <= i < |ls| && Full(ls[i]) && !Inverted(ls, i) {
        FullListed(ls[i], ks[i]);
      }
    }
  }

  lemma FullListed(l: Lookup, k: nat)
    requires l.Valid() && Full(l) && (l.solutions != [] ==> k < l.Count())
    ensures Listed(l.solutions, l.width, k)
  {
  }

  lemma {:induction false} FlagStays(ls: seq<Lookup>, i: nat, n: nat)
    requires i <= n <= |ls| && AllValid(ls) && forall j :: i <= j < n ==> ls[j].solutions == []
    ensures Flag(ls, n) == Flag(ls, i)
  {
    hide Lookup.Valid;
    if i < n {
      FlagStays(ls, i, n - 1);
    }
  }

  lemma AloneRight(ls: seq<Lookup>, ks: seq<nat>)
    requires AllValid(ls) && |ks| == |ls| && Alone(ls)
    ensures Outcome(ls, ks) <==> AnyListed(ls, ks)
  {
    hide Lookup.Valid, Flag, Listed, Lookup.Tested;
    forall i | 0 <= i < |ls| && ls[i].solutions == []
      ensures !ls[i].Tested(Flag(ls, i + 1), ks[i]) && !Listed(ls[i].solutions, ls[i].width, ks[i])
    {
      NothingTested(ls[i], Flag(ls, i + 1), ks[i]);
    }
    if i :| 0 <= i < |ls| && ls[i].solutions != [] {
      FlagStays(ls, i + 1, |ls|);
      NoFlag(ls, i);
      OneTested(ls, i, ks[i]);
    } else {
      NoFlag(ls, |ls|);
    }
  }

  lemma OneTested(ls: seq<Lookup>, i: nat, k: nat)
    requires i < |ls| && AllValid(ls) && !Flag(ls, i)
    ensures ls[i].Tested(Flag(ls, i + 1), k) != Flag(ls, i + 1) <==> Listed(ls[i].solutions, ls[i].width, k)
  {
    hide Listed;
  }

  /** A flag that is set was set by a lookup some of whose elements are no solutions. */
  lemma {:induction false} FlagSetter(ls: seq<Lookup>, i: nat) returns (j: nat)
    requires i <= |ls| && AllValid(ls) && Flag(ls, i)
    ensures j < i && Inverted(ls, j) && !Full(ls[j])
  {
    hide Lookup.Valid, Full;
    if Flag(ls, i - 1) && !(2 <= |ls[i - 1].solutions| < ls[i - 1].Count()) {
      j := FlagSetter(ls, i - 1);
    } else {
      j := i - 1;
      FewerNotFull(ls[j]);
    }
  }

  lemma FewerNotFull(l: Lookup)
    requires l.Valid() && 2 <= |l.solutions| < l.Count()
    ensures !Full(l)
  {
    hide ElementOf;
    var bits := seq(l.Count(), k requires 0 <= k < l.Count() => Holding(l.solutions, l.width, k));
    var k := NotAllMarked(bits, l.solutions, l.width);
    assert !Listed(l.solutions, l.width, k);
  }

  /** An element that is listed, or one that is not where there is one. */
  ghost function Pick(l: Lookup, listed: bool): (k: nat)
    requires l.Valid()
  {
    if l.solutions != [] && exists k: nat :: k < l.Count() && Listed(l.solutions, l.width, k) == listed then
      var k: nat :| k < l.Count() && Listed(l.solutions, l.width, k) == listed;
      k
    else 0
  }

  lemma SomeListed(l: Lookup)
    requires l.Valid() && l.solutions != [] && forall v :: v in l.solutions ==> v % l.width == 0
    ensures Pick(l, true) < l.Count() && Listed(l.solutions, l.width, Pick(l, true))
  {
    hide ElementOf;
    var v := l.solutions[0];
    assert v in l.solutions;
    DividedBelow(v, l.size, l.width);
    AlignedElement(v, l.width, 0);
    assert Listed(l.solutions, l.width, ElementOf(v, l.width));
  }

  lemma SomeUnlisted(l: Lookup)
    requires l.Valid() && !Full(l)
    ensures !Listed(l.solutions, l.width, Pick(l, false)) && (l.solutions != [] ==> Pick(l, false) < l.Count())
  {
    hide ElementOf;
  }

  ghost function Picks(ls: seq<Lookup>, wanted: seq<bool>): seq<nat>
    requires AllValid(ls) && |wanted| == |ls|
  {
    seq(|ls|, i requires 0 <= i < |ls| => Pick(ls[i], wanted[i]))
  }

  /** Elements can be chosen that are listed as wanted, but for arrays without a choice. */
  lemma Picked(ls: seq<Lookup>, wanted: seq<bool>)
    requires AllValid(ls) && AllAligned(ls) && |wanted| == |ls|
    requires forall i :: 0 <= i < |ls| ==> wanted[i] || !Full(ls[i])
    ensures var ks := Picks(ls, wanted);
            && InArrays(ls, ks)
            && forall i :: 0 <= i < |ls| ==>
                 (Listed(ls[i].solutions, ls[i].width, ks[i]) <==> wanted[i] && ls[i].solutions != [])
  {
    hide Full, Lookup.Valid, Pick, Listed;
    var ks := Picks(ls, wanted);
    forall i | 0 <= i < |ls|
      ensures ls[i].solutions != [] ==> ks[i] < ls[i].Count()
      ensures Listed(ls[i].solutions, ls[i].width, ks[i]) <==> wanted[i] && ls[i].solutions != []
    {
      if ls[i].solutions == [] {
        NothingTested(ls[i], false, ks[i]);
      } else if wanted[i] {
        SomeListed(ls[i]);
      } else {
        SomeUnlisted(ls[i]);
      }
    }
  }

  lemma WrongAt(ls: seq<Lookup>, ks: seq<nat>)
    requires AllValid(ls) && InArrays(ls, ks) && Outcome(ls, ks) != AnyListed(ls, ks)
    ensures !Right(ls)
  {
  }

  lemma HarmfulWrong(ls: seq<Lookup>)
    requires AllValid(ls) && AllAligned(ls) && !Harmless(ls)
    ensures !Right(ls)
  {
    hide Lookup.Valid, Flag, Right, AllAligned, Full, Inverted;
    if Flag(ls, |ls|) {
      var j := FlagSetter(ls, |ls|);
      InvertedTogether(ls, j);
    } else {
      var i :| 0 <= i < |ls| && Inverted(ls, i);
      var j := FlagSetter(ls, i + 1) by {
        assert Flag(ls, i + 1) by { InvertedFlag(ls, i); }
      }
      if exists i :: 0 <= i < |ls| && Full(ls[i]) {
        FullInverted(ls);
      } else {
        InvertedAlone(ls, j);
      }
    }
  }

  lemma InvertedFlag(ls: seq<Lookup>, i: nat)
    requires i < |ls| && AllValid(ls) && Inverted(ls, i)
    ensures Flag(ls, i + 1) && ls[i].solutions != []
  {
  }

  /** With the last flag set, an element outside the solutions of an inverted lookup hides a solution of
      another one. */
  lemma InvertedTogether(ls: seq<Lookup>, j: nat)
    requires AllValid(ls) && AllAligned(ls) && !Alone(ls) && Flag(ls, |ls|)
    requires j < |ls| && Inverted(ls, j) && !Full(ls[j])
    ensures !Right(ls)
  {
    hide Lookup.Valid, Flag, Right, AllAligned, Full, Inverted, Listed, Lookup.Tested;
    var wanted := seq(|ls|, i => i != j);
    var ks := Picks(ls, wanted);
    Picked(ls, wanted);
    TestedPlain(ls, j, ks[j]);
    assert ls[j].Tested(Flag(ls, j + 1), ks[j]);
    var i :| 0 <= i < |ls| && i != j && ls[i].solutions != [];
    assert Listed(ls[i].solutions, ls[i].width, ks[i]);
    WrongAt(ls, ks);
  }

  /** Without it, such an element is taken for a solution. */
  lemma InvertedAlone(ls: seq<Lookup>, j: nat)
    requires AllValid(ls) && AllAligned(ls) && !Flag(ls, |ls|) && j < |ls| && Inverted(ls, j)
    requires forall i :: 0 <= i < |ls| ==> !Full(ls[i])
    ensures !Right(ls)
  {
    hide Lookup.Valid, Flag, Right, AllAligned, Full, Inverted, Listed, Lookup.Tested;
    var wanted := seq(|ls|, _ => false);
    var ks := Picks(ls, wanted);
    Picked(ls, wanted);
    TestedPlain(ls, j, ks[j]);
    assert ls[j].Tested(Flag(ls, j + 1), ks[j]);
    WrongAt(ls, ks);
  }

  /** Nor is a solution found where all elements are solutions and the lookup is inverted. */
  lemma FullInverted(ls: seq<Lookup>)
    requires AllValid(ls) && AllAligned(ls) && !Flag(ls, |ls|)
    requires forall i :: 0 <= i < |ls| && Full(ls[i]) ==> Inverted(ls, i)
    requires exists i :: 0 <= i < |ls| && Full(ls[i])
    ensures !Right(ls)
  {
    hide Lookup.Valid, Flag, Right, AllAligned, Full, Inverted, Listed, Lookup.Tested;
    var wanted := seq(|ls|, i requires 0 <= i < |ls| => Inverted(ls, i));
    var ks := Picks(ls, wanted);
    Picked(ls, wanted);
    forall i | 0 <= i < |ls|
      ensures !ls[i].Tested(Flag(ls, i + 1), ks[i])
    {
      TestedPlain(ls, i, ks[i]);
      if Inverted(ls, i) {
        InvertedFlag(ls, i);
      }
    }
    var i :| 0 <= i < |ls| && Full(ls[i]);
    InvertedFlag(ls, i);
    assert Listed(ls[i].solutions, ls[i].width, ks[i]);
    WrongAt(ls, ks);
  }

  /** Two arrays of three elements, with the solutions 0 and 1 for the one and 2 for the other: both read at their
      element 2, the second index is a solution and the rewritten condition does not hold. */
  lemma SolutionHidden()
    ensures
      var ls := [Lookup(Read("x", 0), [0, 1], 3, 1), Lookup(Read("y", 0), [2], 3, 1)];
      AllValid(ls) && AllAligned(ls) && InArrays(ls, [2, 2]) && AnyListed(ls, [2, 2]) && !Outcome(ls, [2, 2])
  {
    var ls := [Lookup(Read("x", 0), [0, 1], 3, 1), Lookup(Read("y", 0), [2], 3, 1)];
    assert Pow2(8) == 256;
    assert AllValid(ls);
    assert Flag(ls, 0) == false && Flag(ls, 1) && Flag(ls, 2);
    assert !Holding([0, 1], 1, 2);
    assert ls[0].Tested(Flag(ls, 1), 2);
    assert Listed(ls[1].solutions, 1, 2);
  }
}
