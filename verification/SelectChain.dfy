/** `ExprOptimizer::buildConstantSelectExpr`: a read from a constant array at a symbolic index,
    replaced by a chain of selects over the runs of equal values. */
module SelectChain {
  import opened BitVectors
  import opened Expr
  import opened IndexTerms

  /** The indices from `lo` to below `hi`, all of one value. */
  datatype Run = Run(lo: nat, hi: nat, value: nat)

  // ----- The runs of an array -----

  /** The maximal runs of the first `c` elements. */
  function Runs(a: seq<nat>, c: nat): seq<Run>
    requires c <= |a|
  {
    if c == 0 then []
    else
      var p := Runs(a, c - 1);
      if p != [] && p[|p| - 1].value == a[c - 1] then p[..|p| - 1] + [p[|p| - 1].(hi := c)]
      else p + [Run(c - 1, c, a[c - 1])]
  }

  /** The run is a range of the first `c` indices, and the array has its value there. */
  ghost predicate RunOf(r: Run, a: seq<nat>, c: nat)
    requires c <= |a|
  {
    r.lo < r.hi <= c && forall j :: r.lo <= j < r.hi ==> a[j] == r.value
  }

  lemma {:induction false} RunsAreRuns(a: seq<nat>, c: nat)
    requires c <= |a|
    ensures forall r :: r in Runs(a, c) ==> RunOf(r, a, c)
    ensures c > 0 ==> Runs(a, c) != [] && Runs(a, c)[|Runs(a, c)| - 1].hi == c
  {
    if c > 0 {
      RunsAreRuns(a, c - 1);
      var p := Runs(a, c - 1);
      assert forall r :: r in p ==> RunOf(r, a, c);
      if p != [] && p[|p| - 1].value == a[c - 1] {
        var last := p[|p| - 1];
        assert RunOf(last, a, c - 1);
        assert RunOf(last.(hi := c), a, c);
        assert forall r :: r in p[..|p| - 1] ==> r in p;
      } else {
        assert RunOf(Run(c - 1, c, a[c - 1]), a, c);
      }
    }
  }

  lemma {:induction false} RunsCover(a: seq<nat>, c: nat, i: nat)
    requires i < c <= |a|
    ensures exists r :: r in Runs(a, c) && r.lo <= i < r.hi
  {
    RunsAreRuns(a, c);
    RunsAreRuns(a, c - 1);
    var p, q := Runs(a, c - 1), Runs(a, c);
    if i == c - 1 {
      var last := q[|q| - 1];
      assert last in q && RunOf(last, a, c);
      assert p != [] ==> p[|p| - 1] in p && RunOf(p[|p| - 1], a, c - 1);
    } else {
      RunsCover(a, c - 1, i);
      var r :| r in p && r.lo <= i < r.hi;
      if r !in q {
        assert r == p[|p| - 1];
        assert r.(hi := c) in q;
      }
    }
  }

  /** The runs of one value, in sequence: an entry of `exprMap`. */
  function OfValue(rs: seq<Run>, v: nat): seq<Run> {
    if rs == [] then []
    else OfValue(rs[..|rs| - 1], v) + if rs[|rs| - 1].value == v then [rs[|rs| - 1]] else []
  }

  lemma {:induction false} OfValueHas(rs: seq<Run>, v: nat)
    ensures forall r :: r in OfValue(rs, v) <==> r in rs && r.value == v
  {
    if rs != [] {
      OfValueHas(rs[..|rs| - 1], v);
      assert rs == rs[..|rs| - 1] + [rs[|rs| - 1]];
    }
  }

  function Values(rs: seq<Run>): set<nat> {
    set r | r in rs :: r.value
  }

  function Elements(s: seq<nat>): set<nat> {
    set v | v in s
  }

  /** The values counted against the ratio.  The last element is left out, unless it is the only one. */
  function Unique(a: seq<nat>, n: nat): set<nat>
    requires n <= |a|
  {
    if n == 0 then {} else Elements(a[..1] + a[..n - 1])
  }

  lemma NoneUnique(a: seq<nat>)
    ensures Unique(a, 0) == {}
  {
  }

  lemma OneMoreUnique(a: seq<nat>, i: nat)
    requires i < |a|
    ensures Unique(a, i + 1) == Unique(a, i) + {a[if i == 0 then 0 else i - 1]}
  {
    if i > 0 {
      assert a[..1] + a[..i] == a[..1] + a[..i - 1] + [a[i - 1]];
    }
  }

  lemma FirstRun(a: seq<nat>)
    requires a != []
    ensures Runs(a, 1) == [Run(0, 1, a[0])]
  {
    assert Runs(a, 0) == [];
  }

  lemma NextRun(a: seq<nat>, i: nat, ranges: seq<Run>, last: Run)
    requires i < |a| && Runs(a, i) == ranges + [last]
    ensures Runs(a, i + 1) ==
      if a[i] == last.value then ranges + [last.(hi := i + 1)] else ranges + [last] + [Run(i, i + 1, a[i])]
  {
  }

  /** The ranges of repeated values. */
  method FindRuns(a: seq<nat>, n: nat) returns (ranges: seq<Run>, unique: set<nat>)
    requires 0 < n <= |a|
    ensures ranges == Runs(a, n) && unique == Unique(a, n)
  {
    hide Unique, Runs;
    ranges, unique := [], {};
    NoneUnique(a);
    var currIdx, currVal := 0, a[0];
    for i := 0 to n
      invariant unique == Unique(a, i)
      invariant currVal == a[if i == 0 then 0 else i - 1]
      invariant i == 0 ==> ranges == [] && currIdx == 0
      invariant 0 < i < n ==> Runs(a, i) == ranges + [Run(currIdx, i, currVal)]
      invariant i == n ==> Runs(a, n) == ranges
    {
      var temp := a[i];
      unique := unique + {currVal};
      OneMoreUnique(a, i);
      if i == 0 {
        FirstRun(a);
      } else {
        NextRun(a, i, ranges, Run(currIdx, i, currVal));
      }
      if temp != currVal {
        ranges := ranges + [Run(currIdx, i, currVal)];
        currVal, currIdx := temp, i;
        if i == n - 1 {
          ranges := ranges + [Run(currIdx, i + 1, currVal)];
        }
      } else if i == n - 1 {
        ranges := ranges + [Run(currIdx, i + 1, currVal)];
      }
    }
  }

  /** `exprMap`: the runs grouped by value. */
  method Group(ranges: seq<Run>) returns (m: map<nat, seq<Run>>)
    ensures m.Keys == Values(ranges) && forall v :: v in m ==> m[v] == OfValue(ranges, v)
  {
    m := map[];
    for i := 0 to |ranges|
      invariant m.Keys == Values(ranges[..i]) && forall v :: v in m ==> m[v] == OfValue(ranges[..i], v)
    {
      var r := ranges[i];
      assert ranges[..i + 1] == ranges[..i] + [r] && ranges[..i + 1][..i] == ranges[..i];
      if r.value in m {
        m := m[r.value := m[r.value] + [r]];
      } else {
        OfValueNone(ranges[..i], r.value);
        m := m[r.value := [r]];
      }
    }
    assert ranges[..|ranges|] == ranges;
  }

  lemma {:induction false} OfValueNone(rs: seq<Run>, v: nat)
    requires v !in Values(rs)
    ensures OfValue(rs, v) == []
  {
    if rs != [] {
      OfValueNone(rs[..|rs| - 1], v);
      assert rs[|rs| - 1] in rs;
    }
  }

  // ----- The tests -----

  /** What the test of a run says of an index: the bounds are compared as signed numbers. */
  predicate Matches(x: Bits, r: Run) {
    if r.lo == r.hi - 1 then x == FromNat(r.lo, |x|)
    else ToInt(FromNat(r.lo, |x|)) <= ToInt(x) < ToInt(FromNat(r.hi, |x|))
  }

  predicate MatchesAny(x: Bits, rs: seq<Run>) {
    exists r :: r in rs && Matches(x, r)
  }

  function RangeTest(index: Expr, r: Run): Expr {
    var w := Width(index);
    if r.lo == r.hi - 1 then Bin(Eq, index, Num(r.lo, w))
    else Bin(And, Bin(Sge, index, Num(r.lo, w)), Bin(Slt, index, Num(r.hi, w)))
  }

  lemma RangeTestMeaning(index: Expr, r: Run, env: Env)
    requires WellFormed(index) && Width(index) > 0
    ensures Condition(RangeTest(index, r))
    ensures Holds(RangeTest(index, r), env) <==> Matches(Eval(index, env), r)
  {
    hide FromNat, ToInt, ToNat, Eval, WellFormed, Width, Num;
    var w := Width(index);
    NumWide(r.lo, w, env);
    NumWide(r.hi, w, env);
    if r.lo == r.hi - 1 {
      ComparisonMeaning(Eq, index, Num(r.lo, w), env);
    } else {
      ComparisonMeaning(Sge, index, Num(r.lo, w), env);
      ComparisonMeaning(Slt, index, Num(r.hi, w), env);
      AndMeaning(Bin(Sge, index, Num(r.lo, w)), Bin(Slt, index, Num(r.hi, w)), env);
    }
  }

  ghost predicate Tests(t: Expr, index: Expr, rs: seq<Run>)
    requires WellFormed(index)
  {
    Condition(t) && forall env: Env :: Holds(t, env) <==> MatchesAny(Eval(index, env), rs)
  }

  lemma TestsOne(index: Expr, r: Run)
    requires WellFormed(index) && Width(index) > 0
    ensures Tests(RangeTest(index, r), index, [r])
  {
    hide Matches, RangeTest, Eval, WellFormed, Width;
    forall env: Env
      ensures Condition(RangeTest(index, r))
      ensures Holds(RangeTest(index, r), env) <==> MatchesAny(Eval(index, env), [r])
    {
      RangeTestMeaning(index, r, env);
      assert r in [r];
    }
    var env: Env := (_, _) => 0;
    RangeTestMeaning(index, r, env);
  }

  lemma TestsMore(t: Expr, index: Expr, rs: seq<Run>, r: Run)
    requires WellFormed(index) && Width(index) > 0 && Tests(t, index, rs)
    ensures Tests(Bin(Or, RangeTest(index, r), t), index, rs + [r])
  {
    hide Matches, RangeTest, Eval, WellFormed, Width;
    var s := RangeTest(index, r);
    forall env: Env
      ensures Condition(Bin(Or, s, t))
      ensures Holds(Bin(Or, s, t), env) <==> MatchesAny(Eval(index, env), rs + [r])
    {
      RangeTestMeaning(index, r, env);
      OrMeaning(s, t, env);
      var x := Eval(index, env);
      assert r in rs + [r] && forall q :: q in rs ==> q in rs + [r];
    }
    var env: Env := (_, _) => 0;
    RangeTestMeaning(index, r, env);
    OrMeaning(s, t, env);
  }

  /** The disjunction over the runs of one value. */
  method GroupTest(index: Expr, rs: seq<Run>) returns (t: Expr)
    requires WellFormed(index) && Width(index) > 0 && rs != []
    ensures Tests(t, index, rs)
  {
    hide Tests, RangeTest, Width, WellFormed;
    t := RangeTest(index, rs[0]);
    TestsOne(index, rs[0]);
    assert rs[..1] == [rs[0]];
    for i := 1 to |rs|
      invariant Tests(t, index, rs[..i])
    {
      TestsMore(t, index, rs[..i], rs[i]);
      assert rs[..i] + [rs[i]] == rs[..i + 1];
      t := Bin(Or, RangeTest(index, rs[i]), t);
    }
    assert rs[..|rs|] == rs;
  }

  // ----- The chain -----

  /** The value that a chain over the given values, from the inside out, gives for an index. */
  function Picked(keys: seq<nat>, rs: seq<Run>, x: Bits): nat
    requires keys != []
  {
    var v := keys[|keys| - 1];
    if |keys| == 1 || MatchesAny(x, OfValue(rs, v)) then v else Picked(keys[..|keys| - 1], rs, x)
  }

  ghost predicate Picks(e: Expr, index: Expr, keys: seq<nat>, rs: seq<Run>, width: nat)
    requires WellFormed(index) && keys != []
  {
    && WellFormed(e) && Width(e) == width
    && forall env: Env :: Eval(e, env) == FromNat(Picked(keys, rs, Eval(index, env)), width)
  }

  predicate Ascending(keys: seq<nat>) {
    forall i, j :: 0 <= i < j < |keys| ==> keys[i] < keys[j]
  }

  lemma PicksFirst(index: Expr, v: nat, rs: seq<Run>, width: nat)
    requires WellFormed(index) && width > 0
    ensures Picks(Num(v, width), index, [v], rs, width)
  {
  }

  lemma PicksNext(t: Expr, e: Expr, index: Expr, keys: seq<nat>, v: nat, rs: seq<Run>, width: nat)
    requires WellFormed(index) && width > 0 && keys != []
    requires Picks(e, index, keys, rs, width) && Tests(t, index, OfValue(rs, v))
    ensures Picks(Select(t, Num(v, width), e), index, keys + [v], rs, width)
  {
    hide MatchesAny, OfValue, FromNat;
    var keys' := keys + [v];
    assert keys'[..|keys'| - 1] == keys && keys'[|keys'| - 1] == v;
    var s := Select(t, Num(v, width), e);
    NumWide(v, width, (_, _) => 0);
    assert WellFormed(s) && Width(s) == width;
    forall env: Env
      ensures Eval(s, env) == FromNat(Picked(keys', rs, Eval(index, env)), width)
    {
      assert Holds(t, env) <==> MatchesAny(Eval(index, env), OfValue(rs, v));
      assert Eval(e, env) == FromNat(Picked(keys, rs, Eval(index, env)), width);
      NumWide(v, width, env);
    }
  }

  /** Values are taken in increasing sequence, and the least one is the innermost. */
  method BuildChain(index: Expr, m: map<nat, seq<Run>>, width: nat, ghost rs: seq<Run>)
    returns (e: Expr, ghost keys: seq<nat>)
    requires WellFormed(index) && Width(index) > 0 && width > 0 && m.Keys != {}
    requires forall v :: v in m ==> m[v] == OfValue(rs, v) && m[v] != []
    ensures keys != [] && Ascending(keys) && (forall v :: v in keys <==> v in m)
    ensures Picks(e, index, keys, rs, width)
  {
    hide Picks, Tests, OfValue, WellFormed, Width;
    var todo := m.Keys;
    var first := Least(todo);
    e, keys := Num(first, width), [first];
    todo := todo - {first};
    PicksFirst(index, first, rs, width);
    while todo != {}
      invariant keys != [] && Ascending(keys) && todo <= m.Keys
      invariant forall v :: v in m ==> (v in keys <==> v !in todo)
      invariant forall v :: v in keys ==> v in m
      invariant forall u, v :: u in keys && v in todo ==> u < v
      invariant Picks(e, index, keys, rs, width)
      decreases |todo|
    {
      var v := Least(todo);
      var t := GroupTest(index, m[v]);
      PicksNext(t, e, index, keys, v, rs, width);
      e := Select(t, Num(v, width), e);
      assert forall i :: 0 <= i < |keys| ==> keys[i] in keys;
      keys := keys + [v];
      todo := todo - {v};
    }
  }

  method Least(s: set<nat>) returns (k: nat)
    requires s != {}
    ensures k in s && forall v :: v in s ==> k <= v
  {
    k :| k in s;
    var todo := s - {k};
    while todo != {}
      invariant k in s && todo <= s && forall v :: v in s && v !in todo ==> k <= v
      decreases |todo|
    {
      var v :| v in todo;
      if v < k {
        k := v;
      }
      todo := todo - {v};
    }
  }

  // ----- The chain reads the array -----

  lemma MatchesIsWithin(x: Bits, r: Run, n: nat)
    requires x != [] && r.lo < r.hi <= n < Pow2(|x| - 1) && ToNat(x) < n
    ensures Matches(x, r) <==> r.lo <= ToNat(x) < r.hi
  {
    hide Pow2, ToNat, ToInt;
    Pow2Monotone(|x| - 1, |x|);
    NumValue(r.lo, |x|);
    NumValue(r.hi, |x|);
    SignedIsUnsigned(x);
    SignedIsUnsigned(FromNat(r.lo, |x|));
    SignedIsUnsigned(FromNat(r.hi, |x|));
    if ToNat(x) == r.lo {
      ToNatInjective(x, FromNat(r.lo, |x|));
    }
  }

  lemma MatchesItsValue(a: seq<nat>, n: nat, x: Bits, v: nat)
    requires n <= |a| && x != [] && n < Pow2(|x| - 1) && ToNat(x) < n
    ensures MatchesAny(x, OfValue(Runs(a, n), v)) <==> a[ToNat(x)] == v
  {
    hide Matches, OfValue, Runs;
    var rs := Runs(a, n);
    OfValueHas(rs, v);
    RunsAreRuns(a, n);
    forall r | r in rs
      ensures Matches(x, r) <==> r.lo <= ToNat(x) < r.hi
    {
      assert RunOf(r, a, n);
      MatchesIsWithin(x, r, n);
    }
    RunsCover(a, n, ToNat(x));
  }

  /** With fewer elements than half of the index range, the chain gives the element at every index of the
      array. */
  lemma {:induction false} PickedIsElement(a: seq<nat>, n: nat, x: Bits, keys: seq<nat>)
    requires n <= |a| && x != [] && n < Pow2(|x| - 1) && ToNat(x) < n && a[ToNat(x)] in keys
    ensures Picked(keys, Runs(a, n), x) == a[ToNat(x)]
  {
    var v := keys[|keys| - 1];
    MatchesItsValue(a, n, x, v);
    if |keys| > 1 && a[ToNat(x)] != v {
      PickedIsElement(a, n, x, keys[..|keys| - 1]);
    }
  }

  /** From half of the index range on that is no longer so: the end of the last run of such an array reads
      as a negative number, and the element at index one is missed. */
  lemma LargeArrayMissed(n: nat, w: nat, keys: seq<nat>)
    requires w >= 2 && n >= 3 && Pow2(w - 1) <= n <= Pow2(w)
    requires Ascending(keys) && forall v :: v in keys <==> v in Values(Runs(LargeArray(n), n))
    ensures keys == [0, 1] && Picked(keys, Runs(LargeArray(n), n), FromNat(1, w)) == 0 != LargeArray(n)[1]
  {
    hide Pow2, ToInt, FromNat, ToNat;
    LargeRuns(n, n);
    var rs := Runs(LargeArray(n), n);
    assert rs == [Run(0, 1, 0), Run(1, n, 1)];
    assert rs[0] in rs && rs[1] in rs;
    TwoKeys(keys);
    OfValueHas(rs, 1);
    var x := FromNat(1, w);
    SignedWraps(n, w);
    assert Pow2(1) <= Pow2(w - 1) by {
      Pow2Monotone(1, w - 1);
    }
    assert Pow2(1) == 2 by {
      Two();
    }
    Pow2Monotone(w - 1, w);
    NumValue(1, w);
    SignedIsUnsigned(x);
    assert !Matches(x, rs[1]);
    assert keys[..1] == [0];
  }

  lemma Two()
    ensures Pow2(1) == 2
  {
  }

  lemma TwoKeys(keys: seq<nat>)
    requires Ascending(keys) && forall v :: v in keys <==> v == 0 || v == 1
    ensures keys == [0, 1]
  {
    assert 0 in keys && 1 in keys;
    AscendingAtLeast(keys, |keys| - 1);
    assert keys[0] in keys && keys[|keys| - 1] in keys;
  }

  lemma {:induction false} AscendingAtLeast(keys: seq<nat>, k: nat)
    requires Ascending(keys) && k < |keys|
    ensures keys[k] >= k
  {
    if k > 0 {
      AscendingAtLeast(keys, k - 1);
    }
  }

  function LargeArray(n: nat): (a: seq<nat>)
    ensures |a| == n
  {
    seq(n, i => if i == 0 then 0 else 1)
  }

  lemma {:induction false} LargeRuns(n: nat, c: nat)
    requires 0 < c <= n
    ensures Runs(LargeArray(n), c) == if c == 1 then [Run(0, 1, 0)] else [Run(0, 1, 0), Run(1, c, 1)]
  {
    if c == 1 {
      assert Runs(LargeArray(n), 0) == [];
    } else {
      LargeRuns(n, c - 1);
    }
  }

  // ----- The whole optimization -----

  /** The index, cut to 32 bits. */
  function ActualIndex(index: Expr): Expr {
    if Width(index) > 32 then Un(Extract(0, 32), index) else index
  }

  lemma ActualIndexValue(index: Expr, env: Env)
    requires WellFormed(index) && Width(index) > 0
    ensures WellFormed(ActualIndex(index)) && 0 < Width(ActualIndex(index)) <= 32
    ensures ToNat(Eval(index, env)) < Pow2(Width(ActualIndex(index))) ==>
            ToNat(Eval(ActualIndex(index), env)) == ToNat(Eval(index, env))
  {
    hide ToNat, Pow2;
    if Width(index) > 32 {
      var b := Eval(index, env);
      ToNatSlice(b, 0, 32);
      assert Eval(ActualIndex(index), env) == b[0..32];
      assert Pow2(0) == 1 by {
        One();
      }
      if ToNat(b) < Pow2(32) {
        DivModUnique(ToNat(b), Pow2(32), 0, ToNat(b));
      }
    }
  }

  lemma One()
    ensures Pow2(0) == 1
  {
  }

  /** The chain, evaluated, is the element of the array at the index. */
  ghost predicate ReadsArray(e: Expr, index: Expr, a: seq<nat>, n: nat, width: nat)
    requires WellFormed(index) && n <= |a|
  {
    && WellFormed(e) && Width(e) == width
    && forall env: Env :: ToNat(Eval(index, env)) < n ==> Eval(e, env) == FromNat(a[ToNat(Eval(index, env))], width)
  }

  lemma ChainReadsArray(e: Expr, index: Expr, a: seq<nat>, n: nat, width: nat, keys: seq<nat>)
    requires WellFormed(index) && Width(index) > 0 && 0 < n <= |a| && n < Pow2(Width(ActualIndex(index)) - 1)
    requires keys != [] && (forall v :: v in keys <==> v in Values(Runs(a, n)))
    requires WellFormed(ActualIndex(index)) && Picks(e, ActualIndex(index), keys, Runs(a, n), width)
    ensures ReadsArray(e, index, a, n, width)
  {
    hide Pow2, ToNat, ActualIndex, Eval, FromNat, Runs, Picked, Width, WellFormed;
    forall env: Env | ToNat(Eval(index, env)) < n
      ensures Eval(e, env) == FromNat(a[ToNat(Eval(index, env))], width)
    {
      ActualIndexValue(index, env);
      var w := Width(ActualIndex(index));
      Pow2Monotone(w - 1, w);
      var i := ToNat(Eval(index, env));
      RunsCover(a, n, i);
      RunsAreRuns(a, n);
      var r :| r in Runs(a, n) && r.lo <= i < r.hi;
      assert RunOf(r, a, n);
      PickedIsElement(a, n, Eval(ActualIndex(index), env), keys);
    }
  }

  /** `buildConstantSelectExpr`: no expression if too many of the values are different, and otherwise one that
      reads the array at every index within it, if the array has less than half of the index range. */
  method BuildConstantSelect(index: Expr, a: seq<nat>, width: nat, n: nat, ratio: real)
    returns (r: Option<Expr>, ghost keys: seq<nat>)
    requires WellFormed(index) && Width(index) > 0 && width > 0 && 0 < n <= |a|
    ensures r.None? <==> |Unique(a, n)| as real / n as real >= ratio
    ensures r.Some? ==> Ascending(keys) && keys != [] && (forall v :: v in keys <==> v in Values(Runs(a, n)))
    ensures r.Some? ==> WellFormed(ActualIndex(index)) && Picks(r.value, ActualIndex(index), keys, Runs(a, n), width)
    ensures r.Some? && n < Pow2(Width(ActualIndex(index)) - 1) ==> ReadsArray(r.value, index, a, n, width)
  {
    hide Picks, ReadsArray, Ascending, Runs, Unique, Pow2, ActualIndex;
    keys := [];
    var ranges, unique := FindRuns(a, n);
    if |unique| as real / n as real >= ratio {
      return None, keys;
    }
    var m := Group(ranges);
    ActualIndexValue(index, (_, _) => 0);
    RunsCover(a, n, 0);
    forall v | v in m
      ensures m[v] != []
    {
      OfValueHas(ranges, v);
      var r0 :| r0 in ranges && r0.value == v;
      assert r0 in m[v];
    }
    var r0 :| r0 in ranges;
    assert r0.value in m;
    var e;
    e, keys := BuildChain(ActualIndex(index), m, width, ranges);
    if n < Pow2(Width(ActualIndex(index)) - 1) {
      ChainReadsArray(e, index, a, n, width, keys);
    }
    r := Some(e);
  }
}
