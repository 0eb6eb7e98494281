/** The terms that both array optimizations build over an index: comparisons with constants and
    boolean connectives, with what each of them tests. */
module IndexTerms {
  import opened BitVectors
  import opened Expr

  /** `ConstantExpr` of a number, truncated to the width. */
  function Num(n: nat, w: nat): Expr {
    Const(FromNat(n, w))
  }

  lemma NumWide(n: nat, w: nat, env: Env)
    requires w > 0
    ensures WellFormed(Num(n, w)) && Width(Num(n, w)) == w && Eval(Num(n, w), env) == FromNat(n, w)
  {
  }

  lemma BoolIsTrue(b: bool)
    ensures Bool(b) == TRUE <==> b
  {
    assert Bool(b)[0] == b && TRUE[0];
  }

  lemma ComparisonMeaning(op: BinOp, l: Expr, r: Expr, env: Env)
    requires op.Comparison() && WellFormed(l) && WellFormed(r) && Width(l) == Width(r)
    ensures Condition(Bin(op, l, r))
    ensures Holds(Bin(op, l, r), env) <==> Compare(op, Eval(l, env), Eval(r, env))
  {
    hide Compare;
    BoolIsTrue(Compare(op, Eval(l, env), Eval(r, env)));
  }

  lemma SingleBit(b: Bits)
    requires |b| == 1
    ensures b == Bool(b[0]) && (b == TRUE <==> b[0])
  {
    BoolIsTrue(b[0]);
  }

  lemma AndMeaning(l: Expr, r: Expr, env: Env)
    requires Condition(l) && Condition(r)
    ensures Condition(Bin(And, l, r))
    ensures Holds(Bin(And, l, r), env) <==> Holds(l, env) && Holds(r, env)
  {
    SingleBit(Eval(l, env));
    SingleBit(Eval(r, env));
    SingleBit(Eval(Bin(And, l, r), env));
  }

  lemma OrMeaning(l: Expr, r: Expr, env: Env)
    requires Condition(l) && Condition(r)
    ensures Condition(Bin(Or, l, r))
    ensures Holds(Bin(Or, l, r), env) <==> Holds(l, env) || Holds(r, env)
  {
    SingleBit(Eval(l, env));
    SingleBit(Eval(r, env));
    SingleBit(Eval(Bin(Or, l, r), env));
  }

  lemma NotMeaning(e: Expr, env: Env)
    requires Condition(e)
    ensures Condition(Un(Not, e)) && (Holds(Un(Not, e), env) <==> !Holds(e, env))
  {
    SingleBit(Eval(e, env));
    SingleBit(Eval(Un(Not, e), env));
  }

  /** A number that fits is what its constant denotes. */
  lemma NumValue(n: nat, w: nat)
    requires n < Pow2(w)
    ensures ToNat(FromNat(n, w)) == n
  {
    ToFromNat(n, w);
    DivModUnique(n, Pow2(w), 0, n);
  }

  /** Below half of the range, the signed reading is the unsigned one. */
  lemma SignedIsUnsigned(b: Bits)
    requires b != [] && ToNat(b) < Pow2(|b| - 1)
    ensures ToInt(b) == ToNat(b)
  {
    NegativeIff(b);
  }

  /** From half of the range on, the signed reading is negative; the range's end reads as zero. */
  lemma SignedWraps(n: nat, w: nat)
    requires w > 0 && Pow2(w - 1) <= n <= Pow2(w)
    ensures ToInt(FromNat(n, w)) <= 0
  {
    var b := FromNat(n, w);
    ToFromNat(n, w);
    ToNatBound(b);
    NegativeIff(b);
    if n < Pow2(w) {
      DivModUnique(n, Pow2(w), 0, n);
    } else {
      DivModUnique(n, Pow2(w), 1, 0);
    }
  }
}
