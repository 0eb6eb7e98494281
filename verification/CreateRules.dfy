/** Rules by which the `create` functions of KLEE replace a term by another one.  Each of them is what the
    constraint manager asks of rebuilding: same width, same value under every assignment, and no more weight. */
module CreateRules {
  import opened BitVectors
  import opened Expr
  import opened Constraints
  import opened IndexTerms

  /** `Expr::createIsZero` of a condition. */
  function Negation(e: Expr): Expr {
    Bin(Eq, False, e)
  }

  lemma NegationMeaning(e: Expr, env: Env)
    requires Condition(e)
    ensures Condition(Negation(e)) && (Holds(Negation(e), env) <==> !Holds(e, env))
  {
    ComparisonMeaning(Eq, False, e, env);
    SingleBit(Eval(e, env));
    SingleBit(FALSE);
  }

  /** Conditions that hold under the same assignments. */
  ghost predicate SameTruth(e: Expr, e': Expr)
    requires Condition(e) && Condition(e')
  {
    forall env: Env :: Holds(e, env) <==> Holds(e', env)
  }

  lemma SameTruthFolds(e: Expr, e': Expr)
    requires Condition(e) && Condition(e') && SameTruth(e, e') && Weight(e') <= Weight(e)
    ensures Folds(e, e')
  {
    forall env: Env
      ensures Eval(e, env) == Eval(e', env)
    {
      assert Holds(e, env) <==> Holds(e', env);
      SingleBit(Eval(e, env));
      SingleBit(Eval(e', env));
    }
  }

  lemma FoldsTransitive(e: Expr, e': Expr, e'': Expr)
    requires WellFormed(e) && Folds(e, e') && Folds(e', e'')
    ensures Folds(e, e'')
  {
    hide Eval, WellFormed, Width, Weight;
    forall env: Env
      ensures Eval(e, env) == Eval(e'', env)
    {
      assert Eval(e, env) == Eval(e', env);
      assert Eval(e', env) == Eval(e'', env);
    }
  }

  lemma NegationCondition(e: Expr)
    requires Condition(e)
    ensures Condition(Negation(e))
  {
  }

  // ----- Equalities and disequalities -----

  lemma NotOr(a: Expr, b: Expr)
    requires Condition(a) && Condition(b)
    ensures Condition(Bin(Or, a, b)) && Condition(Negation(Bin(Or, a, b)))
    ensures Folds(Negation(Bin(Or, a, b)), Bin(And, Negation(a), Negation(b)))
  {
    hide Eval;
    var e, e' := Negation(Bin(Or, a, b)), Bin(And, Negation(a), Negation(b));
    NegationCondition(a);
    NegationCondition(b);
    NegationCondition(Bin(Or, a, b));
    forall env: Env
      ensures Holds(e, env) <==> Holds(e', env)
    {
      OrMeaning(a, b, env);
      NegationMeaning(Bin(Or, a, b), env);
      NegationMeaning(a, env);
      NegationMeaning(b, env);
      AndMeaning(Negation(a), Negation(b), env);
    }
    SameTruthFolds(e, e');
  }

  lemma NotNot(a: Expr)
    requires Condition(a)
    ensures Condition(Negation(Negation(a))) && Folds(Negation(Negation(a)), a)
  {
    hide Eval;
    NegationCondition(a);
    NegationCondition(Negation(a));
    forall env: Env
      ensures Holds(Negation(Negation(a)), env) <==> Holds(a, env)
    {
      NegationMeaning(a, env);
      NegationMeaning(Negation(a), env);
    }
    SameTruthFolds(Negation(Negation(a)), a);
  }

  lemma NotEqualMeans(a: Bits, b: Bits)
    ensures Compare(Ne, a, b) == !Compare(Eq, a, b) && Compare(Uge, a, b) == Compare(Ule, b, a)
  {
    hide ToNat;
  }

  lemma NotEqual(l: Expr, r: Expr)
    requires WellFormed(l) && WellFormed(r) && Width(l) == Width(r)
    ensures Condition(Bin(Ne, l, r)) && Folds(Bin(Ne, l, r), Negation(Bin(Eq, l, r)))
  {
    hide Eval, WellFormed, Width, Compare;
    var e, e' := Bin(Ne, l, r), Negation(Bin(Eq, l, r));
    var some: Env := (_, _) => 0;
    ComparisonMeaning(Ne, l, r, some);
    ComparisonMeaning(Eq, l, r, some);
    NegationMeaning(Bin(Eq, l, r), some);
    forall env: Env
      ensures Holds(e, env) <==> Holds(e', env)
    {
      NotEqualMeans(Eval(l, env), Eval(r, env));
      ComparisonMeaning(Ne, l, r, env);
      ComparisonMeaning(Eq, l, r, env);
      NegationMeaning(Bin(Eq, l, r), env);
    }
    SameTruthFolds(e, e');
  }

  lemma AtLeast(l: Expr, r: Expr)
    requires WellFormed(l) && WellFormed(r) && Width(l) == Width(r)
    ensures Condition(Bin(Uge, l, r)) && Folds(Bin(Uge, l, r), Bin(Ule, r, l))
  {
    hide Eval, WellFormed, Width, Compare;
    var e, e' := Bin(Uge, l, r), Bin(Ule, r, l);
    var some: Env := (_, _) => 0;
    ComparisonMeaning(Uge, l, r, some);
    ComparisonMeaning(Ule, r, l, some);
    forall env: Env
      ensures Holds(e, env) <==> Holds(e', env)
    {
      NotEqualMeans(Eval(l, env), Eval(r, env));
      ComparisonMeaning(Uge, l, r, env);
      ComparisonMeaning(Ule, r, l, env);
    }
    SameTruthFolds(e, e');
  }

  // ----- Selections between conditions -----

  lemma SelectHolds(c: Expr, t: Expr, f: Expr, env: Env)
    requires Condition(c) && Condition(t) && Condition(f)
    ensures Condition(Select(c, t, f))
    ensures Holds(Select(c, t, f), env) <==> if Holds(c, env) then Holds(t, env) else Holds(f, env)
  {
  }

  lemma ConstantsHold(env: Env)
    ensures Condition(True) && Condition(False) && Holds(True, env) && !Holds(False, env)
  {
    SingleBit(FALSE);
  }

  lemma ConstantConditions()
    ensures Condition(True) && Condition(False)
  {
  }

  /** A selection of which one arm is constant is a connective. */
  lemma SelectTrue(c: Expr, a: Expr)
    requires Condition(c) && Condition(a)
    ensures Condition(Select(c, True, a)) && Folds(Select(c, True, a), Bin(Or, c, a))
  {
    hide Eval;
    var e, e' := Select(c, True, a), Bin(Or, c, a);
    ConstantConditions();
    forall env: Env
      ensures Holds(e, env) <==> Holds(e', env)
    {
      ConstantsHold(env);
      SelectHolds(c, True, a, env);
      OrMeaning(c, a, env);
    }
    SameTruthFolds(e, e');
  }

  lemma SelectFalse(c: Expr, a: Expr)
    requires Condition(c) && Condition(a)
    ensures Condition(Select(c, False, a)) && Folds(Select(c, False, a), Bin(And, Negation(c), a))
  {
    hide Eval;
    var e, e' := Select(c, False, a), Bin(And, Negation(c), a);
    ConstantConditions();
    NegationCondition(c);
    forall env: Env
      ensures Holds(e, env) <==> Holds(e', env)
    {
      ConstantsHold(env);
      NegationMeaning(c, env);
      SelectHolds(c, False, a, env);
      AndMeaning(Negation(c), a, env);
    }
    SameTruthFolds(e, e');
  }

  lemma SelectElseTrue(c: Expr, a: Expr)
    requires Condition(c) && Condition(a)
    ensures Condition(Select(c, a, True)) && Folds(Select(c, a, True), Bin(Or, Negation(c), a))
  {
    hide Eval;
    var e, e' := Select(c, a, True), Bin(Or, Negation(c), a);
    ConstantConditions();
    NegationCondition(c);
    forall env: Env
      ensures Holds(e, env) <==> Holds(e', env)
    {
      ConstantsHold(env);
      NegationMeaning(c, env);
      SelectHolds(c, a, True, env);
      OrMeaning(Negation(c), a, env);
    }
    SameTruthFolds(e, e');
  }

  lemma SelectElseFalse(c: Expr, a: Expr)
    requires Condition(c) && Condition(a)
    ensures Condition(Select(c, a, False)) && Folds(Select(c, a, False), Bin(And, c, a))
  {
    hide Eval;
    var e, e' := Select(c, a, False), Bin(And, c, a);
    ConstantConditions();
    forall env: Env
      ensures Holds(e, env) <==> Holds(e', env)
    {
      ConstantsHold(env);
      SelectHolds(c, a, False, env);
      AndMeaning(c, a, env);
    }
    SameTruthFolds(e, e');
  }

  // ----- Comparisons of conditions -----

  lemma BitValues(b: Bits)
    requires |b| == 1
    ensures ToNat(b) == (if b == TRUE then 1 else 0) && ToInt(b) == if b == TRUE then -1 else 0
  {
    SingleBit(b);
    assert b[1..] == [];
    assert Pow2(1) == 2;
  }

  /** Comparisons of width one are connectives. */
  lemma UltConditions(l: Expr, r: Expr)
    requires Condition(l) && Condition(r)
    ensures Condition(Bin(Ult, l, r)) && Folds(Bin(Ult, l, r), Bin(And, Negation(l), r))
  {
    hide Eval, ToNat, ToInt;
    var e, e' := Bin(Ult, l, r), Bin(And, Negation(l), r);
    NegationCondition(l);
    forall env: Env
      ensures Holds(e, env) <==> Holds(e', env)
    {
      BitValues(Eval(l, env));
      BitValues(Eval(r, env));
      ComparisonMeaning(Ult, l, r, env);
      NegationMeaning(l, env);
      AndMeaning(Negation(l), r, env);
    }
    SameTruthFolds(e, e');
  }

  lemma UleConditions(l: Expr, r: Expr)
    requires Condition(l) && Condition(r)
    ensures Condition(Bin(Ule, l, r)) && Folds(Bin(Ule, l, r), Bin(Or, Negation(l), r))
  {
    hide Eval, ToNat, ToInt;
    var e, e' := Bin(Ule, l, r), Bin(Or, Negation(l), r);
    NegationCondition(l);
    forall env: Env
      ensures Holds(e, env) <==> Holds(e', env)
    {
      BitValues(Eval(l, env));
      BitValues(Eval(r, env));
      ComparisonMeaning(Ule, l, r, env);
      NegationMeaning(l, env);
      OrMeaning(Negation(l), r, env);
    }
    SameTruthFolds(e, e');
  }

  lemma SltConditions(l: Expr, r: Expr)
    requires Condition(l) && Condition(r)
    ensures Condition(Bin(Slt, l, r)) && Folds(Bin(Slt, l, r), Bin(And, l, Negation(r)))
  {
    hide Eval, ToNat, ToInt;
    var e, e' := Bin(Slt, l, r), Bin(And, l, Negation(r));
    NegationCondition(r);
    forall env: Env
      ensures Holds(e, env) <==> Holds(e', env)
    {
      BitValues(Eval(l, env));
      BitValues(Eval(r, env));
      ComparisonMeaning(Slt, l, r, env);
      NegationMeaning(r, env);
      AndMeaning(l, Negation(r), env);
    }
    SameTruthFolds(e, e');
  }

  lemma SgeConditions(l: Expr, r: Expr)
    requires Condition(l) && Condition(r)
    ensures Condition(Bin(Sge, l, r)) && Folds(Bin(Sge, l, r), Bin(Or, r, Negation(l)))
  {
    hide Eval, ToNat, ToInt;
    var e, e' := Bin(Sge, l, r), Bin(Or, r, Negation(l));
    NegationCondition(l);
    forall env: Env
      ensures Holds(e, env) <==> Holds(e', env)
    {
      BitValues(Eval(l, env));
      BitValues(Eval(r, env));
      ComparisonMeaning(Sge, l, r, env);
      NegationMeaning(l, env);
      OrMeaning(r, Negation(l), env);
    }
    SameTruthFolds(e, e');
  }

  lemma BitShifted(op: BinOp, a: Bits, b: Bits)
    requires (op.Shl? || op.LShr?) && |a| == 1 && |b| == 1
    ensures Apply(op, a, b) == Bool(a == TRUE && b != TRUE)
  {
    BitValues(a);
    BitValues(b);
    assert Pow2(0) == 1 && Pow2(1) == 2;
    var r := Apply(op, a, b);
    SingleBit(r);
    SingleBit(a);
    BitValues(r);
  }

  /** So are logical shifts. */
  lemma ShiftConditions(op: BinOp, l: Expr, r: Expr)
    requires Condition(l) && Condition(r) && (op.Shl? || op.LShr?)
    ensures Condition(Bin(op, l, r)) && Folds(Bin(op, l, r), Bin(And, l, Negation(r)))
  {
    hide Eval, ToNat, ToInt, Apply;
    var e, e' := Bin(op, l, r), Bin(And, l, Negation(r));
    NegationCondition(r);
    forall env: Env
      ensures Holds(e, env) <==> Holds(e', env)
    {
      assert Eval(e, env) == Apply(op, Eval(l, env), Eval(r, env)) by { BinValue(op, l, r, env); }
      BitShifted(op, Eval(l, env), Eval(r, env));
      BoolIsTrue(Eval(l, env) == TRUE && Eval(r, env) != TRUE);
      NegationMeaning(r, env);
      AndMeaning(l, Negation(r), env);
    }
    SameTruthFolds(e, e');
  }

  lemma BinValue(op: BinOp, l: Expr, r: Expr, env: Env)
    requires WellFormed(Bin(op, l, r))
    ensures Eval(Bin(op, l, r), env) == Apply(op, Eval(l, env), Eval(r, env))
  {
  }

  // ----- Extractions -----

  function Part(b: Bits, off: nat, w: nat): Bits
    requires off + w <= |b|
  {
    b[off..off + w]
  }

  lemma ExtractValue(e: Expr, off: nat, w: nat, env: Env)
    requires WellFormed(e) && w > 0 && off + w <= Width(e)
    ensures WellFormed(Un(Extract(off, w), e)) && Width(Un(Extract(off, w), e)) == w
    ensures Eval(Un(Extract(off, w), e), env) == Part(Eval(e, env), off, w)
  {
  }

  lemma ConcatValue(high: Expr, low: Expr, env: Env)
    requires WellFormed(high) && WellFormed(low)
    ensures WellFormed(Bin(Concat, high, low)) && Width(Bin(Concat, high, low)) == Width(high) + Width(low)
    ensures Eval(Bin(Concat, high, low), env) == Eval(low, env) + Eval(high, env)
  {
  }

  /** An extraction across the two parts of a concatenation is one of the extractions from both. */
  function AcrossTerms(high: Expr, low: Expr, off: nat, w: nat): (Expr, Expr)
    requires WellFormed(high) && WellFormed(low) && off < Width(low) < off + w <= Width(high) + Width(low)
  {
    var m, n := w - Width(low) + off, Width(low) - off;
    (Un(Extract(off, w), Bin(Concat, high, low)), Bin(Concat, Un(Extract(0, m), high), Un(Extract(off, n), low)))
  }

  lemma ExtractAcrossAt(high: Expr, low: Expr, off: nat, w: nat, env: Env)
    requires WellFormed(high) && WellFormed(low) && off < Width(low) < off + w <= Width(high) + Width(low)
    ensures
      var (e, e') := AcrossTerms(high, low, off, w);
      SameShape(e, e') && Eval(e, env) == Eval(e', env)
  {
    hide Eval, WellFormed, Width, Part;
    ConcatValue(high, low, env);
    ExtractValue(Bin(Concat, high, low), off, w, env);
    BothParts(high, low, off, w - Width(low) + off, Width(low) - off, env);
    AcrossValue(Eval(high, env), Eval(low, env), off, w);
  }

  lemma BothParts(high: Expr, low: Expr, off: nat, m: nat, n: nat, env: Env)
    requires WellFormed(high) && WellFormed(low) && 0 < m <= Width(high) && 0 < n && off + n <= Width(low)
    ensures
      var e := Bin(Concat, Un(Extract(0, m), high), Un(Extract(off, n), low));
      WellFormed(e) && Width(e) == m + n && Eval(e, env) == Part(Eval(low, env), off, n) + Part(Eval(high, env), 0, m)
  {
    hide Eval, WellFormed, Width, Part;
    ExtractValue(high, 0, m, env);
    ExtractValue(low, off, n, env);
    ConcatValue(Un(Extract(0, m), high), Un(Extract(off, n), low), env);
  }

  lemma ExtractAcross(high: Expr, low: Expr, off: nat, w: nat)
    requires WellFormed(high) && WellFormed(low) && off < Width(low) < off + w <= Width(high) + Width(low)
    ensures
      var (e, e') := AcrossTerms(high, low, off, w);
      WellFormed(e) && Folds(e, e')
  {
    hide Eval, WellFormed, Width, AcrossTerms;
    var (e, e') := AcrossTerms(high, low, off, w);
    ExtractAcrossAt(high, low, off, w, (_, _) => 0);
    forall env: Env
      ensures Eval(e, env) == Eval(e', env)
    {
      ExtractAcrossAt(high, low, off, w, env);
    }
    AcrossWeight(high, low, off, w);
    SameValueFolds(e, e');
  }

  lemma AcrossWeight(high: Expr, low: Expr, off: nat, w: nat)
    requires WellFormed(high) && WellFormed(low) && off < Width(low) < off + w <= Width(high) + Width(low)
    ensures Weight(AcrossTerms(high, low, off, w).1) <= Weight(AcrossTerms(high, low, off, w).0)
  {
    hide Width, WellFormed;
  }

  lemma SameValueFolds(e: Expr, e': Expr)
    requires SameShape(e, e') && (forall env: Env :: Eval(e, env) == Eval(e', env)) && Weight(e') <= Weight(e)
    ensures WellFormed(e) && Folds(e, e')
  {
    hide Eval, Width, Weight;
  }

  lemma AcrossValue(high: Bits, low: Bits, off: nat, w: nat)
    requires off < |low| < off + w <= |high| + |low|
    ensures Part(low + high, off, w) == Part(low, off, |low| - off) + Part(high, 0, w - |low| + off)
  {
  }

  /** An extraction from one part of a concatenation. */
  function HighTerms(high: Expr, low: Expr, off: nat, w: nat): (Expr, Expr)
    requires WellFormed(high) && WellFormed(low) && w > 0 && Width(low) <= off && off + w <= Width(high) + Width(low)
  {
    (Un(Extract(off, w), Bin(Concat, high, low)), Un(Extract(off - Width(low), w), high))
  }

  lemma ExtractHighAt(high: Expr, low: Expr, off: nat, w: nat, env: Env)
    requires WellFormed(high) && WellFormed(low) && w > 0 && Width(low) <= off && off + w <= Width(high) + Width(low)
    ensures
      var (e, e') := HighTerms(high, low, off, w);
      SameShape(e, e') && Eval(e, env) == Eval(e', env)
  {
    hide Eval, WellFormed, Width, Part;
    ConcatValue(high, low, env);
    ExtractValue(Bin(Concat, high, low), off, w, env);
    ExtractValue(high, off - Width(low), w, env);
    HighPart(Eval(high, env), Eval(low, env), off, w);
  }

  lemma ExtractHigh(high: Expr, low: Expr, off: nat, w: nat)
    requires WellFormed(high) && WellFormed(low) && w > 0 && Width(low) <= off && off + w <= Width(high) + Width(low)
    ensures
      var (e, e') := HighTerms(high, low, off, w);
      WellFormed(e) && Folds(e, e')
  {
    hide Eval, WellFormed, Width, HighTerms;
    var (e, e') := HighTerms(high, low, off, w);
    ExtractHighAt(high, low, off, w, (_, _) => 0);
    forall env: Env
      ensures Eval(e, env) == Eval(e', env)
    {
      ExtractHighAt(high, low, off, w, env);
    }
    HighWeight(high, low, off, w);
    SameValueFolds(e, e');
  }

  lemma HighWeight(high: Expr, low: Expr, off: nat, w: nat)
    requires WellFormed(high) && WellFormed(low) && w > 0 && Width(low) <= off && off + w <= Width(high) + Width(low)
    ensures Weight(HighTerms(high, low, off, w).1) <= Weight(HighTerms(high, low, off, w).0)
  {
    hide Width, WellFormed;
  }

  lemma HighPart(high: Bits, low: Bits, off: nat, w: nat)
    requires |low| <= off && off + w <= |high| + |low|
    ensures Part(low + high, off, w) == Part(high, off - |low|, w)
  {
  }

  function LowTerms(high: Expr, low: Expr, off: nat, w: nat): (Expr, Expr)
    requires WellFormed(high) && WellFormed(low) && w > 0 && off + w <= Width(low)
  {
    (Un(Extract(off, w), Bin(Concat, high, low)), Un(Extract(off, w), low))
  }

  lemma ExtractLowAt(high: Expr, low: Expr, off: nat, w: nat, env: Env)
    requires WellFormed(high) && WellFormed(low) && w > 0 && off + w <= Width(low)
    ensures
      var (e, e') := LowTerms(high, low, off, w);
      SameShape(e, e') && Eval(e, env) == Eval(e', env)
  {
    hide Eval, WellFormed, Width, Part;
    ConcatValue(high, low, env);
    ExtractValue(Bin(Concat, high, low), off, w, env);
    ExtractValue(low, off, w, env);
    LowPart(Eval(high, env), Eval(low, env), off, w);
  }

  lemma ExtractLow(high: Expr, low: Expr, off: nat, w: nat)
    requires WellFormed(high) && WellFormed(low) && w > 0 && off + w <= Width(low)
    ensures
      var (e, e') := LowTerms(high, low, off, w);
      WellFormed(e) && Folds(e, e')
  {
    hide Eval, WellFormed, Width, LowTerms;
    var (e, e') := LowTerms(high, low, off, w);
    ExtractLowAt(high, low, off, w, (_, _) => 0);
    forall env: Env
      ensures Eval(e, env) == Eval(e', env)
    {
      ExtractLowAt(high, low, off, w, env);
    }
    LowWeight(high, low, off, w);
    SameValueFolds(e, e');
  }

  lemma LowWeight(high: Expr, low: Expr, off: nat, w: nat)
    requires WellFormed(high) && WellFormed(low) && w > 0 && off + w <= Width(low)
    ensures Weight(LowTerms(high, low, off, w).1) <= Weight(LowTerms(high, low, off, w).0)
  {
    hide Width, WellFormed;
  }

  lemma LowPart(high: Bits, low: Bits, off: nat, w: nat)
    requires off + w <= |low|
    ensures Part(low + high, off, w) == Part(low, off, w)
  {
  }
}
