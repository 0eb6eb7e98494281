/** clover's concolic values: a constant paired with the expression it is an instance of. */
module Concolic {
  import opened BitVectors
  import opened Expr

  datatype Concolic = Concolic(concrete: Bits, symbolic: Option<Expr>)
  {
    predicate Valid() {
      concrete != [] && (symbolic.Some? ==> WellFormed(symbolic.value) && Width(symbolic.value) == |concrete|)
    }

    /** `symbolic.value_or(concrete)`. */
    function Term(): Expr {
      if symbolic.Some? then symbolic.value else Const(concrete)
    }

    /** The value under an assignment of the symbolic inputs. */
    function Meaning(env: Env): (r: Bits)
      requires Valid()
      ensures |r| == |concrete|
    {
      Eval(Term(), env)
    }

    /** The constant is the value under the assignment the run was started with. */
    predicate Instance(env: Env) {
      Valid() && Meaning(env) == concrete
    }

    predicate Concrete() {
      symbolic.None?
    }
  }

  function Constant(b: Bits): Concolic {
    Concolic(b, None)
  }

  /** The binary operators of `ConcolicValue`: symbolic as soon as one operand is. */
  function Binary(op: BinOp, a: Concolic, b: Concolic): (r: Concolic)
    requires a.Valid() && b.Valid() && BinaryFits(op, |a.concrete|, |b.concrete|)
    ensures r.Valid()
  {
    Concolic(Apply(op, a.concrete, b.concrete),
             if a.symbolic.Some? || b.symbolic.Some? then Some(Bin(op, a.Term(), b.Term())) else None)
  }

  function Unary(op: UnOp, a: Concolic): (r: Concolic)
    requires a.Valid() && UnaryFits(op, |a.concrete|) && UnaryWidth(op, |a.concrete|) > 0
    ensures r.Valid()
  {
    Concolic(ApplyUnary(op, a.concrete), if a.symbolic.Some? then Some(Un(op, a.symbolic.value)) else None)
  }

  /** `ConcolicValue::select`: with a constant condition the result is constant. */
  function SelectValue(c: Concolic, t: Concolic, f: Concolic): (r: Concolic)
    requires c.Valid() && t.Valid() && f.Valid() && |c.concrete| == 1 && |t.concrete| == |f.concrete|
    ensures r.Valid()
  {
    Concolic(if c.concrete == TRUE then t.concrete else f.concrete,
             if c.symbolic.Some? then Some(Select(c.symbolic.value, t.Term(), f.Term())) else None)
  }

  // ----- Operators commute with taking the value under any assignment -----

  lemma BinaryMeaning(op: BinOp, a: Concolic, b: Concolic, env: Env)
    requires a.Valid() && b.Valid() && BinaryFits(op, |a.concrete|, |b.concrete|)
    ensures Binary(op, a, b).Meaning(env) == Apply(op, a.Meaning(env), b.Meaning(env))
  {
    hide Apply;
  }

  lemma UnaryMeaning(op: UnOp, a: Concolic, env: Env)
    requires a.Valid() && UnaryFits(op, |a.concrete|) && UnaryWidth(op, |a.concrete|) > 0
    ensures Unary(op, a).Meaning(env) == ApplyUnary(op, a.Meaning(env))
  {
    hide ApplyUnary;
  }

  function Choice(c: Bits, t: Bits, f: Bits): Bits {
    if c == TRUE then t else f
  }

  /** A selection has the value of the arm its condition chooses exactly if the condition is
      symbolic, or the arm it chooses still has its constant as its value. */
  lemma SelectMeaning(c: Concolic, t: Concolic, f: Concolic, env: Env)
    requires c.Valid() && t.Valid() && f.Valid() && |c.concrete| == 1 && |t.concrete| == |f.concrete|
    ensures var arm := if c.concrete == TRUE then t else f;
            SelectValue(c, t, f).Meaning(env) == Choice(c.Meaning(env), t.Meaning(env), f.Meaning(env)) <==>
            c.symbolic.Some? || arm.Meaning(env) == arm.concrete
  {
  }

  /** A selection by a constant condition forgets that its arm depends on the input. */
  lemma SelectForgets()
    ensures
      var c, t, f := Constant(TRUE), Concolic([false], Some(Un(Extract(0, 1), Read("x", 0)))), Constant(FALSE);
      exists env: Env :: SelectValue(c, t, f).Meaning(env) != Choice(c.Meaning(env), t.Meaning(env), f.Meaning(env))
  {
    var c, t, f := Constant(TRUE), Concolic([false], Some(Un(Extract(0, 1), Read("x", 0)))), Constant(FALSE);
    var env: Env := (n, i) => 1;
    assert FromNat(1, 8)[0];
    assert t.Meaning(env)[0];
    assert SelectValue(c, t, f).Meaning(env) == [false];
  }

  /** The constants stay instances of the expressions. */
  lemma BinaryInstance(op: BinOp, a: Concolic, b: Concolic, env: Env)
    requires a.Instance(env) && b.Instance(env) && BinaryFits(op, |a.concrete|, |b.concrete|)
    ensures Binary(op, a, b).Instance(env)
  {
    BinaryMeaning(op, a, b, env);
  }

  lemma UnaryInstance(op: UnOp, a: Concolic, env: Env)
    requires a.Instance(env) && UnaryFits(op, |a.concrete|) && UnaryWidth(op, |a.concrete|) > 0
    ensures Unary(op, a).Instance(env)
  {
    UnaryMeaning(op, a, env);
  }

  lemma SelectInstance(c: Concolic, t: Concolic, f: Concolic, env: Env)
    requires c.Instance(env) && t.Instance(env) && f.Instance(env) && |c.concrete| == 1 && |t.concrete| == |f.concrete|
    ensures SelectValue(c, t, f).Instance(env)
  {
  }
}
