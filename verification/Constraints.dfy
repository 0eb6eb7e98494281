/** KLEE's constraint manager: a set of path conditions kept simplified by substituting
    known equalities.  Every operation here keeps the meaning of the set. */
module Constraints {
  import opened Expr

  // ----- Term weight -----

  /** Operators that the `create` functions express by others weigh as much as what they become. */
  function OperatorWeight(op: BinOp): (w: nat)
    ensures w >= 1
  {
    match op
    case Or => 3
    case Ne => 3
    case Ult => 3
    case Slt => 3
    case Shl => 3
    case LShr => 3
    case Ule => 5
    case Uge => 5
    case Sge => 5
    case _ => 1
  }

  function Weight(e: Expr): (w: nat)
    ensures w >= 1
    ensures w == 1 <==> e.Const?
  {
    match e
    case Const(_) => 1
    case Read(_, _) => 2
    case Bin(op, l, r) => OperatorWeight(op) + Weight(l) + Weight(r)
    case Un(op, src) => if op.Not? then 1 + Weight(src) else 2 * Weight(src)
    case Select(c, t, f) => 4 + Weight(c) + Weight(t) + Weight(f)
  }

  function TotalWeight(cs: seq<Expr>): nat {
    if cs == [] then 0 else Weight(cs[0]) + TotalWeight(cs[1..])
  }

  lemma TotalWeightAppend(a: seq<Expr>, b: seq<Expr>)
    ensures TotalWeight(a + b) == TotalWeight(a) + TotalWeight(b)
  {
    if a == [] {
      assert a + b == b;
    } else {
      assert (a + b)[1..] == a[1..] + b;
      TotalWeightAppend(a[1..], b);
    }
  }

  // ----- Rebuilding visited expressions -----

  predicate SameShape(e: Expr, e': Expr) {
    WellFormed(e) && WellFormed(e') && Width(e) == Width(e')
  }

  ghost predicate SameMeaning(e: Expr, e': Expr)
    requires WellFormed(e) && WellFormed(e')
  {
    forall env: Env :: Eval(e, env) == Eval(e', env)
  }

  /** What is asked of the folding that `Expr::rebuild` performs on a changed node: it may
      return any other expression of the same width and meaning that is no heavier. */
  ghost predicate Folding(rebuild: Expr -> Expr) {
    forall e: Expr :: WellFormed(e) ==> Folds(e, rebuild(e))
  }

  ghost predicate Folds(e: Expr, e': Expr)
    requires WellFormed(e)
  {
    SameShape(e, e') && SameMeaning(e, e') && Weight(e') <= Weight(e)
  }

  /** Folding nothing is one such rebuild. */
  type Rebuild = rebuild: Expr -> Expr | Folding(rebuild) witness (e: Expr) => e

  // ----- The replacing visitors -----

  /** `ExprReplaceVisitor` looks a node up before and after its children and does not revisit
      what it rebuilt; `ExprReplaceVisitor2` looks up afterwards only, and does revisit. */
  datatype Substitutor = Substitutor(replacements: map<Expr, Expr>, preOrder: bool, recursive: bool)

  /** Replacements are constants of the width of what they replace. */
  predicate Replacing(v: Substitutor) {
    forall k :: k in v.replacements ==> SameShape(k, v.replacements[k]) && v.replacements[k].Const?
  }

  type Visitor = v: Substitutor | Replacing(v) witness Substitutor(map[], false, false)

  function Replaced(v: Visitor, e: Expr): Expr {
    if !e.Const? && e in v.replacements then v.replacements[e] else e
  }

  /** `ExprVisitor::visitActual`. */
  function Visit(v: Visitor, rebuild: Rebuild, e: Expr): (r: Expr)
    requires WellFormed(e)
    ensures SameShape(e, r)
    ensures r == e || Weight(r) < Weight(e)
    decreases Weight(e), 1
  {
    hide WellFormed, Width, Weight, Eval;
    if e.Const? then e
    else if v.preOrder && e in v.replacements then v.replacements[e]
    else
      var k := VisitKids(v, rebuild, e);
      if k == e then Replaced(v, e)
      else
        assert Folds(k, rebuild(k));
        Replaced(v, if v.recursive then Visit(v, rebuild, rebuild(k)) else rebuild(k))
  }

  function VisitKids(v: Visitor, rebuild: Rebuild, e: Expr): (r: Expr)
    requires WellFormed(e)
    ensures SameShape(e, r)
    ensures r == e || Weight(r) < Weight(e)
    decreases Weight(e), 0
  {
    hide Eval, WellFormed, Width, Weight;
    KidsLighter(e);
    match e
    case Const(_) => e
    case Read(_, _) => e
    case Bin(op, l, r) =>
      var l', r' := Visit(v, rebuild, l), Visit(v, rebuild, r);
      BinRebuilt(op, l, r, l', r');
      Bin(op, l', r')
    case Un(op, src) =>
      var src' := Visit(v, rebuild, src);
      UnRebuilt(op, src, src');
      Un(op, src')
    case Select(c, t, f) =>
      var c', t', f' := Visit(v, rebuild, c), Visit(v, rebuild, t), Visit(v, rebuild, f);
      SelectRebuilt(c, t, f, c', t', f');
      Select(c', t', f')
  }

  lemma KidsLighter(e: Expr)
    requires WellFormed(e)
    ensures e.Bin? ==> WellFormed(e.left) && Weight(e.left) < Weight(e)
    ensures e.Bin? ==> WellFormed(e.right) && Weight(e.right) < Weight(e)
    ensures e.Un? ==> WellFormed(e.src) && Weight(e.src) < Weight(e)
    ensures e.Select? ==> WellFormed(e.cond) && Weight(e.cond) < Weight(e)
    ensures e.Select? ==> WellFormed(e.then_) && Weight(e.then_) < Weight(e)
    ensures e.Select? ==> WellFormed(e.else_) && Weight(e.else_) < Weight(e)
  {
  }

  /** No heavier, and lighter if changed. */
  predicate Lighter(e: Expr, e': Expr) {
    e' == e || Weight(e') < Weight(e)
  }

  lemma BinRebuilt(op: BinOp, l: Expr, r: Expr, l': Expr, r': Expr)
    requires WellFormed(Bin(op, l, r)) && SameShape(l, l') && SameShape(r, r') && Lighter(l, l') && Lighter(r, r')
    ensures SameShape(Bin(op, l, r), Bin(op, l', r')) && Lighter(Bin(op, l, r), Bin(op, l', r'))
  {
  }

  lemma UnRebuilt(op: UnOp, e: Expr, e': Expr)
    requires WellFormed(Un(op, e)) && SameShape(e, e') && Lighter(e, e')
    ensures SameShape(Un(op, e), Un(op, e')) && Lighter(Un(op, e), Un(op, e'))
  {
  }

  lemma SelectRebuilt(c: Expr, t: Expr, f: Expr, c': Expr, t': Expr, f': Expr)
    requires WellFormed(Select(c, t, f)) && SameShape(c, c') && SameShape(t, t') && SameShape(f, f')
    requires Lighter(c, c') && Lighter(t, t') && Lighter(f, f')
    ensures SameShape(Select(c, t, f), Select(c', t', f')) && Lighter(Select(c, t, f), Select(c', t', f'))
  {
  }

  predicate Sound(v: Visitor, env: Env)
  {
    forall k :: k in v.replacements ==> Eval(k, env) == Eval(v.replacements[k], env)
  }

  /** Where the replacements hold, visiting keeps the value. */
  lemma {:induction false} VisitMeaning(v: Visitor, rebuild: Rebuild, e: Expr, env: Env)
    requires WellFormed(e) && Sound(v, env)
    ensures Eval(Visit(v, rebuild, e), env) == Eval(e, env)
    decreases Weight(e), 1
  {
    hide WellFormed, Width, Weight, Eval;
    if e.Const? || (v.preOrder && e in v.replacements) {
    } else {
      var k := VisitKids(v, rebuild, e);
      VisitKidsMeaning(v, rebuild, e, env);
      if k != e {
        assert Folds(k, rebuild(k));
        if v.recursive {
          VisitMeaning(v, rebuild, rebuild(k), env);
        }
      }
    }
  }

  lemma {:induction false} VisitKidsMeaning(v: Visitor, rebuild: Rebuild, e: Expr, env: Env)
    requires WellFormed(e) && Sound(v, env)
    ensures Eval(VisitKids(v, rebuild, e), env) == Eval(e, env)
    decreases Weight(e), 0
  {
    hide Apply, ApplyUnary;
    match e
    case Const(_) =>
    case Read(_, _) =>
    case Un(_, src) =>
      VisitMeaning(v, rebuild, src, env);
    case Bin(_, l, r) =>
      VisitMeaning(v, rebuild, l, env);
      VisitMeaning(v, rebuild, r, env);
    case Select(c, t, f) =>
      VisitMeaning(v, rebuild, c, env);
      VisitMeaning(v, rebuild, t, env);
      VisitMeaning(v, rebuild, f, env);
  }

  // ----- Constraint sets -----

  predicate Conditions(cs: seq<Expr>) {
    forall i :: 0 <= i < |cs| ==> Condition(cs[i])
  }

  predicate AllHold(cs: seq<Expr>, env: Env)
    requires Conditions(cs)
  {
    forall i :: 0 <= i < |cs| ==> Holds(cs[i], env)
  }

  /** An equality with a constant left operand. */
  predicate Substitution(e: Expr) {
    Condition(e) && e.Bin? && e.op == Eq && e.left.Const?
  }

  /** One entry of the substitution: a constant on the left of an equality replaces its right
      operand, and any other constraint is replaced by true. */
  function Equality(c: Expr): (kv: (Expr, Expr))
    requires Condition(c)
    ensures SameShape(kv.0, kv.1) && kv.1.Const?
    ensures forall env: Env :: Holds(c, env) ==> Eval(kv.0, env) == Eval(kv.1, env)
  {
    if Substitution(c) then (c.right, c.left) else (c, True)
  }

  /** `std::map::insert` keeps the entry of the first constraint with a given key. */
  function Equalities(cs: seq<Expr>): (m: map<Expr, Expr>)
    requires Conditions(cs)
    ensures Replacing(Substitutor(m, false, true))
  {
    if cs == [] then map[]
    else
      var m := Equalities(cs[..|cs| - 1]);
      var (k, c) := Equality(cs[|cs| - 1]);
      if k in m then m else m[k := c]
  }

  lemma NoEqualities()
    ensures Equalities([]) == map[]
  {
  }

  lemma NextEquality(cs: seq<Expr>, i: nat)
    requires Conditions(cs) && i < |cs|
    ensures
      var m, (k, c) := Equalities(cs[..i]), Equality(cs[i]);
      Equalities(cs[..i + 1]) == if k in m then m else m[k := c]
  {
    hide Eval, WellFormed, Width, Equality;
    assert cs[..i + 1][..i] == cs[..i];
  }

  lemma {:induction false} EqualitiesSound(cs: seq<Expr>, env: Env)
    requires Conditions(cs) && AllHold(cs, env)
    ensures Sound(Substitutor(Equalities(cs), false, true), env)
  {
    if cs != [] {
      EqualitiesSound(cs[..|cs| - 1], env);
      assert Holds(cs[|cs| - 1], env);
    }
  }

  /** `ConstraintManager::simplifyExpr`: the result is an expression of the same width, no
      heavier, with the same value wherever the constraints hold. */
  method SimplifyExpr(rebuild: Rebuild, cs: seq<Expr>, e: Expr) returns (r: Expr)
    requires Conditions(cs) && WellFormed(e)
    ensures SameShape(e, r) && Weight(r) <= Weight(e)
    ensures forall env: Env :: AllHold(cs, env) ==> Eval(r, env) == Eval(e, env)
  {
    hide WellFormed, Width, Weight, Eval, Equality, Equalities, AllHold, Visit;
    if e.Const? {
      return e;
    }
    var equalities := map[];
    NoEqualities();
    assert cs[..0] == [];
    for i := 0 to |cs|
      invariant equalities == Equalities(cs[..i])
    {
      var (k, c) := Equality(cs[i]);
      NextEquality(cs, i);
      if k !in equalities {
        equalities := equalities[k := c];
      }
    }
    assert cs[..|cs|] == cs;
    var v := Substitutor(equalities, false, true);
    r := Visit(v, rebuild, e);
    forall env: Env | AllHold(cs, env)
      ensures Eval(r, env) == Eval(e, env)
    {
      EqualitiesSound(cs, env);
      VisitMeaning(v, rebuild, e, env);
    }
  }

  // ----- Meaning of constraint sets -----

  /** The two sets hold under the same assignments. */
  ghost predicate Equivalent(cs: seq<Expr>, ds: seq<Expr>)
    requires Conditions(cs) && Conditions(ds)
  {
    forall env: Env :: AllHold(cs, env) <==> AllHold(ds, env)
  }

  ghost predicate Satisfiable(cs: seq<Expr>)
    requires Conditions(cs)
  {
    exists env: Env :: AllHold(cs, env)
  }

  lemma AllHoldAppend(cs: seq<Expr>, e: Expr, env: Env)
    requires Conditions(cs) && Condition(e)
    ensures Conditions(cs + [e])
    ensures AllHold(cs + [e], env) <==> AllHold(cs, env) && Holds(e, env)
  {
    var ds := cs + [e];
    assert ds[|cs|] == e;
    if AllHold(ds, env) {
      forall i | 0 <= i < |cs|
        ensures Holds(cs[i], env)
      {
        assert ds[i] == cs[i];
      }
    }
  }

  /** A conjunction of width one has two lighter conditions as operands. */
  lemma AndOperands(e: Expr)
    requires Condition(e) && e.Bin? && e.op == And
    ensures Condition(e.left) && Condition(e.right) && Weight(e.left) + Weight(e.right) < Weight(e)
  {
  }

  /** Both operands of a conjunction hold exactly when it does. */
  lemma AndSplits(e: Expr, env: Env)
    requires Condition(e) && e.Bin? && e.op == And
    requires Condition(e.left) && Condition(e.right)
    ensures Holds(e, env) <==> Holds(e.left, env) && Holds(e.right, env)
  {
    hide WellFormed, Width;
    var l, r := Eval(e.left, env), Eval(e.right, env);
    assert l == [l[0]] && r == [r[0]];
    assert Eval(e, env) == Apply(And, l, r) == [l[0] && r[0]];
  }

  lemma ConjunctsAdded(cs: seq<Expr>, ds: seq<Expr>, e: Expr)
    requires Conditions(cs) && Conditions(ds) && Condition(e) && e.Bin? && e.op == And
    requires Condition(e.left) && Condition(e.right)
    requires Equivalent(ds, cs + [e.left])
    ensures Equivalent(ds + [e.right], cs + [e])
  {
    hide WellFormed, Width, Eval;
    forall env: Env
      ensures AllHold(ds + [e.right], env) <==> AllHold(cs + [e], env)
    {
      AndSplits(e, env);
      AllHoldAppend(cs, e.left, env);
      AllHoldAppend(ds, e.right, env);
      AllHoldAppend(cs, e, env);
    }
  }

  lemma ConjunctMissing(cs: seq<Expr>, e: Expr)
    requires Conditions(cs) && Condition(e) && e.Bin? && e.op == And
    requires Condition(e.left) && Condition(e.right) && !Satisfiable(cs + [e.left])
    ensures !Satisfiable(cs + [e])
  {
    hide WellFormed, Width, Eval;
    forall env: Env
      ensures !AllHold(cs + [e], env)
    {
      AndSplits(e, env);
      AllHoldAppend(cs, e, env);
      AllHoldAppend(cs, e.left, env);
    }
  }

  lemma ConstantAdded(cs: seq<Expr>, e: Expr)
    requires Conditions(cs) && Condition(e) && e.Const?
    ensures e == True ==> Equivalent(cs, cs + [e])
    ensures e != True ==> !Satisfiable(cs + [e])
  {
    forall env: Env
      ensures AllHold(cs + [e], env) <==> AllHold(cs, env) && e == True
    {
      AllHoldAppend(cs, e, env);
    }
  }

  /** Adding, to a set that stands for `prefix` under `eq`, what is equal to `ce` under `eq`. */
  lemma RewriteStep(eq: Expr, cs: seq<Expr>, ds: seq<Expr>, e: Expr, prefix: seq<Expr>, ce: Expr)
    requires Condition(eq) && Conditions(cs) && Conditions(ds) && Conditions(prefix) && Condition(e) && Condition(ce)
    requires Equivalent(cs + [eq], prefix + [eq])
    requires forall env: Env | Holds(eq, env) :: Holds(e, env) == Holds(ce, env)
    ensures Equivalent(ds, cs + [e]) ==> Equivalent(ds + [eq], prefix + [ce] + [eq])
    ensures !Satisfiable(cs + [e]) ==> !Satisfiable(prefix + [ce] + [eq])
  {
    forall env: Env
      ensures AllHold(prefix + [ce] + [eq], env) <==> AllHold(cs + [e], env) && Holds(eq, env)
    {
      AllHoldAppend(prefix, ce, env);
      AllHoldAppend(prefix + [ce], eq, env);
      AllHoldAppend(prefix, eq, env);
      AllHoldAppend(cs, eq, env);
      AllHoldAppend(cs, e, env);
    }
    if Equivalent(ds, cs + [e]) {
      forall env: Env
        ensures AllHold(ds + [eq], env) <==> AllHold(prefix + [ce] + [eq], env)
      {
        AllHoldAppend(ds, eq, env);
      }
    }
  }

  lemma PrefixUnsatisfiable(cs: seq<Expr>, i: nat, eq: Expr)
    requires Conditions(cs) && Condition(eq) && i <= |cs| && !Satisfiable(cs[..i] + [eq])
    ensures !Satisfiable(cs + [eq])
  {
    forall env: Env
      ensures !AllHold(cs + [eq], env)
    {
      AllHoldAppend(cs, eq, env);
      AllHoldAppend(cs[..i], eq, env);
    }
  }

  /** The manager of one constraint set. `ok` is false where the source asserts. */
  class ConstraintManager {
    var constraints: seq<Expr>
    const rebuild: Rebuild

    ghost predicate Valid()
      reads this
    {
      Conditions(constraints)
    }

    constructor (rebuild: Rebuild, constraints: seq<Expr>)
      requires Conditions(constraints)
      ensures Valid() && this.constraints == constraints && this.rebuild == rebuild
    {
      this.rebuild := rebuild;
      this.constraints := constraints;
    }

    /** `rewriteConstraints` with the visitor of the equality `eq`, whose left operand is a
        constant: together with `eq`, the set means what it meant before. */
    method RewriteConstraints(eq: Expr) returns (changed: bool, ok: bool)
      requires Valid() && Substitution(eq)
      modifies this`constraints
      ensures Valid()
      ensures ok ==> TotalWeight(constraints) <= TotalWeight(old(constraints))
      ensures ok ==> Equivalent(constraints + [eq], old(constraints) + [eq])
      ensures !ok ==> !Satisfiable(old(constraints) + [eq])
      ensures ok && !changed ==> constraints == old(constraints)
      decreases TotalWeight(constraints), 1
    {
      hide Eval, WellFormed, Width, Weight;
      var before := constraints;
      constraints, changed, ok := [], false, true;
      for i := 0 to |before|
        invariant Valid() && ok && Rewritten(eq, before, i)
        invariant !changed ==> constraints == before[..i]
      {
        assert before[i..] == [before[i]] + before[i + 1..];
        var c;
        c, ok := RewriteNext(eq, before, i);
        changed := changed || c;
        if !ok {
          return;
        }
      }
      assert before[..|before|] == before;
    }

    /** The first `i` constraints of the old set have been visited. */
    ghost predicate Rewritten(eq: Expr, before: seq<Expr>, i: nat)
      reads this
      requires Valid() && Condition(eq) && Conditions(before) && i <= |before|
    {
      && TotalWeight(constraints) + TotalWeight(before[i..]) <= TotalWeight(before)
      && Equivalent(constraints + [eq], before[..i] + [eq])
    }

    /** One round of the loop of `rewriteConstraints`. */
    method RewriteNext(eq: Expr, before: seq<Expr>, i: nat) returns (changed: bool, ok: bool)
      requires Valid() && Substitution(eq) && Conditions(before) && i < |before| && Rewritten(eq, before, i)
      modifies this`constraints
      ensures Valid()
      ensures ok ==> Rewritten(eq, before, i + 1)
      ensures !ok ==> !Satisfiable(before + [eq])
      ensures ok && !changed ==> constraints == old(constraints) + [before[i]]
      decreases TotalWeight(constraints) + Weight(before[i]), 0
    {
      hide Eval, WellFormed, Width, Weight;
      var ce, cs := before[i], constraints;
      var e := RewriteOne(eq, ce);
      assert before[i..] == [ce] + before[i + 1..];
      assert before[..i + 1] == before[..i] + [ce];
      changed, ok := e != ce, true;
      if changed {
        ok := AddConstraintInternal(e);
      } else {
        TotalWeightAppend(constraints, [ce]);
        constraints := constraints + [ce];
      }
      RewriteStep(eq, cs, constraints, e, before[..i], ce);
      if !ok {
        PrefixUnsatisfiable(before, i + 1, eq);
      }
    }

    method RewriteOne(eq: Expr, ce: Expr) returns (e: Expr)
      requires Substitution(eq) && Condition(ce)
      ensures Condition(e) && (e == ce || Weight(e) < Weight(ce))
      ensures forall env: Env | Holds(eq, env) :: Holds(e, env) == Holds(ce, env)
    {
      hide WellFormed, Width, Weight, Eval;
      var (k, c) := Equality(eq);
      var v := Substitutor(map[k := c], true, false);
      e := Visit(v, rebuild, ce);
      forall env: Env | Holds(eq, env)
        ensures Holds(e, env) == Holds(ce, env)
      {
        VisitMeaning(v, rebuild, ce, env);
      }
    }

    /** `addConstraintInternal`: the set becomes its own conjunction with `e`, under every
        assignment, unless the assertion fails, which only happens when no assignment is left.
        The total weight never grows, which bounds the mutual recursion. */
    method AddConstraintInternal(e: Expr) returns (ok: bool)
      requires Valid() && Condition(e)
      modifies this`constraints
      ensures Valid()
      ensures ok ==> TotalWeight(constraints) <= TotalWeight(old(constraints)) + Weight(e)
      ensures ok ==> Equivalent(constraints, old(constraints) + [e])
      ensures !ok ==> !Satisfiable(old(constraints) + [e])
      decreases TotalWeight(constraints) + Weight(e)
    {
      hide WellFormed, Width, Weight, Eval;
      var before := constraints;
      if e.Const? {
        ok := e == True;
        ConstantAdded(before, e);
      } else if e.Bin? && e.op == And {
        AndOperands(e);
        ok := AddConstraintInternal(e.left);
        if ok {
          ConjunctsAdded(before, constraints, e);
          ok := AddConstraintInternal(e.right);
        } else {
          ConjunctMissing(before, e);
        }
      } else {
        ok := true;
        if Substitution(e) {
          var _, fine := RewriteConstraints(e);
          ok := fine;
        }
        if ok {
          TotalWeightAppend(constraints, [e]);
          constraints := constraints + [e];
        }
      }
    }

    /** `addConstraint`: the set afterwards means the old set and `e`, and the assertion
        against a false constraint cannot fail while some assignment satisfies both. */
    method AddConstraint(e: Expr) returns (ok: bool)
      requires Valid() && Condition(e)
      modifies this`constraints
      ensures Valid()
      ensures ok ==> TotalWeight(constraints) <= TotalWeight(old(constraints)) + Weight(e)
      ensures ok ==> Equivalent(constraints, old(constraints) + [e])
      ensures Satisfiable(old(constraints) + [e]) ==> ok
    {
      var simplified := SimplifyExpr(rebuild, constraints, e);
      forall env: Env
        ensures AllHold(constraints + [simplified], env) <==> AllHold(constraints + [e], env)
      {
        AllHoldAppend(constraints, simplified, env);
        AllHoldAppend(constraints, e, env);
      }
      ok := AddConstraintInternal(simplified);
    }
  }
}
