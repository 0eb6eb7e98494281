/** The solver behind clover's `Solver::getAssignment`: a decision procedure for conjunctions of
    conditions, of which only its answers are known. */
module Solver {
  import opened Expr
  import opened Constraints

  datatype Query = Query(constraints: seq<Expr>, expr: Expr)
  {
    predicate Valid() {
      Conditions(constraints) && Condition(expr)
    }

    predicate Model(env: Env)
      requires Valid()
    {
      AllHold(constraints, env) && Holds(expr, env)
    }
  }

  /** Sound and complete: a model if there is one, and nothing only if there is none. */
  ghost predicate Decisive(solve: Query -> Option<Env>) {
    forall q: Query :: q.Valid() ==> Answers(q, solve(q))
  }

  ghost predicate Answers(q: Query, answer: Option<Env>)
    requires q.Valid()
  {
    match answer
    case Some(env) => q.Model(env)
    case None => forall env: Env :: !q.Model(env)
  }

  ghost function Choose(q: Query): (answer: Option<Env>)
    ensures q.Valid() ==> Answers(q, answer)
  {
    if q.Valid() && exists env: Env :: q.Model(env) then
      var env: Env :| q.Model(env);
      Some(env)
    else None
  }

  type Procedure = solve: Query -> Option<Env> | Decisive(solve) ghost witness Choose

  // ----- Symbolic objects -----

  /** `klee::findSymbolicObjects`: the arrays an expression reads. */
  function Names(e: Expr): set<string> {
    match e
    case Const(_) => {}
    case Read(name, _) => {name}
    case Un(_, src) => Names(src)
    case Bin(_, l, r) => Names(l) + Names(r)
    case Select(c, t, f) => Names(c) + Names(t) + Names(f)
  }

  ghost predicate Agree(names: set<string>, env: Env, env': Env) {
    forall n, i {:trigger env'(n, i)} :: n in names ==> env'(n, i) == env(n, i)
  }

  /** The value of an expression depends on the arrays it reads only. */
  lemma {:induction false} EvalDependsOnNames(e: Expr, env: Env, env': Env)
    requires WellFormed(e) && Agree(Names(e), env, env')
    ensures Eval(e, env') == Eval(e, env)
  {
    hide Apply, ApplyUnary;
    match e
    case Const(_) =>
    case Read(_, _) =>
    case Un(_, src) => EvalDependsOnNames(src, env, env');
    case Bin(_, l, r) =>
      EvalDependsOnNames(l, env, env');
      EvalDependsOnNames(r, env, env');
    case Select(c, t, f) =>
      EvalDependsOnNames(c, env, env');
      EvalDependsOnNames(t, env, env');
      EvalDependsOnNames(f, env, env');
  }

  datatype Assignment = Assignment(names: set<string>, values: Env)

  /** `Solver::getAssignment`: values for the arrays of the query, under which it holds whatever
      the other arrays contain; or nothing, when no input satisfies the query. */
  method GetAssignment(solve: Procedure, q: Query) returns (a: Option<Assignment>)
    requires q.Valid()
    ensures a.Some? ==> forall env: Env :: Agree(a.value.names, a.value.values, env) ==> q.Model(env)
    ensures a.None? ==> forall env: Env :: !q.Model(env)
  {
    hide Eval, WellFormed, Width;
    var names := Names(q.expr);
    for i := 0 to |q.constraints|
      invariant Names(q.expr) <= names
      invariant forall j :: 0 <= j < i ==> Names(q.constraints[j]) <= names
    {
      names := names + Names(q.constraints[i]);
    }
    assert Answers(q, solve(q));
    match solve(q)
    case None => a := None;
    case Some(values) =>
      a := Some(Assignment(names, values));
      forall env: Env | Agree(names, values, env)
        ensures q.Model(env)
      {
        EvalDependsOnNames(q.expr, values, env);
        forall j | 0 <= j < |q.constraints|
          ensures Holds(q.constraints[j], env)
        {
          assert Holds(q.constraints[j], values);
          EvalDependsOnNames(q.constraints[j], values, env);
        }
      }
  }
}
