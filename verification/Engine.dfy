/** The concolic engine run to the end: a guest executed on one input after the other, its
    branches traced, until the search finds no further input. */
module Engine {
  import opened Sets
  import opened Expr
  import opened Constraints
  import opened ExecutionTree
  import opened Solver
  import opened PathSearch
  import opened Completeness
  import opened Tracing

  /** The last of the decisions is made within `k` packets. */
  ghost predicate InPackets(prog: Program, d: Path, k: nat) {
    d != [] ==> prog(Parent(d)).Some? && prog(Parent(d)).value.pktSeqLen <= k
  }

  /** The run on `env` makes boundedly many decisions within `k` packets.  It may go on for ever with more. */
  ghost predicate Terminates(prog: Program, env: Env, k: nat, bound: nat) {
    forall d {:trigger Follows(prog, env, d)} :: Follows(prog, env, d) && InPackets(prog, d, k) ==> |d| <= bound
  }

  /** `cs` holds exactly for the inputs that decide as `d` says. */
  ghost predicate Characterises(cs: seq<Expr>, prog: Program, d: Path)
    requires Conditions(cs)
  {
    forall env: Env :: AllHold(cs, env) <==> Follows(prog, env, d)
  }

  lemma DecisionAdded(cs: seq<Expr>, ds: seq<Expr>, prog: Program, d: Path, taken: bool)
    requires Conditions(cs) && Conditions(ds) && Guest(prog) && prog(d).Some? && Characterises(cs, prog, d)
    requires Condition(Asserted(prog(d).value.cond, taken))
    ensures Equivalent(ds, cs + [Asserted(prog(d).value.cond, taken)]) ==> Characterises(ds, prog, Child(d, taken))
    ensures forall env: Env :: Follows(prog, env, Child(d, taken)) ==>
            AllHold(cs + [Asserted(prog(d).value.cond, taken)], env)
  {
    hide Eval, WellFormed, Width;
    var a := Asserted(prog(d).value.cond, taken);
    ParentOfChild(d, taken);
    forall env: Env
      ensures AllHold(cs + [a], env) <==> Follows(prog, env, Child(d, taken))
    {
      AssertedMeaning(prog(d).value.cond, taken, env);
      AllHoldAppend(cs, a, env);
    }
  }

  /** The decisions `d` of the current run are recorded, on top of the tree `t`. */
  ghost predicate Traced(trace: Trace, prog: Program, t: Tree, d: Path)
    reads trace, trace.tree, trace.tree.Repr, trace.cm, trace.assume_cm
  {
    && trace.Valid() && [] in t && Decides(prog, d)
    && trace.tree.cursor == d && trace.tree.tree == Record(t, prog, d)
    && Characterises(trace.cm.constraints, prog, d)
  }

  /** The guest comes to a symbolic branch: `ISS::track_and_trace_branch`. */
  method TraceBranch(trace: Trace, prog: Program, env: Env, d: Path, ghost t: Tree) returns (taken: bool)
    requires Guest(prog) && Traced(trace, prog, t, d) && Follows(prog, env, d) && prog(d).Some?
    modifies trace.tree, trace.tree.Repr, trace.cm
    ensures fresh(trace.tree.Repr - old(trace.tree.Repr))
    ensures Traced(trace, prog, t, Child(d, taken)) && Follows(prog, env, Child(d, taken))
  {
    hide Eval, WellFormed, Width, Shape, AddBranch, AllHold, Equivalent;
    var b := prog(d).value;
    taken := Holds(b.cond, env);
    ghost var cs := trace.cm.constraints;
    AssertedCondition(b.cond, taken);
    ParentOfChild(d, taken);
    DecisionAdded(cs, cs, prog, d, taken);
    assert AllHold(cs + [Asserted(b.cond, taken)], env);
    var ok := trace.Add(taken, b.cond, b.addr, b.pktSeqLen);
    assert ok;
    DecisionAdded(cs, trace.cm.constraints, prog, d, taken);
  }

  /** The guest runs, from its first branch on, until it ends or has processed its packets. */
  method RunBranches(trace: Trace, prog: Program, env: Env, k: nat, ghost t: Tree, ghost bound: nat) returns (d: Path)
    requires Traced(trace, prog, t, []) && Guest(prog) && Terminates(prog, env, k, bound)
    modifies trace.tree, trace.tree.Repr, trace.cm
    ensures fresh(trace.tree.Repr - old(trace.tree.Repr))
    ensures Run(prog, env, k, d) && Traced(trace, prog, t, d)
  {
    hide Traced, Follows, Terminates, Child, Guest;
    d := [];
    FollowsNothing(prog, env);
    while prog(d).Some? && prog(d).value.pktSeqLen <= k
      invariant fresh(trace.tree.Repr - old(trace.tree.Repr))
      invariant Traced(trace, prog, t, d) && Follows(prog, env, d)
      invariant InPackets(prog, d, k)
      decreases bound - |d|
    {
      WithinBound(prog, env, k, bound, d);
      var taken := TraceBranch(trace, prog, env, d, t);
      ParentOfChild(d, taken);
      d := Child(d, taken);
      WithinBound(prog, env, k, bound, d);
    }
  }

  /** One concolic run: the tree records its path, and the constraints collected on the way hold
      for exactly the inputs that take the same path. */
  method RunGuest(trace: Trace, prog: Program, env: Env, k: nat, ghost bound: nat) returns (d: Path)
    requires trace.Valid() && Guest(prog) && Terminates(prog, env, k, bound)
    modifies trace.tree, trace.tree.Repr, trace.cm
    ensures trace.Valid() && fresh(trace.tree.Repr - old(trace.tree.Repr))
    ensures Run(prog, env, k, d) && Decides(prog, d)
    ensures trace.tree.tree == Record(old(trace.tree.tree), prog, d)
    ensures Characterises(trace.cm.constraints, prog, d)
  {
    hide Run, Guest, Terminates, Shape, Record, Decides, Characterises, NodeTree.Linked;
    trace.Reset();
    RecordNothing(trace, prog);
    d := RunBranches(trace, prog, env, k, trace.tree.tree, bound);
  }

  lemma FollowsNothing(prog: Program, env: Env)
    ensures Follows(prog, env, [])
  {
  }

  lemma WithinBound(prog: Program, env: Env, k: nat, bound: nat, d: Path)
    requires Terminates(prog, env, k, bound) && Follows(prog, env, d) && InPackets(prog, d, k)
    ensures |d| <= bound
  {
  }

  lemma RecordNothing(trace: Trace, prog: Program)
    requires trace.Valid() && trace.cm.constraints == [] && trace.tree.cursor == []
    ensures Traced(trace, prog, trace.tree.tree, [])
  {
  }

  // ----- Exploring a guest with boundedly many decisions in each packet -----

  ghost predicate Bounded(prog: Program, k: nat, n: nat) {
    forall d {:trigger Decides(prog, d)} :: Decides(prog, d) && InPackets(prog, d, k) ==> |d| <= n
  }

  lemma BoundedTerminates(prog: Program, env: Env, k: nat, n: nat)
    requires Bounded(prog, k, n)
    ensures Terminates(prog, env, k, n)
  {
    hide Eval, WellFormed, Width;
    forall d {:trigger Follows(prog, env, d)} | Follows(prog, env, d) && InPackets(prog, d, k)
      ensures |d| <= n
    {
      FollowsDecides(prog, env, d);
    }
  }

  lemma BoundedBefore(prog: Program, k: nat, m: nat, n: nat)
    requires Bounded(prog, m, n) && k <= m
    ensures Bounded(prog, k, n)
  {
  }

  ghost function AllPaths(n: nat): (paths: set<Path>)
    ensures forall p :: p in paths <==> |p| <= n
  {
    if n == 0 then {[]}
    else
      var shorter := AllPaths(n - 1);
      var longer := set p, b | p in shorter :: Child(p, b);
      assert forall p: Path :: |p| == n ==> Child(Parent(p), Last(p)) == p && Parent(p) in shorter;
      shorter + longer
  }

  /** A run that takes a path the tree lacked leaves fewer paths to be found. */
  lemma RunShrinks(prog: Program, t: Tree, u: Tree, k: nat, n: nat, env: Env, d: Path)
    requires Bounded(prog, k, n) && Marked(t, u) && [] in u && Decides(prog, d) && Run(prog, env, k, d) && d !in u
    ensures |AllPaths(n) - Record(u, prog, d).Keys| < |AllPaths(n) - t.Keys|
  {
    hide Eval, WellFormed, Width;
    assert InPackets(prog, d, k);
    var before, after := AllPaths(n) - t.Keys, AllPaths(n) - Record(u, prog, d).Keys;
    assert d in before && d !in after && after <= before;
    assert after <= before - {d};
    SubsetSize(after, before - {d});
  }

  /** In a tree whose paths are all taken by admissible inputs, the search does not abort. */
  lemma RecordedPathsAdmissible(prog: Program, assumed: seq<Expr>, s: State, u: Tree, q: Path)
    requires Conditions(assumed) && Guest(prog) && Inv(prog, assumed, s) && s.runs != []
    requires Marked(s.tree, u) && q in u
    ensures Admissible(assumed, u, q)
  {
    hide Eval, WellFormed, Width, AllHold, Follows, Reaches;
    assert WithinAt(s.tree, prog, assumed, s.k, q);
    var env: Env :| AllHold(assumed, env) && Follows(prog, env, q);
    ReachesIsFollows(s.tree, prog, env, q);
    MarkedReaches(s.tree, u, env, q);
  }

  // ----- Pools of runs to be replayed -----

  /** The input of a run and the decisions it made. */
  type Stored = (Env, Path)

  predicate Has(pool: seq<Stored>, p: Path) {
    exists i :: 0 <= i < |pool| && pool[i].1 == p
  }

  /** The pool holds runs of `k` packets on inputs within the assumptions. */
  ghost predicate RunsOf(pool: seq<Stored>, prog: Program, assumed: seq<Expr>, k: nat)
    requires Conditions(assumed)
  {
    forall i :: 0 <= i < |pool| ==> AllHold(assumed, pool[i].0) && Run(prog, pool[i].0, k, pool[i].1)
  }

  /** Where a run was stopped, the pool has it. */
  ghost predicate Pooled(t: Tree, prog: Program, pool: seq<Stored>) {
    forall p {:trigger Stopped(t, prog, p)} :: Stopped(t, prog, p) ==> Has(pool, p)
  }

  /** The state of the exploration at packet count `k`: complete for one packet less; of the runs stopped,
      those of `todo` with one packet less are to be replayed, and the others are those of `pool`. */
  ghost predicate Explored(prog: Program, assumed: seq<Expr>, t: Tree, runs: seq<Path>, k: nat,
                           todo: seq<Stored>, pool: seq<Stored>)
    requires Conditions(assumed)
  {
    && k >= 1 && runs != [] && Inv(prog, assumed, State(t, runs, k)) && Complete(t, prog, assumed, k - 1)
    && RunsOf(todo, prog, assumed, k - 1) && RunsOf(pool, prog, assumed, k) && Pooled(t, prog, todo + pool)
  }

  lemma HasParts(a: seq<Stored>, b: seq<Stored>, p: Path)
    ensures Has(a + b, p) <==> Has(a, p) || Has(b, p)
  {
    assert forall i :: 0 <= i < |a| ==> (a + b)[i] == a[i];
    assert forall i :: 0 <= i < |b| ==> (a + b)[|a| + i] == b[i];
  }

  lemma FirstRunExplored(prog: Program, assumed: seq<Expr>, env: Env, d: Path)
    requires Conditions(assumed) && Guest(prog) && AllHold(assumed, env) && Run(prog, env, 1, d) && Decides(prog, d)
    ensures Explored(prog, assumed, Record(Empty, prog, d), [d], 1, [], [(env, d)])
  {
    hide Eval, WellFormed, Width, AllHold, Run, Inv, Complete;
    var s, s' := State(Empty, [], 1), State(Record(Empty, prog, d), [d], 1);
    assert s'.runs == s.runs + [d];
    InvHolds(prog, assumed, [s], [], 0);
    ReplayKeepsInv(prog, assumed, s, s', env, d);
    CompleteAtNone(s'.tree, prog, assumed);
    forall p {:trigger Stopped(s'.tree, prog, p)} | Stopped(s'.tree, prog, p)
      ensures Has([(env, d)], p)
    {
      OnlyEndStopped(prog, d, p);
      assert [(env, d)][0].1 == p;
    }
    assert [] + [(env, d)] == [(env, d)];
  }

  lemma OnlyEndStopped(prog: Program, d: Path, p: Path)
    requires Decides(prog, d) && p in Record(Empty, prog, d) && Record(Empty, prog, d)[p].Placeholder?
    ensures p == d
  {
    assert d[..0] == [];
    if p != d {
      PlaceholderAfter(Empty, prog, d, p);
    }
  }

  /** A run of `k` packets is added to the tree and to the pool. */
  lemma PooledAfter(prog: Program, t: Tree, u: Tree, d: Path, env: Env, todo: seq<Stored>, pool: seq<Stored>)
    requires [] in u && Marked(t, u) && Decides(prog, d) && Pooled(t, prog, todo + pool)
    ensures Pooled(Record(u, prog, d), prog, todo + (pool + [(env, d)]))
    ensures todo != [] && IsPrefix(todo[0].1, d) ==> Pooled(Record(u, prog, d), prog, todo[1..] + (pool + [(env, d)]))
  {
    var r, more := Record(u, prog, d), pool + [(env, d)];
    forall p {:trigger Stopped(r, prog, p)} | Stopped(r, prog, p)
      ensures Has(todo + more, p)
      ensures todo != [] && IsPrefix(todo[0].1, d) ==> Has(todo[1..] + more, p)
    {
      HasParts(todo, pool, p);
      HasParts(todo, more, p);
      HasParts(pool, [(env, d)], p);
      if p == d {
        assert more[|pool|].1 == p;
      } else {
        PlaceholderAfter(u, prog, d, p);
        MarkedPlaceholder(t, u, p);
        assert Stopped(t, prog, p);
      }
      if todo != [] && IsPrefix(todo[0].1, d) {
        HasParts(todo[1..], more, p);
        HasParts([todo[0]], todo[1..], p);
        assert todo == [todo[0]] + todo[1..];
      }
    }
  }

  lemma RunsOfMore(pool: seq<Stored>, prog: Program, assumed: seq<Expr>, k: nat, env: Env, d: Path)
    requires Conditions(assumed) && RunsOf(pool, prog, assumed, k) && AllHold(assumed, env) && Run(prog, env, k, d)
    ensures RunsOf(pool + [(env, d)], prog, assumed, k)
  {
    hide AllHold, Run;
  }

  lemma NextRunExplored(prog: Program, assumed: seq<Expr>, t: Tree, runs: seq<Path>, k: nat, pool: seq<Stored>,
                        u: Tree, o: Outcome, env: Env, d: Path)
    requires Conditions(assumed) && Guest(prog) && Explored(prog, assumed, t, runs, k, [], pool)
    requires Searched(t, assumed, k, u, o) && o.Found? && Completes(env, o)
    requires Run(prog, env, k, d) && Decides(prog, d)
    ensures [] in u && d !in u && d !in runs
    ensures Explored(prog, assumed, Record(u, prog, d), runs + [d], k, [], pool + [(env, d)])
  {
    hide Eval, WellFormed, Width, AllHold, Run, Guest, Inv, Complete, Pooled, RunsOf;
    hide Settled, SettledExcept, Eligible, Reaches, Completes;
    RunsInTree(prog, assumed, State(t, runs, k));
    assert [] in u;
    var s, s' := State(t, runs, k), State(Record(u, prog, d), runs + [d], k);
    ExploreKeepsInv(prog, assumed, s, s', u, o, env, d);
    CompleteGrows(t, s'.tree, prog, assumed, k - 1);
    PooledAfter(prog, t, u, d, env, [], pool);
    RunsOfMore(pool, prog, assumed, k, env, d);
  }

  lemma RunsInTree(prog: Program, assumed: seq<Expr>, s: State)
    requires Conditions(assumed) && Inv(prog, assumed, s)
    ensures forall i :: 0 <= i < |s.runs| ==> s.runs[i] in s.tree
    ensures [] in s.tree
  {
  }

  /** The first of the runs to be replayed was run with one packet more. */
  lemma ReplayExplored(prog: Program, assumed: seq<Expr>, t: Tree, runs: seq<Path>, k: nat,
                       todo: seq<Stored>, pool: seq<Stored>, d: Path)
    requires Conditions(assumed) && Guest(prog) && Explored(prog, assumed, t, runs, k, todo, pool) && todo != []
    requires Run(prog, todo[0].0, k, d) && Decides(prog, d)
    ensures [] in t
    ensures Explored(prog, assumed, Record(t, prog, d), runs + [d], k, todo[1..], pool + [(todo[0].0, d)])
  {
    hide Eval, WellFormed, Width, AllHold, Guest, Inv, Complete, Pooled, Follows;
    var env, p := todo[0].0, todo[0].1;
    RunsInTree(prog, assumed, State(t, runs, k));
    var s, s' := State(t, runs, k), State(Record(t, prog, d), runs + [d], k);
    ReplayKeepsInv(prog, assumed, s, s', env, d);
    CompleteGrows(t, s'.tree, prog, assumed, k - 1);
    RunsOfMore(pool, prog, assumed, k, env, d);
    if p != [] {
      FollowsSome(prog, env, p);
    }
    ReplayGoesOn(prog, env, k, d, p);
    MarkedSame(t);
    PooledAfter(prog, t, t, d, env, todo, pool);
  }

  lemma FollowsSome(prog: Program, env: Env, p: Path)
    requires Follows(prog, env, p) && p != []
    ensures prog(Parent(p)).Some?
  {
  }

  lemma MarkedSame(t: Tree)
    ensures Marked(t, t)
  {
  }

  /** The search never aborts on a tree explored so. */
  lemma ExploredAdmissible(prog: Program, assumed: seq<Expr>, t: Tree, runs: seq<Path>, k: nat, pool: seq<Stored>,
                           u: Tree)
    requires Conditions(assumed) && Guest(prog) && Explored(prog, assumed, t, runs, k, [], pool) && Marked(t, u)
    ensures forall q :: q in u ==> Admissible(assumed, u, q)
  {
    hide Inv;
    forall q | q in u
      ensures Admissible(assumed, u, q)
    {
      RecordedPathsAdmissible(prog, assumed, State(t, runs, k), u, q);
    }
  }

  /** Every path of `k` packets that an input within the assumptions takes has been run. */
  ghost predicate AllRun(prog: Program, assumed: seq<Expr>, k: nat, runs: seq<Path>)
    requires Conditions(assumed)
  {
    forall env: Env, d :: AllHold(assumed, env) && Run(prog, env, k, d) ==> d in runs
  }

  /** The search at `k` packets found nothing: all is run, and what was stopped can be replayed with one packet
      more. */
  lemma ExhaustedAllRun(prog: Program, assumed: seq<Expr>, t: Tree, runs: seq<Path>, k: nat, pool: seq<Stored>, u: Tree)
    requires Conditions(assumed) && Guest(prog) && Explored(prog, assumed, t, runs, k, [], pool)
    requires Searched(t, assumed, k, u, Exhausted)
    ensures AllRun(prog, assumed, k, runs)
    ensures Explored(prog, assumed, u, runs, k + 1, pool, [])
  {
    hide Eval, WellFormed, Width, AllHold, Run, Guest, Inv, Complete;
    var s, s' := State(t, runs, k), State(u, runs, k);
    ExhaustKeepsInv(prog, assumed, s, s');
    CompleteGrows(t, u, prog, assumed, k - 1);
    assert [] + pool == pool && pool + [] == pool;
    forall p {:trigger Stopped(u, prog, p)} | Stopped(u, prog, p)
      ensures Has(pool, p)
    {
      MarkedPlaceholder(t, u, p);
      assert Stopped(t, prog, p);
    }
    PooledPending(prog, assumed, u, k, pool);
    CompleteNext(prog, assumed, s');
    forall env: Env, d | AllHold(assumed, env) && Run(prog, env, k, d)
      ensures d in runs
    {
      CompleteIsRun(prog, assumed, s', env, d);
    }
    InvRaised(prog, assumed, s');
  }

  lemma PooledPending(prog: Program, assumed: seq<Expr>, t: Tree, k: nat, pool: seq<Stored>)
    requires Conditions(assumed) && RunsOf(pool, prog, assumed, k) && Pooled(t, prog, pool)
    ensures NonePending(t, prog, k)
  {
    hide Eval, WellFormed, Width, AllHold, Follows;
    forall p {:trigger t[p]} | p in t && t[p].Placeholder? && prog(p).Some?
      ensures prog(p).value.pktSeqLen > k
    {
      assert Stopped(t, prog, p);
    }
  }

  lemma InvRaised(prog: Program, assumed: seq<Expr>, s: State)
    requires Conditions(assumed) && Inv(prog, assumed, s)
    ensures Inv(prog, assumed, s.(k := s.k + 1))
  {
    hide Shape, Settled, Copy, EndsOfRuns, Feasible;
    if s.runs != [] {
      forall p {:trigger s.tree[p]} | p in s.tree
        ensures WithinAt(s.tree, prog, assumed, s.k + 1, p)
      {
        assert WithinAt(s.tree, prog, assumed, s.k, p);
      }
    }
  }

  /** The values found, and `other` ones for the arrays the assignment says nothing about. */
  function Completion(a: Assignment, other: Env): Env {
    (m, i) => if m in a.names then a.values(m, i) else other(m, i)
  }

  lemma CompletionCompletes(a: Assignment, other: Env, o: Outcome)
    requires o.Found? && o.names == a.names && o.values == a.values
    ensures Completes(Completion(a, other), o)
  {
  }

  // ----- The engine -----

  /** One round: a search, and the run on what it found, with arbitrary values for the arrays
      the assignment says nothing about. */
  method ExploreNext(trace: Trace, prog: Program, runs: seq<Path>, k: nat, ghost pool: seq<Stored>, other: Env,
                     ghost n: nat)
    returns (more: bool, env: Env, d: Path)
    requires trace.Valid() && Guest(prog) && Bounded(prog, k, n)
    requires Explored(prog, trace.assume_cm.constraints, trace.tree.tree, runs, k, [], pool)
    modifies trace.tree, trace.tree.Repr, trace.cm
    ensures trace.Valid() && fresh(trace.tree.Repr - old(trace.tree.Repr))
    ensures more ==> d !in runs
    ensures more ==>
      Explored(prog, trace.assume_cm.constraints, trace.tree.tree, runs + [d], k, [], pool + [(env, d)])
    ensures more ==> |AllPaths(n) - trace.tree.tree.Keys| < |AllPaths(n) - old(trace.tree.tree).Keys|
    ensures !more ==> AllRun(prog, trace.assume_cm.constraints, k, runs)
    ensures !more ==> Explored(prog, trace.assume_cm.constraints, trace.tree.tree, runs, k + 1, pool, [])
  {
    hide Eval, WellFormed, Width, AllHold, Run, Guest, Terminates, Inv, Explored, Searched, Characterises, AllRun;
    hide Record, Marked, Completes, Completion, Bounded, NodeTree.Linked, Shape;
    ghost var assumed, t := trace.assume_cm.constraints, trace.tree.tree;
    env, d := other, [];
    var r, o := trace.FindNewPath(k);
    ghost var u := trace.tree.tree;
    match r
    case Aborted =>
      ExploredAdmissible(prog, assumed, t, runs, k, pool, u);
      assert false;
    case NoPath =>
      ExhaustedAllRun(prog, assumed, t, runs, k, pool, u);
      more := false;
    case NewPath(a) =>
      env := Completion(a, other);
      CompletionCompletes(a, other, o);
      BoundedTerminates(prog, env, k, n);
      d := RunGuest(trace, prog, env, k, n);
      NextRunExplored(prog, assumed, t, runs, k, pool, u, o, env, d);
      RunShrinks(prog, t, u, k, n, env, d);
      more := true;
  }

  /** The search at one packet count, to exhaustion: every path is new, and then all have been run. */
  method ExploreLength(trace: Trace, prog: Program, before: seq<Path>, k: nat, begun: seq<Stored>, ghost n: nat)
    returns (runs: seq<Path>, pool: seq<Stored>)
    requires trace.Valid() && Guest(prog) && Bounded(prog, k, n)
    requires Explored(prog, trace.assume_cm.constraints, trace.tree.tree, before, k, [], begun)
    modifies trace.tree, trace.tree.Repr, trace.cm
    ensures trace.Valid() && fresh(trace.tree.Repr - old(trace.tree.Repr))
    ensures before <= runs && forall i :: |before| <= i < |runs| ==> runs[i] !in runs[..i]
    ensures AllRun(prog, trace.assume_cm.constraints, k, runs)
    ensures Explored(prog, trace.assume_cm.constraints, trace.tree.tree, runs, k + 1, pool, [])
  {
    hide Explored, AllRun, Bounded, Guest, NodeTree.Linked, Shape, WellFormed, Width, Eval;
    runs, pool := before, begun;
    var more := true;
    while more
      invariant trace.Valid() && fresh(trace.tree.Repr - old(trace.tree.Repr))
      invariant before <= runs && forall i :: |before| <= i < |runs| ==> runs[i] !in runs[..i]
      invariant more ==> Explored(prog, trace.assume_cm.constraints, trace.tree.tree, runs, k, [], pool)
      invariant !more ==> AllRun(prog, trace.assume_cm.constraints, k, runs)
      invariant !more ==> Explored(prog, trace.assume_cm.constraints, trace.tree.tree, runs, k + 1, pool, [])
      decreases more, |AllPaths(n) - trace.tree.tree.Keys|
    {
      var other: Env := *;
      var env, d;
      more, env, d := ExploreNext(trace, prog, runs, k, pool, other, n);
      if more {
        assert forall i :: 0 <= i < |runs| ==> (runs + [d])[..i] == runs[..i];
        assert (runs + [d])[..|runs|] == runs;
        runs, pool := runs + [d], pool + [(env, d)];
      }
    }
  }

  /** The replays of all stored runs with one packet more. */
  method ReplayAll(trace: Trace, prog: Program, before: seq<Path>, k: nat, todo: seq<Stored>, ghost n: nat)
    returns (runs: seq<Path>, pool: seq<Stored>)
    requires trace.Valid() && Guest(prog) && Bounded(prog, k, n)
    requires Explored(prog, trace.assume_cm.constraints, trace.tree.tree, before, k, todo, [])
    modifies trace.tree, trace.tree.Repr, trace.cm
    ensures trace.Valid() && fresh(trace.tree.Repr - old(trace.tree.Repr)) && before <= runs
    ensures Explored(prog, trace.assume_cm.constraints, trace.tree.tree, runs, k, [], pool)
  {
    hide Explored, Bounded, Guest, NodeTree.Linked, Shape, WellFormed, Width, Eval, Run, Decides, Record, Characterises;
    runs, pool := before, [];
    assert todo[0..] == todo;
    for i := 0 to |todo|
      invariant trace.Valid() && fresh(trace.tree.Repr - old(trace.tree.Repr)) && before <= runs
      invariant Explored(prog, trace.assume_cm.constraints, trace.tree.tree, runs, k, todo[i..], pool)
    {
      var env := todo[i].0;
      assert todo[i..][0] == todo[i] && todo[i..][1..] == todo[i + 1..];
      ghost var t := trace.tree.tree;
      BoundedTerminates(prog, env, k, n);
      var d := RunGuest(trace, prog, env, k, n);
      ReplayExplored(prog, trace.assume_cm.constraints, t, runs, k, todo[i..], pool, d);
      runs, pool := runs + [d], pool + [(env, d)];
    }
  }

  /** The engine at packet count one, from the first run to exhaustion: it ends, no path is run
      twice, and every path that an input within the assumptions takes is run. */
  method ExploreAll(trace: Trace, prog: Program, first: Env, ghost n: nat) returns (runs: seq<Path>, pool: seq<Stored>)
    requires trace.Valid() && trace.tree.tree == Empty && Guest(prog) && Bounded(prog, 1, n)
    requires AllHold(trace.assume_cm.constraints, first)
    modifies trace.tree, trace.tree.Repr, trace.cm
    ensures trace.Valid() && fresh(trace.tree.Repr - old(trace.tree.Repr))
    ensures forall i :: 0 <= i < |runs| ==> runs[i] !in runs[..i]
    ensures AllRun(prog, trace.assume_cm.constraints, 1, runs)
    ensures Explored(prog, trace.assume_cm.constraints, trace.tree.tree, runs, 2, pool, [])
  {
    hide AllHold, Run, Guest, Bounded, Terminates, Explored, Characterises, AllRun, Record, NodeTree.Linked, Shape;
    hide WellFormed, Width, Eval;
    BoundedTerminates(prog, first, 1, n);
    var d := RunGuest(trace, prog, first, 1, n);
    FirstRunExplored(prog, trace.assume_cm.constraints, first, d);
    runs, pool := ExploreLength(trace, prog, [d], 1, [(first, d)], n);
  }

  /** The engine at the packet counts up to `m`: what was stopped at one count is replayed at the next, and then
      searched to exhaustion.  It ends, and every path of up to `m` packets that an input within the assumptions
      takes has been run, of software that may go on taking packets for ever. */
  method ExploreLengths(trace: Trace, prog: Program, first: Env, m: nat, ghost n: nat) returns (runs: seq<Path>)
    requires trace.Valid() && trace.tree.tree == Empty && Guest(prog) && 1 <= m && Bounded(prog, m, n)
    requires AllHold(trace.assume_cm.constraints, first)
    modifies trace.tree, trace.tree.Repr, trace.cm
    ensures trace.Valid()
    ensures forall k :: 1 <= k <= m ==> AllRun(prog, trace.assume_cm.constraints, k, runs)
  {
    hide AllHold, Run, Guest, Bounded, Explored, AllRun, NodeTree.Linked, Shape, WellFormed, Width, Eval;
    BoundedBefore(prog, 1, m, n);
    var todo, pool;
    runs, todo := ExploreAll(trace, prog, first, n);
    for k := 1 to m
      invariant trace.Valid() && fresh(trace.tree.Repr - old(trace.tree.Repr))
      invariant forall j :: 1 <= j <= k ==> AllRun(prog, trace.assume_cm.constraints, j, runs)
      invariant Explored(prog, trace.assume_cm.constraints, trace.tree.tree, runs, k + 1, todo, [])
    {
      BoundedBefore(prog, k + 1, m, n);
      ghost var before := runs;
      runs, pool := ReplayAll(trace, prog, runs, k + 1, todo, n);
      runs, todo := ExploreLength(trace, prog, runs, k + 1, pool, n);
      forall j | 1 <= j <= k
        ensures AllRun(prog, trace.assume_cm.constraints, j, runs)
      {
        AllRunMore(prog, trace.assume_cm.constraints, j, before, runs);
      }
    }
  }

  lemma AllRunMore(prog: Program, assumed: seq<Expr>, k: nat, runs: seq<Path>, more: seq<Path>)
    requires Conditions(assumed) && AllRun(prog, assumed, k, runs) && runs <= more
    ensures AllRun(prog, assumed, k, more)
  {
    hide AllHold, Run;
    assert more == runs + more[|runs|..];
  }
}
