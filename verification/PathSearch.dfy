/** Whole explorations: runs of a deterministic guest recorded in the execution tree, and
    searches for the next input, over any number of rounds. */
module PathSearch {
  import opened Expr
  import opened Constraints
  import opened ExecutionTree

  // ----- Runs of the guest -----

  /** The decisions of the run on `env` that is stopped after `k` packets. */
  ghost predicate Run(prog: Program, env: Env, k: nat, d: Path) {
    && Follows(prog, env, d)
    && (d != [] ==> prog(Parent(d)).value.pktSeqLen <= k)
    && (prog(d).Some? ==> prog(d).value.pktSeqLen > k)
  }

  lemma {:induction false} FollowsDecides(prog: Program, env: Env, d: Path)
    requires Follows(prog, env, d)
    ensures Decides(prog, d)
    decreases |d|
  {
    if d != [] {
      FollowsDecides(prog, env, Parent(d));
    }
  }

  lemma {:induction false} FollowsPrefix(prog: Program, env: Env, d: Path, i: nat)
    requires Follows(prog, env, d) && i <= |d|
    ensures Follows(prog, env, d[..i])
    ensures i < |d| ==> prog(d[..i]).Some?
    decreases |d|
  {
    if i == |d| {
      assert d[..i] == d;
    } else {
      FollowsPrefix(prog, env, Parent(d), i);
      assert Parent(d)[..i] == d[..i];
    }
  }

  /** One input decides one way: its paths extend one another. */
  lemma {:induction false} FollowsUnique(prog: Program, env: Env, a: Path, b: Path)
    requires Follows(prog, env, a) && Follows(prog, env, b) && |a| <= |b|
    ensures IsPrefix(a, b)
    decreases |a|
  {
    if a != [] {
      FollowsUnique(prog, env, Parent(a), b);
      var i := |a| - 1;
      FollowsPrefix(prog, env, b, i + 1);
      assert Parent(b[..i + 1]) == b[..i] == Parent(a);
      assert Last(b[..i + 1]) == b[i] == Last(a);
      ChildOfParent(a);
      ChildOfParent(b[..i + 1]);
    }
  }

  lemma {:induction false} PacketsGrow(prog: Program, d: Path, i: nat)
    requires Guest(prog) && prog(d).Some? && i <= |d|
    ensures prog(d[..i]).Some? && prog(d[..i]).value.pktSeqLen <= prog(d).value.pktSeqLen
    decreases |d|
  {
    if i == |d| {
      assert d[..i] == d;
    } else {
      ChildOfParent(d);
      PacketsGrow(prog, Parent(d), i);
      assert Parent(d)[..i] == d[..i];
    }
  }

  /** A run takes every branch that its input decides within the packets it may process. */
  lemma RunPasses(prog: Program, env: Env, k: nat, d: Path, q: Path)
    requires Guest(prog) && Run(prog, env, k, d) && Follows(prog, env, q)
    requires q != [] && prog(Parent(q)).value.pktSeqLen <= k
    ensures IsPrefix(q, d)
  {
    if |q| <= |d| {
      FollowsUnique(prog, env, q, d);
    } else {
      FollowsUnique(prog, env, d, q);
      assert Parent(q)[..|d|] == d;
      PacketsGrow(prog, Parent(q), |d|);
    }
  }

  // ----- What a search promises -----

  datatype Outcome = Exhausted | Found(at: Path, side: bool, names: set<string>, values: Env)

  /** `env` gives the arrays of the assignment the values it found, and any others to the rest. */
  ghost predicate Completes(env: Env, o: Outcome)
    requires o.Found?
  {
    forall n, i {:trigger env(n, i)} :: n in o.names ==> env(n, i) == o.values(n, i)
  }

  /** `findNewPath(k)` took the tree `t` to `u` and returned `o`. */
  ghost predicate Searched(t: Tree, assume_cs: seq<Expr>, k: nat, u: Tree, o: Outcome)
    requires Conditions(assume_cs)
  {
    && Marked(t, u)
    && match o
       case Exhausted =>
         && (forall p {:trigger Eligible(u, k, p)} :: !Eligible(u, k, p))
         && (Settled(t, assume_cs) ==> Settled(u, assume_cs))
       case Found(p, b, _, _) =>
         && p in u && u[p].Inner? && u[p].branch.pktSeqLen >= k && Child(p, b) !in u
         && !t[p].negated && u[p].negated && b == Untaken(u, p)
         && (Settled(t, assume_cs) ==> SettledExcept(u, assume_cs, p))
         && (forall env: Env :: Completes(env, o) ==> AllHold(assume_cs, env) && Reaches(u, env, Child(p, b)))
  }

  /** What the rounds of a search have kept so far. */
  ghost predicate Searching(t: Tree, assume_cs: seq<Expr>, u: Tree)
    requires Conditions(assume_cs)
  {
    Shape(u) && Marked(t, u) && (Settled(t, assume_cs) ==> Settled(u, assume_cs))
  }

  lemma SearchBegins(t: Tree, assume_cs: seq<Expr>)
    requires Conditions(assume_cs) && Shape(t)
    ensures Searching(t, assume_cs, t)
  {
  }

  lemma SearchMarks(t: Tree, assume_cs: seq<Expr>, u: Tree)
    requires Conditions(assume_cs) && Searching(t, assume_cs, u)
    ensures Marked(t, u)
  {
  }

  /** A round of the search in which the solver found no model. */
  lemma RoundWithoutModel(t: Tree, u: Tree, assume_cs: seq<Expr>, k: nat, q: Path)
    requires Conditions(assume_cs) && Searching(t, assume_cs, u) && Eligible(u, k, q)
    requires forall env: Env :: !(AllHold(assume_cs, env) && Reaches(u, env, Child(q, Untaken(u, q))))
    ensures Searching(t, assume_cs, Negate(u, q))
    ensures |Unnegated(Negate(u, q))| < |Unnegated(u)|
  {
    hide Reaches, AllHold, WellFormed, Width;
    var v := Negate(u, q);
    NegateMarks(u, q);
    NegateShrinks(u, q);
    MarkedTransitive(t, u, v);
    MarkedShape(u, v);
    if Settled(u, assume_cs) {
      NegateSettles(u, assume_cs, q);
      UntakenMissing(u, q);
      forall p, b
        ensures SettledAt(v, assume_cs, p, b)
      {
        if p == q && Child(p, b) !in v {
          forall env: Env
            ensures Reaches(u, env, Child(p, b)) <==> Reaches(v, env, Child(p, b))
          {
            MarkedReaches(u, v, env, Child(p, b));
          }
        }
      }
    }
  }

  /** The round of the search in which the solver found a model. */
  lemma RoundWithModel(t: Tree, u: Tree, assume_cs: seq<Expr>, k: nat, q: Path, o: Outcome)
    requires Conditions(assume_cs) && Searching(t, assume_cs, u) && Eligible(u, k, q)
    requires o.Found? && o.at == q && o.side == Untaken(u, q)
    requires forall env: Env :: Completes(env, o) ==> AllHold(assume_cs, env) && Reaches(u, env, Child(q, o.side))
    ensures Searched(t, assume_cs, k, Negate(u, q), o) && Marked(t, Negate(u, q))
  {
    hide Reaches, AllHold, WellFormed, Width;
    var v := Negate(u, q);
    NegateMarks(u, q);
    MarkedTransitive(t, u, v);
    UntakenMissing(u, q);
    if Settled(u, assume_cs) {
      NegateSettles(u, assume_cs, q);
    }
    forall env: Env | Completes(env, o)
      ensures AllHold(assume_cs, env) && Reaches(v, env, Child(q, o.side))
    {
      MarkedReaches(u, v, env, Child(q, o.side));
    }
    assert u[q] == u[q];
  }

  /** The round of the search that selected no branch. */
  lemma RoundWithoutBranch(t: Tree, u: Tree, assume_cs: seq<Expr>, k: nat)
    requires Conditions(assume_cs) && Searching(t, assume_cs, u) && NoneFrom(u, k, [])
    ensures Searched(t, assume_cs, k, u, Exhausted)
  {
    forall p: Path {:trigger Eligible(u, k, p)}
      ensures !Eligible(u, k, p)
    {
      assert p[..0] == [];
    }
  }

  // ----- Explorations -----

  datatype State = State(tree: Tree, runs: seq<Path>, k: nat)

  ghost predicate Initial(s: State) {
    s.tree == Empty && s.runs == [] && s.k == 1
  }

  /** A run on some input within the assumptions: the first run, or a replay of a stored one,
      possibly with more packets than before. */
  ghost predicate Replay(prog: Program, assume_cs: seq<Expr>, s: State, s': State, env: Env, d: Path)
    requires Conditions(assume_cs)
  {
    && s.k <= s'.k && AllHold(assume_cs, env) && Run(prog, env, s'.k, d)
    && Decides(prog, d) && [] in s.tree
    && s' == State(Record(s.tree, prog, d), s.runs + [d], s'.k)
  }

  /** A search at the current packet count that finds an assignment, and the run on it, for which the packet
      count may have been raised since. */
  ghost predicate Explore(prog: Program, assume_cs: seq<Expr>, s: State, s': State, u: Tree, o: Outcome, env: Env,
                          d: Path)
    requires Conditions(assume_cs)
  {
    && Searched(s.tree, assume_cs, s.k, u, o) && o.Found? && Completes(env, o)
    && s.k <= s'.k && Run(prog, env, s'.k, d) && Decides(prog, d) && [] in u
    && s' == State(Record(u, prog, d), s.runs + [d], s'.k)
  }

  /** A search that finds nothing. */
  ghost predicate Exhaust(assume_cs: seq<Expr>, s: State, s': State)
    requires Conditions(assume_cs)
  {
    Searched(s.tree, assume_cs, s.k, s'.tree, Exhausted) && s' == s.(tree := s'.tree)
  }

  datatype Action = Replays(env: Env, d: Path) | Explores(u: Tree, o: Outcome, env: Env, d: Path) | Exhausts

  ghost predicate Next(prog: Program, assume_cs: seq<Expr>, s: State, a: Action, s': State)
    requires Conditions(assume_cs)
  {
    match a
    case Replays(env, d) => Replay(prog, assume_cs, s, s', env, d)
    case Explores(u, o, env, d) => Explore(prog, assume_cs, s, s', u, o, env, d)
    case Exhausts => Exhaust(assume_cs, s, s')
  }

  ghost predicate Feasible(prog: Program, assume_cs: seq<Expr>, p: Path)
    requires Conditions(assume_cs)
  {
    exists env: Env :: AllHold(assume_cs, env) && Follows(prog, env, p)
  }

  /** Before the first run the tree is empty.  Afterwards it is a pruned copy of the guest's
      decisions, in which placeholders are exactly the childless nodes; each of its paths is
      taken by some admissible input; its branches lie within the packets allowed so far; a
      placeholder is the end of a run; and every branch negated so far is settled. */
  ghost predicate Inv(prog: Program, assume_cs: seq<Expr>, s: State)
    requires Conditions(assume_cs)
  {
    && s.k >= 1 && Shape(s.tree) && Copy(s.tree, prog) && Settled(s.tree, assume_cs)
    && (s.runs == [] ==> s.tree == Empty)
    && (s.runs != [] ==> Within(s.tree, prog, assume_cs, s.k))
    && (forall i :: 0 <= i < |s.runs| ==> s.runs[i] in s.tree)
    && (s.runs != [] ==> EndsOfRuns(s.tree, s.runs))
  }

  ghost predicate EndsOfRuns(t: Tree, runs: seq<Path>) {
    forall p {:trigger t[p]} :: p in t && t[p].Placeholder? ==> p in runs
  }

  ghost predicate Within(t: Tree, prog: Program, assume_cs: seq<Expr>, k: nat)
    requires Conditions(assume_cs)
  {
    forall p {:trigger t[p]} :: p in t ==> WithinAt(t, prog, assume_cs, k, p)
  }

  ghost predicate WithinAt(t: Tree, prog: Program, assume_cs: seq<Expr>, k: nat, p: Path)
    requires Conditions(assume_cs) && p in t
  {
    && Feasible(prog, assume_cs, p)
    && (t[p].Inner? ==> t[p].branch.pktSeqLen <= k)
    && (t[p].Placeholder? && prog(p).Some? ==> StoppedAt(prog, p))
  }

  /** A run was stopped here: the next branch is met with more packets than the one before it, and with more
      than one. */
  ghost predicate StoppedAt(prog: Program, p: Path)
    requires prog(p).Some?
  {
    && prog(p).value.pktSeqLen > 1
    && (p != [] ==> prog(Parent(p)).Some? && prog(Parent(p)).value.pktSeqLen < prog(p).value.pktSeqLen)
  }

  // ----- Recording keeps the invariant -----

  lemma RecordKeepsWithin(t: Tree, prog: Program, assume_cs: seq<Expr>, k: nat, k': nat, env: Env, d: Path)
    requires Conditions(assume_cs) && Guest(prog) && [] in t && 1 <= k <= k'
    requires t == Empty || Within(t, prog, assume_cs, k)
    requires AllHold(assume_cs, env) && Run(prog, env, k', d) && Decides(prog, d)
    ensures Within(Record(t, prog, d), prog, assume_cs, k')
  {
    var r := Record(t, prog, d);
    forall p {:trigger r[p]} | p in r
      ensures WithinAt(r, prog, assume_cs, k', p)
    {
      RecordAt(t, prog, d, p);
      if IsPrefix(p, d) {
        FollowsPrefix(prog, env, d, |p|);
        if p != d && !(p in t && t[p].Inner?) {
          assert Parent(d)[..|p|] == p;
          PacketsGrow(prog, Parent(d), |p|);
        }
      } else {
        assert IsPrefix([], d);
        assert t[p] == t[p];
      }
    }
  }

  lemma RecordEndsRuns(t: Tree, prog: Program, runs: seq<Path>, d: Path)
    requires [] in t && Decides(prog, d) && (t == Empty || EndsOfRuns(t, runs))
    ensures EndsOfRuns(Record(t, prog, d), runs + [d])
  {
    var r := Record(t, prog, d);
    assert (runs + [d])[|runs|] == d;
    forall p {:trigger r[p]} | p in r && r[p].Placeholder?
      ensures p in runs + [d]
    {
      RecordAt(t, prog, d, p);
      if p != d {
        assert IsPrefix([], d);
        assert t[p] == Placeholder;
        var i :| 0 <= i < |runs| && runs[i] == p;
        assert (runs + [d])[i] == p;
      }
    }
  }

  /** Running the missing side of every unsettled branch settles the tree again. */
  lemma RecordSettles(t: Tree, prog: Program, assume_cs: seq<Expr>, d: Path)
    requires Conditions(assume_cs) && Guest(prog) && Shape(t) && Copy(t, prog) && Decides(prog, d)
    requires forall p, b :: SettledAt(t, assume_cs, p, b) || IsPrefix(Child(p, b), d)
    ensures Settled(Record(t, prog, d), assume_cs)
  {
    var r := Record(t, prog, d);
    RecordKeepsShape(t, prog, d);
    RecordKeepsCopy(t, prog, d);
    forall p, b
      ensures SettledAt(r, assume_cs, p, b)
    {
      RecordAt(t, prog, d, p);
      RecordAt(t, prog, d, Child(p, b));
      ParentOfChild(p, b);
      if p in r && r[p].Inner? && r[p].negated && Child(p, b) !in r {
        assert SettledAt(t, assume_cs, p, b);
        forall env: Env
          ensures Reaches(t, env, Child(p, b)) <==> Reaches(r, env, Child(p, b))
        {
          ReachesIsFollows(t, prog, env, Child(p, b));
          ReachesIsFollows(r, prog, env, Child(p, b));
        }
      }
    }
  }

  lemma ReplayKeepsInv(prog: Program, assume_cs: seq<Expr>, s: State, s': State, env: Env, d: Path)
    requires Conditions(assume_cs) && Guest(prog) && Inv(prog, assume_cs, s) && Replay(prog, assume_cs, s, s', env, d)
    ensures Inv(prog, assume_cs, s')
  {
    RecordKeepsShape(s.tree, prog, d);
    RecordKeepsCopy(s.tree, prog, d);
    RecordSettles(s.tree, prog, assume_cs, d);
    RecordKeepsWithin(s.tree, prog, assume_cs, s.k, s'.k, env, d);
    RecordEndsRuns(s.tree, prog, s.runs, d);
  }

  lemma MarkedKeeps(t: Tree, u: Tree, prog: Program, assume_cs: seq<Expr>, k: nat, runs: seq<Path>)
    requires Conditions(assume_cs) && Marked(t, u) && Shape(t) && Copy(t, prog)
    ensures Shape(u) && Copy(u, prog)
    ensures Within(t, prog, assume_cs, k) ==> Within(u, prog, assume_cs, k)
    ensures t == Empty ==> u == Empty
    ensures EndsOfRuns(t, runs) ==> EndsOfRuns(u, runs)
  {
    MarkedShape(t, u);
    forall p {:trigger u[p]} | p in u && u[p].Inner?
      ensures prog(p) == Some(u[p].branch)
    {
      assert t[p] == t[p];
    }
    if Within(t, prog, assume_cs, k) {
      forall p {:trigger u[p]} | p in u
        ensures WithinAt(u, prog, assume_cs, k, p)
      {
        assert WithinAt(t, prog, assume_cs, k, p);
      }
    }
    if t == Empty {
      assert u[[]] == t[[]];
    }
  }

  lemma ExhaustKeepsInv(prog: Program, assume_cs: seq<Expr>, s: State, s': State)
    requires Conditions(assume_cs) && Guest(prog) && Inv(prog, assume_cs, s) && Exhaust(assume_cs, s, s')
    ensures Inv(prog, assume_cs, s')
  {
    MarkedKeeps(s.tree, s'.tree, prog, assume_cs, s.k, s.runs);
  }

  /** The run on a found assignment follows the selected prefix and then takes the missing
      side, so its path was not in the tree; and all it adds lies below that missing child. */
  lemma FoundRunIsNew(t: Tree, prog: Program, env: Env, k: nat, p: Path, b: bool, d: Path)
    requires Guest(prog) && Shape(t) && Copy(t, prog)
    requires p in t && t[p].Inner? && t[p].branch.pktSeqLen <= k && Child(p, b) !in t
    requires Reaches(t, env, Child(p, b)) && Run(prog, env, k, d) && Decides(prog, d)
    ensures IsPrefix(Child(p, b), d) && d !in t
    ensures forall q {:trigger q in Record(t, prog, d)} :: q in Record(t, prog, d) && q !in t ==>
            IsPrefix(Child(p, b), q)
  {
    var c := Child(p, b);
    ParentOfChild(p, b);
    assert prog(p) == Some(t[p].branch);
    ReachesIsFollows(t, prog, env, c);
    RunPasses(prog, env, k, d, c);
    forall q | IsPrefix(c, d) && IsPrefix(q, d) && q !in t
      ensures IsPrefix(c, q)
    {
      if |q| < |c| {
        assert c[..|q|] == d[..|q|] == q;
        assert p[..|q|] == c[..|q|];
        PrefixInTree(t, p, |q|);
      } else {
        assert q[..|c|] == d[..|c|];
      }
    }
    forall q {:trigger q in Record(t, prog, d)} | q in Record(t, prog, d) && q !in t
      ensures IsPrefix(c, q)
    {
      RecordAt(t, prog, d, q);
    }
    if d in t {
      PrefixInTree(t, d, |c|);
    }
  }

  lemma FoundRunSettles(t: Tree, prog: Program, assume_cs: seq<Expr>, p: Path, b: bool, d: Path)
    requires Conditions(assume_cs) && Guest(prog) && Shape(t) && Copy(t, prog) && Decides(prog, d)
    requires p in t && t[p].Inner? && Child(p, b) !in t && b == Untaken(t, p)
    requires SettledExcept(t, assume_cs, p) && IsPrefix(Child(p, b), d)
    ensures Settled(Record(t, prog, d), assume_cs)
  {
    UntakenMissing(t, p);
    forall q, c
      ensures SettledAt(t, assume_cs, q, c) || IsPrefix(Child(q, c), d)
    {
    }
    RecordSettles(t, prog, assume_cs, d);
  }

  /** The branch that was searched for, in the tree as the search left it. */
  lemma SearchedBranch(prog: Program, assume_cs: seq<Expr>, s: State, u: Tree, o: Outcome)
    requires Conditions(assume_cs) && Inv(prog, assume_cs, s)
    requires Searched(s.tree, assume_cs, s.k, u, o) && o.Found?
    ensures s.runs != [] && Shape(u) && Copy(u, prog) && Within(u, prog, assume_cs, s.k) && EndsOfRuns(u, s.runs)
    ensures o.at in u && u[o.at].Inner? && u[o.at].branch.pktSeqLen <= s.k
  {
    hide Eval, WellFormed, Width, AllHold, Reaches, Settled, SettledExcept, Completes, Feasible;
    assert s.runs != [] by {
      assert s.tree[o.at] == s.tree[o.at];
    }
    MarkedKeeps(s.tree, u, prog, assume_cs, s.k, s.runs);
    assert WithinAt(u, prog, assume_cs, s.k, o.at);
  }

  /** The run on what was found takes the missing side and settles the tree. */
  lemma ExploredRun(prog: Program, assume_cs: seq<Expr>, s: State, k: nat, u: Tree, o: Outcome, env: Env, d: Path)
    requires Conditions(assume_cs) && Guest(prog) && Settled(s.tree, assume_cs) && Shape(u) && Copy(u, prog)
    requires Searched(s.tree, assume_cs, s.k, u, o) && o.Found? && Completes(env, o)
    requires u[o.at].branch.pktSeqLen <= k && Run(prog, env, k, d) && Decides(prog, d)
    ensures IsPrefix(Child(o.at, o.side), d) && d !in u && AllHold(assume_cs, env)
    ensures Settled(Record(u, prog, d), assume_cs)
  {
    hide Eval, WellFormed, Width, AllHold, Reaches, Decides, Child, Untaken, Run, Guest, Shape, Copy, Completes;
    hide Settled, SettledExcept;
    FoundRunIsNew(u, prog, env, k, o.at, o.side, d);
    FoundRunSettles(u, prog, assume_cs, o.at, o.side, d);
  }

  lemma ExploreKeepsInv(prog: Program, assume_cs: seq<Expr>, s: State, s': State, u: Tree, o: Outcome, env: Env,
                        d: Path)
    requires Conditions(assume_cs) && Guest(prog) && Inv(prog, assume_cs, s)
    requires Explore(prog, assume_cs, s, s', u, o, env, d)
    ensures Inv(prog, assume_cs, s')
    ensures IsPrefix(Child(o.at, o.side), d) && d !in s.tree
  {
    hide Eval, WellFormed, Width, AllHold, Decides, Child, Run, Guest, Shape, Copy, Settled, Within, EndsOfRuns;
    SearchedBranch(prog, assume_cs, s, u, o);
    ExploredRun(prog, assume_cs, s, s'.k, u, o, env, d);
    RecordKeepsShape(u, prog, d);
    RecordKeepsCopy(u, prog, d);
    RecordKeepsWithin(u, prog, assume_cs, s.k, s'.k, env, d);
    RecordEndsRuns(u, prog, s.runs, d);
  }

  lemma NextKeepsInv(prog: Program, assume_cs: seq<Expr>, s: State, a: Action, s': State)
    requires Conditions(assume_cs) && Guest(prog) && Inv(prog, assume_cs, s) && Next(prog, assume_cs, s, a, s')
    ensures Inv(prog, assume_cs, s')
  {
    match a
    case Replays(env, d) => ReplayKeepsInv(prog, assume_cs, s, s', env, d);
    case Explores(u, o, env, d) => ExploreKeepsInv(prog, assume_cs, s, s', u, o, env, d);
    case Exhausts => ExhaustKeepsInv(prog, assume_cs, s, s');
  }

  // ----- Whole explorations -----

  /** `states[i + 1]` is reached from `states[i]` by `actions[i]`. */
  ghost predicate Exploration(prog: Program, assume_cs: seq<Expr>, states: seq<State>, actions: seq<Action>)
    requires Conditions(assume_cs)
  {
    && |states| == |actions| + 1 && Initial(states[0])
    && forall i :: 0 <= i < |actions| ==> Next(prog, assume_cs, states[i], actions[i], states[i + 1])
  }

  lemma {:induction false} InvHolds(prog: Program, assume_cs: seq<Expr>, states: seq<State>, actions: seq<Action>,
                                    i: nat)
    requires Conditions(assume_cs) && Guest(prog) && Exploration(prog, assume_cs, states, actions) && i < |states|
    ensures Inv(prog, assume_cs, states[i])
  {
    hide Inv, Next, Guest;
    if i > 0 {
      InvHolds(prog, assume_cs, states, actions, i - 1);
      assert Next(prog, assume_cs, states[i - 1], actions[i - 1], states[i]);
      NextKeepsInv(prog, assume_cs, states[i - 1], actions[i - 1], states[i]);
    } else {
      InitialInv(prog, assume_cs, states[0]);
    }
  }

  lemma InitialInv(prog: Program, assume_cs: seq<Expr>, s: State)
    requires Conditions(assume_cs) && Initial(s)
    ensures Inv(prog, assume_cs, s)
  {
    hide Eval, WellFormed, Width, AllHold;
    ParentOfChild([], true);
    ParentOfChild([], false);
  }

  /** In every exploration, each run on a found assignment takes a path that no earlier run took. */
  lemma ExploredRunsAreNew(prog: Program, assume_cs: seq<Expr>, states: seq<State>, actions: seq<Action>, i: nat)
    requires Conditions(assume_cs) && Guest(prog) && Exploration(prog, assume_cs, states, actions)
    requires i < |actions| && actions[i].Explores?
    ensures actions[i].d !in states[i].runs && actions[i].d in states[i + 1].runs
  {
    InvHolds(prog, assume_cs, states, actions, i);
    var a := actions[i];
    assert Next(prog, assume_cs, states[i], a, states[i + 1]);
    ExploreKeepsInv(prog, assume_cs, states[i], states[i + 1], a.u, a.o, a.env, a.d);
    assert states[i + 1].runs[|states[i].runs|] == a.d;
  }

  /** Where an admissible input's run leaves the tree of an exhausted search at packet count
      `k`: at a branch first met with fewer packets, or where a run with fewer packets ended, whose last branch
      was. */
  lemma WhereRunsLeave(prog: Program, assume_cs: seq<Expr>, s: State, env: Env, d: Path) returns (i: nat)
    requires Conditions(assume_cs) && Guest(prog) && Inv(prog, assume_cs, s) && s.runs != []
    requires forall p {:trigger Eligible(s.tree, s.k, p)} :: !Eligible(s.tree, s.k, p)
    requires AllHold(assume_cs, env) && Run(prog, env, s.k, d) && d !in s.tree
    ensures i < |d| && d[..i] in s.tree && d[..i + 1] !in s.tree
    ensures prog(d[..i]).Some? && prog(d[..i]).value.pktSeqLen <= s.k
    ensures s.tree[d[..i]].Inner? ==> prog(d[..i]).value.pktSeqLen < s.k
    ensures s.tree[d[..i]].Placeholder? ==> prog(d[..i]).value.pktSeqLen > 1
    ensures s.tree[d[..i]].Placeholder? && i > 0 ==> prog(d[..i - 1]).Some? && prog(d[..i - 1]).value.pktSeqLen < s.k
  {
    hide Eval, WellFormed, Width, AllHold, Settled, Within, Copy, EndsOfRuns, Eligible, Guest;
    i := LeavingPoint(s.tree, d);
    FollowsPrefix(prog, env, d, i);
    FollowsPrefix(prog, env, d, i + 1);
    assert Parent(d)[..i] == d[..i];
    PacketsGrow(prog, Parent(d), i);
    assert d[..i + 1] == Child(d[..i], d[i]);
    ParentOfChild(d[..i], d[i]);
    LeavesUnnegated(prog, assume_cs, s, env, d[..i], d[i]);
    assert i > 0 ==> Parent(d[..i]) == d[..i - 1];
  }

  lemma LeavesUnnegated(prog: Program, assume_cs: seq<Expr>, s: State, env: Env, p: Path, b: bool)
    requires Conditions(assume_cs) && Guest(prog) && Inv(prog, assume_cs, s) && s.runs != []
    requires p in s.tree && !Eligible(s.tree, s.k, p) && Child(p, b) !in s.tree && prog(p).Some?
    requires AllHold(assume_cs, env) && Follows(prog, env, Child(p, b))
    ensures if s.tree[p].Inner? then prog(p).value.pktSeqLen < s.k else StoppedAt(prog, p)
  {
    var t := s.tree;
    assert WithinAt(t, prog, assume_cs, s.k, p);
    if t[p].Inner? {
      assert SettledAt(t, assume_cs, p, b);
      ParentOfChild(p, b);
      ReachesIsFollows(t, prog, env, Child(p, b));
    }
  }

  lemma LeavingPoint(t: Tree, d: Path) returns (i: nat)
    requires [] in t && d !in t
    ensures i < |d| && d[..i] in t && d[..i + 1] !in t
  {
    i := 0;
    assert d[..|d|] == d;
    while d[..i + 1] in t
      invariant i < |d| && d[..i] in t
      decreases |d| - i
    {
      i := i + 1;
    }
  }

  lemma ExhaustedTreeHoldsAllRuns(prog: Program, assume_cs: seq<Expr>, s: State, env: Env, d: Path)
    requires Conditions(assume_cs) && Guest(prog) && Inv(prog, assume_cs, s) && s.runs != [] && s.k == 1
    requires forall p {:trigger Eligible(s.tree, s.k, p)} :: !Eligible(s.tree, s.k, p)
    requires AllHold(assume_cs, env) && Run(prog, env, 1, d)
    ensures d in s.runs
  {
    hide Eval, WellFormed, Width, AllHold, Follows, Shape, Settled;
    if d !in s.tree {
      var _ := WhereRunsLeave(prog, assume_cs, s, env, d);
      assert false;
    }
    assert WithinAt(s.tree, prog, assume_cs, 1, d);
  }

  /** Exhaustion is complete: when, in any exploration, the search at packet count one finds
      nothing, every path an admissible input can take has been run. */
  lemma ExhaustionIsComplete(prog: Program, assume_cs: seq<Expr>, states: seq<State>, actions: seq<Action>, i: nat,
                             env: Env, d: Path)
    requires Conditions(assume_cs) && Guest(prog) && Exploration(prog, assume_cs, states, actions)
    requires i < |actions| && actions[i].Exhausts? && states[i].k == 1 && states[i].runs != []
    requires AllHold(assume_cs, env) && Run(prog, env, 1, d)
    ensures d in states[i].runs
  {
    hide Eval, WellFormed, Width, AllHold, Inv, Run, Guest;
    InvHolds(prog, assume_cs, states, actions, i + 1);
    assert Next(prog, assume_cs, states[i], actions[i], states[i + 1]);
    ExhaustedTreeHoldsAllRuns(prog, assume_cs, states[i + 1], env, d);
  }
}
