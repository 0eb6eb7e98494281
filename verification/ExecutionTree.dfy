/** The execution tree of the concolic engine as a value: the branches met so far, indexed by
    the decisions that lead to them, and what recording a run and selecting a branch do to it. */
module ExecutionTree {
  import opened Expr
  import opened Constraints

  /** Decisions taken from the root: true where the branch condition held. */
  type Path = seq<bool>

  datatype Branch = Branch(cond: Expr, addr: nat, pktSeqLen: nat)

  datatype Entry = Placeholder | Inner(branch: Branch, negated: bool)

  type Tree = map<Path, Entry>

  const Empty: Tree := map[[] := Placeholder]

  function Child(p: Path, b: bool): Path {
    p + [b]
  }

  function Parent(p: Path): Path
    requires p != []
  {
    p[..|p| - 1]
  }

  function Last(p: Path): bool
    requires p != []
  {
    p[|p| - 1]
  }

  lemma ChildOfParent(p: Path)
    requires p != []
    ensures Child(Parent(p), Last(p)) == p
  {
  }

  lemma ParentOfChild(p: Path, b: bool)
    ensures Child(p, b) != [] && Parent(Child(p, b)) == p && Last(Child(p, b)) == b
  {
  }

  lemma ChildParts()
    ensures forall p, b {:trigger Child(p, b)} ::
              Child(p, b) != [] && Parent(Child(p, b)) == p && Last(Child(p, b)) == b
  {
    forall p, b {:trigger Child(p, b)}
      ensures Child(p, b) != [] && Parent(Child(p, b)) == p && Last(Child(p, b)) == b
    {
      ParentOfChild(p, b);
    }
  }

  // ----- Shape -----

  /** Only branches have children, and every branch has at least one: placeholders are exactly
      the childless nodes. */
  ghost predicate Shape(t: Tree) {
    && [] in t
    && (forall p, b {:trigger Child(p, b)} :: Child(p, b) in t ==> p in t && t[p].Inner?)
    && (forall p {:trigger t[p]} :: p in t && t[p].Inner? ==> Child(p, true) in t || Child(p, false) in t)
    && (forall p {:trigger t[p]} :: p in t && t[p].Inner? ==> Condition(t[p].branch.cond))
  }

  lemma {:induction false} PrefixInTree(t: Tree, p: Path, i: nat)
    requires Shape(t) && p in t && i <= |p|
    ensures p[..i] in t
    ensures i < |p| ==> t[p[..i]].Inner?
    decreases |p|
  {
    if i == |p| {
      assert p[..i] == p;
    } else {
      ChildOfParent(p);
      PrefixInTree(t, Parent(p), i);
      assert Parent(p)[..i] == p[..i];
    }
  }

  // ----- Recording a run -----

  /** `Trace::addBranch`: a placeholder takes the branch, and the child taken comes to exist. */
  function AddBranch(t: Tree, p: Path, branch: Branch, taken: bool): Tree
    requires p in t
  {
    var u := if t[p].Placeholder? then t[p := Inner(branch, false)] else t;
    if Child(p, taken) in u then u else u[Child(p, taken) := Placeholder]
  }

  lemma AddBranchShape(t: Tree, p: Path, branch: Branch, taken: bool)
    requires Shape(t) && p in t && Condition(branch.cond)
    ensures Shape(AddBranch(t, p, branch, taken))
  {
    var u := AddBranch(t, p, branch, taken);
    ParentOfChild(p, taken);
    forall q, b {:trigger Child(q, b)} | Child(q, b) in u
      ensures q in u && u[q].Inner?
    {
      ParentOfChild(q, b);
      if Child(q, b) !in t {
        assert q == p;
      }
    }
    forall q {:trigger u[q]} | q in u && u[q].Inner?
      ensures Child(q, true) in u || Child(q, false) in u
      ensures Condition(u[q].branch.cond)
    {
      if q != p {
        assert q in t && t[q] == u[q];
      }
    }
  }

  /** The guest: the symbolic branch that follows a history of decisions, if any.  Packets are
      counted up, from one, along every history. */
  type Program = Path -> Option<Branch>

  ghost predicate Guest(prog: Program) {
    && (forall p {:trigger prog(p)} :: prog(p).Some? ==> Condition(prog(p).value.cond) && prog(p).value.pktSeqLen >= 1)
    && (forall p, b {:trigger Child(p, b)} ::
          prog(Child(p, b)).Some? ==> prog(p).Some? && prog(p).value.pktSeqLen <= prog(Child(p, b)).value.pktSeqLen)
  }

  /** Every branch of the tree is the one the guest meets there. */
  ghost predicate Copy(t: Tree, prog: Program) {
    forall p {:trigger t[p]} :: p in t && t[p].Inner? ==> prog(p) == Some(t[p].branch)
  }

  /** The guest makes the decisions `d` one after the other. */
  predicate Decides(prog: Program, d: Path) {
    d != [] ==> Decides(prog, Parent(d)) && prog(Parent(d)).Some?
  }

  /** The tree after a run whose symbolic branches went as `d` says: `Trace::reset` followed by
      one `Trace::add` for each branch. */
  function Record(t: Tree, prog: Program, d: Path): (r: Tree)
    requires [] in t && Decides(prog, d)
    ensures d in r && t.Keys <= r.Keys
  {
    if d == [] then t
    else
      ChildOfParent(d);
      AddBranch(Record(t, prog, Parent(d)), Parent(d), prog(Parent(d)).value, Last(d))
  }

  predicate IsPrefix(p: Path, d: Path) {
    |p| <= |d| && d[..|p|] == p
  }

  lemma IsPrefixParent(p: Path, d: Path)
    requires d != []
    ensures IsPrefix(p, d) <==> IsPrefix(p, Parent(d)) || p == d
  {
    if |p| < |d| {
      assert Parent(d)[..|p|] == d[..|p|];
    } else if |p| == |d| {
      assert d[..|p|] == d;
    }
  }

  /** Recording a run, at any path: old branches keep their entries, the branches of the run
      that the tree lacked are added un-negated, and the run's end comes to exist. */
  lemma {:induction false} RecordAt(t: Tree, prog: Program, d: Path, p: Path)
    requires [] in t && Decides(prog, d)
    ensures p in Record(t, prog, d) <==> p in t || IsPrefix(p, d)
    ensures p in t && t[p].Inner? ==> Record(t, prog, d)[p] == t[p]
    ensures p in Record(t, prog, d) && !(p in t && t[p].Inner?) ==>
              if IsPrefix(p, d) && p != d
              then prog(p).Some? && Record(t, prog, d)[p] == Inner(prog(p).value, false)
              else Record(t, prog, d)[p] == Placeholder
    decreases |d|
  {
    if d != [] {
      RecordAt(t, prog, Parent(d), p);
      IsPrefixParent(p, d);
      ChildOfParent(d);
    }
  }

  lemma {:induction false} RecordKeepsShape(t: Tree, prog: Program, d: Path)
    requires Shape(t) && Guest(prog) && Decides(prog, d)
    ensures Shape(Record(t, prog, d))
    decreases |d|
  {
    if d != [] {
      RecordKeepsShape(t, prog, Parent(d));
      AddBranchShape(Record(t, prog, Parent(d)), Parent(d), prog(Parent(d)).value, Last(d));
    }
  }

  lemma RecordKeepsCopy(t: Tree, prog: Program, d: Path)
    requires [] in t && Copy(t, prog) && Decides(prog, d)
    ensures Copy(Record(t, prog, d), prog)
  {
    var r := Record(t, prog, d);
    forall p {:trigger r[p]} | p in r && r[p].Inner?
      ensures prog(p) == Some(r[p].branch)
    {
      RecordAt(t, prog, d, p);
    }
  }

  // ----- Inputs and paths -----

  /** Under `env`, the recorded conditions decide as `p` says. */
  predicate Reaches(t: Tree, env: Env, p: Path) {
    p != [] ==>
      var q := Parent(p);
      Reaches(t, env, q) && q in t && t[q].Inner? && Condition(t[q].branch.cond) &&
        Holds(t[q].branch.cond, env) == Last(p)
  }

  /** Under `env`, the guest decides as `d` says. */
  predicate Follows(prog: Program, env: Env, d: Path) {
    d != [] ==>
      var q := Parent(d);
      Follows(prog, env, q) && prog(q).Some? && Condition(prog(q).value.cond) &&
        Holds(prog(q).value.cond, env) == Last(d)
  }

  lemma {:induction false} ReachesIsFollows(t: Tree, prog: Program, env: Env, p: Path)
    requires Shape(t) && Guest(prog) && Copy(t, prog)
    requires p in t || (p != [] && Parent(p) in t && t[Parent(p)].Inner?)
    ensures Reaches(t, env, p) <==> Follows(prog, env, p)
    decreases |p|
  {
    if p != [] {
      ChildOfParent(p);
      assert prog(Parent(p)) == Some(t[Parent(p)].branch);
      ReachesIsFollows(t, prog, env, Parent(p));
    }
  }

  // ----- Selecting a branch to negate -----

  predicate MissingChild(t: Tree, p: Path) {
    Child(p, true) !in t || Child(p, false) !in t
  }

  /** A branch that `Node::randomUnnegated` may select. */
  predicate Eligible(t: Tree, k: nat, p: Path) {
    p in t && t[p].Inner? && t[p].branch.pktSeqLen >= k && !t[p].negated && MissingChild(t, p)
  }

  ghost predicate NoneFrom(t: Tree, k: nat, p: Path) {
    forall q {:trigger Eligible(t, k, q)} :: IsPrefix(p, q) ==> !Eligible(t, k, q)
  }

  ghost predicate NoneBelow(t: Tree, k: nat, p: Path) {
    forall q {:trigger Eligible(t, k, q)} :: IsPrefix(p, q) && q != p ==> !Eligible(t, k, q)
  }

  lemma NoneFromMissing(t: Tree, k: nat, p: Path)
    requires Shape(t) && p !in t
    ensures NoneFrom(t, k, p)
  {
    forall q {:trigger Eligible(t, k, q)} | IsPrefix(p, q)
      ensures !Eligible(t, k, q)
    {
      if q in t {
        PrefixInTree(t, q, |p|);
      }
    }
  }

  lemma NoneBelowChildren(t: Tree, k: nat, p: Path)
    requires NoneFrom(t, k, Child(p, true)) && NoneFrom(t, k, Child(p, false))
    ensures NoneBelow(t, k, p)
  {
    forall q {:trigger Eligible(t, k, q)} | IsPrefix(p, q) && q != p
      ensures !Eligible(t, k, q)
    {
      assert q[..|p| + 1] == Child(p, q[|p|]);
      assert IsPrefix(Child(p, q[|p|]), q);
    }
  }

  /** The side of a selected branch that was never taken. */
  function Untaken(t: Tree, p: Path): bool {
    Child(p, true) !in t
  }

  lemma UntakenMissing(t: Tree, p: Path)
    requires Shape(t) && p in t && t[p].Inner? && MissingChild(t, p)
    ensures Child(p, Untaken(t, p)) !in t && Child(p, !Untaken(t, p)) in t
  {
  }

  function Negate(t: Tree, p: Path): Tree
    requires p in t && t[p].Inner?
  {
    t[p := t[p].(negated := true)]
  }

  /** Searching changes the tree by setting `wasNegated` only. */
  ghost predicate Marked(t: Tree, u: Tree) {
    && u.Keys == t.Keys
    && forall p {:trigger u[p]} {:trigger t[p]} :: p in t ==>
         u[p] == t[p] || (t[p].Inner? && u[p] == t[p].(negated := true))
  }

  /** No input within the assumptions takes the missing side of a branch negated before. */
  ghost predicate Settled(t: Tree, assume_cs: seq<Expr>)
    requires Conditions(assume_cs)
  {
    forall p, b :: SettledAt(t, assume_cs, p, b)
  }

  ghost predicate SettledAt(t: Tree, assume_cs: seq<Expr>, p: Path, b: bool)
    requires Conditions(assume_cs)
  {
    p in t && t[p].Inner? && t[p].negated && Child(p, b) !in t ==>
      forall env: Env :: AllHold(assume_cs, env) ==> !Reaches(t, env, Child(p, b))
  }

  /** As `Settled`, except for the branch at `q`, whose missing side is about to be run. */
  ghost predicate SettledExcept(t: Tree, assume_cs: seq<Expr>, q: Path)
    requires Conditions(assume_cs)
  {
    forall p, b :: p != q ==> SettledAt(t, assume_cs, p, b)
  }

  lemma {:induction false} MarkedReaches(t: Tree, u: Tree, env: Env, p: Path)
    requires Marked(t, u)
    ensures Reaches(t, env, p) <==> Reaches(u, env, p)
    decreases |p|
  {
    if p != [] {
      MarkedReaches(t, u, env, Parent(p));
      assert Parent(p) in t <==> Parent(p) in u;
    }
  }

  lemma MarkedShape(t: Tree, u: Tree)
    requires Shape(t) && Marked(t, u)
    ensures Shape(u)
  {
    forall p, b {:trigger Child(p, b)} | Child(p, b) in u
      ensures p in u && u[p].Inner?
    {
      assert Child(p, b) in t;
      assert u[p] == u[p];
    }
  }

  lemma NegateMarks(t: Tree, p: Path)
    requires p in t && t[p].Inner?
    ensures Marked(t, Negate(t, p))
  {
  }

  lemma MarkedTransitive(t: Tree, u: Tree, v: Tree)
    requires Marked(t, u) && Marked(u, v)
    ensures Marked(t, v)
  {
    forall p | p in t
      ensures v[p] == t[p] || (t[p].Inner? && v[p] == t[p].(negated := true))
    {
      assert u[p] == u[p];
    }
  }

  /** Negating one branch leaves the others settled. */
  lemma NegateSettles(t: Tree, assume_cs: seq<Expr>, p: Path)
    requires Conditions(assume_cs) && Shape(t) && Settled(t, assume_cs) && p in t && t[p].Inner?
    ensures SettledExcept(Negate(t, p), assume_cs, p)
  {
    var u := Negate(t, p);
    NegateMarks(t, p);
    forall q, b | q != p
      ensures SettledAt(u, assume_cs, q, b)
    {
      assert SettledAt(t, assume_cs, q, b);
      forall env: Env
        ensures Reaches(t, env, Child(q, b)) <==> Reaches(u, env, Child(q, b))
      {
        MarkedReaches(t, u, env, Child(q, b));
      }
    }
  }

  // ----- The measure of the search -----

  ghost function Height(t: Tree): (h: nat)
    ensures forall p {:trigger p in t} :: p in t ==> |p| <= h
  {
    MaxLength(t.Keys)
  }

  ghost function MaxLength(paths: set<Path>): (h: nat)
    ensures forall p {:trigger p in paths} :: p in paths ==> |p| <= h
  {
    if paths == {} then 0
    else
      var p :| p in paths;
      var h := MaxLength(paths - {p});
      assert forall q {:trigger q in paths} :: q in paths ==> q == p || q in paths - {p};
      if h > |p| then h else |p|
  }

  function Unnegated(t: Tree): set<Path> {
    set p | p in t && t[p].Inner? && !t[p].negated
  }

  lemma NegateShrinks(t: Tree, p: Path)
    requires p in t && t[p].Inner? && !t[p].negated
    ensures |Unnegated(Negate(t, p))| < |Unnegated(t)|
  {
    assert Unnegated(Negate(t, p)) == Unnegated(t) - {p};
  }
}
