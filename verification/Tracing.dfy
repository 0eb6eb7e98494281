/** clover's `Trace`: the execution tree as heap nodes, updated in place while a run executes
    and searched for the branch to negate next. */
module Tracing {
  import opened Expr
  import opened Constraints
  import opened ExecutionTree
  import opened Solver
  import opened PathSearch

  /** The branch object shared between a node and the paths through it. */
  class SharedBranch {
    const branch: Branch
    var wasNegated: bool
    ghost const path: Path

    constructor (branch: Branch, ghost path: Path)
      ensures this.branch == branch && !wasNegated && this.path == path
    {
      this.branch := branch;
      wasNegated := false;
      this.path := path;
    }
  }

  class Node {
    var value: SharedBranch?
    var true_branch: Node?
    var false_branch: Node?
    ghost const path: Path

    constructor (ghost path: Path)
      ensures value == null && true_branch == null && false_branch == null && this.path == path
    {
      value, true_branch, false_branch := null, null, null;
      this.path := path;
    }

    predicate IsPlaceholder()
      reads this
    {
      value == null
    }

    function Kid(b: bool): Node?
      reads this
    {
      if b then true_branch else false_branch
    }

    method SetKid(b: bool, kid: Node)
      modifies this
      ensures value == old(value) && Kid(b) == kid && Kid(!b) == old(Kid(!b))
    {
      if b {
        true_branch := kid;
      } else {
        false_branch := kid;
      }
    }

    ghost function Contents(): Entry
      reads this, if value == null then {} else {value}
    {
      if value == null then Placeholder else Inner(value.branch, value.wasNegated)
    }
  }

  type PathElement = (SharedBranch, bool)

  /** The nodes reachable from the root, and the node the current run has come to. */
  class NodeTree {
    var pathCondsRoot: Node
    var pathCondsCurrent: Node?

    /** The tree as a value, the node at each of its paths, and the path of the current node. */
    ghost var tree: Tree
    ghost var nodes: map<Path, Node>
    ghost var cursor: Path
    ghost var Repr: set<object>

    /** The objects of the tree are where `nodes` says, each in one place only. */
    ghost predicate Linked()
      reads this, Repr
    {
      && this in Repr && [] in nodes && nodes[[]] == pathCondsRoot
      && Owned() && Mirrored() && Wired()
      && cursor in nodes
      && (if pathCondsCurrent == null then cursor == [] else nodes[cursor] == pathCondsCurrent)
    }

    ghost predicate Owned()
      reads this, Repr
    {
      forall p {:trigger nodes[p]} :: p in nodes ==> nodes[p] in Repr && nodes[p].path == p
    }

    ghost predicate Mirrored()
      reads this, Repr
      requires Owned()
    {
      && tree.Keys == nodes.Keys
      && forall p {:trigger nodes[p]} {:trigger tree[p]} :: p in nodes ==>
           && (nodes[p].value != null ==> nodes[p].value in Repr && nodes[p].value.path == p)
           && tree[p] == nodes[p].Contents()
    }

    ghost predicate Wired()
      reads this, Repr
      requires Owned()
    {
      forall p, b {:trigger Child(p, b)} ::
        if p in nodes then nodes[p].Kid(b) == (if Child(p, b) in nodes then nodes[Child(p, b)] else null)
        else Child(p, b) !in nodes
    }

    ghost predicate Valid()
      reads this, Repr
    {
      Linked() && Shape(tree)
    }

    constructor ()
      ensures Valid() && fresh(Repr) && tree == Empty && cursor == []
    {
      var root := new Node([]);
      pathCondsRoot, pathCondsCurrent := root, null;
      nodes, cursor, tree := map[[] := root], [], Empty;
      new;
      Repr := {this, root};
      assert forall p, b {:trigger Child(p, b)} :: Child(p, b) != [];
    }

    method Reset()
      requires Valid()
      modifies this`pathCondsCurrent, this`cursor
      ensures Valid() && cursor == []
    {
      pathCondsCurrent, cursor := null, [];
    }

    /** The placeholder the run has come to takes the branch. */
    method Fill(node: Node, branch: SharedBranch)
      requires Linked() && node == nodes[cursor] && node.IsPlaceholder()
      requires branch !in Repr && !branch.wasNegated && branch.path == cursor
      modifies this`Repr, this`tree, node
      ensures Linked() && Repr == old(Repr) + {branch}
      ensures tree == old(tree)[cursor := Inner(branch.branch, false)]
    {
      node.value := branch;
      Repr := Repr + {branch};
      tree := tree[cursor := Inner(branch.branch, false)];
    }

    /** Since the old state, the placeholder `kid` was attached on side `b` of `node`. */
    twostate predicate Attached(node: Node, new b: bool, new kid: Node)
      reads this, node, kid, Repr
    {
      && Repr == old(Repr) + {kid}
      && cursor == old(cursor) && pathCondsRoot == old(pathCondsRoot)
      && (forall n: Node :: n in old(Repr) && n != node ==>
            n.value == old(n.value) && n.true_branch == old(n.true_branch) && n.false_branch == old(n.false_branch))
      && (forall s: SharedBranch :: s in old(Repr) ==> s.wasNegated == old(s.wasNegated))
      && node.value == old(node.value) && node.Kid(b) == kid && node.Kid(!b) == old(node.Kid(!b))
      && kid !in old(Repr) && kid.path == Child(cursor, b)
      && kid.value == null && kid.true_branch == null && kid.false_branch == null
      && nodes == old(nodes)[Child(cursor, b) := kid]
      && tree == old(tree)[Child(cursor, b) := Placeholder]
    }

    twostate lemma AttachedLinks(node: Node, new b: bool, new kid: Node)
      requires old(Linked()) && node == old(nodes[cursor]) && Child(old(cursor), b) !in old(nodes)
      requires Attached(node, b, kid)
      ensures Owned() && Mirrored() && Wired()
    {
      hide Child, Parent, Last;
      ChildParts();
    }

    /** A placeholder is attached on side `b` of the node the run has come to. */
    method Attach(node: Node, b: bool)
      requires Linked() && node == nodes[cursor] && Child(cursor, b) !in nodes
      modifies this`nodes, this`tree, this`Repr, node
      ensures Linked() && fresh(Repr - old(Repr)) && old(Repr) <= Repr
      ensures tree == old(tree)[Child(cursor, b) := Placeholder]
      ensures Child(cursor, b) in nodes && nodes[Child(cursor, b)] == node.Kid(b)
    {
      hide Child, Mirrored, Wired;
      ghost var c := Child(cursor, b);
      var kid := new Node(c);
      node.SetKid(b, kid);
      Repr := Repr + {kid};
      nodes, tree := nodes[c := kid], tree[c := Placeholder];
      AttachedLinks(node, b, kid);
    }

    lemma KidKnown(b: bool)
      requires Linked()
      ensures
        var c := Child(cursor, b);
        nodes[cursor].Kid(b) == (if c in nodes then nodes[c] else null) && (c in tree <==> c in nodes)
    {
      hide Child;
    }

    method MoveTo(node: Node, b: bool)
      requires Linked() && node == nodes[cursor] && Child(cursor, b) in nodes
      modifies this`pathCondsCurrent, this`cursor
      ensures Linked() && cursor == Child(old(cursor), b)
    {
      hide Child;
      KidKnown(b);
      pathCondsCurrent, cursor := node.Kid(b), Child(cursor, b);
    }

    /** The child on side `b` of the node the run has come to exists, and is come to next. */
    method Advance(node: Node, b: bool)
      requires Linked() && node == nodes[cursor]
      modifies this, node
      ensures Linked() && fresh(Repr - old(Repr)) && old(Repr) <= Repr
      ensures cursor == Child(old(cursor), b)
      ensures tree == if cursor in old(tree) then old(tree) else old(tree)[cursor := Placeholder]
    {
      hide Child, Owned, Mirrored, Wired;
      KidKnown(b);
      if node.Kid(b) == null {
        Attach(node, b);
      }
      MoveTo(node, b);
    }

    /** `Trace::addBranch`: in the tree, exactly `AddBranch`; true if the node was a placeholder. */
    method AddBranch(branch: SharedBranch, condition: bool) returns (r: bool)
      requires Valid() && branch !in Repr && Condition(branch.branch.cond)
      requires !branch.wasNegated && branch.path == cursor
      modifies Repr
      ensures Valid() && fresh(Repr - old(Repr) - {branch})
      ensures tree == ExecutionTree.AddBranch(old(tree), old(cursor), branch.branch, condition)
      ensures cursor == Child(old(cursor), condition)
      ensures r <==> old(tree)[old(cursor)].Placeholder?
    {
      hide Shape, WellFormed, Width, Child;
      AddBranchShape(tree, cursor, branch.branch, condition);
      var node := if pathCondsCurrent != null then pathCondsCurrent else pathCondsRoot;
      r := node.IsPlaceholder();
      if r {
        Fill(node, branch);
      }
      Advance(node, condition);
    }

    /** The elements `Node::randomUnnegated` pushes between `p` and the selected branch at `q`:
        each branch on the way with the side taken, and last `q` with a side it has. */
    ghost function Elements(p: Path, q: Path): seq<PathElement>
      reads this, Repr
      requires Valid() && IsPrefix(p, q) && q in tree && tree[q].Inner?
      decreases |q| - |p|
    {
      if p == q then [(nodes[q].value, Child(q, true) in nodes)]
      else
        PrefixInTree(tree, q, |p|);
        var c := Child(p, q[|p|]);
        assert IsPrefix(c, q) by { assert q[..|c|] == c; }
        [(nodes[p].value, q[|p|])] + Elements(c, q)
    }

    /** `Node::randomUnnegated`: it succeeds exactly if the subtree has an eligible branch, and
        then leads to one with no eligible branch below it; otherwise the path is as before. */
    method RandomUnnegated(node: Node, k: nat, path: seq<PathElement>, ghost p: Path, ghost height: nat)
      returns (found: bool, path': seq<PathElement>, ghost q: Path)
      requires Valid() && p in nodes && node == nodes[p]
      requires forall r {:trigger r in tree} :: r in tree ==> |r| <= height
      ensures found ==> IsPrefix(p, q) && Eligible(tree, k, q) && NoneBelow(tree, k, q)
      ensures found ==> path' == path + Elements(p, q)
      ensures !found ==> path' == path && NoneFrom(tree, k, p)
      decreases height - |p|
    {
      path', q := path, p;
      if node.IsPlaceholder() {
        NoneFromMissing(tree, k, Child(p, true));
        NoneFromMissing(tree, k, Child(p, false));
        NoneBelowChildren(tree, k, p);
        return false, path', q;
      }
      path' := path + [(node.value, false)];
      var first: bool := *;
      found, path', q := CheckBranch(node, first, k, path', p, height);
      if !found {
        found, path', q := CheckBranch(node, !first, k, path', p, height);
      }
      if found {
        return;
      }
      NoneBelowChildren(tree, k, p);
      q := p;
      if node.value.branch.pktSeqLen >= k && !node.value.wasNegated &&
        (node.true_branch == null || node.false_branch == null) {
        path' := path'[|path| := (node.value, node.true_branch != null)];
        found := true;
      } else {
        path' := path'[..|path|];
      }
    }

    /** One side of a node, searched after its branch was pushed: on success the pushed element
        is patched to say so. */
    method CheckBranch(node: Node, b: bool, k: nat, path: seq<PathElement>, ghost p: Path, ghost height: nat)
      returns (found: bool, path': seq<PathElement>, ghost q: Path)
      requires Valid() && p in nodes && node == nodes[p] && node.value != null
      requires forall r {:trigger r in tree} :: r in tree ==> |r| <= height
      requires path != [] && path[|path| - 1] == (node.value, false)
      ensures found ==> IsPrefix(p, q) && Eligible(tree, k, q) && NoneBelow(tree, k, q)
      ensures found ==> path' == path[..|path| - 1] + Elements(p, q)
      ensures !found ==> path' == path && NoneFrom(tree, k, Child(p, b))
      decreases height - |p|, 0
    {
      found, path', q := false, path, p;
      ghost var c := Child(p, b);
      assert node.Kid(b) == if c in nodes then nodes[c] else null;
      if node.Kid(b) == null {
        NoneFromMissing(tree, k, c);
        return;
      }
      assert c in tree;
      found, path', q := RandomUnnegated(node.Kid(b), k, path, c, height);
      if found {
        path' := path'[|path| - 1 := (node.value, b)];
        assert q[..|p|] == q[..|c|][..|p|] == p;
        assert q[|p|] == q[..|c|][|p|] == b;
      }
    }

    /** A branch of the tree is marked as negated. */
    method MarkNegated(cell: SharedBranch, ghost p: Path)
      requires Valid() && p in nodes && nodes[p].value == cell
      modifies cell, this`tree
      ensures Valid() && tree == Negate(old(tree), p)
    {
      MarkedShape(tree, Negate(tree, p));
      cell.wasNegated := true;
      tree := Negate(tree, p);
    }

    /** The conditions collected on a path hold exactly for the inputs that reach its end. */
    lemma {:induction false} ElementsHold(p: Path, q: Path, env: Env)
      requires Valid() && IsPrefix(p, q) && q in tree && tree[q].Inner?
      ensures |Elements(p, q)| == |q| - |p| + 1
      ensures ElementConditions(Elements(p, q))
      ensures Elements(p, q)[|q| - |p|] == (nodes[q].value, Child(q, true) in tree)
      ensures Reaches(tree, env, q) <==> Reaches(tree, env, p) && PathHolds(Elements(p, q)[..|q| - |p|], env)
      decreases |q| - |p|
    {
      hide Eval, WellFormed, Width;
      assert tree[q] == nodes[q].Contents();
      if p == q {
        assert Elements(p, q)[..0] == [];
      } else {
        PrefixInTree(tree, q, |p|);
        var c := Child(p, q[|p|]);
        ParentOfChild(p, q[|p|]);
        assert IsPrefix(c, q) by { assert q[..|c|] == c; }
        ElementsHold(c, q, env);
        var es, e := Elements(c, q), (nodes[p].value, q[|p|]);
        assert tree[p] == nodes[p].Contents();
        assert ([e] + es)[..|q| - |p|] == [e] + es[..|q| - |c|];
        PathHoldsCons(e, es[..|q| - |c|], env);
      }
    }

    /** The last element collected is the shared branch of the node that the path leads to. */
    lemma LastElement(q: Path)
      requires Valid() && q in tree && tree[q].Inner?
      ensures q in nodes && nodes[q].value != null && nodes[q].value in Repr && this in Repr
      ensures Elements([], q) != [] && Elements([], q)[|Elements([], q)| - 1].0 == nodes[q].value
    {
      hide Eval, WellFormed, Width, Reaches, Shape, PathHolds, ElementConditions, Wired;
      assert tree[q] == nodes[q].Contents();
      ElementsHold([], q, (n: string, i: nat) => 0);
    }
  }

  predicate ElementConditions(path: seq<PathElement>) {
    forall i :: 0 <= i < |path| ==> Condition(path[i].0.branch.cond)
  }

  predicate PathHolds(path: seq<PathElement>, env: Env)
    requires ElementConditions(path)
  {
    forall i :: 0 <= i < |path| ==> Holds(path[i].0.branch.cond, env) == path[i].1
  }

  lemma PathHoldsCons(e: PathElement, es: seq<PathElement>, env: Env)
    requires Condition(e.0.branch.cond) && ElementConditions(es)
    ensures ElementConditions([e] + es)
    ensures PathHolds([e] + es, env) <==> Holds(e.0.branch.cond, env) == e.1 && PathHolds(es, env)
  {
    var path := [e] + es;
    assert path[0] == e;
    assert forall i :: 0 <= i < |es| ==> path[i + 1] == es[i];
    assert forall i :: 1 <= i < |path| ==> path[i] == es[i - 1];
  }

  /** `cs` holds exactly for the assumed inputs that decide as the path says. */
  ghost predicate Collected(cs: seq<Expr>, assumed: seq<Expr>, path: seq<PathElement>)
    requires Conditions(cs) && Conditions(assumed) && ElementConditions(path)
  {
    forall env: Env :: AllHold(cs, env) <==> AllHold(assumed, env) && PathHolds(path, env)
  }

  lemma AssumptionAdded(cs: seq<Expr>, ds: seq<Expr>, assumed: seq<Expr>, i: nat, ok: bool)
    requires Conditions(cs) && Conditions(ds) && Conditions(assumed) && i < |assumed|
    requires Equivalent(cs, assumed[..i])
    requires ok ==> Equivalent(ds, cs + [assumed[i]])
    requires Satisfiable(cs + [assumed[i]]) ==> ok
    ensures ok ==> Equivalent(ds, assumed[..i + 1])
    ensures !ok ==> forall env: Env :: !AllHold(assumed, env)
  {
    hide Eval, WellFormed, Width;
    forall env: Env
      ensures AllHold(cs + [assumed[i]], env) <==> AllHold(assumed[..i + 1], env)
    {
      assert assumed[..i + 1] == assumed[..i] + [assumed[i]];
      AllHoldAppend(assumed[..i], assumed[i], env);
      AllHoldAppend(cs, assumed[i], env);
    }
    forall env: Env | AllHold(assumed, env)
      ensures AllHold(cs + [assumed[i]], env)
    {
      assert AllHold(assumed[..i + 1], env);
    }
  }

  lemma ElementAdded(cs: seq<Expr>, ds: seq<Expr>, assumed: seq<Expr>, path: seq<PathElement>, i: nat, ok: bool)
    requires Conditions(cs) && Conditions(ds) && Conditions(assumed) && ElementConditions(path) && i < |path|
    requires Condition(Asserted(path[i].0.branch.cond, path[i].1))
    requires Collected(cs, assumed, path[..i])
    requires ok ==> Equivalent(ds, cs + [Asserted(path[i].0.branch.cond, path[i].1)])
    requires Satisfiable(cs + [Asserted(path[i].0.branch.cond, path[i].1)]) ==> ok
    ensures ok ==> Collected(ds, assumed, path[..i + 1])
    ensures !ok ==> forall env: Env :: !(AllHold(assumed, env) && PathHolds(path, env))
  {
    hide Eval, WellFormed, Width;
    var a := Asserted(path[i].0.branch.cond, path[i].1);
    forall env: Env
      ensures AllHold(cs + [a], env) <==> AllHold(assumed, env) && PathHolds(path[..i + 1], env)
    {
      AssertedMeaning(path[i].0.branch.cond, path[i].1, env);
      AllHoldAppend(cs, a, env);
      assert PathHolds(path[..i + 1], env) <==>
             PathHolds(path[..i], env) && Holds(path[i].0.branch.cond, env) == path[i].1;
    }
  }

  /** Negating the condition on the side a branch has leads to the side it lacks. */
  lemma NegatedLast(t: Tree, q: Path, assumed: seq<Expr>, prefix: seq<Expr>, side: bool, expr: Expr, env: Env)
    requires q in t && t[q].Inner? && Condition(t[q].branch.cond) && Conditions(assumed) && Conditions(prefix)
    requires AllHold(prefix, env) <==> AllHold(assumed, env) && Reaches(t, env, q)
    requires Condition(Asserted(t[q].branch.cond, side)) && Condition(expr) && Condition(Asserted(expr, false))
    requires AllHold(prefix, env) ==> Eval(expr, env) == Eval(Asserted(t[q].branch.cond, side), env)
    ensures Query(prefix, Asserted(expr, false)).Model(env) <==>
            AllHold(assumed, env) && Reaches(t, env, Child(q, !side))
  {
    hide Eval, WellFormed, Width, AllHold;
    AssertedMeaning(expr, false, env);
    AssertedMeaning(t[q].branch.cond, side, env);
    ParentOfChild(q, !side);
  }

  datatype SearchResult = Aborted | NoPath | NewPath(assignment: Assignment)

  class Trace {
    const solve: Procedure
    const rebuild: Rebuild
    const tree: NodeTree
    const cm: ConstraintManager
    const assume_cm: ConstraintManager

    ghost predicate Valid()
      reads this, tree, tree.Repr, cm, assume_cm
    {
      tree.Valid() && cm.Valid() && assume_cm.Valid() && cm != assume_cm && {this, cm, assume_cm} !! tree.Repr
    }

    constructor (solve: Procedure, rebuild: Rebuild)
      ensures Valid() && fresh(tree.Repr) && fresh(cm) && fresh(assume_cm)
      ensures tree.tree == Empty && tree.cursor == [] && cm.constraints == [] && assume_cm.constraints == []
    {
      this.solve, this.rebuild := solve, rebuild;
      tree := new NodeTree();
      cm := new ConstraintManager(rebuild, []);
      assume_cm := new ConstraintManager(rebuild, []);
    }

    /** `Trace::reset`. */
    method Reset()
      requires Valid()
      modifies tree, cm
      ensures Valid() && tree.tree == old(tree.tree) && tree.Repr == old(tree.Repr)
      ensures tree.cursor == [] && cm.constraints == []
    {
      tree.Reset();
      cm.constraints := [];
    }

    /** `Trace::assume`: from here on inputs have to satisfy the constraint too. */
    method Assume(constraint: Expr) returns (ok: bool)
      requires Valid() && Condition(constraint)
      modifies assume_cm
      ensures Valid()
      ensures ok ==> Equivalent(assume_cm.constraints, old(assume_cm.constraints) + [constraint])
      ensures Satisfiable(old(assume_cm.constraints) + [constraint]) ==> ok
    {
      ok := assume_cm.AddConstraint(constraint);
    }

    /** `Trace::add`: the branch is recorded in the constraints of the run and in the tree. */
    method Add(condition: bool, bv: Expr, pc: nat, pktSeqLen: nat) returns (ok: bool)
      requires Valid() && Condition(bv)
      modifies tree, tree.Repr, cm
      ensures Valid() && fresh(tree.Repr - old(tree.Repr))
      ensures Condition(Asserted(bv, condition))
      ensures ok ==> Equivalent(cm.constraints, old(cm.constraints) + [Asserted(bv, condition)])
      ensures Satisfiable(old(cm.constraints) + [Asserted(bv, condition)]) ==> ok
      ensures tree.tree == AddBranch(old(tree.tree), old(tree.cursor), Branch(bv, pc, pktSeqLen), condition)
      ensures tree.cursor == Child(old(tree.cursor), condition)
    {
      hide WellFormed, Width, Equivalent, Satisfiable, Shape, Child, Conditions, NodeTree.Linked, NodeTree.Owned;
      hide NodeTree.Mirrored, NodeTree.Wired;
      AssertedCondition(bv, condition);
      ok := cm.AddConstraint(Asserted(bv, condition));
      var br := new SharedBranch(Branch(bv, pc, pktSeqLen), tree.cursor);
      var _ := tree.AddBranch(br, condition);
    }

    /** The constraints `newQuery` collects before the last branch of a path. */
    method PrefixConstraints(path: seq<PathElement>) returns (ok: bool, cs: seq<Expr>)
      requires assume_cm.Valid() && ElementConditions(path)
      ensures ok ==> Conditions(cs)
      ensures ok ==> forall env: Env :: AllHold(cs, env) <==>
              AllHold(assume_cm.constraints, env) && PathHolds(path, env)
      ensures !ok ==> forall env: Env :: !(AllHold(assume_cm.constraints, env) && PathHolds(path, env))
    {
      hide Eval, WellFormed, Width, Satisfiable;
      var assumed := assume_cm.constraints;
      var m := new ConstraintManager(rebuild, []);
      ok, cs := true, [];
      for i := 0 to |assumed|
        invariant m.Valid() && fresh(m) && Equivalent(m.constraints, assumed[..i])
      {
        ghost var before := m.constraints;
        ok := m.AddConstraint(assumed[i]);
        AssumptionAdded(before, m.constraints, assumed, i, ok);
        if !ok {
          return;
        }
      }
      assert assumed[..|assumed|] == assumed;
      assert Collected(m.constraints, assumed, path[..0]);
      for i := 0 to |path|
        invariant m.Valid() && fresh(m) && Collected(m.constraints, assumed, path[..i])
      {
        ghost var before := m.constraints;
        AssertedCondition(path[i].0.branch.cond, path[i].1);
        ok := m.AddConstraint(Asserted(path[i].0.branch.cond, path[i].1));
        ElementAdded(before, m.constraints, assumed, path, i, ok);
        if !ok {
          return;
        }
      }
      assert path[..|path|] == path;
      cs := m.constraints;
    }

    /** The query of `Trace::newQuery`: its models are the inputs within the assumptions that
        take the path up to its last branch and then the other side.  There is none if an
        assertion of the constraint manager fails on the way. */
    method BuildQuery(path: seq<PathElement>, ghost q: Path) returns (query: Option<Query>)
      requires Valid() && q in tree.tree && tree.tree[q].Inner?
      requires path == tree.Elements([], q)
      ensures query.Some? ==> query.value.Valid()
      ensures query.Some? ==> forall env: Env :: query.value.Model(env) <==>
                AllHold(assume_cm.constraints, env) && Reaches(tree.tree, env, Child(q, Untaken(tree.tree, q)))
      ensures query.None? ==> forall env: Env :: !(AllHold(assume_cm.constraints, env) && Reaches(tree.tree, env, q))
    {
      hide WellFormed, Width, Eval, Shape, PathHolds, AllHold, Asserted;
      ghost var t := tree.tree;
      tree.ElementsHold([], q, (n: string, i: nat) => 0);
      var n := |path| - 1;
      var last := path[n];
      assert t[q].branch == last.0.branch;
      var ok, prefix := PrefixConstraints(path[..n]);
      forall env: Env
        ensures Reaches(t, env, q) <==> PathHolds(path[..n], env)
      {
        tree.ElementsHold([], q, env);
      }
      if !ok {
        return None;
      }
      AssertedCondition(last.0.branch.cond, last.1);
      var expr := SimplifyExpr(rebuild, prefix, Asserted(last.0.branch.cond, last.1));
      AssertedCondition(expr, false);
      query := Some(Query(prefix, Asserted(expr, false)));
      forall env: Env
        ensures query.value.Model(env) <==> AllHold(assume_cm.constraints, env) && Reaches(t, env, Child(q, !last.1))
      {
        NegatedLast(t, q, assume_cm.constraints, prefix, last.1, expr, env);
      }
    }

    /** `Trace::newQuery`: with the query, the last branch of the path is marked. */
    method NewQuery(path: seq<PathElement>, ghost q: Path) returns (query: Option<Query>)
      requires Valid() && q in tree.tree && tree.tree[q].Inner?
      requires path == tree.Elements([], q)
      modifies tree, tree.Repr
      ensures Valid() && tree.Repr == old(tree.Repr) && tree.nodes == old(tree.nodes)
      ensures tree.tree == if query.Some? then Negate(old(tree.tree), q) else old(tree.tree)
      ensures query.Some? ==> query.value.Valid()
      ensures query.Some? ==> forall env: Env :: query.value.Model(env) <==>
                AllHold(assume_cm.constraints, env) &&
                  Reaches(old(tree.tree), env, Child(q, Untaken(old(tree.tree), q)))
      ensures query.None? ==> forall env: Env :: !(AllHold(assume_cm.constraints, env) && Reaches(tree.tree, env, q))
    {
      hide WellFormed, Width, Eval, Shape, AllHold, Reaches, Negate, Conditions, NodeTree.Linked, NodeTree.Wired;
      query := BuildQuery(path, q);
      tree.LastElement(q);
      if query.Some? {
        tree.MarkNegated(path[|path| - 1].0, q);
      }
    }

    /** One round of the loop of `Trace::findNewPath`. */
    method TryNewPath(k: nat) returns (r: Round, ghost q: Path)
      requires Valid()
      modifies tree, tree.Repr
      ensures Valid() && tree.Repr == old(tree.Repr) && tree.nodes == old(tree.nodes)
      ensures r.NoBranch? ==> tree.tree == old(tree.tree) && NoneFrom(tree.tree, k, [])
      ensures !r.NoBranch? ==> q in tree.tree && Eligible(old(tree.tree), k, q)
      ensures r.Failed? ==> tree.tree == old(tree.tree) && !Admissible(assume_cm.constraints, tree.tree, q)
      ensures r.NoModel? || r.Model? ==> tree.tree == Negate(old(tree.tree), q)
      ensures r.NoModel? ==> forall env: Env ::
                !(AllHold(assume_cm.constraints, env) &&
                  Reaches(old(tree.tree), env, Child(q, Untaken(old(tree.tree), q))))
      ensures r.Model? ==> forall env: Env :: Agree(r.assignment.names, r.assignment.values, env) ==>
                AllHold(assume_cm.constraints, env) &&
                  Reaches(old(tree.tree), env, Child(q, Untaken(old(tree.tree), q)))
    {
      hide WellFormed, Width, Eval, Shape, Negate, Reaches, AllHold;
      var found, path;
      found, path, q := tree.RandomUnnegated(tree.pathCondsRoot, k, [], [], Height(tree.tree));
      if !found {
        return NoBranch, q;
      }
      var query := NewQuery(path, q);
      if query.None? {
        return Failed, q;
      }
      var assign := GetAssignment(solve, query.value);
      r := if assign.None? then NoModel else Model(assign.value);
    }

    /** `Trace::findNewPath`: unless an assertion of the constraint manager fails, which takes a
        recorded path that no admissible input takes, the search promises what `Searched` says.
        It ends because every round marks one more branch as negated. */
    method FindNewPath(k: nat) returns (r: SearchResult, ghost o: Outcome)
      requires Valid()
      modifies tree, tree.Repr
      ensures Valid() && tree.Repr == old(tree.Repr) && tree.nodes == old(tree.nodes)
      ensures Marked(old(tree.tree), tree.tree)
      ensures r.Aborted? ==> exists q :: q in tree.tree && !Admissible(assume_cm.constraints, tree.tree, q)
      ensures r.NoPath? ==> o == Exhausted
      ensures r.NewPath? ==> o.Found? && o.names == r.assignment.names && o.values == r.assignment.values
      ensures !r.Aborted? ==> Searched(old(tree.tree), assume_cm.constraints, k, tree.tree, o)
    {
      hide WellFormed, Width, Eval, Reaches, AllHold, Searching, Searched, Negate, Eligible, Shape, NodeTree.Linked;
      ghost var t, assumed := tree.tree, assume_cm.constraints;
      SearchBegins(t, assumed);
      while true
        invariant Valid() && tree.Repr == old(tree.Repr) && tree.nodes == old(tree.nodes)
        invariant assume_cm.constraints == assumed && Searching(t, assumed, tree.tree)
        decreases |Unnegated(tree.tree)|
      {
        ghost var u := tree.tree;
        var round, q := TryNewPath(k);
        match round {
          case NoBranch =>
            RoundWithoutBranch(t, u, assumed, k);
            SearchMarks(t, assumed, u);
            return NoPath, Exhausted;
          case Failed =>
            SearchMarks(t, assumed, u);
            return Aborted, Exhausted;
          case NoModel =>
            RoundWithoutModel(t, u, assumed, k, q);
          case Model(a) =>
            o := Found(q, Untaken(u, q), a.names, a.values);
            RoundWithModel(t, u, assumed, k, q, o);
            return NewPath(a), o;
        }
      }
    }
  }

  datatype Round = NoBranch | Failed | NoModel | Model(assignment: Assignment)

  ghost predicate Admissible(assumed: seq<Expr>, t: Tree, q: Path)
    requires Conditions(assumed)
  {
    exists env: Env :: AllHold(assumed, env) && Reaches(t, env, q)
  }
}
