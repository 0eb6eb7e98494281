/** Exploration at growing packet counts: when every path of up to `k` packets has been run. */
module Completeness {
  import opened Expr
  import opened Constraints
  import opened ExecutionTree
  import opened PathSearch

  /** The tree has every path of `k` packets that an input within the assumptions takes. */
  ghost predicate Complete(t: Tree, prog: Program, assumed: seq<Expr>, k: nat)
    requires Conditions(assumed)
  {
    forall env: Env, d :: AllHold(assumed, env) && Run(prog, env, k, d) ==> d in t
  }

  /** No run ended where the next branch is met within `k` packets. */
  ghost predicate NonePending(t: Tree, prog: Program, k: nat) {
    forall p {:trigger t[p]} :: p in t && t[p].Placeholder? && prog(p).Some? ==> prog(p).value.pktSeqLen > k
  }

  ghost predicate NoneEligible(t: Tree, k: nat) {
    forall p {:trigger Eligible(t, k, p)} :: !Eligible(t, k, p)
  }

  /** The run of an input with fewer packets is a beginning of its run. */
  lemma ShorterRun(prog: Program, env: Env, k: nat, d: Path, j: nat) returns (e: Path)
    requires Guest(prog) && Run(prog, env, k, d) && j <= k
    ensures Run(prog, env, j, e) && IsPrefix(e, d)
  {
    hide Eval, WellFormed, Width;
    var i := 0;
    assert d[..0] == [];
    while i < |d| && prog(d[..i]).Some? && prog(d[..i]).value.pktSeqLen <= j
      invariant 0 <= i <= |d| && Follows(prog, env, d[..i])
      invariant i > 0 ==> prog(d[..i - 1]).Some? && prog(d[..i - 1]).value.pktSeqLen <= j
    {
      FollowsPrefix(prog, env, d, i + 1);
      assert d[..i + 1][..i] == d[..i];
      i := i + 1;
    }
    e := d[..i];
    assert i > 0 ==> Parent(e) == d[..i - 1];
    assert i == |d| ==> e == d;
  }

  /** With no packets nothing symbolic is met. */
  lemma CompleteAtNone(t: Tree, prog: Program, assumed: seq<Expr>)
    requires Conditions(assumed) && Guest(prog) && [] in t
    ensures Complete(t, prog, assumed, 0)
  {
    hide Eval, WellFormed, Width, AllHold;
    forall env: Env, d | AllHold(assumed, env) && Run(prog, env, 0, d)
      ensures d in t
    {
      assert d == [];
    }
  }

  /** A tree that is complete for one packet less, with nothing left to select and nothing pending, is
      complete. */
  lemma CompleteNext(prog: Program, assumed: seq<Expr>, s: State)
    requires Conditions(assumed) && Guest(prog) && Inv(prog, assumed, s) && s.runs != []
    requires Complete(s.tree, prog, assumed, s.k - 1)
    requires NoneEligible(s.tree, s.k) && NonePending(s.tree, prog, s.k)
    ensures Complete(s.tree, prog, assumed, s.k)
  {
    hide Eval, WellFormed, Width, AllHold, Inv, Guest, Run, Complete, Follows;
    forall env: Env, d | AllHold(assumed, env) && Run(prog, env, s.k, d)
      ensures d in s.tree
    {
      if d !in s.tree {
        NothingLeaves(prog, assumed, s, env, d);
      }
    }
    assert Complete(s.tree, prog, assumed, s.k) by {
      CompleteIs(s.tree, prog, assumed, s.k);
    }
  }

  lemma CompleteIs(t: Tree, prog: Program, assumed: seq<Expr>, k: nat)
    requires Conditions(assumed)
    requires forall env: Env, d :: AllHold(assumed, env) && Run(prog, env, k, d) ==> d in t
    ensures Complete(t, prog, assumed, k)
  {
  }

  lemma NothingLeaves(prog: Program, assumed: seq<Expr>, s: State, env: Env, d: Path)
    requires Conditions(assumed) && Guest(prog) && Inv(prog, assumed, s) && s.runs != []
    requires Complete(s.tree, prog, assumed, s.k - 1)
    requires NoneEligible(s.tree, s.k) && NonePending(s.tree, prog, s.k)
    requires AllHold(assumed, env) && Run(prog, env, s.k, d)
    ensures d in s.tree
  {
    hide Eval, WellFormed, Width, AllHold, Guest, Settled, Within, EndsOfRuns, Copy, Follows;
    if d !in s.tree {
      var i := WhereRunsLeave(prog, assumed, s, env, d);
      var e := ShorterRun(prog, env, s.k, d, s.k - 1);
      assert s.tree[d[..i]].Inner?;
      FollowsPrefix(prog, env, d, i + 1);
      assert Parent(d[..i + 1]) == d[..i];
      RunPasses(prog, env, s.k - 1, e, d[..i + 1]);
      PrefixInTree(s.tree, e, i + 1);
      assert false;
    }
  }

  /** What a complete tree holds has been run. */
  lemma CompleteIsRun(prog: Program, assumed: seq<Expr>, s: State, env: Env, d: Path)
    requires Conditions(assumed) && Guest(prog) && Inv(prog, assumed, s) && s.runs != []
    requires Complete(s.tree, prog, assumed, s.k) && AllHold(assumed, env) && Run(prog, env, s.k, d)
    ensures d in s.runs
  {
    hide Eval, WellFormed, Width, AllHold, Follows, Shape, Settled;
    assert d in s.tree;
    assert WithinAt(s.tree, prog, assumed, s.k, d);
  }

  lemma CompleteGrows(t: Tree, u: Tree, prog: Program, assumed: seq<Expr>, k: nat)
    requires Conditions(assumed) && Complete(t, prog, assumed, k) && t.Keys <= u.Keys
    ensures Complete(u, prog, assumed, k)
  {
    hide Eval, WellFormed, Width, AllHold, Run;
    forall env: Env, d | AllHold(assumed, env) && Run(prog, env, k, d)
      ensures d in u
    {
      assert d in t.Keys;
    }
  }

  // ----- Replaying what was stopped -----

  /** What stays a placeholder when a run is recorded is its end, or was one before and is not on its way. */
  lemma PlaceholderAfter(t: Tree, prog: Program, d: Path, p: Path)
    requires [] in t && Decides(prog, d) && p in Record(t, prog, d) && Record(t, prog, d)[p].Placeholder? && p != d
    ensures p in t && t[p].Placeholder? && !IsPrefix(p, d)
  {
    RecordAt(t, prog, d, p);
    assert IsPrefix([], d);
  }

  /** A run with more packets goes on from where the input was stopped. */
  lemma ReplayGoesOn(prog: Program, env: Env, k: nat, d: Path, p: Path)
    requires Guest(prog) && Run(prog, env, k, d) && Follows(prog, env, p)
    requires p != [] ==> prog(Parent(p)).Some? && prog(Parent(p)).value.pktSeqLen <= k
    ensures IsPrefix(p, d)
    ensures prog(p).Some? && prog(p).value.pktSeqLen <= k ==> p != d
  {
    if p != [] {
      RunPasses(prog, env, k, d, p);
    }
  }

  lemma MarkedPlaceholder(t: Tree, u: Tree, p: Path)
    requires Marked(t, u) && p in u
    ensures p in t && (u[p].Placeholder? <==> t[p].Placeholder?)
  {
    assert t[p] == t[p];
  }

  // ----- Any exploration -----

  /** Between the steps `e` and `f` an input that was stopped at `p` was run again with `k` packets. */
  ghost predicate Replayed(prog: Program, states: seq<State>, actions: seq<Action>, e: nat, f: nat, k: nat, p: Path)
    requires |states| == |actions| + 1 && f <= |actions|
  {
    exists l :: e < l < f && actions[l].Replays? && states[l + 1].k == k && Follows(prog, actions[l].env, p)
  }

  ghost predicate Stopped(t: Tree, prog: Program, p: Path) {
    p in t && t[p].Placeholder? && prog(p).Some?
  }

  /** From one exhausted search to the next: all runs in between have `k` packets, and what had been stopped
      before was replayed. */
  ghost predicate Stage(prog: Program, states: seq<State>, actions: seq<Action>, e: nat, f: nat, k: nat)
    requires |states| == |actions| + 1
  {
    && e < f < |actions| && actions[e].Exhausts? && actions[f].Exhausts? && states[f].k == k
    && (forall l :: e < l < f && !actions[l].Exhausts? ==> states[l + 1].k == k)
    && (forall p {:trigger Stopped(states[e].tree, prog, p)} :: Stopped(states[e].tree, prog, p) ==>
          Replayed(prog, states, actions, e, f, k, p))
  }

  /** What is still pending within `k` packets had been stopped before and was not replayed yet. */
  ghost predicate StillPending(prog: Program, states: seq<State>, actions: seq<Action>, e: nat, i: nat, k: nat)
    requires |states| == |actions| + 1 && e < i <= |actions|
  {
    forall p {:trigger Stopped(states[i].tree, prog, p)} ::
      Stopped(states[i].tree, prog, p) && prog(p).value.pktSeqLen <= k ==>
        Stopped(states[e].tree, prog, p) && !Replayed(prog, states, actions, e, i, k, p)
  }

  lemma PendingStep(prog: Program, assumed: seq<Expr>, states: seq<State>, actions: seq<Action>, e: nat, i: nat, k: nat,
                    p: Path)
    requires Conditions(assumed) && Guest(prog) && Exploration(prog, assumed, states, actions)
    requires e < i < |actions| && StillPending(prog, states, actions, e, i, k)
    requires !actions[i].Exhausts? ==> states[i + 1].k == k
    requires Stopped(states[i + 1].tree, prog, p) && prog(p).value.pktSeqLen <= k
    ensures Stopped(states[e].tree, prog, p) && !Replayed(prog, states, actions, e, i + 1, k, p)
  {
    hide Eval, WellFormed, Width, AllHold, Guest, Settled, SettledExcept, Completes, Eligible, Reaches, Follows;
    var s, s', a := states[i], states[i + 1], actions[i];
    assert Next(prog, assumed, s, a, s');
    if a.Exhausts? {
      MarkedPlaceholder(s.tree, s'.tree, p);
    } else {
      var t := if a.Explores? then a.u else s.tree;
      PlaceholderAfter(t, prog, a.d, p);
      if a.Explores? {
        MarkedPlaceholder(s.tree, t, p);
      } else if Follows(prog, a.env, p) {
        StoppedParent(prog, p);
        ReplayGoesOn(prog, a.env, k, a.d, p);
      }
    }
    assert Stopped(s.tree, prog, p);
  }

  lemma StoppedParent(prog: Program, p: Path)
    requires Guest(prog) && prog(p).Some?
    ensures p != [] ==> prog(Parent(p)).Some? && prog(Parent(p)).value.pktSeqLen <= prog(p).value.pktSeqLen
  {
    if p != [] {
      ChildOfParent(p);
    }
  }

  lemma {:induction false} PendingHolds(prog: Program, assumed: seq<Expr>, states: seq<State>, actions: seq<Action>,
                                        e: nat, f: nat, k: nat, i: nat)
    requires Conditions(assumed) && Guest(prog) && Exploration(prog, assumed, states, actions)
    requires Stage(prog, states, actions, e, f, k) && e < i <= f
    ensures StillPending(prog, states, actions, e, i, k)
  {
    hide Eval, WellFormed, Width, AllHold, Guest, Settled, Eligible;
    if i == e + 1 {
      assert Next(prog, assumed, states[e], actions[e], states[e + 1]);
      forall p {:trigger Stopped(states[i].tree, prog, p)} | Stopped(states[i].tree, prog, p)
        ensures Stopped(states[e].tree, prog, p)
      {
        MarkedPlaceholder(states[e].tree, states[i].tree, p);
      }
    } else {
      PendingHolds(prog, assumed, states, actions, e, f, k, i - 1);
      forall p {:trigger Stopped(states[i].tree, prog, p)}
        | Stopped(states[i].tree, prog, p) && prog(p).value.pktSeqLen <= k
        ensures Stopped(states[e].tree, prog, p) && !Replayed(prog, states, actions, e, i, k, p)
      {
        PendingStep(prog, assumed, states, actions, e, i - 1, k, p);
      }
    }
  }

  lemma StepGrows(prog: Program, assumed: seq<Expr>, s: State, a: Action, s': State)
    requires Conditions(assumed) && Next(prog, assumed, s, a, s')
    ensures s.tree.Keys <= s'.tree.Keys && s.runs <= s'.runs
  {
    hide Eval, WellFormed, Width, AllHold, Settled, SettledExcept, Completes, Eligible, Reaches, Run, Follows;
  }

  lemma {:induction false} HistoryGrows(prog: Program, assumed: seq<Expr>, states: seq<State>, actions: seq<Action>,
                                        i: nat, j: nat)
    requires Conditions(assumed) && Exploration(prog, assumed, states, actions) && i <= j <= |actions|
    ensures states[i].tree.Keys <= states[j].tree.Keys && states[i].runs <= states[j].runs
    decreases j - i
  {
    hide Next;
    if i < j {
      HistoryGrows(prog, assumed, states, actions, i, j - 1);
      assert Next(prog, assumed, states[j - 1], actions[j - 1], states[j]);
      StepGrows(prog, assumed, states[j - 1], actions[j - 1], states[j]);
    }
  }

  /** A search that finds nothing completes the tree, if it was complete for one packet less and nothing is
      pending. */
  lemma ExhaustCompletes(prog: Program, assumed: seq<Expr>, states: seq<State>, actions: seq<Action>, f: nat)
    requires Conditions(assumed) && Guest(prog) && Exploration(prog, assumed, states, actions)
    requires f < |actions| && actions[f].Exhausts? && states[f].runs != []
    requires states[f].k >= 1 && Complete(states[f].tree, prog, assumed, states[f].k - 1)
    requires NonePending(states[f].tree, prog, states[f].k)
    ensures Complete(states[f + 1].tree, prog, assumed, states[f].k)
    ensures forall env: Env, d :: AllHold(assumed, env) && Run(prog, env, states[f].k, d) ==> d in states[f].runs
  {
    hide Eval, WellFormed, Width, AllHold, Guest, Inv, Run, Settled, Complete;
    var s, s' := states[f], states[f + 1];
    assert Next(prog, assumed, s, actions[f], s');
    InvHolds(prog, assumed, states, actions, f + 1);
    CompleteGrows(s.tree, s'.tree, prog, assumed, s.k - 1);
    forall p {:trigger s'.tree[p]} | p in s'.tree && s'.tree[p].Placeholder? && prog(p).Some?
      ensures prog(p).value.pktSeqLen > s.k
    {
      MarkedPlaceholder(s.tree, s'.tree, p);
    }
    CompleteNext(prog, assumed, s');
    forall env: Env, d | AllHold(assumed, env) && Run(prog, env, s.k, d)
      ensures d in s.runs
    {
      CompleteIsRun(prog, assumed, s', env, d);
    }
  }

  /** One more packet: what was stopped is replayed, and the search finds nothing any more. */
  lemma StageCompletes(prog: Program, assumed: seq<Expr>, states: seq<State>, actions: seq<Action>, e: nat, f: nat,
                       k: nat)
    requires Conditions(assumed) && Guest(prog) && Exploration(prog, assumed, states, actions)
    requires k >= 1 && Stage(prog, states, actions, e, f, k) && states[e].runs != []
    requires Complete(states[e + 1].tree, prog, assumed, k - 1)
    ensures Complete(states[f + 1].tree, prog, assumed, k)
    ensures forall env: Env, d :: AllHold(assumed, env) && Run(prog, env, k, d) ==> d in states[f].runs
  {
    hide Eval, WellFormed, Width, AllHold, Guest, Run, Complete, Next, Follows;
    PendingHolds(prog, assumed, states, actions, e, f, k, f);
    HistoryGrows(prog, assumed, states, actions, e + 1, f);
    HistoryGrows(prog, assumed, states, actions, e, f);
    CompleteGrows(states[e + 1].tree, states[f].tree, prog, assumed, k - 1);
    var t := states[f].tree;
    forall p {:trigger t[p]} | p in t && t[p].Placeholder? && prog(p).Some?
      ensures prog(p).value.pktSeqLen > k
    {
      assert Stopped(t, prog, p);
    }
    ExhaustCompletes(prog, assumed, states, actions, f);
  }

  /** Searches to exhaustion at the packet counts `1` to `|es|`, at the steps `es`. */
  ghost predicate Stages(prog: Program, states: seq<State>, actions: seq<Action>, es: seq<nat>)
    requires |states| == |actions| + 1
  {
    && es != [] && es[0] < |actions| && actions[es[0]].Exhausts? && states[es[0]].k == 1 && states[es[0]].runs != []
    && forall j :: 0 < j < |es| ==> Stage(prog, states, actions, es[j - 1], es[j], j + 1)
  }

  lemma {:induction false} StagesComplete(prog: Program, assumed: seq<Expr>, states: seq<State>, actions: seq<Action>,
                                          es: seq<nat>, j: nat)
    requires Conditions(assumed) && Guest(prog) && Exploration(prog, assumed, states, actions)
    requires Stages(prog, states, actions, es) && j < |es|
    ensures es[j] < |actions| && states[es[j]].runs != []
    ensures Complete(states[es[j] + 1].tree, prog, assumed, j + 1)
    ensures forall env: Env, d :: AllHold(assumed, env) && Run(prog, env, j + 1, d) ==> d in states[es[j]].runs
  {
    hide Eval, WellFormed, Width, AllHold, Guest, Run, Complete, Next, Inv;
    if j == 0 {
      InvHolds(prog, assumed, states, actions, es[0]);
      StartsComplete(prog, assumed, states[es[0]]);
      ExhaustCompletes(prog, assumed, states, actions, es[0]);
    } else {
      StagesComplete(prog, assumed, states, actions, es, j - 1);
      assert Stage(prog, states, actions, es[j - 1], es[j], j + 1);
      HistoryGrows(prog, assumed, states, actions, es[j - 1], es[j]);
      StageCompletes(prog, assumed, states, actions, es[j - 1], es[j], j + 1);
    }
  }

  lemma StartsComplete(prog: Program, assumed: seq<Expr>, s: State)
    requires Conditions(assumed) && Guest(prog) && Inv(prog, assumed, s) && s.runs != []
    ensures Complete(s.tree, prog, assumed, 0) && NonePending(s.tree, prog, 1)
  {
    hide Eval, WellFormed, Width, AllHold, Run, Follows, Settled;
    CompleteAtNone(s.tree, prog, assumed);
    forall p {:trigger s.tree[p]} | p in s.tree && s.tree[p].Placeholder? && prog(p).Some?
      ensures prog(p).value.pktSeqLen > 1
    {
      assert WithinAt(s.tree, prog, assumed, s.k, p);
    }
  }

  /** Completeness at every packet count: in any exploration in which each count up to `m` was searched to
      exhaustion, and what was stopped at one count was replayed at the next, every path of up to `m` packets
      that an input within the assumptions takes has been run. */
  lemma AllLengthsComplete(prog: Program, assumed: seq<Expr>, states: seq<State>, actions: seq<Action>, es: seq<nat>,
                           k: nat, env: Env, d: Path)
    requires Conditions(assumed) && Guest(prog) && Exploration(prog, assumed, states, actions)
    requires Stages(prog, states, actions, es) && 1 <= k <= |es|
    requires AllHold(assumed, env) && Run(prog, env, k, d)
    ensures d in states[|actions|].runs
  {
    hide Eval, WellFormed, Width, AllHold, Guest, Run, Complete, Next, Stages;
    StagesComplete(prog, assumed, states, actions, es, k - 1);
    HistoryGrows(prog, assumed, states, actions, es[k - 1], |actions|);
    var before, after := states[es[k - 1]].runs, states[|actions|].runs;
    assert after == before + after[|before|..];
  }
}
