/** The exploration driver: bounded exploration over the length of the packet sequence, with the
    branch coverage that tells it when it is stuck and the pools of partially explored paths.
    The simulated software, the solver and `rand` are arbitrary: their answers are given by
    functions of how often they have been asked. */
module Exploration {
  import opened Sets
  import opened Expr

  const UINT_MAX: nat := 0xFFFF_FFFF

  // ----- Branch coverage -----

  type Directions = map<nat, (bool, bool)>

  /** The directions of branch instructions that have been executed. */
  function Covered(b: Directions): set<(nat, bool)> {
    (set a | a in b && b[a].0 :: (a, true)) + (set a | a in b && b[a].1 :: (a, false))
  }

  predicate Taken(c: (bool, bool), condition: bool) {
    if condition then c.0 else c.1
  }

  lemma InCovered(b: Directions, x: (nat, bool))
    ensures x in Covered(b) <==> x.0 in b && Taken(b[x.0], x.1)
  {
  }

  /** The directions of one branch. */
  function CoveredAt(a: nat, c: (bool, bool)): set<(nat, bool)> {
    (if c.0 then {(a, true)} else {}) + (if c.1 then {(a, false)} else {})
  }

  function Count(c: (bool, bool)): nat {
    (if c.0 then 1 else 0) + (if c.1 then 1 else 0)
  }

  lemma CoveredOfOne(b: Directions, a: nat)
    requires a in b
    ensures |Covered(b)| == |Covered(b - {a})| + Count(b[a])
  {
    hide Covered;
    var rest, one := Covered(b - {a}), CoveredAt(a, b[a]);
    forall x: (nat, bool)
      ensures x in Covered(b) <==> x in rest || x in one
      ensures !(x in rest && x in one)
    {
      InCovered(b, x);
      InCovered(b - {a}, x);
      assert x == (x.0, x.1);
    }
    assert Covered(b) == rest + one && rest !! one;
    assert |one| == Count(b[a]);
  }

  lemma {:induction false} CoveredAtMost(b: Directions)
    ensures |Covered(b)| <= 2 * |b|
    decreases |b|
  {
    if b.Keys == {} {
      assert Covered(b) == {};
    } else {
      var a :| a in b;
      assert (b - {a}).Keys == b.Keys - {a};
      CoveredOfOne(b, a);
      CoveredAtMost(b - {a});
    }
  }

  lemma NothingCovered(b: Directions)
    requires b.Keys == {}
    ensures Covered(b) == {}
  {
  }

  class Coverage {
    var branches: Directions

    constructor (branches: Directions)
      ensures this.branches == branches
    {
      this.branches := branches;
    }

    /** `cover_branch`: coverage only grows, and only at known branches. */
    method CoverBranch(addr: nat, condition: bool)
      modifies this
      ensures branches.Keys == old(branches).Keys
      ensures Covered(branches) == Covered(old(branches)) + if addr in branches then {(addr, condition)} else {}
    {
      if addr !in branches {
        return;
      }
      if condition {
        branches := branches[addr := (true, branches[addr].1)];
      } else {
        branches := branches[addr := (branches[addr].0, true)];
      }
    }

    method ExecutedBranches() returns (n: nat)
      ensures n == |Covered(branches)| <= 2 * |branches|
    {
      hide Covered;
      n := 0;
      var todo := branches;
      while todo.Keys != {}
        invariant todo.Keys <= branches.Keys && n + |Covered(todo)| == |Covered(branches)|
        decreases |todo|
      {
        var a :| a in todo;
        assert (todo - {a}).Keys == todo.Keys - {a};
        CoveredOfOne(todo, a);
        n := n + Count(todo[a]);
        todo := todo - {a};
      }
      NothingCovered(todo);
      CoveredAtMost(branches);
    }
  }

  // ----- Pools of partially explored paths -----

  /** For each length of the packet sequence, the runs to be replayed at it.  A run stands for the
      store with the inputs it was given. */
  type Pools = map<nat, seq<nat>>

  function Pool(pools: Pools, k: nat): seq<nat> {
    if k in pools then pools[k] else []
  }

  function Pushed(pools: Pools, k: nat, r: nat): Pools {
    pools[k := Pool(pools, k) + [r]]
  }

  predicate Distinct(s: seq<nat>) {
    forall i, j :: 0 <= i < j < |s| ==> s[i] != s[j]
  }

  /** A pool holds runs of the length below its own, each at most once, and none that was replayed.
      `lengths` has the length that each run was given. */
  ghost predicate PoolOk(pool: seq<nat>, k: nat, lengths: seq<nat>, replayed: set<nat>) {
    && Distinct(pool)
    && forall i :: 0 <= i < |pool| ==> pool[i] < |lengths| && lengths[pool[i]] + 1 == k && pool[i] !in replayed
  }

  ghost predicate PoolsOk(pools: Pools, lengths: seq<nat>, replayed: set<nat>) {
    && (forall k :: k in pools ==> PoolOk(pools[k], k, lengths, replayed))
    && (forall r :: r in replayed ==> r < |lengths|)
  }

  lemma RunKeepsPools(pools: Pools, lengths: seq<nat>, replayed: set<nat>, k: nat)
    requires PoolsOk(pools, lengths, replayed)
    ensures PoolsOk(pools, lengths + [k], replayed)
    ensures PoolsOk(Pushed(pools, k + 1, |lengths|), lengths + [k], replayed)
  {
    forall j | j in pools
      ensures PoolOk(pools[j], j, lengths + [k], replayed)
    {
      assert PoolOk(pools[j], j, lengths, replayed);
    }
    assert PoolOk(Pool(pools, k + 1), k + 1, lengths, replayed);
    assert PoolOk(Pool(pools, k + 1) + [|lengths|], k + 1, lengths + [k], replayed);
  }

  function Without(s: seq<nat>, i: nat): seq<nat>
    requires i < |s|
  {
    s[..i] + s[i + 1..]
  }

  lemma WithoutKeeps(pool: seq<nat>, k: nat, lengths: seq<nat>, replayed: set<nat>, i: nat)
    requires PoolOk(pool, k, lengths, replayed) && i < |pool|
    ensures PoolOk(Without(pool, i), k, lengths, replayed + {pool[i]})
  {
    var w := Without(pool, i);
    forall m | 0 <= m < |w|
      ensures w[m] == pool[if m < i then m else m + 1]
    {
    }
  }

  lemma TakeKeepsPools(pools: Pools, lengths: seq<nat>, replayed: set<nat>, k: nat, i: nat)
    requires PoolsOk(pools, lengths, replayed) && i < |Pool(pools, k)|
    ensures PoolsOk(pools[k := Without(Pool(pools, k), i)], lengths, replayed + {Pool(pools, k)[i]})
    ensures Pool(pools, k)[i] < |lengths| && lengths[Pool(pools, k)[i]] + 1 == k && Pool(pools, k)[i] !in replayed
  {
    hide Without;
    var r := Pool(pools, k)[i];
    assert PoolOk(pools[k], k, lengths, replayed);
    WithoutKeeps(pools[k], k, lengths, replayed, i);
    forall j | j in pools && j != k
      ensures PoolOk(pools[j], j, lengths, replayed + {r})
    {
      assert PoolOk(pools[j], j, lengths, replayed);
    }
  }

  /** The runs were replayed at length `k`, one packet longer than they were. */
  ghost predicate AllOfLength(rs: set<nat>, lengths: seq<nat>, k: nat) {
    forall r :: r in rs ==> r < |lengths| && lengths[r] + 1 == k
  }

  lemma NoneOfLength(lengths: seq<nat>, k: nat)
    ensures AllOfLength({}, lengths, k)
  {
  }

  lemma MoreOfLength(rs: set<nat>, rs': set<nat>, all: set<nat>, lengths: seq<nat>, k: nat)
    requires AllOfLength(rs, lengths, k) && AllOfLength(rs', lengths, k) && all <= rs + rs'
    ensures AllOfLength(all, lengths, k) && AllOfLength(all, lengths + [k], k)
  {
  }

  /** Only the pool of length `k` has changed, by additions. */
  ghost predicate Feeds(pools: Pools, pools': Pools, k: nat) {
    (forall j: nat :: j != k ==> Pool(pools', j) == Pool(pools, j)) && Pool(pools, k) <= Pool(pools', k)
  }

  /** Only the pool of length `k` was taken from and only that of `k + 1` was added to. */
  ghost predicate Replays(pools: Pools, pools': Pools, k: nat) {
    && (forall j: nat :: j != k && j != k + 1 ==> Pool(pools', j) == Pool(pools, j))
    && Pool(pools, k + 1) <= Pool(pools', k + 1)
  }

  lemma PushFeeds(pools: Pools, pools': Pools, k: nat, r: nat)
    requires Feeds(pools, pools', k)
    ensures Feeds(pools, Pushed(pools', k, r), k)
  {
  }

  lemma PushReplays(pools: Pools, pools': Pools, k: nat, r: nat)
    requires Replays(pools, pools', k)
    ensures Replays(pools, Pushed(pools', k + 1, r), k)
    ensures Pool(Pushed(pools', k + 1, r), k) == Pool(pools', k)
  {
  }

  lemma TakeReplays(pools: Pools, pools': Pools, k: nat, i: nat)
    requires Replays(pools, pools', k) && i < |Pool(pools', k)|
    ensures Replays(pools, pools'[k := Without(Pool(pools', k), i)], k)
    ensures |Pool(pools'[k := Without(Pool(pools', k), i)], k)| == |Pool(pools', k)| - 1
  {
  }

  class SymbolicContext {
    var currentPacketIndex: nat
    var packetSequenceLength: nat
    var partiallyExplored: Pools

    constructor ()
      ensures currentPacketIndex == 0 && packetSequenceLength == 0 && partiallyExplored == map[]
    {
      currentPacketIndex, packetSequenceLength, partiallyExplored := 0, 0, map[];
    }

    method PreparePacketSequence(k: nat)
      modifies this
      ensures currentPacketIndex == 0 && packetSequenceLength == k && partiallyExplored == old(partiallyExplored)
    {
      currentPacketIndex, packetSequenceLength := 0, k;
    }

    method ProcessedPacket() returns (last: bool)
      modifies this`currentPacketIndex
      ensures currentPacketIndex == old(currentPacketIndex) + 1
      ensures last <==> currentPacketIndex >= packetSequenceLength
    {
      currentPacketIndex := currentPacketIndex + 1;
      return currentPacketIndex >= packetSequenceLength;
    }

    /** `sys_processed_packet`, called by the software after each packet: the last one of the sequence
        ends the run and puts it into the pool of the next length. */
    method SysProcessedPacket(r: nat) returns (exits: bool)
      modifies this
      ensures currentPacketIndex == old(currentPacketIndex) + 1 && packetSequenceLength == old(packetSequenceLength)
      ensures exits <==> currentPacketIndex >= packetSequenceLength
      ensures partiallyExplored ==
        if exits then Pushed(old(partiallyExplored), packetSequenceLength + 1, r) else old(partiallyExplored)
    {
      exits := ProcessedPacket();
      if exits {
        partiallyExplored := Pushed(partiallyExplored, packetSequenceLength + 1, r);
      }
    }

    /** The packets of one run: software that would process `packets` of them is stopped after those
        of the sequence. */
    method Receive(packets: nat, r: nat)
      requires currentPacketIndex == 0 < packetSequenceLength
      modifies this
      ensures packetSequenceLength == old(packetSequenceLength)
      ensures partiallyExplored ==
        if packets >= packetSequenceLength then Pushed(old(partiallyExplored), packetSequenceLength + 1, r)
        else old(partiallyExplored)
    {
      while currentPacketIndex < packets
        invariant currentPacketIndex <= packets && currentPacketIndex < packetSequenceLength
        invariant packetSequenceLength == old(packetSequenceLength) && partiallyExplored == old(partiallyExplored)
        decreases packets - currentPacketIndex
      {
        var exits := SysProcessedPacket(r);
        if exits {
          return;
        }
      }
    }

    /** `random_partial`: an element is taken out of the pool, if there is one. */
    method RandomPartial(k: nat, random: nat) returns (r: Option<nat>)
      modifies this`partiallyExplored
      ensures r.None? <==> Pool(old(partiallyExplored), k) == []
      ensures r.None? ==> partiallyExplored == old(partiallyExplored)
      ensures r.Some? ==>
        var pool := Pool(old(partiallyExplored), k);
        var i := random % |pool|;
        r.value == pool[i] && partiallyExplored == old(partiallyExplored)[k := Without(pool, i)]
    {
      var pool := Pool(partiallyExplored, k);
      if pool == [] {
        return None;
      }
      var i := random % |pool|;
      partiallyExplored := partiallyExplored[k := Without(pool, i)];
      return Some(pool[i]);
    }

    method ClearPartial()
      modifies this`partiallyExplored
      ensures partiallyExplored == map[]
    {
      partiallyExplored := map[];
    }
  }

  // ----- The driver -----

  /** What one run of the software does: the branches it takes, the packets it would process and the
      result of the simulation. */
  datatype Outcome = Outcome(branches: seq<(nat, bool)>, packets: nat, ret: int)

  /** How many more calls of `is_stuck` can return false, at most. */
  function Patience(branches: nat, prev: nat, noNew: nat): int {
    (2 * branches - prev) * 50 + (50 - noNew)
  }

  /** The most runs between two times that the search gets stuck. */
  function Phase(branches: nat): nat {
    100 * branches + 50
  }

  class Driver {
    const run: nat -> Outcome
    const found: nat -> bool
    const random: nat -> nat
    const coverage: Coverage
    const context: SymbolicContext

    var prevExecutedBranches: nat
    var noNewBranch: nat
    var pktseqlen: nat

    /** How often the software, the solver and the random numbers were asked. */
    var runs: nat
    var answers: nat
    var picks: nat

    ghost var lengths: seq<nat>
    ghost var replayed: set<nat>

    ghost predicate Valid()
      reads this, coverage, context
    {
      && prevExecutedBranches <= |Covered(coverage.branches)| && noNewBranch < 50
      && |lengths| == runs && PoolsOk(context.partiallyExplored, lengths, replayed)
    }

    constructor (run: nat -> Outcome, found: nat -> bool, random: nat -> nat, branches: Directions)
      ensures Valid() && fresh(coverage) && fresh(context) && coverage.branches == branches && runs == 0
    {
      this.run, this.found, this.random := run, found, random;
      this.coverage := new Coverage(branches);
      this.context := new SymbolicContext();
      this.prevExecutedBranches, this.noNewBranch, this.pktseqlen := 0, 0, 1;
      this.runs, this.answers, this.picks := 0, 0, 0;
      this.lengths, this.replayed := [], {};
    }

    ghost function Left(): int
      reads this, coverage
    {
      Patience(|coverage.branches|, prevExecutedBranches, noNewBranch)
    }

    /** `is_stuck`: fifty calls in a row without a new branch. */
    method IsStuck() returns (stuck: bool)
      requires Valid()
      modifies this`prevExecutedBranches, this`noNewBranch
      ensures Valid() && prevExecutedBranches == |Covered(coverage.branches)|
      ensures stuck <==> prevExecutedBranches == old(prevExecutedBranches) && old(noNewBranch) == 49
      ensures 0 < Left() <= Phase(|coverage.branches|)
      ensures !stuck ==> Left() < old(Left())
      ensures old(Left()) > 0
    {
      hide Covered, PoolsOk;
      var branches := coverage.ExecutedBranches();
      if branches == prevExecutedBranches {
        noNewBranch := noNewBranch + 1;
      } else {
        noNewBranch := 0;
      }
      prevExecutedBranches := branches;
      stuck := noNewBranch >= 50;
      if stuck {
        noNewBranch := 0;
      }
    }

    lemma LeftBounded()
      requires Valid()
      ensures 0 < Left() <= Phase(|coverage.branches|)
    {
      hide Covered, PoolsOk;
      CoveredAtMost(coverage.branches);
    }

    /** The branches that a run takes. */
    method Cover(taken: seq<(nat, bool)>)
      modifies coverage
      ensures coverage.branches.Keys == old(coverage.branches.Keys) && |coverage.branches| == |old(coverage.branches)|
      ensures Covered(old(coverage.branches)) <= Covered(coverage.branches)
      ensures |Covered(old(coverage.branches))| <= |Covered(coverage.branches)|
    {
      hide Covered;
      var i := 0;
      while i < |taken|
        invariant 0 <= i <= |taken| && coverage.branches.Keys == old(coverage.branches.Keys)
        invariant Covered(old(coverage.branches)) <= Covered(coverage.branches)
      {
        coverage.CoverBranch(taken[i].0, taken[i].1);
        i := i + 1;
      }
      KeysCount(coverage.branches);
      KeysCount(old(coverage.branches));
      SubsetSize(Covered(old(coverage.branches)), Covered(coverage.branches));
    }

    /** `explore_path`: one run at the prepared length. */
    method ExplorePath(k: nat) returns (ret: int)
      requires Valid() && context.currentPacketIndex == 0 < k == context.packetSequenceLength
      modifies this`runs, this`lengths, coverage, context
      ensures Valid() && runs == old(runs) + 1 && ret == run(old(runs)).ret && Left() == old(Left())
      ensures coverage.branches.Keys == old(coverage.branches.Keys) && |coverage.branches| == |old(coverage.branches)|
      ensures context.partiallyExplored == old(context.partiallyExplored) ||
              context.partiallyExplored == Pushed(old(context.partiallyExplored), k + 1, old(runs))
      ensures lengths == old(lengths) + [k]
    {
      hide PoolsOk, Covered, Patience, Pushed;
      var o := run(runs);
      Cover(o.branches);
      RunKeepsPools(context.partiallyExplored, lengths, replayed, k);
      context.Receive(o.packets, runs);
      lengths := lengths + [k];
      runs := runs + 1;
      return o.ret;
    }

    /** The search at one length: new inputs from the solver until there are none or it is stuck.  It
        ends after boundedly many runs however many paths there are. */
    method Search(k: nat) returns (ret: int)
      requires Valid() && k > 0
      modifies this`runs, this`lengths, this`prevExecutedBranches, this`noNewBranch, this`answers, coverage, context
      ensures Valid() && coverage.branches.Keys == old(coverage.branches.Keys)
      ensures |coverage.branches| == |old(coverage.branches)| && runs <= old(runs) + Phase(|coverage.branches|)
      ensures Feeds(old(context.partiallyExplored), context.partiallyExplored, k + 1)
    {
      hide Covered, PoolsOk, Feeds, Patience, Phase;
      assert Feeds(old(context.partiallyExplored), context.partiallyExplored, k + 1) by {
        FeedsNothing(context.partiallyExplored, k + 1);
      }
      var again := true;
      ret := 0;
      LeftBounded();
      while again
        invariant Valid() && |coverage.branches| == |old(coverage.branches)|
        invariant coverage.branches.Keys == old(coverage.branches.Keys)
        invariant runs + Left() <= old(runs + Left()) && Left() > 0
        invariant Feeds(old(context.partiallyExplored), context.partiallyExplored, k + 1)
        decreases again, Left()
      {
        ghost var pools := context.partiallyExplored;
        context.PreparePacketSequence(k);
        ret := ExplorePath(k);
        PushFeeds(old(context.partiallyExplored), pools, k + 1, runs - 1);
        if ret != 0 {
          return;
        }
        var stuck := IsStuck();
        if stuck {
          return;
        }
        again := found(answers);
        answers := answers + 1;
      }
    }

    /** `random_partial`, with a note of the run that will be replayed. */
    method TakePartial(k: nat) returns (taken: bool, ghost i: nat)
      requires Valid()
      modifies this`picks, this`replayed, context`partiallyExplored
      ensures Valid() && (taken <==> Pool(old(context.partiallyExplored), k) != [])
      ensures !taken ==> replayed == old(replayed) && context.partiallyExplored == old(context.partiallyExplored)
      ensures taken ==>
        && i < |Pool(old(context.partiallyExplored), k)|
        && Pool(old(context.partiallyExplored), k)[i] !in old(replayed)
        && replayed == old(replayed) + {Pool(old(context.partiallyExplored), k)[i]}
        && context.partiallyExplored ==
          old(context.partiallyExplored)[k := Without(Pool(old(context.partiallyExplored), k), i)]
      ensures AllOfLength(replayed - old(replayed), lengths, k)
    {
      hide Covered, PoolsOk, Without;
      ghost var pools := context.partiallyExplored;
      i := 0;
      var store := context.RandomPartial(k, random(picks));
      if store.Some? {
        i := random(picks) % |Pool(pools, k)|;
        TakeKeepsPools(pools, lengths, replayed, k, i);
        replayed := replayed + {store.value};
      }
      picks := picks + 1;
      taken := store.Some?;
    }

    /** The replays at one length: it takes from the pool of that length, adds to that of the next one
        only, and no run is replayed twice.  If it gets stuck all pools are dropped. */
    method Replay(k: nat) returns (ret: int)
      requires Valid() && k > 0
      modifies this`runs, this`lengths, this`replayed, this`prevExecutedBranches, this`noNewBranch, this`picks
      modifies coverage, context
      ensures Valid() && coverage.branches.Keys == old(coverage.branches.Keys)
      ensures |coverage.branches| == |old(coverage.branches)| && runs <= old(runs) + Phase(|coverage.branches|)
      ensures ret == 0 ==> Pool(context.partiallyExplored, k) == []
      ensures context.partiallyExplored == map[] ||
              Replays(old(context.partiallyExplored), context.partiallyExplored, k)
      ensures AllOfLength(replayed - old(replayed), lengths, k)
    {
      hide Covered, PoolsOk, Replays, Patience, Phase, Without, Pool, Pushed, AllOfLength;
      assert AllOfLength(replayed - old(replayed), lengths, k) by {
        NoneOfLength(lengths, k);
        assert replayed - old(replayed) == {};
      }
      assert Replays(old(context.partiallyExplored), context.partiallyExplored, k) by {
        ReplaysNothing(context.partiallyExplored, k);
      }
      LeftBounded();
      while true
        invariant Valid() && |coverage.branches| == |old(coverage.branches)|
        invariant coverage.branches.Keys == old(coverage.branches.Keys)
        invariant runs + Left() <= old(runs + Left()) && Left() > 0
        invariant Replays(old(context.partiallyExplored), context.partiallyExplored, k)
        invariant AllOfLength(replayed - old(replayed), lengths, k)
        decreases |Pool(context.partiallyExplored, k)|
      {
        ghost var pools := context.partiallyExplored;
        ghost var before := replayed;
        var taken, i := TakePartial(k);
        if !taken {
          return 0;
        }
        MoreOfLength(before - old(replayed), replayed - before, replayed - old(replayed), lengths, k);
        TakeReplays(old(context.partiallyExplored), pools, k, i);
        var stuck := IsStuck();
        if stuck {
          DropKeepsPools(context.partiallyExplored, lengths, replayed, k);
          context.ClearPartial();
          return 0;
        }
        pools := context.partiallyExplored;
        context.PreparePacketSequence(k);
        ret := ExplorePath(k);
        PushReplays(old(context.partiallyExplored), pools, k, runs - 1);
        if ret != 0 {
          return;
        }
      }
    }

    /** `explore_paths`: it ends, and the number of runs has a bound that depends on the number of
        branch instructions and the maximal length only. */
    method ExplorePaths(maxpktseq: nat) returns (ret: int)
      requires Valid() && 0 < maxpktseq < UINT_MAX
      modifies this, coverage, context
      ensures Valid()
      ensures InPhases(runs, old(runs), 2 * maxpktseq - 1, Phase(|old(coverage.branches)|))
      ensures ret == 0 ==> pktseqlen == maxpktseq + 1
    {
      hide Covered, PoolsOk, Phase, InPhases, Feeds, Replays, Pool;
      ghost var phase := Phase(|coverage.branches|);
      pktseqlen := 1;
      var foundAssig := true;
      ghost var phases := 0;
      NoPhases(runs, phase);
      while true
        invariant Valid() && 1 <= pktseqlen <= maxpktseq && |coverage.branches| == |old(coverage.branches)|
        invariant phases == 2 * pktseqlen - 2 && InPhases(runs, old(runs), phases, phase)
        decreases maxpktseq - pktseqlen
      {
        if foundAssig {
          ghost var before := runs;
          ret := Search(pktseqlen);
          MorePhases(before, runs, old(runs), phases, phase, 2 * maxpktseq - 1);
          if ret != 0 {
            return;
          }
        } else {
          MorePhases(runs, runs, old(runs), phases, phase, 2 * maxpktseq - 1);
        }
        pktseqlen := NextLength(pktseqlen);
        if maxpktseq != 0 && pktseqlen > maxpktseq {
          return 0;
        }
        ghost var before := runs;
        ret := Replay(pktseqlen);
        MorePhases(before, runs, old(runs), phases + 1, phase, 2 * maxpktseq - 1);
        if ret != 0 {
          return;
        }
        phases := phases + 2;
        foundAssig := found(answers);
        answers := answers + 1;
        prevExecutedBranches, noNewBranch := 0, 0;
      }
    }
  }

  /** No more than `n` phases' runs. */
  ghost predicate InPhases(runs: nat, runs0: nat, n: int, phase: nat) {
    runs <= runs0 + n * phase
  }

  lemma NoPhases(runs: nat, phase: nat)
    ensures InPhases(runs, runs, 0, phase)
  {
  }

  lemma MorePhases(runs: nat, runs': nat, runs0: nat, n: nat, phase: nat, max: nat)
    requires InPhases(runs, runs0, n, phase) && runs' <= runs + phase && n + 1 <= max
    ensures InPhases(runs', runs0, n + 1, phase) && InPhases(runs', runs0, max, phase)
  {
    assert (n + 1) * phase == n * phase + phase;
    MulMonotone(n + 1, max, phase);
  }

  lemma MulMonotone(m: nat, n: nat, k: nat)
    requires m <= n
    ensures m * k <= n * k
  {
    var d := n - m;
    assert n * k == (m + d) * k == m * k + d * k;
  }

  lemma FeedsNothing(pools: Pools, k: nat)
    ensures Feeds(pools, pools, k)
  {
  }

  lemma ReplaysNothing(pools: Pools, k: nat)
    ensures Replays(pools, pools, k)
  {
  }

  lemma DropKeepsPools(pools: Pools, lengths: seq<nat>, replayed: set<nat>, k: nat)
    requires PoolsOk(pools, lengths, replayed)
    ensures PoolsOk(map[], lengths, replayed) && Pool(map[], k) == []
  {
  }

  // ----- When the exploration is bounded -----

  /** `pktseqlen++` on an unsigned number of 32 bits. */
  function NextLength(k: nat): nat {
    if k == UINT_MAX then 0 else k + 1
  }

  /** The length after some rounds without an error. */
  function LengthAfter(rounds: nat): nat {
    if rounds == 0 then 1 else NextLength(LengthAfter(rounds - 1))
  }

  predicate Ends(maxpktseq: nat, k: nat) {
    maxpktseq != 0 && k > maxpktseq
  }

  /** Without errors the driver leaves its loop in some round exactly if the maximum is neither zero nor
      the greatest number of its type, which the length never exceeds. */
  lemma EndsExactlyIf(maxpktseq: nat)
    requires maxpktseq <= UINT_MAX
    ensures (exists n: nat :: Ends(maxpktseq, LengthAfter(n))) <==> 0 < maxpktseq < UINT_MAX
  {
    if 0 < maxpktseq < UINT_MAX {
      LengthGrows(maxpktseq);
      assert Ends(maxpktseq, LengthAfter(maxpktseq));
    }
    forall n: nat
      ensures LengthAfter(n) <= UINT_MAX
    {
      LengthFits(n);
    }
  }

  lemma {:induction false} LengthGrows(n: nat)
    requires n < UINT_MAX
    ensures LengthAfter(n) == n + 1
  {
    if n > 0 {
      LengthGrows(n - 1);
    }
  }

  lemma {:induction false} LengthFits(n: nat)
    ensures LengthAfter(n) <= UINT_MAX
  {
    if n > 0 {
      LengthFits(n - 1);
    }
  }

  lemma KeysCount(b: Directions)
    ensures |b| == |b.Keys|
  {
  }
}
