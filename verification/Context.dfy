/** clover's `ExecutionContext`: the values that symbolic variables get in the next run, taken from an
    assignment of the solver or made up at random. */
module Context {
  import opened BitVectors
  import opened Expr
  import opened Concolic
  import opened Solver
  import Bencode
  import Memory

  /** `IntValue`, with the number held by a variant. */
  datatype IntValue = U8(byte: nat) | U32(word: nat)
  {
    function Size(): nat {
      if U8? then 1 else 4
    }

    function Number(): nat {
      if U8? then byte else word
    }

    predicate Valid() {
      if U8? then byte < 0x100 else word < 0x1_0000_0000
    }
  }

  type Store = map<string, IntValue>

  // ----- Bytes -----

  lemma DivNonNegative(v: nat, p: nat)
    requires p > 0
    ensures v / p >= 0
  {
  }

  /** The number without its low `m` bits. */
  function High(v: nat, m: nat): nat {
    DivNonNegative(v, Pow2(m));
    v / Pow2(m)
  }

  function ByteOf(v: nat, i: nat): nat {
    High(v, 8 * i) % 256
  }

  /** The inputs of a run that was given the values of a store. */
  function EnvOf(store: Store): Env {
    (name: string, i: nat) => if name in store && i < store[name].Size() then ByteOf(store[name].Number(), i) else 0
  }

  lemma FromNatStep(v: nat, w: nat)
    requires w > 0
    ensures FromNat(v, w) == [v % 2 == 1] + FromNat(v / 2, w - 1)
  {
  }

  lemma {:induction false} FromNatSplit(v: nat, m: nat, n: nat)
    ensures FromNat(v, m + n) == FromNat(v, m) + FromNat(High(v, m), n)
  {
    hide FromNat, Pow2, High;
    if m == 0 {
      assert High(v, 0) == v by {
        HighAll(v);
      }
      assert FromNat(v, 0) == [];
    } else {
      FromNatSplit(v / 2, m - 1, n);
      DivPow2(v, m);
      FromNatStep(v, m);
      FromNatStep(v, m + n);
    }
  }

  lemma DivPow2(v: nat, m: nat)
    requires m > 0
    ensures High(v / 2, m - 1) == High(v, m)
  {
    var p := Pow2(m - 1);
    var h, r := v / 2, v % 2;
    var q, s := h / p, h % p;
    assert v == 2 * (q * p + s) + r == q * (2 * p) + (2 * s + r);
    DivModUnique(v, 2 * p, q, 2 * s + r);
  }

  lemma FromNatMod(v: nat, w: nat)
    ensures FromNat(v % Pow2(w), w) == FromNat(v, w)
  {
    ToFromNat(v, w);
    ToFromNat(v % Pow2(w), w);
    ModPow2(v, w, w);
    ToNatInjective(FromNat(v % Pow2(w), w), FromNat(v, w));
  }

  lemma Pow2Eight()
    ensures Pow2(8) == 256
  {
    assert Pow2(4) == 16;
  }

  /** Reading all bytes of a variable gives its number. */
  lemma {:induction false} ReadBytesValue(name: string, n: nat, v: nat, env: Env)
    requires n > 0 && forall i: nat :: i < n ==> env(name, i) == ByteOf(v, i)
    ensures Eval(ReadBytes(name, n), env) == FromNat(v, 8 * n)
  {
    hide FromNat, Pow2, High;
    var m := 8 * (n - 1);
    Pow2Eight();
    FromNatMod(High(v, m), 8);
    assert Eval(Read(name, n - 1), env) == FromNat(High(v, m), 8);
    if n == 1 {
      HighAll(v);
    } else {
      ReadBytesValue(name, n - 1, v, env);
      FromNatSplit(v, m, 8);
    }
  }

  lemma HighAll(v: nat)
    ensures High(v, 0) == v
  {
  }

  // ----- Requests -----

  /** The values for the next run, and those handed out in this one. */
  datatype State = State(next: Store, last: Store)

  /** `setupNewValues`: entries that the last run did not ask for stay. */
  function Prepared(c: State, store: Store): State {
    State(c.next + store, map[])
  }

  /** The entries with those of the store, except for some that are still to be done. */
  function Merged(next: Store, store: Store, todo: set<string>): Store {
    next + (store - todo)
  }

  lemma MergedAll(next: Store, store: Store)
    ensures Merged(next, store, store.Keys) == next && Merged(next, store, {}) == next + store
  {
    assert store - store.Keys == map[] && store - {} == store;
  }

  lemma MergedNext(next: Store, store: Store, todo: set<string>, name: string)
    requires name in todo && todo <= store.Keys
    ensures Merged(next, store, todo)[name := store[name]] == Merged(next, store, todo - {name})
  {
  }

  /** `findRemoveOrRandom`, with the random number that it would make up. */
  function Requested(c: State, name: string, random: IntValue): (State, IntValue) {
    var v := if name in c.next then c.next[name] else random;
    (State(c.next - {name}, c.last[name := v]), v)
  }

  function RequestedAll(c: State, names: seq<string>, randoms: seq<IntValue>): (State, seq<IntValue>)
    requires |names| == |randoms|
  {
    if names == [] then (c, [])
    else
      var n := |names| - 1;
      var (d, vs) := RequestedAll(c, names[..n], randoms[..n]);
      var (e, v) := Requested(d, names[n], randoms[n]);
      (e, vs + [v])
  }

  lemma {:induction false} RequestedState(c: State, names: seq<string>, randoms: seq<IntValue>)
    requires |names| == |randoms|
    ensures |RequestedAll(c, names, randoms).1| == |names|
    ensures forall name :: name in RequestedAll(c, names, randoms).0.next <==> name in c.next && name !in names
    ensures forall name :: name in RequestedAll(c, names, randoms).0.next ==>
            RequestedAll(c, names, randoms).0.next[name] == c.next[name]
    ensures RequestedAll(c, names, randoms).0.last.Keys == c.last.Keys + (set name | name in names)
  {
    if names != [] {
      var n := |names| - 1;
      RequestedState(c, names[..n], randoms[..n]);
      assert names == names[..n] + [names[n]];
    }
  }

  /** A request gets the prepared value exactly if there is one and no earlier request had the name. */
  lemma {:induction false} RequestGets(c: State, names: seq<string>, randoms: seq<IntValue>, i: nat)
    requires |names| == |randoms| && i < |names|
    ensures |RequestedAll(c, names, randoms).1| == |names|
    ensures RequestedAll(c, names, randoms).1[i] ==
            if names[i] in c.next && names[i] !in names[..i] then c.next[names[i]] else randoms[i]
  {
    var n := |names| - 1;
    RequestedState(c, names[..n], randoms[..n]);
    RequestedState(c, names, randoms);
    if i < n {
      RequestGets(c, names[..n], randoms[..n], i);
      assert names[..n][..i] == names[..i];
    }
  }

  predicate Distinct(names: seq<string>) {
    forall i, j :: 0 <= i < j < |names| ==> names[i] != names[j]
  }

  /** The store has the last value of each name. */
  lemma {:induction false} LastHas(c: State, names: seq<string>, randoms: seq<IntValue>, i: nat)
    requires |names| == |randoms| && i < |names| && Distinct(names)
    ensures names[i] in RequestedAll(c, names, randoms).0.last && |RequestedAll(c, names, randoms).1| == |names|
    ensures RequestedAll(c, names, randoms).0.last[names[i]] == RequestedAll(c, names, randoms).1[i]
  {
    var n := |names| - 1;
    RequestedState(c, names[..n], randoms[..n]);
    if i < n {
      LastHas(c, names[..n], randoms[..n], i);
    }
  }

  /** Preparing a run with the store of an earlier one gives the same values again, whatever random
      numbers there were and are. */
  lemma Replayed(c: State, c': State, names: seq<string>, randoms: seq<IntValue>, randoms': seq<IntValue>, i: nat)
    requires |names| == |randoms| == |randoms'| && i < |names| && Distinct(names)
    ensures
      var (d, vs) := RequestedAll(c, names, randoms);
      var (d', vs') := RequestedAll(Prepared(c', d.last), names, randoms');
      |vs| == |vs'| == |names| && vs'[i] == vs[i] && names[i] in d.last && d'.last.Keys == (set name | name in names)
  {
    var d := RequestedAll(c, names, randoms).0;
    RequestedState(c, names, randoms);
    LastHas(c, names, randoms, i);
    RequestGets(Prepared(c', d.last), names, randoms', i);
    RequestedState(Prepared(c', d.last), names, randoms');
  }

  /** A second request for a name in one run is answered at random, and the store has forgotten the first
      answer. */
  lemma AskedTwice(v: IntValue, w: IntValue, random: IntValue)
    requires v != w
    ensures
      var (d, vs) := RequestedAll(Prepared(State(map[], map[]), map["x" := v]), ["x", "x"], [random, w]);
      vs == [v, w] && d.last["x"] != v
  {
    var c := Prepared(State(map[], map[]), map["x" := v]);
    assert ["x", "x"][..1] == ["x"] && [random, w][..1] == [random];
    assert ["x"][..0] == [] && [random][..0] == [];
    assert RequestedAll(c, ["x"], [random]).1 == [v];
  }

  // ----- From an assignment to a run -----

  /** An expression reads no byte beyond the size of a variable. */
  predicate Sized(e: Expr, size: string -> nat) {
    match e
    case Const(_) => true
    case Read(name, i) => i < size(name)
    case Un(_, src) => Sized(src, size)
    case Bin(_, l, r) => Sized(l, size) && Sized(r, size)
    case Select(c, t, f) => Sized(c, size) && Sized(t, size) && Sized(f, size)
  }

  ghost predicate SameBytes(size: string -> nat, env: Env, env': Env) {
    forall n: string, i: nat {:trigger env'(n, i)} :: i < size(n) ==> env'(n, i) % 256 == env(n, i) % 256
  }

  lemma {:induction false} EvalSameBytes(e: Expr, size: string -> nat, env: Env, env': Env)
    requires WellFormed(e) && Sized(e, size) && SameBytes(size, env, env')
    ensures Eval(e, env') == Eval(e, env)
  {
    hide Apply, ApplyUnary, FromNat, Pow2;
    match e
    case Const(_) =>
    case Read(name, i) =>
      Pow2Eight();
      FromNatMod(env(name, i), 8);
      FromNatMod(env'(name, i), 8);
    case Un(_, src) => EvalSameBytes(src, size, env, env');
    case Bin(_, l, r) =>
      EvalSameBytes(l, size, env, env');
      EvalSameBytes(r, size, env, env');
    case Select(c, t, f) =>
      EvalSameBytes(c, size, env, env');
      EvalSameBytes(t, size, env, env');
      EvalSameBytes(f, size, env, env');
  }

  /** `intFromVector`: the bytes of a variable, the least significant one first. */
  function FromBytes(size: nat, env: Env, name: string): IntValue {
    if size == 1 then U8(env(name, 0) % 256)
    else
      U32(env(name, 0) % 256 + 0x100 * (env(name, 1) % 256) +
          0x1_0000 * (env(name, 2) % 256) + 0x100_0000 * (env(name, 3) % 256))
  }

  /** `Trace::getStore`. */
  function StoreOf(a: Assignment, size: string -> nat): Store {
    map name | name in a.names :: FromBytes(size(name), a.values, name)
  }

  lemma WordByte(b0: nat, b1: nat, b2: nat, b3: nat, i: nat)
    requires b0 < 256 && b1 < 256 && b2 < 256 && b3 < 256 && i < 4
    ensures ByteOf(b0 + 0x100 * b1 + 0x1_0000 * b2 + 0x100_0000 * b3, i) ==
            if i == 0 then b0 else if i == 1 then b1 else if i == 2 then b2 else b3
  {
    hide Pow2;
    var v := b0 + 0x100 * b1 + 0x1_0000 * b2 + 0x100_0000 * b3;
    Pow2Bytes();
    if i == 0 {
      HighAll(v);
      DivModUnique(v, 256, b1 + 0x100 * b2 + 0x1_0000 * b3, b0);
    } else if i == 1 {
      DivModUnique(v, 0x100, b1 + 0x100 * b2 + 0x1_0000 * b3, b0);
      DivModUnique(b1 + 0x100 * b2 + 0x1_0000 * b3, 256, b2 + 0x100 * b3, b1);
    } else if i == 2 {
      DivModUnique(v, 0x1_0000, b2 + 0x100 * b3, b0 + 0x100 * b1);
      DivModUnique(b2 + 0x100 * b3, 256, b3, b2);
    } else {
      DivModUnique(v, 0x100_0000, b3, b0 + 0x100 * b1 + 0x1_0000 * b2);
    }
  }

  lemma FromBytesByte(size: nat, env: Env, name: string, i: nat)
    requires (size == 1 || size == 4) && i < size
    ensures ByteOf(FromBytes(size, env, name).Number(), i) == env(name, i) % 256
    ensures FromBytes(size, env, name).Size() == size
  {
    if size == 1 {
      WordByte(env(name, 0) % 256, 0, 0, 0, 0);
    } else {
      hide ByteOf;
      WordByte(env(name, 0) % 256, env(name, 1) % 256, env(name, 2) % 256, env(name, 3) % 256, i);
    }
  }

  lemma Pow2Bytes()
    ensures Pow2(8) == 0x100 && Pow2(16) == 0x1_0000 && Pow2(24) == 0x100_0000
  {
    Pow2Eight();
    Pow2Add(8, 8);
    Pow2Add(16, 8);
  }

  /** Values that come from an assignment for a query satisfy the query as bytes of the run's inputs. */
  lemma AssignmentHolds(q: Query, a: Assignment, size: string -> nat, last: Store)
    requires q.Valid() && Sized(q.expr, size) && forall i :: 0 <= i < |q.constraints| ==> Sized(q.constraints[i], size)
    requires forall env: Env :: Agree(a.names, a.values, env) ==> q.Model(env)
    requires forall n: string :: size(n) == 1 || size(n) == 4
    requires forall n :: n in a.names ==> n in last && last[n] == StoreOf(a, size)[n]
    ensures q.Model(EnvOf(last))
  {
    hide Eval, WellFormed, Width, ByteOf, FromBytes, Sized;
    var inputs := EnvOf(last);
    var env: Env := (n: string, i: nat) => if n in a.names then a.values(n, i) else inputs(n, i);
    assert Agree(a.names, a.values, env);
    forall n: string, i: nat | i < size(n)
      ensures inputs(n, i) % 256 == env(n, i) % 256
    {
      if n in a.names {
        FromBytesByte(size(n), a.values, n, i);
        assert inputs(n, i) == a.values(n, i) % 256;
      }
    }
    assert SameBytes(size, env, inputs);
    EvalSameBytes(q.expr, size, env, inputs);
    forall j | 0 <= j < |q.constraints|
      ensures Eval(q.constraints[j], inputs) == Eval(q.constraints[j], env)
    {
      EvalSameBytes(q.constraints[j], size, env, inputs);
    }
  }

  /** A run that asks for each variable once, and for those of an assignment among them, has inputs that
      satisfy the query the assignment was found for. */
  lemma RunFollowsAssignment(c: State, q: Query, a: Assignment, size: string -> nat, names: seq<string>,
                             randoms: seq<IntValue>)
    requires q.Valid() && Sized(q.expr, size) && forall i :: 0 <= i < |q.constraints| ==> Sized(q.constraints[i], size)
    requires forall env: Env :: Agree(a.names, a.values, env) ==> q.Model(env)
    requires forall n: string :: size(n) == 1 || size(n) == 4
    requires |names| == |randoms| && Distinct(names) && forall n :: n in a.names ==> n in names
    ensures q.Model(EnvOf(RequestedAll(Prepared(c, StoreOf(a, size)), names, randoms).0.last))
  {
    hide Eval, WellFormed, Width, EnvOf, Sized, FromBytes;
    var p := Prepared(c, StoreOf(a, size));
    var last := RequestedAll(p, names, randoms).0.last;
    forall n | n in a.names
      ensures n in last && last[n] == StoreOf(a, size)[n]
    {
      var i :| 0 <= i < |names| && names[i] == n;
      RequestGets(p, names, randoms, i);
      LastHas(p, names, randoms, i);
    }
    AssignmentHolds(q, a, size, last);
  }

  // ----- The context -----

  /** `Solver::BVC` with a name: the number, and the variable it is the value of. */
  function Variable(name: string, v: IntValue): (r: Concolic)
    ensures r.Valid()
  {
    Concolic(FromNat(v.Number(), 8 * v.Size()), Some(ReadBytes(name, v.Size())))
  }

  /** A variable has the value that the run's inputs give it. */
  lemma VariableInstance(name: string, v: IntValue, store: Store)
    requires name in store && store[name] == v
    ensures Variable(name, v).Instance(EnvOf(store))
  {
    hide ByteOf, FromNat;
    ReadBytesValue(name, v.Size(), v.Number(), EnvOf(store));
  }

  /** The name of a byte of a field. */
  function ByteName(name: string, i: nat): string {
    name + ":byte" + Bencode.Decimal(i)
  }

  lemma ByteNameInjective(name: string, i: nat, j: nat)
    requires ByteName(name, i) == ByteName(name, j)
    ensures i == j
  {
    hide Bencode.Decimal, Bencode.Value;
    var n := |name + ":byte"|;
    assert Bencode.Decimal(i) == ByteName(name, i)[n..] == ByteName(name, j)[n..] == Bencode.Decimal(j);
    Bencode.DecimalValue(i);
    Bencode.DecimalValue(j);
  }

  /** Byte `i` of the value is the variable of that byte, and of its constant the number in the store. */
  ghost predicate FieldBytes(r: Concolic, name: string, k: nat, store: Store) {
    && r.Valid() && |r.concrete| == 8 * k
    && (forall env: Env, i: nat :: i < k ==> Memory.ByteOf(r.Meaning(env), i) == FromNat(env(ByteName(name, i), 0), 8))
    && (forall i: nat :: i < k ==>
        ByteName(name, i) in store && store[ByteName(name, i)].U8? &&
        Memory.ByteOf(r.concrete, i) == FromNat(store[ByteName(name, i)].byte, 8))
  }

  lemma VariableByte(name: string, v: IntValue, env: Env)
    requires v.U8?
    ensures Variable(name, v).Meaning(env) == FromNat(env(name, 0), 8)
  {
    hide FromNat;
  }

  lemma FirstByte(name: string, v: IntValue, store: Store)
    requires v.U8? && ByteName(name, 0) in store && store[ByteName(name, 0)] == v
    ensures FieldBytes(Variable(ByteName(name, 0), v), name, 1, store)
  {
    hide FromNat, ByteName, Eval, ReadBytes;
    var r := Variable(ByteName(name, 0), v);
    forall env: Env
      ensures Memory.ByteOf(r.Meaning(env), 0) == FromNat(env(ByteName(name, 0), 0), 8)
    {
      VariableByte(ByteName(name, 0), v, env);
    }
  }

  lemma NextByte(r: Concolic, name: string, k: nat, store: Store, v: IntValue)
    requires k > 0 && FieldBytes(r, name, k, store) && v.U8?
    ensures
      var b := Variable(ByteName(name, k), v);
      FieldBytes(Binary(Concat, b, r), name, k + 1, store[ByteName(name, k) := v])
  {
    hide FromNat, ByteName, Eval, ReadBytes, WellFormed, Width;
    var b := Variable(ByteName(name, k), v);
    var s := Binary(Concat, b, r);
    forall env: Env, i: nat | i < k + 1
      ensures Memory.ByteOf(s.Meaning(env), i) == FromNat(env(ByteName(name, i), 0), 8)
    {
      VariableByte(ByteName(name, k), v, env);
      BinaryMeaning(Concat, b, r, env);
      assert s.Meaning(env) == r.Meaning(env) + b.Meaning(env);
      JoinedByte(r.Meaning(env), b.Meaning(env), k, i);
    }
    forall i: nat | i < k + 1
      ensures Memory.ByteOf(s.concrete, i) == if i < k then Memory.ByteOf(r.concrete, i) else b.concrete
      ensures i < k ==> ByteName(name, i) != ByteName(name, k)
    {
      assert s.concrete == r.concrete + b.concrete;
      JoinedByte(r.concrete, b.concrete, k, i);
      if ByteName(name, i) == ByteName(name, k) {
        ByteNameInjective(name, i, k);
      }
    }
  }

  lemma JoinedByte(low: Bits, high: Bits, k: nat, i: nat)
    requires |low| == 8 * k && |high| == 8 && i <= k
    ensures Memory.ByteOf(low + high, i) == if i < k then Memory.ByteOf(low, i) else high
  {
  }

  /** A field whose bytes are as the inputs give them is an instance under these inputs. */
  lemma FieldInstance(r: Concolic, name: string, k: nat, store: Store)
    requires k > 0 && FieldBytes(r, name, k, store)
    ensures r.Instance(EnvOf(store))
  {
    hide FromNat, ByteName, Eval, WellFormed, Width, Pow2;
    var env := EnvOf(store);
    forall i | 0 <= i < k
      ensures Memory.ByteOf(r.Meaning(env), i) == Memory.ByteOf(r.concrete, i)
    {
      var v := store[ByteName(name, i)].byte;
      HighAll(v);
      Pow2Eight();
      FromNatMod(v, 8);
      assert env(ByteName(name, i), 0) == v % 256;
    }
    Memory.BytesDetermine(r.Meaning(env), r.concrete, k);
  }

  /** The first `k` bytes of a field were requested, and those prepared were used. */
  ghost predicate UsesPrepared(c: State, d: State, name: string, k: nat) {
    && (forall i: nat :: i < k && ByteName(name, i) in c.next ==>
        ByteName(name, i) in d.last && d.last[ByteName(name, i)] == c.next[ByteName(name, i)])
    && (forall i: nat :: k <= i ==> (ByteName(name, i) in d.next <==> ByteName(name, i) in c.next))
    && (forall i: nat :: k <= i && ByteName(name, i) in d.next ==>
      d.next[ByteName(name, i)] == c.next[ByteName(name, i)])
  }

  lemma UsesNone(c: State, name: string)
    ensures UsesPrepared(c, c, name, 0)
  {
  }

  lemma UsesNext(c: State, d: State, name: string, k: nat, random: IntValue)
    requires UsesPrepared(c, d, name, k)
    ensures UsesPrepared(c, Requested(d, ByteName(name, k), random).0, name, k + 1)
  {
    hide ByteName;
    forall i: nat | ByteName(name, i) == ByteName(name, k)
      ensures i == k
    {
      ByteNameInjective(name, i, k);
    }
  }

  class ExecutionContext {
    const rand: nat -> nat

    var nextRun: Store
    var lastRun: Store
    var rands: nat

    constructor (rand: nat -> nat)
      ensures nextRun == map[] && lastRun == map[]
    {
      this.rand := rand;
      nextRun, lastRun, rands := map[], map[], 0;
    }

    ghost function View(): State
      reads this
    {
      State(nextRun, lastRun)
    }

    method SetupNewValues(store: Store)
      modifies this
      ensures View() == Prepared(old(View()), store)
    {
      hide Merged;
      MergedAll(nextRun, store);
      var todo := store.Keys;
      while todo != {}
        invariant todo <= store.Keys && nextRun == Merged(old(nextRun), store, todo)
        decreases |todo|
      {
        var name :| name in todo;
        MergedNext(old(nextRun), store, todo, name);
        nextRun := nextRun[name := store[name]];
        todo := todo - {name};
      }
      lastRun := map[];
    }

    /** `findRemoveOrRandom`; a prepared value has to be of the type asked for. */
    method FindRemoveOrRandom(name: string, word: bool) returns (v: IntValue, ghost random: IntValue)
      requires name in nextRun ==> nextRun[name].U32? == word
      modifies this
      ensures (View(), v) == Requested(old(View()), name, random) && v.U32? == random.U32? == word && random.Valid()
    {
      random := if word then U32(rand(rands) % 0x1_0000_0000) else U8(rand(rands) % 0x100);
      if name in nextRun {
        v := nextRun[name];
        nextRun := nextRun - {name};
      } else {
        v := if word then U32(rand(rands) % 0x1_0000_0000) else U8(rand(rands) % 0x100);
        rands := rands + 1;
        assert nextRun == nextRun - {name};
      }
      lastRun := lastRun[name := v];
    }

    /** `getSymbolicByte` and `getSymbolicWord`: for this run's inputs, the variable has the constant as its
        value. */
    method GetSymbolic(name: string, word: bool) returns (r: Concolic, ghost random: IntValue)
      requires name in nextRun ==> nextRun[name].U32? == word
      modifies this
      ensures View() == Requested(old(View()), name, random).0 && random.U32? == word && random.Valid()
      ensures r == Variable(name, Requested(old(View()), name, random).1) && r.Instance(EnvOf(lastRun))
      ensures |r.concrete| == if word then 32 else 8
    {
      hide FromNat, EnvOf;
      var v;
      v, random := FindRemoveOrRandom(name, word);
      VariableInstance(name, v, lastRun);
      r := Variable(name, v);
    }

    /** `getSymbolicBytes`: byte `i` of the value is the variable of that byte, for every input, and for this
        run's inputs the value is the constant.  Bytes that were prepared are used. */
    method GetSymbolicBytes(name: string, size: nat) returns (r: Concolic)
      requires size > 0
      requires forall i: nat :: i < size && ByteName(name, i) in nextRun ==> nextRun[ByteName(name, i)].U8?
      modifies this
      ensures FieldBytes(r, name, size, lastRun) && r.Instance(EnvOf(lastRun))
      ensures forall i: nat :: i < size && ByteName(name, i) in old(nextRun) ==>
        ByteName(name, i) in lastRun && lastRun[ByteName(name, i)] == old(nextRun)[ByteName(name, i)]
      ensures forall n :: n in nextRun ==> n in old(nextRun) && nextRun[n] == old(nextRun)[n]
    {
      hide FromNat, ByteName, EnvOf, FieldBytes, Variable;
      ghost var random;
      ghost var before := View();
      UsesNone(before, name);
      r, random := GetSymbolic(ByteName(name, 0), false);
      UsesNext(before, before, name, 0, random);
      FirstByte(name, Requested(before, ByteName(name, 0), random).1, lastRun);
      var i := 1;
      while i < size
        invariant 0 < i <= size && r.Valid() && FieldBytes(r, name, i, lastRun)
        invariant UsesPrepared(old(View()), View(), name, i)
        invariant forall n :: n in nextRun ==> n in old(nextRun) && nextRun[n] == old(nextRun)[n]
      {
        before := View();
        var symbyte;
        symbyte, random := GetSymbolic(ByteName(name, i), false);
        UsesNext(old(View()), before, name, i, random);
        NextByte(r, name, i, before.last, Requested(before, ByteName(name, i), random).1);
        r := Binary(Concat, symbyte, r);
        i := i + 1;
      }
      FieldInstance(r, name, size, lastRun);
    }
  }
}
