/** Firmware as the guest of the path search: the branch met after a history of decisions does not depend on
    the input that made them, so the runs of one program from one start state are a decision tree. */
module Firmware {
  import opened BitVectors
  import opened Expr
  import opened Concolic
  import opened Memory
  import opened Rv32
  import opened Terms
  import opened RvArithmetic
  import opened Iss
  import opened Constraints
  import ExecutionTree
  import PathSearch
  import Engine
  import Context

  type Path = ExecutionTree.Path
  type Program = ExecutionTree.Program

  // ----- What does not depend on the input -----

  /** The same expression, or the same constant where there is none. */
  predicate Same(a: Concolic, b: Concolic) {
    a.symbolic == b.symbolic && (a.symbolic.None? ==> a.concrete == b.concrete) && |a.concrete| == |b.concrete|
  }

  lemma SameTerm(a: Concolic, b: Concolic)
    requires Same(a, b)
    ensures a.Term() == b.Term()
  {
  }

  lemma SameBinary(op: BinOp, a: Concolic, b: Concolic, a': Concolic, b': Concolic)
    requires a.Valid() && b.Valid() && a'.Valid() && b'.Valid() && BinaryFits(op, |a.concrete|, |b.concrete|)
    requires Same(a, a') && Same(b, b')
    ensures Same(Binary(op, a, b), Binary(op, a', b'))
  {
    hide Apply, WellFormed, Width;
  }

  lemma SameUnary(op: UnOp, a: Concolic, a': Concolic)
    requires a.Valid() && a'.Valid() && UnaryFits(op, |a.concrete|) && UnaryWidth(op, |a.concrete|) > 0 && Same(a, a')
    ensures Same(Unary(op, a), Unary(op, a'))
  {
    hide ApplyUnary, WellFormed, Width;
  }

  /** What an instruction builds depends on the expressions of its operands only. */
  lemma {:induction false} SameBuild(t: Term, a: Concolic, b: Concolic, a': Concolic, b': Concolic)
    requires Fits(t) && Register(a) && Register(b) && Register(a') && Register(b') && Same(a, a') && Same(b, b')
    ensures Same(Build(t, a, b), Build(t, a', b'))
  {
    hide Eval, WellFormed, Width, Apply, ApplyUnary;
    match t
    case A =>
    case B =>
    case Lit(_) =>
    case Unop(op, src) =>
      SameBuild(src, a, b, a', b');
      SameUnary(op, Build(src, a, b), Build(src, a', b'));
    case Binop(op, l, r) =>
      SameBuild(l, a, b, a', b');
      SameBuild(r, a, b, a', b');
      SameBinary(op, Build(l, a, b), Build(r, a, b), Build(l, a', b'), Build(r, a', b'));
    case Sel(c, t, f) =>
      SameBuild(c, a, b, a', b');
      SameBuild(t, a, b, a', b');
      SameBuild(f, a, b, a', b');
      BuildConcrete(c, a, b);
      BuildConcrete(t, a, b);
      BuildConcrete(f, a, b);
      SameTerm(Build(t, a, b), Build(t, a', b'));
      SameTerm(Build(f, a, b), Build(f, a', b'));
  }

  predicate SameRegisters(regs: seq<Concolic>, regs': seq<Concolic>) {
    |regs| == |regs'| && forall i :: 0 <= i < |regs| ==> Same(regs[i], regs'[i])
  }

  predicate SameData(data: Data, data': Data) {
    data.Keys == data'.Keys && forall a :: a in data ==> Same(data[a], data'[a])
  }

  lemma SameWritten(regs: seq<Concolic>, regs': seq<Concolic>, rd: nat, v: Concolic, v': Concolic)
    requires Registers(regs) && Registers(regs') && rd < 32 && Register(v) && Register(v')
    requires SameRegisters(regs, regs') && Same(v, v')
    ensures SameRegisters(WriteRegister(regs, rd, v), WriteRegister(regs', rd, v'))
  {
    hide WellFormed, Width, FromNat;
  }

  lemma {:induction false} SameLoaded(data: Data, data': Data, addr: nat, n: nat)
    requires Bytes(data) && Bytes(data') && n > 0 && SameData(data, data')
    ensures Same(LoadValue(data, addr, n), LoadValue(data', addr, n))
  {
    hide WellFormed, Width, Apply;
    var a := (addr + n - 1) % ADDRESSES;
    assert Same(ByteValue(data, a), ByteValue(data', a));
    if n > 1 {
      SameLoaded(data, data', addr, n - 1);
      SameBinary(BinOp.Concat, ByteValue(data, a), LoadValue(data, addr, n - 1), ByteValue(data', a),
        LoadValue(data', addr, n - 1));
    }
  }

  lemma {:induction false} SameStored(data: Data, data': Data, addr: nat, v: Concolic, v': Concolic, n: nat)
    requires Bytes(data) && Bytes(data') && v.Valid() && v'.Valid() && |v.concrete| >= 8 * n && |v'.concrete| >= 8 * n
    requires SameData(data, data') && Same(v, v')
    ensures SameData(Stored(data, addr, v, n), Stored(data', addr, v', n))
  {
    hide WellFormed, Width, ApplyUnary;
    if n > 0 {
      SameStored(data, data', addr, v, v', n - 1);
      SameUnary(Extract(8 * (n - 1), 8), v, v');
    }
  }

  /** Two states that differ in their constants at most, where these are instances of expressions. */
  predicate Alike(h: Hart, h': Hart) {
    && h.compressed == h'.compressed && h.pc == h'.pc && h.trace == h'.trace
    && SameRegisters(h.regs, h'.regs) && SameData(h.data, h'.data)
  }

  /** Conditions recorded the same, the last of them maybe decided otherwise. */
  predicate SameConditions(trace: Recorded, trace': Recorded) {
    |trace| == |trace'| && forall i :: 0 <= i < |trace| ==> trace[i].0 == trace'[i].0
  }

  /** After a step of two states that are alike: both stopped, or both went on with the same condition recorded, if
      any; and if it was decided the same they are alike. */
  ghost predicate StepAlike(p: Progress, p': Progress) {
    match (p, p')
    case (Moved(k), Moved(k')) => SameConditions(k.trace, k'.trace) && (k.trace == k'.trace ==> Alike(k, k'))
    case (Stopped(_, cause, value), Stopped(_, cause', value')) => cause == cause' && value == value'
    case _ => false
  }

  lemma SameTracked(trace: Recorded, cond: Concolic, cond': Concolic)
    requires Recordable(trace) && cond.Valid() && cond'.Valid() && |cond.concrete| == 1 && |cond'.concrete| == 1
    requires Same(cond, cond')
    ensures SameConditions(Track(trace, cond), Track(trace, cond'))
    ensures Track(trace, cond) == Track(trace, cond') <==> (cond.concrete == TRUE <==> cond'.concrete == TRUE)
  {
    hide WellFormed, Width;
    if cond.symbolic.Some? {
      var t, t' := Track(trace, cond), Track(trace, cond');
      assert t[|trace|] == (cond.symbolic.value, cond.concrete == TRUE);
      assert t'[|trace|] == (cond'.symbolic.value, cond'.concrete == TRUE);
    }
  }

  // ----- One step -----

  lemma SameRegister(h: Hart, h': Hart, r: nat)
    requires h.Valid() && h'.Valid() && Alike(h, h') && r < 32
    ensures |h.regs| == |h'.regs| == 32 && Register(h.regs[r]) && Register(h'.regs[r]) && Same(h.regs[r], h'.regs[r])
  {
    hide WellFormed, Width;
  }

  lemma AluAlike(h: Hart, h': Hart, i: Instr, size: nat)
    requires h.Valid() && h'.Valid() && Alike(h, h') && Encodable(i) && (i.Op? || i.OpImm?)
    ensures StepAlike(Moved(AfterAlu(h, i, size)), Moved(AfterAlu(h', i, size)))
  {
    hide Build, AluTerm, Written, Immediate, WriteRegister, Eval, WellFormed, Width;
    hide Registers, SameData, SameRegisters;
    SameRegister(h, h', i.rs1);
    if i.Op? {
      SameRegister(h, h', i.rs2);
    }
    AluTermFits(i.op, i.OpImm?);
    var t := Written(AluTerm(i.op, i.OpImm?));
    var b := if i.OpImm? then Immediate(i.imm) else h.regs[i.rs2];
    var b' := if i.OpImm? then Immediate(i.imm) else h'.regs[i.rs2];
    SameBuild(t, h.regs[i.rs1], b, h'.regs[i.rs1], b');
    SameWritten(h.regs, h'.regs, i.rd, Build(t, h.regs[i.rs1], b), Build(t, h'.regs[i.rs1], b'));
  }

  lemma MulAlike(h: Hart, h': Hart, i: Instr, size: nat)
    requires h.Valid() && h'.Valid() && Alike(h, h') && Encodable(i) && i.Multiply?
    ensures StepAlike(Moved(AfterMul(h, i, size)), Moved(AfterMul(h', i, size)))
  {
    hide Build, MulTerm, WriteRegister, Eval, WellFormed, Width;
    hide Registers, SameData, SameRegisters;
    SameRegister(h, h', i.rs1);
    SameRegister(h, h', i.rs2);
    MulTermFits(i.mul);
    var t := MulTerm(i.mul);
    SameBuild(t, h.regs[i.rs1], h.regs[i.rs2], h'.regs[i.rs1], h'.regs[i.rs2]);
    SameWritten(h.regs, h'.regs, i.rd, Build(t, h.regs[i.rs1], h.regs[i.rs2]),
      Build(t, h'.regs[i.rs1], h'.regs[i.rs2]));
  }

  lemma DivAlike(h: Hart, h': Hart, i: Instr, size: nat)
    requires h.Valid() && h'.Valid() && Alike(h, h') && Encodable(i) && i.Divide?
    ensures StepAlike(Moved(AfterDiv(h, i, size)), Moved(AfterDiv(h', i, size)))
  {
    hide Build, DivTerm, DivByZeroTerm, WriteRegister, Track, Eval, WellFormed, Width;
    hide Registers, SameData, SameRegisters;
    SameRegister(h, h', i.rs1);
    SameRegister(h, h', i.rs2);
    DivTermFits(i.div);
    var a, b, a', b' := h.regs[i.rs1], h.regs[i.rs2], h'.regs[i.rs1], h'.regs[i.rs2];
    var zero, zero' := Build(IsZero, a, b), Build(IsZero, a', b');
    SameBuild(IsZero, a, b, a', b');
    SameTracked(h.trace, zero, zero');
    if zero.concrete == TRUE <==> zero'.concrete == TRUE {
      var t := if zero.concrete == TRUE then DivByZeroTerm(i.div) else DivTerm(i.div);
      SameBuild(t, a, b, a', b');
      SameWritten(h.regs, h'.regs, i.rd, Build(t, a, b), Build(t, a', b'));
    }
  }

  lemma ConstantAlike(h: Hart, h': Hart, i: Instr, size: nat)
    requires h.Valid() && h'.Valid() && Alike(h, h') && Encodable(i) && (i.Lui? || i.Auipc?)
    ensures StepAlike(Moved(AfterConstant(h, i, size)), Moved(AfterConstant(h', i, size)))
  {
    hide Immediate, WriteRegister, Eval, WellFormed, Width;
    var v := Immediate(if i.Lui? then i.imm else h.pc + i.imm);
    SameWritten(h.regs, h'.regs, i.rd, v, v);
  }

  lemma JalAlike(h: Hart, h': Hart, i: Instr, size: nat)
    requires h.Valid() && h'.Valid() && Alike(h, h') && Encodable(i) && i.Jal?
    ensures StepAlike(AfterJal(h, i, size), AfterJal(h', i, size))
  {
    hide Immediate, WriteRegister, Eval, WellFormed, Width, Permitted;
    SameWritten(h.regs, h'.regs, i.rd, Immediate(h.pc + size), Immediate(h.pc + size));
  }

  lemma JalrAlike(h: Hart, h': Hart, i: Instr, size: nat)
    requires h.Valid() && h'.Valid() && Alike(h, h') && Encodable(i) && i.Jalr?
    requires AllConcrete(AfterJalr(h, i, size).hart.pins)
    ensures StepAlike(AfterJalr(h, i, size), AfterJalr(h', i, size))
  {
    hide Immediate, WriteRegister, ToNat, Eval, WellFormed, Width, Permitted, Even;
    LastConcrete(h.pins, h.regs[i.rs1]);
    assert Same(h.regs[i.rs1], h'.regs[i.rs1]);
    SameWritten(h.regs, h'.regs, i.rd, Immediate(h.pc + size), Immediate(h.pc + size));
  }

  lemma SameCondition(h: Hart, h': Hart, i: Instr)
    requires h.Valid() && h'.Valid() && Alike(h, h') && Encodable(i) && i.Branch?
    ensures Same(BranchCondition(h.regs, i), BranchCondition(h'.regs, i))
  {
    hide Build, BranchTerm, Eval, WellFormed, Width, Registers, SameData, SameRegisters;
    SameRegister(h, h', i.rs1);
    SameRegister(h, h', i.rs2);
    BranchTermFits(i.cmp);
    SameBuild(BranchTerm(i.cmp), h.regs[i.rs1], h.regs[i.rs2], h'.regs[i.rs1], h'.regs[i.rs2]);
  }

  lemma BranchAlike(h: Hart, h': Hart, i: Instr, size: nat)
    requires h.Valid() && h'.Valid() && Alike(h, h') && Encodable(i) && i.Branch?
    requires AllConcrete(AfterBranch(h, i, size).hart.pins) && AllConcrete(AfterBranch(h', i, size).hart.pins)
    ensures StepAlike(AfterBranch(h, i, size), AfterBranch(h', i, size))
  {
    hide BranchCondition, Track, Eval, WellFormed, Width, Permitted;
    hide Registers, SameData, SameRegisters, AllConcrete;
    var cond, cond' := BranchCondition(h.regs, i), BranchCondition(h'.regs, i);
    SameCondition(h, h', i);
    SameTracked(h.trace, cond, cond');
    LastConcrete(h.pins, cond);
    LastConcrete(h'.pins, cond');
  }

  lemma AddressAlike(h: Hart, h': Hart, base: nat, imm: int)
    requires h.Valid() && h'.Valid() && Alike(h, h') && base < 32 && Address(h.regs[base], imm).Concrete()
    ensures Address(h.regs[base], imm).concrete == Address(h'.regs[base], imm).concrete
  {
    hide Immediate, Apply, Eval, WellFormed, Width;
    SameBinary(BinOp.Add, h.regs[base], Immediate(imm), h'.regs[base], Immediate(imm));
  }

  lemma LoadAlike(h: Hart, h': Hart, i: Instr, size: nat)
    requires h.Valid() && h'.Valid() && Alike(h, h') && Encodable(i) && i.Load?
    requires AllConcrete(AfterLoad(h, i, size).hart.pins)
    ensures StepAlike(AfterLoad(h, i, size), AfterLoad(h', i, size))
  {
    hide Address, WriteRegister, ToNat, Eval, WellFormed, Width, LoadValue, Registers, SameData, SameRegisters;
    hide AllConcrete;
    RegisterKnown(h.regs, i.rs1);
    RegisterKnown(h'.regs, i.rs1);
    LastConcrete(h.pins, Address(h.regs[i.rs1], i.imm));
    AddressAlike(h, h', i.rs1, i.imm);
    var a, n := ToNat(Address(h.regs[i.rs1], i.imm).concrete), LoadSize(i.load);
    if a % n == 0 {
      var v, v' := LoadValue(h.data, a, n), LoadValue(h'.data, a, n);
      SameLoaded(h.data, h'.data, a, n);
      SameUnary(ExtendTerm(i.load), v, v');
      SameWritten(h.regs, h'.regs, i.rd, Unary(ExtendTerm(i.load), v), Unary(ExtendTerm(i.load), v'));
    }
  }

  lemma StoreAlike(h: Hart, h': Hart, i: Instr, size: nat)
    requires h.Valid() && h'.Valid() && Alike(h, h') && Encodable(i) && i.Store?
    requires AllConcrete(AfterStore(h, i, size).hart.pins)
    ensures StepAlike(AfterStore(h, i, size), AfterStore(h', i, size))
  {
    hide Address, ToNat, Eval, WellFormed, Width, Stored;
    LastConcrete(h.pins, Address(h.regs[i.rs1], i.imm));
    AddressAlike(h, h', i.rs1, i.imm);
    StoreSizeFits(i.store);
    var a, n := ToNat(Address(h.regs[i.rs1], i.imm).concrete), StoreSize(i.store);
    if a % n == 0 {
      SameStored(h.data, h'.data, a, h.regs[i.rs2], h'.regs[i.rs2], n);
    }
  }

  /** Where addresses and jump targets are concrete, states that are alike make steps that are. */
  lemma AdvancedAlike(code: Code, h: Hart, h': Hart)
    requires h.Valid() && h'.Valid() && Alike(h, h')
    requires AllConcrete(Advanced(code, h).hart.pins) && AllConcrete(Advanced(code, h').hart.pins)
    ensures StepAlike(Advanced(code, h), Advanced(code, h'))
  {
    hide AfterAlu, AfterMul, AfterDiv, AfterConstant, AfterJal, AfterJalr, AfterBranch, AfterLoad, AfterStore;
    hide Encodable, SameRegisters, SameData, AllConcrete;
    if code(h.pc).Some? && Encodable(code(h.pc).value.0) {
      var (i, size) := code(h.pc).value;
      match i
      case OpImm(_, _, _, _) => AluAlike(h, h', i, size);
      case Op(_, _, _, _) => AluAlike(h, h', i, size);
      case Multiply(_, _, _, _) => MulAlike(h, h', i, size);
      case Divide(_, _, _, _) => DivAlike(h, h', i, size);
      case Lui(_, _) => ConstantAlike(h, h', i, size);
      case Auipc(_, _) => ConstantAlike(h, h', i, size);
      case Jal(_, _) => JalAlike(h, h', i, size);
      case Jalr(_, _, _) => JalrAlike(h, h', i, size);
      case Branch(_, _, _, _) => BranchAlike(h, h', i, size);
      case Load(_, _, _, _) => LoadAlike(h, h', i, size);
      case Store(_, _, _, _) => StoreAlike(h, h', i, size);
      case Fence =>
    }
  }

  lemma LastConcrete(pins: seq<Concolic>, pin: Concolic)
    ensures AllConcrete(pins + [pin]) ==> pin.Concrete()
  {
    assert (pins + [pin])[|pins|] == pin;
  }

  // ----- Runs from one start state -----

  ghost predicate Start(s: Hart) {
    s.Valid() && s.trace == [] && s.pins == []
  }

  /** The value with the constant that an input gives it. */
  function Given(c: Concolic, env: Env): (r: Concolic)
    requires c.Valid()
    ensures r.Instance(env) && Same(r, c) && r.symbolic == c.symbolic
    ensures c.Concrete() ==> r == c
  {
    Concolic(c.Meaning(env), c.symbolic)
  }

  /** The start state on an input. */
  ghost function Started(s: Hart, env: Env): (h: Hart)
    requires Start(s)
    ensures h.Valid() && h.Runs(env) && Alike(h, s) && h.trace == [] && h.pins == []
  {
    hide Eval, WellFormed, Width, FromNat;
    ZeroRegister();
    var regs := seq(32, r requires 0 <= r < 32 => Given(s.regs[r], env));
    var data := map a | a in s.data :: Given(s.data[a], env);
    assert regs[0] == Zero;
    s.(regs := regs, data := data)
  }

  /** The state after some steps, unless the run was stopped before. */
  function Reached(code: Code, h: Hart, n: nat): (r: Option<Hart>)
    requires h.Valid()
    ensures r.Some? ==> r.value.Valid()
  {
    if n == 0 then Some(h)
    else
      var p := Reached(code, h, n - 1);
      if p.None? then None
      else
        AdvancedRight(code, p.value);
        match Advanced(code, p.value)
        case Moved(k) => Some(k)
        case Stopped(_, _, _) => None
  }

  /** At every step of every run, addresses and jump targets are concrete. */
  ghost predicate ConcretePins(code: Code, s: Hart)
    requires Start(s)
  {
    forall env: Env, n: nat {:trigger Reached(code, Started(s, env), n)} ::
      Reached(code, Started(s, env), n).Some? ==>
        AllConcrete(Advanced(code, Reached(code, Started(s, env), n).value).hart.pins)
  }

  lemma {:induction false} ReachedRuns(code: Code, h: Hart, n: nat, env: Env)
    requires h.Valid() && h.Runs(env) && Reached(code, h, n).Some?
    ensures Reached(code, h, n).value.Runs(env)
  {
    hide Advanced, Executes;
    if n > 0 {
      ReachedRuns(code, h, n - 1, env);
      var g := Reached(code, h, n - 1).value;
      AdvancedRight(code, g);
      ExecutesAt(code, g, Reached(code, h, n).value, env);
    }
  }

  /** A step records one condition at most. */
  lemma AdvancedTrace(code: Code, h: Hart)
    requires h.Valid() && Advanced(code, h).Moved?
    ensures h.trace <= Advanced(code, h).hart.trace && |Advanced(code, h).hart.trace| <= |h.trace| + 1
  {
    hide Build, BranchCondition, WriteRegister, Eval, WellFormed, Width, ToNat, LoadValue, Stored, Address, Encodable;
  }

  lemma {:induction false} TraceGrows(code: Code, h: Hart, m: nat, n: nat)
    requires h.Valid() && m <= n && Reached(code, h, n).Some?
    ensures Reached(code, h, m).Some? && Reached(code, h, m).value.trace <= Reached(code, h, n).value.trace
    decreases n - m
  {
    hide Advanced;
    if m < n {
      TraceGrows(code, h, m, n - 1);
      AdvancedTrace(code, Reached(code, h, n - 1).value);
    }
  }

  function Decisions(trace: Recorded): (d: Path)
    ensures |d| == |trace|
  {
    seq(|trace|, i requires 0 <= i < |trace| => trace[i].1)
  }

  lemma TraceEqual(t: Recorded, t': Recorded, env: Env)
    requires Recordable(t) && Recordable(t') && SameConditions(t, t') && TraceHolds(t, env) && TraceHolds(t', env)
    ensures t == t'
  {
    forall i | 0 <= i < |t|
      ensures t[i] == t'[i]
    {
      assert t[i].1 == Holds(t[i].0, env) == t'[i].1;
    }
  }

  lemma HoldsBefore(t: Recorded, t': Recorded, env: Env)
    requires Recordable(t) && Recordable(t') && t <= t' && TraceHolds(t', env)
    ensures TraceHolds(t, env)
  {
    assert forall i :: 0 <= i < |t| ==> t[i] == t'[i];
  }

  /** Another input that satisfies what a run has recorded runs in step with it. */
  lemma {:induction false} Lockstep(code: Code, s: Hart, env: Env, env': Env, n: nat)
    requires Start(s) && ConcretePins(code, s) && Reached(code, Started(s, env), n).Some?
    requires TraceHolds(Reached(code, Started(s, env), n).value.trace, env')
    ensures Reached(code, Started(s, env'), n).Some?
    ensures Alike(Reached(code, Started(s, env), n).value, Reached(code, Started(s, env'), n).value)
  {
    hide Advanced, Executes, Started, AllConcrete, Eval, WellFormed, Width, TraceHolds, SameRegisters, SameData;
    if n == 0 {
      StartedAlike(s, env, env');
    } else {
      var g, k := Reached(code, Started(s, env), n - 1).value, Reached(code, Started(s, env), n).value;
      AdvancedTrace(code, g);
      HoldsBefore(g.trace, k.trace, env');
      Lockstep(code, s, env, env', n - 1);
      var g' := Reached(code, Started(s, env'), n - 1).value;
      AdvancedAlike(code, g, g');
      AdvancedRight(code, g');
      ReachedRuns(code, Started(s, env'), n, env');
      TraceEqual(k.trace, Reached(code, Started(s, env'), n).value.trace, env');
    }
  }

  lemma StartedAlike(s: Hart, env: Env, env': Env)
    requires Start(s)
    ensures Alike(Started(s, env), Started(s, env'))
  {
    hide Eval, WellFormed, Width;
  }

  // ----- The branch after a history of decisions -----

  /** On `env`, the step `n` records a condition after the decisions `p`. */
  ghost predicate BranchAt(code: Code, s: Hart, env: Env, n: nat, p: Path)
    requires Start(s)
  {
    && Reached(code, Started(s, env), n + 1).Some? && Reached(code, Started(s, env), n).Some?
    && Decisions(Reached(code, Started(s, env), n).value.trace) == p
    && |Reached(code, Started(s, env), n + 1).value.trace| == |p| + 1
  }

  ghost function BranchOf(code: Code, s: Hart, env: Env, n: nat, p: Path): ExecutionTree.Branch
    requires Start(s) && BranchAt(code, s, env, n, p)
  {
    ExecutionTree.Branch(Reached(code, Started(s, env), n + 1).value.trace[|p|].0,
      Reached(code, Started(s, env), n).value.pc, 1)
  }

  /** Two runs that have made the same decisions were alike up to then. */
  lemma {:induction false} DecisionsAlike(code: Code, s: Hart, env: Env, env': Env, n: nat, n': nat, m: nat)
    requires Start(s) && ConcretePins(code, s)
    requires Reached(code, Started(s, env), n).Some? && Reached(code, Started(s, env'), n').Some?
    requires Decisions(Reached(code, Started(s, env), n).value.trace) ==
             Decisions(Reached(code, Started(s, env'), n').value.trace)
    requires m <= n && m <= n'
    ensures Reached(code, Started(s, env), m).Some? && Reached(code, Started(s, env'), m).Some?
    ensures Alike(Reached(code, Started(s, env), m).value, Reached(code, Started(s, env'), m).value)
  {
    hide Advanced, Started, AllConcrete, SameRegisters, SameData, Recordable;
    TraceGrows(code, Started(s, env), m, n);
    TraceGrows(code, Started(s, env'), m, n');
    if m == 0 {
      StartedAlike(s, env, env');
    } else {
      DecisionsAlike(code, s, env, env', n, n', m - 1);
      var g, g' := Reached(code, Started(s, env), m - 1).value, Reached(code, Started(s, env'), m - 1).value;
      AdvancedAlike(code, g, g');
      DecidedSame(Reached(code, Started(s, env), m).value.trace, Reached(code, Started(s, env), n).value.trace,
                  Reached(code, Started(s, env'), m).value.trace, Reached(code, Started(s, env'), n').value.trace);
    }
  }

  lemma DecidedSame(t: Recorded, u: Recorded, t': Recorded, u': Recorded)
    requires t <= u && t' <= u' && Decisions(u) == Decisions(u') && SameConditions(t, t')
    ensures t == t'
  {
    forall i | 0 <= i < |t|
      ensures t[i] == t'[i]
    {
      assert t[i].1 == Decisions(u)[i] && t'[i].1 == Decisions(u')[i];
    }
  }

  /** The branch after a history is the same for all inputs. */
  lemma BranchUnique(code: Code, s: Hart, env: Env, env': Env, n: nat, n': nat, p: Path)
    requires Start(s) && ConcretePins(code, s) && BranchAt(code, s, env, n, p) && BranchAt(code, s, env', n', p) &&
             n <= n'
    ensures n == n' && BranchOf(code, s, env, n, p) == BranchOf(code, s, env', n', p)
  {
    hide Advanced, Started, AllConcrete, SameRegisters, SameData, Recordable;
    DecisionsAlike(code, s, env, env', n, n', n);
    var h, h' := Reached(code, Started(s, env), n).value, Reached(code, Started(s, env'), n).value;
    AdvancedAlike(code, h, h');
    if n < n' {
      TraceGrows(code, Started(s, env'), n + 1, n');
    }
  }

  /** The firmware as a guest: the branch that follows a history of decisions. */
  ghost function BranchAfter(code: Code, s: Hart, p: Path): Option<ExecutionTree.Branch>
    requires Start(s)
  {
    if exists env: Env, n: nat :: BranchAt(code, s, env, n, p) then
      var env: Env, n: nat :| BranchAt(code, s, env, n, p);
      Some(BranchOf(code, s, env, n, p))
    else None
  }

  ghost function GuestOf(code: Code, s: Hart): Program
    requires Start(s)
  {
    p => BranchAfter(code, s, p)
  }

  lemma GuestAt(code: Code, s: Hart, env: Env, n: nat, p: Path)
    requires Start(s) && ConcretePins(code, s) && BranchAt(code, s, env, n, p)
    ensures GuestOf(code, s)(p) == Some(BranchOf(code, s, env, n, p))
  {
    hide Reached, Started, BranchOf, BranchAt, ConcretePins;
    var env0: Env, n0: nat :| BranchAt(code, s, env0, n0, p) &&
      BranchAfter(code, s, p) == Some(BranchOf(code, s, env0, n0, p));
    if n0 <= n {
      BranchUnique(code, s, env0, env, n0, n, p);
    } else {
      BranchUnique(code, s, env, env0, n, n0, p);
    }
  }

  /** When the run on `env` recorded its `i`-th condition. */
  lemma {:induction false} Moment(code: Code, s: Hart, env: Env, n: nat, i: nat) returns (m: nat)
    requires Start(s) && Reached(code, Started(s, env), n).Some? && i < |Reached(code, Started(s, env), n).value.trace|
    ensures m < n && BranchAt(code, s, env, m, Decisions(Reached(code, Started(s, env), n).value.trace)[..i])
    ensures Reached(code, Started(s, env), m + 1).value.trace[i] == Reached(code, Started(s, env), n).value.trace[i]
  {
    hide Advanced, Started, Recordable;
    var g, k := Reached(code, Started(s, env), n - 1).value, Reached(code, Started(s, env), n).value;
    AdvancedTrace(code, g);
    assert Decisions(g.trace) == Decisions(k.trace)[..|g.trace|];
    if i < |g.trace| {
      m := Moment(code, s, env, n - 1, i);
      assert Decisions(g.trace)[..i] == Decisions(k.trace)[..i];
    } else {
      m := n - 1;
    }
  }

  lemma GuestCondition(code: Code, s: Hart, env: Env, n: nat, i: nat)
    requires Start(s) && ConcretePins(code, s)
    requires Reached(code, Started(s, env), n).Some? && i < |Reached(code, Started(s, env), n).value.trace|
    ensures
      var t := Reached(code, Started(s, env), n).value.trace;
      var b := GuestOf(code, s)(Decisions(t)[..i]);
      b.Some? && b.value.cond == t[i].0 && b.value.pktSeqLen == 1
  {
    hide Reached, Started, ConcretePins, GuestOf, Recordable;
    var p := Decisions(Reached(code, Started(s, env), n).value.trace)[..i];
    var m := Moment(code, s, env, n, i);
    GuestAt(code, s, env, m, p);
  }

  /** The runs of firmware, from one start state and with concrete addresses and jump targets, are those of a
      guest. */
  lemma FirmwareIsGuest(code: Code, s: Hart)
    requires Start(s) && ConcretePins(code, s)
    ensures ExecutionTree.Guest(GuestOf(code, s))
  {
    hide Reached, Started, ConcretePins, BranchAt, WellFormed, Width;
    var prog := GuestOf(code, s);
    forall p {:trigger prog(p)} | prog(p).Some?
      ensures Condition(prog(p).value.cond) && prog(p).value.pktSeqLen >= 1
    {
      var env: Env, n: nat :| BranchAt(code, s, env, n, p) && prog(p) == Some(BranchOf(code, s, env, n, p));
      ConditionOf(code, s, env, n, p);
    }
    forall p, b {:trigger ExecutionTree.Child(p, b)} | prog(ExecutionTree.Child(p, b)).Some?
      ensures prog(p).Some? && prog(p).value.pktSeqLen <= prog(ExecutionTree.Child(p, b)).value.pktSeqLen
    {
      var c := ExecutionTree.Child(p, b);
      var env: Env, n: nat :| BranchAt(code, s, env, n, c) && prog(c) == Some(BranchOf(code, s, env, n, c));
      BranchBefore(code, s, env, n, c);
      assert c[..|p|] == p;
      GuestCondition(code, s, env, n, |p|);
    }
  }

  lemma ConditionOf(code: Code, s: Hart, env: Env, n: nat, p: Path)
    requires Start(s) && BranchAt(code, s, env, n, p)
    ensures Condition(BranchOf(code, s, env, n, p).cond)
  {
    hide Advanced, Started, WellFormed, Width;
    var k := Reached(code, Started(s, env), n + 1).value;
    assert Recordable(k.trace);
    assert Condition(k.trace[|p|].0);
  }

  lemma BranchBefore(code: Code, s: Hart, env: Env, n: nat, c: Path)
    requires Start(s) && BranchAt(code, s, env, n, c)
    ensures Reached(code, Started(s, env), n).Some? && Decisions(Reached(code, Started(s, env), n).value.trace) == c
  {
  }

  // ----- The guest decides as the firmware does -----

  /** What the firmware decides on an input, the guest does. */
  lemma {:induction false} DecidesAsGuest(code: Code, s: Hart, env: Env, n: nat, i: nat)
    requires Start(s) && ConcretePins(code, s) && ExecutionTree.Guest(GuestOf(code, s))
    requires Reached(code, Started(s, env), n).Some? && i <= |Reached(code, Started(s, env), n).value.trace|
    ensures ExecutionTree.Follows(GuestOf(code, s), env, Decisions(Reached(code, Started(s, env), n).value.trace)[..i])
  {
    hide Reached, Started, ConcretePins, GuestOf, Eval, WellFormed, Width, ExecutionTree.Guest;
    if i > 0 {
      DecidesAsGuest(code, s, env, n, i - 1);
      GuestCondition(code, s, env, n, i - 1);
      var t := Reached(code, Started(s, env), n).value.trace;
      ReachedRuns(code, Started(s, env), n, env);
      assert Holds(t[i - 1].0, env) == t[i - 1].1;
      var d := Decisions(t);
      assert ExecutionTree.Parent(d[..i]) == d[..i - 1] && ExecutionTree.Last(d[..i]) == d[i - 1];
    }
  }

  /** What the guest decides on an input, the firmware does. */
  lemma {:induction false} GuestDecides(code: Code, s: Hart, env: Env, p: Path) returns (n: nat)
    requires Start(s) && ConcretePins(code, s) && ExecutionTree.Guest(GuestOf(code, s))
    requires ExecutionTree.Follows(GuestOf(code, s), env, p)
    ensures Reached(code, Started(s, env), n).Some? && Decisions(Reached(code, Started(s, env), n).value.trace) == p
    decreases |p|
  {
    hide Started, ConcretePins, Eval, WellFormed, Width, ExecutionTree.Guest, Advanced, BranchAt;
    if p == [] {
      n := 0;
    } else {
      var q := ExecutionTree.Parent(p);
      var env0: Env, n0: nat :| BranchAt(code, s, env0, n0, q);
      GuestAt(code, s, env0, n0, q);
      BranchBefore(code, s, env0, n0, q);
      FollowedHolds(code, s, env0, n0, env, q);
      Lockstep(code, s, env0, env, n0);
      BranchTaken(code, s, env0, n0, env, q, ExecutionTree.Last(p));
      n := n0 + 1;
      ExecutionTree.ChildOfParent(p);
    }
  }

  lemma FollowedHoldsAt(code: Code, s: Hart, env0: Env, n0: nat, env: Env, q: Path, i: nat)
    requires Start(s) && ConcretePins(code, s) && ExecutionTree.Follows(GuestOf(code, s), env, q)
    requires Reached(code, Started(s, env0), n0).Some? && i < |q|
    requires Decisions(Reached(code, Started(s, env0), n0).value.trace) == q
    ensures
      var t := Reached(code, Started(s, env0), n0).value.trace;
      Condition(t[i].0) && Holds(t[i].0, env) == t[i].1
  {
    hide Reached, Started, ConcretePins, GuestOf, Eval, WellFormed, Width;
    GuestCondition(code, s, env0, n0, i);
    PathSearch.FollowsPrefix(GuestOf(code, s), env, q, i + 1);
    assert ExecutionTree.Parent(q[..i + 1]) == q[..i] && ExecutionTree.Last(q[..i + 1]) == q[i];
  }

  lemma FollowedHolds(code: Code, s: Hart, env0: Env, n0: nat, env: Env, q: Path)
    requires Start(s) && ConcretePins(code, s) && ExecutionTree.Follows(GuestOf(code, s), env, q)
    requires Reached(code, Started(s, env0), n0).Some?
    requires Decisions(Reached(code, Started(s, env0), n0).value.trace) == q
    ensures TraceHolds(Reached(code, Started(s, env0), n0).value.trace, env)
  {
    hide Reached, Started, ConcretePins, GuestOf, Eval, WellFormed, Width, ExecutionTree.Follows;
    var t := Reached(code, Started(s, env0), n0).value.trace;
    forall i | 0 <= i < |t|
      ensures Holds(t[i].0, env) == t[i].1
    {
      FollowedHoldsAt(code, s, env0, n0, env, q, i);
    }
  }

  lemma BranchTaken(code: Code, s: Hart, env0: Env, n0: nat, env: Env, q: Path, b: bool)
    requires Start(s) && ConcretePins(code, s) && BranchAt(code, s, env0, n0, q)
    requires Reached(code, Started(s, env), n0).Some?
    requires Alike(Reached(code, Started(s, env0), n0).value, Reached(code, Started(s, env), n0).value)
    requires Condition(BranchOf(code, s, env0, n0, q).cond) && Holds(BranchOf(code, s, env0, n0, q).cond, env) == b
    ensures Reached(code, Started(s, env), n0 + 1).Some?
    ensures Decisions(Reached(code, Started(s, env), n0 + 1).value.trace) == ExecutionTree.Child(q, b)
  {
    hide Started, AllConcrete, Eval, WellFormed, Width, SameRegisters, SameData, Advanced;
    var h, h' := Reached(code, Started(s, env0), n0).value, Reached(code, Started(s, env), n0).value;
    AdvancedAlike(code, h, h');
    AdvancedTrace(code, h');
    ReachedRuns(code, Started(s, env), n0 + 1, env);
    var t := Reached(code, Started(s, env), n0 + 1).value.trace;
    assert Holds(t[|q|].0, env) == t[|q|].1;
    assert Decisions(h'.trace) == q;
  }

  // ----- Exploring the guest explores the firmware -----

  /** A run within bounds comes to an end. */
  lemma RunExists(prog: Program, env: Env, k: nat, bound: nat) returns (d: Path)
    requires ExecutionTree.Guest(prog) && Engine.Terminates(prog, env, k, bound)
    ensures PathSearch.Run(prog, env, k, d)
  {
    hide Eval, WellFormed, Width;
    d := [];
    while prog(d).Some? && prog(d).value.pktSeqLen <= k
      invariant ExecutionTree.Follows(prog, env, d) && Engine.InPackets(prog, d, k)
      decreases bound - |d|
    {
      Engine.WithinBound(prog, env, k, bound, d);
      var b := Holds(prog(d).value.cond, env);
      ExecutionTree.ParentOfChild(d, b);
      d := ExecutionTree.Child(d, b);
      Engine.WithinBound(prog, env, k, bound, d);
    }
  }

  /** If all paths of the guest have been run, then whatever decisions the firmware has made, after any number of
      instructions on any input within the assumptions, begin a path that was run. */
  lemma FirmwareExplored(code: Code, s: Hart, assumed: seq<Expr>, runs: seq<Path>, bound: nat, env: Env, n: nat)
    returns (d: Path)
    requires Start(s) && ConcretePins(code, s) && Conditions(assumed) && AllHold(assumed, env)
    requires Engine.Bounded(GuestOf(code, s), 1, bound) && Engine.AllRun(GuestOf(code, s), assumed, 1, runs)
    requires Reached(code, Started(s, env), n).Some?
    ensures d in runs && ExecutionTree.IsPrefix(Decisions(Reached(code, Started(s, env), n).value.trace), d)
  {
    hide Reached, Started, ConcretePins, GuestOf, Eval, WellFormed, Width, AllHold, Engine.Bounded, ExecutionTree.Guest;
    var prog := GuestOf(code, s);
    FirmwareIsGuest(code, s);
    Engine.BoundedTerminates(prog, env, 1, bound);
    d := RunExists(prog, env, 1, bound);
    var e := Decisions(Reached(code, Started(s, env), n).value.trace);
    assert e[..|e|] == e;
    DecidesAsGuest(code, s, env, n, |e|);
    if |e| <= |d| {
      PathSearch.FollowsUnique(prog, env, e, d);
    } else {
      PathSearch.FollowsUnique(prog, env, d, e);
      GuestCondition(code, s, env, n, |d|);
    }
  }

  // ----- A jump whose target is symbolic -----

  const JumpCode: Code := pc => if pc == 0 then Some((Jalr(0, 1, 0), 4)) else None

  /** A register that holds a symbolic variable, which is zero in this run. */
  function JumpStart(): (h: Hart)
    ensures h.Valid() && h.regs[1] == Concolic(FromNat(0, 32), Some(ReadBytes("x", 4))) && h.pc == 0
    ensures h.trace == [] && h.pins == [] && !h.compressed
  {
    ZeroRegister();
    var x := Concolic(FromNat(0, 32), Some(ReadBytes("x", 4)));
    assert Register(x);
    Hart(false, 0, seq(32, r => if r == 1 then x else Zero), map[], [], [])
  }

  /** The input that gives the variable a number. */
  function Input(v: nat): Env {
    (name: string, i: nat) => Context.ByteOf(v, i)
  }

  lemma InputValue(v: nat)
    requires v < 0x1_0000_0000
    ensures ToNat(JumpStart().regs[1].Meaning(Input(v))) == v
  {
    hide FromNat, ToNat, ReadBytes;
    Context.ReadBytesValue("x", 4, v, Input(v));
    SmallNat(v);
  }

  lemma JumpTaken()
    ensures
      var h, p := JumpStart(), Advanced(JumpCode, JumpStart());
      && Fetched(JumpCode, h, Jalr(0, 1, 0), 4) && p.Moved? && p.hart.Valid()
      && p.hart.pc == Even(Word(ToNat(h.regs[1].concrete) + 0)) == 0
      && p.hart.(pins := []) == h.(pc := 0, regs := WriteRegister(h.regs, 0, Immediate(h.pc + 4)))
  {
    hide FromNat, ToNat, ReadBytes, Eval, WellFormed, Width, WriteRegister, Immediate, JumpStart, Right;
    var h := JumpStart();
    SmallNat(0);
    assert Encodable(Jalr(0, 1, 0));
    assert Advanced(JumpCode, h) == AfterJalr(h, Jalr(0, 1, 0), 4);
    AdvancedRight(JumpCode, h);
    RightValid(JumpCode, h, Advanced(JumpCode, h));
  }

  /** Nothing is recorded for the jump, so both inputs satisfy what is; one of them follows it and the other does
      not. */
  lemma SymbolicJumpParts()
    ensures
      var h, k := JumpStart(), Advanced(JumpCode, JumpStart()).hart;
      && Advanced(JumpCode, h).Moved? && k.Valid() && k.trace == []
      && Step(JumpCode, h.At(Input(0))) == Next(k.At(Input(0)))
      && Step(JumpCode, h.At(Input(4))) != Next(k.At(Input(4)))
  {
    hide FromNat, ToNat, ReadBytes, Eval, WellFormed, Width, WriteRegister, Immediate, Write, Step, JumpStart;
    hide Input, Advanced, Words, Cells, Registers, Bytes, Encodable;
    var h, k := JumpStart(), Advanced(JumpCode, JumpStart()).hart;
    JumpTaken();
    InputValue(0);
    InputValue(4);
    JalrFollowedIff(JumpCode, h, k.(pins := []), Jalr(0, 1, 0), 4, Input(0));
    JalrFollowedIff(JumpCode, h, k.(pins := []), Jalr(0, 1, 0), 4, Input(4));
  }

  // ----- A branch to a misaligned address -----

  const BranchCode: Code := pc => if pc == 0 then Some((Instr.Branch(BEQ, 1, 0, 2), 4)) else None

  /** Without compressed instructions the taken branch traps, and nothing is recorded for it: of two inputs, which
      both satisfy what is recorded, one traps and the other goes on. */
  lemma UnrecordedBranchParts()
    ensures
      var h, p := JumpStart(), Advanced(BranchCode, JumpStart());
      && p.Stopped? && p.hart.trace == []
      && Step(BranchCode, h.At(Input(0))) == Trap(InstrMisaligned, 2)
      && Step(BranchCode, h.At(Input(4))).Next?
  {
    hide FromNat, ToNat, ReadBytes, Eval, WellFormed, Width, JumpStart, Input, Iss.BranchCondition, Step, Track, Bytes;
    hide Registers;
    var h, i := JumpStart(), Instr.Branch(BEQ, 1, 0, 2);
    assert Encodable(i);
    JumpStartRuns();
    BranchStartTaken(0);
    BranchStartTaken(4);
    BranchConditionMeaning(h, i, Input(0));
    BranchConditionMeaning(h, i, Input(4));
    assert Advanced(BranchCode, h) == AfterBranch(h, i, 4);
    BranchStep(BranchCode, h.At(Input(0)), i, 4);
    BranchStep(BranchCode, h.At(Input(4)), i, 4);
  }

  /** The run is that of the input zero. */
  lemma JumpStartRuns()
    ensures InstanceState(JumpStart().regs, JumpStart().data, Input(0))
  {
    hide FromNat, ToNat, ReadBytes, Eval, WellFormed, Width, Input;
    var h := JumpStart();
    InputValue(0);
    SmallNat(0);
    ToNatInjective(h.regs[1].Meaning(Input(0)), h.regs[1].concrete);
    ConstantMeaning(FromNat(0, 32), Input(0));
  }

  lemma BranchStartTaken(v: nat)
    requires v < 0x1_0000_0000
    ensures
      var m := JumpStart().At(Input(v));
      m.pc == 0 && !m.compressed && (Taken(BEQ, m.regs[1], m.regs[0]) <==> v == 0)
  {
    hide FromNat, ToNat, ReadBytes, Eval, WellFormed, Width, Input;
    InputValue(v);
    SmallNat(0);
    ConstantMeaning(FromNat(0, 32), Input(v));
  }
}
