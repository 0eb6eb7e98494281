/** The instruction set simulator on concolic values, against the integer machine: for every
    input that satisfies the constraints one run recorded, the machine does the same. */
module Iss {
  import opened BitVectors
  import opened Expr
  import opened Concolic
  import opened Memory
  import opened Rv32
  import opened Terms
  import opened RvArithmetic
  import opened IndexTerms

  const Zero: Concolic := Constant(FromNat(0, 32))

  // ----- The integer machine a state stands for -----

  predicate Registers(regs: seq<Concolic>) {
    |regs| == 32 && regs[0] == Zero && forall i :: 0 <= i < 32 ==> Register(regs[i])
  }

  ghost function Words(regs: seq<Concolic>, env: Env): (r: seq<nat>)
    requires Registers(regs)
    ensures |r| == 32
  {
    seq(32, i requires 0 <= i < 32 => ToNat(regs[i].Meaning(env)))
  }

  ghost function Cells(data: Data, env: Env): map<nat, nat>
    requires Bytes(data)
  {
    map a | a in data :: ToNat(data[a].Meaning(env))
  }

  /** The machine under an assignment. */
  ghost function View(compressed: bool, pc: nat, regs: seq<Concolic>, data: Data, env: Env): (m: Machine)
    requires Registers(regs) && Bytes(data)
    ensures |m.regs| == 32
  {
    Machine(compressed, pc, Words(regs, env), Cells(data, env))
  }

  /** `RegFile::write`, and the reset of register zero at the end of `ISS::run_step`. */
  function WriteRegister(regs: seq<Concolic>, rd: nat, v: Concolic): (r: seq<Concolic>)
    requires Registers(regs) && rd < 32 && Register(v)
    ensures Registers(r)
  {
    assert Register(Zero);
    regs[rd := v][0 := Zero]
  }

  lemma ZeroRegister()
    ensures Register(Zero)
  {
  }

  lemma WordsWritten(regs: seq<Concolic>, rd: nat, v: Concolic, env: Env)
    requires Registers(regs) && rd < 32 && Register(v)
    ensures Words(WriteRegister(regs, rd, v), env) == Write(Words(regs, env), rd, ToNat(v.Meaning(env)))
  {
    hide Eval, WellFormed, Width, ToNat, FromNat;
    ConstantMeaning(FromNat(0, 32), env);
    SmallNat(0);
    var ws := Words(WriteRegister(regs, rd, v), env);
    assert ws[0] == 0;
  }

  // ----- Memory -----

  lemma {:induction false} ReadCells(data: Data, addr: nat, n: nat, env: Env)
    requires Bytes(data)
    ensures ToNat(Loaded(data, addr, n, env)) == ReadLE(Cells(data, env), addr, n)
  {
    hide Eval, WellFormed, Width;
    if n > 0 {
      ReadCells(data, addr, n - 1, env);
      var a := (addr + n - 1) % ADDRESSES;
      ToNatConcat(Loaded(data, addr, n - 1, env), ByteAt(data, a, env));
      ToNatZeros(8);
    }
  }

  lemma {:induction false} WriteCells(data: Data, addr: nat, v: Concolic, n: nat, env: Env)
    requires Bytes(data) && v.Valid() && |v.concrete| >= 8 * n
    ensures Cells(Stored(data, addr, v, n), env) == WriteLE(Cells(data, env), addr, ToNat(v.Meaning(env)), n)
  {
    hide Eval, WellFormed, Width, ToNat, Pow2;
    if n > 0 {
      WriteCells(data, addr, v, n - 1, env);
      Pow2Values();
      UnaryMeaning(Extract(8 * (n - 1), 8), v, env);
      ToNatSlice(v.Meaning(env), 8 * (n - 1), 8);
    }
  }

  /** The extension of a loaded value, as `load_byte` and its siblings do it. */
  function ExtendTerm(op: LoadOp): UnOp {
    if op.LB? || op.LH? || op.LW? then UnOp.SExt(32) else UnOp.ZExt(32)
  }

  lemma SignExtendValue(b: Bits)
    requires 0 < |b| <= 32
    ensures ToNat(SignExtend(b, 32)) == if ToNat(b) >= Pow2(|b| - 1) then ToNat(b) + WORDS - Pow2(|b|) else ToNat(b)
  {
    hide Pow2, ToNat, SignExtend;
    Pow2Values();
    ToIntSignExtend(b, 32);
    ToIntMod(SignExtend(b, 32));
    NegativeIff(b);
    ToNatBound(b);
    Pow2Monotone(|b|, 32);
    var i := ToInt(b);
    if i < 0 {
      DivModUnique(i, WORDS, -1, i + WORDS);
    } else {
      DivModUnique(i, WORDS, 0, i);
    }
  }

  lemma ExtendedValue(op: LoadOp, b: Bits)
    requires |b| == 8 * LoadSize(op)
    ensures UnaryFits(ExtendTerm(op), |b|) && ToNat(ApplyUnary(ExtendTerm(op), b)) == Extended(op, ToNat(b))
  {
    hide Pow2, ToNat, SignExtend, ZeroExtend;
    Pow2Values();
    assert Pow2(7) == 0x80 && Pow2(15) == 0x8000 by { Pow2Halves(); }
    ToNatBound(b);
    SignExtendValue(b);
    ToNatZeroExtend(b, 32);
  }

  lemma Pow2Halves()
    ensures Pow2(7) == 0x80 && Pow2(15) == 0x8000
  {
    Pow2Values();
    assert Pow2(8) == 2 * Pow2(7) && Pow2(16) == 2 * Pow2(15);
  }

  // ----- Operands -----

  function Immediate(imm: int): (r: Concolic)
    ensures Register(r)
  {
    Constant(FromInt(imm, 32))
  }

  lemma ImmediateMeaning(imm: int, env: Env)
    ensures Immediate(imm).Instance(env) && ToNat(Immediate(imm).Meaning(env)) == Word(imm)
  {
    hide FromInt, ToNat;
    ConstantMeaning(FromInt(imm, 32), env);
    WordOf(imm);
  }

  /** The address operand of loads and stores. */
  function Address(base: Concolic, imm: int): (r: Concolic)
    requires Register(base)
    ensures Register(r)
  {
    Binary(BinOp.Add, base, Immediate(imm))
  }

  lemma AddressMeaning(base: Concolic, imm: int, env: Env)
    requires Register(base)
    ensures ToNat(Address(base, imm).Meaning(env)) == Word(ToNat(base.Meaning(env)) + imm)
    ensures base.Instance(env) ==> Address(base, imm).Instance(env)
  {
    hide Eval, WellFormed, Width, ToNat, FromInt;
    ImmediateMeaning(imm, env);
    BinaryMeaning(BinOp.Add, base, Immediate(imm), env);
    var a := ToNat(base.Meaning(env));
    WordOf(a + Word(imm));
    WordAdd(a, imm);
    if base.Instance(env) {
      BinaryInstance(BinOp.Add, base, Immediate(imm), env);
    }
  }

  lemma WordAdd(a: int, i: int)
    ensures Word(a + Word(i)) == Word(a + i)
  {
    ModAddMultiple(a + Word(i), i / WORDS, WORDS);
    assert i == Word(i) + (i / WORDS) * WORDS;
  }

  // ----- What a run records -----

  type Recorded = seq<(Expr, bool)>

  predicate Recordable(trace: Recorded) {
    forall i :: 0 <= i < |trace| ==> Condition(trace[i].0)
  }

  /** Under `env`, every recorded branch goes as it was recorded. */
  predicate TraceHolds(trace: Recorded, env: Env)
    requires Recordable(trace)
  {
    forall i :: 0 <= i < |trace| ==> Holds(trace[i].0, env) == trace[i].1
  }

  predicate Pinnable(pins: seq<Concolic>) {
    forall i :: 0 <= i < |pins| ==> pins[i].Valid()
  }

  /** Under `env`, every address and jump target has the constant that was used for it. */
  predicate PinsHold(pins: seq<Concolic>, env: Env)
    requires Pinnable(pins)
  {
    forall i :: 0 <= i < |pins| ==> pins[i].Meaning(env) == pins[i].concrete
  }

  predicate AllConcrete(pins: seq<Concolic>) {
    forall i :: 0 <= i < |pins| ==> pins[i].Concrete()
  }

  /** A pinned value that is concrete constrains nothing. */
  lemma ConcretePinsHold(pins: seq<Concolic>, env: Env)
    requires Pinnable(pins) && AllConcrete(pins)
    ensures PinsHold(pins, env)
  {
    forall i | 0 <= i < |pins|
      ensures pins[i].Meaning(env) == pins[i].concrete
    {
      ConcreteMeaning(pins[i], env);
    }
  }

  function Track(trace: Recorded, cond: Concolic): (r: Recorded)
    requires Recordable(trace) && cond.Valid() && |cond.concrete| == 1
    ensures Recordable(r)
  {
    if cond.symbolic.Some? then trace + [(cond.symbolic.value, cond.concrete == TRUE)] else trace
  }

  lemma TrackHolds(trace: Recorded, cond: Concolic, env: Env)
    requires Recordable(trace) && cond.Valid() && |cond.concrete| == 1
    ensures TraceHolds(Track(trace, cond), env) <==>
              TraceHolds(trace, env) && (cond.Meaning(env) == TRUE <==> cond.concrete == TRUE)
  {
    hide Eval, WellFormed, Width;
    if cond.symbolic.Some? {
      var t := trace + [(cond.symbolic.value, cond.concrete == TRUE)];
      assert t[|trace|] == (cond.symbolic.value, cond.concrete == TRUE);
      assert forall i :: 0 <= i < |trace| ==> t[i] == trace[i];
    } else {
      ConcreteMeaning(cond, env);
    }
  }

  lemma PinHolds(pins: seq<Concolic>, pin: Concolic, env: Env)
    requires Pinnable(pins) && pin.Valid()
    ensures Pinnable(pins + [pin])
    ensures PinsHold(pins + [pin], env) <==> PinsHold(pins, env) && pin.Meaning(env) == pin.concrete
  {
    hide Eval, WellFormed, Width;
    var p := pins + [pin];
    assert p[|pins|] == pin;
    assert forall i :: 0 <= i < |pins| ==> p[i] == pins[i];
  }

  /** The registers and the memory are instances of their expressions. */
  predicate InstanceState(regs: seq<Concolic>, data: Data, env: Env) {
    (forall i :: 0 <= i < |regs| ==> regs[i].Instance(env)) && Instances(data, env)
  }

  lemma WriteInstance(regs: seq<Concolic>, rd: nat, v: Concolic, data: Data, env: Env)
    requires Registers(regs) && rd < 32 && Register(v) && InstanceState(regs, data, env) && v.Instance(env)
    ensures InstanceState(WriteRegister(regs, rd, v), data, env)
  {
    hide Eval, WellFormed, Width, FromNat;
    ConstantMeaning(FromNat(0, 32), env);
  }

  lemma {:induction false} StoreInstance(regs: seq<Concolic>, data: Data, addr: nat, v: Concolic, n: nat, env: Env)
    requires Bytes(data) && v.Valid() && |v.concrete| >= 8 * n && InstanceState(regs, data, env) && v.Instance(env)
    ensures InstanceState(regs, Stored(data, addr, v, n), env)
  {
    hide Eval, WellFormed, Width;
    if n > 0 {
      StoreInstance(regs, data, addr, v, n - 1, env);
      UnaryInstance(Extract(8 * (n - 1), 8), v, env);
    }
  }

  // ----- One instruction, on values -----

  datatype Hart =
    Hart(compressed: bool, pc: nat, regs: seq<Concolic>, data: Data, trace: Recorded, pins: seq<Concolic>)
  {
    predicate Valid() {
      pc < WORDS && Registers(regs) && Bytes(data) && Recordable(trace) && Pinnable(pins)
    }

    /** `env` takes every recorded branch as recorded and agrees with every pinned value. */
    predicate Consistent(env: Env)
      requires Valid()
    {
      TraceHolds(trace, env) && PinsHold(pins, env)
    }

    ghost function At(env: Env): (m: Machine)
      requires Valid()
      ensures |m.regs| == 32
    {
      View(compressed, pc, regs, data, env)
    }

    /** `env` is an input this state is a run of. */
    predicate Runs(env: Env)
      requires Valid()
    {
      InstanceState(regs, data, env) && Consistent(env)
    }
  }

  predicate Fetched(code: Code, h: Hart, i: Instr, size: nat) {
    code(h.pc) == Some((i, size)) && Encodable(i)
  }

  /** From `h` to `h'` is one instruction of the integer machine, under every assignment that is
      consistent with what `h'` has recorded; and the input of the run stays one. */
  ghost predicate Executes(code: Code, h: Hart, h': Hart) {
    && h.Valid() && h'.Valid() && h.trace <= h'.trace && h.pins <= h'.pins
    && (forall env: Env :: h'.Consistent(env) ==> h.Consistent(env) && Step(code, h.At(env)) == Next(h'.At(env)))
    && (forall env: Env :: h.Runs(env) ==> h'.Runs(env))
  }

  /** As `Executes`, for an instruction that traps. */
  ghost predicate Traps(code: Code, h: Hart, h': Hart, cause: Cause, value: nat) {
    && h.Valid() && h'.Valid() && h'.(pins := h.pins) == h && h.pins <= h'.pins
    && (forall env: Env :: h'.Consistent(env) ==> h.Consistent(env) && Step(code, h.At(env)) == Trap(cause, value))
    && (forall env: Env :: h.Runs(env) ==> h'.Runs(env))
  }

  /** The common case: nothing is recorded, and one register is written. */
  lemma WriteExecutes(code: Code, h: Hart, h': Hart, rd: nat, v: Concolic)
    requires h.Valid() && rd < 32 && Register(v) && h'.pc < WORDS
    requires h' == h.(pc := h'.pc, regs := WriteRegister(h.regs, rd, v))
    requires forall env: Env :: h.Consistent(env) ==>
               Step(code, h.At(env)) ==
                 Next(h.At(env).(pc := h'.pc, regs := Write(h.At(env).regs, rd, ToNat(v.Meaning(env)))))
    requires forall env: Env :: InstanceState(h.regs, h.data, env) ==> v.Instance(env)
    ensures Executes(code, h, h')
  {
    hide Eval, WellFormed, Width, ToNat, Step, Write, WriteRegister, TraceHolds, PinsHold, InstanceState;
    forall env: Env
      ensures h'.Consistent(env) ==> Step(code, h.At(env)) == Next(h'.At(env))
      ensures h.Runs(env) ==> h'.Runs(env)
    {
      WordsWritten(h.regs, rd, v, env);
      if InstanceState(h.regs, h.data, env) {
        WriteInstance(h.regs, rd, v, h.data, env);
      }
    }
  }

  lemma AluStep(code: Code, m: Machine, i: Instr, size: nat)
    requires |m.regs| == 32 && code(m.pc) == Some((i, size)) && Encodable(i) && (i.Op? || i.OpImm?)
    ensures
      var b := if i.OpImm? then Word(i.imm) else m.regs[i.rs2];
      Step(code, m) == Next(m.(pc := Word(m.pc + size), regs := Write(m.regs, i.rd, Alu(i.op, m.regs[i.rs1], b))))
  {
    hide Alu, Write;
  }

  lemma MulStep(code: Code, m: Machine, i: Instr, size: nat)
    requires |m.regs| == 32 && code(m.pc) == Some((i, size)) && Encodable(i) && i.Multiply?
    ensures
      var v := Product(i.mul, m.regs[i.rs1], m.regs[i.rs2]);
      Step(code, m) == Next(m.(pc := Word(m.pc + size), regs := Write(m.regs, i.rd, v)))
  {
    hide Product, Write;
  }

  lemma DivStep(code: Code, m: Machine, i: Instr, size: nat)
    requires |m.regs| == 32 && code(m.pc) == Some((i, size)) && Encodable(i) && i.Divide?
    ensures
      var v := Quotient(i.div, m.regs[i.rs1], m.regs[i.rs2]);
      Step(code, m) == Next(m.(pc := Word(m.pc + size), regs := Write(m.regs, i.rd, v)))
  {
    hide Quotient, Write;
  }

  lemma AluExecutes(code: Code, h: Hart, i: Instr, size: nat)
    requires h.Valid() && Fetched(code, h, i, size) && (i.Op? || i.OpImm?)
    ensures Executes(code, h, AfterAlu(h, i, size))
  {
    hide Eval, WellFormed, Width, ToNat, Alu, AluTerm, Written, Build, Write, WriteRegister, Immediate, Value;
    hide Step, InstanceState, Fits, Size;
    AluTermFits(i.op, i.OpImm?);
    var h' := AfterAlu(h, i, size);
    var t := Written(AluTerm(i.op, i.OpImm?));
    var a, b := h.regs[i.rs1], if i.OpImm? then Immediate(i.imm) else h.regs[i.rs2];
    forall env: Env
      ensures ToNat(Build(t, a, b).Meaning(env)) == Alu(i.op, ToNat(a.Meaning(env)), ToNat(b.Meaning(env)))
      ensures Step(code, h.At(env)) ==
              Next(h.At(env).(pc := h'.pc, regs := Write(h.At(env).regs, i.rd, ToNat(Build(t, a, b).Meaning(env)))))
      ensures InstanceState(h.regs, h.data, env) ==> Build(t, a, b).Instance(env)
    {
      if i.OpImm? {
        ImmediateMeaning(i.imm, env);
        SmallWord(i.imm);
      }
      BuildMeaning(t, a, b, env);
      AluValue(i.op, i.OpImm?, a.Meaning(env), b.Meaning(env));
      if InstanceState(h.regs, h.data, env) {
        RegisterInstance(h, i.rs1, env);
        if i.Op? {
          RegisterInstance(h, i.rs2, env);
        }
        BuildInstance(t, a, b, env);
      }
      AluStep(code, h.At(env), i, size);
    }
    WriteExecutes(code, h, h', i.rd, Build(t, a, b));
  }

  lemma SmallWord(i: int)
    ensures 0 <= i < 32 ==> Word(i) == i
  {
  }

  lemma MulExecutes(code: Code, h: Hart, i: Instr, size: nat)
    requires h.Valid() && Fetched(code, h, i, size) && i.Multiply?
    ensures Executes(code, h, AfterMul(h, i, size))
  {
    hide Eval, WellFormed, Width, ToNat, Product, MulTerm, Build, Write, WriteRegister, Value, Step, InstanceState;
    hide Fits, Size;
    MulTermFits(i.mul);
    var h' := AfterMul(h, i, size);
    var t, a, b := MulTerm(i.mul), h.regs[i.rs1], h.regs[i.rs2];
    forall env: Env
      ensures Step(code, h.At(env)) ==
              Next(h.At(env).(pc := h'.pc, regs := Write(h.At(env).regs, i.rd, ToNat(Build(t, a, b).Meaning(env)))))
      ensures InstanceState(h.regs, h.data, env) ==> Build(t, a, b).Instance(env)
    {
      BuildMeaning(t, a, b, env);
      MulValue(i.mul, a.Meaning(env), b.Meaning(env));
      if InstanceState(h.regs, h.data, env) {
        RegisterInstance(h, i.rs1, env);
        RegisterInstance(h, i.rs2, env);
        BuildInstance(t, a, b, env);
      }
      MulStep(code, h.At(env), i, size);
    }
    WriteExecutes(code, h, h', i.rd, Build(t, a, b));
  }

  /** A constant is written. */
  lemma ConstantExecutes(code: Code, h: Hart, i: Instr, size: nat)
    requires h.Valid() && Fetched(code, h, i, size) && (i.Lui? || i.Auipc?)
    ensures Executes(code, h, AfterConstant(h, i, size))
  {
    hide Eval, WellFormed, Width, ToNat, Write, WriteRegister, Immediate;
    var h' := AfterConstant(h, i, size);
    var word := if i.Lui? then i.imm else h.pc + i.imm;
    forall env: Env
      ensures Immediate(word).Instance(env) && ToNat(Immediate(word).Meaning(env)) == Word(word)
    {
      ImmediateMeaning(word, env);
    }
    WriteExecutes(code, h, h', i.rd, Immediate(word));
  }

  lemma JumpStep(code: Code, m: Machine, i: Instr, size: nat)
    requires |m.regs| == 32 && code(m.pc) == Some((i, size)) && Encodable(i) && (i.Jal? || i.Jalr?)
    ensures
      var target := if i.Jal? then Word(m.pc + i.imm) else Even(Word(m.regs[i.rs1] + i.imm));
      Step(code, m) ==
        if Permitted(m.compressed, target) then
          Next(m.(pc := target, regs := Write(m.regs, i.rd, Word(m.pc + size))))
        else Trap(InstrMisaligned, target)
  {
    hide Write, Permitted, Even;
  }

  lemma AfterJalRight(code: Code, h: Hart, i: Instr, size: nat)
    requires h.Valid() && Fetched(code, h, i, size) && i.Jal?
    ensures Right(code, h, AfterJal(h, i, size))
  {
    hide Eval, WellFormed, Width, ToNat, Write, WriteRegister, Immediate, Step, Permitted, TraceHolds, PinsHold;
    hide InstanceState;
    var link := h.pc + size;
    forall env: Env
      ensures Immediate(link).Instance(env) && ToNat(Immediate(link).Meaning(env)) == Word(link)
    {
      ImmediateMeaning(link, env);
    }
    forall env: Env
      ensures AfterJal(h, i, size).Stopped? ==> Step(code, h.At(env)) == Trap(InstrMisaligned, Word(h.pc + i.imm))
      ensures AfterJal(h, i, size).Moved? ==>
                Step(code, h.At(env)) == Next(h.At(env).(pc := Word(h.pc + i.imm),
                                                         regs := Write(h.At(env).regs, i.rd, Word(h.pc + size))))
    {
      JumpStep(code, h.At(env), i, size);
    }
    if AfterJal(h, i, size).Moved? {
      WriteExecutes(code, h, AfterJal(h, i, size).hart, i.rd, Immediate(link));
    }
  }

  /** A recorded condition, or a concrete one, has the value it had in the run. */
  lemma TrackedCondition(h: Hart, cond: Concolic, env: Env)
    requires h.Valid() && cond.Valid() && |cond.concrete| == 1
    ensures h.(trace := Track(h.trace, cond)).Consistent(env) <==>
              h.Consistent(env) && (cond.Meaning(env) == TRUE <==> cond.concrete == TRUE)
  {
    hide Eval, WellFormed, Width, PinsHold, TraceHolds, Track;
    TrackHolds(h.trace, cond, env);
  }

  lemma BranchStep(code: Code, m: Machine, i: Instr, size: nat)
    requires |m.regs| == 32 && code(m.pc) == Some((i, size)) && Encodable(i) && i.Branch?
    ensures
      var target := Word(m.pc + i.imm);
      Step(code, m) ==
        if !Taken(i.cmp, m.regs[i.rs1], m.regs[i.rs2]) then Next(m.(pc := Word(m.pc + size)))
        else if Permitted(m.compressed, target) then Next(m.(pc := target))
        else Trap(InstrMisaligned, target)
  {
    hide Taken, Permitted;
  }

  /** The condition of a branch, which is concrete or recorded unless the branch is to a misaligned address. */
  function BranchCondition(regs: seq<Concolic>, i: Instr): (r: Concolic)
    requires Registers(regs) && Encodable(i) && i.Branch?
    ensures r.Valid() && |r.concrete| == 1
  {
    BranchTermFits(i.cmp);
    Build(BranchTerm(i.cmp), regs[i.rs1], regs[i.rs2])
  }

  lemma BranchConditionMeaning(h: Hart, i: Instr, env: Env)
    requires h.Valid() && Encodable(i) && i.Branch?
    ensures BranchCondition(h.regs, i).Meaning(env) == TRUE <==>
            Taken(i.cmp, h.At(env).regs[i.rs1], h.At(env).regs[i.rs2])
    ensures InstanceState(h.regs, h.data, env) ==> BranchCondition(h.regs, i).Instance(env)
  {
    hide Eval, WellFormed, Width, ToNat, Build, BranchTerm, Value, Taken, InstanceState;
    BranchTermFits(i.cmp);
    var t, a, b := BranchTerm(i.cmp), h.regs[i.rs1], h.regs[i.rs2];
    BuildMeaning(t, a, b, env);
    BranchValue(i.cmp, a.Meaning(env), b.Meaning(env));
    BoolIsTrue(Taken(i.cmp, ToNat(a.Meaning(env)), ToNat(b.Meaning(env))));
    if InstanceState(h.regs, h.data, env) {
      RegisterInstance(h, i.rs1, env);
      RegisterInstance(h, i.rs2, env);
      BuildInstance(t, a, b, env);
    }
  }

  lemma BranchExecutes(code: Code, h: Hart, i: Instr, size: nat)
    requires h.Valid() && Fetched(code, h, i, size) && i.Branch? && AfterBranch(h, i, size).Moved?
    ensures Executes(code, h, AfterBranch(h, i, size).hart)
  {
    hide Eval, WellFormed, Width, ToNat, BranchCondition, Taken, TraceHolds, PinsHold, Track, InstanceState, Step;
    hide Permitted;
    var h', cond := AfterBranch(h, i, size).hart, BranchCondition(h.regs, i);
    TrackGrows(h.trace, cond);
    forall env: Env
      ensures h'.Consistent(env) ==> h.Consistent(env) && Step(code, h.At(env)) == Next(h'.At(env))
      ensures h.Runs(env) ==> h'.Runs(env)
    {
      BranchConditionMeaning(h, i, env);
      TrackedCondition(h, cond, env);
      BranchStep(code, h.At(env), i, size);
    }
  }

  lemma BranchTraps(code: Code, h: Hart, i: Instr, size: nat)
    requires h.Valid() && Fetched(code, h, i, size) && i.Branch? && AfterBranch(h, i, size).Stopped?
    ensures Traps(code, h, AfterBranch(h, i, size).hart, InstrMisaligned, Word(h.pc + i.imm))
  {
    hide Eval, WellFormed, Width, ToNat, BranchCondition, Taken, TraceHolds, PinsHold, InstanceState, Step, Permitted;
    var h', cond := AfterBranch(h, i, size).hart, BranchCondition(h.regs, i);
    forall env: Env
      ensures h'.Valid()
      ensures h'.Consistent(env) ==>
                h.Consistent(env) && Step(code, h.At(env)) == Trap(InstrMisaligned, Word(h.pc + i.imm))
      ensures h.Runs(env) ==> h'.Runs(env)
    {
      BranchConditionMeaning(h, i, env);
      PinnedValue(h, cond, env);
      BranchStep(code, h.At(env), i, size);
    }
  }

  /** A branch to a misaligned address traps before it is recorded: of the inputs that satisfy what is recorded,
      exactly those that take the branch trap with it. */
  lemma UnrecordedFollowedIff(code: Code, h: Hart, i: Instr, size: nat, env: Env)
    requires h.Valid() && Fetched(code, h, i, size) && i.Branch? && AfterBranch(h, i, size).Stopped?
    ensures Step(code, h.At(env)) == Trap(InstrMisaligned, Word(h.pc + i.imm)) <==>
            BranchCondition(h.regs, i).Meaning(env) == TRUE
  {
    hide Eval, WellFormed, Width, ToNat, BranchCondition, Taken, Step, Permitted, Track, Words, Cells, Encodable;
    hide Registers, Bytes, Recordable, Pinnable, InstanceState;
    BranchConditionMeaning(h, i, env);
    BranchStep(code, h.At(env), i, size);
  }

  lemma TrackGrows(trace: Recorded, cond: Concolic)
    requires Recordable(trace) && cond.Valid() && |cond.concrete| == 1
    ensures trace <= Track(trace, cond)
  {
  }

  lemma RegisterInstance(h: Hart, r: nat, env: Env)
    requires h.Valid() && r < 32 && InstanceState(h.regs, h.data, env)
    ensures h.regs[r].Instance(env)
  {
  }

  lemma DivExecutes(code: Code, h: Hart, i: Instr, size: nat)
    requires h.Valid() && Fetched(code, h, i, size) && i.Divide?
    ensures Executes(code, h, AfterDiv(h, i, size))
  {
    hide Eval, WellFormed, Width, ToNat, Build, DivTerm, DivByZeroTerm, Value, Quotient, TraceHolds, PinsHold, Track;
    hide InstanceState, Write, WriteRegister, Step, Fits, Size;
    DivTermFits(i.div);
    var h' := AfterDiv(h, i, size);
    var a, b := h.regs[i.rs1], h.regs[i.rs2];
    var zero := Build(IsZero, a, b);
    var t := if zero.concrete == TRUE then DivByZeroTerm(i.div) else DivTerm(i.div);
    var k := h.(trace := Track(h.trace, zero));
    TrackGrows(h.trace, zero);
    forall env: Env
      ensures k.Consistent(env) ==> h.Consistent(env)
      ensures k.Consistent(env) ==>
        Step(code, h.At(env)) ==
          Next(h.At(env).(pc := h'.pc, regs := Write(h.At(env).regs, i.rd, ToNat(Build(t, a, b).Meaning(env)))))
      ensures InstanceState(h.regs, h.data, env) ==> Build(t, a, b).Instance(env)
      ensures h.Runs(env) ==> k.Runs(env)
    {
      BuildMeaning(IsZero, a, b, env);
      ZeroValue(a.Meaning(env), b.Meaning(env));
      BoolIsTrue(ToNat(b.Meaning(env)) == 0);
      TrackedCondition(h, zero, env);
      BuildMeaning(t, a, b, env);
      DivValue(i.div, a.Meaning(env), b.Meaning(env));
      DivStep(code, h.At(env), i, size);
      if InstanceState(h.regs, h.data, env) {
        RegisterInstance(h, i.rs1, env);
        RegisterInstance(h, i.rs2, env);
        BuildInstance(t, a, b, env);
        BuildInstance(IsZero, a, b, env);
      }
    }
    WriteExecutes(code, k, h', i.rd, Build(t, a, b));
  }

  /** Pinning one more value. */
  lemma PinnedValue(h: Hart, pin: Concolic, env: Env)
    requires h.Valid() && pin.Valid()
    ensures h.(pins := h.pins + [pin]).Valid()
    ensures h.(pins := h.pins + [pin]).Consistent(env) <==> h.Consistent(env) && pin.Meaning(env) == pin.concrete
  {
    hide Eval, WellFormed, Width, PinsHold, TraceHolds;
    PinHolds(h.pins, pin, env);
  }

  /** With the register holding the base of the target pinned, a jump goes to the same place under every
      consistent assignment. */
  lemma PinnedJump(code: Code, h: Hart, i: Instr, size: nat, env: Env)
    requires h.Valid() && Fetched(code, h, i, size) && i.Jalr?
    ensures
      var k := h.(pins := h.pins + [h.regs[i.rs1]]);
      var target := Even(Word(ToNat(h.regs[i.rs1].concrete) + i.imm));
      && k.Valid()
      && (k.Consistent(env) ==> h.Consistent(env))
      && (k.Consistent(env) ==>
            Step(code, h.At(env)) ==
              if Permitted(h.compressed, target) then
                Next(h.At(env).(pc := target, regs := Write(h.At(env).regs, i.rd, Word(h.pc + size))))
              else Trap(InstrMisaligned, target))
      && (h.Runs(env) ==> k.Runs(env))
  {
    hide Eval, WellFormed, Width, ToNat, Write, PinsHold, TraceHolds, InstanceState, Step, Permitted, Even;
    PinnedValue(h, h.regs[i.rs1], env);
    JumpStep(code, h.At(env), i, size);
    if h.Runs(env) {
      RegisterInstance(h, i.rs1, env);
    }
  }

  lemma AfterJalrRight(code: Code, h: Hart, i: Instr, size: nat)
    requires h.Valid() && Fetched(code, h, i, size) && i.Jalr?
    ensures Right(code, h, AfterJalr(h, i, size))
  {
    hide Eval, WellFormed, Width, ToNat, Write, WriteRegister, Immediate, PinsHold, TraceHolds, InstanceState, Step;
    hide Permitted, Even;
    var p := AfterJalr(h, i, size);
    var k, link := h.(pins := h.pins + [h.regs[i.rs1]]), h.pc + size;
    forall env: Env
      ensures Immediate(link).Instance(env) && ToNat(Immediate(link).Meaning(env)) == Word(link)
    {
      ImmediateMeaning(link, env);
    }
    PinnedJump(code, h, i, size, (_, _) => 0);
    forall env: Env
      ensures h.Runs(env) ==> k.Runs(env)
      ensures k.Consistent(env) ==> h.Consistent(env)
      ensures k.Consistent(env) && p.Stopped? ==> Step(code, h.At(env)) == Trap(InstrMisaligned, p.value)
      ensures k.Consistent(env) && p.Moved? ==>
                Step(code, h.At(env)) ==
                  Next(h.At(env).(pc := p.hart.pc, regs := Write(h.At(env).regs, i.rd, Word(link))))
    {
      PinnedJump(code, h, i, size, env);
    }
    if p.Moved? {
      WriteExecutes(code, k, p.hart, i.rd, Immediate(link));
    }
  }

  /** Without the pin the jump is followed by exactly the inputs that compute the same target. */
  lemma JalrFollowedIff(code: Code, h: Hart, h': Hart, i: Instr, size: nat, env: Env)
    requires h.Valid() && h'.Valid() && Fetched(code, h, i, size) && i.Jalr? && Permitted(h.compressed, h'.pc)
    requires
      var target := Even(Word(ToNat(h.regs[i.rs1].concrete) + i.imm));
      h' == h.(pc := target, regs := WriteRegister(h.regs, i.rd, Immediate(h.pc + size)))
    ensures Step(code, h.At(env)) == Next(h'.At(env)) <==>
            Even(Word(ToNat(h.regs[i.rs1].Meaning(env)) + i.imm)) == h'.pc
  {
    hide Eval, WellFormed, Width, ToNat, Write, WriteRegister, Immediate, Step, Permitted, Even;
    assert ToNat(Immediate(h.pc + size).Meaning(env)) == Word(h.pc + size) && Register(Immediate(h.pc + size)) by {
      ImmediateMeaning(h.pc + size, env);
    }
    WordsWritten(h.regs, i.rd, Immediate(h.pc + size), env);
    JumpStep(code, h.At(env), i, size);
  }

  /** With its address pinned, a memory access goes to the same place under every consistent
      assignment. */
  lemma PinnedAddress(h: Hart, base: nat, imm: int, env: Env)
    requires h.Valid() && base < 32
    ensures
      var addr := Address(h.regs[base], imm);
      var k := h.(pins := h.pins + [addr]);
      && k.Valid()
      && (k.Consistent(env) ==>
        h.Consistent(env) && ToNat(addr.concrete) == Word(ToNat(h.regs[base].Meaning(env)) + imm))
      && (h.Runs(env) ==> k.Runs(env))
  {
    hide Eval, WellFormed, Width, ToNat, PinsHold, TraceHolds, InstanceState, Address;
    var addr := Address(h.regs[base], imm);
    PinnedValue(h, addr, env);
    AddressMeaning(h.regs[base], imm, env);
    if h.Runs(env) {
      RegisterInstance(h, base, env);
    }
  }

  lemma LoadStep(code: Code, m: Machine, i: Instr, size: nat)
    requires |m.regs| == 32 && code(m.pc) == Some((i, size)) && Encodable(i) && i.Load?
    requires Word(m.regs[i.rs1] + i.imm) % LoadSize(i.load) == 0
    ensures var v := Extended(i.load, ReadLE(m.mem, Word(m.regs[i.rs1] + i.imm), LoadSize(i.load)));
            Step(code, m) == Next(m.(pc := Word(m.pc + size), regs := Write(m.regs, i.rd, v)))
  {
    hide Extended, ReadLE, Write;
  }

  lemma LoadExecutes(code: Code, h: Hart, h': Hart, i: Instr, size: nat, v: Concolic)
    requires h.Valid() && Fetched(code, h, i, size) && i.Load?
    requires
      var addr := Address(h.regs[i.rs1], i.imm);
      var a, n := ToNat(addr.concrete), LoadSize(i.load);
      && a % n == 0 && v.Valid() && |v.concrete| == 8 * n && UnaryFits(ExtendTerm(i.load), 8 * n)
      && (forall env: Env :: v.Meaning(env) == Loaded(h.data, a, n, env))
      && (forall env: Env :: Instances(h.data, env) ==> v.Instance(env))
      && h' == h.(pc := Word(h.pc + size), regs := WriteRegister(h.regs, i.rd, Unary(ExtendTerm(i.load), v)),
        pins := h.pins + [addr])
    ensures Executes(code, h, h')
  {
    hide Eval, WellFormed, Width, ToNat, Write, WriteRegister, PinsHold, TraceHolds, Address, Extended, Loaded;
    hide ReadLE, ApplyUnary, Step, InstanceState;
    var addr := Address(h.regs[i.rs1], i.imm);
    var k := h.(pins := h.pins + [addr]);
    var u := Unary(ExtendTerm(i.load), v);
    var a, n := ToNat(addr.concrete), LoadSize(i.load);
    forall env: Env
      ensures k.Valid()
      ensures k.Consistent(env) ==>
              h.Consistent(env) &&
                Step(code, h.At(env)) ==
                  Next(h.At(env).(pc := h'.pc, regs := Write(h.At(env).regs, i.rd, ToNat(u.Meaning(env)))))
      ensures InstanceState(h.regs, h.data, env) ==> u.Instance(env)
      ensures h.Runs(env) ==> k.Runs(env)
    {
      PinnedAddress(h, i.rs1, i.imm, env);
      UnaryMeaning(ExtendTerm(i.load), v, env);
      ExtendedValue(i.load, v.Meaning(env));
      ReadCells(h.data, a, n, env);
      if k.Consistent(env) {
        LoadStep(code, h.At(env), i, size);
      }
      if InstanceState(h.regs, h.data, env) {
        MemoryInstances(h.regs, h.data, env);
        UnaryInstance(ExtendTerm(i.load), v, env);
      }
    }
    WriteExecutes(code, k, h', i.rd, u);
  }

  lemma MemoryInstances(regs: seq<Concolic>, data: Data, env: Env)
    requires InstanceState(regs, data, env)
    ensures Instances(data, env)
  {
  }

  lemma StoreStep(code: Code, m: Machine, i: Instr, size: nat)
    requires |m.regs| == 32 && code(m.pc) == Some((i, size)) && Encodable(i) && i.Store?
    requires Word(m.regs[i.rs1] + i.imm) % StoreSize(i.store) == 0
    ensures Step(code, m) ==
            Next(m.(pc := Word(m.pc + size),
              mem := WriteLE(m.mem, Word(m.regs[i.rs1] + i.imm), m.regs[i.rs2], StoreSize(i.store))))
  {
    hide WriteLE;
  }

  lemma StoreExecutes(code: Code, h: Hart, h': Hart, i: Instr, size: nat)
    requires h.Valid() && Fetched(code, h, i, size) && i.Store?
    requires
      var addr := Address(h.regs[i.rs1], i.imm);
      var a, n := ToNat(addr.concrete), StoreSize(i.store);
      && a % n == 0
      && h' == h.(pc := Word(h.pc + size), data := Stored(h.data, a, h.regs[i.rs2], n), pins := h.pins + [addr])
    ensures Executes(code, h, h')
  {
    hide Eval, WellFormed, Width, ToNat, PinsHold, TraceHolds, Address, Stored, WriteLE, InstanceState, Step, Cells;
    hide StoreSize;
    var addr := Address(h.regs[i.rs1], i.imm);
    var k := h.(pins := h.pins + [addr]);
    var a, n, v := ToNat(addr.concrete), StoreSize(i.store), h.regs[i.rs2];
    StoreSizeFits(i.store);
    forall env: Env
      ensures h'.Valid()
      ensures h'.Consistent(env) ==> h.Consistent(env) && Step(code, h.At(env)) == Next(h'.At(env))
      ensures h.Runs(env) ==> h'.Runs(env)
    {
      PinnedAddress(h, i.rs1, i.imm, env);
      WriteCells(h.data, a, v, n, env);
      if h.Runs(env) {
        RegisterInstance(h, i.rs2, env);
        StoreInstance(h.regs, h.data, a, v, n, env);
      }
      if h'.Consistent(env) {
        StoreStep(code, h.At(env), i, size);
      }
    }
  }

  lemma StoreSizeFits(op: Rv32.StoreOp)
    ensures 0 < StoreSize(op) && 8 * StoreSize(op) <= 32
  {
  }

  lemma MisalignedStep(code: Code, m: Machine, i: Instr, size: nat)
    requires |m.regs| == 32 && code(m.pc) == Some((i, size)) && Encodable(i) && (i.Load? || i.Store?)
    ensures
      var a := Word(m.regs[i.rs1] + i.imm);
      a % (if i.Load? then LoadSize(i.load) else StoreSize(i.store)) != 0 ==>
        Step(code, m) == Trap(if i.Load? then LoadMisaligned else StoreMisaligned, a)
  {
    hide ReadLE, WriteLE, Extended;
  }

  lemma MisalignedTraps(code: Code, h: Hart, h': Hart, i: Instr, size: nat)
    requires h.Valid() && Fetched(code, h, i, size) && (i.Load? || i.Store?)
    requires
      var addr := Address(h.regs[i.rs1], i.imm);
      && ToNat(addr.concrete) % (if i.Load? then LoadSize(i.load) else StoreSize(i.store)) != 0
      && h' == h.(pins := h.pins + [addr])
    ensures Traps(code, h, h', if i.Load? then LoadMisaligned else StoreMisaligned,
                  ToNat(Address(h.regs[i.rs1], i.imm).concrete))
  {
    hide Eval, WellFormed, Width, ToNat, PinsHold, TraceHolds, Address, InstanceState, Step;
    var cause, a := if i.Load? then LoadMisaligned else StoreMisaligned, ToNat(Address(h.regs[i.rs1], i.imm).concrete);
    forall env: Env
      ensures h'.Valid()
      ensures h'.Consistent(env) ==> h.Consistent(env) && Step(code, h.At(env)) == Trap(cause, a)
      ensures h.Runs(env) ==> h'.Runs(env)
    {
      PinnedAddress(h, i.rs1, i.imm, env);
      MisalignedStep(code, h.At(env), i, size);
    }
  }

  lemma FenceExecutes(code: Code, h: Hart, h': Hart, i: Instr, size: nat)
    requires h.Valid() && Fetched(code, h, i, size) && i.Fence? && h' == h.(pc := Word(h.pc + size))
    ensures Executes(code, h, h')
  {
    hide Eval, WellFormed, Width, ToNat, PinsHold, TraceHolds, InstanceState;
  }

  lemma IllegalTraps(code: Code, h: Hart)
    requires h.Valid() && (code(h.pc).None? || !Encodable(code(h.pc).value.0))
    ensures Traps(code, h, h, IllegalInstruction, h.pc)
  {
    hide Eval, WellFormed, Width, ToNat, PinsHold, TraceHolds, InstanceState;
  }

  // ----- Whole runs -----

  /** The states of a run, one instruction after the other. */
  ghost predicate RunOf(code: Code, hs: seq<Hart>) {
    && hs != [] && hs[0].Valid()
    && forall j :: 0 <= j < |hs| - 1 ==> Executes(code, hs[j], hs[j + 1])
  }

  lemma ExecutesValid(code: Code, h: Hart, h': Hart)
    requires Executes(code, h, h')
    ensures h.Valid() && h'.Valid()
  {
  }

  lemma ExecutesAt(code: Code, h: Hart, h': Hart, env: Env)
    requires Executes(code, h, h')
    ensures h'.Consistent(env) ==> h.Consistent(env) && Step(code, h.At(env)) == Next(h'.At(env))
    ensures h.Runs(env) ==> h'.Runs(env)
  {
  }

  lemma {:induction false} ConsistentBefore(code: Code, hs: seq<Hart>, j: nat, env: Env)
    requires RunOf(code, hs) && j < |hs| && hs[j].Valid() && hs[j].Consistent(env)
    ensures forall l :: 0 <= l <= j ==> hs[l].Valid() && hs[l].Consistent(env)
  {
    hide Executes;
    if j > 0 {
      assert Executes(code, hs[j - 1], hs[j]);
      ExecutesValid(code, hs[j - 1], hs[j]);
      ExecutesAt(code, hs[j - 1], hs[j], env);
      ConsistentBefore(code, hs, j - 1, env);
    }
  }

  /** Every input that satisfies what a run has recorded drives the integer machine through the
      same sequence of states: same program counters, and the registers and the memory that the
      symbolic state of the run has under that input. */
  lemma {:induction false} SamePath(code: Code, hs: seq<Hart>, j: nat, env: Env)
    requires RunOf(code, hs) && j < |hs| && hs[|hs| - 1].Valid() && hs[|hs| - 1].Consistent(env)
    ensures hs[0].Valid() && hs[j].Valid()
    ensures Steps(code, hs[0].At(env), j) == Next(hs[j].At(env))
  {
    hide Executes;
    ConsistentBefore(code, hs, |hs| - 1, env);
    if j > 0 {
      SamePath(code, hs, j - 1, env);
      assert Executes(code, hs[j - 1], hs[j]);
      ExecutesAt(code, hs[j - 1], hs[j], env);
    }
  }

  /** The input of the run is one of them. */
  lemma {:induction false} OwnInputConsistent(code: Code, hs: seq<Hart>, j: nat, env: Env)
    requires RunOf(code, hs) && j < |hs| && hs[0].Runs(env)
    ensures hs[j].Valid() && hs[j].Runs(env)
  {
    hide Executes;
    if j > 0 {
      OwnInputConsistent(code, hs, j - 1, env);
      assert Executes(code, hs[j - 1], hs[j]);
      ExecutesValid(code, hs[j - 1], hs[j]);
      ExecutesAt(code, hs[j - 1], hs[j], env);
    }
  }

  /** Where addresses and jump targets were concrete, the recorded branches alone decide. */
  lemma ConcreteAddressesSuffice(code: Code, hs: seq<Hart>, j: nat, env: Env)
    requires RunOf(code, hs) && j < |hs| && hs[|hs| - 1].Valid()
    requires AllConcrete(hs[|hs| - 1].pins)
    requires TraceHolds(hs[|hs| - 1].trace, env)
    ensures hs[0].Valid() && hs[j].Valid() && Steps(code, hs[0].At(env), j) == Next(hs[j].At(env))
  {
    hide Executes, Eval, WellFormed, Width, RunOf;
    ConcretePinsHold(hs[|hs| - 1].pins, env);
    SamePath(code, hs, j, env);
  }

  // ----- One instruction as a function -----

  function AfterAlu(h: Hart, i: Instr, size: nat): Hart
    requires h.Valid() && Encodable(i) && (i.Op? || i.OpImm?)
  {
    AluTermFits(i.op, i.OpImm?);
    var b := if i.OpImm? then Immediate(i.imm) else h.regs[i.rs2];
    var v := Build(Written(AluTerm(i.op, i.OpImm?)), h.regs[i.rs1], b);
    h.(pc := Word(h.pc + size), regs := WriteRegister(h.regs, i.rd, v))
  }

  function AfterMul(h: Hart, i: Instr, size: nat): Hart
    requires h.Valid() && Encodable(i) && i.Multiply?
  {
    MulTermFits(i.mul);
    var v := Build(MulTerm(i.mul), h.regs[i.rs1], h.regs[i.rs2]);
    h.(pc := Word(h.pc + size), regs := WriteRegister(h.regs, i.rd, v))
  }

  function AfterDiv(h: Hart, i: Instr, size: nat): Hart
    requires h.Valid() && Encodable(i) && i.Divide?
  {
    DivTermFits(i.div);
    var a, b := h.regs[i.rs1], h.regs[i.rs2];
    var zero := Build(IsZero, a, b);
    var v := Build(if zero.concrete == TRUE then DivByZeroTerm(i.div) else DivTerm(i.div), a, b);
    h.(pc := Word(h.pc + size), regs := WriteRegister(h.regs, i.rd, v), trace := Track(h.trace, zero))
  }

  function AfterConstant(h: Hart, i: Instr, size: nat): Hart
    requires h.Valid() && Encodable(i) && (i.Lui? || i.Auipc?)
  {
    var word := if i.Lui? then i.imm else h.pc + i.imm;
    h.(pc := Word(h.pc + size), regs := WriteRegister(h.regs, i.rd, Immediate(word)))
  }

  datatype Progress = Moved(hart: Hart) | Stopped(hart: Hart, cause: Cause, value: nat)

  function AfterJal(h: Hart, i: Instr, size: nat): Progress
    requires h.Valid() && Encodable(i) && i.Jal?
  {
    var target := Word(h.pc + i.imm);
    if !Permitted(h.compressed, target) then Stopped(h, InstrMisaligned, target)
    else Moved(h.(pc := target, regs := WriteRegister(h.regs, i.rd, Immediate(h.pc + size))))
  }

  function AfterJalr(h: Hart, i: Instr, size: nat): Progress
    requires h.Valid() && Encodable(i) && i.Jalr?
  {
    hide ToNat, WellFormed, Width, FromInt;
    var base := h.regs[i.rs1];
    var target, k := Even(Word(ToNat(base.concrete) + i.imm)), h.(pins := h.pins + [base]);
    if !Permitted(h.compressed, target) then Stopped(k, InstrMisaligned, target)
    else Moved(k.(pc := target, regs := WriteRegister(h.regs, i.rd, Immediate(h.pc + size))))
  }

  /** A taken branch to a misaligned address traps before its condition is recorded. */
  function AfterBranch(h: Hart, i: Instr, size: nat): Progress
    requires h.Valid() && Encodable(i) && i.Branch?
  {
    var cond, target := BranchCondition(h.regs, i), Word(h.pc + i.imm);
    if cond.concrete != TRUE then Moved(h.(pc := Word(h.pc + size), trace := Track(h.trace, cond)))
    else if !Permitted(h.compressed, target) then Stopped(h.(pins := h.pins + [cond]), InstrMisaligned, target)
    else Moved(h.(pc := target, trace := Track(h.trace, cond)))
  }

  function AfterLoad(h: Hart, i: Instr, size: nat): Progress
    requires h.Valid() && Encodable(i) && i.Load?
  {
    var addr := Address(h.regs[i.rs1], i.imm);
    var a, n, k := ToNat(addr.concrete), LoadSize(i.load), h.(pins := h.pins + [addr]);
    if a % n != 0 then Stopped(k, LoadMisaligned, a)
    else
      var v := Unary(ExtendTerm(i.load), LoadValue(h.data, a, n));
      Moved(k.(pc := Word(h.pc + size), regs := WriteRegister(h.regs, i.rd, v)))
  }

  function AfterStore(h: Hart, i: Instr, size: nat): Progress
    requires h.Valid() && Encodable(i) && i.Store?
  {
    var addr := Address(h.regs[i.rs1], i.imm);
    var a, n, k := ToNat(addr.concrete), StoreSize(i.store), h.(pins := h.pins + [addr]);
    if a % n != 0 then Stopped(k, StoreMisaligned, a)
    else
      StoreSizeFits(i.store);
      Moved(k.(pc := Word(h.pc + size), data := Stored(h.data, a, h.regs[i.rs2], n)))
  }

  /** `ISS::run_step` as a function of the state. */
  function Advanced(code: Code, h: Hart): Progress
    requires h.Valid()
  {
    if code(h.pc).None? || !Encodable(code(h.pc).value.0) then Stopped(h, IllegalInstruction, h.pc)
    else
      var (i, size) := code(h.pc).value;
      match i
      case OpImm(_, _, _, _) => Moved(AfterAlu(h, i, size))
      case Op(_, _, _, _) => Moved(AfterAlu(h, i, size))
      case Multiply(_, _, _, _) => Moved(AfterMul(h, i, size))
      case Divide(_, _, _, _) => Moved(AfterDiv(h, i, size))
      case Lui(_, _) => Moved(AfterConstant(h, i, size))
      case Auipc(_, _) => Moved(AfterConstant(h, i, size))
      case Jal(_, _) => AfterJal(h, i, size)
      case Jalr(_, _, _) => AfterJalr(h, i, size)
      case Branch(_, _, _, _) => AfterBranch(h, i, size)
      case Load(_, _, _, _) => AfterLoad(h, i, size)
      case Store(_, _, _, _) => AfterStore(h, i, size)
      case Fence => Moved(h.(pc := Word(h.pc + size)))
  }

  /** One step is one instruction of the integer machine for every consistent input, or its trap. */
  ghost predicate Right(code: Code, h: Hart, p: Progress) {
    match p
    case Moved(h') => Executes(code, h, h')
    case Stopped(h', cause, value) => Traps(code, h, h', cause, value)
  }

  lemma RightValid(code: Code, h: Hart, p: Progress)
    requires Right(code, h, p)
    ensures p.hart.Valid()
  {
  }

  lemma RegisterKnown(regs: seq<Concolic>, r: nat)
    requires Registers(regs) && r < 32
    ensures |regs| == 32 && Register(regs[r])
  {
  }

  lemma AfterLoadRight(code: Code, h: Hart, i: Instr, size: nat)
    requires h.Valid() && Fetched(code, h, i, size) && i.Load?
    ensures Right(code, h, AfterLoad(h, i, size))
  {
    hide Executes, Traps, Address, WriteRegister, ToNat, Eval, WellFormed, Width, Loaded, LoadValue;
    var p := AfterLoad(h, i, size);
    var a, n := ToNat(Address(h.regs[i.rs1], i.imm).concrete), LoadSize(i.load);
    if p.Stopped? {
      MisalignedTraps(code, h, p.hart, i, size);
    } else {
      var v := LoadValue(h.data, a, n);
      forall env: Env
        ensures v.Meaning(env) == Loaded(h.data, a, n, env)
        ensures Instances(h.data, env) ==> v.Instance(env)
      {
        LoadValueMeaning(h.data, a, n, env);
      }
      LoadExecutes(code, h, p.hart, i, size, v);
    }
  }

  lemma AfterStoreRight(code: Code, h: Hart, i: Instr, size: nat)
    requires h.Valid() && Fetched(code, h, i, size) && i.Store?
    ensures Right(code, h, AfterStore(h, i, size))
  {
    hide Executes, Traps, Address, ToNat, Eval, WellFormed, Width, Stored;
    var p := AfterStore(h, i, size);
    if p.Stopped? {
      MisalignedTraps(code, h, p.hart, i, size);
    } else {
      StoreExecutes(code, h, p.hart, i, size);
    }
  }

  lemma AfterBranchRight(code: Code, h: Hart, i: Instr, size: nat)
    requires h.Valid() && Fetched(code, h, i, size) && i.Branch?
    ensures Right(code, h, AfterBranch(h, i, size))
  {
    hide Executes, Traps, BranchCondition, Permitted;
    if AfterBranch(h, i, size).Moved? {
      BranchExecutes(code, h, i, size);
    } else {
      BranchTraps(code, h, i, size);
    }
  }

  lemma AdvancedRight(code: Code, h: Hart)
    requires h.Valid()
    ensures Right(code, h, Advanced(code, h))
  {
    hide Executes, Traps, Encodable;
    hide AfterAlu, AfterMul, AfterDiv, AfterConstant, AfterJal, AfterJalr, AfterBranch, AfterLoad, AfterStore;
    if code(h.pc).None? || !Encodable(code(h.pc).value.0) {
      IllegalTraps(code, h);
    } else {
      var (i, size) := code(h.pc).value;
      match i
      case OpImm(_, _, _, _) => AluExecutes(code, h, i, size);
      case Op(_, _, _, _) => AluExecutes(code, h, i, size);
      case Multiply(_, _, _, _) => MulExecutes(code, h, i, size);
      case Divide(_, _, _, _) => DivExecutes(code, h, i, size);
      case Lui(_, _) => ConstantExecutes(code, h, i, size);
      case Auipc(_, _) => ConstantExecutes(code, h, i, size);
      case Jal(_, _) => AfterJalRight(code, h, i, size);
      case Jalr(_, _, _) => AfterJalrRight(code, h, i, size);
      case Branch(_, _, _, _) => AfterBranchRight(code, h, i, size);
      case Load(_, _, _, _) => AfterLoadRight(code, h, i, size);
      case Store(_, _, _, _) => AfterStoreRight(code, h, i, size);
      case Fence => FenceExecutes(code, h, h.(pc := Word(h.pc + size)), i, size);
    }
  }

  // ----- The simulator -----

  datatype StepResult = Done | Trapped(cause: Cause, value: nat)

  function ProgressOf(r: StepResult, h: Hart): Progress {
    match r
    case Done => Moved(h)
    case Trapped(cause, value) => Stopped(h, cause, value)
  }

  class ISS {
    const code: Code
    const mem: ConcolicMemory
    /** `csr_misa::has_C_extension`. */
    const compressed: bool
    var pc: nat
    var regs: seq<Concolic>
    var trace: Recorded
    /** The values the simulator used the constant of, without recording a constraint. */
    ghost var pins: seq<Concolic>

    ghost function Snapshot(): Hart
      reads this, mem
    {
      Hart(compressed, pc, regs, mem.data, trace, pins)
    }

    ghost predicate Valid()
      reads this, mem
    {
      Snapshot().Valid()
    }

    /** All registers start at zero except the stack pointer, `x2`. */
    constructor (code: Code, mem: ConcolicMemory, compressed: bool, entrypoint: nat, sp: nat)
      requires mem.Valid() && entrypoint < WORDS
      ensures Valid() && this.code == code && this.mem == mem && this.compressed == compressed
      ensures pc == entrypoint && trace == [] && pins == []
      ensures regs == seq(32, r => if r == 2 then Immediate(sp) else Zero)
    {
      ZeroRegister();
      this.code, this.mem, this.compressed := code, mem, compressed;
      pc, trace, pins := entrypoint, [], [];
      regs := seq(32, r => if r == 2 then Immediate(sp) else Zero);
    }

    /** `ISS::track_and_trace_branch`. */
    method TrackBranch(cond: Concolic)
      requires Recordable(trace) && cond.Valid() && |cond.concrete| == 1
      modifies this`trace
      ensures trace == Track(old(trace), cond)
    {
      if cond.symbolic.Some? {
        trace := trace + [(cond.symbolic.value, cond.concrete == TRUE)];
      }
    }

    method ExecAlu(i: Instr, size: nat)
      requires Valid() && Fetched(code, Snapshot(), i, size) && (i.Op? || i.OpImm?)
      modifies this
      ensures Valid() && Snapshot() == AfterAlu(old(Snapshot()), i, size)
      ensures Executes(code, old(Snapshot()), Snapshot())
    {
      hide Executes, Build, AluTerm, Written, Immediate, WriteRegister, Registers, Bytes, Recordable, Pinnable;
      RegisterKnown(regs, i.rs1);
      if i.Op? {
        RegisterKnown(regs, i.rs2);
      }
      AluExecutes(code, Snapshot(), i, size);
      ExecutesValid(code, Snapshot(), AfterAlu(Snapshot(), i, size));
      AluTermFits(i.op, i.OpImm?);
      var b := if i.OpImm? then Immediate(i.imm) else regs[i.rs2];
      regs := WriteRegister(regs, i.rd, Build(Written(AluTerm(i.op, i.OpImm?)), regs[i.rs1], b));
      pc := Word(pc + size);
    }

    method ExecMul(i: Instr, size: nat)
      requires Valid() && Fetched(code, Snapshot(), i, size) && i.Multiply?
      modifies this
      ensures Valid() && Snapshot() == AfterMul(old(Snapshot()), i, size)
      ensures Executes(code, old(Snapshot()), Snapshot())
    {
      hide Executes, Build, MulTerm, WriteRegister, Registers, Bytes, Recordable, Pinnable;
      RegisterKnown(regs, i.rs1);
      RegisterKnown(regs, i.rs2);
      MulExecutes(code, Snapshot(), i, size);
      ExecutesValid(code, Snapshot(), AfterMul(Snapshot(), i, size));
      MulTermFits(i.mul);
      regs := WriteRegister(regs, i.rd, Build(MulTerm(i.mul), regs[i.rs1], regs[i.rs2]));
      pc := Word(pc + size);
    }

    method ExecDiv(i: Instr, size: nat)
      requires Valid() && Fetched(code, Snapshot(), i, size) && i.Divide?
      modifies this
      ensures Valid() && Snapshot() == AfterDiv(old(Snapshot()), i, size)
      ensures Executes(code, old(Snapshot()), Snapshot())
    {
      hide Executes, Build, DivTerm, DivByZeroTerm, WriteRegister, Track, Registers, Bytes, Recordable, Pinnable;
      RegisterKnown(regs, i.rs1);
      RegisterKnown(regs, i.rs2);
      DivExecutes(code, Snapshot(), i, size);
      ExecutesValid(code, Snapshot(), AfterDiv(Snapshot(), i, size));
      DivTermFits(i.div);
      var a, b := regs[i.rs1], regs[i.rs2];
      var zero := Build(IsZero, a, b);
      if zero.concrete == TRUE {
        regs := WriteRegister(regs, i.rd, Build(DivByZeroTerm(i.div), a, b));
      } else {
        regs := WriteRegister(regs, i.rd, Build(DivTerm(i.div), a, b));
      }
      TrackBranch(zero);
      pc := Word(pc + size);
    }

    method ExecConstant(i: Instr, size: nat)
      requires Valid() && Fetched(code, Snapshot(), i, size) && (i.Lui? || i.Auipc?)
      modifies this
      ensures Valid() && Snapshot() == AfterConstant(old(Snapshot()), i, size)
      ensures Executes(code, old(Snapshot()), Snapshot())
    {
      hide Executes, Immediate, WriteRegister;
      ConstantExecutes(code, Snapshot(), i, size);
      regs := WriteRegister(regs, i.rd, Immediate(if i.Lui? then i.imm else pc + i.imm));
      pc := Word(pc + size);
    }

    method ExecJal(i: Instr, size: nat) returns (r: StepResult)
      requires Valid() && Fetched(code, Snapshot(), i, size) && i.Jal?
      modifies this
      ensures Valid() && ProgressOf(r, Snapshot()) == AfterJal(old(Snapshot()), i, size)
      ensures Right(code, old(Snapshot()), ProgressOf(r, Snapshot()))
    {
      hide Right, Immediate, WriteRegister, Permitted;
      AfterJalRight(code, Snapshot(), i, size);
      var link, target := Immediate(pc + size), Word(pc + i.imm);
      if !Permitted(compressed, target) {
        return Trapped(InstrMisaligned, target);
      }
      regs := WriteRegister(regs, i.rd, link);
      pc := target;
      r := Done;
    }

    method ExecJalr(i: Instr, size: nat) returns (r: StepResult)
      requires Valid() && Fetched(code, Snapshot(), i, size) && i.Jalr?
      modifies this
      ensures Valid() && ProgressOf(r, Snapshot()) == AfterJalr(old(Snapshot()), i, size)
      ensures Right(code, old(Snapshot()), ProgressOf(r, Snapshot()))
    {
      hide Right, Immediate, WriteRegister, ToNat, Permitted, Even;
      AfterJalrRight(code, Snapshot(), i, size);
      RightValid(code, Snapshot(), AfterJalr(Snapshot(), i, size));
      var link, target := Immediate(pc + size), Even(Word(ToNat(regs[i.rs1].concrete) + i.imm));
      pins := pins + [regs[i.rs1]];
      if !Permitted(compressed, target) {
        return Trapped(InstrMisaligned, target);
      }
      regs := WriteRegister(regs, i.rd, link);
      pc := target;
      r := Done;
    }

    method ExecBranch(i: Instr, size: nat) returns (r: StepResult)
      requires Valid() && Fetched(code, Snapshot(), i, size) && i.Branch?
      modifies this
      ensures Valid() && ProgressOf(r, Snapshot()) == AfterBranch(old(Snapshot()), i, size)
      ensures Right(code, old(Snapshot()), ProgressOf(r, Snapshot()))
    {
      hide Right, BranchCondition, Permitted, Registers, Bytes, Recordable, Pinnable, Track;
      AfterBranchRight(code, Snapshot(), i, size);
      RightValid(code, Snapshot(), AfterBranch(Snapshot(), i, size));
      var cond, target := BranchCondition(regs, i), Word(pc + i.imm);
      if cond.concrete == TRUE {
        if !Permitted(compressed, target) {
          pins := pins + [cond];
          return Trapped(InstrMisaligned, target);
        }
        pc := target;
      } else {
        pc := Word(pc + size);
      }
      TrackBranch(cond);
      r := Done;
    }

    /** The value at an address is written to the register. */
    method WriteLoaded(i: Instr, size: nat, a: nat)
      requires Registers(regs) && mem.Valid() && i.Load? && i.rd < 32 && a < WORDS
      modifies this`regs, this`pc
      ensures
        var v := Unary(ExtendTerm(i.load), LoadValue(mem.data, a, LoadSize(i.load)));
        pc == Word(old(pc) + size) && regs == WriteRegister(old(regs), i.rd, v)
    {
      hide WriteRegister, Eval, WellFormed, Width, LoadValue, IsLoaded;
      var v := mem.Load(a, LoadSize(i.load));
      regs := WriteRegister(regs, i.rd, Unary(ExtendTerm(i.load), v.value));
      pc := Word(pc + size);
    }

    method ExecLoad(i: Instr, size: nat) returns (r: StepResult)
      requires Valid() && Fetched(code, Snapshot(), i, size) && i.Load?
      modifies this
      ensures Valid() && ProgressOf(r, Snapshot()) == AfterLoad(old(Snapshot()), i, size)
      ensures Right(code, old(Snapshot()), ProgressOf(r, Snapshot()))
    {
      hide Right, Address, WriteRegister, ToNat, Eval, WellFormed, Width, LoadValue, IsLoaded;
      hide Registers, Pinnable, Recordable, Bytes;
      RegisterKnown(regs, i.rs1);
      AfterLoadRight(code, Snapshot(), i, size);
      RightValid(code, Snapshot(), AfterLoad(Snapshot(), i, size));
      var addr := Address(regs[i.rs1], i.imm);
      WordValue(addr.concrete);
      var a, n := ToNat(addr.concrete), LoadSize(i.load);
      pins := pins + [addr];
      if a % n != 0 {
        return Trapped(LoadMisaligned, a);
      }
      WriteLoaded(i, size, a);
      r := Done;
    }

    method ExecStore(i: Instr, size: nat) returns (r: StepResult)
      requires Valid() && Fetched(code, Snapshot(), i, size) && i.Store?
      modifies this, mem
      ensures Valid() && ProgressOf(r, Snapshot()) == AfterStore(old(Snapshot()), i, size)
      ensures Right(code, old(Snapshot()), ProgressOf(r, Snapshot()))
    {
      hide Right, Address, ToNat, Eval, WellFormed, Width, Stored;
      hide Registers, Pinnable, Recordable, Bytes;
      RegisterKnown(regs, i.rs1);
      RegisterKnown(regs, i.rs2);
      AfterStoreRight(code, Snapshot(), i, size);
      RightValid(code, Snapshot(), AfterStore(Snapshot(), i, size));
      var addr := Address(regs[i.rs1], i.imm);
      WordValue(addr.concrete);
      var a, n := ToNat(addr.concrete), StoreSize(i.store);
      pins := pins + [addr];
      if a % n != 0 {
        return Trapped(StoreMisaligned, a);
      }
      mem.Store(a, regs[i.rs2], n);
      pc := Word(pc + size);
      r := Done;
    }

    /** `ISS::run_step`: one instruction of the integer machine for every consistent input, or
        its trap. */
    method RunStep() returns (r: StepResult)
      requires Valid()
      modifies this, mem
      ensures Valid() && ProgressOf(r, Snapshot()) == Advanced(code, old(Snapshot()))
      ensures r.Done? ==> Executes(code, old(Snapshot()), Snapshot())
      ensures r.Trapped? ==> Traps(code, old(Snapshot()), Snapshot(), r.cause, r.value)
    {
      hide Encodable, Executes, Traps;
      hide AfterAlu, AfterMul, AfterDiv, AfterConstant, AfterJal, AfterJalr, AfterBranch, AfterLoad, AfterStore;
      AdvancedRight(code, Snapshot());
      r := Done;
      var fetched := code(pc);
      if fetched.None? || !Encodable(fetched.value.0) {
        return Trapped(IllegalInstruction, pc);
      }
      var (i, size) := fetched.value;
      match i {
        case OpImm(_, _, _, _) => ExecAlu(i, size);
        case Op(_, _, _, _) => ExecAlu(i, size);
        case Multiply(_, _, _, _) => ExecMul(i, size);
        case Divide(_, _, _, _) => ExecDiv(i, size);
        case Lui(_, _) => ExecConstant(i, size);
        case Auipc(_, _) => ExecConstant(i, size);
        case Jal(_, _) => r := ExecJal(i, size);
        case Jalr(_, _, _) => r := ExecJalr(i, size);
        case Branch(_, _, _, _) => r := ExecBranch(i, size);
        case Load(_, _, _, _) => r := ExecLoad(i, size);
        case Store(_, _, _, _) => r := ExecStore(i, size);
        case Fence => pc := Word(pc + size);
      }
    }

    /** `ISS::run`, for at most `n` instructions: the states passed through form a run. */
    method Run(n: nat) returns (steps: nat, r: StepResult, ghost hs: seq<Hart>)
      requires Valid()
      modifies this, mem
      ensures Valid() && steps <= n && |hs| == steps + 1 && hs[0] == old(Snapshot()) && RunOf(code, hs)
      ensures r.Done? ==> steps == n && hs[steps] == Snapshot()
      ensures r.Trapped? ==> Traps(code, hs[steps], Snapshot(), r.cause, r.value)
    {
      hide Executes, Traps;
      steps, r, hs := 0, Done, [Snapshot()];
      while steps < n
        invariant Valid() && steps <= n && |hs| == steps + 1 && hs[0] == old(Snapshot()) && hs[steps] == Snapshot()
        invariant RunOf(code, hs) && r.Done?
      {
        r := RunStep();
        if r.Trapped? {
          return;
        }
        steps := steps + 1;
        hs := hs + [Snapshot()];
      }
    }
  }
}
