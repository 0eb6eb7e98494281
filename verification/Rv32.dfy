/** The RV32IM instructions of the user-level base ISA and the "M" extension, as functions on
    integers: what a hart without symbolic values does. */
module Rv32 {
  import opened BitVectors
  import opened Expr

  const XLEN: nat := 32
  const WORDS: nat := 0x1_0000_0000

  datatype AluOp = ADD | SUB | SLL | SLT | SLTU | XOR | SRL | SRA | OR | AND
  datatype MulOp = MUL | MULH | MULHU | MULHSU
  datatype DivOp = DIV | DIVU | REM | REMU
  datatype BranchOp = BEQ | BNE | BLT | BGE | BLTU | BGEU
  datatype LoadOp = LB | LH | LW | LBU | LHU
  datatype StoreOp = SB | SH | SW

  datatype Instr =
    | OpImm(op: AluOp, rd: nat, rs1: nat, imm: int)
    | Op(op: AluOp, rd: nat, rs1: nat, rs2: nat)
    | Multiply(mul: MulOp, rd: nat, rs1: nat, rs2: nat)
    | Divide(div: DivOp, rd: nat, rs1: nat, rs2: nat)
    | Lui(rd: nat, imm: int)
    | Auipc(rd: nat, imm: int)
    | Jal(rd: nat, imm: int)
    | Jalr(rd: nat, rs1: nat, imm: int)
    | Branch(cmp: BranchOp, rs1: nat, rs2: nat, imm: int)
    | Load(load: LoadOp, rd: nat, rs1: nat, imm: int)
    | Store(store: StoreOp, rs1: nat, rs2: nat, imm: int)
    | Fence

  /** Register numbers and shift amounts have five bits, and there is no subtraction of an
      immediate. */
  predicate Encodable(i: Instr) {
    && (i.OpImm? ==> !i.op.SUB? && (i.op.SLL? || i.op.SRL? || i.op.SRA? ==> 0 <= i.imm < 32))
    && (i.OpImm? || i.Op? || i.Multiply? || i.Divide? || i.Lui? || i.Auipc? || i.Jal? || i.Jalr? || i.Load? ==>
      i.rd < 32)
    && (i.OpImm? || i.Op? || i.Multiply? || i.Divide? || i.Jalr? || i.Branch? || i.Load? || i.Store? ==> i.rs1 < 32)
    && (i.Op? || i.Multiply? || i.Divide? || i.Branch? || i.Store? ==> i.rs2 < 32)
  }

  /** The instruction at an address and its size in bytes, two if compressed. */
  type Code = nat -> Option<(Instr, nat)>

  // ----- Words -----

  function Signed(x: nat): int {
    if x >= 0x8000_0000 then x - WORDS else x
  }

  function Word(i: int): nat {
    i % WORDS
  }

  /** The lowest bit cleared. */
  function Even(a: nat): (r: nat)
    ensures r <= a && r % 2 == 0
  {
    a - a % 2
  }

  /** A bitwise operator on numbers, bit by bit from the least significant one. */
  function BitByBit(op: BinOp, a: nat, b: nat, w: nat): nat {
    if w == 0 then 0
    else (if Bitwise(op, a % 2 == 1, b % 2 == 1) then 1 else 0) + 2 * BitByBit(op, a / 2, b / 2, w - 1)
  }

  function Shift(op: AluOp, a: nat, s: nat): (r: nat) {
    hide Pow2;
    match op
    case SLL => Word(a * Pow2(s))
    case SRA => Word(Signed(a) / Pow2(s))
    case _ => a / Pow2(s)
  }

  function Alu(op: AluOp, a: nat, b: nat): nat {
    match op
    case ADD => Word(a + b)
    case SUB => Word(a - b)
    case SLT => if Signed(a) < Signed(b) then 1 else 0
    case SLTU => if a < b then 1 else 0
    case XOR => BitByBit(BinOp.Xor, a, b, XLEN)
    case OR => BitByBit(BinOp.Or, a, b, XLEN)
    case AND => BitByBit(BinOp.And, a, b, XLEN)
    case SLL => Shift(op, a, b % 32)
    case SRL => Shift(op, a, b % 32)
    case SRA => Shift(op, a, b % 32)
  }

  function Product(op: MulOp, a: nat, b: nat): nat {
    match op
    case MUL => Word(a * b)
    case MULH => Word(Signed(a) * Signed(b) / WORDS)
    case MULHU => Word(a * b / WORDS)
    case MULHSU => Word(Signed(a) * b / WORDS)
  }

  function Quotient(op: DivOp, a: nat, b: nat): nat {
    match op
    case DIV => if b == 0 then WORDS - 1 else Word(TruncDiv(Signed(a), SignedNonZero(b)))
    case DIVU => if b == 0 then WORDS - 1 else a / b
    case REM => if b == 0 then a else Word(TruncRem(Signed(a), SignedNonZero(b)))
    case REMU => if b == 0 then a else a % b
  }

  function SignedNonZero(b: nat): (r: int)
    ensures b != 0 && b != WORDS ==> r == Signed(b)
    ensures r != 0
  {
    if Signed(b) == 0 then 1 else Signed(b)
  }

  predicate Taken(op: BranchOp, a: nat, b: nat) {
    match op
    case BEQ => a == b
    case BNE => a != b
    case BLT => Signed(a) < Signed(b)
    case BGE => Signed(a) >= Signed(b)
    case BLTU => a < b
    case BGEU => a >= b
  }

  // ----- Memory -----

  function ReadByte(mem: map<nat, nat>, a: nat): nat {
    if a in mem then mem[a] else 0
  }

  function ReadLE(mem: map<nat, nat>, addr: nat, n: nat): nat {
    if n == 0 then 0 else ReadLE(mem, addr, n - 1) + Pow2(8 * (n - 1)) * ReadByte(mem, (addr + n - 1) % WORDS)
  }

  function WriteLE(mem: map<nat, nat>, addr: nat, v: nat, n: nat): map<nat, nat> {
    if n == 0 then mem
    else WriteLE(mem, addr, v, n - 1)[(addr + n - 1) % WORDS := v / Pow2(8 * (n - 1)) % 256]
  }

  function LoadSize(op: LoadOp): nat {
    match op
    case LB => 1
    case LBU => 1
    case LH => 2
    case LHU => 2
    case LW => 4
  }

  function StoreSize(op: StoreOp): nat {
    match op
    case SB => 1
    case SH => 2
    case SW => 4
  }

  /** The register value a load leaves of the bytes it read. */
  function Extended(op: LoadOp, v: nat): nat {
    match op
    case LB => if v >= 0x80 then v + WORDS - 0x100 else v
    case LH => if v >= 0x8000 then v + WORDS - 0x1_0000 else v
    case LW => v
    case LBU => v
    case LHU => v
  }

  // ----- Steps -----

  datatype Cause = IllegalInstruction | InstrMisaligned | LoadMisaligned | StoreMisaligned

  /** `compressed` is whether there are compressed instructions. */
  datatype Machine = Machine(compressed: bool, pc: nat, regs: seq<nat>, mem: map<nat, nat>)

  datatype Outcome = Next(machine: Machine) | Trap(cause: Cause, value: nat)

  /** Register zero reads as zero whatever is written to it. */
  function Write(regs: seq<nat>, rd: nat, v: nat): (r: seq<nat>)
    requires |regs| == 32 && rd < 32
    ensures |r| == 32
  {
    regs[rd := v][0 := 0]
  }

  /** Without compressed instructions, a jump goes to a multiple of four. */
  predicate Permitted(compressed: bool, target: nat) {
    compressed || target % 4 == 0
  }

  function Step(code: Code, m: Machine): (r: Outcome)
    requires |m.regs| == 32
    ensures r.Next? ==> |r.machine.regs| == 32
  {
    hide Alu, Product, Quotient, ReadLE, WriteLE, Extended;
    var fetched := code(m.pc);
    if fetched.None? || !Encodable(fetched.value.0) then Trap(IllegalInstruction, m.pc)
    else
      var (i, size) := fetched.value;
      var next := Word(m.pc + size);
      match i
      case OpImm(op, rd, rs1, imm) => Next(m.(pc := next, regs := Write(m.regs, rd, Alu(op, m.regs[rs1], Word(imm)))))
      case Op(op, rd, rs1, rs2) => Next(m.(pc := next, regs := Write(m.regs, rd, Alu(op, m.regs[rs1], m.regs[rs2]))))
      case Multiply(op, rd, rs1, rs2) =>
        Next(m.(pc := next, regs := Write(m.regs, rd, Product(op, m.regs[rs1], m.regs[rs2]))))
      case Divide(op, rd, rs1, rs2) =>
        Next(m.(pc := next, regs := Write(m.regs, rd, Quotient(op, m.regs[rs1], m.regs[rs2]))))
      case Lui(rd, imm) => Next(m.(pc := next, regs := Write(m.regs, rd, Word(imm))))
      case Auipc(rd, imm) => Next(m.(pc := next, regs := Write(m.regs, rd, Word(m.pc + imm))))
      case Jal(rd, imm) =>
        var target := Word(m.pc + imm);
        if !Permitted(m.compressed, target) then Trap(InstrMisaligned, target)
        else Next(m.(pc := target, regs := Write(m.regs, rd, next)))
      case Jalr(rd, rs1, imm) =>
        var target := Even(Word(m.regs[rs1] + imm));
        if !Permitted(m.compressed, target) then Trap(InstrMisaligned, target)
        else Next(m.(pc := target, regs := Write(m.regs, rd, next)))
      case Branch(op, rs1, rs2, imm) =>
        var target := Word(m.pc + imm);
        if !Taken(op, m.regs[rs1], m.regs[rs2]) then Next(m.(pc := next))
        else if !Permitted(m.compressed, target) then Trap(InstrMisaligned, target)
        else Next(m.(pc := target))
      case Load(op, rd, rs1, imm) =>
        var addr, n := Word(m.regs[rs1] + imm), LoadSize(op);
        if addr % n != 0 then Trap(LoadMisaligned, addr)
        else Next(m.(pc := next, regs := Write(m.regs, rd, Extended(op, ReadLE(m.mem, addr, n)))))
      case Store(op, rs1, rs2, imm) =>
        var addr, n := Word(m.regs[rs1] + imm), StoreSize(op);
        if addr % n != 0 then Trap(StoreMisaligned, addr)
        else Next(m.(pc := next, mem := WriteLE(m.mem, addr, m.regs[rs2], n)))
      case Fence => Next(m.(pc := next))
  }

  /** The outcome of `n` instructions; a trap ends the run. */
  function Steps(code: Code, m: Machine, n: nat): (r: Outcome)
    requires |m.regs| == 32
    ensures r.Next? ==> |r.machine.regs| == 32
  {
    if n == 0 then Next(m)
    else
      match Steps(code, m, n - 1)
      case Next(m') => Step(code, m')
      case Trap(c, v) => Trap(c, v)
  }
}
