/** The expressions the ISS builds for one instruction, as terms over its two operands, so that
    what holds of all of them is proved once. */
module Terms {
  import opened BitVectors
  import opened Expr
  import opened Concolic
  import opened Rv32

  datatype Term =
    | A
    | B
    | Lit(bits: Bits)
    | Unop(uop: UnOp, src: Term)
    | Binop(bop: BinOp, left: Term, right: Term)
    | Sel(cond: Term, then_: Term, else_: Term)

  /** Operands are registers or constants of 32 bits. */
  function Size(t: Term): nat {
    match t
    case A => 32
    case B => 32
    case Lit(bits) => |bits|
    case Unop(op, src) => UnaryWidth(op, Size(src))
    case Binop(op, l, r) => BinaryWidth(op, Size(l), Size(r))
    case Sel(_, t, _) => Size(t)
  }

  predicate UsesA(t: Term) {
    match t
    case A => true
    case B => false
    case Lit(_) => false
    case Unop(_, src) => UsesA(src)
    case Binop(_, l, r) => UsesA(l) || UsesA(r)
    case Sel(c, _, _) => UsesA(c)
  }

  predicate UsesB(t: Term) {
    match t
    case A => false
    case B => true
    case Lit(_) => false
    case Unop(_, src) => UsesB(src)
    case Binop(_, l, r) => UsesB(l) || UsesB(r)
    case Sel(c, _, _) => UsesB(c)
  }

  /** Widths fit, and a selection depends on no operand that its condition does not depend on. */
  predicate Fits(t: Term) {
    match t
    case A => true
    case B => true
    case Lit(bits) => bits != []
    case Unop(op, src) => Fits(src) && UnaryFits(op, Size(src)) && UnaryWidth(op, Size(src)) > 0
    case Binop(op, l, r) => Fits(l) && Fits(r) && BinaryFits(op, Size(l), Size(r))
    case Sel(c, t, f) =>
      && Fits(c) && Fits(t) && Fits(f) && Size(c) == 1 && Size(t) == Size(f)
      && (UsesA(t) || UsesA(f) ==> UsesA(c)) && (UsesB(t) || UsesB(f) ==> UsesB(c))
  }

  function Value(t: Term, x: Bits, y: Bits): (r: Bits)
    requires Fits(t) && |x| == |y| == 32
    ensures |r| == Size(t)
  {
    match t
    case A => x
    case B => y
    case Lit(bits) => bits
    case Unop(op, src) => ApplyUnary(op, Value(src, x, y))
    case Binop(op, l, r) => Apply(op, Value(l, x, y), Value(r, x, y))
    case Sel(c, t, f) => if Value(c, x, y) == TRUE then Value(t, x, y) else Value(f, x, y)
  }

  predicate Register(a: Concolic) {
    a.Valid() && |a.concrete| == 32
  }

  function Build(t: Term, a: Concolic, b: Concolic): (r: Concolic)
    requires Fits(t) && Register(a) && Register(b)
    ensures r.Valid() && |r.concrete| == Size(t)
  {
    match t
    case A => a
    case B => b
    case Lit(bits) => Constant(bits)
    case Unop(op, src) => Unary(op, Build(src, a, b))
    case Binop(op, l, r) => Binary(op, Build(l, a, b), Build(r, a, b))
    case Sel(c, t, f) => SelectValue(Build(c, a, b), Build(t, a, b), Build(f, a, b))
  }

  lemma {:induction false} BuildConcrete(t: Term, a: Concolic, b: Concolic)
    requires Fits(t) && Register(a) && Register(b)
    ensures Build(t, a, b).Concrete() <==> (UsesA(t) ==> a.Concrete()) && (UsesB(t) ==> b.Concrete())
  {
    hide Eval, WellFormed, Width, Apply, ApplyUnary;
    match t
    case A =>
    case B =>
    case Lit(_) =>
    case Unop(_, src) => BuildConcrete(src, a, b);
    case Binop(_, l, r) =>
      BuildConcrete(l, a, b);
      BuildConcrete(r, a, b);
    case Sel(c, _, _) => BuildConcrete(c, a, b);
  }

  /** Under every assignment, what was built has the value the term gives the operands. */
  lemma {:induction false} BuildMeaning(t: Term, a: Concolic, b: Concolic, env: Env)
    requires Fits(t) && Register(a) && Register(b)
    ensures Build(t, a, b).Meaning(env) == Value(t, a.Meaning(env), b.Meaning(env))
  {
    hide Eval, WellFormed, Width, Apply, ApplyUnary;
    match t
    case A =>
    case B =>
    case Lit(bits) => ConstantMeaning(bits, env);
    case Unop(op, src) =>
      BuildMeaning(src, a, b, env);
      UnaryMeaning(op, Build(src, a, b), env);
    case Binop(op, l, r) =>
      BuildMeaning(l, a, b, env);
      BuildMeaning(r, a, b, env);
      BinaryMeaning(op, Build(l, a, b), Build(r, a, b), env);
    case Sel(c, t, f) =>
      BuildMeaning(c, a, b, env);
      BuildMeaning(t, a, b, env);
      BuildMeaning(f, a, b, env);
      SelectMeaning(Build(c, a, b), Build(t, a, b), Build(f, a, b), env);
      if Build(c, a, b).Concrete() {
        BuildConcrete(c, a, b);
        BuildConcrete(t, a, b);
        BuildConcrete(f, a, b);
        ConcreteMeaning(Build(t, a, b), env);
        ConcreteMeaning(Build(f, a, b), env);
      }
  }

  lemma ConstantMeaning(bits: Bits, env: Env)
    requires bits != []
    ensures Constant(bits).Valid() && Constant(bits).Meaning(env) == bits
  {
  }

  lemma ConcreteMeaning(c: Concolic, env: Env)
    requires c.Valid() && c.Concrete()
    ensures c.Meaning(env) == c.concrete
  {
  }

  lemma {:induction false} BuildInstance(t: Term, a: Concolic, b: Concolic, env: Env)
    requires Fits(t) && Register(a) && Register(b) && a.Instance(env) && b.Instance(env)
    ensures Build(t, a, b).Instance(env)
  {
    hide Eval, WellFormed, Width, Apply, ApplyUnary;
    match t
    case A =>
    case B =>
    case Lit(bits) => ConstantMeaning(bits, env);
    case Unop(op, src) =>
      BuildInstance(src, a, b, env);
      UnaryInstance(op, Build(src, a, b), env);
    case Binop(op, l, r) =>
      BuildInstance(l, a, b, env);
      BuildInstance(r, a, b, env);
      BinaryInstance(op, Build(l, a, b), Build(r, a, b), env);
    case Sel(c, t, f) =>
      BuildInstance(c, a, b, env);
      BuildInstance(t, a, b, env);
      BuildInstance(f, a, b, env);
      SelectInstance(Build(c, a, b), Build(t, a, b), Build(f, a, b), env);
  }

  // ----- The terms of the instructions -----

  /** `RegFile::write`: a narrower value is extended with zeros. */
  function Written(t: Term): Term {
    if Size(t) < 32 then Unop(UnOp.ZExt(32), t) else t
  }

  /** `RegFile::shamt`. */
  const Shamt := Unop(UnOp.ZExt(32), Unop(Extract(0, 5), B))

  /** With an immediate shift amount the instruction word holds the amount itself. */
  function AluTerm(op: AluOp, immediate: bool): Term {
    var amount := if immediate then B else Shamt;
    match op
    case ADD => Binop(BinOp.Add, A, B)
    case SUB => Binop(BinOp.Sub, A, B)
    case SLL => Binop(BinOp.Shl, A, amount)
    case SLT => Binop(BinOp.Slt, A, B)
    case SLTU => Binop(BinOp.Ult, A, B)
    case XOR => Binop(BinOp.Xor, A, B)
    case SRL => Binop(BinOp.LShr, A, amount)
    case SRA => Binop(BinOp.AShr, A, amount)
    case OR => Binop(BinOp.Or, A, B)
    case AND => Binop(BinOp.And, A, B)
  }

  function MulTerm(op: MulOp): Term {
    var sa, sb := Unop(UnOp.SExt(64), A), Unop(UnOp.SExt(64), B);
    var za, zb := Unop(UnOp.ZExt(64), A), Unop(UnOp.ZExt(64), B);
    match op
    case MUL => Unop(Extract(0, 32), Binop(BinOp.Mul, sa, sb))
    case MULH => Unop(Extract(32, 32), Binop(BinOp.Mul, sa, sb))
    case MULHU => Unop(Extract(32, 32), Binop(BinOp.Mul, za, zb))
    case MULHSU => Unop(Extract(32, 32), Binop(BinOp.Mul, sa, zb))
  }

  /** The smallest signed word divided by minus one. */
  const Overflow := Binop(BinOp.And, Binop(BinOp.Eq, A, Lit(FromNat(0x8000_0000, 32))),
    Binop(BinOp.Eq, B, Lit(FromNat(0xFFFF_FFFF, 32))))

  /** What is written when the divisor is zero. */
  function DivByZeroTerm(op: DivOp): Term {
    match op
    case DIV => Lit(FromNat(0xFFFF_FFFF, 32))
    case DIVU => Lit(FromNat(0xFFFF_FFFF, 32))
    case REM => A
    case REMU => A
  }

  function DivTerm(op: DivOp): Term {
    match op
    case DIV => Sel(Overflow, A, Binop(BinOp.SDiv, A, B))
    case DIVU => Binop(BinOp.UDiv, A, B)
    case REM => Sel(Overflow, Lit(FromNat(0, 32)), Binop(BinOp.SRem, A, B))
    case REMU => Binop(BinOp.URem, A, B)
  }

  const IsZero := Binop(BinOp.Eq, B, Lit(FromNat(0, 32)))

  function BranchTerm(op: BranchOp): Term {
    match op
    case BEQ => Binop(BinOp.Eq, A, B)
    case BNE => Binop(BinOp.Ne, A, B)
    case BLT => Binop(BinOp.Slt, A, B)
    case BGE => Binop(BinOp.Sge, A, B)
    case BLTU => Binop(BinOp.Ult, A, B)
    case BGEU => Binop(BinOp.Uge, A, B)
  }

  lemma OperandsFit()
    ensures Fits(A) && Size(A) == 32 && Fits(B) && Size(B) == 32 && Fits(Shamt) && Size(Shamt) == 32
  {
    assert Fits(Unop(Extract(0, 5), B)) && Size(Unop(Extract(0, 5), B)) == 5;
  }

  lemma BinopFits(op: BinOp, l: Term, r: Term)
    requires Fits(l) && Fits(r) && Size(l) == Size(r) == 32 && !op.Concat?
    ensures Fits(Binop(op, l, r)) && Size(Binop(op, l, r)) == (if op.Comparison() then 1 else 32)
    ensures Fits(Written(Binop(op, l, r))) && Size(Written(Binop(op, l, r))) == 32
  {
  }

  lemma AluTermFits(op: AluOp, immediate: bool)
    ensures Fits(Written(AluTerm(op, immediate))) && Size(Written(AluTerm(op, immediate))) == 32
  {
    hide Fits, Size, Written;
    OperandsFit();
    var t := AluTerm(op, immediate);
    BinopFits(t.bop, t.left, t.right);
  }

  lemma MulTermFits(op: MulOp)
    ensures Fits(MulTerm(op)) && Size(MulTerm(op)) == 32
  {
    var sa, sb := Unop(UnOp.SExt(64), A), Unop(UnOp.SExt(64), B);
    var za, zb := Unop(UnOp.ZExt(64), A), Unop(UnOp.ZExt(64), B);
    assert Fits(Binop(BinOp.Mul, sa, sb)) && Size(Binop(BinOp.Mul, sa, sb)) == 64;
    assert Fits(Binop(BinOp.Mul, za, zb)) && Size(Binop(BinOp.Mul, za, zb)) == 64;
    assert Fits(Binop(BinOp.Mul, sa, zb)) && Size(Binop(BinOp.Mul, sa, zb)) == 64;
  }

  lemma OverflowFits()
    ensures Fits(Overflow) && Size(Overflow) == 1 && UsesA(Overflow) && UsesB(Overflow)
  {
    hide FromNat;
    var l, r := Binop(BinOp.Eq, A, Lit(FromNat(0x8000_0000, 32))), Binop(BinOp.Eq, B, Lit(FromNat(0xFFFF_FFFF, 32)));
    assert Fits(l) && Size(l) == 1 && UsesA(l);
    assert Fits(r) && Size(r) == 1 && UsesB(r);
  }

  lemma DivTermFits(op: DivOp)
    ensures Fits(DivTerm(op)) && Size(DivTerm(op)) == 32
    ensures Fits(DivByZeroTerm(op)) && Size(DivByZeroTerm(op)) == 32
    ensures Fits(IsZero) && Size(IsZero) == 1
  {
    hide FromNat;
    OverflowFits();
    assert Fits(Binop(BinOp.SDiv, A, B)) && Fits(Binop(BinOp.SRem, A, B));
    assert Fits(Lit(FromNat(0, 32)));
  }

  lemma BranchTermFits(op: BranchOp)
    ensures Fits(BranchTerm(op)) && Size(BranchTerm(op)) == 1
  {
  }
}
