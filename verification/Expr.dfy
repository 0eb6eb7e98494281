/** KLEE's expression language over bit vectors, and its meaning under an assignment of
    bytes to the symbolic arrays. */
module Expr {
  import opened BitVectors

  datatype Option<+T> = None | Some(value: T)

  datatype BinOp =
    | Add | Sub | Mul | UDiv | SDiv | URem | SRem
    | And | Or | Xor | Shl | LShr | AShr
    | Eq | Ne | Ult | Ule | Uge | Slt | Sge
    | Concat
  {
    predicate Comparison() {
      Eq? || Ne? || Ult? || Ule? || Uge? || Slt? || Sge?
    }
  }

  datatype UnOp = Not | Extract(offset: nat, width: nat) | SExt(width: nat) | ZExt(width: nat)

  datatype Expr =
    | Const(bits: Bits)
    | Read(name: string, index: nat)  // one byte of a symbolic array
    | Un(uop: UnOp, src: Expr)
    | Bin(op: BinOp, left: Expr, right: Expr)
    | Select(cond: Expr, then_: Expr, else_: Expr)

  /** The byte stored at each index of each symbolic array (taken modulo 256). */
  type Env = (string, nat) -> nat

  const True := Const(TRUE)
  const False := Const(FALSE)

  // ----- Operators on bit vectors -----

  predicate UnaryFits(op: UnOp, w: nat) {
    match op
    case Not => true
    case Extract(off, v) => off + v <= w && v > 0
    case SExt(v) => v > 0
    case ZExt(v) => v > 0
  }

  function UnaryWidth(op: UnOp, w: nat): nat {
    if op.Not? then w else op.width
  }

  function ApplyUnary(op: UnOp, a: Bits): (r: Bits)
    requires UnaryFits(op, |a|)
    ensures |r| == UnaryWidth(op, |a|)
  {
    match op
    case Not => Complement(a)
    case Extract(off, v) => a[off..off + v]
    case SExt(v) => SignExtend(a, v)
    case ZExt(v) => ZeroExtend(a, v)
  }

  predicate BinaryFits(op: BinOp, v: nat, w: nat) {
    op.Concat? || v == w
  }

  function BinaryWidth(op: BinOp, v: nat, w: nat): nat {
    if op.Comparison() then 1 else if op.Concat? then v + w else v
  }

  /** Division rounding toward zero. */
  function TruncDiv(a: int, b: int): int
    requires b != 0
  {
    if a >= 0 then (if b > 0 then a / b else -(a / -b))
    else (if b > 0 then -(-a / b) else -a / -b)
  }

  function TruncRem(a: int, b: int): int
    requires b != 0
  {
    a - b * TruncDiv(a, b)
  }

  predicate Compare(op: BinOp, a: Bits, b: Bits) {
    match op
    case Eq => a == b
    case Ne => a != b
    case Ult => ToNat(a) < ToNat(b)
    case Ule => ToNat(a) <= ToNat(b)
    case Uge => ToNat(a) >= ToNat(b)
    case Slt => ToInt(a) < ToInt(b)
    case Sge => ToInt(a) >= ToInt(b)
    case _ => false
  }

  function Bitwise(op: BinOp, x: bool, y: bool): bool {
    match op
    case And => x && y
    case Or => x || y
    case Xor => x != y
    case _ => false
  }

  /** The number an arithmetic operator computes, before truncation to the width `w` of its
      operands; division by zero follows the SMT-LIB bit-vector theory. */
  function Arithmetic(op: BinOp, a: Bits, b: Bits): int {
    var m, n := ToNat(a), ToNat(b);
    var i, j := ToInt(a), ToInt(b);
    match op
    case Add => m + n
    case Sub => m - n
    case Mul => m * n
    case UDiv => if n == 0 then -1 else m / n
    case URem => if n == 0 then m else m % n
    case SDiv => if j == 0 then (if i < 0 then 1 else -1) else TruncDiv(i, j)
    case SRem => if j == 0 then i else TruncRem(i, j)
    case Shl => m * Pow2(n)
    case LShr => m / Pow2(n)
    case AShr => i / Pow2(n)
    case _ => 0
  }

  function Apply(op: BinOp, a: Bits, b: Bits): (r: Bits)
    requires BinaryFits(op, |a|, |b|)
    ensures |r| == BinaryWidth(op, |a|, |b|)
  {
    if op.Comparison() then Bool(Compare(op, a, b))
    else if op.Concat? then b + a
    else if op.And? || op.Or? || op.Xor? then Zip((x, y) => Bitwise(op, x, y), a, b)
    else FromInt(Arithmetic(op, a, b), |a|)
  }

  // ----- Expressions -----

  function Width(e: Expr): nat {
    match e
    case Const(bits) => |bits|
    case Read(_, _) => 8
    case Un(op, src) => UnaryWidth(op, Width(src))
    case Bin(op, l, r) => BinaryWidth(op, Width(l), Width(r))
    case Select(_, t, _) => Width(t)
  }

  /** The width discipline asserted by the expression constructors. */
  predicate WellFormed(e: Expr) {
    match e
    case Const(bits) => bits != []
    case Read(_, _) => true
    case Un(op, src) => WellFormed(src) && UnaryFits(op, Width(src))
    case Bin(op, l, r) => WellFormed(l) && WellFormed(r) && BinaryFits(op, Width(l), Width(r))
    case Select(c, t, f) =>
      WellFormed(c) && WellFormed(t) && WellFormed(f) && Width(c) == 1 && Width(t) == Width(f)
  }

  /** The value of a well-formed expression: always as wide as the expression says. */
  function Eval(e: Expr, env: Env): (r: Bits)
    requires WellFormed(e)
    ensures |r| == Width(e)
  {
    match e
    case Const(bits) => bits
    case Read(name, i) => FromNat(env(name, i), 8)
    case Un(op, src) => ApplyUnary(op, Eval(src, env))
    case Bin(op, l, r) => Apply(op, Eval(l, env), Eval(r, env))
    case Select(c, t, f) => if Eval(c, env) == TRUE then Eval(t, env) else Eval(f, env)
  }

  /** A condition: a well-formed expression of width one. */
  predicate Condition(e: Expr) {
    WellFormed(e) && Width(e) == 1
  }

  predicate Holds(e: Expr, env: Env)
    requires Condition(e)
  {
    Eval(e, env) == TRUE
  }

  // ----- Conditions asserted of a branch -----

  /** `BitVector::eqTrue` and `BitVector::eqFalse`: the constant is the right operand. */
  function Asserted(e: Expr, taken: bool): Expr {
    Bin(Eq, e, if taken then True else False)
  }

  lemma AssertedCondition(e: Expr, taken: bool)
    requires Condition(e)
    ensures Condition(Asserted(e, taken))
  {
  }

  lemma AssertedMeaning(e: Expr, taken: bool, env: Env)
    requires Condition(e)
    ensures Condition(Asserted(e, taken))
    ensures Holds(Asserted(e, taken), env) <==> Holds(e, env) == taken
  {
    var v := Eval(e, env);
    assert v == [v[0]];
    var c := if taken then TRUE else FALSE;
    assert Width(Const(c)) == 1 && WellFormed(Const(c));
    assert Eval(Asserted(e, taken), env) == Apply(Eq, v, c) == [v == c];
    assert [v == c] == TRUE <==> [v == c][0] == TRUE[0];
    assert v == TRUE <==> v[0] == TRUE[0];
    assert v == FALSE <==> v[0] == FALSE[0];
  }

  // ----- Symbolic input variables -----

  /** The expression a fresh symbolic variable of `n` bytes reads: byte 0 is least significant. */
  function ReadBytes(name: string, n: nat): (e: Expr)
    requires n > 0
    ensures WellFormed(e) && Width(e) == 8 * n
  {
    if n == 1 then Read(name, 0) else Bin(Concat, Read(name, n - 1), ReadBytes(name, n - 1))
  }
}
