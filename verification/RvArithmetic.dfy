/** The terms of the ISS compute what RV32IM says, on every pair of operands. */
module RvArithmetic {
  import opened BitVectors
  import opened Expr
  import opened Rv32
  import opened Terms

  // ----- Numbers of 32 and 64 bits -----

  lemma Pow2Values()
    ensures Pow2(0) == 1 && Pow2(5) == 32 && Pow2(8) == 0x100 && Pow2(16) == 0x1_0000
    ensures Pow2(31) == 0x8000_0000 && Pow2(32) == WORDS
  {
    assert Pow2(4) == 16;
    Pow2Add(4, 4);
    Pow2Add(8, 8);
    Pow2Add(16, 16);
    assert Pow2(32) == 2 * Pow2(31);
  }

  lemma FromIntValue(i: int, w: nat)
    ensures ToNat(FromInt(i, w)) == i % Pow2(w)
  {
    hide Pow2, ToNat, FromNat;
    ToFromNat(i % Pow2(w), w);
    DivModUnique(i % Pow2(w), Pow2(w), 0, i % Pow2(w));
  }

  lemma WordValue(x: Bits)
    requires |x| == 32
    ensures ToNat(x) < WORDS && Signed(ToNat(x)) == ToInt(x)
  {
    hide Pow2, ToNat;
    Pow2Values();
    ToNatBound(x);
    NegativeIff(x);
  }

  lemma WordOf(i: int)
    ensures ToNat(FromInt(i, 32)) == Word(i)
  {
    hide Pow2, ToNat, FromInt;
    Pow2Values();
    FromIntValue(i, 32);
  }

  lemma SmallNat(n: nat)
    requires n < WORDS
    ensures ToNat(FromNat(n, 32)) == n
  {
    hide Pow2, ToNat, FromNat;
    Pow2Values();
    ToFromNat(n, 32);
    DivModUnique(n, WORDS, 0, n);
  }

  // ----- Bitwise operators -----

  lemma {:induction false} ZipValue(op: BinOp, x: Bits, y: Bits)
    requires |x| == |y|
    ensures ToNat(Zip((p, q) => Bitwise(op, p, q), x, y)) == BitByBit(op, ToNat(x), ToNat(y), |x|)
  {
    var f := (p, q) => Bitwise(op, p, q);
    if x != [] {
      ZipValue(op, x[1..], y[1..]);
      assert Zip(f, x, y)[1..] == Zip(f, x[1..], y[1..]);
    }
  }

  // ----- Shift amounts -----

  lemma ShamtValue(x: Bits, y: Bits)
    requires |x| == |y| == 32
    ensures Fits(Shamt) && ToNat(Value(Shamt, x, y)) == ToNat(y) % 32
  {
    hide Pow2, ToNat;
    Pow2Values();
    var low := y[0..0 + 5];
    ToNatSlice(y, 0, 5);
    ToNatZeroExtend(low, 32);
    assert Value(Unop(Extract(0, 5), B), x, y) == low;
    assert Value(Shamt, x, y) == ZeroExtend(low, 32);
    assert ToNat(y) / 1 == ToNat(y);
  }

  // ----- Products -----

  /** A product modulo two to the width may be taken of the signed values. */
  lemma ProductOfSigned(x: Bits, y: Bits)
    requires |x| == |y|
    ensures Apply(BinOp.Mul, x, y) == FromInt(ToInt(x) * ToInt(y), |x|)
  {
    hide Pow2, ToNat, FromNat;
    var m: int := Pow2(|x|);
    var a: int, b: int := ToNat(x), ToNat(y);
    var k: int, l: int := if Negative(x) then 1 else 0, if Negative(y) then 1 else 0;
    assert ToInt(x) == a - k * m && ToInt(y) == b - l * m;
    assert (a - k * m) * (b - l * m) == a * b + (k * l * m - k * b - l * a) * m;
    ModAddMultiple(a * b, k * l * m - k * b - l * a, m);
  }

  /** The high half of an integer's representation. */
  lemma HighHalf(i: int, v: nat, w: nat)
    ensures ToNat(FromInt(i, v + w)[v..v + w]) == i / Pow2(v) % Pow2(w)
  {
    hide Pow2, ToNat, FromInt;
    var b := FromInt(i, v + w);
    ToNatSlice(b, v, w);
    FromIntValue(i, v + w);
    HighOfMod(i, v, w);
  }

  lemma HighOfMod(i: int, v: nat, w: nat)
    ensures (i % Pow2(v + w)) / Pow2(v) % Pow2(w) == i / Pow2(v) % Pow2(w)
  {
    hide Pow2;
    Pow2Add(v, w);
    var p, q := Pow2(v), Pow2(w);
    var h, r := i / (p * q), i % (p * q);
    assert i == h * (p * q) + r;
    var h', r' := r / p, r % p;
    assert r == h' * p + r';
    assert h * (p * q) == (h * q) * p;
    assert i == (h * q + h') * p + r';
    DivModUnique(i, p, h * q + h', r');
    ModAddMultiple(h', h, q);
  }

  // ----- Arithmetic and logic -----

  lemma ShiftAmount(x: Bits, y: Bits, immediate: bool)
    requires |x| == |y| == 32 && (immediate ==> ToNat(y) < 32)
    ensures Fits(if immediate then B else Shamt) && Size(if immediate then B else Shamt) == 32
    ensures ToNat(Value(if immediate then B else Shamt, x, y)) == ToNat(y) % 32
  {
    ShamtValue(x, y);
  }

  lemma ShiftValue(op: AluOp, x: Bits, s: Bits)
    requires |x| == |s| == 32 && (op.SLL? || op.SRL? || op.SRA?)
    ensures ToNat(Apply(if op.SLL? then BinOp.Shl else if op.SRL? then BinOp.LShr else BinOp.AShr, x, s)) ==
            Shift(op, ToNat(x), ToNat(s))
  {
    hide Pow2, ToNat, FromInt;
    WordValue(x);
    var a, p := ToNat(x), Pow2(ToNat(s));
    match op
    case SLL => WordOf(a * p);
    case SRA => WordOf(ToInt(x) / p);
    case SRL =>
      WordOf(a / p);
      DivSmaller(a, p);
      DivModUnique(a / p, WORDS, 0, a / p);
  }

  lemma DivSmaller(a: nat, p: nat)
    requires p > 0
    ensures 0 <= a / p <= a
  {
    var q := a / p;
    MulNonNegative(q, p - 1);
    assert q * p == q + q * (p - 1);
  }

  lemma MulNonNegative(q: nat, p: nat)
    ensures q * p >= 0
  {
  }

  lemma BoolValue(b: bool)
    ensures ToNat(ZeroExtend(Bool(b), 32)) == if b then 1 else 0
  {
    hide ZeroExtend;
    ToNatZeroExtend(Bool(b), 32);
    assert Bool(b)[1..] == [];
  }

  lemma CompareValue(op: AluOp, x: Bits, y: Bits)
    requires |x| == |y| == 32 && (op.SLT? || op.SLTU?)
    ensures Fits(Written(AluTerm(op, false))) && AluTerm(op, true) == AluTerm(op, false)
    ensures ToNat(Value(Written(AluTerm(op, false)), x, y)) == Alu(op, ToNat(x), ToNat(y))
  {
    hide Pow2, ToNat, ZeroExtend;
    AluTermFits(op, false);
    WordValue(x);
    WordValue(y);
    var t := AluTerm(op, false);
    assert Value(t, x, y) == Bool(Compare(t.bop, x, y));
    assert Value(Written(t), x, y) == ZeroExtend(Bool(Compare(t.bop, x, y)), 32);
    BoolValue(Compare(t.bop, x, y));
  }

  lemma SumValue(op: AluOp, x: Bits, y: Bits)
    requires |x| == |y| == 32 && (op.ADD? || op.SUB?)
    ensures ToNat(Apply(AluTerm(op, false).bop, x, y)) == Alu(op, ToNat(x), ToNat(y))
  {
    hide Pow2, ToNat, FromInt, Word, Signed, BitByBit, Shift;
    WordOf(ToNat(x) + ToNat(y));
    WordOf(ToNat(x) - ToNat(y));
  }

  lemma BitwiseValue(op: AluOp, x: Bits, y: Bits)
    requires |x| == |y| == 32 && (op.XOR? || op.OR? || op.AND?)
    ensures ToNat(Apply(AluTerm(op, false).bop, x, y)) == Alu(op, ToNat(x), ToNat(y))
  {
    hide Pow2, ToNat, FromInt, Word, Signed, BitByBit, Shift;
    ZipValue(AluTerm(op, false).bop, x, y);
  }

  /** The terms of the comparisons, shifts and other operations, as they are written. */
  ghost predicate AluRight(op: AluOp, immediate: bool, x: Bits, y: Bits)
    requires |x| == |y| == 32
  {
    && Fits(Written(AluTerm(op, immediate)))
    && ToNat(Value(Written(AluTerm(op, immediate)), x, y)) == Alu(op, ToNat(x), ToNat(y))
  }

  lemma CompareRight(op: AluOp, immediate: bool, x: Bits, y: Bits)
    requires |x| == |y| == 32 && (op.SLT? || op.SLTU?)
    ensures AluRight(op, immediate, x, y)
  {
    hide Pow2, ToNat, Value, Alu, Fits;
    CompareValue(op, x, y);
  }

  lemma BinopValue(op: BinOp, l: Term, r: Term, x: Bits, y: Bits)
    requires |x| == |y| == 32 && Fits(l) && Fits(r) && Size(l) == Size(r) && !op.Concat?
    ensures Fits(Binop(op, l, r)) && Value(Binop(op, l, r), x, y) == Apply(op, Value(l, x, y), Value(r, x, y))
  {
    hide Apply;
  }

  lemma PlainValue(op: BinOp, x: Bits, y: Bits)
    requires |x| == |y| == 32 && !op.Concat?
    ensures Fits(Binop(op, A, B)) && Value(Binop(op, A, B), x, y) == Apply(op, x, y)
  {
    hide Apply;
  }

  lemma PlainRight(op: AluOp, immediate: bool, x: Bits, y: Bits)
    requires |x| == |y| == 32 && (op.ADD? || op.SUB? || op.XOR? || op.OR? || op.AND?)
    ensures AluRight(op, immediate, x, y)
  {
    hide Pow2, ToNat, Apply, Alu, Fits, Value, Size;
    var t := AluTerm(op, immediate);
    OperandsFit();
    BinopFits(t.bop, A, B);
    PlainValue(t.bop, x, y);
    assert Written(t) == t == AluTerm(op, false);
    if op.ADD? || op.SUB? {
      SumValue(op, x, y);
    } else {
      BitwiseValue(op, x, y);
    }
  }

  lemma ShiftRight(op: AluOp, immediate: bool, x: Bits, y: Bits)
    requires |x| == |y| == 32 && (op.SLL? || op.SRL? || op.SRA?) && (immediate ==> ToNat(y) < 32)
    ensures AluRight(op, immediate, x, y)
  {
    hide Pow2, ToNat, Apply, Shift, Fits, Size;
    var amount := if immediate then B else Shamt;
    var t := AluTerm(op, immediate);
    OperandsFit();
    BinopFits(t.bop, A, amount);
    BinopValue(t.bop, A, amount, x, y);
    ShiftAmount(x, y, immediate);
    hide Value;
    ShiftValue(op, x, Value(amount, x, y));
    ShiftIsMod(op, ToNat(x), ToNat(y));
  }

  lemma ShiftIsMod(op: AluOp, a: nat, b: nat)
    requires op.SLL? || op.SRL? || op.SRA?
    ensures Alu(op, a, b) == Shift(op, a, b % 32)
  {
  }

  /** Every register-register and register-immediate instruction. */
  lemma AluValue(op: AluOp, immediate: bool, x: Bits, y: Bits)
    requires |x| == |y| == 32
    requires immediate && (op.SLL? || op.SRL? || op.SRA?) ==> ToNat(y) < 32
    ensures Fits(Written(AluTerm(op, immediate)))
    ensures ToNat(Value(Written(AluTerm(op, immediate)), x, y)) == Alu(op, ToNat(x), ToNat(y))
  {
    hide Pow2, ToNat, Value, Alu, Fits, Written, AluTerm;
    if op.SLT? || op.SLTU? {
      CompareRight(op, immediate, x, y);
    } else if op.SLL? || op.SRL? || op.SRA? {
      ShiftRight(op, immediate, x, y);
    } else {
      PlainRight(op, immediate, x, y);
    }
  }

  lemma ComparisonValue(op: BinOp, x: Bits, y: Bits)
    requires |x| == |y| == 32 && op.Comparison()
    ensures Fits(Binop(op, A, B)) && Size(Binop(op, A, B)) == 1 &&
            Value(Binop(op, A, B), x, y) == Bool(Compare(op, x, y))
  {
    hide Compare;
  }

  lemma TakenCompares(op: BranchOp, x: Bits, y: Bits)
    requires |x| == |y| == 32
    ensures BranchTerm(op).bop.Comparison() && Compare(BranchTerm(op).bop, x, y) == Taken(op, ToNat(x), ToNat(y))
  {
    hide Pow2, ToNat, ToInt, Signed;
    WordValue(x);
    WordValue(y);
    if ToNat(x) == ToNat(y) {
      ToNatInjective(x, y);
    }
  }

  lemma BranchValue(op: BranchOp, x: Bits, y: Bits)
    requires |x| == |y| == 32
    ensures Fits(BranchTerm(op)) && Size(BranchTerm(op)) == 1
    ensures Value(BranchTerm(op), x, y) == Bool(Taken(op, ToNat(x), ToNat(y)))
  {
    hide ToNat, Value, Fits, Size, Compare, Taken;
    TakenCompares(op, x, y);
    ComparisonValue(BranchTerm(op).bop, x, y);
  }

  // ----- Multiplication -----

  lemma ZeroExtendedIsPositive(x: Bits)
    requires |x| == 32
    ensures ToInt(ZeroExtend(x, 64)) == ToNat(x)
  {
    hide Pow2, ToNat;
    ToNatZeroExtend(x, 64);
    assert !Negative(ZeroExtend(x, 64));
  }

  /** The operands of a product of 64 bits, sign- or zero-extended. */
  lemma ProductValue(signedA: bool, signedB: bool, x: Bits, y: Bits)
    requires |x| == |y| == 32
    ensures var a := if signedA then SignExtend(x, 64) else ZeroExtend(x, 64);
            var b := if signedB then SignExtend(y, 64) else ZeroExtend(y, 64);
            var p := if signedA then Signed(ToNat(x)) else ToNat(x);
            var q := if signedB then Signed(ToNat(y)) else ToNat(y);
            Apply(BinOp.Mul, a, b) == FromInt(p * q, 64)
  {
    hide Pow2, ToNat, Apply, FromInt, SignExtend, ZeroExtend;
    var a := if signedA then SignExtend(x, 64) else ZeroExtend(x, 64);
    var b := if signedB then SignExtend(y, 64) else ZeroExtend(y, 64);
    ProductOfSigned(a, b);
    WordValue(x);
    WordValue(y);
    ToIntSignExtend(x, 64);
    ToIntSignExtend(y, 64);
    ZeroExtendedIsPositive(x);
    ZeroExtendedIsPositive(y);
  }

  lemma LowProduct(x: Bits, y: Bits)
    requires |x| == |y| == 32
    ensures Word(Signed(ToNat(x)) * Signed(ToNat(y))) == Word(ToNat(x) * ToNat(y))
  {
    hide Pow2, ToNat, FromInt;
    WordValue(x);
    WordValue(y);
    ProductOfSigned(x, y);
    WordOf(ToInt(x) * ToInt(y));
    WordOf(ToNat(x) * ToNat(y));
  }

  lemma MulValue(op: MulOp, x: Bits, y: Bits)
    requires |x| == |y| == 32
    ensures Fits(MulTerm(op)) && ToNat(Value(MulTerm(op), x, y)) == Product(op, ToNat(x), ToNat(y))
  {
    hide Pow2, ToNat, Apply, FromInt, SignExtend, ZeroExtend;
    MulTermFits(op);
    Pow2Values();
    var sa, sb := !op.MULHU?, op.MUL? || op.MULH?;
    ProductValue(sa, sb, x, y);
    var i := (if sa then Signed(ToNat(x)) else ToNat(x)) * (if sb then Signed(ToNat(y)) else ToNat(y));
    var m := MulTerm(op).src;
    assert Value(m.left, x, y) == if sa then SignExtend(x, 64) else ZeroExtend(x, 64);
    assert Value(m.right, x, y) == if sb then SignExtend(y, 64) else ZeroExtend(y, 64);
    assert Value(m, x, y) == FromInt(i, 64);
    if op.MUL? {
      FromIntTruncate(i, 32, 64);
      assert Value(MulTerm(op), x, y) == FromInt(i, 64)[0..0 + 32] == FromInt(i, 64)[..32];
      WordOf(i);
      LowProduct(x, y);
    } else {
      assert Value(MulTerm(op), x, y) == FromInt(i, 64)[32..32 + 32];
      HighHalf(i, 32, 32);
    }
  }

  // ----- Division -----

  lemma OverflowValue(x: Bits, y: Bits)
    requires |x| == |y| == 32
    ensures Fits(Overflow) && Size(Overflow) == 1
    ensures Value(Overflow, x, y) == TRUE <==> ToNat(x) == 0x8000_0000 && ToNat(y) == 0xFFFF_FFFF
  {
    hide Pow2, ToNat, FromNat;
    OverflowFits();
    var min, ones := FromNat(0x8000_0000, 32), FromNat(0xFFFF_FFFF, 32);
    SmallNat(0x8000_0000);
    SmallNat(0xFFFF_FFFF);
    EqualNat(x, min);
    EqualNat(y, ones);
    EqualTerm(A, min, x, y);
    EqualTerm(B, ones, x, y);
    AndTerm(Overflow.left, Overflow.right, x == min, y == ones, x, y);
  }

  lemma EqualTerm(t: Term, c: Bits, x: Bits, y: Bits)
    requires |x| == |y| == |c| == 32 && (t.A? || t.B?)
    ensures Fits(Binop(BinOp.Eq, t, Lit(c)))
    ensures Value(Binop(BinOp.Eq, t, Lit(c)), x, y) == Bool((if t.A? then x else y) == c)
  {
    OperandsFit();
    LiteralValue(c, x, y);
    hide Fits, Size, FromInt, ToNat, ToInt;
    BinopValue(BinOp.Eq, t, Lit(c), x, y);
  }

  lemma LiteralValue(c: Bits, x: Bits, y: Bits)
    requires |x| == |y| == |c| == 32
    ensures Fits(Lit(c)) && Size(Lit(c)) == 32 && Value(Lit(c), x, y) == c
  {
  }

  lemma AndTerm(l: Term, r: Term, p: bool, q: bool, x: Bits, y: Bits)
    requires |x| == |y| == 32 && Fits(l) && Fits(r) && Size(l) == Size(r) == 1
    requires Value(l, x, y) == Bool(p) && Value(r, x, y) == Bool(q)
    ensures Fits(Binop(BinOp.And, l, r)) && (Value(Binop(BinOp.And, l, r), x, y) == TRUE <==> p && q)
  {
    var v := Value(Binop(BinOp.And, l, r), x, y);
    assert v == [p && q];
    assert v == TRUE <==> v[0] == TRUE[0];
  }

  lemma EqualNat(x: Bits, y: Bits)
    requires |x| == |y|
    ensures x == y <==> ToNat(x) == ToNat(y)
  {
    if ToNat(x) == ToNat(y) {
      ToNatInjective(x, y);
    }
  }

  lemma ZeroValue(x: Bits, y: Bits)
    requires |x| == |y| == 32
    ensures Fits(IsZero) && Size(IsZero) == 1 && Value(IsZero, x, y) == Bool(ToNat(y) == 0)
  {
    hide Pow2, ToNat, FromNat;
    DivTermFits(DIV);
    SmallNat(0);
    EqualNat(y, FromNat(0, 32));
  }

  lemma SignedQuotient(x: Bits, y: Bits)
    requires |x| == |y| == 32 && ToNat(y) != 0
    ensures ToNat(Apply(BinOp.SDiv, x, y)) == Quotient(DIV, ToNat(x), ToNat(y))
    ensures ToNat(Apply(BinOp.SRem, x, y)) == Quotient(REM, ToNat(x), ToNat(y))
  {
    hide Pow2, ToNat, FromInt, TruncDiv, TruncRem, ToInt, Signed, Word;
    NonZeroDivisor(y);
    WordValue(x);
    var i, j := ToInt(x), ToInt(y);
    WordOf(TruncDiv(i, j));
    WordOf(TruncRem(i, j));
    assert Apply(BinOp.SDiv, x, y) == FromInt(TruncDiv(i, j), 32);
    assert Apply(BinOp.SRem, x, y) == FromInt(TruncRem(i, j), 32);
  }

  lemma NonZeroDivisor(y: Bits)
    requires |y| == 32 && ToNat(y) != 0
    ensures ToInt(y) != 0 && SignedNonZero(ToNat(y)) == ToInt(y)
  {
    hide Pow2, ToNat;
    WordValue(y);
  }

  lemma UnsignedQuotient(x: Bits, y: Bits)
    requires |x| == |y| == 32 && ToNat(y) != 0
    ensures ToNat(Apply(BinOp.UDiv, x, y)) == ToNat(x) / ToNat(y)
    ensures ToNat(Apply(BinOp.URem, x, y)) == ToNat(x) % ToNat(y)
  {
    hide Pow2, ToNat, FromInt, ToInt;
    WordValue(x);
    WordValue(y);
    var a, b := ToNat(x), ToNat(y);
    SmallerThanWords(a, b);
    WordOf(a / b);
    WordOf(a % b);
    assert Apply(BinOp.UDiv, x, y) == FromInt(a / b, 32);
    assert Apply(BinOp.URem, x, y) == FromInt(a % b, 32);
  }

  lemma SmallerThanWords(a: nat, b: nat)
    requires a < WORDS && 0 < b < WORDS
    ensures Word(a / b) == a / b && Word(a % b) == a % b
  {
    DivSmaller(a, b);
    DivModUnique(a / b, WORDS, 0, a / b);
    DivModUnique(a % b, WORDS, 0, a % b);
  }

  /** The smallest number divided by minus one. */
  lemma OverflowingQuotient(x: Bits, y: Bits)
    requires |x| == |y| == 32 && ToNat(x) == 0x8000_0000 && ToNat(y) == 0xFFFF_FFFF
    ensures Quotient(DIV, ToNat(x), ToNat(y)) == ToNat(x) && Quotient(REM, ToNat(x), ToNat(y)) == 0
  {
    assert TruncDiv(-0x8000_0000, -1) == 0x8000_0000 && TruncRem(-0x8000_0000, -1) == 0;
  }

  lemma SelectValueIs(c: Term, t: Term, f: Term, x: Bits, y: Bits)
    requires |x| == |y| == 32 && Fits(Sel(c, t, f))
    ensures Fits(c) && Fits(t) && Fits(f)
    ensures Value(Sel(c, t, f), x, y) == if Value(c, x, y) == TRUE then Value(t, x, y) else Value(f, x, y)
  {
  }

  lemma SignedTerms(op: DivOp, x: Bits, y: Bits)
    requires |x| == |y| == 32 && ToNat(y) != 0 && (op.DIV? || op.REM?)
    ensures Fits(DivTerm(op)) && ToNat(Value(DivTerm(op), x, y)) == Quotient(op, ToNat(x), ToNat(y))
  {
    hide Pow2, ToNat, Apply, FromNat, ToInt, Fits, Quotient;
    DivTermFits(op);
    OverflowValue(x, y);
    var t := DivTerm(op);
    SelectValueIs(t.cond, t.then_, t.else_, x, y);
    PlainValue(t.else_.bop, x, y);
    SignedQuotient(x, y);
    SmallNat(0);
    if ToNat(x) == 0x8000_0000 && ToNat(y) == 0xFFFF_FFFF {
      OverflowingQuotient(x, y);
    }
  }

  lemma UnsignedTerms(op: DivOp, x: Bits, y: Bits)
    requires |x| == |y| == 32 && ToNat(y) != 0 && (op.DIVU? || op.REMU?)
    ensures Fits(DivTerm(op)) && ToNat(Value(DivTerm(op), x, y)) == Quotient(op, ToNat(x), ToNat(y))
  {
    hide Pow2, ToNat, Apply, ToInt, Fits, Value;
    PlainValue(DivTerm(op).bop, x, y);
    UnsignedQuotient(x, y);
  }

  lemma ZeroTerms(op: DivOp, x: Bits, y: Bits)
    requires |x| == |y| == 32 && ToNat(y) == 0
    ensures Fits(DivByZeroTerm(op)) && ToNat(Value(DivByZeroTerm(op), x, y)) == Quotient(op, ToNat(x), ToNat(y))
  {
    hide Pow2, ToNat, FromNat;
    SmallNat(0xFFFF_FFFF);
  }

  lemma DivValue(op: DivOp, x: Bits, y: Bits)
    requires |x| == |y| == 32
    ensures Fits(DivTerm(op)) && Fits(DivByZeroTerm(op))
    ensures ToNat(Value(if ToNat(y) == 0 then DivByZeroTerm(op) else DivTerm(op), x, y)) ==
            Quotient(op, ToNat(x), ToNat(y))
  {
    hide Pow2, ToNat, Fits, Value, Quotient, DivTerm, DivByZeroTerm;
    DivTermFits(op);
    if ToNat(y) == 0 {
      ZeroTerms(op, x, y);
    } else if op.DIV? || op.REM? {
      SignedTerms(op, x, y);
    } else {
      UnsignedTerms(op, x, y);
    }
  }
}
