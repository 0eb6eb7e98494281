/** Bit vectors of arbitrary width, as KLEE's `ConstantExpr` holds them: a sequence of bits,
    least significant bit first, read as an unsigned or a two's-complement number. */
module BitVectors {

  type Bits = seq<bool>

  const TRUE: Bits := [true]
  const FALSE: Bits := [false]

  function Bool(b: bool): Bits {
    [b]
  }

  function Pow2(n: nat): (r: nat)
    ensures r > 0
  {
    if n == 0 then 1 else 2 * Pow2(n - 1)
  }

  function ToNat(b: Bits): nat {
    if b == [] then 0 else (if b[0] then 1 else 0) + 2 * ToNat(b[1..])
  }

  function FromNat(n: nat, w: nat): (r: Bits)
    ensures |r| == w
  {
    if w == 0 then [] else [n % 2 == 1] + FromNat(n / 2, w - 1)
  }

  /** The low `w` bits of the two's-complement representation of `i`. */
  function FromInt(i: int, w: nat): (r: Bits)
    ensures |r| == w
  {
    FromNat(i % Pow2(w), w)
  }

  predicate Negative(b: Bits) {
    b != [] && b[|b| - 1]
  }

  function ToInt(b: Bits): int {
    if Negative(b) then ToNat(b) - Pow2(|b|) else ToNat(b)
  }

  function Repeat(v: bool, n: nat): (r: Bits)
    ensures |r| == n
    ensures forall i :: 0 <= i < n ==> r[i] == v
  {
    seq(n, i => v)
  }

  /** Zero extension; a smaller width truncates. */
  function ZeroExtend(b: Bits, w: nat): (r: Bits)
    ensures |r| == w
  {
    if w <= |b| then b[..w] else b + Repeat(false, w - |b|)
  }

  /** Sign extension; a smaller width truncates. */
  function SignExtend(b: Bits, w: nat): (r: Bits)
    ensures |r| == w
  {
    if w <= |b| then b[..w] else b + Repeat(Negative(b), w - |b|)
  }

  function Complement(b: Bits): (r: Bits)
    ensures |r| == |b|
  {
    seq(|b|, i requires 0 <= i < |b| => !b[i])
  }

  function Zip(f: (bool, bool) -> bool, a: Bits, b: Bits): (r: Bits)
    requires |a| == |b|
    ensures |r| == |a|
  {
    seq(|a|, i requires 0 <= i < |a| => f(a[i], b[i]))
  }

  // ----- Arithmetic of powers of two -----

  lemma Pow2Add(m: nat, n: nat)
    ensures Pow2(m + n) == Pow2(m) * Pow2(n)
  {
    if m > 0 {
      Pow2Add(m - 1, n);
      assert Pow2(m + n) == 2 * Pow2(m - 1 + n);
    }
  }

  lemma Pow2Monotone(m: nat, n: nat)
    requires m <= n
    ensures Pow2(m) <= Pow2(n)
  {
    if m < n {
      Pow2Monotone(m, n - 1);
    }
  }

  lemma {:induction false} MulAtLeast(k: int, d: int)
    requires k >= 1 && d > 0
    ensures k * d >= d
  {
    assert (k - 1) * d >= 0;
  }

  /** Splitting `n` at `d` is unique: the one non-linear fact the other proofs rest on. */
  lemma {:induction false} DivModUnique(n: int, d: int, q: int, r: int)
    requires d > 0 && 0 <= r < d && n == q * d + r
    ensures n / d == q && n % d == r
  {
    var k := n / d - q;
    assert k * d == (n / d) * d - q * d == r - n % d;
    if k >= 1 {
      MulAtLeast(k, d);
    } else if k <= -1 {
      MulAtLeast(-k, d);

    }
  }

  lemma {:induction false} ModAddMultiple(n: int, k: int, d: int)
    requires d > 0
    ensures (n + k * d) % d == n % d
  {
    var q, r := n / d, n % d;
    assert (q + k) * d == q * d + k * d;
    DivModUnique(n + k * d, d, q + k, r);
  }

  /** Taking `n` modulo `2 * m` keeps its parity and takes its half modulo `m`. */
  lemma {:induction false} ModDouble(n: nat, m: nat)
    requires m > 0
    ensures n % (2 * m) == n % 2 + 2 * (n / 2 % m)
  {
    var h := n / 2;
    assert n == 2 * h + n % 2;
    var q, r := h / m, h % m;
    assert h == q * m + r;
    assert 2 * (q * m) == q * (2 * m);
    DivModUnique(n, 2 * m, q, n % 2 + 2 * r);
  }

  // ----- Bit vectors against numbers -----

  lemma ToNatBound(b: Bits)
    ensures ToNat(b) < Pow2(|b|)
  {
    if b != [] {
      ToNatBound(b[1..]);
    }
  }

  lemma {:induction false} ToFromNat(n: nat, w: nat)
    ensures ToNat(FromNat(n, w)) == n % Pow2(w)
  {
    if w > 0 {
      ToFromNat(n / 2, w - 1);
      assert FromNat(n, w)[1..] == FromNat(n / 2, w - 1);
      ModDouble(n, Pow2(w - 1));
    }
  }

  lemma {:induction false} FromToNat(b: Bits)
    ensures FromNat(ToNat(b), |b|) == b
  {
    if b != [] {
      FromToNat(b[1..]);
      assert b == [b[0]] + b[1..];
    }
  }

  lemma {:induction false} ToNatInjective(a: Bits, b: Bits)
    requires |a| == |b| && ToNat(a) == ToNat(b)
    ensures a == b
  {
    FromToNat(a);
    FromToNat(b);
  }

  lemma {:induction false} ToNatConcat(lo: Bits, hi: Bits)
    ensures ToNat(lo + hi) == ToNat(lo) + Pow2(|lo|) * ToNat(hi)
  {
    if lo == [] {
      assert lo + hi == hi;
    } else {
      ToNatConcat(lo[1..], hi);
      assert (lo + hi)[1..] == lo[1..] + hi;
      assert 2 * (Pow2(|lo| - 1) * ToNat(hi)) == Pow2(|lo|) * ToNat(hi);
    }
  }

  /** A slice is a shift followed by a truncation. */
  lemma {:induction false} ToNatSlice(b: Bits, off: nat, w: nat)
    requires off + w <= |b|
    ensures ToNat(b[off..off + w]) == ToNat(b) / Pow2(off) % Pow2(w)
  {
    hide ToNat, Pow2;
    var lo, mid, hi := b[..off], b[off..off + w], b[off + w..];
    assert b == lo + (mid + hi);
    ToNatConcat(lo, mid + hi);
    ToNatConcat(mid, hi);
    ToNatBound(lo);
    ToNatBound(mid);
    var rest := ToNat(mid + hi);
    assert Pow2(off) * rest == rest * Pow2(off);
    DivModUnique(ToNat(b), Pow2(off), rest, ToNat(lo));
    assert Pow2(w) * ToNat(hi) == ToNat(hi) * Pow2(w);
    DivModUnique(rest, Pow2(w), ToNat(hi), ToNat(mid));
  }

  lemma ToNatZeros(n: nat)
    ensures ToNat(Repeat(false, n)) == 0
  {
    if n > 0 {
      assert Repeat(false, n)[1..] == Repeat(false, n - 1);
      ToNatZeros(n - 1);
    }
  }

  lemma ToNatOnes(n: nat)
    ensures ToNat(Repeat(true, n)) == Pow2(n) - 1
  {
    if n > 0 {
      assert Repeat(true, n)[1..] == Repeat(true, n - 1);
      ToNatOnes(n - 1);
    }
  }

  lemma {:induction false} ToNatZeroExtend(b: Bits, w: nat)
    requires |b| <= w
    ensures ToNat(ZeroExtend(b, w)) == ToNat(b)
  {
    if |b| < w {
      ToNatConcat(b, Repeat(false, w - |b|));
      ToNatZeros(w - |b|);
    } else {
      assert b[..w] == b;
    }
  }

  lemma {:induction false} ToIntSignExtend(b: Bits, w: nat)
    requires 0 < |b| <= w
    ensures ToInt(SignExtend(b, w)) == ToInt(b)
  {
    hide ToNat, Pow2;
    if |b| == w {
      assert b[..w] == b;
    } else {
      var n := w - |b|;
      var p, q := Pow2(|b|), Pow2(n);
      ToNatConcat(b, Repeat(Negative(b), n));
      Pow2Add(|b|, n);
      if Negative(b) {
        ToNatOnes(n);
        assert p * (q - 1) == p * q - p;
      } else {
        ToNatZeros(n);
      }
    }
  }

  /** Signed and unsigned readings agree modulo two to the width. */
  lemma {:induction false} ToIntMod(b: Bits)
    ensures ToInt(b) % Pow2(|b|) == ToNat(b)
  {
    ToNatBound(b);
    if Negative(b) {
      DivModUnique(ToInt(b), Pow2(|b|), -1, ToNat(b));
    } else {
      DivModUnique(ToInt(b), Pow2(|b|), 0, ToNat(b));
    }
  }

  lemma {:induction false} NegativeIff(b: Bits)
    requires |b| > 0
    ensures Negative(b) <==> ToNat(b) >= Pow2(|b| - 1)
  {
    var n := |b| - 1;
    assert b == b[..n] + b[n..];
    ToNatConcat(b[..n], b[n..]);
    ToNatBound(b[..n]);
    assert b[n..] == [b[n]];
    assert ToNat([b[n]]) == if b[n] then 1 else 0;
  }

  /** The low `v` bits of a number only depend on it modulo two to any wider width. */
  lemma {:induction false} ModPow2(i: int, v: nat, w: nat)
    requires v <= w
    ensures i % Pow2(w) % Pow2(v) == i % Pow2(v)
  {
    hide Pow2;
    Pow2Add(v, w - v);
    var q, r := i / Pow2(w), i % Pow2(w);
    assert i == r + (q * Pow2(w - v)) * Pow2(v);
    ModAddMultiple(r, q * Pow2(w - v), Pow2(v));
  }

  /** Truncating the representation of an integer keeps its low bits. */
  lemma {:induction false} FromIntTruncate(i: int, v: nat, w: nat)
    requires v <= w
    ensures FromInt(i, w)[..v] == FromInt(i, v)
  {
    var b := FromInt(i, w);
    ToNatSlice(b, 0, v);
    assert b[0..0 + v] == b[..v];
    ToFromNat(i % Pow2(w), w);
    ToFromNat(i % Pow2(v), v);
    ModPow2(i, w, w);
    ModPow2(i, v, v);
    ModPow2(i, v, w);
    assert ToNat(b) / Pow2(0) == ToNat(b);
    ToNatInjective(b[..v], FromInt(i, v));
  }
}
