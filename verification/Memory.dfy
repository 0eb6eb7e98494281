/** clover's concolic memory: a map from addresses to concolic bytes, read and written in
    little-endian groups. */
module Memory {
  import opened BitVectors
  import opened Expr
  import opened Concolic

  /** Addresses are 32-bit and wrap around. */
  const ADDRESSES: nat := 0x1_0000_0000

  type Data = map<nat, Concolic>

  predicate Bytes(data: Data) {
    forall a :: a in data ==> data[a].Valid() && |data[a].concrete| == 8
  }

  /** The byte at an address under an assignment; memory never written reads as zero. */
  function ByteAt(data: Data, a: nat, env: Env): (r: Bits)
    requires Bytes(data)
    ensures |r| == 8
  {
    if a in data then data[a].Meaning(env) else Repeat(false, 8)
  }

  /** `n` bytes from `addr` on, the first one least significant. */
  function Loaded(data: Data, addr: nat, n: nat, env: Env): (r: Bits)
    requires Bytes(data)
    ensures |r| == 8 * n
  {
    if n == 0 then [] else Loaded(data, addr, n - 1, env) + ByteAt(data, (addr + n - 1) % ADDRESSES, env)
  }

  function Widened(v: Concolic, n: nat): (r: Concolic)
    requires v.Valid() && n > 0
    ensures r.Valid() && |r.concrete| >= 8 * n
  {
    if |v.concrete| < 8 * n then Unary(UnOp.ZExt(8 * n), v) else v
  }

  /** The memory after the first `n` bytes of a wide enough value were stored. */
  function Stored(data: Data, addr: nat, v: Concolic, n: nat): (r: Data)
    requires Bytes(data) && v.Valid() && |v.concrete| >= 8 * n
    ensures Bytes(r)
  {
    if n == 0 then data
    else Stored(data, addr, v, n - 1)[(addr + n - 1) % ADDRESSES := Unary(Extract(8 * (n - 1), 8), v)]
  }

  /** How far `a` lies beyond `addr`. */
  function Offset(addr: nat, a: nat): nat {
    (a - addr) % ADDRESSES
  }

  lemma OffsetIs(addr: nat, a: nat, off: nat)
    requires addr < ADDRESSES && a < ADDRESSES && off < ADDRESSES
    ensures Offset(addr, a) == off <==> a == (addr + off) % ADDRESSES
  {
  }

  /** The byte that `n` stored bytes of a value with the bits `v` leave at a distance `off`. */
  function ByteOf(v: Bits, off: nat): (r: Bits)
    requires 8 * off + 8 <= |v|
    ensures |r| == 8
  {
    v[8 * off..8 * off + 8]
  }

  /** Under every assignment, a store changes exactly the bytes within its reach. */
  lemma {:induction false} StoredByteAt(data: Data, addr: nat, v: Concolic, n: nat, a: nat, env: Env)
    requires Bytes(data) && v.Valid() && |v.concrete| >= 8 * n && addr < ADDRESSES && a < ADDRESSES && n < ADDRESSES
    ensures ByteAt(Stored(data, addr, v, n), a, env)
            == if Offset(addr, a) < n then ByteOf(v.Meaning(env), Offset(addr, a)) else ByteAt(data, a, env)
  {
    hide Eval, WellFormed, Width;
    if n > 0 {
      StoredByteAt(data, addr, v, n - 1, a, env);
      OffsetIs(addr, a, n - 1);
      UnaryMeaning(Extract(8 * (n - 1), 8), v, env);
    }
  }

  /** A load gets each byte of its result from its own address. */
  lemma {:induction false} LoadedByte(data: Data, addr: nat, n: nat, env: Env, off: nat)
    requires Bytes(data) && off < n
    ensures ByteOf(Loaded(data, addr, n, env), off) == ByteAt(data, (addr + off) % ADDRESSES, env)
  {
    if off < n - 1 {
      LoadedByte(data, addr, n - 1, env, off);
      assert ByteOf(Loaded(data, addr, n, env), off) == ByteOf(Loaded(data, addr, n - 1, env), off);
    }
  }

  lemma {:induction false} BytesDetermine(a: Bits, b: Bits, n: nat)
    requires |a| == |b| == 8 * n
    requires forall off :: 0 <= off < n ==> ByteOf(a, off) == ByteOf(b, off)
    ensures a == b
  {
    forall i | 0 <= i < |a|
      ensures a[i] == b[i]
    {
      var off := i / 8;
      assert ByteOf(a, off)[i - 8 * off] == ByteOf(b, off)[i - 8 * off];
    }
  }

  lemma WidenedMeaning(v: Concolic, n: nat, env: Env)
    requires v.Valid() && n > 0
    ensures Widened(v, n).Meaning(env)[..8 * n] == ZeroExtend(v.Meaning(env), 8 * n)
  {
    hide Eval, WellFormed, Width;
    if |v.concrete| < 8 * n {
      UnaryMeaning(UnOp.ZExt(8 * n), v, env);
      assert Widened(v, n).Meaning(env) == ZeroExtend(v.Meaning(env), 8 * n);
    }
  }

  /** What was stored is loaded: the low bits of the value, with zeros above it. */
  lemma LoadAfterStore(data: Data, addr: nat, v: Concolic, n: nat, env: Env)
    requires Bytes(data) && v.Valid() && addr < ADDRESSES && 0 < n < ADDRESSES
    ensures Loaded(Stored(data, addr, Widened(v, n), n), addr, n, env) == ZeroExtend(v.Meaning(env), 8 * n)
  {
    hide Eval, WellFormed, Width, Stored, Loaded, Widened, ByteAt;
    var w := Widened(v, n);
    var m := Stored(data, addr, w, n);
    var low := w.Meaning(env)[..8 * n];
    WidenedMeaning(v, n, env);
    forall off | 0 <= off < n
      ensures ByteOf(Loaded(m, addr, n, env), off) == ByteOf(low, off)
    {
      LoadedByte(m, addr, n, env, off);
      OffsetIs(addr, (addr + off) % ADDRESSES, off);
      StoredByteAt(data, addr, w, n, (addr + off) % ADDRESSES, env);
      assert ByteOf(low, off) == ByteOf(w.Meaning(env), off);
    }
    BytesDetermine(Loaded(m, addr, n, env), low, n);
  }

  // ----- Histories of stores -----

  datatype StoreOp = StoreOp(addr: nat, value: Concolic, bytesize: nat)
  {
    predicate Valid() {
      value.Valid() && addr < ADDRESSES && 0 < bytesize < ADDRESSES
    }
  }

  function AfterStores(data: Data, ops: seq<StoreOp>): (r: Data)
    requires Bytes(data) && forall i :: 0 <= i < |ops| ==> ops[i].Valid()
    ensures Bytes(r)
  {
    if ops == [] then data
    else
      var op := ops[|ops| - 1];
      assert op.Valid();
      Stored(AfterStores(data, ops[..|ops| - 1]), op.addr, Widened(op.value, op.bytesize), op.bytesize)
  }

  /** The last store of the history that reaches `a`, if any. */
  function LastReaching(ops: seq<StoreOp>, a: nat): (r: Option<nat>)
    ensures r.Some? ==> r.value < |ops| && Offset(ops[r.value].addr, a) < ops[r.value].bytesize
    ensures forall i :: (if r.Some? then r.value + 1 else 0) <= i < |ops| ==> Offset(ops[i].addr, a) >= ops[i].bytesize
  {
    if ops == [] then None
    else
      var n := |ops| - 1;
      if Offset(ops[n].addr, a) < ops[n].bytesize then Some(n) else LastReaching(ops[..n], a)
  }

  /** After any sequence of stores, of any sizes and however they overlap, each byte of memory
      is the byte of the most recent store that reached it. */
  lemma {:induction false} MostRecentByte(data: Data, ops: seq<StoreOp>, a: nat, env: Env)
    requires Bytes(data) && a < ADDRESSES && forall i :: 0 <= i < |ops| ==> ops[i].Valid()
    ensures ByteAt(AfterStores(data, ops), a, env)
            == match LastReaching(ops, a)
               case None => ByteAt(data, a, env)
               case Some(i) => ByteOf(Widened(ops[i].value, ops[i].bytesize).Meaning(env), Offset(ops[i].addr, a))
  {
    hide Eval, WellFormed, Width, Stored, ByteAt, ByteOf, Offset, Widened;
    if ops != [] {
      var n := |ops| - 1;
      var op := ops[n];
      assert op.Valid();
      MostRecentByte(data, ops[..n], a, env);
      StoredByteAt(AfterStores(data, ops[..n]), op.addr, Widened(op.value, op.bytesize), op.bytesize, a, env);
    }
  }

  // ----- The memory object -----

  predicate Instances(data: Data, env: Env) {
    forall a :: a in data ==> data[a].Instance(env)
  }

  /** The value of a byte; memory never written holds zeros. */
  function ByteValue(data: Data, a: nat): (r: Concolic)
    requires Bytes(data)
    ensures r.Valid() && |r.concrete| == 8
  {
    if a in data then data[a] else Constant(Repeat(false, 8))
  }

  /** The value that is loaded: bytes concatenated, the first one least significant. */
  function LoadValue(data: Data, addr: nat, n: nat): (r: Concolic)
    requires Bytes(data) && n > 0
    ensures r.Valid() && |r.concrete| == 8 * n
  {
    var byte := ByteValue(data, (addr + n - 1) % ADDRESSES);
    if n == 1 then byte else Binary(BinOp.Concat, byte, LoadValue(data, addr, n - 1))
  }

  lemma {:induction false} LoadValueMeaning(data: Data, addr: nat, n: nat, env: Env)
    requires Bytes(data) && n > 0
    ensures LoadValue(data, addr, n).Meaning(env) == Loaded(data, addr, n, env)
    ensures Instances(data, env) ==> LoadValue(data, addr, n).Instance(env)
  {
    hide Eval, WellFormed, Width;
    var byte := ByteValue(data, (addr + n - 1) % ADDRESSES);
    ByteValueMeaning(data, (addr + n - 1) % ADDRESSES, env);
    if n == 1 {
      assert Loaded(data, addr, 1, env) == [] + ByteAt(data, addr % ADDRESSES, env);
    } else {
      LoadValueMeaning(data, addr, n - 1, env);
      BinaryMeaning(BinOp.Concat, byte, LoadValue(data, addr, n - 1), env);
      if Instances(data, env) {
        BinaryInstance(BinOp.Concat, byte, LoadValue(data, addr, n - 1), env);
      }
    }
  }

  lemma ByteValueMeaning(data: Data, a: nat, env: Env)
    requires Bytes(data)
    ensures ByteValue(data, a).Meaning(env) == ByteAt(data, a, env)
    ensures Instances(data, env) ==> ByteValue(data, a).Instance(env)
  {
  }

  /** Under every assignment the value is that of the byte map, and its constant is right for the inputs of the
      run. */
  ghost predicate IsLoaded(v: Concolic, data: Data, addr: nat, n: nat)
    requires Bytes(data)
  {
    && v.Valid()
    && (forall env: Env :: v.Meaning(env) == Loaded(data, addr, n, env))
    && (forall env: Env :: Instances(data, env) ==> v.Instance(env))
  }

  class ConcolicMemory {
    var data: Data

    predicate Valid()
      reads this
    {
      Bytes(data)
    }

    constructor ()
      ensures Valid() && data == map[]
    {
      data := map[];
    }

    method Reset()
      modifies this
      ensures Valid() && data == map[]
    {
      data := map[];
    }

    /** `ConcolicMemory::load`: nothing for no bytes; otherwise, under every assignment, the
        bytes at the addresses from `addr` on. */
    method Load(addr: nat, bytesize: nat) returns (r: Option<Concolic>)
      requires Valid() && addr < ADDRESSES
      ensures r == if bytesize == 0 then None else Some(LoadValue(data, addr, bytesize))
      ensures r.Some? ==> IsLoaded(r.value, data, addr, bytesize)
    {
      hide Loaded, Eval, WellFormed, Width;
      r := None;
      for off := 0 to bytesize
        invariant r == if off == 0 then None else Some(LoadValue(data, addr, off))
      {
        var read_addr := (addr + off) % ADDRESSES;
        var byte := if read_addr in data then data[read_addr] else Constant(Repeat(false, 8));
        r := Some(if r.None? then byte else Binary(BinOp.Concat, byte, r.value));
      }
      if bytesize > 0 {
        forall env: Env
          ensures r.value.Meaning(env) == Loaded(data, addr, bytesize, env)
          ensures Instances(data, env) ==> r.value.Instance(env)
        {
          LoadValueMeaning(data, addr, bytesize, env);
        }
      }
    }

    /** `ConcolicMemory::store`. */
    method Store(addr: nat, value: Concolic, bytesize: nat)
      requires Valid() && value.Valid() && addr < ADDRESSES
      modifies this
      ensures Valid()
      ensures data == if bytesize == 0 then old(data) else Stored(old(data), addr, Widened(value, bytesize), bytesize)
    {
      if bytesize == 0 {
        return;
      }
      var v := if |value.concrete| < 8 * bytesize then Unary(UnOp.ZExt(8 * bytesize), value) else value;
      for off := 0 to bytesize
        invariant Valid() && data == Stored(old(data), addr, v, off)
      {
        data := data[(addr + off) % ADDRESSES := Unary(Extract(8 * off, 8), v)];
      }
    }
  }
}
