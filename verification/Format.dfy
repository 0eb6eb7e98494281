/** The packet format: fields of arbitrary bit widths, concrete or symbolic, concatenated and handed out byte by
    byte. */
module Format {
  import opened BitVectors
  import opened Expr
  import opened Concolic
  import Bencode
  import opened Context
  import Memory

  // ----- Bit strings, the most significant part first -----

  /** The concatenation of parts, of which the first is the most significant. */
  function Joined(parts: seq<Bits>): Bits {
    if parts == [] then [] else Joined(parts[1..]) + parts[0]
  }

  /** The bytes of a number, the most significant one first. */
  function MsbBytes(b: Bits): (r: seq<Bits>)
    requires |b| % 8 == 0
    ensures |r| == |b| / 8
  {
    if b == [] then [] else [b[|b| - 8..]] + MsbBytes(b[..|b| - 8])
  }

  lemma {:induction false} JoinedBytes(b: Bits)
    requires |b| % 8 == 0
    ensures Joined(MsbBytes(b)) == b
  {
    hide MsbBytes;
    if b == [] {
      assert MsbBytes(b) == [];
    } else {
      var top, low := b[|b| - 8..], b[..|b| - 8];
      JoinedBytes(low);
      TopByte(b);
      JoinedFirst(top, MsbBytes(low));
      assert low + top == b;
    }
  }

  lemma JoinedFirst(first: Bits, parts: seq<Bits>)
    ensures Joined([first] + parts) == Joined(parts) + first
  {
    assert ([first] + parts)[1..] == parts;
  }

  lemma TopByte(b: Bits)
    requires |b| % 8 == 0 && b != []
    ensures MsbBytes(b) == [b[|b| - 8..]] + MsbBytes(b[..|b| - 8])
  {
  }

  lemma TopOfConcat(lo: Bits, hi: Bits)
    requires |hi| >= 8
    ensures (lo + hi)[|lo + hi| - 8..] == hi[|hi| - 8..] && (lo + hi)[..|lo + hi| - 8] == lo + hi[..|hi| - 8]
  {
  }

  lemma {:induction false} MsbBytesConcat(lo: Bits, hi: Bits)
    requires |lo| % 8 == 0 && |hi| % 8 == 0
    ensures MsbBytes(lo + hi) == MsbBytes(hi) + MsbBytes(lo)
    decreases |hi|
  {
    hide MsbBytes;
    if hi == [] {
      assert lo + hi == lo && MsbBytes(hi) == [];
    } else {
      var b, n := lo + hi, |hi| - 8;
      TopOfConcat(lo, hi);
      TopByte(b);
      TopByte(hi);
      MsbBytesConcat(lo, hi[..n]);
    }
  }

  lemma {:induction false} JoinedAppend(parts: seq<Bits>, last: Bits)
    ensures Joined(parts + [last]) == last + Joined(parts)
  {
    if parts == [] {
      assert ([] + [last])[1..] == [];
    } else {
      assert (parts + [last])[1..] == parts[1..] + [last];
      JoinedAppend(parts[1..], last);
    }
  }

  predicate Aligned(parts: seq<Bits>) {
    forall i :: 0 <= i < |parts| ==> |parts[i]| % 8 == 0
  }

  function AllBytes(parts: seq<Bits>): seq<Bits>
    requires Aligned(parts)
  {
    if parts == [] then [] else MsbBytes(parts[0]) + AllBytes(parts[1..])
  }

  lemma {:induction false} JoinedLength(parts: seq<Bits>)
    requires Aligned(parts)
    ensures |Joined(parts)| % 8 == 0
  {
    if parts != [] {
      JoinedLength(parts[1..]);
    }
  }

  /** Fields of whole bytes come out one after the other. */
  lemma {:induction false} AlignedFields(parts: seq<Bits>)
    requires Aligned(parts)
    ensures |Joined(parts)| % 8 == 0 && MsbBytes(Joined(parts)) == AllBytes(parts)
  {
    JoinedLength(parts);
    if parts != [] {
      JoinedLength(parts[1..]);
      AlignedFields(parts[1..]);
      MsbBytesConcat(Joined(parts[1..]), parts[0]);
    }
  }

  /** The constants of a list of bytes. */
  function Constants(bytes: seq<nat>): (r: seq<Bits>)
    ensures |r| == |bytes| && forall i :: 0 <= i < |r| ==> r[i] == FromNat(bytes[i], 8)
  {
    seq(|bytes|, i requires 0 <= i < |bytes| => FromNat(bytes[i], 8))
  }

  /** The bytes of a concrete field come out as listed. */
  lemma {:induction false} ConcreteBytes(parts: seq<Bits>)
    requires forall i :: 0 <= i < |parts| ==> |parts[i]| == 8
    ensures |Joined(parts)| == 8 * |parts| && MsbBytes(Joined(parts)) == parts
  {
    if parts != [] {
      ConcreteBytes(parts[1..]);
      var b := Joined(parts);
      assert b[|b| - 8..] == parts[0] && b[..|b| - 8] == Joined(parts[1..]);
    }
  }

  /** `to_byte_size`. */
  function ToByteSize(bitsize: nat): (r: nat)
    ensures 8 * r - 8 < bitsize <= 8 * r || bitsize == r == 0
  {
    if bitsize % 8 == 0 then bitsize / 8 else (bitsize - bitsize % 8 + 8) / 8
  }

  // ----- Handing out bytes -----

  function Meanings(vs: seq<Concolic>, env: Env): (r: seq<Bits>)
    requires forall i :: 0 <= i < |vs| ==> vs[i].Valid()
    ensures |r| == |vs|
  {
    seq(|vs|, i requires 0 <= i < |vs| => vs[i].Meaning(env))
  }

  class Reader {
    const input: Concolic
    var offset: nat

    ghost predicate Valid()
      reads this
    {
      input.Valid() && |input.concrete| % 8 == 0 && offset % 8 == 0 && offset <= |input.concrete|
    }

    constructor (input: Concolic)
      requires input.Valid() && |input.concrete| % 8 == 0
      ensures Valid() && this.input == input && offset == |input.concrete|
    {
      this.input := input;
      offset := |input.concrete|;
    }

    /** `next_byte`: the bits below those handed out before, for every input. */
    method NextByte() returns (r: Option<Concolic>)
      requires Valid()
      modifies this
      ensures Valid() && (r.None? <==> old(offset) == 0) && offset == if r.None? then 0 else old(offset) - 8
      ensures r.Some? ==> r.value.Valid() && |r.value.concrete| == 8
      ensures r.Some? ==> forall env: Env :: r.value.Meaning(env) == input.Meaning(env)[offset..offset + 8]
      ensures r.Some? ==> r.value.concrete == input.concrete[offset..offset + 8]
    {
      if offset == 0 {
        return None;
      }
      offset := offset - 8;
      var byte := Unary(Extract(offset, 8), input);
      forall env: Env
        ensures byte.Meaning(env) == input.Meaning(env)[offset..offset + 8]
      {
        UnaryMeaning(Extract(offset, 8), input, env);
      }
      return Some(byte);
    }

    /** `remaining_bytes`. */
    method RemainingBytes() returns (n: nat)
      requires Valid()
      ensures n == offset / 8
    {
      if offset == 0 {
        return 0;
      }
      var width := |input.concrete|;
      return (width - (width - offset)) / 8;
    }

    /** Asking for bytes until there are none: as many as were remaining, and together the rest of the input, for
        every input assignment. */
    method ReadAll() returns (bytes: seq<Concolic>)
      requires Valid()
      modifies this
      ensures Valid() && offset == 0 && |bytes| == old(offset) / 8
      ensures forall i :: 0 <= i < |bytes| ==> bytes[i].Valid()
      ensures forall env: Env :: Meanings(bytes, env) == MsbBytes(input.Meaning(env)[..old(offset)])
    {
      hide MsbBytes, Meanings, HandedOut;
      bytes := [];
      NoneHandedOut(input, offset);
      while true
        invariant Valid() && offset <= old(offset) && |bytes| == (old(offset) - offset) / 8
        invariant forall i :: 0 <= i < |bytes| ==> bytes[i].Valid()
        invariant HandedOut(bytes, input, old(offset), offset)
        decreases offset
      {
        var r := NextByte();
        if r.None? {
          AllHandedOut(bytes, input, old(offset));
          return;
        }
        OneHandedOut(bytes, input, old(offset), offset, r.value);
        bytes := bytes + [r.value];
      }
    }
  }

  /** The bytes handed out are those between two offsets, for every input. */
  ghost predicate HandedOut(bytes: seq<Concolic>, input: Concolic, from: nat, to: nat)
    requires input.Valid() && to <= from <= |input.concrete| && to % 8 == from % 8 == 0
    requires forall i :: 0 <= i < |bytes| ==> bytes[i].Valid()
  {
    forall env: Env :: MsbBytes(input.Meaning(env)[..from]) == Meanings(bytes, env) + MsbBytes(input.Meaning(env)[..to])
  }

  lemma NoneHandedOut(input: Concolic, from: nat)
    requires input.Valid() && from <= |input.concrete| && from % 8 == 0
    ensures HandedOut([], input, from, from)
  {
  }

  lemma AllHandedOut(bytes: seq<Concolic>, input: Concolic, from: nat)
    requires input.Valid() && from <= |input.concrete| && from % 8 == 0
    requires forall i :: 0 <= i < |bytes| ==> bytes[i].Valid()
    requires HandedOut(bytes, input, from, 0)
    ensures forall env: Env :: Meanings(bytes, env) == MsbBytes(input.Meaning(env)[..from])
  {
    forall env: Env
      ensures Meanings(bytes, env) == MsbBytes(input.Meaning(env)[..from])
    {
      assert MsbBytes(input.Meaning(env)[..0]) == [];
    }
  }

  lemma OneHandedOut(bytes: seq<Concolic>, input: Concolic, from: nat, to: nat, byte: Concolic)
    requires input.Valid() && to + 8 <= from <= |input.concrete| && to % 8 == from % 8 == 0
    requires byte.Valid() && forall i :: 0 <= i < |bytes| ==> bytes[i].Valid()
    requires HandedOut(bytes, input, from, to + 8)
    requires forall env: Env :: byte.Meaning(env) == input.Meaning(env)[to..to + 8]
    ensures HandedOut(bytes + [byte], input, from, to)
  {
    forall env: Env
      ensures MsbBytes(input.Meaning(env)[..from]) == Meanings(bytes + [byte], env) + MsbBytes(input.Meaning(env)[..to])
    {
      var b := input.Meaning(env)[..to + 8];
      assert b[|b| - 8..] == input.Meaning(env)[to..to + 8] && b[..|b| - 8] == input.Meaning(env)[..to];
      assert Meanings(bytes + [byte], env) == Meanings(bytes, env) + [byte.Meaning(env)];
    }
  }

  // ----- Fields -----

  /** `Solver::BVC` of a buffer: the first byte is the most significant one if `lsb` is set, and the least
      significant one otherwise. */
  method BufferValue(buf: seq<nat>, lsb: bool) returns (r: Concolic)
    requires buf != []
    ensures r.Valid() && r.Concrete() && |r.concrete| == 8 * |buf|
    ensures lsb ==> r.concrete == Joined(Constants(buf))
    ensures !lsb ==> forall i :: 0 <= i < |buf| ==> Memory.ByteOf(r.concrete, i) == FromNat(buf[i], 8)
  {
    hide FromNat;
    r := Constant(FromNat(buf[0], 8));
    var i := 1;
    assert Constants(buf[..1]) == [FromNat(buf[0], 8)];
    assert Joined(Constants(buf[..1])) == FromNat(buf[0], 8) by {
      ConcreteBytes(Constants(buf[..1]));
    }
    while i < |buf|
      invariant 0 < i <= |buf| && r.Valid() && r.Concrete() && |r.concrete| == 8 * i
      invariant lsb ==> r.concrete == Joined(Constants(buf[..i]))
      invariant !lsb ==> forall j :: 0 <= j < i ==> Memory.ByteOf(r.concrete, j) == FromNat(buf[j], 8)
    {
      var byte := Constant(FromNat(buf[i], 8));
      if lsb {
        JoinedAppend(Constants(buf[..i]), byte.concrete);
        assert Constants(buf[..i + 1]) == Constants(buf[..i]) + [byte.concrete];
        r := Binary(Concat, r, byte);
      } else {
        var next := Binary(Concat, byte, r);
        forall j | 0 <= j <= i
          ensures Memory.ByteOf(next.concrete, j) == FromNat(buf[j], 8)
        {
          JoinedByte(r.concrete, byte.concrete, i, j);
        }
        r := next;
      }
      i := i + 1;
    }
    assert buf[..|buf|] == buf;
  }

  /** What a list of constraints or bytes stands for. */
  datatype Kind = Symbolic | Bytes(bytes: seq<nat>) | Invalid

  predicate IsByte(d: Bencode.Data) {
    d.Int? && 0 <= d.value < 256
  }

  function ByteValues(list: seq<Bencode.Data>): (r: seq<nat>)
    requires forall i :: 0 <= i < |list| ==> IsByte(list[i])
    ensures |r| == |list|
  {
    if list == [] then []
    else
      var last := list[|list| - 1];
      assert IsByte(last);
      ByteValues(list[..|list| - 1]) + [last.value]
  }

  /** Strings only, which may be none, are constraints of a symbolic value; numbers only, of a byte each, are a
      concrete one. */
  function Classified(list: seq<Bencode.Data>): Kind {
    if forall i :: 0 <= i < |list| ==> list[i].Str? then Symbolic
    else if forall i :: 0 <= i < |list| ==> IsByte(list[i]) then Bytes(ByteValues(list))
    else Invalid
  }

  function FieldName(packet: nat, name: string): string {
    "pkt" + Bencode.Decimal(packet) + ":" + name
  }

  /** A symbolic value has the bits of the variables of its bytes, from the least significant one on. */
  ghost predicate BitsOf(v: Concolic, name: string, bitsize: nat) {
    && v.Valid() && |v.concrete| == bitsize
    && forall env: Env, j: nat :: j < bitsize ==> v.Meaning(env)[j] == FromNat(env(ByteName(name, j / 8), 0), 8)[j % 8]
  }

  lemma FieldBits(f: Concolic, name: string, size: nat, store: Store, bitsize: nat)
    requires 0 < size && FieldBytes(f, name, size, store) && 8 * size - 8 < bitsize <= 8 * size
    ensures
      var v := if bitsize % 8 != 0 then Unary(Extract(0, bitsize), f) else f;
      BitsOf(v, name, bitsize)
  {
    hide FromNat, ByteName, Eval, WellFormed, Width;
    var v := if bitsize % 8 != 0 then Unary(Extract(0, bitsize), f) else f;
    forall env: Env, j: nat | j < bitsize
      ensures v.Meaning(env)[j] == FromNat(env(ByteName(name, j / 8), 0), 8)[j % 8]
    {
      if bitsize % 8 != 0 {
        UnaryMeaning(Extract(0, bitsize), f, env);
      }
      var i := j / 8;
      assert Memory.ByteOf(f.Meaning(env), i) == FromNat(env(ByteName(name, i), 0), 8);
      assert Memory.ByteOf(f.Meaning(env), i)[j % 8] == f.Meaning(env)[j];
    }
  }

  /** The value of a field. */
  ghost predicate ValueOf(v: Concolic, list: seq<Bencode.Data>, name: string, bitsize: nat) {
    match Classified(list)
    case Symbolic => BitsOf(v, name, bitsize)
    case Bytes(bytes) =>
      && v.Valid() && v.Concrete() && |v.concrete| == bitsize <= |Joined(Constants(bytes))|
      && v.concrete == Joined(Constants(bytes))[..bitsize]
    case Invalid => false
  }

  /** The list has a value of the size given. */
  predicate Acceptable(list: seq<Bencode.Data>, bitsize: nat) {
    match Classified(list)
    case Symbolic => true
    case Bytes(bytes) => |bytes| == ToByteSize(bitsize)
    case Invalid => false
  }

  /** What is prepared for the bytes of a field are bytes. */
  ghost predicate BytesReady(store: Store, name: string, size: nat) {
    forall i: nat :: i < size && ByteName(name, i) in store ==> store[ByteName(name, i)].U8?
  }

  /** Requests only take entries out of what is prepared. */
  ghost predicate Shrunk(store: Store, store': Store) {
    forall n :: n in store' ==> n in store && store'[n] == store[n]
  }

  /** `make_symbolic`. */
  method MakeSymbolic(ctx: ExecutionContext, name: string, bitsize: nat) returns (v: Concolic)
    requires bitsize > 0 && BytesReady(ctx.nextRun, name, ToByteSize(bitsize))
    modifies ctx
    ensures BitsOf(v, name, bitsize) && v.Instance(EnvOf(ctx.lastRun)) && Shrunk(old(ctx.nextRun), ctx.nextRun)
  {
    hide FieldBytes, BitsOf, ByteName, Eval, FromNat, EnvOf;
    var size := ToByteSize(bitsize);
    v := ctx.GetSymbolicBytes(name, size);
    FieldBits(v, name, size, ctx.lastRun, bitsize);
    if bitsize % 8 != 0 {
      assert |v.concrete| == 8 * size by {
        FieldWidth(v, name, size, ctx.lastRun);
      }
      UnaryInstance(Extract(0, bitsize), v, EnvOf(ctx.lastRun));
      v := Unary(Extract(0, bitsize), v);
    }
  }

  lemma FieldWidth(f: Concolic, name: string, size: nat, store: Store)
    requires FieldBytes(f, name, size, store)
    ensures f.Valid() && |f.concrete| == 8 * size
  {
  }

  /** The loop of `get_value` over the elements; constraints are left to the caller. */
  method ScanElements(list: seq<Bencode.Data>) returns (kind: Kind)
    ensures kind == Classified(list)
  {
    if list == [] {
      return Symbolic;
    }
    var isSymbolic := list[0].Str?;
    var concrete: seq<nat> := [];
    for i := 0 to |list|
      invariant isSymbolic ==> forall j :: 0 <= j < i ==> list[j].Str?
      invariant !isSymbolic ==> (forall j :: 0 <= j < i ==> IsByte(list[j])) && concrete == ByteValues(list[..i])
    {
      if isSymbolic {
        if !list[i].Str? {
          assert !IsByte(list[0]);
          return Invalid;
        }
      } else {
        if !IsByte(list[i]) {
          return Invalid;
        }
        assert list[..i + 1][..i] == list[..i];
        concrete := concrete + [list[i].value];
      }
    }
    assert list[..|list|] == list;
    return if isSymbolic then Symbolic else Bytes(concrete);
  }

  /** `get_value`: nothing exactly if the list has no value of that size. */
  method GetValue(ctx: ExecutionContext, list: seq<Bencode.Data>, name: string,
                  bitsize: nat) returns (r: Option<Concolic>)
    requires bitsize > 0 && BytesReady(ctx.nextRun, name, ToByteSize(bitsize))
    modifies ctx
    ensures Shrunk(old(ctx.nextRun), ctx.nextRun) && (r.Some? <==> Acceptable(list, bitsize))
    ensures r.Some? ==> ValueOf(r.value, list, name, bitsize)
  {
    hide BitsOf, ByteValues, FromNat;
    var kind := ScanElements(list);
    if list == [] || list[0].Str? {
      assert !kind.Bytes? by {
        NoBytes(list);
      }
      var v := MakeSymbolic(ctx, name, bitsize);
      return if kind.Symbolic? then Some(v) else None;
    }
    if kind.Invalid? || |kind.bytes| != ToByteSize(bitsize) {
      return None;
    }
    var v := BufferValue(kind.bytes, true);
    if bitsize % 8 != 0 {
      v := Unary(Extract(0, bitsize), v);
    }
    return Some(v);
  }

  lemma NoBytes(list: seq<Bencode.Data>)
    requires list == [] || list[0].Str?
    ensures !Classified(list).Bytes?
  {
    if list != [] {
      assert !IsByte(list[0]);
    }
  }

  // ----- The whole input -----

  datatype Field = Field(name: string, bitsize: nat, list: seq<Bencode.Data>)

  /** A field is a list of a name, a number of bits, which is converted to 64 bits without a sign, and a list. */
  function FieldOf(d: Bencode.Data): Option<Field> {
    if d.List? && |d.items| == 3 && d.items[0].Str? && d.items[1].Int? && d.items[2].List?
    then Some(Field(d.items[0].text, d.items[1].value % 0x1_0000_0000_0000_0000, d.items[2].items))
    else None
  }

  /** Every element is a field with a value. */
  predicate AllFields(items: seq<Bencode.Data>) {
    forall i :: 0 <= i < |items| ==>
      FieldOf(items[i]).Some? && Acceptable(FieldOf(items[i]).value.list, FieldOf(items[i]).value.bitsize)
  }

  function TotalWidth(items: seq<Bencode.Data>): nat {
    if items == [] then 0
    else
      var f := FieldOf(items[|items| - 1]);
      TotalWidth(items[..|items| - 1]) + if f.Some? then f.value.bitsize else 0
  }

  /** The values are those of the fields. */
  ghost predicate ValuesOf(vs: seq<Concolic>, items: seq<Bencode.Data>, packet: nat) {
    |vs| == |items| && forall i :: 0 <= i < |vs| ==>
      FieldOf(items[i]).Some? && vs[i].Valid() &&
      ValueOf(vs[i], FieldOf(items[i]).value.list, FieldName(packet, FieldOf(items[i]).value.name),
        FieldOf(items[i]).value.bitsize)
  }

  ghost predicate AllValid(vs: seq<Concolic>) {
    forall i :: 0 <= i < |vs| ==> vs[i].Valid()
  }

  /** For every input, the whole is the concatenation of the parts, the first being the most significant. */
  ghost predicate Concatenates(r: Concolic, vs: seq<Concolic>)
    requires AllValid(vs)
  {
    r.Valid() && forall env: Env :: r.Meaning(env) == Joined(Meanings(vs, env))
  }

  lemma ConcatenatesOne(v: Concolic)
    requires v.Valid()
    ensures Concatenates(v, [v])
  {
    hide Eval;
    forall env: Env
      ensures v.Meaning(env) == Joined(Meanings([v], env))
    {
      assert Meanings([v], env) == [] + [v.Meaning(env)];
      JoinedAppend([], v.Meaning(env));
    }
  }

  lemma ConcatenatesMore(r: Concolic, vs: seq<Concolic>, v: Concolic)
    requires AllValid(vs) && v.Valid() && Concatenates(r, vs)
    ensures AllValid(vs + [v]) && Concatenates(Binary(Concat, r, v), vs + [v])
  {
    hide Eval, WellFormed, Width;
    var s := Binary(Concat, r, v);
    forall env: Env
      ensures s.Meaning(env) == Joined(Meanings(vs + [v], env))
    {
      BinaryMeaning(Concat, r, v, env);
      assert Meanings(vs + [v], env) == Meanings(vs, env) + [v.Meaning(env)];
      JoinedAppend(Meanings(vs, env), v.Meaning(env));
    }
  }

  /** The field has bits, and what is prepared for it are bytes. */
  ghost predicate Askable(store: Store, f: Field, packet: nat) {
    f.bitsize > 0 && BytesReady(store, FieldName(packet, f.name), ToByteSize(f.bitsize))
  }

  lemma AskableStill(store: Store, store': Store, f: Field, packet: nat)
    requires Askable(store, f, packet) && Shrunk(store, store')
    ensures Askable(store', f, packet)
  {
    hide FieldName, ByteName;
  }

  /** `get_input`: the concatenation of the fields, unless one of them is malformed, there are none, or they are
      not whole bytes together. */
  method GetInput(ctx: ExecutionContext, items: seq<Bencode.Data>, packet: nat)
    returns (r: Option<Concolic>, ghost vs: seq<Concolic>)
    requires forall i :: 0 <= i < |items| && FieldOf(items[i]).Some? ==>
             Askable(ctx.nextRun, FieldOf(items[i]).value, packet)
    modifies ctx
    ensures r.Some? <==> items != [] && AllFields(items) && TotalWidth(items) % 8 == 0
    ensures r.Some? ==> ValuesOf(vs, items, packet) && AllValid(vs) && Concatenates(r.value, vs)
    ensures r.Some? ==> |r.value.concrete| == TotalWidth(items)
  {
    hide Acceptable, ValueOf, Concatenates, FieldName, FieldOf, BytesReady, AllFields, ValuesOf, TotalWidth;
    vs := [];
    NoFields(packet);
    assert items[..0] == [];
    if items == [] {
      return None, vs;
    }
    var sum: Option<Concolic> := None;
    for i := 0 to |items|
      invariant Shrunk(old(ctx.nextRun), ctx.nextRun) && AllFields(items[..i])
      invariant ValuesOf(vs, items[..i], packet) && AllValid(vs) && |vs| == i
      invariant sum.Some? <==> i > 0
      invariant sum.Some? ==> sum.value.Valid() && Concatenates(sum.value, vs)
      invariant sum.Some? ==> |sum.value.concrete| == TotalWidth(items[..i])
    {
      var f := FieldOf(items[i]);
      if f.None? {
        FieldRefused(items, i);
        return None, vs;
      }
      AskableStill(old(ctx.nextRun), ctx.nextRun, f.value, packet);
      var v := GetValue(ctx, f.value.list, FieldName(packet, f.value.name), f.value.bitsize);
      if v.None? {
        FieldRefused(items, i);
        return None, vs;
      }
      FieldAdded(items, i, vs, v.value, packet);
      if sum.None? {
        assert vs + [v.value] == [v.value];
        ConcatenatesOne(v.value);
        sum := v;
      } else {
        ConcatenatesMore(sum.value, vs, v.value);
        sum := Some(Binary(Concat, sum.value, v.value));
      }
      vs := vs + [v.value];
    }
    assert items[..|items|] == items;
    if |sum.value.concrete| % 8 != 0 {
      return None, vs;
    }
    return sum, vs;
  }

  lemma NoFields(packet: nat)
    ensures AllFields([]) && ValuesOf([], [], packet) && TotalWidth([]) == 0
  {
  }

  lemma FieldRefused(items: seq<Bencode.Data>, i: nat)
    requires i < |items|
    requires FieldOf(items[i]).None? || !Acceptable(FieldOf(items[i]).value.list, FieldOf(items[i]).value.bitsize)
    ensures !AllFields(items)
  {
  }

  lemma FieldAdded(items: seq<Bencode.Data>, i: nat, vs: seq<Concolic>, v: Concolic, packet: nat)
    requires i < |items| && AllFields(items[..i]) && ValuesOf(vs, items[..i], packet) && FieldOf(items[i]).Some?
    requires Acceptable(FieldOf(items[i]).value.list, FieldOf(items[i]).value.bitsize)
    requires
      var f := FieldOf(items[i]).value;
      ValueOf(v, f.list, FieldName(packet, f.name), f.bitsize)
    ensures AllFields(items[..i + 1]) && ValuesOf(vs + [v], items[..i + 1], packet)
    ensures v.Valid() && |v.concrete| == FieldOf(items[i]).value.bitsize
    ensures TotalWidth(items[..i + 1]) == TotalWidth(items[..i]) + |v.concrete|
  {
    hide Acceptable, ValueOf, FieldName, FieldOf;
    var f := FieldOf(items[i]).value;
    ValueWidth(v, f.list, FieldName(packet, f.name), f.bitsize);
    assert items[..i + 1][..i] == items[..i] && items[..i + 1][i] == items[i];
  }

  lemma ValueWidth(v: Concolic, list: seq<Bencode.Data>, name: string, bitsize: nat)
    requires ValueOf(v, list, name, bitsize)
    ensures v.Valid() && |v.concrete| == bitsize
  {
  }

  /** Concrete fields of whole bytes come out as the bytes listed, one field after the other. */
  lemma ListedBytesComeOut(lists: seq<seq<nat>>)
    ensures
      var parts := seq(|lists|, i requires 0 <= i < |lists| => Joined(Constants(lists[i])));
      |Joined(parts)| % 8 == 0 && MsbBytes(Joined(parts)) == Flattened(lists)
  {
    var parts := seq(|lists|, i requires 0 <= i < |lists| => Joined(Constants(lists[i])));
    forall i | 0 <= i < |parts|
      ensures |parts[i]| % 8 == 0
    {
      ConcreteBytes(Constants(lists[i]));
    }
    AlignedFields(parts);
    FlattenedBytes(lists, parts);
  }

  function Flattened(lists: seq<seq<nat>>): seq<Bits> {
    if lists == [] then [] else Constants(lists[0]) + Flattened(lists[1..])
  }

  lemma {:induction false} FlattenedBytes(lists: seq<seq<nat>>, parts: seq<Bits>)
    requires Aligned(parts) && |parts| == |lists|
    requires forall i :: 0 <= i < |lists| ==> parts[i] == Joined(Constants(lists[i]))
    ensures AllBytes(parts) == Flattened(lists)
  {
    if lists != [] {
      ConcreteBytes(Constants(lists[0]));
      FlattenedBytes(lists[1..], parts[1..]);
    }
  }
}
