/** Bencode: the encoder, a recursive-descent reading of the format, and the decoder that keeps its
    own stack of pointers into the value under construction.  A byte is a `char`. */
module Bencode {
  import opened Expr

  datatype Data =
    | Int(value: int)
    | Str(text: string)
    | List(items: seq<Data>)
    | Dict(entries: seq<Entry>)

  datatype Entry = Entry(key: string, value: Data)

  /** `Err` stands for the exceptions thrown on malformed input. */
  datatype Parsed<T> = Ok(value: T, rest: string) | Err

  // ----- Numbers -----

  /** `std::numeric_limits` of an integer type. */
  datatype Limits = Limits(min: int, max: int, digits10: nat)

  const LONG_LONG := Limits(-0x8000_0000_0000_0000, 0x7FFF_FFFF_FFFF_FFFF, 18)
  const SIZE := Limits(0, 0xFFFF_FFFF_FFFF_FFFF, 19)

  predicate IsDigit(c: char) {
    '0' <= c <= '9'
  }

  function DigitValue(c: char): (r: nat)
    requires IsDigit(c)
    ensures r < 10
  {
    c as int - '0' as int
  }

  /** The length of the leading digits. */
  function DigitRun(s: string): (n: nat)
    ensures n <= |s|
  {
    if s != [] && IsDigit(s[0]) then 1 + DigitRun(s[1..]) else 0
  }

  predicate AllDigits(s: string) {
    forall i :: 0 <= i < |s| ==> IsDigit(s[i])
  }

  function Value(s: string): nat
    requires AllDigits(s)
  {
    if s == [] then 0 else Value(s[..|s| - 1]) * 10 + DigitValue(s[|s| - 1])
  }

  lemma {:induction false} DigitRunIs(s: string, n: nat)
    requires n <= |s| && AllDigits(s[..n]) && (n == |s| || !IsDigit(s[n]))
    ensures DigitRun(s) == n
  {
    if n > 0 {
      assert s[0] == s[..n][0];
      assert s[1..][..n - 1] == s[..n][1..];
      DigitRunIs(s[1..], n - 1);
    }
  }

  lemma {:induction false} DigitRunDigits(s: string)
    ensures AllDigits(s[..DigitRun(s)]) && (DigitRun(s) < |s| ==> !IsDigit(s[DigitRun(s)]))
  {
    var n := DigitRun(s);
    if n > 0 {
      DigitRunDigits(s[1..]);
      assert s[..n] == [s[0]] + s[1..][..n - 1];
    }
  }

  /** What `decode_digits` returns: the value of the leading digits if they are few enough and it
      fits, and no digits read as zero.  Input that ends with the digits is refused, unless there is
      one more of them than always fits; every caller refuses it then. */
  function Digits(s: string, lim: Limits, sgn: int): Parsed<int> {
    var n := DigitRun(s);
    DigitRunDigits(s);
    var v := sgn * Value(s[..n]);
    if n <= lim.digits10 then if n == |s| then Err else Ok(v, s[n..])
    else if n == lim.digits10 + 1 && lim.min <= v <= lim.max then Ok(v, s[n..])
    else Err
  }

  /** The type is one of the two used, and the sign is representable. */
  predicate Sign(lim: Limits, sgn: int) {
    (lim == LONG_LONG && (sgn == 1 || sgn == -1)) || (lim == SIZE && sgn == 1)
  }

  function Pow10(n: nat): nat {
    if n == 0 then 1 else 10 * Pow10(n - 1)
  }

  lemma {:induction false} ValueBound(s: string)
    requires AllDigits(s)
    ensures Value(s) < Pow10(|s|)
  {
    if s != [] {
      ValueBound(s[..|s| - 1]);
    }
  }

  lemma {:induction false} Pow10Monotone(m: nat, n: nat)
    requires m <= n
    ensures Pow10(m) <= Pow10(n)
  {
    if m < n {
      Pow10Monotone(m, n - 1);
    }
  }

  lemma Pow10Limits()
    ensures Pow10(18) == 1_000_000_000_000_000_000 && Pow10(19) == 10_000_000_000_000_000_000
  {
    assert Pow10(6) == 1_000_000;
    assert Pow10(12) == 1_000_000_000_000;
    assert Pow10(18) == 1_000_000_000_000_000_000;
  }

  /** `check_over_underflow`: division truncates toward zero. */
  predicate Overflows(value: int, digit: int, lim: Limits, sgn: int) {
    if sgn == 1 then value > lim.max / 10 || (value == lim.max / 10 && digit > lim.max % 10)
    else value < -(-lim.min / 10) || (value == -(-lim.min / 10) && digit < -(-lim.min % 10))
  }

  lemma OverflowsMeans(value: int, digit: int, lim: Limits, sgn: int)
    requires Sign(lim, sgn) && 0 <= sgn * digit < 10 && 0 <= sgn * value
    ensures Overflows(value, digit, lim, sgn) <==> !(lim.min <= value * 10 + digit <= lim.max)
  {
  }

  /** Digits that always fit. */
  lemma FewDigitsFit(s: string, lim: Limits, sgn: int)
    requires Sign(lim, sgn) && AllDigits(s) && |s| <= lim.digits10
    ensures lim.min <= sgn * Value(s) <= lim.max
  {
    hide Pow10, Value;
    Pow10Limits();
    ValueBound(s);
    Pow10Monotone(|s|, lim.digits10);
  }

  lemma Appended(s: string, n: nat, sgn: int)
    requires n < |s| && AllDigits(s[..n]) && IsDigit(s[n])
    ensures AllDigits(s[..n + 1])
    ensures sgn * Value(s[..n + 1]) == sgn * Value(s[..n]) * 10 + DigitValue(s[n]) * sgn
  {
    assert s[..n + 1][..n] == s[..n];
  }

  lemma {:induction false} LongRun(s: string, n: nat)
    requires n <= |s| && AllDigits(s[..n])
    ensures DigitRun(s) >= n
  {
    if n > 0 {
      assert s[0] == s[..n][0];
      assert s[1..][..n - 1] == s[..n][1..];
      LongRun(s[1..], n - 1);
    }
  }

  /** The run of digits has been read to its end. */
  lemma DigitsRead(s: string, n: nat, lim: Limits, sgn: int)
    requires n <= |s| && AllDigits(s[..n]) && (n == |s| || !IsDigit(s[n]))
    requires n <= lim.digits10 + 1 && lim.min <= sgn * Value(s[..n]) <= lim.max
    ensures Digits(s, lim, sgn) == if n == |s| <= lim.digits10 then Err else Ok(sgn * Value(s[..n]), s[n..])
  {
    DigitRunIs(s, n);
  }

  /** There are digits left although one more than always fits was read, or it did not fit. */
  lemma DigitsRefused(s: string, lim: Limits, sgn: int)
    requires |s| > lim.digits10 && AllDigits(s[..lim.digits10 + 1])
    requires
      || (|s| > lim.digits10 + 1 && IsDigit(s[lim.digits10 + 1]))
      || !(lim.min <= sgn * Value(s[..lim.digits10 + 1]) <= lim.max)
    ensures Digits(s, lim, sgn) == Err
  {
    LongRun(s, lim.digits10 + 1);
    if |s| > lim.digits10 + 1 && IsDigit(s[lim.digits10 + 1]) {
      LongRun(s, lim.digits10 + 2);
    }
  }

  /** `decode_digits`: a loop that cannot overflow, then one digit with a check. */
  method DecodeDigits(s: string, lim: Limits, sgn: int) returns (r: Parsed<int>)
    requires Sign(lim, sgn)
    ensures r == Digits(s, lim, sgn)
    ensures r.Ok? ==> lim.min <= r.value <= lim.max
  {
    hide Digits, Value, Overflows, IsDigit, DigitRun;
    var value, begin := 0, 0;
    assert value == sgn * Value(s[..begin]) by {
      assert s[..0] == [];
      EmptyValue();
    }
    while begin != lim.digits10
      invariant 0 <= begin <= lim.digits10 && begin <= |s|
      invariant AllDigits(s[..begin]) && value == sgn * Value(s[..begin])
      invariant lim.min <= value <= lim.max
      decreases lim.digits10 - begin
    {
      if begin == |s| {
        DigitsRead(s, begin, lim, sgn);
        return Err;
      }
      if !IsDigit(s[begin]) {
        DigitsRead(s, begin, lim, sgn);
        return Ok(value, s[begin..]);
      }
      Appended(s, begin, sgn);
      value := value * 10 + DigitValue(s[begin]) * sgn;
      begin := begin + 1;
      FewDigitsFit(s[..begin], lim, sgn);
    }
    if begin == |s| {
      DigitsRead(s, begin, lim, sgn);
      return Err;
    }
    r := LastDigit(s, lim, sgn, value);
  }

  lemma EmptyValue()
    ensures Value([]) == 0
  {
  }

  /** The end of `decode_digits`: the digit that may not fit. */
  method LastDigit(s: string, lim: Limits, sgn: int, sofar: int) returns (r: Parsed<int>)
    requires Sign(lim, sgn) && lim.digits10 < |s| && AllDigits(s[..lim.digits10])
    requires sofar == sgn * Value(s[..lim.digits10]) && lim.min <= sofar <= lim.max
    ensures r == Digits(s, lim, sgn)
    ensures r.Ok? ==> lim.min <= r.value <= lim.max
  {
    hide Digits, Value, Overflows, IsDigit, DigitRun;
    var value, begin := sofar, lim.digits10;
    if IsDigit(s[begin]) {
      var digit := DigitValue(s[begin]) * sgn;
      SignedParts(sgn, Value(s[..begin]), DigitValue(s[begin]));
      OverflowsMeans(value, digit, lim, sgn);
      Appended(s, begin, sgn);
      if Overflows(value, digit, lim, sgn) {
        DigitsRefused(s, lim, sgn);
        return Err;
      }
      value := value * 10 + digit;
      begin := begin + 1;
      if begin < |s| && IsDigit(s[begin]) {
        DigitsRefused(s, lim, sgn);
        return Err;
      }
    }
    DigitsRead(s, begin, lim, sgn);
    return Ok(value, s[begin..]);
  }

  lemma SignedParts(sgn: int, value: nat, digit: nat)
    requires (sgn == 1 || sgn == -1) && digit < 10
    ensures 0 <= sgn * (sgn * value) && 0 <= sgn * (digit * sgn) < 10
  {
  }

  // ----- Reading by recursive descent -----

  predicate Starts(s: string, c: char) {
    s != [] && s[0] == c
  }

  function ReadInt(s: string): (r: Parsed<int>)
    requires Starts(s, 'i')
    ensures r.Ok? ==> |r.rest| < |s|
  {
    var sgn := if Starts(s[1..], '-') then -1 else 1;
    var r := Digits(s[if sgn == 1 then 1 else 2..], LONG_LONG, sgn);
    if r.Ok? && Starts(r.rest, 'e') then Ok(r.value, r.rest[1..]) else Err
  }

  function ReadStr(s: string): (r: Parsed<string>)
    ensures r.Ok? ==> |r.rest| < |s|
  {
    var r := Digits(s, SIZE, 1);
    if r.Ok? && Starts(r.rest, ':') && 0 <= r.value < |r.rest|
    then Ok(r.rest[1..1 + r.value], r.rest[1 + r.value..]) else Err
  }

  function Keys(es: seq<Entry>): set<string> {
    set e | e in es :: e.key
  }

  /** The order of keys in `std::map`: lexicographic by byte. */
  predicate Less(a: string, b: string) {
    b != [] && (a == [] || a[0] < b[0] || (a[0] == b[0] && Less(a[1..], b[1..])))
  }

  /** `emplace` of a new key. */
  function Insert(es: seq<Entry>, k: string, v: Data): seq<Entry> {
    if es == [] || Less(k, es[0].key) then [Entry(k, v)] + es else [es[0]] + Insert(es[1..], k, v)
  }

  function Read(s: string): (r: Parsed<Data>)
    ensures r.Ok? ==> |r.rest| < |s|
    decreases |s|, 0
  {
    if s == [] then Err
    else if s[0] == 'i' then
      var r := ReadInt(s); if r.Ok? then Ok(Int(r.value), r.rest) else Err
    else if s[0] == 'l' then ReadItems([], s[1..])
    else if s[0] == 'd' then ReadEntries([], s[1..])
    else if IsDigit(s[0]) then
      var r := ReadStr(s); if r.Ok? then Ok(Str(r.value), r.rest) else Err
    else Err
  }

  /** The rest of a list. */
  function ReadItems(items: seq<Data>, s: string): (r: Parsed<Data>)
    ensures r.Ok? ==> |r.rest| < |s|
    decreases |s|, 1
  {
    if s == [] then Err
    else if s[0] == 'e' then Ok(List(items), s[1..])
    else var r := Read(s); if r.Ok? then ReadItems(items + [r.value], r.rest) else Err
  }

  /** The rest of a dictionary. */
  function ReadEntries(es: seq<Entry>, s: string): (r: Parsed<Data>)
    ensures r.Ok? ==> |r.rest| < |s|
    decreases |s|, 1
  {
    if s == [] then Err
    else if s[0] == 'e' then Ok(Dict(es), s[1..])
    else if !IsDigit(s[0]) then Err
    else
      var k := ReadStr(s);
      if k.Err? || k.value in Keys(es) then Err
      else
        var r := Read(k.rest);
        if r.Ok? then ReadEntries(Insert(es, k.value, r.value), r.rest) else Err
  }

  // ----- Writing -----

  function Decimal(n: nat): (s: string)
    ensures AllDigits(s)
  {
    var last := ['0' + (n % 10) as char];
    if n < 10 then last else Decimal(n / 10) + last
  }

  /** `write_integer`. */
  function WriteInteger(v: int): string {
    if v < 0 then "-" + Decimal(-v) else Decimal(v)
  }

  function EncodeStr(s: string): string {
    Decimal(|s|) + ":" + s
  }

  function Encode(d: Data): string {
    match d
    case Int(v) => "i" + WriteInteger(v) + "e"
    case Str(t) => EncodeStr(t)
    case List(items) => "l" + EncodeItems(items) + "e"
    case Dict(es) => "d" + EncodeEntries(es) + "e"
  }

  function EncodeItems(items: seq<Data>): string {
    if items == [] then [] else Encode(items[0]) + EncodeItems(items[1..])
  }

  function EncodeEntries(es: seq<Entry>): string {
    if es == [] then [] else EncodeStr(es[0].key) + Encode(es[0].value) + EncodeEntries(es[1..])
  }

  /** The values of the C++ type: 64-bit integers and lengths, and dictionaries sorted by key. */
  predicate Valid(d: Data) {
    match d
    case Int(v) => LONG_LONG.min <= v <= LONG_LONG.max
    case Str(t) => |t| <= SIZE.max
    case List(items) => forall i :: 0 <= i < |items| ==> Valid(items[i])
    case Dict(es) => Sorted(es) && forall i :: 0 <= i < |es| ==> |es[i].key| <= SIZE.max && Valid(es[i].value)
  }

  predicate Sorted(es: seq<Entry>) {
    forall i, j :: 0 <= i < j < |es| ==> Less(es[i].key, es[j].key)
  }

  // ----- Reading undoes writing -----

  lemma {:induction false} DecimalValue(n: nat)
    ensures Value(Decimal(n)) == n
  {
    var s := Decimal(n);
    if n >= 10 {
      DecimalValue(n / 10);
      assert s[..|s| - 1] == Decimal(n / 10);
    } else {
      assert s[..0] == [];
    }
  }

  /** The decimal of a number below ten to the `k` has at most `k` digits. */
  lemma {:induction false} DecimalLength(n: nat, k: nat)
    requires n < Pow10(k) && k > 0
    ensures 0 < |Decimal(n)| <= k
  {
    if n >= 10 {
      DecimalLength(n / 10, k - 1);
    }
  }

  lemma DigitsDecimal(n: nat, lim: Limits, sgn: int, rest: string)
    requires Sign(lim, sgn) && lim.min <= sgn * n <= lim.max
    requires rest != [] && !IsDigit(rest[0])
    ensures Digits(Decimal(n) + rest, lim, sgn) == Ok(sgn * n, rest)
  {
    hide Digits, Decimal, Value;
    var s := Decimal(n) + rest;
    var k := |Decimal(n)|;
    assert s[..k] == Decimal(n) && s[k..] == rest;
    DecimalValue(n);
    LimitDigits(n, lim, sgn);
    DigitsRead(s, k, lim, sgn);
  }

  lemma LimitDigits(n: nat, lim: Limits, sgn: int)
    requires Sign(lim, sgn) && lim.min <= sgn * n <= lim.max
    ensures 0 < |Decimal(n)| <= lim.digits10 + 1
  {
    hide Decimal;
    Pow10Limits();
    DecimalLength(n, lim.digits10 + 1);
  }

  lemma ReadsStr(t: string, rest: string)
    requires |t| <= SIZE.max
    ensures ReadStr(EncodeStr(t) + rest) == Ok(t, rest)
    ensures EncodeStr(t) != [] && IsDigit(EncodeStr(t)[0])
  {
    hide Digits;
    assert EncodeStr(t) + rest == Decimal(|t|) + (":" + t + rest);
    DigitsDecimal(|t|, SIZE, 1, ":" + t + rest);
  }

  lemma ReadsInt(v: int, rest: string)
    requires LONG_LONG.min <= v <= LONG_LONG.max
    ensures ReadInt("i" + WriteInteger(v) + "e" + rest) == Ok(v, rest)
  {
    hide ReadInt, WriteInteger;
    if v < 0 {
      ReadsNegative(v, rest);
    } else {
      ReadsNatural(v, rest);
    }
  }

  lemma ReadsNegative(v: int, rest: string)
    requires LONG_LONG.min <= v < 0
    ensures ReadInt("i" + WriteInteger(v) + "e" + rest) == Ok(v, rest)
  {
    hide Digits, Decimal;
    var s, tail := "i" + WriteInteger(v) + "e" + rest, "e" + rest;
    DigitsDecimal(-v, LONG_LONG, -1, tail);
    assert s == ['i', '-'] + (Decimal(-v) + tail);
    assert s[1..][0] == '-' && s[2..] == Decimal(-v) + tail;
    assert tail[1..] == rest;
  }

  lemma ReadsNatural(v: nat, rest: string)
    requires v <= LONG_LONG.max
    ensures ReadInt("i" + WriteInteger(v) + "e" + rest) == Ok(v, rest)
  {
    hide Digits, Decimal;
    var s, tail := "i" + WriteInteger(v) + "e" + rest, "e" + rest;
    LimitDigits(v, LONG_LONG, 1);
    DigitsDecimal(v, LONG_LONG, 1, tail);
    assert IsDigit(Decimal(v)[0]);
    assert s == ['i'] + (Decimal(v) + tail);
    assert s[1..] == Decimal(v) + tail;
    assert s[1..][0] == Decimal(v)[0] != '-';
    assert tail[1..] == rest;
  }

  lemma {:induction false} LessTransitive(a: string, b: string, c: string)
    requires Less(a, b) && Less(b, c)
    ensures Less(a, c)
  {
    if a != [] && a[0] == b[0] == c[0] {
      LessTransitive(a[1..], b[1..], c[1..]);
    }
  }

  lemma {:induction false} LessIrreflexive(a: string)
    ensures !Less(a, a)
  {
    if a != [] {
      LessIrreflexive(a[1..]);
    }
  }

  lemma LessAsymmetric(a: string, b: string)
    requires Less(a, b)
    ensures !Less(b, a) && a != b
  {
    LessIrreflexive(a);
    if Less(b, a) {
      LessTransitive(a, b, a);
    }
  }

  lemma {:induction false} LessTotal(a: string, b: string)
    ensures Less(a, b) || a == b || Less(b, a)
  {
    if a != [] && b != [] {
      LessTotal(a[1..], b[1..]);
      if a[0] == b[0] && a[1..] == b[1..] {
        assert a == [a[0]] + a[1..] && b == [b[0]] + b[1..];
      }
    }
  }

  /** A key above all others is inserted at the end. */
  lemma {:induction false} InsertLast(es: seq<Entry>, k: string, v: Data)
    requires forall e :: e in es ==> Less(e.key, k)
    ensures Insert(es, k, v) == es + [Entry(k, v)] && k !in Keys(es)
  {
    if es != [] {
      LessAsymmetric(es[0].key, k);
      InsertLast(es[1..], k, v);
    }
    if e :| e in es && e.key == k {
      LessIrreflexive(k);
    }
  }

  /** The first byte of an encoding tells which kind of value it is, and is never the end mark. */
  lemma EncodeStarts(d: Data)
    requires Valid(d)
    ensures Encode(d) != [] && Encode(d)[0] != 'e'
  {
    if d.Str? {
      ReadsStr(d.text, []);
    }
  }

  /** The round trip: reading what was written, before any further input, gives the value back and
      stops at that input. */
  lemma {:induction false} RoundTrip(d: Data, rest: string)
    requires Valid(d)
    ensures Read(Encode(d) + rest) == Ok(d, rest)
    decreases d, 1, 0
  {
    hide ReadInt, ReadStr, EncodeStr, WriteInteger, ReadItems, ReadEntries, EncodeItems, EncodeEntries, Sorted;
    var s := Encode(d) + rest;
    match d
    case Int(v) =>
      ReadsInt(v, rest);
      assert s == "i" + WriteInteger(v) + "e" + rest;
    case Str(t) =>
      ReadsStr(t, rest);
    case List(items) =>
      assert s[1..] == EncodeItems(items) + ("e" + rest);
      ItemsRoundTrip(d, items, 0, rest);
      assert items[0..] == items && items[..0] == [];
    case Dict(es) =>
      assert s[1..] == EncodeEntries(es) + ("e" + rest);
      EntriesRoundTrip(d, es, 0, rest);
      assert es[0..] == es && es[..0] == [];
  }

  lemma {:induction false} ItemsRoundTrip(d: Data, items: seq<Data>, i: nat, rest: string)
    requires Valid(d) && d == List(items) && i <= |items|
    ensures ReadItems(items[..i], EncodeItems(items[i..]) + ("e" + rest)) == Ok(d, rest)
    decreases d, 0, |items| - i
  {
    hide Encode, Read;
    var tail := "e" + rest;
    var s := EncodeItems(items[i..]) + tail;
    if i == |items| {
      assert s == tail && tail[1..] == rest && items[..i] == items;
    } else {
      var more := EncodeItems(items[i + 1..]) + tail;
      assert items[i..][1..] == items[i + 1..];
      assert s == Encode(items[i]) + more;
      RoundTrip(items[i], more);
      EncodeStarts(items[i]);
      assert items[..i] + [items[i]] == items[..i + 1];
      ItemsRoundTrip(d, items, i + 1, rest);
    }
  }

  lemma {:induction false} EntriesRoundTrip(d: Data, es: seq<Entry>, i: nat, rest: string)
    requires Valid(d) && d == Dict(es) && i <= |es|
    ensures ReadEntries(es[..i], EncodeEntries(es[i..]) + ("e" + rest)) == Ok(d, rest)
    decreases d, 0, |es| - i
  {
    hide Encode, Read, ReadStr, EncodeStr, Less, Insert, Keys;
    var tail := "e" + rest;
    var s := EncodeEntries(es[i..]) + tail;
    if i == |es| {
      assert s == tail && tail[1..] == rest && es[..i] == es;
    } else {
      var e := es[i];
      var more := EncodeEntries(es[i + 1..]) + tail;
      assert es[i..][1..] == es[i + 1..];
      assert s == EncodeStr(e.key) + (Encode(e.value) + more);
      ReadsStr(e.key, Encode(e.value) + more);
      RoundTrip(e.value, more);
      InsertLast(es[..i], e.key, e.value);
      assert es[..i] + [e] == es[..i + 1];
      EntriesRoundTrip(d, es, i + 1, rest);
    }
  }

  /** Encodings are self-delimiting: two that begin the same input are of the same value. */
  lemma EncodingUnique(d: Data, d': Data, rest: string, rest': string)
    requires Valid(d) && Valid(d') && Encode(d) + rest == Encode(d') + rest'
    ensures d == d' && rest == rest'
  {
    RoundTrip(d, rest);
    RoundTrip(d', rest');
  }

  // ----- What is read is a value -----

  lemma DigitsInRange(s: string, lim: Limits, sgn: int)
    requires Sign(lim, sgn) && Digits(s, lim, sgn).Ok?
    ensures lim.min <= Digits(s, lim, sgn).value <= lim.max
  {
    DigitRunDigits(s);
    if DigitRun(s) <= lim.digits10 {
      FewDigitsFit(s[..DigitRun(s)], lim, sgn);
    }
  }

  lemma {:induction false} InsertContents(es: seq<Entry>, k: string, v: Data)
    ensures forall e :: e in Insert(es, k, v) <==> e in es || e == Entry(k, v)
  {
    if es != [] && !Less(k, es[0].key) {
      InsertContents(es[1..], k, v);
      assert es == [es[0]] + es[1..];
    }
  }

  lemma {:induction false} InsertSorted(es: seq<Entry>, k: string, v: Data)
    requires Sorted(es) && k !in Keys(es)
    ensures Sorted(Insert(es, k, v))
  {
    hide Less;
    if es != [] && !Less(k, es[0].key) {
      InsertContents(es[1..], k, v);
      InsertSorted(es[1..], k, v);
      var r := Insert(es[1..], k, v);
      forall j | 0 <= j < |r|
        ensures Less(es[0].key, r[j].key)
      {
        assert r[j] in r;
        LessTotal(es[0].key, k);
        if r[j] in es[1..] {
          var m :| 0 <= m < |es[1..]| && es[1..][m] == r[j];
          assert es[m + 1] == r[j];
        }
      }
    } else if es != [] {
      forall j | 0 <= j < |es|
        ensures Less(k, es[j].key)
      {
        if j > 0 {
          LessTransitive(k, es[0].key, es[j].key);
        }
      }
    }
  }

  ghost predicate ValidEntries(es: seq<Entry>) {
    Sorted(es) && forall e :: e in es ==> |e.key| <= SIZE.max && Valid(e.value)
  }

  ghost predicate ValidItems(items: seq<Data>) {
    forall d :: d in items ==> Valid(d)
  }

  /** Everything the decoder accepts is a value: integers in range, keys sorted and distinct. */
  lemma {:induction false} ReadValid(s: string)
    requires Read(s).Ok?
    ensures Valid(Read(s).value)
    decreases |s|, 0
  {
    hide Digits, Insert, Sorted, DigitRun;
    if s[0] == 'i' {
      var sgn := if Starts(s[1..], '-') then -1 else 1;
      DigitsInRange(s[if sgn == 1 then 1 else 2..], LONG_LONG, sgn);
    } else if s[0] == 'l' {
      ReadItemsValid([], s[1..]);
    } else if s[0] == 'd' {
      assert Sorted([]) by {
        EmptySorted();
      }
      ReadEntriesValid([], s[1..]);
    } else {
      DigitsInRange(s, SIZE, 1);
    }
  }

  lemma EmptySorted()
    ensures Sorted([])
  {
  }

  lemma {:induction false} ReadItemsValid(items: seq<Data>, s: string)
    requires ValidItems(items) && ReadItems(items, s).Ok?
    ensures Valid(ReadItems(items, s).value)
    decreases |s|, 1
  {
    hide Read;
    if s[0] != 'e' {
      ReadValid(s);
      ReadItemsValid(items + [Read(s).value], Read(s).rest);
    }
  }

  lemma {:induction false} ReadEntriesValid(es: seq<Entry>, s: string)
    requires ValidEntries(es) && ReadEntries(es, s).Ok?
    ensures Valid(ReadEntries(es, s).value)
    decreases |s|, 1
  {
    hide Read, Insert, Sorted, Digits;
    if s[0] != 'e' {
      var k := ReadStr(s);
      DigitsInRange(s, SIZE, 1);
      var r := Read(k.rest);
      ReadValid(k.rest);
      InsertSorted(es, k.value, r.value);
      InsertContents(es, k.value, r.value);
      ReadEntriesValid(Insert(es, k.value, r.value), r.rest);
    }
  }

  // ----- The decoder with its own stack -----

  /** A pointer into the value under construction: the way down from the root.  The decoder only
      ever points to the last element of a list or to an entry of a dictionary. */
  datatype Way = Back | At(key: string)
  type Pointer = seq<Way>

  function Lookup(es: seq<Entry>, k: string): Option<Data> {
    if es == [] then None else if es[0].key == k then Some(es[0].value) else Lookup(es[1..], k)
  }

  function Assign(es: seq<Entry>, k: string, v: Data): seq<Entry> {
    if es == [] then [] else if es[0].key == k then [Entry(k, v)] + es[1..] else [es[0]] + Assign(es[1..], k, v)
  }

  function Child(d: Data, w: Way): Option<Data> {
    match (d, w)
    case (List(items), Back) => if items == [] then None else Some(items[|items| - 1])
    case (Dict(es), At(k)) => Lookup(es, k)
    case _ => None
  }

  function WithChild(d: Data, w: Way, v: Data): Data {
    match (d, w)
    case (List(items), Back) => if items == [] then d else List(items[..|items| - 1] + [v])
    case (Dict(es), At(k)) => Dict(Assign(es, k, v))
    case _ => d
  }

  function Deref(d: Data, p: Pointer): Option<Data> {
    if p == [] then Some(d)
    else
      var parent := Deref(d, p[..|p| - 1]);
      if parent.None? then None else Child(parent.value, p[|p| - 1])
  }

  /** Assignment through a pointer. */
  function Updated(d: Data, p: Pointer, v: Data): Data
    requires Deref(d, p).Some?
  {
    if p == [] then v
    else Updated(d, p[..|p| - 1], WithChild(Deref(d, p[..|p| - 1]).value, p[|p| - 1], v))
  }

  lemma {:induction false} AssignLookup(es: seq<Entry>, k: string, v: Data, w: Data)
    requires Lookup(es, k).Some?
    ensures Lookup(Assign(es, k, v), k) == Some(v) && Assign(Assign(es, k, v), k, w) == Assign(es, k, w)
  {
    if es[0].key != k {
      AssignLookup(es[1..], k, v, w);
    }
  }

  lemma WithChildChild(d: Data, w: Way, v: Data, v': Data)
    requires Child(d, w).Some?
    ensures Child(WithChild(d, w, v), w) == Some(v)
    ensures WithChild(WithChild(d, w, v), w, v') == WithChild(d, w, v')
  {
    if d.Dict? {
      AssignLookup(d.entries, w.key, v, v');
    }
  }

  lemma {:induction false} DerefUpdated(d: Data, p: Pointer, v: Data, v': Data)
    requires Deref(d, p).Some?
    ensures Deref(Updated(d, p, v), p) == Some(v)
    ensures Updated(Updated(d, p, v), p, v') == Updated(d, p, v')
  {
    hide Child, WithChild;
    if p != [] {
      var q, w := p[..|p| - 1], p[|p| - 1];
      var c := Deref(d, q).value;
      WithChildChild(c, w, v, v');
      DerefUpdated(d, q, WithChild(c, w, v), WithChild(WithChild(c, w, v), w, v'));
    }
  }

  /** The rest of the container that a pointer leads to. */
  function ReadRest(c: Data, s: string): Parsed<Data> {
    match c
    case List(items) => ReadItems(items, s)
    case Dict(es) => ReadEntries(es, s)
    case _ => Err
  }

  /** The container that the top pointer leads to has been read as `r`; then the rest of each
      container around it is read, from the inside out. */
  function After(result: Data, p: Pointer, r: Parsed<Data>): Parsed<Data>
    requires Deref(result, p).Some?
    decreases |p|
  {
    if r.Err? then Err
    else
      var result' := Updated(result, p, r.value);
      if p == [] then Ok(result', r.rest)
      else
        var q := p[..|p| - 1];
        DerefUpdated(result, p, r.value, r.value);
        After(result', q, ReadRest(Deref(result', q).value, r.rest))
  }

  function Top(state: seq<Pointer>): Pointer
    requires state != []
  {
    state[|state| - 1]
  }

  /** The stack holds the way to the innermost container and its beginnings. */
  ghost predicate Stacked(result: Data, state: seq<Pointer>) {
    state != [] ==>
      && Deref(result, Top(state)).Some? && |Top(state)| == |state| - 1
      && forall i :: 0 <= i < |state| ==> state[i] == Top(state)[..i]
  }

  /** What the decoder will return if it goes on. */
  function Remaining(result: Data, state: seq<Pointer>, s: string): Parsed<Data>
    requires state != [] ==> Deref(result, Top(state)).Some?
  {
    if state == [] then Ok(result, s)
    else After(result, Top(state), ReadRest(Deref(result, Top(state)).value, s))
  }

  /** The list or dictionary with a new element, and the way to the element. */
  function Attached(c: Data, key: string, v: Data): Data {
    match c
    case List(items) => List(items + [v])
    case Dict(es) => Dict(Insert(es, key, v))
    case _ => c
  }

  function WayTo(c: Data, key: string): Way {
    if c.Dict? then At(key) else Back
  }

  predicate Duplicate(c: Data, key: string) {
    c.Dict? && key in Keys(c.entries)
  }

  predicate Container(d: Data) {
    d.List? || d.Dict?
  }

  /** The rest of a container, from the value of an element on. */
  function ReadElement(c: Data, key: string, s: string): Parsed<Data> {
    if Duplicate(c, key) || Read(s).Err? then Err
    else ReadRest(Attached(c, key, Read(s).value), Read(s).rest)
  }

  /** What the decoder will return if it goes on with the value of an element. */
  function Expected(result: Data, state: seq<Pointer>, key: string, s: string): Parsed<Data>
    requires state != [] ==> Deref(result, Top(state)).Some?
  {
    if state == [] then Read(s)
    else After(result, Top(state), ReadElement(Deref(result, Top(state)).value, key, s))
  }

  lemma {:induction false} InsertLookup(es: seq<Entry>, k: string, v: Data, w: Data)
    requires k !in Keys(es)
    ensures Lookup(Insert(es, k, v), k) == Some(v) && Assign(Insert(es, k, v), k, w) == Insert(es, k, w)
  {
    if es != [] && !Less(k, es[0].key) {
      assert es[0] in es && forall e :: e in es[1..] ==> e in es;
      InsertLookup(es[1..], k, v, w);
    }
  }

  lemma AttachedChild(c: Data, key: string, v: Data, v': Data)
    requires Container(c) && !Duplicate(c, key)
    ensures Child(Attached(c, key, v), WayTo(c, key)) == Some(v)
    ensures WithChild(Attached(c, key, v), WayTo(c, key), v') == Attached(c, key, v')
  {
    if c.Dict? {
      InsertLookup(c.entries, key, v, v');
    }
  }

  lemma {:induction false} AssignSame(es: seq<Entry>, k: string)
    requires Lookup(es, k).Some?
    ensures Assign(es, k, Lookup(es, k).value) == es
  {
    if es[0].key != k {
      AssignSame(es[1..], k);
    }
  }

  lemma {:induction false} UpdatedSame(d: Data, p: Pointer)
    requires Deref(d, p).Some?
    ensures Updated(d, p, Deref(d, p).value) == d
  {
    if p != [] {
      var q, w := p[..|p| - 1], p[|p| - 1];
      var c := Deref(d, q).value;
      if c.Dict? {
        AssignSame(c.entries, w.key);
      } else {
        assert c.items[..|c.items| - 1] + [c.items[|c.items| - 1]] == c.items;
      }
      assert WithChild(c, w, Child(c, w).value) == c;
      UpdatedSame(d, q);
    }
  }

  /** Only what the container is read as matters, not what it holds by then. */
  lemma AfterUpdated(result: Data, p: Pointer, c: Data, r: Parsed<Data>)
    requires Deref(result, p).Some?
    ensures Deref(Updated(result, p, c), p).Some?
    ensures After(Updated(result, p, c), p, r) == After(result, p, r)
  {
    hide Child, WithChild;
    DerefUpdated(result, p, c, if r.Ok? then r.value else c);
  }

  /** The end mark closes the innermost container. */
  lemma Closes(result: Data, state: seq<Pointer>, s: string)
    requires Stacked(result, state) && state != [] && Starts(s, 'e') && Container(Deref(result, Top(state)).value)
    ensures Stacked(result, state[..|state| - 1])
    ensures |state| > 1 ==> Container(Deref(result, Top(state[..|state| - 1])).value)
    ensures Remaining(result, state[..|state| - 1], s[1..]) == Remaining(result, state, s)
  {
    var p := Top(state);
    UpdatedSame(result, p);
    if p != [] {
      var state' := state[..|state| - 1];
      assert Top(state') == p[..|p| - 1];
    }
  }

  /** A value that needs no stack is stored. */
  lemma Stores(result: Data, state: seq<Pointer>, key: string, s: string)
    requires Stacked(result, state) && state != [] && Container(Deref(result, Top(state)).value)
    requires Read(s).Ok? && !Duplicate(Deref(result, Top(state)).value, key)
    ensures
      var result' := Updated(result, Top(state), Attached(Deref(result, Top(state)).value, key, Read(s).value));
      Stacked(result', state) && Remaining(result', state, Read(s).rest) == Expected(result, state, key, s)
  {
    hide Child, WithChild, Read, After, ReadRest, Attached;
    var p := Top(state);
    var c := Attached(Deref(result, p).value, key, Read(s).value);
    DerefUpdated(result, p, c, c);
    AfterUpdated(result, p, c, ReadRest(c, Read(s).rest));
  }

  /** An empty container is stored, and the stack gets a pointer to it. */
  lemma Opens(result: Data, state: seq<Pointer>, key: string, s: string, empty: Data)
    requires Stacked(result, state) && state != [] && Container(Deref(result, Top(state)).value)
    requires !Duplicate(Deref(result, Top(state)).value, key)
    requires s != [] && Read(s) == ReadRest(empty, s[1..])
    ensures
      var c := Deref(result, Top(state)).value;
      var result' := Updated(result, Top(state), Attached(c, key, empty));
      var state' := state + [Top(state) + [WayTo(c, key)]];
      Stacked(result', state') && Remaining(result', state', s[1..]) == Expected(result, state, key, s)
  {
    hide Child, WithChild, Read, ReadRest, Attached;
    var p := Top(state);
    var c := Deref(result, p).value;
    var w := WayTo(c, key);
    var q := p + [w];
    assert q[..|q| - 1] == p;
    var result' := Updated(result, p, Attached(c, key, empty));
    var r := ReadRest(empty, s[1..]);
    var v := if r.Ok? then r.value else empty;
    AttachedChild(c, key, empty, v);
    DerefUpdated(result, p, Attached(c, key, empty), Attached(c, key, v));
    if r.Ok? {
      var d := Attached(c, key, v);
      assert Updated(result', q, v) == Updated(result, p, d);
      DerefUpdated(result, p, d, d);
      AfterUpdated(result, p, d, ReadRest(d, r.rest));
    }
  }

  method DecodeInt(s: string) returns (r: Parsed<int>)
    requires Starts(s, 'i')
    ensures r == ReadInt(s)
  {
    hide Digits;
    var begin, sgn := 1, 1;
    if Starts(s[begin..], '-') {
      sgn := -1;
      begin := begin + 1;
    }
    r := DecodeDigits(s[begin..], LONG_LONG, sgn);
    if r.Err? || !Starts(r.rest, 'e') {
      return Err;
    }
    return Ok(r.value, r.rest[1..]);
  }

  method DecodeStr(s: string) returns (r: Parsed<string>)
    ensures r == ReadStr(s)
  {
    hide Digits;
    var len := DecodeDigits(s, SIZE, 1);
    if len.Err? || !Starts(len.rest, ':') {
      return Err;
    }
    var rest, value := len.rest[1..], [];
    var i := 0;
    while i < len.value
      invariant 0 <= i <= len.value && i <= |rest| && value == rest[..i]
    {
      if i == |rest| {
        return Err;
      }
      value := value + [rest[i]];
      i := i + 1;
    }
    assert len.rest[1..1 + i] == value && len.rest[1 + i..] == rest[i..];
    return Ok(value, rest[i..]);
  }

  /** `store` of a finished value. */
  method StoreValue(result: Data, state: seq<Pointer>, key: string, v: Data, ghost s: string, ghost rest: string)
    returns (ok: bool, result': Data)
    requires Stacked(result, state) && (state != [] ==> Container(Deref(result, Top(state)).value))
    requires Read(s) == Ok(v, rest)
    ensures !ok ==> Expected(result, state, key, s) == Err
    ensures ok ==> Stacked(result', state) && (state != [] ==> Container(Deref(result', Top(state)).value))
    ensures ok ==> Remaining(result', state, rest) == Expected(result, state, key, s)
  {
    hide Read, ReadRest;
    if state == [] {
      return true, v;
    }
    var c := Deref(result, Top(state)).value;
    if Duplicate(c, key) {
      return false, result;
    }
    Stores(result, state, key, s);
    DerefUpdated(result, Top(state), Attached(c, key, v), v);
    return true, Updated(result, Top(state), Attached(c, key, v));
  }

  /** `state.push(store(…))` of an empty list or dictionary. */
  method OpenContainer(result: Data, state: seq<Pointer>, key: string, empty: Data, ghost s: string)
    returns (ok: bool, result': Data, state': seq<Pointer>)
    requires Stacked(result, state) && (state != [] ==> Container(Deref(result, Top(state)).value))
    requires s != [] && Container(empty) && Read(s) == ReadRest(empty, s[1..])
    ensures !ok ==> Expected(result, state, key, s) == Err
    ensures ok ==> Stacked(result', state') && state' != [] && Container(Deref(result', Top(state')).value)
    ensures ok ==> Remaining(result', state', s[1..]) == Expected(result, state, key, s)
  {
    hide Read, ReadRest, Child, WithChild, Attached;
    if state == [] {
      return true, empty, [[]];
    }
    var p := Top(state);
    var c := Deref(result, p).value;
    if Duplicate(c, key) {
      return false, result, state;
    }
    result', state' := Updated(result, p, Attached(c, key, empty)), state + [p + [WayTo(c, key)]];
    ok := true;
    Opens(result, state, key, s, empty);
    AttachedChild(c, key, empty, empty);
    DerefUpdated(result, p, Attached(c, key, empty), empty);
    assert (p + [WayTo(c, key)])[..|p|] == p;
  }

  /** The dispatch on the first byte of a value. */
  method DecodeValue(result: Data, state: seq<Pointer>, key: string, s: string)
    returns (ok: bool, result': Data, state': seq<Pointer>, rest: string)
    requires Stacked(result, state) && (state != [] ==> Container(Deref(result, Top(state)).value))
    requires s != []
    ensures !ok ==> Expected(result, state, key, s) == Err
    ensures ok ==> Stacked(result', state') && (state' != [] ==> Container(Deref(result', Top(state')).value))
    ensures ok ==> Remaining(result', state', rest) == Expected(result, state, key, s) && |rest| < |s|
  {
    hide ReadStr, ReadInt, Child, WithChild, Updated, Stacked, Deref, Remaining, ReadItems, ReadEntries;
    ok, result', state', rest := false, result, state, s;
    if s[0] == 'i' {
      var v := DecodeInt(s);
      if v.Ok? {
        ok, result' := StoreValue(result, state, key, Int(v.value), s, v.rest);
        rest := v.rest;
      }
    } else if s[0] == 'l' {
      ok, result', state' := OpenContainer(result, state, key, List([]), s);
      rest := s[1..];
    } else if s[0] == 'd' {
      ok, result', state' := OpenContainer(result, state, key, Dict([]), s);
      rest := s[1..];
    } else if IsDigit(s[0]) {
      var v := DecodeStr(s);
      if v.Ok? {
        ok, result' := StoreValue(result, state, key, Str(v.value), s, v.rest);
        rest := v.rest;
      }
    }
  }

  /** `basic_decode`: on every input, exactly what recursive descent reads, and it stops at the same
      place. */
  method Decode(input: string) returns (r: Parsed<Data>)
    ensures r == Read(input)
  {
    hide ReadStr, ReadInt, Child, WithChild, Updated, Deref, Insert;
    var s, key := input, "";
    var result, state: seq<Pointer> := Int(0), [];
    var again := true;
    while again
      invariant Stacked(result, state) && (state != [] ==> Container(Deref(result, Top(state)).value))
      invariant again ==> (if state == [] then s == input else Remaining(result, state, s) == Read(input))
      invariant !again ==> state == [] && Ok(result, s) == Read(input)
      decreases again, |s|
    {
      if s == [] {
        return Err;
      }
      ghost var s0 := s;
      if s[0] == 'e' {
        if state == [] {
          return Err;
        }
        Closes(result, state, s);
        s, state := s[1..], state[..|state| - 1];
      } else {
        if state != [] && Deref(result, Top(state)).value.Dict? {
          if !IsDigit(s[0]) {
            return Err;
          }
          var k := DecodeStr(s);
          if k.Err? {
            return Err;
          }
          key, s := k.value, k.rest;
          if s == [] {
            return Err;
          }
        }
        assert Expected(result, state, key, s) == Read(input);
        var ok;
        ok, result, state, s := DecodeValue(result, state, key, s);
        if !ok {
          return Err;
        }
      }
      again := state != [];
    }
    return Ok(result, s);
  }
}
