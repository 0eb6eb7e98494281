/** The SLIP network device (PROTOCOL section of RFC 1055): packets of the network interface are escaped for
    the serial line, and what the serial line sends is collected into packets. */
module Slip {

  type Byte = x: int | 0 <= x < 256

  const END: Byte := 0xC0
  const ESC: Byte := 0xDB
  const ESC_END: Byte := 0xDC
  const ESC_ESC: Byte := 0xDD

  const STEP: nat := 1500

  type Packet = seq<Byte>

  // ----- Encoding -----

  function Escaped(b: Byte): seq<Byte> {
    if b == END then [ESC, ESC_END] else if b == ESC then [ESC, ESC_ESC] else [b]
  }

  function Escape(p: Packet): seq<Byte> {
    if p == [] then [] else Escape(p[..|p| - 1]) + Escaped(p[|p| - 1])
  }

  function Framed(p: Packet): seq<Byte> {
    Escape(p) + [END]
  }

  function FramedAll(ps: seq<Packet>): seq<Byte> {
    if ps == [] then [] else Framed(ps[0]) + FramedAll(ps[1..])
  }

  /** `handle_input`, with the bytes it pushes to the receive queue. */
  method HandleInput(p: Packet) returns (pushed: seq<Byte>)
    ensures pushed == Framed(p)
  {
    pushed := [];
    for i := 0 to |p|
      invariant pushed == Escape(p[..i])
    {
      assert p[..i + 1][..i] == p[..i];
      if p[i] == END {
        pushed := pushed + [ESC];
        pushed := pushed + [ESC_END];
      } else if p[i] == ESC {
        pushed := pushed + [ESC];
        pushed := pushed + [ESC_ESC];
      } else {
        pushed := pushed + [p[i]];
      }
    }
    assert p[..|p|] == p;
    pushed := pushed + [END];
  }

  // ----- Decoding -----

  /** The bytes of the packet under way and the packets that were written to the network interface. */
  datatype Line = Line(buffer: seq<Byte>, sent: seq<Packet>)

  predicate AfterEsc(b: seq<Byte>) {
    b != [] && b[|b| - 1] == ESC
  }

  function Received(l: Line, data: Byte): Line {
    var b := l.buffer;
    if data == END then if b == [] then l else Line([], l.sent + [b])
    else if AfterEsc(b) && data == ESC_END then l.(buffer := b[..|b| - 1] + [END])
    else if AfterEsc(b) && data == ESC_ESC then l
    else l.(buffer := b + [data])
  }

  function ReceivedAll(l: Line, s: seq<Byte>): Line
    decreases |s|
  {
    if s == [] then l else ReceivedAll(Received(l, s[0]), s[1..])
  }

  lemma {:induction false} ReceivedAppend(l: Line, s: seq<Byte>, t: seq<Byte>)
    ensures ReceivedAll(l, s + t) == ReceivedAll(ReceivedAll(l, s), t)
    decreases |s|
  {
    if s == [] {
      assert s + t == t;
    } else {
      assert (s + t)[1..] == s[1..] + t;
      ReceivedAppend(Received(l, s[0]), s[1..], t);
    }
  }

  /** What a packet has become when its escaped bytes are received: an ESC in the packet, followed by a byte
      that stands for an escaped one, is taken for an escape sequence. */
  function Garbled(p: Packet): seq<Byte> {
    if p == [] then []
    else
      var b, x := Garbled(p[..|p| - 1]), p[|p| - 1];
      if AfterEsc(b) && x == ESC_END then b[..|b| - 1] + [END]
      else if AfterEsc(b) && x == ESC_ESC then b
      else b + [x]
  }

  /** No ESC is followed by a byte that stands for an escaped one. */
  predicate Clean(p: Packet) {
    forall i :: 0 <= i < |p| - 1 ==> !(p[i] == ESC && (p[i + 1] == ESC_END || p[i + 1] == ESC_ESC))
  }

  lemma ReceivedEscaped(l: Line, b: Byte)
    ensures ReceivedAll(l, Escaped(b)) ==
      if AfterEsc(l.buffer) && b == ESC_END then l.(buffer := l.buffer[..|l.buffer| - 1] + [END])
      else if AfterEsc(l.buffer) && b == ESC_ESC then l
      else l.(buffer := l.buffer + [b])
  {
    var e := Escaped(b);
    var l1 := Received(l, e[0]);
    assert ReceivedAll(l, e) == ReceivedAll(l1, e[1..]);
    if |e| == 2 {
      assert l1 == l.(buffer := l.buffer + [ESC]);
      assert e[1..] == [e[1]] && e[1..][1..] == [];
      assert ReceivedAll(l1, e[1..]) == Received(l1, e[1]);
      assert l1.buffer[..|l1.buffer| - 1] == l.buffer;
    }
  }

  lemma {:induction false} ReceivedEscape(p: Packet, sent: seq<Packet>)
    ensures ReceivedAll(Line([], sent), Escape(p)) == Line(Garbled(p), sent)
  {
    if p != [] {
      var q, x := p[..|p| - 1], p[|p| - 1];
      ReceivedEscape(q, sent);
      ReceivedAppend(Line([], sent), Escape(q), Escaped(x));
      ReceivedEscaped(Line(Garbled(q), sent), x);
    }
  }

  lemma {:induction false} GarbledNonEmpty(p: Packet)
    ensures Garbled(p) == [] <==> p == []
    ensures |Garbled(p)| <= |p|
  {
    if p != [] {
      GarbledNonEmpty(p[..|p| - 1]);
    }
  }

  predicate Collides(x: Byte, y: Byte) {
    x == ESC && (y == ESC_END || y == ESC_ESC)
  }

  lemma CleanLast(p: Packet)
    requires p != []
    ensures
      var q := p[..|p| - 1];
      Clean(p) <==> Clean(q) && (q != [] ==> !Collides(q[|q| - 1], p[|p| - 1]))
  {
    var q := p[..|p| - 1];
    assert forall i :: 0 <= i < |q| ==> q[i] == p[i];
  }

  /** Exactly the clean packets survive; any other one loses bytes. */
  lemma {:induction false} GarbledIff(p: Packet)
    ensures Clean(p) ==> Garbled(p) == p
    ensures !Clean(p) ==> |Garbled(p)| < |p|
  {
    hide Clean;
    if p == [] {
      NothingClean();
    } else {
      var q, x := p[..|p| - 1], p[|p| - 1];
      GarbledIff(q);
      CleanLast(p);
      assert p == q + [x];
    }
  }

  lemma NothingClean()
    ensures Clean([])
  {
  }

  /** The packets that arrive. */
  function Arriving(ps: seq<Packet>): seq<Packet> {
    if ps == [] then [] else (if ps[0] == [] then [] else [Garbled(ps[0])]) + Arriving(ps[1..])
  }

  lemma ReceivedFrame(p: Packet, sent: seq<Packet>)
    ensures ReceivedAll(Line([], sent), Framed(p)) == Line([], sent + if p == [] then [] else [Garbled(p)])
  {
    hide Garbled, Escape;
    var l := Line(Garbled(p), sent);
    ReceivedEscape(p, sent);
    GarbledNonEmpty(p);
    ReceivedAppend(Line([], sent), Escape(p), [END]);
    assert ReceivedAll(l, [END]) == Received(l, END) by {
      assert [END][1..] == [];
    }
  }

  lemma {:induction false} ReceivedFrames(ps: seq<Packet>, sent: seq<Packet>)
    ensures ReceivedAll(Line([], sent), FramedAll(ps)) == Line([], sent + Arriving(ps))
    decreases |ps|
  {
    hide Garbled, Framed, ReceivedAll;
    if ps == [] {
      NothingReceived(Line([], sent));
    } else {
      var now: seq<Packet>, rest := if ps[0] == [] then [] else [Garbled(ps[0])], Arriving(ps[1..]);
      ReceivedFrame(ps[0], sent);
      ReceivedAppend(Line([], sent), Framed(ps[0]), FramedAll(ps[1..]));
      ReceivedFrames(ps[1..], sent + now);
      AppendAssociative(sent, now, rest);
    }
  }

  lemma AppendAssociative(a: seq<Packet>, b: seq<Packet>, c: seq<Packet>)
    ensures a + b + c == a + (b + c)
  {
  }

  lemma NothingReceived(l: Line)
    ensures ReceivedAll(l, []) == l
  {
  }

  predicate Intact(ps: seq<Packet>) {
    forall i :: 0 <= i < |ps| ==> ps[i] != [] && Clean(ps[i])
  }

  lemma IntactFirst(ps: seq<Packet>)
    requires ps != []
    ensures Intact(ps) <==> ps[0] != [] && Clean(ps[0]) && Intact(ps[1..])
  {
    hide Clean;
    assert forall i :: 1 <= i < |ps| ==> ps[i] == ps[1..][i - 1];
  }

  lemma {:induction false} ArrivingIff(ps: seq<Packet>)
    ensures |Arriving(ps)| <= |ps|
    ensures Arriving(ps) == ps <==> Intact(ps)
  {
    hide Clean, Garbled;
    if ps != [] {
      hide Intact;
      var p, tail := ps[0], ps[1..];
      ArrivingIff(tail);
      IntactFirst(ps);
      GarbledIff(p);
      if p != [] {
        var r := Arriving(ps);
        assert r[0] == Garbled(p) && r[1..] == Arriving(tail) && ps == [p] + tail && r == [r[0]] + r[1..];
      }
    }
  }

  /** The round trip gives the packets back exactly if each of them is clean and not empty. */
  lemma RoundTripIff(ps: seq<Packet>)
    ensures ReceivedAll(Line([], []), FramedAll(ps)) == Line([], ps) <==> Intact(ps)
  {
    hide ReceivedAll, FramedAll, Intact;
    ReceivedFrames(ps, []);
    ArrivingIff(ps);
    assert [] + Arriving(ps) == Arriving(ps);
  }

  lemma PacketGarbled()
    ensures ReceivedAll(Line([], []), FramedAll([[ESC, ESC_END]])) == Line([], [[END]])
  {
    hide ReceivedAll, FramedAll;
    var p := [ESC, ESC_END];
    assert p[..1] == [ESC] && [ESC][..0] == [];
    assert Garbled([ESC]) == [ESC];
    assert Garbled(p) == [END];
    ReceivedFrames([p], []);
    assert [p][1..] == [];
  }

  // ----- The device -----

  class SLIP {
    var sndbuf: array<Byte>
    var sndsiz: nat

    /** The packets written to the network interface. */
    var written: seq<Packet>

    /** The buffer has a whole number of steps and room for what it holds. */
    ghost predicate Valid()
      reads this, sndbuf
    {
      sndbuf.Length >= STEP && sndbuf.Length % STEP == 0 && sndsiz <= sndbuf.Length
    }

    ghost function View(): Line
      requires Valid()
      reads this, sndbuf
    {
      Line(sndbuf[..sndsiz], written)
    }

    constructor ()
      ensures Valid() && fresh(sndbuf) && View() == Line([], [])
    {
      sndbuf := new Byte[STEP](_ => 0);
      sndsiz := 0;
      written := [];
    }

    /** `realloc`: the contents stay as far as they fit. */
    method Realloc(size: nat)
      modifies this`sndbuf
      ensures fresh(sndbuf) && sndbuf.Length == size
      ensures forall i :: 0 <= i < size && i < old(sndbuf.Length) ==> sndbuf[i] == old(sndbuf[i])
    {
      var old_ := sndbuf;
      sndbuf := new Byte[size](i => 0);
      forall i | 0 <= i < size && i < old_.Length {
        sndbuf[i] := old_[i];
      }
    }

    method SendPacket()
      requires Valid()
      modifies this
      ensures Valid() && (sndbuf == old(sndbuf) || fresh(sndbuf))
      ensures View() == Line([], old(written) + [old(sndbuf[..sndsiz])])
    {
      written := written + [sndbuf[..sndsiz]];
      if sndsiz > STEP {
        Realloc(STEP);
      }
      sndsiz := 0;
    }

    /** `write_data`: one byte from the serial line.  Every access is within the buffer. */
    method WriteData(data: Byte)
      requires Valid()
      modifies this, sndbuf
      ensures Valid() && (sndbuf == old(sndbuf) || fresh(sndbuf))
      ensures View() == Received(old(View()), data)
    {
      if data == END {
        if sndsiz > 0 {
          SendPacket();
        }
        return;
      }
      if sndsiz > 0 && sndbuf[sndsiz - 1] == ESC {
        if data == ESC_END {
          sndbuf[sndsiz - 1] := END;
          assert sndbuf[..sndsiz] == old(sndbuf[..sndsiz - 1]) + [END];
          return;
        } else if data == ESC_ESC {
          sndbuf[sndsiz - 1] := ESC;
          assert sndbuf[..sndsiz] == old(sndbuf[..sndsiz]);
          return;
        }
      }
      if sndsiz != 0 && sndsiz % STEP == 0 {
        Realloc(sndsiz + STEP);
      }
      sndbuf[sndsiz] := data;
      sndsiz := sndsiz + 1;
      assert sndbuf[..sndsiz] == old(sndbuf[..sndsiz]) + [data];
    }

    /** A whole stream, one byte at a time. */
    method WriteAll(s: seq<Byte>)
      requires Valid()
      modifies this, sndbuf
      ensures Valid() && (sndbuf == old(sndbuf) || fresh(sndbuf))
      ensures View() == ReceivedAll(old(View()), s)
    {
      var i := 0;
      assert s[0..] == s;
      while i < |s|
        invariant 0 <= i <= |s| && Valid() && (sndbuf == old(sndbuf) || fresh(sndbuf))
        invariant ReceivedAll(View(), s[i..]) == ReceivedAll(old(View()), s)
      {
        assert s[i..][0] == s[i] && s[i..][1..] == s[i + 1..];
        WriteData(s[i]);
        i := i + 1;
      }
    }
  }
}
