/** Packets over a byte stream: a header of fixed size that tells the length of what follows it. The
    stream may take and give bytes in pieces of any size. */
module Framing {
  import opened Bits
  import opened Sizes

  const HPACK_SIZE: nat := 40

  // ---- byte order ----

  /** The bytes of a number, most significant first. */
  function Big(v: uint32): (s: seq<byte>)
    ensures |s| == 4
  {
    [v / 0x100 / 0x100 / 0x100, v / 0x100 / 0x100 % 0x100, v / 0x100 % 0x100, v % 0x100]
  }

  function Little(v: uint32): (s: seq<byte>)
    ensures |s| == 4
  {
    [v % 0x100, v / 0x100 % 0x100, v / 0x100 / 0x100 % 0x100, v / 0x100 / 0x100 / 0x100]
  }

  function FromDigits(a: byte, b: byte, c: byte, d: byte): uint32 {
    ((a * 0x100 + b) * 0x100 + c) * 0x100 + d
  }

  /** A 32-bit number in the memory of a host, and read back. */
  function Store(v: uint32, bigEndian: bool): (s: seq<byte>)
    ensures |s| == 4
  {
    if bigEndian then Big(v) else Little(v)
  }

  function Load(s: seq<byte>, bigEndian: bool): uint32
    requires |s| == 4
  {
    if bigEndian then FromDigits(s[0], s[1], s[2], s[3]) else FromDigits(s[3], s[2], s[1], s[0])
  }

  /** `htonl`, and `ntohl`: the number itself on a big-endian host, its bytes swapped on any other. */
  function Htonl(v: uint32, bigEndian: bool): uint32 {
    if bigEndian then v else FromDigits(Little(v)[0], Little(v)[1], Little(v)[2], Little(v)[3])
  }

  lemma NumberOfDigits(v: uint32)
    ensures FromDigits(Big(v)[0], Big(v)[1], Big(v)[2], Big(v)[3]) == v
  {
    var v1 := v / 0x100;
    var v2 := v1 / 0x100;
  }

  lemma DigitsOfNumber(a: byte, b: byte, c: byte, d: byte)
    ensures Big(FromDigits(a, b, c, d)) == [a, b, c, d] && Little(FromDigits(a, b, c, d)) == [d, c, b, a]
  {
    var v := FromDigits(a, b, c, d);
    var v2: int := a * 0x100 + b;
    var v1: int := v2 * 0x100 + c;
    QuotientUnique(v, 0x100, v1, d);
    QuotientUnique(v1, 0x100, v2, c);
    QuotientUnique(v2, 0x100, a, b);
  }

  /** A number in network order has the same image on every host, most significant byte first. */
  lemma NetworkImage(v: uint32, bigEndian: bool)
    ensures Store(Htonl(v, bigEndian), bigEndian) == Big(v)
  {
    if !bigEndian { DigitsOfNumber(Little(v)[0], Little(v)[1], Little(v)[2], Little(v)[3]); }
  }

  /** And every host reads it back. */
  lemma NetworkRead(v: uint32, bigEndian: bool)
    ensures Htonl(Load(Big(v), bigEndian), bigEndian) == v
  {
    NumberOfDigits(v);
    if !bigEndian { DigitsOfNumber(Big(v)[3], Big(v)[2], Big(v)[1], Big(v)[0]); }
  }

  /** In plain numbers, on hosts of both kinds. */
  lemma ByteOrderIs()
    ensures Big(0x01020304) == [1, 2, 3, 4] && Htonl(0x01020304, true) == 0x01020304
    ensures Htonl(0x01020304, false) == 0x04030201
    ensures Store(0x01020304, true) == [1, 2, 3, 4] && Store(0x01020304, false) == [4, 3, 2, 1]
  {}

  // ---- frames ----

  /** A header: its size field, and the image of what stands before and after it. */
  datatype Header = Header(front: seq<byte>, size: uint32, back: seq<byte>)
  {
    predicate Valid() {
      |front| == 4 && |back| == 32
    }

    /** In memory. */
    function Image(bigEndian: bool): (s: seq<byte>)
      requires Valid()
      ensures |s| == HPACK_SIZE
    {
      front + Store(size, bigEndian) + back
    }
  }

  function FromImage(s: seq<byte>, bigEndian: bool): (h: Header)
    requires |s| == HPACK_SIZE
    ensures h.Valid()
  {
    Header(s[..4], Load(s[4..8], bigEndian), s[8..])
  }

  datatype Packet = Packet(header: Header, payload: seq<byte>)
  {
    predicate Valid() {
      header.Valid() && header.size == |payload| && |payload| + HPACK_SIZE <= INT_MAX
    }

    /** On the wire: the size in network order. */
    function Frame(): (s: seq<byte>)
      requires Valid()
      ensures |s| == HPACK_SIZE + |payload|
    {
      header.front + Big(header.size) + header.back + payload
    }
  }

  /** Byte for byte: four bytes of the header, the length of the payload with its most significant byte first, the
      other 32 bytes of the header, and the payload. */
  lemma FrameLayout(p: Packet)
    requires p.Valid()
    ensures var (f, n) := (p.Frame(), |p.payload|);
            && |f| == 40 + n && f[..4] == p.header.front && f[8..40] == p.header.back && f[40..] == p.payload
            && f[4] == n / 0x100_0000 && f[5] == n / 0x1_0000 % 0x100 && f[6] == n / 0x100 % 0x100 && f[7] == n % 0x100
  {
    var n, f := |p.payload|, p.Frame();
    DivDiv(n, 0x100, 0x100);
    DivDiv(n, 0x1_0000, 0x100);
    FrameSlices(p.header.front, Big(n), p.header.back, p.payload, f);
  }

  lemma FrameSlices(a: seq<byte>, b: seq<byte>, c: seq<byte>, d: seq<byte>, f: seq<byte>)
    requires |a| == 4 && |b| == 4 && |c| == 32 && f == a + b + c + d
    ensures f[..4] == a && f[8..40] == c && f[40..] == d
    ensures f[4] == b[0] && f[5] == b[1] && f[6] == b[2] && f[7] == b[3]
  {}

  // ---- the stream ----

  /** A connection: what is on its way, and how much each call takes or gives: up to so many bytes, or an error.
      A call to send may take nothing; a call to receive gives at least one byte while there are any. */
  class Connection {
    const pace: nat -> Option<nat>
    var calls: nat
    var wire: seq<byte>

    constructor (pace: nat -> Option<nat>)
      ensures this.pace == pace && wire == []
    {
      this.pace, calls, wire := pace, 0, [];
    }

    method Send(s: seq<byte>) returns (n: int)
      requires s != []
      modifies this
      ensures n == -1 || 0 <= n <= |s|
      ensures wire == if n == -1 then old(wire) else old(wire) + s[..n]
      ensures (n == -1 <==> pace(old(calls)) == None) && (n == 0 <==> pace(old(calls)) == Some(0))
      ensures calls == old(calls) + 1
    {
      n := match pace(calls) case None => -1 case Some(m) => if m < |s| then m else |s|;
      calls := calls + 1;
      if n > 0 { wire := wire + s[..n]; }
    }

    /** Nothing when the stream has ended. */
    method Recv(count: nat) returns (n: int, s: seq<byte>)
      requires count > 0
      modifies this
      ensures n == -1 ==> s == [] && wire == old(wire)
      ensures n != -1 ==> n == |s| <= count && old(wire) == s + wire && (s == [] <==> old(wire) == [])
      ensures n == -1 <==> pace(old(calls)) == None
    {
      var most := if count < |wire| then count else |wire|;
      n := match pace(calls) case None => -1 case Some(m) => if m + 1 < most then m + 1 else most;
      calls := calls + 1;
      s := [];
      if n > 0 {
        s := wire[..n];
        wire := wire[n..];
      }
    }
  }

  ghost predicate NeverFails(c: Connection) {
    forall k: nat :: c.pace(k).Some?
  }

  /** Calls to send do not take nothing for ever. */
  ghost predicate Moves(c: Connection) {
    forall k: nat :: MovesFrom(c, k)
  }

  ghost predicate MovesFrom(c: Connection, k: nat) {
    exists j: nat :: j >= k && c.pace(j) != Some(0)
  }

  /** A call, now or later, that does not take nothing. */
  ghost function Later(c: Connection): (j: nat)
    requires Moves(c)
    reads c
    ensures j >= c.calls && c.pace(j) != Some(0)
  {
    assert MovesFrom(c, c.calls);
    var j: nat :| j >= c.calls && c.pace(j) != Some(0);
    j
  }

  /** The next `n` bytes of a message behind those that were sent. */
  lemma SentPart(start: seq<byte>, msg: seq<byte>, done: nat, n: nat, buf: seq<byte>, before: seq<byte>)
    requires done <= |msg| && buf == msg[done..] && n <= |buf| && before == start + msg[..done]
    ensures before + buf[..n] == start + msg[..done + n] && buf[n..] == msg[done + n..]
  {
    assert msg[..done] + msg[done..][..n] == msg[..done + n];
  }

  /** Writes all of a message, however the stream takes it. */
  method Swrite(c: Connection, msg: seq<byte>) returns (r: int)
    requires |msg| <= INT_MAX && Moves(c)
    modifies c
    ensures r == |msg| ==> c.wire == old(c.wire) + msg
    ensures r != |msg| ==> r == -1 && !NeverFails(c) && exists k :: 0 <= k < |msg| && c.wire == old(c.wire) + msg[..k]
  {
    var buf := msg;
    ghost var done, moving := 0, Later(c);
    while buf != []
      invariant 0 <= done <= |msg| && buf == msg[done..] && c.wire == old(c.wire) + msg[..done]
      invariant moving >= c.calls && c.pace(moving) != Some(0)
      decreases |buf|, moving - c.calls
    {
      ghost var before := c.wire;
      var n := c.Send(buf);
      if n == -1 { return -1; }
      SentPart(old(c.wire), msg, done, n, buf, before);
      if n == 0 { continue; }
      done := done + n;
      buf := buf[n..];
      moving := Later(c);
    }
    assert msg[..done] == msg;
    r := |msg|;
  }

  /** Reads `size` bytes, or all there are when the stream ends before. */
  method Sread(c: Connection, size: nat) returns (r: int, msg: seq<byte>)
    requires size <= INT_MAX
    modifies c
    ensures old(c.wire) == msg + c.wire && |msg| <= size
    ensures r != -1 ==> r == |msg| && (|msg| < size ==> c.wire == [])
    ensures NeverFails(c) ==> r != -1
  {
    msg := [];
    while |msg| < size
      invariant |msg| <= size && old(c.wire) == msg + c.wire
      decreases size - |msg|
    {
      var n, s := c.Recv(size - |msg|);
      if n == -1 { return -1, msg; }
      if n == 0 { return |msg|, msg; }
      assert msg + (s + c.wire) == msg + s + c.wire;
      msg := msg + s;
    }
    r := |msg|;
  }

  /** Sends a packet. The header is left with its size in network order. */
  method Hsend(c: Connection, msg: seq<byte>, hd: Header, bigEndian: bool) returns (r: int, hd': Header)
    requires Packet(hd, msg).Valid() && Moves(c)
    modifies c
    ensures hd' == hd.(size := Htonl(hd.size, bigEndian))
    ensures r == HPACK_SIZE + |msg| ==> c.wire == old(c.wire) + Packet(hd, msg).Frame()
    ensures r != HPACK_SIZE + |msg| ==> r == -1 && !NeverFails(c)
  {
    hd' := hd.(size := Htonl(hd.size, bigEndian));
    NetworkImage(hd.size, bigEndian);
    r := Swrite(c, hd'.Image(bigEndian) + msg);
  }

  /** Receives a packet into a header whose memory held `stale` before. The size is back in host order
      before the check sees the header; what the check refuses is not read. */
  method Hrecv(c: Connection, stale: seq<byte>, check: Header -> bool, bigEndian: bool)
    returns (r: int, hd: Header, msg: seq<byte>)
    requires |stale| == HPACK_SIZE
    modifies c
    ensures forall p: Packet, rest: seq<byte> :: NeverFails(c) && p.Valid() && old(c.wire) == p.Frame() + rest ==>
              hd == p.header && if check(p.header) then r == |p.payload| && msg == p.payload && c.wire == rest
                                else r == -1 && c.wire == p.payload + rest
  {
    ghost var before := c.wire;
    var n, image := Sread(c, HPACK_SIZE);
    var all := image + stale[|image|..];
    hd := FromImage(all, bigEndian);
    hd := hd.(size := Htonl(hd.size, bigEndian));
    ghost var behind := c.wire;
    forall p: Packet, rest: seq<byte> | NeverFails(c) && p.Valid() && before == p.Frame() + rest
      ensures hd == p.header && behind == p.payload + rest
    {
      HeaderBack(p, rest, image, behind, all, bigEndian);
    }
    msg := [];
    if !check(hd) { return -1, hd, msg; }
    if hd.size > INT_MAX {
      // as a signed count this is below zero: nothing is read
      return hd.size - 0x1_0000_0000, hd, msg;
    }
    r, msg := Sread(c, hd.size);
    forall p: Packet, rest: seq<byte> | NeverFails(c) && p.Valid() && before == p.Frame() + rest
      ensures r == |p.payload| && msg == p.payload && c.wire == rest
    {
      PayloadBack(p.payload, rest, msg, c.wire);
    }
  }

  lemma HeaderBack(p: Packet, rest: seq<byte>, image: seq<byte>, behind: seq<byte>, all: seq<byte>, bigEndian: bool)
    requires p.Valid() && image + behind == p.Frame() + rest && |image| <= HPACK_SIZE
    requires (|image| < HPACK_SIZE ==> behind == [])
    requires |all| == HPACK_SIZE && image <= all
    ensures behind == p.payload + rest
    ensures FromImage(all, bigEndian).(size := Htonl(FromImage(all, bigEndian).size, bigEndian)) == p.header
  {
    var h := p.header.front + Big(p.header.size) + p.header.back;
    assert p.Frame() + rest == h + (p.payload + rest);
    PayloadBack(h, p.payload + rest, image, behind);
    assert all == h;
    assert h[..4] == p.header.front && h[4..8] == Big(p.header.size) && h[8..] == p.header.back;
    NetworkRead(p.header.size, bigEndian);
  }

  /** What was read is what was sent first, once enough was read. */
  lemma PayloadBack(a: seq<byte>, rest: seq<byte>, got: seq<byte>, behind: seq<byte>)
    requires got + behind == a + rest && |got| <= |a| && (|got| < |a| ==> behind == [])
    ensures got == a && behind == rest
  {
    assert |got + behind| == |a + rest|;
    assert got == (got + behind)[..|a|] && a == (a + rest)[..|a|];
    assert behind == (got + behind)[|a|..] && rest == (a + rest)[|a|..];
  }

  // ---- many packets ----

  function Stream(ps: seq<Packet>): seq<byte>
    requires forall i :: 0 <= i < |ps| ==> ps[i].Valid()
  {
    if ps == [] then [] else ps[0].Frame() + Stream(ps[1..])
  }

  /** Sends packets one after the other. */
  method SendAll(c: Connection, ps: seq<Packet>, bigEndian: bool)
    requires (forall i :: 0 <= i < |ps| ==> ps[i].Valid()) && NeverFails(c) && Moves(c)
    modifies c
    ensures c.wire == old(c.wire) + Stream(ps)
  {
    var rest := ps;
    while rest != []
      invariant (forall i :: 0 <= i < |rest| ==> rest[i].Valid()) && c.wire + Stream(rest) == old(c.wire) + Stream(ps)
      decreases |rest|
    {
      ghost var before := c.wire;
      var r, hd := Hsend(c, rest[0].payload, rest[0].header, bigEndian);
      assert before + (rest[0].Frame() + Stream(rest[1..])) == before + rest[0].Frame() + Stream(rest[1..]);
      rest := rest[1..];
    }
  }

  /** Receives as many packets as were sent: the same headers and payloads, in order, however the stream
      was cut into pieces. */
  method ReceiveAll(c: Connection, ghost ps: seq<Packet>, count: nat, stale: seq<byte>, bigEndian: bool)
    returns (got: seq<Packet>)
    requires (forall i :: 0 <= i < |ps| ==> ps[i].Valid()) && NeverFails(c) && |stale| == HPACK_SIZE
    requires c.wire == Stream(ps) && count == |ps|
    modifies c
    ensures got == ps && c.wire == []
  {
    got := [];
    ghost var rest := ps;
    while |got| < count
      invariant (forall i :: 0 <= i < |rest| ==> rest[i].Valid()) && got + rest == ps && c.wire == Stream(rest)
      decreases count - |got|
    {
      assert c.wire == rest[0].Frame() + Stream(rest[1..]);
      var r, hd, msg := Hrecv(c, stale, _ => true, bigEndian);
      assert rest == [rest[0]] + rest[1..];
      got, rest := got + [Packet(hd, msg)], rest[1..];
    }
  }
}
