/** The receiving half of the kernel's TCP: segment bytes, tcp_handle, and what a stream leaves behind. */
module Tcp {
  import opened Machine

  const MODULUS := 0x1_0000_0000
  const RX_CAPACITY := 8192
  const CLIENT_PORT: U16 := 49152
  const FIRST_SEQ: U32 := 0x1000

  /** Bytes whose number a u16 holds. */
  type Frame = d: seq<Byte> | |d| <= 0xffff

  // ---------- Segments ----------

  predicate Fin(flags: Byte) { flags % 2 == 1 }
  predicate Syn(flags: Byte) { flags / 2 % 2 == 1 }
  predicate Rst(flags: Byte) { flags / 4 % 2 == 1 }
  predicate AckBit(flags: Byte) { flags / 16 % 2 == 1 }

  /** The header fields tcp_handle uses; `length` is the u16 payload_len, and `payload` starts at
      the data offset. */
  datatype Segment = Segment(dstPort: U16, seqNo: U32, ackNo: U32, flags: Byte, length: U16, payload: seq<Byte>)

  function FromBE16(b: seq<Byte>): U16
    requires |b| == 2
  {
    var hi: int, lo: int := b[0], b[1];
    0x100 * hi + lo
  }

  /** ntohl of a u32 load. */
  function FromBE32(b: seq<Byte>): U32
    requires |b| == 4
  {
    FromLE32([b[3], b[2], b[1], b[0]])
  }

  function BE32(x: U32): (b: seq<Byte>)
    ensures |b| == 4
  {
    var l := LE32(x);
    [l[3], l[2], l[1], l[0]]
  }

  lemma BE32RoundTrip(x: U32)
    ensures FromBE32(BE32(x)) == x
  {
    hide FromLE32;
    LE32RoundTrip(x);
    var l := LE32(x);
    assert l == [l[0], l[1], l[2], l[3]];
  }

  function Parse(data: Frame): Option<Segment> {
    if |data| < 20 then None
    else
      var off := data[12] / 16 * 4;
      Some(Segment(FromBE16(data[2..4]), FromBE32(data[4..8]), FromBE32(data[8..12]), data[13],
        (|data| - off) % 0x1_0000, if off <= |data| then data[off..] else []))
  }

  /** A data offset beyond the end wraps payload_len to more than the receive buffer holds. */
  lemma LengthFits(data: Frame)
    requires |data| >= 20
    ensures var off, g := data[12] / 16 * 4, Parse(data).value;
      g.length <= RX_CAPACITY ==> off + g.length == |data| && g.payload == data[off..]
  {
  }

  /** The header a peer writes (section 3.1 of RFC 9293), options included. */
  function Header(srcPort: U16, seqNo: U32, ackNo: U32, flags: Byte, options: seq<Byte>,
      rest: seq<Byte>): (h: seq<Byte>)
    requires |options| % 4 == 0 && |options| <= 40 && |rest| == 6
    ensures |h| == 20 + |options|
  {
    BE16(srcPort) + BE16(CLIENT_PORT) + BE32(seqNo) + BE32(ackNo) + [(20 + |options|) / 4 * 16, flags] + rest + options
  }

  lemma HeaderFields(srcPort: U16, seqNo: U32, ackNo: U32, flags: Byte, options: seq<Byte>, rest: seq<Byte>)
    requires |options| % 4 == 0 && |options| <= 40 && |rest| == 6
    ensures var h := Header(srcPort, seqNo, ackNo, flags, options, rest);
      && h[2..4] == BE16(CLIENT_PORT) && h[4..8] == BE32(seqNo) && h[8..12] == BE32(ackNo)
      && h[12] / 16 * 4 == |h| && h[13] == flags
  {
    hide BE16, BE32;
  }

  /** Whatever follows a segment in its frame is read as more payload. */
  lemma ParseWritten(srcPort: U16, seqNo: U32, ackNo: U32, flags: Byte, options: seq<Byte>, rest: seq<Byte>,
      body: seq<Byte>)
    requires |options| % 4 == 0 && |options| <= 40 && |rest| == 6 && |body| <= 0xff00
    ensures Parse(Header(srcPort, seqNo, ackNo, flags, options, rest) + body) ==
      Some(Segment(CLIENT_PORT, seqNo, ackNo, flags, |body|, body))
  {
    hide BE32, FromBE32, Header;
    var h := Header(srcPort, seqNo, ackNo, flags, options, rest);
    var data: Frame := h + body;
    HeaderFields(srcPort, seqNo, ackNo, flags, options, rest);
    BE32RoundTrip(seqNo);
    BE32RoundTrip(ackNo);
    assert data[2..4] == h[2..4] && data[4..8] == h[4..8] && data[8..12] == h[8..12];
    assert data[|h|..] == body;
  }

  // ---------- The connection ----------

  datatype ConnState = Closed | SynSent | Established | FinWait | Done

  /** The fields of g_tcp; `rx` is the filled part of the receive buffer. */
  datatype Conn = Conn(state: ConnState, port: U16, seqNo: U32, ackNo: U32, rx: seq<Byte>, done: bool)

  function Connecting(): Conn {
    Conn(SynSent, CLIENT_PORT, FIRST_SEQ, 0, [], false)
  }

  predicate Open(c: Conn) {
    c.state.Established? || c.state.FinWait?
  }

  /** tcp_handle in an open connection, first the payload and then the flags. */
  function TakePayload(c: Conn, g: Segment): Conn {
    if g.length == 0 then c
    else
      var rx := if |c.rx| + g.length <= RX_CAPACITY then c.rx + g.payload else c.rx;
      c.(rx := rx, ackNo := (g.seqNo + g.length) % MODULUS)
  }

  function TakeFlags(c: Conn, g: Segment): Conn {
    var ack := if Fin(g.flags) then (g.seqNo + g.length + 1) % MODULUS else c.ackNo;
    if Fin(g.flags) || Rst(g.flags) then c.(ackNo := ack, done := true, state := Done) else c
  }

  function Receive(c: Conn, g: Segment): Conn {
    if g.dstPort != c.port then c
    else if c.state.SynSent? then
      if Syn(g.flags) && AckBit(g.flags) then
        c.(ackNo := (g.seqNo + 1) % MODULUS, seqNo := g.ackNo, state := Established)
      else c
    else if Open(c) then TakeFlags(TakePayload(c, g), g)
    else c
  }

  /** tcp_handle on the bytes behind the IP header. */
  function ReceiveBytes(c: Conn, data: Frame): Conn {
    var g := Parse(data);
    if g.None? then c else Receive(c, g.value)
  }

  function ReceiveAll(c: Conn, wires: seq<Frame>): Conn
    decreases |wires|
  {
    if wires == [] then c else ReceiveAll(ReceiveBytes(c, wires[0]), wires[1..])
  }

  /** Nothing that can arrive overruns the receive buffer. */
  lemma {:induction false} NeverOverruns(c: Conn, wires: seq<Frame>)
    requires |c.rx| <= RX_CAPACITY
    ensures c.rx <= ReceiveAll(c, wires).rx && |ReceiveAll(c, wires).rx| <= RX_CAPACITY
    decreases |wires|
  {
    if wires != [] {
      BytesGrow(c, wires[0]);
      NeverOverruns(ReceiveBytes(c, wires[0]), wires[1..]);
    }
  }

  lemma BytesGrow(c: Conn, data: Frame)
    requires |c.rx| <= RX_CAPACITY
    ensures c.rx <= ReceiveBytes(c, data).rx && |ReceiveBytes(c, data).rx| <= RX_CAPACITY
  {
    hide FromBE16, FromBE32;
    if |data| >= 20 {
      LengthFits(data);
    }
  }

  // ---------- Handshake, end and reset ----------

  /** The words of a segment, in network order. */
  function Word16(data: Frame, i: nat): int
    requires i + 2 <= |data|
  {
    var hi: int, lo: int := data[i], data[i + 1];
    0x100 * hi + lo
  }

  function Word32(data: Frame, i: nat): int
    requires i + 4 <= |data|
  {
    0x1_0000 * Word16(data, i) + Word16(data, i + 2)
  }

  /** A segment for the connection's port. */
  predicate ForPort(c: Conn, data: Frame) {
    |data| >= 20 && Word16(data, 2) == c.port
  }

  lemma FieldsParsed(data: Frame)
    requires |data| >= 20
    ensures Parse(data).Some?
    ensures var g := Parse(data).value;
      && g.dstPort == Word16(data, 2) && g.seqNo == Word32(data, 4) && g.ackNo == Word32(data, 8)
      && g.flags == data[13]
  {
  }

  /** While connecting, a segment opens the connection exactly when it is for its port and carries
      SYN and ACK; any other changes nothing. */
  lemma HandshakeIff(c: Conn, data: Frame)
    requires c.state.SynSent?
    ensures var d := ReceiveBytes(c, data);
      if ForPort(c, data) && data[13] / 2 % 2 == 1 && data[13] / 16 % 2 == 1 then
        d == c.(state := Established, seqNo := Word32(data, 8), ackNo := (Word32(data, 4) + 1) % MODULUS)
      else d == c
  {
    hide Parse, Word16, Word32;
    if |data| >= 20 {
      FieldsParsed(data);
    } else {
      TooShort(data);
    }
  }

  lemma TooShort(data: Frame)
    requires |data| < 20
    ensures Parse(data).None?
  {
  }

  /** An open connection ends exactly with a segment for its port that carries FIN or RST. */
  lemma OpenEndsIff(c: Conn, data: Frame)
    requires Open(c)
    ensures var d := ReceiveBytes(c, data);
      if ForPort(c, data) && (data[13] % 2 == 1 || data[13] / 4 % 2 == 1) then d.state.Done? && d.done
      else d.state == c.state && d.done == c.done
  {
    hide Parse, Word16, Word32;
    if |data| >= 20 {
      FieldsParsed(data);
    } else {
      TooShort(data);
    }
  }

  /** Segments for other ports, and all segments before and after a connection, change nothing. */
  lemma DeafUnlessOpen(c: Conn, data: Frame)
    requires !ForPort(c, data) || c.state.Closed? || c.state.Done?
    ensures ReceiveBytes(c, data) == c
  {
    hide Parse, Word16, Word32;
    if |data| >= 20 {
      FieldsParsed(data);
    } else {
      TooShort(data);
    }
  }

  /** What a reset keeps: the data that came with it, when it fits, and the acknowledgement of it. */
  lemma ResetReceived(c: Conn, srcPort: U16, seqNo: U32, ackNo: U32, flags: Byte, options: seq<Byte>, rest: seq<Byte>,
                      body: seq<Byte>)
    requires Open(c) && c.port == CLIENT_PORT && flags / 4 % 2 == 1
    requires |options| % 4 == 0 && |options| <= 40 && |rest| == 6 && |body| <= 0xff00
    ensures ReceiveBytes(c, Header(srcPort, seqNo, ackNo, flags, options, rest) + body) ==
      c.(state := Done, done := true, rx := KeptOne(c.rx, body),
         ackNo := if flags % 2 == 1 then (seqNo + |body| + 1) % MODULUS
                  else if body == [] then c.ackNo else (seqNo + |body|) % MODULUS)
  {
    hide Parse, Header;
    ParseWritten(srcPort, seqNo, ackNo, flags, options, rest, body);
    assert body == [] ==> c.rx + body == c.rx;
  }

  // ---------- Streams ----------

  /** One segment of the peer's stream as it arrives: its data, the free choices of its header, and
      the bytes the link appended to reach the minimum frame size. */
  datatype Piece = Piece(data: seq<Byte>, ackNo: U32, flags: Byte, options: seq<Byte>, rest: seq<Byte>, pad: seq<Byte>)

  predicate ValidPiece(p: Piece) {
    && |p.options| % 4 == 0 && |p.options| <= 40 && |p.rest| == 6 && |p.data| + |p.pad| <= 0xff00
    && !Fin(p.flags) && !Rst(p.flags)
  }

  predicate ValidPieces(ps: seq<Piece>) {
    forall i :: 0 <= i < |ps| ==> ValidPiece(ps[i])
  }

  predicate Unpadded(ps: seq<Piece>) {
    forall i :: 0 <= i < |ps| ==> ps[i].pad == []
  }

  /** The frame contents of one piece; the FIN bit is set on the stream's last segment. */
  function Wire(p: Piece, next: U32, last: bool): Frame
    requires ValidPiece(p)
  {
    Header(80, next, p.ackNo, if last then p.flags + 1 else p.flags, p.options, p.rest) + (p.data + p.pad)
  }

  /** Any cutting of a stream into consecutive segments, the last one carrying FIN. */
  function Transmit(ps: seq<Piece>, next: U32): seq<Frame>
    requires ValidPieces(ps)
  {
    if ps == [] then []
    else [Wire(ps[0], next, |ps| == 1)] + Transmit(ps[1..], (next + |ps[0].data|) % MODULUS)
  }

  function Stream(ps: seq<Piece>): seq<Byte> {
    if ps == [] then [] else ps[0].data + Stream(ps[1..])
  }

  /** The stream with the link's padding in it. */
  function OnTheWire(ps: seq<Piece>): (s: seq<Byte>)
    ensures |s| >= |Stream(ps)|
  {
    if ps == [] then [] else ps[0].data + ps[0].pad + OnTheWire(ps[1..])
  }

  lemma WireReceived(c: Conn, p: Piece, next: U32, last: bool)
    requires ValidPiece(p) && c.state.Established? && c.port == CLIENT_PORT
    ensures var body, d := p.data + p.pad, ReceiveBytes(c, Wire(p, next, last));
      && d.rx == (if |c.rx| + |body| <= RX_CAPACITY then c.rx + body else c.rx)
      && d.port == c.port
      && (last ==> d.done && d.state.Done? && d.ackNo == (next + |body| + 1) % MODULUS)
      && (!last ==> d.done == c.done && d.state.Established?
                    && d.ackNo == if body == [] then c.ackNo else (next + |body|) % MODULUS)
  {
    hide Parse, Header;
    var flags := if last then p.flags + 1 else p.flags;
    ParseWritten(80, next, p.ackNo, flags, p.options, p.rest, p.data + p.pad);
    assert last ==> Fin(flags);
    assert !last ==> !Fin(flags) && !Rst(flags);
  }

  /** The receive buffer after a stream: a segment that does not fit is dropped whole. */
  function Kept(rx: seq<Byte>, ps: seq<Piece>): seq<Byte>
    decreases |ps|
  {
    if ps == [] then rx else Kept(KeptOne(rx, ps[0].data + ps[0].pad), ps[1..])
  }

  function KeptOne(rx: seq<Byte>, body: seq<Byte>): seq<Byte> {
    if |rx| + |body| <= RX_CAPACITY then rx + body else rx
  }

  lemma StreamStep(c: Conn, ps: seq<Piece>, next: U32)
    requires ValidPieces(ps) && ps != []
    ensures var d, after := ReceiveBytes(c, Wire(ps[0], next, |ps| == 1)), (next + |ps[0].data|) % MODULUS;
      ReceiveAll(c, Transmit(ps, next)) == if |ps| == 1 then d else ReceiveAll(d, Transmit(ps[1..], after))
    ensures |ps| == 1 ==> ps[1..] == [] && Stream(ps[1..]) == []
    ensures Stream(ps) == ps[0].data + Stream(ps[1..])
  {
    hide Wire, ReceiveBytes, ValidPiece;
    var wires := Transmit(ps, next);
    assert wires[1..] == Transmit(ps[1..], (next + |ps[0].data|) % MODULUS);
  }

  /** What any stream leaves in the buffer: data and the link's padding, segment by segment. */
  lemma {:induction false} StreamKept(c: Conn, ps: seq<Piece>, next: U32)
    requires ValidPieces(ps) && ps != [] && c.state.Established? && c.port == CLIENT_PORT
    ensures ReceiveAll(c, Transmit(ps, next)).rx == Kept(c.rx, ps)
    decreases |ps|
  {
    hide Wire, ReceiveBytes, ReceiveAll, Transmit, Stream, ValidPiece;
    var d := ReceiveBytes(c, Wire(ps[0], next, |ps| == 1));
    WireReceived(c, ps[0], next, |ps| == 1);
    StreamStep(c, ps, next);
    if |ps| > 1 {
      StreamKept(d, ps[1..], (next + |ps[0].data|) % MODULUS);
    }
  }

  /** A stream that fits is kept whole. */
  lemma {:induction false} KeptWhole(rx: seq<Byte>, ps: seq<Piece>)
    requires |rx| + |OnTheWire(ps)| <= RX_CAPACITY
    ensures Kept(rx, ps) == rx + OnTheWire(ps)
    decreases |ps|
  {
    if ps == [] {
      assert rx + OnTheWire(ps) == rx;
    } else {
      var body := ps[0].data + ps[0].pad;
      Appended(rx, body, OnTheWire(ps[1..]));
      KeptWhole(rx + body, ps[1..]);
    }
  }

  /** Padding becomes data: what a stream that fits the buffer leaves in it. */
  lemma PaddingReceived(c: Conn, ps: seq<Piece>, next: U32)
    requires ValidPieces(ps) && ps != [] && c.state.Established? && c.port == CLIENT_PORT
    requires |c.rx| + |OnTheWire(ps)| <= RX_CAPACITY
    ensures ReceiveAll(c, Transmit(ps, next)).rx == c.rx + OnTheWire(ps)
  {
    hide ReceiveAll, Transmit, ValidPiece;
    StreamKept(c, ps, next);
    KeptWhole(c.rx, ps);
  }

  lemma Appended(a: seq<Byte>, b: seq<Byte>, c: seq<Byte>)
    ensures a + (b + c) == a + b + c
    ensures |a + (b + c)| == |a + b| + |c|
  {
  }

  lemma {:induction false} PaddingShows(ps: seq<Piece>)
    ensures Unpadded(ps) ==> OnTheWire(ps) == Stream(ps)
    ensures !Unpadded(ps) ==> |OnTheWire(ps)| > |Stream(ps)|
  {
    if ps != [] {
      PaddingShows(ps[1..]);
      UnpaddedStep(ps);
      if ps[0].pad == [] {
        assert ps[0].data + ps[0].pad == ps[0].data;
      }
    }
  }

  lemma UnpaddedStep(ps: seq<Piece>)
    requires ps != []
    ensures Unpadded(ps) <==> ps[0].pad == [] && Unpadded(ps[1..])
  {
    assert forall i :: 0 < i < |ps| ==> ps[i] == ps[1..][i - 1];
  }

  /** The kernel takes the payload length from the frame and not from the IP header, so a stream
      that fits arrives unaltered exactly when the link padded none of its segments. */
  lemma IntactIffUnpadded(c: Conn, ps: seq<Piece>, next: U32)
    requires ValidPieces(ps) && ps != [] && c.state.Established? && c.port == CLIENT_PORT && c.rx == []
    requires |OnTheWire(ps)| <= RX_CAPACITY
    ensures ReceiveAll(c, Transmit(ps, next)).rx == Stream(ps) <==> Unpadded(ps)
  {
    PaddingReceived(c, ps, next);
    PaddingShows(ps);
  }

  /** Ethernet: frames are filled up to 60 bytes, 54 of which are headers without TCP options. */
  predicate FilledUp(p: Piece) {
    |p.pad| == if |p.options| + |p.data| < 6 then 6 - |p.options| - |p.data| else 0
  }

  /** On Ethernet the condition is on the segments the peer chooses to send; a bare FIN breaks it. */
  lemma IntactOnEthernetIff(c: Conn, ps: seq<Piece>, next: U32)
    requires ValidPieces(ps) && ps != [] && c.state.Established? && c.port == CLIENT_PORT && c.rx == []
    requires |OnTheWire(ps)| <= RX_CAPACITY
    requires forall i :: 0 <= i < |ps| ==> FilledUp(ps[i])
    ensures ReceiveAll(c, Transmit(ps, next)).rx == Stream(ps) <==>
            forall i :: 0 <= i < |ps| ==> |ps[i].options| + |ps[i].data| >= 6
  {
    IntactIffUnpadded(c, ps, next);
    assert forall i :: 0 <= i < |ps| ==>
      (FilledUp(ps[i]) && (ps[i].pad == [] <==> |ps[i].options| + |ps[i].data| >= 6));
  }

  /** The FIN piece of an Ethernet peer that sends it bare is a witness: six zeros become data. */
  lemma BareFinBecomesData(c: Conn, p: Piece, next: U32)
    requires ValidPiece(p) && c.state.Established? && c.port == CLIENT_PORT && c.rx == []
    requires p.data == [] && p.options == [] && p.pad == Zeros(6)
    ensures FilledUp(p) && Stream([p]) == []
    ensures ReceiveAll(c, Transmit([p], next)).rx == Zeros(6)
  {
    hide ReceiveAll, Transmit;
    assert [p][1..] == [];
    assert OnTheWire([p]) == Zeros(6);
    PaddingReceived(c, [p], next);
  }

  /** Every stream is acknowledged to its end, kept or dropped, the padding behind its FIN included
      (RFC 9293, section 3.10.7.4). */
  lemma {:induction false} StreamAcknowledged(c: Conn, ps: seq<Piece>, next: U32)
    requires ValidPieces(ps) && ps != [] && c.state.Established? && c.port == CLIENT_PORT
    ensures var d := ReceiveAll(c, Transmit(ps, next));
      && d.done && d.state.Done?
      && d.ackNo == (next + |Stream(ps)| + |ps[|ps| - 1].pad| + 1) % MODULUS
    decreases |ps|
  {
    hide Wire, ReceiveBytes, ReceiveAll, Transmit, Stream, ValidPiece;
    WireReceived(c, ps[0], next, |ps| == 1);
    StreamStep(c, ps, next);
    if |ps| > 1 {
      var after := (next + |ps[0].data|) % MODULUS;
      StreamAcknowledged(ReceiveBytes(c, Wire(ps[0], next, false)), ps[1..], after);
      SumWraps(next, |ps[0].data|, |Stream(ps[1..])| + |ps[|ps| - 1].pad|);
    }
  }

  lemma SumWraps(a: nat, b: nat, d: nat)
    ensures ((a + b) % MODULUS + d + 1) % MODULUS == (a + (b + d) + 1) % MODULUS
  {
  }

  /** An unpadded stream arrives whole exactly when the receive buffer holds it. */
  lemma IntactIffFits(c: Conn, ps: seq<Piece>, next: U32)
    requires ValidPieces(ps) && ps != [] && Unpadded(ps) && c.state.Established? && c.port == CLIENT_PORT && c.rx == []
    ensures ReceiveAll(c, Transmit(ps, next)).rx == Stream(ps) <==> |Stream(ps)| <= RX_CAPACITY
  {
    PaddingShows(ps);
    if |Stream(ps)| <= RX_CAPACITY {
      PaddingReceived(c, ps, next);
    } else {
      NeverOverruns(c, Transmit(ps, next));
    }
  }

  // ---------- The connection in memory ----------

  /** g_tcp with its receive buffer. */
  class TcpConn {
    var state: ConnState
    var port: U16
    var seqNo: U32
    var ackNo: U32
    var rxLen: nat
    var done: bool
    const rxBuf: array<Byte>

    constructor ()
      ensures Valid() && fresh(rxBuf)
      ensures View() == Conn(Closed, 0, 0, 0, [], false)
    {
      state, port, seqNo, ackNo, rxLen, done := Closed, 0, 0, 0, 0, false;
      rxBuf := new Byte[RX_CAPACITY];
    }

    ghost predicate Valid()
      reads this
    {
      rxBuf.Length == RX_CAPACITY && rxLen <= RX_CAPACITY
    }

    function View(): Conn
      requires Valid()
      reads this, rxBuf
    {
      Conn(state, port, seqNo, ackNo, rxBuf[..rxLen], done)
    }

    /** tcp_init_connect */
    method InitConnect()
      requires Valid()
      modifies this
      ensures Valid() && View() == Connecting()
    {
      state, port, seqNo, ackNo, rxLen, done := SynSent, CLIENT_PORT, FIRST_SEQ, 0, 0, false;
    }

    /** tcp_close */
    method Close()
      requires Valid()
      modifies this
      ensures Valid() && View() == old(View()).(state := Closed)
    {
      state := Closed;
    }

    /** tcp_handle */
    method Handle(data: Frame)
      requires Valid()
      modifies this, rxBuf
      ensures Valid() && View() == ReceiveBytes(old(View()), data)
    {
      hide FromBE16, FromBE32;
      if |data| < 20 {
        return;
      }
      var off := data[12] / 16 * 4;
      var flags := data[13];
      var seqNumber, ackNumber := FromBE32(data[4..8]), FromBE32(data[8..12]);
      var length := (|data| - off) % 0x1_0000;
      if FromBE16(data[2..4]) != port {
        return;
      }
      if state == SynSent {
        if Syn(flags) && AckBit(flags) {
          ackNo, seqNo, state := (seqNumber + 1) % MODULUS, ackNumber, Established;
        }
        return;
      }
      if state == Established || state == FinWait {
        LengthFits(data);
        if length > 0 {
          if rxLen + length <= RX_CAPACITY {
            Append(data[off..]);
          }
          ackNo := (seqNumber + length) % MODULUS;
        }
        if Fin(flags) {
          ackNo, done, state := (seqNumber + length + 1) % MODULUS, true, Done;
        }
        if Rst(flags) {
          done, state := true, Done;
        }
      }
    }

    /** memcpy to the end of the receive buffer */
    method Append(payload: seq<Byte>)
      requires Valid() && rxLen + |payload| <= RX_CAPACITY
      modifies this`rxLen, rxBuf
      ensures Valid() && rxLen == old(rxLen) + |payload| && rxBuf[..rxLen] == old(rxBuf[..rxLen]) + payload
    {
      var i := 0;
      while i < |payload|
        invariant 0 <= i <= |payload| && rxLen == old(rxLen)
        invariant rxBuf[..rxLen + i] == old(rxBuf[..rxLen]) + payload[..i]
      {
        rxBuf[rxLen + i] := payload[i];
        i := i + 1;
      }
      rxLen := rxLen + i;
    }
  }
}
