/** When a response sent in order reaches the caller's buffer, however it is cut and polled. */
module HttpDelivers {
  import opened Machine
  import opened Tcp
  import opened Http
  import Dns

  // ---------- What a batch brings ----------

  predicate ForClient(p: Packet) {
    p.TcpPacket? && Parse(p.bytes).Some? && Parse(p.bytes).value.dstPort == CLIENT_PORT
  }

  /** The segments of a batch for the fetch's port. */
  function Segs(batch: seq<Packet>): seq<Frame> {
    if batch == [] then []
    else (if ForClient(batch[0]) then [batch[0].bytes] else []) + Segs(batch[1..])
  }

  /** What dns_handle makes of a packet; None when it ignores it. */
  function Reply(p: Packet): Option<Dns.Outcome> {
    if p.DnsPacket? then Dns.Handle(p.data, p.beyond) else None
  }

  /** The DNS responses of a batch. */
  function Replies(batch: seq<Packet>): seq<Dns.Outcome> {
    if batch == [] then []
    else (if Reply(batch[0]).Some? then [Reply(batch[0]).value] else []) + Replies(batch[1..])
  }

  /** The address left after responses in this order: the last one found. */
  function Address(found: U32, os: seq<Dns.Outcome>): U32
    decreases |os|
  {
    if os == [] then found
    else Address(if os[0].address.Some? then os[0].address.value else found, os[1..])
  }

  lemma PortKept(c: Conn, data: Frame)
    ensures ReceiveBytes(c, data).port == c.port
  {
    hide Parse;
  }

  lemma PacketForPort(h: Fetch, p: Packet)
    requires h.conn.port == CLIENT_PORT
    ensures Take(h, p).conn == if ForClient(p) then ReceiveBytes(h.conn, p.bytes) else h.conn
  {
    hide Parse;
  }

  /** A batch changes the connection as its segments for the port do. */
  lemma {:induction false} SegmentsTaken(h: Fetch, batch: seq<Packet>)
    requires h.conn.port == CLIENT_PORT
    ensures TakeAll(h, batch).conn == ReceiveAll(h.conn, Segs(batch))
    decreases |batch|
  {
    hide Take, Parse, ReceiveBytes;
    if batch != [] {
      var p := batch[0];
      PacketForPort(h, p);
      if ForClient(p) {
        PortKept(h.conn, p.bytes);
        assert Segs(batch) == [p.bytes] + Segs(batch[1..]);
      } else {
        assert Segs(batch) == Segs(batch[1..]);
      }
      SegmentsTaken(Take(h, p), batch[1..]);
    }
  }

  lemma PacketReply(h: Fetch, p: Packet)
    ensures var r, d := Reply(p), Take(h, p);
      && d.dnsDone == (h.dnsDone || r.Some?)
      && d.dnsResult == if r.Some? && r.value.address.Some? then r.value.address.value else h.dnsResult
  {
  }

  /** And the DNS answer as its responses do. */
  lemma {:induction false} RepliesTaken(h: Fetch, batch: seq<Packet>)
    ensures var d, os := TakeAll(h, batch), Replies(batch);
      && d.dnsDone == (h.dnsDone || os != [])
      && d.dnsResult == Address(h.dnsResult, os)
    decreases |batch|
  {
    hide Take, Reply;
    if batch != [] {
      PacketReply(h, batch[0]);
      RepliesTaken(Take(h, batch[0]), batch[1..]);
      var r, rest := Reply(batch[0]), Replies(batch[1..]);
      if r.Some? {
        assert Replies(batch) == [r.value] + rest;
      } else {
        assert Replies(batch) == rest;
      }
    }
  }

  // ---------- The peer's part ----------

  /** The segments still to come after a poll; those that arrive before the connection is opened
      are not part of the conversation. */
  function Rest(h: Fetch, left: seq<Frame>, v: Visit): seq<Frame> {
    if h.phase.Resolving? then left
    else if |Segs(v.batch)| <= |left| then left[|Segs(v.batch)|..]
    else []
  }

  /** The poll finds nothing it waited for although the deadline of the phase has passed, with no
      attempt left; or it finds DNS responses without an address. */
  predicate Misses(h: Fetch, left: seq<Frame>, v: Visit) {
    match h.phase
    case Resolving =>
      if Replies(v.batch) == [] then v.now >= h.deadline && h.attempt + 1 >= MAX_ATTEMPTS
      else Address(h.dnsResult, Replies(v.batch)) == 0
    case Joining => v.now >= h.deadline && Segs(v.batch) == []
    case Receiving => v.now >= h.deadline && |Segs(v.batch)| < |left|
    case _ => false
  }

  /** Up to a poll that misses, the polls find among any other traffic exactly the segments of
      `left` in order, the last poll the last of them; and the response answers a request. */
  ghost predicate HandsOver(h: Fetch, left: seq<Frame>, vs: seq<Visit>)
    decreases |vs|
  {
    if vs == [] then left == []
    else
      var r := if h.phase.Resolving? then [] else Segs(vs[0].batch);
      && |vs[0].batch| <= PACKETS_PER_POLL
      && left != [] && r <= left
      && (h.phase.Joining? ==> |r| <= 1)
      && (Misses(h, left, vs[0]) || HandsOver(Poll(h, vs[0]), Rest(h, left, vs[0]), vs[1..]))
  }

  ghost predicate NeverMisses(h: Fetch, left: seq<Frame>, vs: seq<Visit>)
    decreases |vs|
  {
    vs == [] || (!Misses(h, left, vs[0]) && NeverMisses(Poll(h, vs[0]), Rest(h, left, vs[0]), vs[1..]))
  }

  // ---------- The stream ends with its last segment ----------

  /** rx_done rises with the last of the wires and not before. */
  predicate DoneLast(c: Conn, wires: seq<Frame>)
    decreases |wires|
  {
    if wires == [] then c.done else !c.done && DoneLast(ReceiveBytes(c, wires[0]), wires[1..])
  }

  lemma {:induction false} DoneLastSplit(c: Conn, a: seq<Frame>, b: seq<Frame>)
    requires DoneLast(c, a + b)
    ensures DoneLast(ReceiveAll(c, a), b)
    ensures ReceiveAll(c, a + b) == ReceiveAll(ReceiveAll(c, a), b)
    decreases |a|
  {
    hide ReceiveBytes;
    if a == [] {
      assert a + b == b;
    } else {
      assert (a + b)[1..] == a[1..] + b;
      DoneLastSplit(ReceiveBytes(c, a[0]), a[1..], b);
    }
  }

  lemma {:induction false} TransmitEndsLast(c: Conn, ps: seq<Piece>, next: U32)
    requires ValidPieces(ps) && ps != [] && c.state.Established? && c.port == CLIENT_PORT && !c.done
    ensures DoneLast(c, Transmit(ps, next))
    decreases |ps|
  {
    hide Wire, ReceiveBytes, ValidPiece;
    var d := ReceiveBytes(c, Wire(ps[0], next, |ps| == 1));
    var wires := Transmit(ps, next);
    var after := (next + |ps[0].data|) % MODULUS;
    WireReceived(c, ps[0], next, |ps| == 1);
    assert wires[1..] == Transmit(ps[1..], after);
    if |ps| > 1 {
      TransmitEndsLast(d, ps[1..], after);
    }
  }

  // ---------- The phases ----------

  /** The run gives no result before its last poll, and that one delivers what `c` has received. */
  ghost predicate Delivers(h: Fetch, vs: seq<Visit>, c: Conn) {
    && vs != [] && Answers(h, vs) == Zeros(|vs| - 1) + [1]
    && PollAll(h, vs).out == Truncated(BodyOf(c.rx), h.job.capacity)
    && PollAll(h, vs).conn == c.(state := Closed)
  }

  /** The first result is a failure. */
  ghost predicate Breaks(h: Fetch, vs: seq<Visit>) {
    var rs := Answers(h, vs);
    Pending(rs) < |vs| && rs[Pending(rs)] == -1
  }

  ghost predicate Settles(h: Fetch, left: seq<Frame>, vs: seq<Visit>, c: Conn) {
    if NeverMisses(h, left, vs) then Delivers(h, vs, c) else Breaks(h, vs)
  }

  lemma AnswersStep(h: Fetch, vs: seq<Visit>)
    requires vs != []
    ensures Answers(h, vs) == [Answer(h, vs[0])] + Answers(Poll(h, vs[0]), vs[1..])
    ensures PollAll(h, vs) == PollAll(Poll(h, vs[0]), vs[1..])
    ensures |vs| == 1 ==> Answers(h, vs) == [Answer(h, vs[0])] && PollAll(h, vs) == Poll(h, vs[0])
  {
    hide Poll, Answer;
  }

  lemma SettlesLater(h: Fetch, left: seq<Frame>, vs: seq<Visit>, c: Conn)
    requires vs != [] && !Misses(h, left, vs[0]) && Answer(h, vs[0]) == 0 && Poll(h, vs[0]).job == h.job
    requires Settles(Poll(h, vs[0]), Rest(h, left, vs[0]), vs[1..], c)
    ensures Settles(h, left, vs, c)
  {
    hide Poll, Answer, Answers, PollAll, BodyOf, Misses, Rest;
    AnswersStep(h, vs);
    var rs := Answers(Poll(h, vs[0]), vs[1..]);
    if NeverMisses(h, left, vs) {
      assert [0] + (Zeros(|vs| - 2) + [1]) == Zeros(|vs| - 1) + [1];
    } else {
      assert ([0] + rs)[1..] == rs;
    }
  }

  lemma BreaksNow(h: Fetch, left: seq<Frame>, vs: seq<Visit>, c: Conn)
    requires vs != [] && Misses(h, left, vs[0]) && Answer(h, vs[0]) == -1
    ensures Settles(h, left, vs, c)
  {
    hide Poll, Answer, Answers, BodyOf, Misses, Rest;
    AnswersStep(h, vs);
    var rs := Answers(h, vs);
    assert rs[0] == -1;
  }

  lemma DeliversNow(h: Fetch, left: seq<Frame>, vs: seq<Visit>, c: Conn)
    requires |vs| == 1 && !Misses(h, left, vs[0]) && Answer(h, vs[0]) == 1
    requires var d := Poll(h, vs[0]); d.out == Truncated(BodyOf(c.rx), h.job.capacity) && d.conn == c.(state := Closed)
    ensures Settles(h, left, vs, c)
  {
    hide Poll, Answer, Answers, PollAll, BodyOf, Misses, Rest;
    AnswersStep(h, vs);
    assert NeverMisses(Poll(h, vs[0]), Rest(h, left, vs[0]), vs[1..]);
    assert Zeros(0) + [1] == [1];
  }

  /** One poll while receiving. */
  lemma ReceivingPoll(h: Fetch, v: Visit)
    requires h.phase.Receiving? && h.conn.port == CLIENT_PORT
    ensures var c, d := ReceiveAll(h.conn, Segs(v.batch)), Poll(h, v);
      if c.done then
        Answer(h, v) == 1 && d.out == Truncated(BodyOf(c.rx), h.job.capacity) && d.conn == c.(state := Closed)
      else if v.now >= h.deadline then Answer(h, v) == -1
      else d.phase.Receiving? && d.job == h.job && d.conn == c && Answer(h, v) == 0
  {
    hide TakeAll, Segs, BodyOf, ReceiveAll;
    SegmentsTaken(h, v.batch);
    TakeAllKeeps(h, v.batch);
  }

  lemma {:induction false} AllKeepPort(c: Conn, wires: seq<Frame>)
    ensures ReceiveAll(c, wires).port == c.port
    decreases |wires|
  {
    hide ReceiveBytes;
    if wires != [] {
      PortKept(c, wires[0]);
      AllKeepPort(ReceiveBytes(c, wires[0]), wires[1..]);
    }
  }

  lemma {:induction false} ReceivingSettles(h: Fetch, wires: seq<Frame>, vs: seq<Visit>)
    requires h.phase.Receiving? && h.conn.port == CLIENT_PORT && !h.conn.done
    requires DoneLast(h.conn, wires) && HandsOver(h, wires, vs)
    ensures vs != [] && Settles(h, wires, vs, ReceiveAll(h.conn, wires))
    decreases |vs|
  {
    hide Segs, ReceiveAll, Poll, Answer, Settles, DoneLast, BodyOf;
    StillWires(h.conn, wires);
    var v, all := vs[0], ReceiveAll(h.conn, wires);
    var r := Segs(v.batch);
    var b := wires[|r|..];
    assert r + b == wires;
    DoneLastSplit(h.conn, r, b);
    var c := ReceiveAll(h.conn, r);
    AllKeepPort(h.conn, r);
    ReceivingPoll(h, v);
    DoneAtEnd(c, b);
    if Misses(h, wires, v) {
      BreaksNow(h, wires, vs, all);
    } else if b == [] {
      LastHandedOver(Poll(h, v), vs[1..]);
      NothingMore(c);
      DeliversNow(h, wires, vs, all);
    } else {
      ReceivingSettles(Poll(h, v), b, vs[1..]);
      SettlesLater(h, wires, vs, all);
    }
  }

  lemma LastHandedOver(h: Fetch, vs: seq<Visit>)
    requires HandsOver(h, [], vs)
    ensures vs == []
  {
  }

  lemma StillWires(c: Conn, wires: seq<Frame>)
    requires !c.done && DoneLast(c, wires)
    ensures wires != []
  {
  }

  lemma DoneAtEnd(c: Conn, b: seq<Frame>)
    requires DoneLast(c, b)
    ensures c.done <==> b == []
  {
  }

  lemma NothingMore(c: Conn)
    ensures ReceiveAll(c, []) == c
  {
  }

  /** A SYN-ACK for the fetch, with the peer's initial sequence number. */
  predicate SynAck(data: Frame, isn: U32) {
    var g := Parse(data);
    && g.Some? && g.value.dstPort == CLIENT_PORT && g.value.seqNo == isn
    && Syn(g.value.flags) && AckBit(g.value.flags)
  }

  /** The connection once the request is sent. */
  function Joined(job: Job, data: Frame): Conn
    requires Parse(data).Some?
  {
    var g := Parse(data).value;
    Conn(Established, CLIENT_PORT, (g.ackNo + RequestLength(job)) % MODULUS, (g.seqNo + 1) % MODULUS, [], false)
  }

  lemma JoiningPoll(h: Fetch, v: Visit, isn: U32)
    requires h.phase.Joining? && h.conn == Connecting()
    requires var r := Segs(v.batch); r == [] || (|r| == 1 && SynAck(r[0], isn))
    ensures var r, d := Segs(v.batch), Poll(h, v);
      && (r == [] && v.now >= h.deadline ==> Answer(h, v) == -1)
      && (r == [] && v.now < h.deadline ==>
          d.phase.Joining? && d.conn == Connecting() && d.job == h.job && Answer(h, v) == 0)
      && (r != [] ==> d.phase.Receiving? && d.conn == Joined(h.job, r[0]) && d.job == h.job && Answer(h, v) == 0
                      && d.deadline == v.now + RECV_TIMEOUT)
  {
    hide TakeAll, Segs, Parse;
    SegmentsTaken(h, v.batch);
    TakeAllKeeps(h, v.batch);
    var r := Segs(v.batch);
    if |r| == 1 {
      assert r == [r[0]];
      NothingMore(ReceiveBytes(h.conn, r[0]));
    }
  }

  lemma {:induction false} JoiningSettles(h: Fetch, synAck: Frame, isn: U32, wires: seq<Frame>, vs: seq<Visit>)
    requires h.phase.Joining? && h.conn == Connecting() && SynAck(synAck, isn)
    requires DoneLast(Joined(h.job, synAck), wires)
    requires HandsOver(h, [synAck] + wires, vs)
    ensures vs != [] && Settles(h, [synAck] + wires, vs, ReceiveAll(Joined(h.job, synAck), wires))
    decreases |vs|
  {
    hide Segs, ReceiveAll, Poll, Answer, Settles, DoneLast, Parse;
    var left, v := [synAck] + wires, vs[0];
    var r, c := Segs(v.batch), ReceiveAll(Joined(h.job, synAck), wires);
    assert r != [] ==> r == [synAck];
    JoiningPoll(h, v, isn);
    if Misses(h, left, v) {
      BreaksNow(h, left, vs, c);
    } else if r == [] {
      JoiningSettles(Poll(h, v), synAck, isn, wires, vs[1..]);
      SettlesLater(h, left, vs, c);
    } else {
      assert left[1..] == wires;
      ReceivingSettles(Poll(h, v), wires, vs[1..]);
      SettlesLater(h, left, vs, c);
    }
  }

  lemma ResolvingPoll(h: Fetch, v: Visit)
    requires h.phase.Resolving? && !h.dnsDone && h.attempt < MAX_ATTEMPTS
    ensures var d, os := Poll(h, v), Replies(v.batch);
      if Misses(h, [], v) then Answer(h, v) == -1
      else
        && d.job == h.job && Answer(h, v) == 0
        && (os == [] ==> d.phase.Resolving? && !d.dnsDone && d.attempt < MAX_ATTEMPTS)
        && (os != [] ==> d.phase.Joining? && d.conn == Connecting() && d.deadline == v.now + TCP_TIMEOUT)
  {
    hide TakeAll, Replies, Segs;
    RepliesTaken(h, v.batch);
    TakeAllKeeps(h, v.batch);
  }

  lemma {:induction false} ResolvingSettles(h: Fetch, synAck: Frame, isn: U32, wires: seq<Frame>, vs: seq<Visit>)
    requires h.phase.Resolving? && !h.dnsDone && h.attempt < MAX_ATTEMPTS && SynAck(synAck, isn)
    requires DoneLast(Joined(h.job, synAck), wires)
    requires HandsOver(h, [synAck] + wires, vs)
    ensures vs != [] && Settles(h, [synAck] + wires, vs, ReceiveAll(Joined(h.job, synAck), wires))
    decreases |vs|
  {
    hide Replies, Segs, ReceiveAll, Poll, Answer, Settles, DoneLast, Parse, Joined;
    var left, v := [synAck] + wires, vs[0];
    var c := ReceiveAll(Joined(h.job, synAck), wires);
    ResolvingPoll(h, v);
    if Misses(h, left, v) {
      BreaksNow(h, left, vs, c);
    } else {
      if Replies(v.batch) == [] {
        ResolvingSettles(Poll(h, v), synAck, isn, wires, vs[1..]);
      } else {
        JoiningSettles(Poll(h, v), synAck, isn, wires, vs[1..]);
      }
      SettlesLater(h, left, vs, c);
    }
  }

  // ---------- End to end ----------

  lemma ResponseReceived(job: Job, synAck: Frame, isn: U32, ps: seq<Piece>)
    requires SynAck(synAck, isn) && ValidPieces(ps) && ps != []
    ensures var wires := Transmit(ps, (isn + 1) % MODULUS);
      && DoneLast(Joined(job, synAck), wires)
      && ReceiveAll(Joined(job, synAck), wires).rx == Kept([], ps)
      && ReceiveAll(Joined(job, synAck), wires).ackNo == (isn + 2 + |Stream(ps)| + |ps[|ps| - 1].pad|) % MODULUS
  {
    hide ReceiveAll, DoneLast, Transmit, Parse, ValidPiece, Kept, Stream;
    var next := (isn + 1) % MODULUS;
    var c := Joined(job, synAck);
    TransmitEndsLast(c, ps, next);
    StreamKept(c, ps, next);
    StreamAcknowledged(c, ps, next);
    SumWraps(isn, 1, |Stream(ps)| + |ps[|ps| - 1].pad|);
  }

  /** End to end, for every cutting of every response into in-order segments ending in FIN and every
      interleaving of packets and polls. If no poll at or past a deadline comes up empty, the first
      result is 1, the caller's buffer holds the body of what the receive buffer kept, up to its
      capacity, and all is acknowledged; if one does, or DNS names no address, the first result is
      -1. */
  lemma FetchDeliversIff(h: Fetch, job: Job, start: nat, synAck: Frame, isn: U32, ps: seq<Piece>, vs: seq<Visit>)
    requires SynAck(synAck, isn) && ValidPieces(ps) && ps != []
    requires HandsOver(Start(h, true, Some(job), start).0, [synAck] + Transmit(ps, (isn + 1) % MODULUS), vs)
    ensures var s := Start(h, true, Some(job), start).0;
      var rs, d := Answers(s, vs), PollAll(s, vs);
      if NeverMisses(s, [synAck] + Transmit(ps, (isn + 1) % MODULUS), vs) then
        && vs != [] && rs == Zeros(|vs| - 1) + [1]
        && d.out == Truncated(BodyOf(Kept([], ps)), job.capacity)
        && d.conn.ackNo == (isn + 2 + |Stream(ps)| + |ps[|ps| - 1].pad|) % MODULUS
        && d.ip == Named(s, vs)
      else Pending(rs) < |vs| && rs[Pending(rs)] == -1
  {
    hide HandsOver, NeverMisses, ReceiveAll, DoneLast, Transmit, SynAck, BodyOf, Answers, PollAll, Joined, ValidPieces;
    hide Stream, Kept, Pending, Named;
    ResponseReceived(job, synAck, isn, ps);
    PeerNamed(Start(h, true, Some(job), start).0, vs);
    ResolvingSettles(Start(h, true, Some(job), start).0, synAck, isn, Transmit(ps, (isn + 1) % MODULUS), vs);
  }

  /** A response of at most 8192 bytes, padding included, whose header block ends at the first empty
      line: what follows that line arrives, and without padding all of it is acknowledged as
      RFC 9293, section 3.10.7.4, has it. */
  lemma BodyDelivered(h: Fetch, job: Job, start: nat, synAck: Frame, isn: U32, ps: seq<Piece>, vs: seq<Visit>,
                      headers: seq<Byte>, body: seq<Byte>)
    requires SynAck(synAck, isn) && ValidPieces(ps) && ps != [] && |OnTheWire(ps)| <= RX_CAPACITY
    requires OnTheWire(ps) == headers + [13, 10, 13, 10] + body
    requires forall j :: 0 <= j < |headers| ==> !EndOfHeaders(OnTheWire(ps), j)
    requires var s, left := Start(h, true, Some(job), start).0, [synAck] + Transmit(ps, (isn + 1) % MODULUS);
      HandsOver(s, left, vs) && NeverMisses(s, left, vs)
    ensures var s := Start(h, true, Some(job), start).0;
      && Answers(s, vs) == Zeros(|vs| - 1) + [1] && PollAll(s, vs).out == Truncated(body, job.capacity)
      && (Unpadded(ps) ==>
          OnTheWire(ps) == Stream(ps) && PollAll(s, vs).conn.ackNo == (isn + 2 + |Stream(ps)|) % MODULUS)
  {
    hide HandsOver, NeverMisses, Transmit, SynAck, BodyOf, Answers, PollAll, ValidPieces, Stream, OnTheWire, Kept;
    FetchDeliversIff(h, job, start, synAck, isn, ps, vs);
    KeptWhole([], ps);
    assert [] + OnTheWire(ps) == OnTheWire(ps);
    BodyAfterHeaders(headers, body);
    PaddingShows(ps);
  }

  // ---------- Whom the fetch connects to ----------

  /** The address named by the replies of the poll that ends name resolution; 0 when none does. */
  function Named(h: Fetch, vs: seq<Visit>): U32
    decreases |vs|
  {
    if vs == [] || !h.phase.Resolving? then 0
    else if Poll(h, vs[0]).phase.Resolving? then Named(Poll(h, vs[0]), vs[1..])
    else Address(0, Replies(vs[0].batch))
  }

  /** Nothing but name resolution chooses the peer. */
  lemma {:induction false} PeerKept(h: Fetch, vs: seq<Visit>)
    requires !h.phase.Resolving?
    ensures PollAll(h, vs).ip == h.ip && !PollAll(h, vs).phase.Resolving?
    decreases |vs|
  {
    hide TakeAll, BodyOf;
    if vs != [] {
      TakeAllKeeps(h, vs[0].batch);
      PeerKept(Poll(h, vs[0]), vs[1..]);
    }
  }

  lemma PeerPolled(h: Fetch, v: Visit)
    requires h.phase.Resolving? && h.ip == h.dnsResult == 0 && !h.dnsDone
    ensures var d := Poll(h, v);
      && (d.phase.Resolving? ==> d.ip == d.dnsResult == 0 && !d.dnsDone)
      && (!d.phase.Resolving? ==> d.ip == Address(0, Replies(v.batch)) && (d.ip != 0 <==> d.phase.Joining?))
      && (d.phase.Resolving? || d.phase.Joining? || d.phase.Failed?)
  {
    hide TakeAll, Replies;
    RepliesTaken(h, v.batch);
    TakeAllKeeps(h, v.batch);
    NoReplies(h.dnsResult);
  }

  lemma NoReplies(found: U32)
    ensures Address(found, []) == found
  {
  }

  /** Over every run of polls, whatever they find: the fetch talks to the address that the replies of
      the poll that ended name resolution named, and only if they named one. */
  lemma {:induction false} PeerNamed(h: Fetch, vs: seq<Visit>)
    requires h.phase.Resolving? && h.ip == h.dnsResult == 0 && !h.dnsDone
    ensures var d := PollAll(h, vs);
      d.ip == Named(h, vs) && (d.phase.Joining? || d.phase.Receiving? || d.phase.Delivered? ==> d.ip != 0)
    decreases |vs|
  {
    hide Poll, Replies;
    if vs != [] {
      PeerPolled(h, vs[0]);
      var d := Poll(h, vs[0]);
      if d.phase.Resolving? {
        PeerNamed(d, vs[1..]);
      } else {
        PeerKept(d, vs[1..]);
        if d.phase.Failed? {
          NeverTalks(d, vs[1..]);
        }
      }
    }
  }

  lemma {:induction false} NeverTalks(h: Fetch, vs: seq<Visit>)
    requires h.phase.Failed? || h.phase.Idle?
    ensures var d := PollAll(h, vs); d.phase.Failed? || d.phase.Idle?
    decreases |vs|
  {
    if vs != [] {
      NeverTalks(Poll(h, vs[0]), vs[1..]);
    }
  }

  /** A response to the question for a host, as section 4.1 of RFC 1035 writes it, with these answers. */
  ghost predicate Response(p: Packet, host: seq<Byte>, rs: seq<Dns.Record>) {
    && p.DnsPacket? && Dns.ValidRecords(rs) && |rs| < 0x1_0000
    && exists header: seq<Byte>, rest: seq<Byte> :: |header| == Dns.HEADER_LEN && header[6..8] == BE16(|rs|)
         && p.data == header + Dns.Question(host) + Dns.WriteRecords(rs) + rest
  }

  lemma ResponseHandled(p: Packet, host: seq<Byte>, rs: seq<Dns.Record>)
    requires Response(p, host, rs) && Dns.AllSkippable(Dns.Labels(host))
    ensures p.DnsPacket? && Dns.Handle(p.data, p.beyond) == Some(Dns.Outcome(Dns.FirstAddress(rs)))
  {
    hide Dns.Question, Dns.WriteRecords, Dns.Handle, Dns.FirstAddress, Dns.Labels, Dns.AllSkippable;
    var header: seq<Byte>, rest: seq<Byte> :| |header| == Dns.HEADER_LEN && header[6..8] == BE16(|rs|)
      && p.data == header + Dns.Question(host) + Dns.WriteRecords(rs) + rest;
    Dns.ResponseRead(header, host, rs, rest, p.beyond);
  }

  /** A fetch whose poll k, the first to find replies, finds one response to its own question talks
      from then on to the first address among that response's records, and to none without one. */
  lemma TalksToAnswer(h: Fetch, job: Job, start: nat, vs: seq<Visit>, k: nat, p: Packet, rs: seq<Dns.Record>)
    requires k < |vs| && PollAll(Start(h, true, Some(job), start).0, vs[..k]).phase.Resolving?
    requires Replies(vs[k].batch) == Replies([p]) && Response(p, job.host, rs)
    requires Dns.AllSkippable(Dns.Labels(job.host))
    ensures PollAll(Start(h, true, Some(job), start).0, vs).ip ==
      match Dns.FirstAddress(rs) case Some(a) => a case None => 0
  {
    hide PollAll, Named, Replies, Response, Dns.Labels, Dns.AllSkippable, Dns.FirstAddress;
    var s := Start(h, true, Some(job), start).0;
    ResponseHandled(p, job.host, rs);
    OneReply(p, Dns.FirstAddress(rs));
    PeerNamed(s, vs);
    NamedAt(s, vs, k);
  }

  lemma OneReply(p: Packet, a: Option<U32>)
    requires p.DnsPacket? && Dns.Handle(p.data, p.beyond) == Some(Dns.Outcome(a))
    ensures Replies([p]) == [Dns.Outcome(a)]
    ensures Address(0, Replies([p])) == match a case Some(x) => x case None => 0
  {
    hide Dns.Handle;
    assert [p][1..] == [];
    var os := [Dns.Outcome(a)];
    assert Replies([p]) == os && os[1..] == [];
  }

  lemma {:induction false} NamedAt(h: Fetch, vs: seq<Visit>, k: nat)
    requires h.phase.Resolving? && h.ip == h.dnsResult == 0 && !h.dnsDone
    requires k < |vs| && PollAll(h, vs[..k]).phase.Resolving? && Replies(vs[k].batch) != []
    ensures Named(h, vs) == Address(0, Replies(vs[k].batch))
    decreases |vs|
  {
    hide Poll, Replies;
    PeerPolled(h, vs[0]);
    if k == 0 {
      LeavesResolving(h, vs[0]);
    } else {
      var d := Poll(h, vs[0]);
      assert vs[..k][1..] == vs[1..][..k - 1];
      if d.phase.Resolving? {
        NamedAt(d, vs[1..], k - 1);
      } else {
        PeerKept(d, vs[1..][..k - 1]);
      }
    }
  }

  lemma LeavesResolving(h: Fetch, v: Visit)
    requires h.phase.Resolving? && Replies(v.batch) != []
    ensures !Poll(h, v).phase.Resolving?
  {
    hide TakeAll, Replies;
    RepliesTaken(h, v.batch);
    TakeAllKeeps(h, v.batch);
  }

  // ---------- Resets ----------

  /** A segment with RST while receiving: the fetch delivers the body of what has arrived so far. */
  lemma ResetDelivers(h: Fetch, v: Visit, seqNo: U32, ackNo: U32, flags: Byte, options: seq<Byte>, rest: seq<Byte>,
                      body: seq<Byte>)
    requires h.phase.Receiving? && h.conn.state.Established? && h.conn.port == CLIENT_PORT && flags / 4 % 2 == 1
    requires |options| % 4 == 0 && |options| <= 40 && |rest| == 6 && |body| <= 0xff00
    requires Segs(v.batch) == [Header(80, seqNo, ackNo, flags, options, rest) + body]
    ensures Answer(h, v) == 1
    ensures Poll(h, v).out == Truncated(BodyOf(KeptOne(h.conn.rx, body)), h.job.capacity)
  {
    hide Header, Poll, Answer, BodyOf, ReceiveBytes, Segs;
    var r: Frame := Header(80, seqNo, ackNo, flags, options, rest) + body;
    ResetReceived(h.conn, 80, seqNo, ackNo, flags, options, rest, body);
    ReceivingPoll(h, v);
    assert [r][1..] == [];
    NothingMore(ReceiveBytes(h.conn, r));
  }

  /** A peer that refuses the connection with RST is not noticed: the fetch waits for its deadline. */
  lemma RefusalUnnoticed(h: Fetch, v: Visit, r: Frame)
    requires h.phase.Joining? && h.conn == Connecting() && Segs(v.batch) == [r]
    requires |r| >= 20 && r[13] == 0x14
    ensures Poll(h, v) == TakeAll(h, v.batch).(phase := if v.now >= h.deadline then Failed else Joining)
    ensures Poll(h, v).conn == h.conn
  {
    hide TakeAll, ReceiveBytes, Segs;
    HandshakeIff(h.conn, r);
    SegmentsTaken(h, v.batch);
    TakeAllKeeps(h, v.batch);
    assert [r][1..] == [];
    NothingMore(h.conn);
  }

  /** An abort, or a start that is refused, leaves no fetch running, and no packet reaches the
      connection it used any more. */
  lemma StoppedForGood(h: Fetch, ready: bool, job: Option<Job>, now: nat, batch: seq<Packet>)
    requires !ready || job.None?
    ensures var (d, ok) := Start(h, ready, job, now);
      && ok == 0 && d == Abort(h) && !Running(d) && d.out == h.out && d.queries == h.queries
      && (h.phase.Joining? || h.phase.Receiving? ==> TakeAll(d, batch).conn == d.conn)
  {
    if h.phase.Joining? || h.phase.Receiving? {
      AbortSilences(Abort(h), batch);
    }
  }

  /** After an abort no packet changes the connection that the fetch used. */
  lemma {:induction false} AbortSilences(h: Fetch, batch: seq<Packet>)
    requires h.phase.Idle? && h.conn.state.Closed?
    ensures TakeAll(h, batch).conn == h.conn
    decreases |batch|
  {
    hide ReceiveBytes;
    if batch != [] {
      if batch[0].TcpPacket? {
        DeafUnlessOpen(h.conn, batch[0].bytes);
      }
      AbortSilences(Take(h, batch[0]), batch[1..]);
    }
  }

  // ---------- Such conversations exist ----------

  /** A reply from which dns_handle takes an address. */
  predicate Names(p: Packet) {
    var r := Reply(p);
    r.Some? && r.value.address.Some? && r.value.address.value != 0
  }

  function Packets(wires: seq<Frame>): (s: seq<Packet>)
    ensures |s| == |wires|
  {
    seq(|wires|, i requires 0 <= i < |wires| => TcpPacket(wires[i]))
  }

  lemma {:induction false} TransmitForClient(ps: seq<Piece>, next: U32)
    requires ValidPieces(ps)
    ensures |Transmit(ps, next)| == |ps| && Segs(Packets(Transmit(ps, next))) == Transmit(ps, next)
    decreases |ps|
  {
    hide Header, Parse;
    var wires := Transmit(ps, next);
    if ps != [] {
      var p, after := ps[0], (next + |ps[0].data|) % MODULUS;
      var last := |ps| == 1;
      ParseWritten(80, next, p.ackNo, if last then p.flags + 1 else p.flags, p.options, p.rest, p.data + p.pad);
      assert ForClient(TcpPacket(Wire(p, next, last)));
      TransmitForClient(ps[1..], after);
      assert Packets(wires)[1..] == Packets(Transmit(ps[1..], after));
    }
  }

  lemma ReplyPolled(h: Fetch, v: Visit, left: seq<Frame>, reply: Packet)
    requires h.phase.Resolving? && !h.dnsDone && h.attempt < MAX_ATTEMPTS && v.batch == [reply] && Names(reply)
    ensures !Misses(h, left, v)
    ensures Poll(h, v).phase.Joining? && Poll(h, v).conn == Connecting()
  {
    hide Reply, Poll;
    assert v.batch[1..] == [] && Replies(v.batch[1..]) == [];
    var os := [Reply(reply).value];
    assert Replies(v.batch) == os && os[1..] == [];
    assert Address(h.dnsResult, os) == os[0].address.value;
    ResolvingPoll(h, v);
  }

  lemma SynAckPolled(h: Fetch, v: Visit, left: seq<Frame>, synAck: Frame, isn: U32)
    requires h.phase.Joining? && h.conn == Connecting() && v.batch == Packets([synAck]) && SynAck(synAck, isn)
    ensures Segs(v.batch) == [synAck] && !Misses(h, left, v) && Poll(h, v).phase.Receiving?
  {
    hide Parse, Poll;
    assert v.batch[1..] == [] && Segs(v.batch[1..]) == [];
    JoiningPoll(h, v, isn);
  }

  lemma AtLast(h: Fetch, v: Visit, wires: seq<Frame>)
    requires h.phase.Receiving? && Segs(v.batch) == wires != [] && |v.batch| <= PACKETS_PER_POLL
    ensures HandsOver(h, wires, [v]) && NeverMisses(h, wires, [v])
  {
    hide Poll, Segs;
    assert [v][1..] == [];
    assert wires[|wires|..] == [];
  }

  lemma OneMore(h: Fetch, left: seq<Frame>, vs: seq<Visit>)
    requires vs != [] && left != [] && |vs[0].batch| <= PACKETS_PER_POLL && !Misses(h, left, vs[0])
    requires h.phase.Resolving? || (h.phase.Joining? && |Segs(vs[0].batch)| <= 1 && Segs(vs[0].batch) <= left)
    requires var d, rest := Poll(h, vs[0]), Rest(h, left, vs[0]);
      HandsOver(d, rest, vs[1..]) && NeverMisses(d, rest, vs[1..])
    ensures HandsOver(h, left, vs) && NeverMisses(h, left, vs)
  {
    hide Poll, Segs, Misses, Rest;
  }

  /** Three polls at whatever ticks make such a conversation: one finds the reply, one the SYN-ACK,
      one the response. */
  lemma AnyTicksDeliver(h: Fetch, job: Job, start: nat, reply: Packet, synAck: Frame, isn: U32, ps: seq<Piece>,
                        t1: nat, t2: nat, t3: nat)
    requires Names(reply) && SynAck(synAck, isn) && ValidPieces(ps) && 0 < |ps| <= PACKETS_PER_POLL
    ensures var wires := Transmit(ps, (isn + 1) % MODULUS);
      var s, left := Start(h, true, Some(job), start).0, [synAck] + wires;
      var vs := [Visit(t1, [reply]), Visit(t2, Packets([synAck])), Visit(t3, Packets(wires))];
      HandsOver(s, left, vs) && NeverMisses(s, left, vs)
  {
    hide Transmit, Names, SynAck, Poll, Segs, HandsOver, NeverMisses, ValidPieces, Misses;
    var wires := Transmit(ps, (isn + 1) % MODULUS);
    var v1, v2, v3 := Visit(t1, [reply]), Visit(t2, Packets([synAck])), Visit(t3, Packets(wires));
    var s1, left := Start(h, true, Some(job), start).0, [synAck] + wires;
    var s2 := Poll(s1, v1);
    var s3 := Poll(s2, v2);
    TransmitForClient(ps, (isn + 1) % MODULUS);
    ReplyPolled(s1, v1, left, reply);
    SynAckPolled(s2, v2, left, synAck, isn);
    AtLast(s3, v3, wires);
    assert left[1..] == wires;
    OneMore(s2, left, [v2, v3]);
    assert [v1, v2, v3][1..] == [v2, v3];
    OneMore(s1, left, [v1, v2, v3]);
  }
}
