/** The non-blocking HTTP fetch of net.c as a state machine over polls and arriving packets. */
module Http {
  import opened Machine
  import opened Tcp
  import Dns

  const DNS_TIMEOUT := 150
  const TCP_TIMEOUT := 300
  const RECV_TIMEOUT := 600
  const MAX_ATTEMPTS := 3
  const PACKETS_PER_POLL := 16
  const REQUEST_CAPACITY := 512

  // ---------- Packets ----------

  /** What net_poll dispatches: a UDP payload for port 12345, a TCP segment, anything else.
      `beyond` is the memory behind a UDP payload. */
  datatype Packet = DnsPacket(data: Frame, beyond: nat -> Byte) | TcpPacket(bytes: Frame) | OtherPacket

  // ---------- State ----------

  /** g_async_state: IDLE, DNS, TCP_CONNECT, TCP_RECV, DONE and FAILED. */
  datatype Phase = Idle | Resolving | Joining | Receiving | Delivered | Failed

  /** What parse_url leaves of a URL, and the capacity of the caller's buffer. */
  datatype Job = Job(host: seq<Byte>, path: seq<Byte>, capacity: nat)

  /** The g_async and g_dns variables and g_tcp; `queries` counts the DNS queries of the fetch and
      `out` is what it has put into the caller's buffer. */
  datatype Fetch = Fetch(phase: Phase, job: Job, deadline: nat, attempt: nat, ip: U32,
                         dnsResult: U32, dnsDone: bool, conn: Conn, out: seq<Byte>, queries: nat)

  predicate Running(h: Fetch) {
    h.phase.Resolving? || h.phase.Joining? || h.phase.Receiving?
  }

  // ---------- The response body ----------

  predicate EndOfHeaders(s: seq<Byte>, i: nat) {
    i + 3 < |s| && s[i] == 13 && s[i + 1] == 10 && s[i + 2] == 13 && s[i + 3] == 10
  }

  /** Where the search for the body, standing at i, ends. */
  function BodyStart(s: seq<Byte>, i: nat): (k: nat)
    ensures k <= |s|
    decreases |s| - i
  {
    if i + 3 >= |s| then 0 else if EndOfHeaders(s, i) then i + 4 else BodyStart(s, i + 1)
  }

  function BodyOf(s: seq<Byte>): seq<Byte> {
    s[BodyStart(s, 0)..]
  }

  /** What fits of it, from its start. */
  function Truncated(s: seq<Byte>, capacity: nat): (t: seq<Byte>)
    ensures t <= s && |t| == if |s| < capacity then |s| else capacity
  {
    if |s| <= capacity then s else s[..capacity]
  }

  lemma {:induction false} BodyStartFrom(s: seq<Byte>, i: nat, k: nat)
    requires i <= k && EndOfHeaders(s, k) && forall j :: i <= j < k ==> !EndOfHeaders(s, j)
    ensures BodyStart(s, i) == k + 4
    decreases k - i
  {
    if i < k {
      BodyStartFrom(s, i + 1, k);
    }
  }

  /** The body is what follows the first empty line. */
  lemma BodyAfterHeaders(headers: seq<Byte>, body: seq<Byte>)
    requires var s := headers + [13, 10, 13, 10] + body; forall j :: 0 <= j < |headers| ==> !EndOfHeaders(s, j)
    ensures BodyOf(headers + [13, 10, 13, 10] + body) == body
  {
    BodyStartFrom(headers + [13, 10, 13, 10] + body, 0, |headers|);
  }

  /** Without an empty line everything is body. */
  lemma {:induction false} NoHeaders(s: seq<Byte>, i: nat)
    requires forall j :: i <= j ==> !EndOfHeaders(s, j)
    ensures BodyStart(s, i) == 0
    decreases |s| - i
  {
    if i + 3 < |s| {
      NoHeaders(s, i + 1);
    }
  }

  // ---------- Steps ----------

  /** The five parts of the request. */
  function Parts(job: Job): (ps: seq<seq<Byte>>)
    ensures |ps| == 5
  {
    [Ascii("GET "), job.path, Ascii(" HTTP/1.0\r\nHost: "), job.host, Ascii("\r\nConnection: close\r\n\r\n")]
  }

  function Concat(ps: seq<seq<Byte>>): seq<Byte> {
    if ps == [] then [] else Concat(ps[..|ps| - 1]) + ps[|ps| - 1]
  }

  lemma {:induction false} ConcatGrows(ps: seq<seq<Byte>>, n: nat)
    requires n <= |ps|
    ensures n > 0 ==> Concat(ps[..n]) == Concat(ps[..n - 1]) + ps[n - 1]
    ensures forall k :: 0 <= k <= n ==> |Concat(ps[..k])| <= |Concat(ps[..n])|
  {
    if n > 0 {
      ConcatGrows(ps, n - 1);
      assert ps[..n][..n - 1] == ps[..n - 1];
    }
  }

  /** What async_send_request sends: nothing when its buffer of 512 bytes cannot hold the parts. */
  function Request(job: Job): seq<Byte> {
    if |Concat(Parts(job))| < REQUEST_CAPACITY then Concat(Parts(job)) else []
  }

  function RequestLength(job: Job): nat {
    |Request(job)|
  }

  /** net_async_http_abort */
  function Abort(h: Fetch): Fetch {
    var conn := if h.phase.Joining? || h.phase.Receiving? then h.conn.(state := Closed) else h.conn;
    h.(phase := Idle, conn := conn)
  }

  /** net_async_http_start; `job` is None when parse_url refuses the URL. */
  function Start(h: Fetch, ready: bool, job: Option<Job>, now: nat): (Fetch, int) {
    var quiet := Abort(h);
    if !ready || job.None? then (quiet, 0)
    else (Fetch(Resolving, job.value, now + DNS_TIMEOUT, 0, 0, 0, false, quiet.conn, [], 1), 1)
  }

  /** One packet through net_poll. */
  function Take(h: Fetch, p: Packet): Fetch {
    match p
    case DnsPacket(data, beyond) =>
      var o := Dns.Handle(data, beyond);
      h.(dnsDone := h.dnsDone || o.Some?,
         dnsResult := if o.Some? && o.value.address.Some? then o.value.address.value else h.dnsResult)
    case TcpPacket(bytes) => h.(conn := ReceiveBytes(h.conn, bytes))
    case OtherPacket => h
  }

  function TakeAll(h: Fetch, batch: seq<Packet>): Fetch
    decreases |batch|
  {
    if batch == [] then h else TakeAll(Take(h, batch[0]), batch[1..])
  }

  function Resolve(h: Fetch, now: nat): Fetch {
    if h.dnsDone then
      if h.dnsResult != 0 then
        h.(ip := h.dnsResult, conn := Connecting(), phase := Joining, deadline := now + TCP_TIMEOUT)
      else h.(phase := Failed)
    else if now >= h.deadline then
      if h.attempt + 1 < MAX_ATTEMPTS then
        h.(attempt := h.attempt + 1, dnsResult := 0, dnsDone := false, queries := h.queries + 1,
           deadline := now + DNS_TIMEOUT)
      else h.(attempt := h.attempt + 1, phase := Failed)
    else h
  }

  function Join(h: Fetch, now: nat): Fetch {
    if h.conn.state.Established? then
      h.(conn := h.conn.(seqNo := (h.conn.seqNo + RequestLength(h.job)) % MODULUS),
         phase := Receiving, deadline := now + RECV_TIMEOUT)
    else if h.conn.state.Done? || now >= h.deadline then h.(phase := Failed)
    else h
  }

  function Finish(h: Fetch, now: nat): Fetch {
    if h.conn.done then
      h.(out := Truncated(BodyOf(h.conn.rx), h.job.capacity), conn := h.conn.(state := Closed), phase := Delivered)
    else if now >= h.deadline then h.(conn := h.conn.(state := Closed), phase := Failed)
    else h
  }

  function Advance(h: Fetch, now: nat): Fetch {
    match h.phase
    case Resolving => Resolve(h, now)
    case Joining => Join(h, now)
    case Receiving => Finish(h, now)
    case _ => h
  }

  /** One call of net_async_http_poll: the tick it samples and the packets net_poll finds. */
  datatype Visit = Visit(now: nat, batch: seq<Packet>)

  function Poll(h: Fetch, v: Visit): Fetch {
    if Running(h) then Advance(TakeAll(h, v.batch), v.now) else h.(phase := Idle)
  }

  /** What the call returns. */
  function Answer(h: Fetch, v: Visit): int {
    var d := Poll(h, v);
    if Running(h) then if d.phase.Delivered? then 1 else if d.phase.Failed? then -1 else 0
    else if h.phase.Delivered? then 1 else -1
  }

  function PollAll(h: Fetch, vs: seq<Visit>): Fetch
    decreases |vs|
  {
    if vs == [] then h else PollAll(Poll(h, vs[0]), vs[1..])
  }

  function Answers(h: Fetch, vs: seq<Visit>): (rs: seq<int>)
    ensures |rs| == |vs|
    decreases |vs|
  {
    if vs == [] then [] else [Answer(h, vs[0])] + Answers(Poll(h, vs[0]), vs[1..])
  }

  /** The number of calls before the first one that returns a result. */
  function Pending(rs: seq<int>): (k: nat)
    ensures k <= |rs| && (forall i :: 0 <= i < k ==> rs[i] == 0) && (k < |rs| ==> rs[k] != 0)
  {
    if rs == [] || rs[0] != 0 then 0 else 1 + Pending(rs[1..])
  }

  lemma {:induction false} TakeAllKeeps(h: Fetch, batch: seq<Packet>)
    ensures var d := TakeAll(h, batch);
      d == h.(dnsResult := d.dnsResult, dnsDone := d.dnsDone, conn := d.conn)
    decreases |batch|
  {
    hide ReceiveBytes;
    if batch != [] {
      TakeAllKeeps(Take(h, batch[0]), batch[1..]);
    }
  }
}
