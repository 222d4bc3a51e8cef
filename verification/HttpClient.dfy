/** The statics of net.c behind net_async_http_start, _abort and _poll. */
module HttpClient {
  import opened Machine
  import opened Tcp
  import opened Http
  import Dns

  class Client {
    var phase: Phase
    var job: Job
    var deadline: nat
    var attempt: nat
    var ip: U32
    var queries: nat
    var outBuf: array<Byte>
    /** The caller's *out_len, written only when a fetch delivers. */
    var outLen: U32
    /** Bytes the fetch has put into the caller's buffer. */
    ghost var written: nat
    /** Received frames that net_poll has not taken yet. */
    var nic: seq<Packet>
    const tcp: TcpConn
    const dns: Dns.Resolver

    constructor ()
      ensures Valid() && View().phase.Idle? && nic == []
    {
      phase, job, deadline, attempt, ip, queries, outLen, written := Idle, Job([], [], 0), 0, 0, 0, 0, 0, 0;
      outBuf := new Byte[0];
      nic := [];
      tcp := new TcpConn();
      dns := new Dns.Resolver();
    }

    ghost predicate Valid()
      reads this, tcp
    {
      && tcp.Valid() && written <= outBuf.Length && job.capacity <= outBuf.Length
      && outBuf != tcp.rxBuf
    }

    ghost function View(): Fetch
      requires Valid()
      reads this, tcp, tcp.rxBuf, dns, outBuf
    {
      Fetch(phase, job, deadline, attempt, ip, dns.result, dns.done, tcp.View(), outBuf[..written], queries)
    }

    /** net_async_http_abort */
    method Abort()
      requires Valid()
      modifies this`phase, tcp
      ensures Valid() && View() == Http.Abort(old(View()))
    {
      if phase != Idle {
        if phase == Joining || phase == Receiving {
          tcp.Close();
        }
        phase := Idle;
      }
    }

    /** net_async_http_start; `url` is what parse_url made of the URL, `len` what *out_len holds. */
    method Start(url: Option<Job>, ready: bool, buf: array<Byte>, len: U32, ticks: nat) returns (ok: int)
      requires Valid() && buf != tcp.rxBuf && (url.Some? ==> url.value.capacity <= buf.Length)
      modifies this, tcp, dns
      ensures Valid() && (View(), ok) == Http.Start(old(View()), ready, url, ticks)
      ensures nic == old(nic) && outLen == if ok == 1 then len else old(outLen)
    {
      if phase != Idle {
        Abort();
      }
      if !ready || url.None? {
        return 0;
      }
      Begin(url.value, buf, len, ticks);
      return 1;
    }

    /** The assignments of a fetch that starts. */
    method Begin(url: Job, buf: array<Byte>, len: U32, ticks: nat)
      requires Valid() && buf != tcp.rxBuf && url.capacity <= buf.Length
      modifies this, dns
      ensures Valid() && nic == old(nic) && outLen == len
      ensures View() == Fetch(Resolving, url, ticks + DNS_TIMEOUT, 0, 0, 0, false, old(View()).conn, [], 1)
    {
      hide Truncated, Connecting;
      queries := 0;
      SendDns();
      job, outBuf, outLen, written := url, buf, len, 0;
      attempt, ip := 0, 0;
      phase, deadline := Resolving, ticks + DNS_TIMEOUT;
    }

    /** async_send_dns */
    method SendDns()
      modifies this`queries, dns
      ensures dns.result == 0 && !dns.done && queries == old(queries) + 1
    {
      dns.result, dns.done := 0, false;
      queries := queries + 1;
    }

    /** net_poll: up to 16 packets. */
    method NetPoll()
      requires Valid()
      modifies this`nic, tcp, tcp.rxBuf, dns
      ensures Valid() && View() == TakeAll(old(View()), Batch(old(nic))) && nic == old(nic)[|Batch(old(nic))|..]
    {
      hide ReceiveBytes;
      var packets := 0;
      ghost var queue := nic;
      while packets < PACKETS_PER_POLL && nic != []
        invariant 0 <= packets <= |queue| && packets <= PACKETS_PER_POLL && nic == queue[packets..] && Valid()
        invariant TakeAll(View(), Batch(queue)[packets..]) == TakeAll(old(View()), Batch(queue))
      {
        var p := nic[0];
        assert Batch(queue)[packets..][1..] == Batch(queue)[packets + 1..];
        HandlePacket(p);
        nic := nic[1..];
        packets := packets + 1;
      }
      assert Batch(queue)[packets..] == [];
    }

    method HandlePacket(p: Packet)
      requires Valid()
      modifies tcp, tcp.rxBuf, dns
      ensures Valid() && View() == Take(old(View()), p)
    {
      match p
      case DnsPacket(data, beyond) => dns.DnsHandle(data, beyond);
      case TcpPacket(bytes) => tcp.Handle(bytes);
      case OtherPacket =>
    }

    /** net_async_http_poll */
    method Poll(ticks: nat) returns (status: int)
      requires Valid()
      modifies this, tcp, tcp.rxBuf, dns, outBuf
      ensures Valid() && nic == if old(Running(View())) then old(nic)[|Batch(old(nic))|..] else old(nic)
      ensures var v := Visit(ticks, Batch(old(nic)));
        View() == Http.Poll(old(View()), v) && status == Answer(old(View()), v)
      ensures outLen == if old(Running(View())) && phase == Delivered then |View().out| else old(outLen)
    {
      hide TakeAll, Http.Resolve, Http.Join, Http.Finish, Batch;
      if phase == Idle {
        return -1;
      }
      if phase == Delivered {
        phase := Idle;
        return 1;
      }
      if phase == Failed {
        phase := Idle;
        return -1;
      }
      NetPoll();
      if phase == Resolving {
        Resolve(ticks);
      } else if phase == Joining {
        Join(ticks);
      } else {
        Finish(ticks);
      }
      return if phase == Delivered then 1 else if phase == Failed then -1 else 0;
    }

    method Resolve(ticks: nat)
      requires Valid() && phase == Resolving
      modifies this`phase, this`deadline, this`attempt, this`ip, this`queries, tcp, dns
      ensures Valid() && View() == Http.Resolve(old(View()), ticks) && phase != Delivered
    {
      if dns.done {
        if dns.result != 0 {
          ip := dns.result;
          tcp.InitConnect();
          phase, deadline := Joining, ticks + TCP_TIMEOUT;
        } else {
          phase := Failed;
        }
      } else if ticks >= deadline {
        attempt := attempt + 1;
        if attempt < MAX_ATTEMPTS {
          SendDns();
          deadline := ticks + DNS_TIMEOUT;
        } else {
          phase := Failed;
        }
      }
    }

    method Join(ticks: nat)
      requires Valid() && phase == Joining
      modifies this`phase, this`deadline, tcp
      ensures Valid() && View() == Http.Join(old(View()), ticks) && phase != Delivered
    {
      if tcp.state == Established {
        var request := BuildRequest(job);
        tcp.seqNo := (tcp.seqNo + |request|) % MODULUS;
        phase, deadline := Receiving, ticks + RECV_TIMEOUT;
      } else if tcp.state == Done || ticks >= deadline {
        phase := Failed;
      }
    }

    method Finish(ticks: nat)
      requires Valid()
      modifies this`phase, this`outLen, this`written, tcp, outBuf
      ensures Valid() && View() == Http.Finish(old(View()), ticks)
      ensures phase == if old(tcp.done) then Delivered else if ticks >= deadline then Failed else old(phase)
      ensures outLen == if old(tcp.done) then |View().out| else old(outLen)
    {
      hide BodyStart;
      if tcp.done {
        var start := FindBody(tcp.rxBuf, tcp.rxLen);
        ghost var body := BodyOf(tcp.View().rx);
        var length := tcp.rxLen - start;
        assert body == tcp.rxBuf[start..tcp.rxLen];
        if length > job.capacity {
          length := job.capacity;
        }
        Copy(tcp.rxBuf, start, outBuf, length);
        assert outBuf[..length] == Truncated(body, job.capacity);
        outLen, written := length, length;
        tcp.Close();
        phase := Delivered;
      } else if ticks >= deadline {
        tcp.Close();
        phase := Failed;
      }
    }
  }

  function Batch(queue: seq<Packet>): seq<Packet> {
    if |queue| <= PACKETS_PER_POLL then queue else queue[..PACKETS_PER_POLL]
  }

  /** The loop of async_send_request, which gives up when a part does not fit its buffer. */
  method BuildRequest(job: Job) returns (request: seq<Byte>)
    ensures request == Request(job)
  {
    hide Ascii, Parts;
    var parts := Parts(job);
    request := [];
    var i := 0;
    while i < |parts|
      invariant 0 <= i <= |parts|
      invariant request == Concat(parts[..i]) && |request| < REQUEST_CAPACITY
    {
      ConcatGrows(parts, i + 1);
      if |request| + |parts[i]| >= REQUEST_CAPACITY {
        ConcatGrows(parts, |parts|);
        return [];
      }
      request := request + parts[i];
      i := i + 1;
    }
    assert parts[..i] == parts;
  }

  /** The search for the empty line in the first `len` bytes. */
  method FindBody(buf: array<Byte>, len: nat) returns (start: nat)
    requires len <= buf.Length
    ensures start == BodyStart(buf[..len], 0)
  {
    var i := 0;
    while i + 3 < len
      invariant i <= len
      invariant BodyStart(buf[..len], i) == BodyStart(buf[..len], 0)
    {
      if buf[i] == 13 && buf[i + 1] == 10 && buf[i + 2] == 13 && buf[i + 3] == 10 {
        return i + 4;
      }
      i := i + 1;
    }
    start := 0;
  }

  method Copy(src: array<Byte>, from: nat, dst: array<Byte>, n: nat)
    requires from + n <= src.Length && n <= dst.Length && src != dst
    modifies dst
    ensures dst[..n] == src[from..from + n]
  {
    var i := 0;
    while i < n
      invariant 0 <= i <= n
      invariant dst[..i] == src[from..from + i]
    {
      dst[i] := src[from + i];
      i := i + 1;
    }
  }
}
