/** From a URL to the request that is sent: parse_url and the text of the GET. */
module HttpRequest {
  import opened Machine
  import opened Http

  const HOST_SIZE := 64
  const PATH_SIZE := 128

  // ---------- The URL ----------

  /** Index of the first '/', or the length. */
  function SlashIndex(s: seq<Byte>): (i: nat)
    ensures i <= |s| && '/' as int !in s[..i] && (i < |s| ==> s[i] == '/' as int)
  {
    if s == [] || s[0] == '/' as int then 0 else 1 + SlashIndex(s[1..])
  }

  /** parse_url; `capacity` is that of the caller's buffer. */
  function ParseUrl(url: seq<Byte>, capacity: nat): Option<Job> {
    if !(Ascii("http://") <= url) then None
    else
      var behind := url[7..];
      var n := SlashIndex(behind);
      var path := behind[n..];
      if n == 0 || n >= HOST_SIZE || |path| >= PATH_SIZE then None
      else Some(Job(behind[..n], if path == [] then Ascii("/") else path, capacity))
  }

  /** The search for the path. */
  method FindSlash(s: seq<Byte>) returns (i: nat)
    ensures i == SlashIndex(s)
  {
    i := 0;
    assert s[0..] == s;
    while i < |s| && s[i] != '/' as int
      invariant 0 <= i <= |s|
      invariant i + SlashIndex(s[i..]) == SlashIndex(s)
    {
      assert s[i..][1..] == s[i + 1..];
      i := i + 1;
    }
  }

  /** parse_url */
  method Parse(url: seq<Byte>, capacity: nat) returns (job: Option<Job>)
    ensures job == ParseUrl(url, capacity)
  {
    if !(Ascii("http://") <= url) {
      return None;
    }
    var hostLen := FindSlash(url[7..]);
    if hostLen == 0 || hostLen >= HOST_SIZE {
      return None;
    }
    if hostLen < |url| - 7 {
      var path := url[7 + hostLen..];
      assert url[7..][hostLen..] == path;
      if |path| >= PATH_SIZE {
        return None;
      }
      return Some(Job(url[7..][..hostLen], path, capacity));
    }
    assert url[7..][hostLen..] == [];
    return Some(Job(url[7..][..hostLen], Ascii("/"), capacity));
  }

  /** A URL is accepted exactly when it is "http://", a host of 1 to 63 bytes without '/', and nothing
      more or a path of at most 127 bytes that starts with '/'; an absent path is "/". */
  lemma UrlAcceptedIff(url: seq<Byte>, job: Job)
    ensures ParseUrl(url, job.capacity) == Some(job) <==>
      && 0 < |job.host| < 64 && '/' as int !in job.host
      && ((url == Ascii("http://") + job.host && job.path == Ascii("/"))
          || (url == Ascii("http://") + job.host + job.path && 0 < |job.path| < 128 && job.path[0] == '/' as int))
  {
    hide Ascii;
    var p := Ascii("http://");
    if p <= url {
      var behind := url[7..];
      assert url == p + behind;
      var n := SlashIndex(behind);
      assert behind == behind[..n] + behind[n..];
      if behind == job.host + job.path && '/' as int !in job.host && job.path != [] && job.path[0] == '/' as int {
        FirstSlash(job.host, job.path);
        assert behind[..|job.host|] == job.host && behind[|job.host|..] == job.path;
      }
      if behind == job.host && '/' as int !in job.host {
        assert n == |job.host| && behind[..n] == behind;
      }
      SameBehind(p, behind, job.host, job.path);
    }
  }

  lemma {:induction false} FirstSlash(host: seq<Byte>, path: seq<Byte>)
    requires '/' as int !in host && path != [] && path[0] == '/' as int
    ensures SlashIndex(host + path) == |host|
  {
    var s := host + path;
    if host == [] {
      assert s == path;
    } else {
      assert s[0] == host[0] && host[0] in host;
      assert s[1..] == host[1..] + path;
      FirstSlash(host[1..], path);
      assert SlashIndex(s) == 1 + SlashIndex(s[1..]);
    }
  }

  lemma SameBehind(p: seq<Byte>, behind: seq<Byte>, host: seq<Byte>, path: seq<Byte>)
    requires |p| == 7
    ensures p + behind == p + host <==> behind == host
    ensures p + behind == p + host + path <==> behind == host + path
  {
    assert (p + behind)[7..] == behind && (p + host)[7..] == host && (p + host + path)[7..] == host + path;
  }

  // ---------- The request ----------

  /** For every accepted URL the request fits its buffer, so it is sent. */
  lemma RequestFits(url: seq<Byte>, capacity: nat)
    requires ParseUrl(url, capacity).Some?
    ensures var job := ParseUrl(url, capacity).value;
      Request(job) == Concat(Parts(job)) && |Request(job)| == 44 + |job.path| + |job.host|
  {
    var job := ParseUrl(url, capacity).value;
    assert |Ascii("GET ")| == 4 && |Ascii(" HTTP/1.0\r\nHost: ")| == 17;
    FiveParts(job);
  }

  lemma FiveParts(job: Job)
    ensures Concat(Parts(job)) == Ascii("GET ") + job.path + Ascii(" HTTP/1.0\r\nHost: ") + job.host
      + Ascii("\r\nConnection: close\r\n\r\n")
  {
    hide Ascii;
    var ps := Parts(job);
    ConcatGrows(ps, 1);
    ConcatGrows(ps, 2);
    ConcatGrows(ps, 3);
    ConcatGrows(ps, 4);
    ConcatGrows(ps, 5);
    assert ps[..5] == ps && Concat(ps[..0]) == [];
    assert [] + Ascii("GET ") == Ascii("GET ");
  }

  /** A line up to its CR LF, and what follows it. */
  function FirstLine(s: seq<Byte>): (seq<Byte>, seq<Byte>) {
    if |s| < 2 then (s, [])
    else if s[0] == 13 && s[1] == 10 then ([], s[2..])
    else var (l, more) := FirstLine(s[1..]); ([s[0]] + l, more)
  }

  lemma {:induction false} LineRead(l: seq<Byte>, more: seq<Byte>)
    requires 13 !in l
    ensures FirstLine(l + [13, 10] + more) == (l, more)
  {
    var s := l + [13, 10] + more;
    if l != [] {
      assert s[1..] == l[1..] + [13, 10] + more;
      LineRead(l[1..], more);
      assert [s[0]] + l[1..] == l;
    } else {
      assert s[2..] == more;
    }
  }

  /** The request by lines, for a URL without CR: a request line for the path, the host, the demand to
      close, and the empty line that ends a request of RFC 1945, section 5. */
  lemma RequestLines(url: seq<Byte>, capacity: nat)
    requires ParseUrl(url, capacity).Some? && 13 !in url
    ensures var job := ParseUrl(url, capacity).value;
      var a := FirstLine(Request(job));
      var b := FirstLine(a.1);
      var c := FirstLine(b.1);
      && a.0 == Ascii("GET ") + job.path + Ascii(" HTTP/1.0") && b.0 == Ascii("Host: ") + job.host
      && c.0 == Ascii("Connection: close") && c.1 == [13, 10]
  {
    var job := ParseUrl(url, capacity).value;
    hide Ascii, Parts, FirstLine, Concat, Request, ParseUrl;
    RequestFits(url, capacity);
    NoReturn(url, capacity);
    Texts();
    var a, b := Ascii("GET ") + job.path + Ascii(" HTTP/1.0"), Ascii("Host: ") + job.host;
    var c := Ascii("Connection: close");
    Regrouped(job);
    LineRead(a, b + [13, 10] + (c + [13, 10] + [13, 10]));
    LineRead(b, c + [13, 10] + [13, 10]);
    LineRead(c, [13, 10]);
  }

  lemma Regrouped(job: Job)
    requires Request(job) == Concat(Parts(job))
    ensures Request(job) == Ascii("GET ") + job.path + Ascii(" HTTP/1.0") + [13, 10]
      + (Ascii("Host: ") + job.host + [13, 10] + (Ascii("Connection: close") + [13, 10] + [13, 10]))
  {
    FiveParts(job);
    Texts();
    hide Ascii, Parts, Concat, Request;
    var a, d := Ascii("GET ") + job.path, Ascii("Connection: close");
    Grouping(a, Ascii(" HTTP/1.0"), [13, 10], Ascii("Host: "), job.host, d);
  }

  lemma Grouping(a: seq<Byte>, b: seq<Byte>, e: seq<Byte>, c: seq<Byte>, h: seq<Byte>, d: seq<Byte>)
    ensures a + (b + e + c) + h + (e + d + e + e) == a + b + e + (c + h + e + (d + e + e))
  {
  }

  lemma NoReturn(url: seq<Byte>, capacity: nat)
    requires ParseUrl(url, capacity).Some? && 13 !in url
    ensures var job := ParseUrl(url, capacity).value; 13 !in job.path && 13 !in job.host
  {
  }

  lemma Texts()
    ensures Ascii(" HTTP/1.0\r\nHost: ") == Ascii(" HTTP/1.0") + [13, 10] + Ascii("Host: ")
    ensures Ascii("\r\nConnection: close\r\n\r\n") == [13, 10] + Ascii("Connection: close") + [13, 10] + [13, 10]
    ensures 13 !in Ascii("GET ") && 13 !in Ascii(" HTTP/1.0") && 13 !in Ascii("Host: ")
    ensures 13 !in Ascii("Connection: close")
  {
    assert Ascii("\r\n") == [13, 10];
    assert " HTTP/1.0\r\nHost: " == " HTTP/1.0" + "\r\n" + "Host: ";
    AsciiAppend(" HTTP/1.0" + "\r\n", "Host: ");
    AsciiAppend(" HTTP/1.0", "\r\n");
    assert "\r\nConnection: close\r\n\r\n" == "\r\n" + "Connection: close" + "\r\n" + "\r\n";
    AsciiAppend("\r\n" + "Connection: close" + "\r\n", "\r\n");
    AsciiAppend("\r\n" + "Connection: close", "\r\n");
    AsciiAppend("\r\n", "Connection: close");
  }

  lemma AsciiAppend(s: string, t: string)
    ensures Ascii(s + t) == Ascii(s) + Ascii(t)
  {
  }
}
