/** What the question of a DNS query says, read back by the rules of RFC 1035. */
module DnsQuestion {
  import opened Machine
  import opened Dns

  // ---------- Labels and hostnames ----------

  /** Labels with dots between them. */
  function Dotted(ls: seq<seq<Byte>>): seq<Byte> {
    if ls == [] then [] else if |ls| == 1 then ls[0] else ls[0] + [46] + Dotted(ls[1..])
  }

  /** No label has a dot in it. */
  lemma {:induction false} NoDotInLabel(h: seq<Byte>)
    ensures forall l :: l in Labels(h) ==> 46 !in l
    decreases |h|
  {
    hide AfterDot;
    if h != [] {
      NoDotInLabel(AfterDot(h, DotIndex(h)));
    }
  }

  /** The labels are the hostname cut at its dots; one dot at its end cuts off nothing. */
  lemma {:induction false} LabelsOfHostname(h: seq<Byte>)
    ensures h == [] <==> Labels(h) == []
    ensures h == (if h != [] && h[|h| - 1] == 46 then Dotted(Labels(h)) + [46] else Dotted(Labels(h)))
    decreases |h|
  {
    hide Labels, Dotted, AfterDot;
    if h == [] {
      NothingAsked();
    } else {
      var i := DotIndex(h);
      var rest := AfterDot(h, i);
      LabelsOfHostname(rest);
      FirstLabel(h);
      DottedStep(h[..i], Labels(rest));
      CutAtDot(h, i);
    }
  }

  lemma CutAtDot(h: seq<Byte>, i: nat)
    requires h != [] && i == DotIndex(h)
    ensures i == |h| ==> h[..i] == h && h[|h| - 1] != 46 && AfterDot(h, i) == []
    ensures i < |h| ==> h == h[..i] + [46] + AfterDot(h, i)
    ensures i < |h| ==> h[|h| - 1] == if AfterDot(h, i) == [] then 46 else AfterDot(h, i)[|AfterDot(h, i)| - 1]
  {
    if i == |h| {
      assert h[|h| - 1] in h[..i];
    }
  }

  lemma NothingAsked()
    ensures Labels([]) == [] && Dotted([]) == []
  {
  }

  lemma FirstLabel(h: seq<Byte>)
    requires h != []
    ensures Labels(h) == [h[..DotIndex(h)]] + Labels(AfterDot(h, DotIndex(h)))
  {
  }

  lemma DottedStep(l: seq<Byte>, ls: seq<seq<Byte>>)
    ensures Dotted([l] + ls) == if ls == [] then l else l + [46] + Dotted(ls)
  {
    assert ([l] + ls)[1..] == ls;
  }

  // ---------- A reader of sections 3.1 and 4.1.2 ----------

  datatype Asked = Asked(labels: seq<seq<Byte>>, qtype: int, qclass: int, end: nat)

  /** A name: labels of 1 to 63 bytes behind their lengths, up to the length 0; and where it ends. */
  function ReadName(b: seq<Byte>, pos: nat): Option<(seq<seq<Byte>>, nat)>
    decreases |b| - pos
  {
    if pos >= |b| then None
    else if b[pos] == 0 then Some(([], pos + 1))
    else if b[pos] > 63 || pos + 1 + b[pos] > |b| then None
    else
      match ReadName(b, pos + 1 + b[pos])
      case None => None
      case Some((ls, end)) => Some(([b[pos + 1..pos + 1 + b[pos]]] + ls, end))
  }

  function ReadWord(b: seq<Byte>, p: nat): int
    requires p + 2 <= |b|
  {
    var hi: int, lo: int := b[p], b[p + 1];
    0x100 * hi + lo
  }

  /** QNAME, QTYPE and QCLASS. */
  function ReadQuestion(b: seq<Byte>, pos: nat): Option<Asked> {
    match ReadName(b, pos)
    case None => None
    case Some((ls, p)) =>
      if p + 4 > |b| then None else Some(Asked(ls, ReadWord(b, p), ReadWord(b, p + 2), p + 4))
  }

  /** Labels a name may have. */
  predicate Proper(ls: seq<seq<Byte>>) {
    forall i :: 0 <= i < |ls| ==> 1 <= |ls[i]| <= 63
  }

  lemma {:induction false} OnlyProper(b: seq<Byte>, pos: nat)
    ensures var r := ReadName(b, pos); r.Some? ==> Proper(r.value.0) && pos < r.value.1 <= |b|
    decreases |b| - pos
  {
    if pos < |b| && 0 < b[pos] <= 63 {
      OnlyProper(b, pos + 1 + b[pos]);
    }
  }

  lemma {:induction false} NameRead(before: seq<Byte>, ls: seq<seq<Byte>>, more: seq<Byte>)
    requires Proper(ls)
    ensures ReadName(before + NameBytes(ls) + more, |before|) == Some((ls, |before| + |NameBytes(ls)|))
    decreases |ls|
  {
    hide LabelsBytes;
    var b := before + NameBytes(ls) + more;
    if ls == [] {
      NoLabels();
      assert NameBytes([]) == [0] by { EmptyName(); }
      assert b[|before|] == 0;
    } else {
      var l := ls[0];
      NameStep(ls);
      hide NameBytes;
      assert LabelBytes(l) == [|l|] + l;
      assert b == before + LabelBytes(l) + NameBytes(ls[1..]) + more;
      NameRead(before + LabelBytes(l), ls[1..], more);
      assert b[|before|] == |l| && b[|before| + 1..|before| + 1 + |l|] == l;
      assert [l] + ls[1..] == ls;
    }
  }

  lemma EmptyName()
    ensures NameBytes([]) == [0]
  {
  }

  /** Behind any header, the reader finds exactly the hostname's labels, type A and class IN in the
      encoded question if and only if every label has 1 to 63 bytes. */
  lemma QuestionReadIff(header: seq<Byte>, hostname: seq<Byte>, more: seq<Byte>)
    ensures var b := header + Question(hostname) + more;
      ReadQuestion(b, |header|) == Some(Asked(Labels(hostname), 1, 1, |header| + |Question(hostname)|)) <==>
      Proper(Labels(hostname))
  {
    hide ReadName, Labels, NameBytes;
    var b, ls := header + Question(hostname) + more, Labels(hostname);
    OnlyProper(b, |header|);
    if Proper(ls) {
      var fields := [0, 1, 0, 1];
      assert b == header + NameBytes(ls) + (fields + more);
      NameRead(header, ls, fields + more);
      var p := |header| + |NameBytes(ls)|;
      assert b[p] == 0 && b[p + 1] == 1 && b[p + 2] == 0 && b[p + 3] == 1;
    }
  }

  /** The header of section 4.1.1 that queries carry: identifier 0x1234, a query (QR and OPCODE 0) that
      desires recursion, one question and no records. */
  lemma HeaderRead(more: seq<Byte>)
    ensures var b := QueryHeader() + more;
      && ReadWord(b, 0) == 0x1234 && b[2] == 1 && b[3] == 0
      && ReadWord(b, 4) == 1 && ReadWord(b, 6) == 0 && ReadWord(b, 8) == 0 && ReadWord(b, 10) == 0
  {
  }

  /** So what a query asks for, with dots between the labels, is the hostname, up to a dot at its end. */
  lemma AsksForHostname(header: seq<Byte>, hostname: seq<Byte>, more: seq<Byte>)
    requires Proper(Labels(hostname)) && hostname != []
    ensures var r := ReadQuestion(header + Question(hostname) + more, |header|);
      r.Some? && (Dotted(r.value.labels) == hostname || Dotted(r.value.labels) + [46] == hostname)
  {
    hide ReadQuestion, Labels, Question;
    QuestionReadIff(header, hostname, more);
    LabelsOfHostname(hostname);
  }

  /** The question for www.example.com. */
  lemma ExampleQuestion()
    ensures Labels(Ascii("www.example.com")) == [Ascii("www"), Ascii("example"), Ascii("com")]
    ensures Question(Ascii("www.example.com")) ==
      [3] + Ascii("www") + [7] + Ascii("example") + [3] + Ascii("com") + [0] + [0, 1, 0, 1]
  {
    hide Ascii;
    var w, e, c := Ascii("www"), Ascii("example"), Ascii("com");
    NoDots();
    assert Ascii("www.example.com") == w + [46] + (e + [46] + c);
    OneLabel(w, e + [46] + c);
    OneLabel(e, c);
    LastLabel(c);
    assert [w] + ([e] + [c]) == [w, e, c];
    ThreeLabels(w, e, c);
  }

  lemma NoDots()
    ensures 46 !in Ascii("www") && 46 !in Ascii("example") && 46 !in Ascii("com")
    ensures Ascii("www.example.com") == Ascii("www") + [46] + (Ascii("example") + [46] + Ascii("com"))
  {
  }

  lemma {:induction false} DotBehind(l: seq<Byte>, rest: seq<Byte>)
    requires 46 !in l
    ensures DotIndex(l + [46] + rest) == |l|
  {
    if l == [] {
      assert ([46] + rest)[0] == 46;
    } else {
      assert (l + [46] + rest)[1..] == l[1..] + [46] + rest;
      DotBehind(l[1..], rest);
    }
  }

  lemma OneLabel(l: seq<Byte>, rest: seq<Byte>)
    requires 46 !in l
    ensures Labels(l + [46] + rest) == [l] + Labels(rest)
  {
    var h := l + [46] + rest;
    DotBehind(l, rest);
    assert h[..|l|] == l && h[|l| + 1..] == rest;
  }

  lemma LastLabel(l: seq<Byte>)
    requires 46 !in l && l != []
    ensures Labels(l) == [l]
  {
    assert l[..|l|] == l;
    assert DotIndex(l) == |l|;
    assert Labels([]) == [];
  }

  lemma ThreeLabels(a: seq<Byte>, b: seq<Byte>, c: seq<Byte>)
    requires |a| < 0x100 && |b| < 0x100 && |c| < 0x100
    ensures NameBytes([a, b, c]) == [|a|] + a + [|b|] + b + [|c|] + c + [0]
  {
    var ls := [a, b, c];
    assert ls[1..] == [b, c] && ls[1..][1..] == [c] && [c][1..] == [];
    NameStep(ls);
    NameStep([b, c]);
    assert [b, c][1..] == [c];
    NameStep([c]);
    EmptyName();
  }
}
