/** DNS queries and responses: the encoder of dns_resolve and the walker of dns_handle. */
module Dns {
  import opened Machine

  const DOT: Byte := 0x2e
  const HEADER_LEN := 12

  // ---------- Names ----------

  /** Index of the first dot, or the length. */
  function DotIndex(h: seq<Byte>): (i: nat)
    ensures i <= |h|
    ensures DOT !in h[..i]
    ensures i < |h| ==> h[i] == DOT
  {
    if h == [] || h[0] == DOT then 0 else 1 + DotIndex(h[1..])
  }

  /** `dot + 1` when there is a dot, else `dot`. */
  function AfterDot(h: seq<Byte>, i: nat): (rest: seq<Byte>)
    requires i <= |h|
    ensures h != [] ==> |rest| < |h|
  {
    if i < |h| then h[i + 1..] else []
  }

  /** The labels the encoder's outer loop visits; a trailing dot starts no label. */
  function Labels(h: seq<Byte>): seq<seq<Byte>>
    decreases |h|
  {
    if h == [] then []
    else
      var i := DotIndex(h);
      [h[..i]] + Labels(AfterDot(h, i))
  }

  /** One label on the wire: `len` is a u8, and so is the number of bytes copied. */
  function LabelBytes(l: seq<Byte>): (b: seq<Byte>)
    ensures |b| == 1 + |l| % 0x100
  {
    [|l| % 0x100] + l[..|l| % 0x100]
  }

  function LabelsBytes(ls: seq<seq<Byte>>): seq<Byte> {
    if ls == [] then [] else LabelBytes(ls[0]) + LabelsBytes(ls[1..])
  }

  /** Section 3.1 of RFC 1035: labels followed by the zero byte. */
  function NameBytes(ls: seq<seq<Byte>>): seq<Byte> {
    LabelsBytes(ls) + [0]
  }

  /** QNAME, then QTYPE A and QCLASS IN. */
  function Question(h: seq<Byte>): seq<Byte> {
    NameBytes(Labels(h)) + [0, 1, 0, 1]
  }

  /** Identifier 0x1234, recursion desired, one question and nothing else. */
  function QueryHeader(): (b: seq<Byte>)
    ensures |b| == HEADER_LEN
  {
    BE16(0x1234) + BE16(0x100) + BE16(1) + BE16(0) + BE16(0) + BE16(0)
  }

  predicate ValidLabel(l: seq<Byte>) {
    0 < |l| < 64
  }

  /** A length byte that the question loop steps over. */
  predicate Skippable(l: seq<Byte>) {
    0 < |l| % 0x100 < 0xc0
  }

  predicate AllSkippable(ls: seq<seq<Byte>>) {
    forall i :: 0 <= i < |ls| ==> Skippable(ls[i])
  }

  predicate ValidLabels(ls: seq<seq<Byte>>) {
    forall i :: 0 <= i < |ls| ==> ValidLabel(ls[i])
  }

  lemma NoLabels()
    ensures LabelsBytes(Labels([])) == []
  {
  }

  lemma LabelsStep(p: seq<Byte>)
    requires p != []
    ensures var i := DotIndex(p);
      LabelsBytes(Labels(p)) == LabelBytes(p[..i]) + LabelsBytes(Labels(AfterDot(p, i)))
  {
    var i := DotIndex(p);
    assert Labels(p)[1..] == Labels(AfterDot(p, i));
  }

  lemma {:induction false} QuestionSize(h: seq<Byte>)
    ensures |LabelsBytes(Labels(h))| <= |h| + 1
    decreases |h|
  {
    hide Labels, LabelsBytes, LabelBytes, DotIndex;
    if h == [] {
      NoLabels();
    } else {
      var i := DotIndex(h);
      LabelsStep(h);
      QuestionSize(AfterDot(h, i));
      if i == |h| {
        NoLabels();
      }
    }
  }

  /** The packet that dns_resolve and async_send_dns fill in. */
  method EncodeQuery(hostname: seq<Byte>, buf: array<Byte>) returns (total: nat)
    requires buf.Length == 512 && |hostname| <= 494
    modifies buf
    ensures total <= 512 && buf[..total] == QueryHeader() + Question(hostname)
  {
    hide Question, BE16;
    var pos := PutBytes(buf, 0, BE16(0x1234));
    pos := PutBytes(buf, pos, BE16(0x100));
    pos := PutBytes(buf, pos, BE16(1));
    pos := PutBytes(buf, pos, BE16(0));
    pos := PutBytes(buf, pos, BE16(0));
    pos := PutBytes(buf, pos, BE16(0));
    assert buf[..pos] == QueryHeader();
    total := EncodeQuestion(hostname, buf);
  }

  /** The encoding loop: the question behind the header, `total` bytes in all. */
  method EncodeQuestion(hostname: seq<Byte>, buf: array<Byte>) returns (total: nat)
    requires buf.Length == 512 && |hostname| <= 494
    modifies buf
    ensures total == HEADER_LEN + |Question(hostname)| <= 512
    ensures buf[..total] == old(buf[..HEADER_LEN]) + Question(hostname)
  {
    hide Labels, LabelsBytes, LabelBytes, DotIndex;
    ghost var whole := buf[..HEADER_LEN] + LabelsBytes(Labels(hostname));
    QuestionSize(hostname);
    var pos := HEADER_LEN;
    var p := hostname;
    while p != []
      invariant HEADER_LEN <= pos <= 512
      invariant buf[..pos] + LabelsBytes(Labels(p)) == whole
      decreases |p|
    {
      var i := FindDot(p);
      LabelsStep(p);
      ghost var was := buf[..pos];
      assert whole == was + LabelBytes(p[..i]) + LabelsBytes(Labels(AfterDot(p, i)));
      pos := PutBytes(buf, pos, LabelBytes(p[..i]));
      p := AfterDot(p, i);
    }
    NoLabels();
    assert buf[..pos] == whole;
    total := PutBytes(buf, pos, [0, 0, 1, 0, 1]);
    assert [0] + [0, 1, 0, 1] == [0, 0, 1, 0, 1];
  }

  /** The inner loop over one label. */
  method FindDot(p: seq<Byte>) returns (i: nat)
    ensures i == DotIndex(p)
  {
    i := 0;
    assert p[0..] == p;
    while i < |p| && p[i] != DOT
      invariant 0 <= i <= |p|
      invariant i + DotIndex(p[i..]) == DotIndex(p)
    {
      assert p[i..][1..] == p[i + 1..];
      i := i + 1;
    }
  }

  method PutBytes(buf: array<Byte>, at: nat, b: seq<Byte>) returns (end: nat)
    requires at + |b| <= buf.Length
    modifies buf
    ensures end == at + |b|
    ensures buf[..end] == old(buf[..at]) + b
  {
    var i := 0;
    while i < |b|
      invariant 0 <= i <= |b|
      invariant buf[..at + i] == old(buf[..at]) + b[..i]
    {
      buf[at + i] := b[i];
      i := i + 1;
    }
    end := at + i;
  }

  // ---------- Walking ----------

  /** Byte i of the packet's memory; the walker may read past the packet's end. */
  function Peek(data: seq<Byte>, beyond: nat -> Byte, i: nat): Byte {
    if i < |data| then data[i] else beyond(i)
  }

  predicate IsPointer(b: Byte) {
    b >= 0xc0
  }

  /** The question loop: stops at a zero byte, after a pointer, or at the end. */
  function SkipQuestionName(data: seq<Byte>, pos: nat): (p: nat)
    ensures p >= pos
    decreases |data| - pos
  {
    if pos >= |data| || data[pos] == 0 then pos
    else if IsPointer(data[pos]) then pos + 2
    else SkipQuestionName(data, pos + 1 + data[pos])
  }

  function SkipQuestion(data: seq<Byte>): (p: nat)
    ensures p >= HEADER_LEN
  {
    var p := SkipQuestionName(data, HEADER_LEN);
    (if p < |data| && data[p] == 0 then p + 1 else p) + 4
  }

  /** The label loop of an answer's name: the position of its zero byte. */
  function SkipLabels(data: seq<Byte>, pos: nat): (p: nat)
    ensures p >= pos
    decreases |data| - pos
  {
    if pos >= |data| || data[pos] == 0 then pos else SkipLabels(data, pos + 1 + data[pos])
  }

  function SkipAnswerName(data: seq<Byte>, pos: nat): (p: nat)
    requires pos < |data|
    ensures p > pos
  {
    if IsPointer(data[pos]) then pos + 2 else SkipLabels(data, pos) + 1
  }

  function Word(data: seq<Byte>, beyond: nat -> Byte, i: nat): U16 {
    var hi: int, lo: int := Peek(data, beyond, i), Peek(data, beyond, i + 1);
    0x100 * hi + lo
  }

  /** The four bytes memcpy puts into g_dns_result. */
  function AddressAt(data: seq<Byte>, beyond: nat -> Byte, i: nat): U32 {
    FromLE32([Peek(data, beyond, i), Peek(data, beyond, i + 1), Peek(data, beyond, i + 2), Peek(data, beyond, i + 3)])
  }

  /** The address the answer loop stores, if any, with `left` answers to go. */
  function ScanAnswers(data: seq<Byte>, beyond: nat -> Byte, pos: nat, left: nat): Option<U32>
    decreases left
  {
    if left == 0 || pos + 12 > |data| then None
    else
      var p := SkipAnswerName(data, pos);
      var rdlen := Word(data, beyond, p + 8);
      if Word(data, beyond, p) == 1 && rdlen == 4 && p + 12 <= |data| then
        Some(AddressAt(data, beyond, p + 10))
      else ScanAnswers(data, beyond, p + 10 + rdlen, left - 1)
  }

  function AnswerCount(data: seq<Byte>): U16
    requires |data| >= HEADER_LEN
  {
    var hi: int, lo: int := data[6], data[7];
    0x100 * hi + lo
  }

  /** What dns_handle stores for a packet: None for packets it ignores. */
  datatype Outcome = Outcome(address: Option<U32>)

  function Handle(data: seq<Byte>, beyond: nat -> Byte): Option<Outcome> {
    if |data| < HEADER_LEN then None
    else if AnswerCount(data) == 0 then Some(Outcome(None))
    else Some(Outcome(ScanAnswers(data, beyond, SkipQuestion(data), AnswerCount(data))))
  }

  /** Every packet of at least a header ends the wait, and one without answers names no address. */
  lemma HandledIff(data: seq<Byte>, beyond: nat -> Byte)
    ensures Handle(data, beyond).Some? <==> |data| >= 12
    ensures |data| >= 12 && data[6] == data[7] == 0 ==> Handle(data, beyond).value.address.None?
  {
  }

  /** g_dns_result and g_dns_done. */
  class Resolver {
    var result: U32
    var done: bool

    constructor ()
      ensures result == 0 && !done
    {
      result, done := 0, false;
    }

    /** dns_handle. */
    method DnsHandle(data: seq<Byte>, beyond: nat -> Byte)
      modifies this
      ensures var o := Handle(data, beyond);
        && done == (old(done) || o.Some?)
        && result == if o.Some? && o.value.address.Some? then o.value.address.value else old(result)
    {
      hide FromLE32, AddressAt, Word, SkipAnswerName;
      if |data| < HEADER_LEN {
        return;
      }
      var answers := AnswerCount(data);
      if answers == 0 {
        done := true;
        return;
      }
      var pos := HEADER_LEN;
      while pos < |data| && data[pos] != 0
        invariant pos >= HEADER_LEN && SkipQuestionName(data, pos) == SkipQuestionName(data, HEADER_LEN)
        decreases |data| - pos
      {
        if IsPointer(data[pos]) {
          pos := pos + 2;
          break;
        }
        pos := pos + 1 + data[pos];
      }
      if pos < |data| && data[pos] == 0 {
        pos := pos + 1;
      }
      pos := pos + 4;
      assert pos == SkipQuestion(data);
      var a := 0;
      while a < answers && pos + 12 <= |data|
        invariant 0 <= a <= answers && pos >= 0 && result == old(result)
        invariant ScanAnswers(data, beyond, pos, answers - a) == ScanAnswers(data, beyond, SkipQuestion(data), answers)
        decreases answers - a
      {
        var p := SkipName(data, pos);
        var rdlen := Word(data, beyond, p + 8);
        if Word(data, beyond, p) == 1 && rdlen == 4 && p + 12 <= |data| {
          result := AddressAt(data, beyond, p + 10);
          done := true;
          return;
        }
        pos := p + 10 + rdlen;
        a := a + 1;
      }
      done := true;
    }
  }

  /** The name-skipping part of the answer loop. */
  method SkipName(data: seq<Byte>, start: nat) returns (pos: nat)
    requires start < |data|
    ensures pos == SkipAnswerName(data, start)
  {
    pos := start;
    if IsPointer(data[pos]) {
      return pos + 2;
    }
    while pos < |data| && data[pos] != 0
      invariant SkipLabels(data, pos) == SkipLabels(data, start)
      decreases |data| - pos
    {
      pos := pos + 1 + data[pos];
    }
    pos := pos + 1;
  }

  // ---------- Encoder and walker agree ----------

  lemma LabelStep(prefix: seq<Byte>, l: seq<Byte>, more: seq<Byte>)
    ensures var data, n := prefix + LabelBytes(l) + more, |l| % 0x100;
      && data[|prefix|] == n
      && |prefix + LabelBytes(l)| == |prefix| + 1 + n
  {
  }

  lemma NameStep(ls: seq<seq<Byte>>)
    requires ls != []
    ensures NameBytes(ls) == LabelBytes(ls[0]) + NameBytes(ls[1..])
    ensures |LabelsBytes(ls)| == |LabelBytes(ls[0])| + |LabelsBytes(ls[1..])|
  {
  }

  /** Labels of 1 to 191 bytes are stepped over one by one. */
  lemma {:induction false} SkipOwnName(prefix: seq<Byte>, ls: seq<seq<Byte>>, more: seq<Byte>)
    requires AllSkippable(ls)
    ensures SkipQuestionName(prefix + NameBytes(ls) + more, |prefix|) == |prefix| + |LabelsBytes(ls)|
    ensures SkipLabels(prefix + NameBytes(ls) + more, |prefix|) == |prefix| + |LabelsBytes(ls)|
    decreases |ls|
  {
    var data := prefix + NameBytes(ls) + more;
    if ls == [] {
      assert data[|prefix|] == 0;
    } else {
      hide LabelBytes, NameBytes, LabelsBytes;
      var p := prefix + LabelBytes(ls[0]);
      NameStep(ls);
      assert data == p + (NameBytes(ls[1..]) + more) && data == p + NameBytes(ls[1..]) + more;
      LabelStep(prefix, ls[0], NameBytes(ls[1..]) + more);
      SkipOwnName(p, ls[1..], more);
    }
  }

  /** A name with any other label is left too early: at a zero length byte, or two bytes behind a
      length byte that looks like a pointer. */
  lemma {:induction false} LeavesOwnName(prefix: seq<Byte>, ls: seq<seq<Byte>>, more: seq<Byte>)
    requires !AllSkippable(ls)
    ensures var data, end := prefix + NameBytes(ls) + more, |prefix| + |LabelsBytes(ls)|;
      var p := SkipQuestionName(data, |prefix|);
      p < |data| && (if data[p] == 0 then p < end else p < end - 1)
    decreases |ls|
  {
    hide LabelBytes, NameBytes, LabelsBytes;
    var data := prefix + NameBytes(ls) + more;
    var p := prefix + LabelBytes(ls[0]);
    NameStep(ls);
    assert data == p + (NameBytes(ls[1..]) + more) && data == p + NameBytes(ls[1..]) + more;
    LabelStep(prefix, ls[0], NameBytes(ls[1..]) + more);
    if Skippable(ls[0]) {
      assert !AllSkippable(ls[1..]) by {
        var i :| 0 <= i < |ls| && !Skippable(ls[i]);
        assert ls[i] == ls[1..][i - 1];
      }
      LeavesOwnName(p, ls[1..], more);
    }
  }

  /** The question-skip loop lands at the end of the question the encoder wrote exactly when every
      label's length, as the byte it was cut to, is from 1 to 191. */
  lemma SkipsOwnQuestionIff(header: seq<Byte>, hostname: seq<Byte>, more: seq<Byte>)
    requires |header| == HEADER_LEN
    ensures SkipQuestion(header + Question(hostname) + more) == HEADER_LEN + |Question(hostname)|
      <==> AllSkippable(Labels(hostname))
  {
    hide SkipQuestionName, LabelsBytes, Labels, Skippable;
    var ls := Labels(hostname);
    var data := header + Question(hostname) + more;
    assert data == header + NameBytes(ls) + ([0, 1, 0, 1] + more);
    var p := HEADER_LEN + |LabelsBytes(ls)|;
    assert data[p] == 0;
    if AllSkippable(ls) {
      SkipOwnName(header, ls, [0, 1, 0, 1] + more);
    } else {
      LeavesOwnName(header, ls, [0, 1, 0, 1] + more);
    }
  }

  lemma ValidSkippable(ls: seq<seq<Byte>>)
    requires ValidLabels(ls)
    ensures AllSkippable(ls)
  {
    assert forall l :: ValidLabel(l) ==> Skippable(l);
  }

  /** A question whose name is a compression pointer is skipped correctly exactly when the high
      byte of its type is not zero, so never for the types in use. */
  lemma PointerQuestionIff(header: seq<Byte>, hi: Byte, lo: Byte, fields: seq<Byte>, more: seq<Byte>)
    requires |header| == HEADER_LEN && IsPointer(hi) && |fields| == 4
    ensures SkipQuestion(header + [hi, lo] + fields + more) == HEADER_LEN + 2 + 4 <==> fields[0] != 0
  {
    var data := header + [hi, lo] + fields + more;
    assert data[HEADER_LEN] == hi && data[HEADER_LEN + 2] == fields[0];
  }

  /** A question of type A that names itself by a pointer ends one byte past its place. */
  lemma PointerQuestionMisread(header: seq<Byte>, more: seq<Byte>)
    requires |header| == HEADER_LEN
    ensures SkipQuestion(header + [0xc0, 0x0c] + [0, 1, 0, 1] + more) == HEADER_LEN + 2 + 5
  {
    var data := header + [0xc0, 0x0c] + [0, 1, 0, 1] + more;
    assert data[HEADER_LEN] == 0xc0 && data[HEADER_LEN + 2] == 0;
  }

  // ---------- Responses ----------

  /** A name spelled out, or a compression pointer (section 4.1.4 of RFC 1035). */
  datatype NameForm = Spelled(labels: seq<seq<Byte>>) | Pointer(hi: Byte, lo: Byte)

  /** A resource record (section 4.1.3); `ttl` keeps its four bytes as they are. */
  datatype Record = Record(name: NameForm, rtype: U16, rclass: U16, ttl: seq<Byte>, rdata: seq<Byte>)

  predicate ValidName(n: NameForm) {
    match n
    case Spelled(ls) => ValidLabels(ls)
    case Pointer(hi, _) => IsPointer(hi)
  }

  predicate ValidRecord(r: Record) {
    ValidName(r.name) && |r.ttl| == 4 && |r.rdata| < 0x1_0000
  }

  function WriteName(n: NameForm): (b: seq<Byte>)
    ensures |b| > 0
  {
    match n
    case Spelled(ls) => NameBytes(ls)
    case Pointer(hi, lo) => [hi, lo]
  }

  function Fields(r: Record): (b: seq<Byte>)
    requires ValidRecord(r)
    ensures |b| == 10
  {
    BE16(r.rtype) + BE16(r.rclass) + r.ttl + BE16(|r.rdata|)
  }

  function WriteRecord(r: Record): (b: seq<Byte>)
    requires ValidRecord(r)
    ensures |b| == |WriteName(r.name)| + 10 + |r.rdata|
  {
    WriteName(r.name) + Fields(r) + r.rdata
  }

  predicate ValidRecords(rs: seq<Record>) {
    forall i :: 0 <= i < |rs| ==> ValidRecord(rs[i])
  }

  function WriteRecords(rs: seq<Record>): seq<Byte>
    requires ValidRecords(rs)
  {
    if rs == [] then [] else WriteRecord(rs[0]) + WriteRecords(rs[1..])
  }

  predicate IsAddress(r: Record) {
    r.rtype == 1 && |r.rdata| == 4
  }

  /** The address of the first A record with four bytes of data. */
  function FirstAddress(rs: seq<Record>): Option<U32> {
    if rs == [] then None
    else if IsAddress(rs[0]) then Some(FromLE32(rs[0].rdata))
    else FirstAddress(rs[1..])
  }

  /** Where the walker stands after a record's name. */
  lemma NameSkipped(prefix: seq<Byte>, n: NameForm, more: seq<Byte>)
    requires ValidName(n)
    ensures SkipAnswerName(prefix + WriteName(n) + more, |prefix|) == |prefix| + |WriteName(n)|
  {
    var data := prefix + WriteName(n) + more;
    match n
    case Spelled(ls) =>
      ValidSkippable(ls);
      SkipOwnName(prefix, ls, more);
      if ls == [] {
        assert data[|prefix|] == 0;
      } else {
        assert data[|prefix|] == |ls[0]|;
      }
    case Pointer(hi, lo) =>
      assert data[|prefix|] == hi;
  }

  lemma {:induction false} SkipsPastPointer(prefix: seq<Byte>, ls: seq<seq<Byte>>, hi: Byte, lo: Byte, more: seq<Byte>)
    requires ValidLabels(ls) && IsPointer(hi)
    ensures SkipLabels(prefix + LabelsBytes(ls) + [hi, lo] + more, |prefix|) > |prefix| + |LabelsBytes(ls)| + 2
    decreases |ls|
  {
    var data := prefix + LabelsBytes(ls) + [hi, lo] + more;
    if ls == [] {
      assert data[|prefix|] == hi;
    } else {
      hide LabelBytes;
      var p := prefix + LabelBytes(ls[0]);
      var tail := LabelsBytes(ls[1..]) + [hi, lo] + more;
      assert data == p + tail && data == p + LabelsBytes(ls[1..]) + [hi, lo] + more;
      LabelStep(prefix, ls[0], tail);
      SkipsPastPointer(p, ls[1..], hi, lo, more);
    }
  }

  /** An answer name of labels that ends in a pointer is never skipped correctly: the label loop
      takes the pointer for a label of at least 192 bytes. */
  lemma MixedNameMisread(prefix: seq<Byte>, ls: seq<seq<Byte>>, hi: Byte, lo: Byte, more: seq<Byte>)
    requires ValidLabels(ls) && ls != [] && IsPointer(hi)
    ensures SkipAnswerName(prefix + LabelsBytes(ls) + [hi, lo] + more, |prefix|) > |prefix| + |LabelsBytes(ls)| + 2
  {
    hide SkipLabels;
    SkipsPastPointer(prefix, ls, hi, lo, more);
    var tail := LabelsBytes(ls[1..]) + [hi, lo] + more;
    assert prefix + LabelsBytes(ls) + [hi, lo] + more == prefix + LabelBytes(ls[0]) + tail;
    LabelStep(prefix, ls[0], tail);
  }

  lemma FieldsRead(before: seq<Byte>, r: Record, more: seq<Byte>, beyond: nat -> Byte)
    requires ValidRecord(r)
    ensures var data := before + Fields(r) + more;
      && Word(data, beyond, |before|) == r.rtype
      && Word(data, beyond, |before| + 8) == |r.rdata|
  {
    var data := before + Fields(r) + more;
    var p := |before|;
    assert data[p..p + 10] == Fields(r);
    assert data[p] == r.rtype / 0x100 && data[p + 1] == r.rtype % 0x100;
    assert data[p + 8] == |r.rdata| / 0x100 && data[p + 9] == |r.rdata| % 0x100;
  }

  lemma AddressRead(before: seq<Byte>, rdata: seq<Byte>, more: seq<Byte>, beyond: nat -> Byte)
    requires |rdata| == 4
    ensures AddressAt(before + rdata + more, beyond, |before|) == FromLE32(rdata)
  {
    hide FromLE32;
    var data := before + rdata + more;
    var p := |before|;
    assert [data[p], data[p + 1], data[p + 2], data[p + 3]] == rdata;
  }

  /** One record: taken when it is an address, else stepped over exactly. */
  lemma RecordScanned(prefix: seq<Byte>, r: Record, more: seq<Byte>, beyond: nat -> Byte, left: nat)
    requires ValidRecord(r) && left > 0 && |WriteRecord(r) + more| >= 12
    ensures ScanAnswers(prefix + WriteRecord(r) + more, beyond, |prefix|, left) ==
      if IsAddress(r) then Some(FromLE32(r.rdata))
      else ScanAnswers(prefix + WriteRecord(r) + more, beyond, |prefix + WriteRecord(r)|, left - 1)
  {
    hide FromLE32, SkipAnswerName, WriteName, Fields, Word, AddressAt;
    var data := prefix + WriteRecord(r) + more;
    var before := prefix + WriteName(r.name);
    assert data == prefix + WriteName(r.name) + (Fields(r) + r.rdata + more);
    NameSkipped(prefix, r.name, Fields(r) + r.rdata + more);
    assert data == before + Fields(r) + (r.rdata + more);
    FieldsRead(before, r, r.rdata + more, beyond);
    if IsAddress(r) {
      assert data == before + Fields(r) + r.rdata + more;
      AddressRead(before + Fields(r), r.rdata, more, beyond);
    }
  }

  lemma {:induction false} WriteRecordsFirst(rs: seq<Record>)
    requires ValidRecords(rs) && rs != []
    ensures WriteRecords(rs) == WriteRecord(rs[0]) + WriteRecords(rs[1..])
    ensures |WriteRecord(rs[0])| >= 11
    ensures |WriteRecords(rs)| < 12 ==> rs[1..] == [] && rs[0].rdata == []
  {
    if rs[1..] != [] {
      assert WriteRecords(rs[1..]) == WriteRecord(rs[1]) + WriteRecords(rs[1..][1..]);
    }
  }

  lemma ScanStops(data: seq<Byte>, beyond: nat -> Byte, pos: nat, left: nat)
    requires left == 0 || pos + 12 > |data|
    ensures ScanAnswers(data, beyond, pos, left) == None
  {
  }

  lemma FirstAddressStep(rs: seq<Record>)
    requires rs != []
    ensures FirstAddress(rs) == if IsAddress(rs[0]) then Some(FromLE32(rs[0].rdata)) else FirstAddress(rs[1..])
    ensures rs[1..] == [] && rs[0].rdata == [] ==> FirstAddress(rs) == None
  {
  }

  /** The answer loop finds the first address, whatever follows the answers. */
  lemma {:induction false} AnswersScanned(prefix: seq<Byte>, rs: seq<Record>, rest: seq<Byte>, beyond: nat -> Byte)
    requires ValidRecords(rs)
    ensures ScanAnswers(prefix + WriteRecords(rs) + rest, beyond, |prefix|, |rs|) == FirstAddress(rs)
    decreases |rs|
  {
    hide ScanAnswers, WriteRecords, WriteRecord, FirstAddress, ValidRecord, FromLE32;
    var data := prefix + WriteRecords(rs) + rest;
    if rs == [] {
      ScanStops(data, beyond, |prefix|, 0);
      NoAddress();
    } else {
      var r := rs[0];
      WriteRecordsFirst(rs);
      FirstAddressStep(rs);
      var more := WriteRecords(rs[1..]) + rest;
      assert data == prefix + WriteRecord(r) + more;
      if |WriteRecord(r) + more| >= 12 {
        RecordScanned(prefix, r, more, beyond, |rs|);
        assert data == prefix + WriteRecord(r) + WriteRecords(rs[1..]) + rest;
        AnswersScanned(prefix + WriteRecord(r), rs[1..], rest, beyond);
      } else {
        ScanStops(data, beyond, |prefix|, |rs|);
      }
    }
  }

  lemma NoAddress()
    ensures FirstAddress([]) == None
  {
  }

  lemma CountRead(header: seq<Byte>, n: U16, more: seq<Byte>)
    requires |header| == HEADER_LEN && header[6..8] == BE16(n)
    ensures AnswerCount(header + more) == n
  {
    var data := header + more;
    assert data[6] == header[6..8][0] && data[7] == header[6..8][1];
  }

  /** For every response to a question of ours whose answer names are spelled out or pointers,
      dns_handle stores the address of the first A record with four bytes of data, or none. */
  lemma ResponseRead(header: seq<Byte>, hostname: seq<Byte>, rs: seq<Record>, rest: seq<Byte>, beyond: nat -> Byte)
    requires |header| == HEADER_LEN && AllSkippable(Labels(hostname)) && ValidRecords(rs)
    requires |rs| < 0x1_0000 && header[6..8] == BE16(|rs|)
    ensures Handle(header + Question(hostname) + WriteRecords(rs) + rest, beyond) == Some(Outcome(FirstAddress(rs)))
  {
    hide SkipQuestion, Question, ScanAnswers, WriteRecords, FirstAddress, ValidRecord, Labels, Skippable, ValidLabel;
    var data := header + Question(hostname) + WriteRecords(rs) + rest;
    CountRead(header, |rs|, Question(hostname) + WriteRecords(rs) + rest);
    assert data == header + (Question(hostname) + WriteRecords(rs) + rest);
    assert data == header + Question(hostname) + (WriteRecords(rs) + rest);
    SkipsOwnQuestionIff(header, hostname, WriteRecords(rs) + rest);
    AnswersScanned(header + Question(hostname), rs, rest, beyond);
    if rs == [] {
      NoAddress();
    }
  }
}
