/** What the editor makes of a file it did not save itself. */
module EditorLoad {
  import opened Machine
  import opened Editor

  /** The characters from ' ' to 0x7f. */
  function Shown(s: seq<Byte>): seq<Byte> {
    if s == [] then []
    else Shown(s[..|s| - 1]) + (if 0x20 <= s[|s| - 1] < 0x80 then [s[|s| - 1]] else [])
  }

  lemma {:induction false} ShownAppend(a: seq<Byte>, b: seq<Byte>)
    ensures Shown(a + b) == Shown(a) + Shown(b)
    decreases |b|
  {
    if b == [] {
      assert a + b == a;
    } else {
      assert (a + b)[..|a + b| - 1] == a + b[..|b| - 1];
      ShownAppend(a, b[..|b| - 1]);
    }
  }

  function Run(ls: seq<Line>): seq<Byte> {
    if ls == [] then [] else ls[0] + Run(ls[1..])
  }

  lemma OneShown(b: Byte)
    ensures Shown([b]) == if 0x20 <= b < 0x80 then [b] else []
  {
    assert [b][..0] == [];
  }

  /** A line read holds the characters of the bytes passed over. */
  lemma {:induction false} LineKeeps(data: seq<Byte>, pos: nat, col: nat)
    requires pos <= |data|
    ensures var (l, p) := ReadLine(data, pos, col); l == Shown(data[pos..p])
    decreases |data| - pos
  {
    hide Shown;
    var (l, p) := ReadLine(data, pos, col);
    if pos == |data| || data[pos] == NEWLINE || col >= MAX_LINE - 1 {
      NothingShown();
      assert data[pos..p] == [];
    } else {
      var more := if Printable(data[pos]) then col + 1 else col;
      LineKeeps(data, pos + 1, more);
      OneShown(data[pos]);
      assert data[pos..p] == [data[pos]] + data[pos + 1..p];
      ShownAppend([data[pos]], data[pos + 1..p]);
    }
  }

  lemma NothingShown()
    ensures Shown([]) == []
  {
  }

  lemma NextKeeps(data: seq<Byte>, pos: nat)
    requires pos < |data|
    ensures var (l, p) := NextLine(data, pos); l == Shown(data[pos..p])
  {
    hide Shown, ReadLine;
    LineKeeps(data, pos, 0);
    var q := ReadLine(data, pos, 0).1;
    if q < |data| && data[q] == NEWLINE {
      assert data[pos..q + 1] == data[pos..q] + [NEWLINE];
      ShownAppend(data[pos..q], [NEWLINE]);
      OneShown(NEWLINE);
    }
  }

  lemma {:induction false} LinesKeep(data: seq<Byte>, pos: nat, room: nat)
    requires pos <= |data|
    ensures Run(ReadLines(data, pos, room)) <= Shown(data[pos..])
    ensures |ReadLines(data, pos, room)| < room ==> Run(ReadLines(data, pos, room)) == Shown(data[pos..])
    decreases room
  {
    hide Shown, NextLine;
    NothingShown();
    if pos < |data| && room > 0 {
      var (l, p) := NextLine(data, pos);
      NextKeeps(data, pos);
      LinesKeep(data, p, room - 1);
      assert data[pos..] == data[pos..p] + data[p..];
      ShownAppend(data[pos..p], data[p..]);
      var more := ReadLines(data, p, room - 1);
      assert ([l] + more)[1..] == more;
    } else if pos == |data| {
      assert data[pos..] == [];
    }
  }

  /** Opening a file loses none of its characters before line 500, adds none and keeps their order;
      what it drops is line breaks, control characters and bytes from 0x80. */
  lemma LoadedKeepsCharacters(data: seq<Byte>)
    ensures Run(Loaded(data)) <= Shown(data)
    ensures |Loaded(data)| < 500 ==> Run(Loaded(data)) == Shown(data)
  {
    hide Shown, ReadLines;
    LinesKeep(data, 0, MAX_LINES);
    assert data[0..] == data;
    NoLines();
  }

  lemma NoLines()
    ensures Run([]) == [] && Run([[]]) == []
  {
    var one: seq<Line> := [[]];
    assert one[1..] == [];
  }

  // ---------- Lines ----------

  lemma {:induction false} RawLineRead(data: seq<Byte>, pos: nat, col: nat, raw: seq<Byte>)
    requires pos + |raw| < |data| && data[pos..pos + |raw|] == raw && data[pos + |raw|] == NEWLINE && NEWLINE !in raw
    requires col + |Shown(raw)| < MAX_LINE - 1
    ensures ReadLine(data, pos, col) == (Shown(raw), pos + |raw|)
    decreases |raw|
  {
    hide Shown;
    if raw == [] {
      NothingShown();
    } else {
      assert data[pos] == raw[0] && raw[0] in raw;
      assert data[pos + 1..pos + 1 + |raw[1..]|] == raw[1..];
      OneShown(raw[0]);
      assert raw == [raw[0]] + raw[1..];
      ShownAppend([raw[0]], raw[1..]);
      RawLineRead(data, pos + 1, if Printable(raw[0]) then col + 1 else col, raw[1..]);
      assert Shown(raw) == if Printable(raw[0]) then [raw[0]] + Shown(raw[1..]) else Shown(raw[1..]);
    }
  }

  /** The characters of every line. */
  function AllShown(raws: seq<seq<Byte>>): (ls: seq<Line>)
    ensures |ls| == |raws|
  {
    if raws == [] then [] else [Shown(raws[0])] + AllShown(raws[1..])
  }

  predicate ShortLine(raw: seq<Byte>) {
    NEWLINE !in raw && |Shown(raw)| < MAX_LINE - 1
  }

  lemma RawNextRead(prefix: seq<Byte>, raw: seq<Byte>, more: seq<Byte>)
    requires ShortLine(raw)
    ensures NextLine(prefix + raw + [NEWLINE] + more, |prefix|) == (Shown(raw), |prefix + raw + [NEWLINE]|)
  {
    hide ReadLine, Shown;
    var data := prefix + raw + [NEWLINE] + more;
    assert data[|prefix|..|prefix| + |raw|] == raw && data[|prefix| + |raw|] == NEWLINE;
    RawLineRead(data, |prefix|, 0, raw);
  }

  lemma {:induction false} RawLinesRead(prefix: seq<Byte>, raws: seq<seq<Byte>>, room: nat)
    requires |raws| <= room && forall i :: 0 <= i < |raws| ==> ShortLine(raws[i])
    ensures ReadLines(prefix + Before(raws), |prefix|, room) == AllShown(raws)
    decreases |raws|
  {
    hide NextLine, Shown, ShortLine;
    var data := prefix + Before(raws);
    if raws != [] {
      var p := prefix + raws[0] + [NEWLINE];
      assert data == p + Before(raws[1..]);
      RawNextRead(prefix, raws[0], Before(raws[1..]));
      RawLinesRead(p, raws[1..], room - 1);
      assert |data| > |prefix|;
    }
  }

  /** A file of 1 to 500 lines with at most 254 characters each opens line by line. */
  lemma FileOpensByLines(raws: seq<seq<Byte>>)
    requires 1 <= |raws| <= 500 && forall i :: 0 <= i < |raws| ==> ShortLine(raws[i])
    ensures Loaded(Before(raws)) == AllShown(raws)
  {
    hide ReadLines, ShortLine, Before, AllShown;
    RawLinesRead([], raws, MAX_LINES);
    assert [] + Before(raws) == Before(raws);
  }
}
