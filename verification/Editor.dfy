/** The text editor: its edit operations as splices of the text, and its file format. */
module Editor {
  import opened Machine

  const MAX_LINES := 500
  const MAX_LINE := 256
  const SAVE_BUFFER := 16384
  const NEWLINE: Byte := 10

  type Line = seq<Byte>

  /** The lines in use and the cursor: column `cx` of line `cy`. */
  datatype Text = Text(lines: seq<Line>, cx: nat, cy: nat)

  /** `ch >= ' '` for a signed char. */
  predicate Printable(ch: Byte) {
    0x20 <= ch < 0x80
  }

  predicate PrintableLine(l: Line) {
    |l| < MAX_LINE && forall i :: 0 <= i < |l| ==> Printable(l[i])
  }

  /** What every operation keeps of the lines. */
  predicate Editable(ls: seq<Line>) {
    0 < |ls| <= MAX_LINES && forall i :: 0 <= i < |ls| ==> PrintableLine(ls[i])
  }

  /** The cursor is on a line, not behind its end. */
  predicate OnLine(t: Text) {
    t.cy < |t.lines| && t.cx <= |t.lines[t.cy]|
  }

  predicate Valid(t: Text) {
    Editable(t.lines) && OnLine(t)
  }

  // ---------- Operations ----------

  function Current(t: Text): Line
    requires OnLine(t)
  {
    t.lines[t.cy]
  }

  /** editor_insert_char */
  function Insert(t: Text, ch: Byte): Text
    requires OnLine(t)
  {
    var l := Current(t);
    if |l| >= MAX_LINE - 1 then t
    else Text(t.lines[t.cy := l[..t.cx] + [ch] + l[t.cx..]], t.cx + 1, t.cy)
  }

  /** editor_newline */
  function Newline(t: Text): Text
    requires OnLine(t)
  {
    var l := Current(t);
    if |t.lines| >= MAX_LINES then t
    else Text(t.lines[..t.cy] + [l[..t.cx], l[t.cx..]] + t.lines[t.cy + 1..], 0, t.cy + 1)
  }

  /** Lines k and k + 1 as one. */
  function JoinLines(ls: seq<Line>, k: nat): seq<Line>
    requires k + 1 < |ls|
  {
    ls[..k] + [ls[k] + ls[k + 1]] + ls[k + 2..]
  }

  /** The guard before two lines are joined. */
  predicate Joinable(ls: seq<Line>, k: nat)
    requires k + 1 < |ls|
  {
    |ls[k]| + |ls[k + 1]| < MAX_LINE - 1
  }

  /** editor_backspace */
  function Backspace(t: Text): Text
    requires OnLine(t)
  {
    var l := Current(t);
    if t.cx > 0 then Text(t.lines[t.cy := l[..t.cx - 1] + l[t.cx..]], t.cx - 1, t.cy)
    else if t.cy > 0 && Joinable(t.lines, t.cy - 1) then
      Text(JoinLines(t.lines, t.cy - 1), |t.lines[t.cy - 1]|, t.cy - 1)
    else t
  }

  /** editor_delete */
  function Delete(t: Text): Text
    requires OnLine(t)
  {
    var l := Current(t);
    if t.cx < |l| then Text(t.lines[t.cy := l[..t.cx] + l[t.cx + 1..]], t.cx, t.cy)
    else if t.cy + 1 < |t.lines| && Joinable(t.lines, t.cy) then Text(JoinLines(t.lines, t.cy), t.cx, t.cy)
    else t
  }

  datatype Edit = Type(ch: Byte) | Enter | Rubout | Del

  function Apply(t: Text, e: Edit): Text
    requires OnLine(t)
  {
    match e
    case Type(ch) => Insert(t, ch)
    case Enter => Newline(t)
    case Rubout => Backspace(t)
    case Del => Delete(t)
  }

  // ---------- The text as one string ----------

  /** Lines, each followed by a newline. */
  function Before(ls: seq<Line>): seq<Byte> {
    if ls == [] then [] else ls[0] + [NEWLINE] + Before(ls[1..])
  }

  /** Lines, each behind a newline. */
  function After(ls: seq<Line>): seq<Byte> {
    if ls == [] then [] else [NEWLINE] + ls[0] + After(ls[1..])
  }

  /** The lines joined by newlines. */
  function Joined(ls: seq<Line>): seq<Byte>
    requires ls != []
  {
    ls[0] + After(ls[1..])
  }

  /** The cursor as an offset into the joined text. */
  function Offset(t: Text): nat
    requires OnLine(t)
  {
    |Before(t.lines[..t.cy])| + t.cx
  }

  lemma FirstLine(ls: seq<Line>, k: nat)
    requires 0 < k < |ls|
    ensures Joined(ls) == ls[0] + [NEWLINE] + Joined(ls[1..])
    ensures Before(ls[..k]) == ls[0] + [NEWLINE] + Before(ls[1..][..k - 1])
  {
    assert ls[1..][..k - 1] == ls[..k][1..];
  }

  lemma Regrouped(a: seq<Byte>, b: seq<Byte>, l: seq<Byte>, c: seq<Byte>)
    ensures a + (b + l + c) == a + b + l + c
  {
  }

  lemma {:induction false} JoinedAt(ls: seq<Line>, k: nat)
    requires k < |ls|
    ensures Joined(ls) == Before(ls[..k]) + ls[k] + After(ls[k + 1..])
    decreases k
  {
    if k == 0 {
      assert Before(ls[..0]) == [];
    } else {
      hide Joined, Before, After;
      JoinedAt(ls[1..], k - 1);
      assert ls[1..][k..] == ls[k + 1..];
      FirstLine(ls, k);
      Regrouped(ls[0] + [NEWLINE], Before(ls[1..][..k - 1]), ls[k], After(ls[k + 1..]));
    }
  }

  lemma {:induction false} BeforeAppend(a: seq<Line>, l: Line)
    ensures Before(a + [l]) == Before(a) + l + [NEWLINE]
  {
    if a == [] {
      assert (a + [l])[1..] == [];
    } else {
      assert (a + [l])[1..] == a[1..] + [l];
      BeforeAppend(a[1..], l);
    }
  }

  /** `now` is `was` with `cut` bytes at offset o replaced by `put`. */
  predicate Spliced(was: seq<Byte>, now: seq<Byte>, o: nat, cut: nat, put: seq<Byte>) {
    o + cut <= |was| && now == was[..o] + put + was[o + cut..]
  }

  lemma AroundCursor(p: seq<Byte>, l: Line, q: seq<Byte>, i: nat, j: nat, put: seq<Byte>)
    requires i <= j <= |l|
    ensures Spliced(p + l + q, p + (l[..i] + put + l[j..]) + q, |p| + i, j - i, put)
  {
    var was := p + l + q;
    assert was[..|p| + i] == p + l[..i];
    assert was[|p| + j..] == l[j..] + q;
  }

  /** Replacing one line's characters i to j splices the text there. */
  lemma LineSpliced(ls: seq<Line>, k: nat, i: nat, j: nat, put: seq<Byte>)
    requires k < |ls| && i <= j <= |ls[k]|
    ensures Spliced(Joined(ls), Joined(ls[k := ls[k][..i] + put + ls[k][j..]]), |Before(ls[..k])| + i, j - i, put)
  {
    hide Joined, Before, After, Spliced;
    var now := ls[k := ls[k][..i] + put + ls[k][j..]];
    JoinedAt(ls, k);
    JoinedAt(now, k);
    assert now[..k] == ls[..k] && now[k + 1..] == ls[k + 1..];
    AroundCursor(Before(ls[..k]), ls[k], After(ls[k + 1..]), i, j, put);
  }

  /** Joining two lines removes the newline between them. */
  lemma JoinSpliced(ls: seq<Line>, k: nat)
    requires k + 1 < |ls|
    ensures Spliced(Joined(ls), Joined(JoinLines(ls, k)), |Before(ls[..k])| + |ls[k]|, 1, [])
  {
    hide Joined, Before, Spliced;
    var now := JoinLines(ls, k);
    JoinedAt(ls, k);
    JoinedAt(now, k);
    assert now[..k] == ls[..k] && now[k + 1..] == ls[k + 2..] && ls[k + 1..][1..] == ls[k + 2..];
    var p, m, q := Before(ls[..k]), ls[k] + [NEWLINE] + ls[k + 1], After(ls[k + 2..]);
    assert Joined(ls) == p + m + q;
    assert m[..|ls[k]|] + [] + m[|ls[k]| + 1..] == ls[k] + ls[k + 1];
    AroundCursor(p, m, q, |ls[k]|, |ls[k]| + 1, []);
  }

  lemma InsertSplices(t: Text, ch: Byte)
    requires Valid(t)
    ensures var d := Insert(t, ch);
      if |Current(t)| < MAX_LINE - 1 then Spliced(Joined(t.lines), Joined(d.lines), Offset(t), 0, [ch])
        && Offset(d) == Offset(t) + 1
      else d == t
  {
    hide Joined, Before, Spliced;
    LineSpliced(t.lines, t.cy, t.cx, t.cx, [ch]);
    assert Insert(t, ch).lines[..t.cy] == t.lines[..t.cy];
  }

  lemma NewlineSplices(t: Text)
    requires Valid(t)
    ensures var d := Newline(t);
      if |t.lines| < MAX_LINES then Spliced(Joined(t.lines), Joined(d.lines), Offset(t), 0, [NEWLINE])
        && Offset(d) == Offset(t) + 1
      else d == t
  {
    if |t.lines| < MAX_LINES {
      hide Joined, Before, After, Spliced;
      var d, l := Newline(t), Current(t);
      NewlineParts(t);
      JoinedAt(t.lines, t.cy);
      JoinedAt(d.lines, t.cy);
      BeforeAppend(t.lines[..t.cy], l[..t.cx]);
      var p, q := Before(t.lines[..t.cy]), After(t.lines[t.cy + 1..]);
      AfterFirst(d.lines[t.cy + 1..]);
      Regrouped2(p, l[..t.cx], [NEWLINE], l[t.cx..], q);
      AroundCursor(p, l, q, t.cx, t.cx, [NEWLINE]);
    }
  }

  /** The lines around a newline. */
  lemma NewlineParts(t: Text)
    requires OnLine(t) && |t.lines| < MAX_LINES
    ensures var d, l := Newline(t), Current(t);
      && |d.lines| == |t.lines| + 1 && d.lines[t.cy] == l[..t.cx] && d.cx == 0 && d.cy == t.cy + 1
      && d.lines[..t.cy] == t.lines[..t.cy] && d.lines[t.cy + 1..] == [l[t.cx..]] + t.lines[t.cy + 1..]
      && d.lines[..t.cy + 1] == t.lines[..t.cy] + [l[..t.cx]]
  {
  }

  lemma AfterFirst(ls: seq<Line>)
    requires ls != []
    ensures After(ls) == [NEWLINE] + ls[0] + After(ls[1..])
  {
  }

  lemma Regrouped2(p: seq<Byte>, a: seq<Byte>, n: seq<Byte>, b: seq<Byte>, q: seq<Byte>)
    ensures p + a + (n + b + q) == p + (a + n + b) + q
  {
  }

  /** Backspace removes the character before the cursor; at the start of a line that is the newline,
      and only if the joined line has at most 254 characters. */
  lemma BackspaceSplices(t: Text)
    requires Valid(t)
    ensures var d := Backspace(t);
      if t.cx > 0 || (t.cy > 0 && Joinable(t.lines, t.cy - 1)) then
        Offset(t) > 0 && Spliced(Joined(t.lines), Joined(d.lines), Offset(t) - 1, 1, []) && Offset(d) == Offset(t) - 1
      else d == t
  {
    hide Joined, Before, Spliced;
    var d := Backspace(t);
    if t.cx > 0 {
      var l := Current(t);
      LineSpliced(t.lines, t.cy, t.cx - 1, t.cx, []);
      assert l[..t.cx - 1] + [] + l[t.cx..] == l[..t.cx - 1] + l[t.cx..];
      assert d.lines[..t.cy] == t.lines[..t.cy];
    } else if t.cy > 0 {
      var k := t.cy - 1;
      JoinSpliced(t.lines, k);
      assert t.lines[..t.cy] == t.lines[..k] + [t.lines[k]];
      BeforeAppend(t.lines[..k], t.lines[k]);
      assert JoinLines(t.lines, k)[..k] == t.lines[..k];
    }
  }

  /** Delete removes the character after the cursor, under the same guard at the end of a line. */
  lemma DeleteSplices(t: Text)
    requires Valid(t)
    ensures var d := Delete(t);
      if t.cx < |Current(t)| || (t.cy + 1 < |t.lines| && Joinable(t.lines, t.cy)) then
        Spliced(Joined(t.lines), Joined(d.lines), Offset(t), 1, []) && Offset(d) == Offset(t)
      else d == t
  {
    hide Joined, Before, Spliced;
    var d, l := Delete(t), Current(t);
    if t.cx < |l| {
      LineSpliced(t.lines, t.cy, t.cx, t.cx + 1, []);
      assert l[..t.cx] + [] + l[t.cx + 1..] == l[..t.cx] + l[t.cx + 1..];
      assert d.lines[..t.cy] == t.lines[..t.cy];
    } else if t.cy + 1 < |t.lines| {
      JoinSpliced(t.lines, t.cy);
      assert JoinLines(t.lines, t.cy)[..t.cy] == t.lines[..t.cy];
    }
  }

  // ---------- Undoing ----------

  lemma BackspaceUndoesInsert(t: Text, ch: Byte)
    requires Valid(t) && |Current(t)| < MAX_LINE - 1
    ensures OnLine(Insert(t, ch)) && Backspace(Insert(t, ch)) == t
  {
    var d, l := Insert(t, ch), Current(t);
    var m := d.lines[t.cy];
    assert m[..t.cx] + m[t.cx + 1..] == l;
    assert d.lines[t.cy := l] == t.lines;
  }

  /** Backspace undoes a newline exactly when the line was at most 254 characters long. */
  lemma BackspaceUndoesNewlineIff(t: Text)
    requires Valid(t) && |t.lines| < MAX_LINES
    ensures OnLine(Newline(t)) && (Backspace(Newline(t)) == t <==> |Current(t)| <= MAX_LINE - 2)
  {
    var d, l := Newline(t), Current(t);
    assert l[..t.cx] + l[t.cx..] == l;
    assert d.lines[..t.cy] == t.lines[..t.cy] && d.lines[t.cy + 2..] == t.lines[t.cy + 1..];
    assert t.lines == t.lines[..t.cy] + [l] + t.lines[t.cy + 1..];
  }

  // ---------- Every edit keeps the text valid ----------

  lemma LineReplaced(ls: seq<Line>, k: nat, l: Line)
    requires Editable(ls) && k < |ls| && PrintableLine(l)
    ensures Editable(ls[k := l])
  {
    hide PrintableLine;
  }

  lemma LinesJoined(ls: seq<Line>, k: nat)
    requires Editable(ls) && k + 1 < |ls| && Joinable(ls, k)
    ensures Editable(JoinLines(ls, k))
  {
    assert PrintableLine(ls[k] + ls[k + 1]);
    hide PrintableLine;
    var d := JoinLines(ls, k);
    assert forall i :: k < i < |d| ==> d[i] == ls[i + 1];
  }

  lemma LineBroken(t: Text)
    requires Valid(t) && |t.lines| < MAX_LINES
    ensures Valid(Newline(t))
  {
    var d, l := Newline(t), Current(t);
    assert PrintableLine(l[..t.cx]) && PrintableLine(l[t.cx..]);
    hide PrintableLine;
    assert forall i :: t.cy + 1 < i < |d.lines| ==> d.lines[i] == t.lines[i - 1];
  }

  /** From a valid text every edit leads to a valid text. */
  lemma EditKeepsValid(t: Text, e: Edit)
    requires Valid(t) && (e.Type? ==> Printable(e.ch))
    ensures Valid(Apply(t, e))
  {
    hide Editable;
    var l := Current(t);
    LineOf(t.lines, t.cy);
    match e
    case Type(ch) =>
      if |l| < MAX_LINE - 1 {
        LineReplaced(t.lines, t.cy, l[..t.cx] + [ch] + l[t.cx..]);
      }
    case Enter =>
      if |t.lines| < MAX_LINES {
        LineBroken(t);
      }
    case Rubout =>
      if t.cx > 0 {
        LineReplaced(t.lines, t.cy, l[..t.cx - 1] + l[t.cx..]);
      } else if t.cy > 0 && Joinable(t.lines, t.cy - 1) {
        LinesJoined(t.lines, t.cy - 1);
      }
    case Del =>
      if t.cx < |l| {
        LineReplaced(t.lines, t.cy, l[..t.cx] + l[t.cx + 1..]);
      } else if t.cy + 1 < |t.lines| && Joinable(t.lines, t.cy) {
        LinesJoined(t.lines, t.cy);
      }
  }

  lemma LineOf(ls: seq<Line>, k: nat)
    requires Editable(ls) && k < |ls|
    ensures PrintableLine(ls[k])
  {
  }

  // ---------- Edits of a string ----------

  /** A text without lines: a string and an offset into it. */
  datatype Flat = Flat(text: seq<Byte>, at: nat)

  function Flatten(t: Text): Flat
    requires Valid(t)
  {
    Flat(Joined(t.lines), Offset(t))
  }

  /** What the edits mean on the string. */
  function Ideal(f: Flat, e: Edit): Flat
    requires f.at <= |f.text|
  {
    match e
    case Type(ch) => Flat(f.text[..f.at] + [ch] + f.text[f.at..], f.at + 1)
    case Enter => Flat(f.text[..f.at] + [NEWLINE] + f.text[f.at..], f.at + 1)
    case Rubout => if f.at == 0 then f else Flat(f.text[..f.at - 1] + f.text[f.at..], f.at - 1)
    case Del => if f.at == |f.text| then f else Flat(f.text[..f.at] + f.text[f.at + 1..], f.at)
  }

  /** The four capacity guards. */
  predicate Refused(t: Text, e: Edit)
    requires OnLine(t)
  {
    match e
    case Type(_) => |Current(t)| >= MAX_LINE - 1
    case Enter => |t.lines| >= MAX_LINES
    case Rubout => t.cx == 0 && t.cy > 0 && !Joinable(t.lines, t.cy - 1)
    case Del => t.cx == |Current(t)| && t.cy + 1 < |t.lines| && !Joinable(t.lines, t.cy)
  }

  /** The cursor is at the ends of the string exactly where the code finds nothing to remove. */
  lemma Ends(t: Text)
    requires Valid(t)
    ensures Offset(t) <= |Joined(t.lines)|
    ensures Offset(t) == 0 <==> t.cx == 0 && t.cy == 0
    ensures Offset(t) == |Joined(t.lines)| <==> t.cx == |Current(t)| && t.cy + 1 == |t.lines|
  {
    hide Joined;
    JoinedAt(t.lines, t.cy);
    var a, b := t.lines[..t.cy], t.lines[t.cy + 1..];
    assert a == [] <==> t.cy == 0;
    assert b == [] <==> t.cy + 1 == |t.lines|;
  }

  /** One edit is one ideal edit, or is refused by its guard and changes nothing. */
  lemma EditIsIdeal(t: Text, e: Edit)
    requires Valid(t) && (e.Type? ==> Printable(e.ch))
    ensures Valid(Apply(t, e)) && Flatten(t).at <= |Flatten(t).text|
    ensures if Refused(t, e) then Apply(t, e) == t else Flatten(Apply(t, e)) == Ideal(Flatten(t), e)
  {
    hide Joined, Before, Offset, Editable, Insert, Newline, Backspace, Delete;
    EditKeepsValid(t, e);
    Ends(t);
    match e
    case Type(ch) => InsertSplices(t, ch);
    case Enter => NewlineSplices(t);
    case Rubout =>
      BackspaceSplices(t);
      Removed(Joined(t.lines), Offset(t) - 1);
    case Del =>
      DeleteSplices(t);
      Removed(Joined(t.lines), Offset(t));
  }

  lemma Removed(s: seq<Byte>, o: int)
    ensures 0 <= o < |s| ==> s[..o] + [] + s[o + 1..] == s[..o] + s[o + 1..]
  {
  }

  lemma Within(t: Text)
    requires Valid(t)
    ensures Flatten(t).at <= |Flatten(t).text|
  {
    Ends(t);
  }

  // ---------- Files ----------

  /** How many lines editor_save puts into its buffer, with `used` bytes in it already. */
  function Fitting(ls: seq<Line>, used: nat): (k: nat)
    ensures k <= |ls|
  {
    if ls == [] || used + |ls[0]| + 1 > SAVE_BUFFER then 0 else 1 + Fitting(ls[1..], used + |ls[0]| + 1)
  }

  /** What editor_save writes. */
  function Saved(ls: seq<Line>): seq<Byte> {
    Before(ls[..Fitting(ls, 0)])
  }

  /** The inner loop of editor_start: the line read from `pos` on with `col` characters so far,
      and where it stops. */
  function ReadLine(data: seq<Byte>, pos: nat, col: nat): (r: (Line, nat))
    requires pos <= |data|
    ensures pos <= r.1 <= |data|
    ensures r.1 == pos ==> pos == |data| || data[pos] == NEWLINE || col >= MAX_LINE - 1
    decreases |data| - pos
  {
    if pos == |data| || data[pos] == NEWLINE || col >= MAX_LINE - 1 then ([], pos)
    else if Printable(data[pos]) then
      var (l, p) := ReadLine(data, pos + 1, col + 1);
      ([data[pos]] + l, p)
    else ReadLine(data, pos + 1, col)
  }

  /** The line at `pos` and the start of the next one. */
  function NextLine(data: seq<Byte>, pos: nat): (r: (Line, nat))
    requires pos < |data|
    ensures pos < r.1 <= |data|
  {
    var (l, p) := ReadLine(data, pos, 0);
    (l, if p < |data| && data[p] == NEWLINE then p + 1 else p)
  }

  function ReadLines(data: seq<Byte>, pos: nat, room: nat): (ls: seq<Line>)
    requires pos <= |data|
    ensures |ls| <= room
    decreases room
  {
    if pos == |data| || room == 0 then []
    else
      var (l, p) := NextLine(data, pos);
      [l] + ReadLines(data, p, room - 1)
  }

  /** The lines editor_start makes of a file's contents. */
  function Loaded(data: seq<Byte>): seq<Line> {
    var ls := ReadLines(data, 0, MAX_LINES);
    if ls == [] then [[]] else ls
  }

  lemma {:induction false} LineRead(data: seq<Byte>, pos: nat, col: nat, l: Line)
    requires pos + |l| < |data| && data[pos..pos + |l|] == l && data[pos + |l|] == NEWLINE
    requires col + |l| < MAX_LINE && forall i :: 0 <= i < |l| ==> Printable(l[i])
    ensures ReadLine(data, pos, col) == (l, pos + |l|)
    decreases |l|
  {
    if l != [] {
      assert data[pos] == l[0];
      assert data[pos + 1..pos + 1 + |l[1..]|] == l[1..];
      LineRead(data, pos + 1, col + 1, l[1..]);
      assert [l[0]] + l[1..] == l;
    }
  }

  lemma NextLineRead(prefix: seq<Byte>, l: Line, more: seq<Byte>)
    requires PrintableLine(l)
    ensures NextLine(prefix + l + [NEWLINE] + more, |prefix|) == (l, |prefix + l + [NEWLINE]|)
  {
    hide ReadLine;
    var data := prefix + l + [NEWLINE] + more;
    assert data[|prefix|..|prefix| + |l|] == l && data[|prefix| + |l|] == NEWLINE;
    LineRead(data, |prefix|, 0, l);
  }

  lemma {:induction false} LinesRead(prefix: seq<Byte>, ls: seq<Line>, room: nat)
    requires |ls| <= room && forall i :: 0 <= i < |ls| ==> PrintableLine(ls[i])
    ensures ReadLines(prefix + Before(ls), |prefix|, room) == ls
    decreases |ls|
  {
    hide NextLine, PrintableLine;
    var data := prefix + Before(ls);
    if ls != [] {
      var p := prefix + ls[0] + [NEWLINE];
      assert data == p + Before(ls[1..]);
      NextLineRead(prefix, ls[0], Before(ls[1..]));
      LinesRead(p, ls[1..], room - 1);
      assert |data| > |prefix|;
      assert [ls[0]] + ls[1..] == ls;
    }
  }

  lemma {:induction false} FittingSize(ls: seq<Line>, used: nat)
    requires used <= SAVE_BUFFER
    ensures used + |Before(ls[..Fitting(ls, used)])| <= SAVE_BUFFER
    ensures Fitting(ls, used) == |ls| <==> used + |Before(ls)| <= SAVE_BUFFER
    decreases |ls|
  {
    if ls != [] && used + |ls[0]| + 1 <= SAVE_BUFFER {
      FittingSize(ls[1..], used + |ls[0]| + 1);
      var k := Fitting(ls, used);
      assert ls[..k][1..] == ls[1..][..k - 1];
    } else if ls != [] {
      assert |Before(ls)| >= |ls[0]| + 1;
    }
  }

  /** Loading what was saved gives the lines the save buffer took. */
  lemma LoadedAfterSaved(ls: seq<Line>)
    requires Editable(ls)
    ensures 0 < Fitting(ls, 0) && Loaded(Saved(ls)) == ls[..Fitting(ls, 0)]
  {
    hide ReadLines;
    var kept := ls[..Fitting(ls, 0)];
    LinesRead([], kept, MAX_LINES);
    assert [] + Before(kept) == Before(kept);
    assert PrintableLine(ls[0]);
  }

  /** Saving and starting again restores every line exactly when the text with its newlines has at
      most 16384 bytes. */
  lemma SaveRoundTripIff(ls: seq<Line>)
    requires Editable(ls)
    ensures Loaded(Saved(ls)) == ls <==> |Before(ls)| <= SAVE_BUFFER
    ensures |Saved(ls)| <= SAVE_BUFFER
  {
    LoadedAfterSaved(ls);
    FittingSize(ls, 0);
  }

  lemma {:induction false} FullLines(n: nat, l: Line)
    ensures |Before(seq(n, _ => l))| == n * (|l| + 1)
  {
    if n > 0 {
      assert seq(n, _ => l)[1..] == seq(n - 1, _ => l);
      FullLines(n - 1, l);
    }
  }

  /** Sixty-five lines of 255 letters do not all come back. */
  lemma LongTextCutOff()
    ensures var ls := seq(65, _ => seq(255, _ => 0x61));
            Editable(ls) && Loaded(Saved(ls)) != ls && |Loaded(Saved(ls))| < 65
  {
    hide Loaded, Saved, Fitting, Before;
    var l: Line := seq(255, _ => 0x61);
    var ls := seq(65, _ => l);
    FullLines(65, l);
    SaveRoundTripIff(ls);
    LoadedAfterSaved(ls);
    assert ls == seq(65, _ => seq(255, _ => 0x61));
  }

  /** Whatever a file contains, the editor starts on a valid text. */
  lemma LoadedEditable(data: seq<Byte>)
    ensures Editable(Loaded(data)) && Valid(Text(Loaded(data), 0, 0))
  {
    hide NextLine;
    ReadLinesPrintable(data, 0, MAX_LINES);
  }

  lemma {:induction false} ReadLinesPrintable(data: seq<Byte>, pos: nat, room: nat)
    requires pos <= |data|
    ensures forall i :: 0 <= i < |ReadLines(data, pos, room)| ==> PrintableLine(ReadLines(data, pos, room)[i])
    decreases room
  {
    if pos < |data| && room > 0 {
      var (l, p) := NextLine(data, pos);
      ReadLinePrintable(data, pos, 0);
      ReadLinesPrintable(data, p, room - 1);
    }
  }

  lemma {:induction false} ReadLinePrintable(data: seq<Byte>, pos: nat, col: nat)
    requires pos <= |data| && col < MAX_LINE
    ensures var l := ReadLine(data, pos, col).0;
      col + |l| < MAX_LINE && forall i :: 0 <= i < |l| ==> Printable(l[i])
    decreases |data| - pos
  {
    if pos < |data| && data[pos] != NEWLINE && col < MAX_LINE - 1 {
      ReadLinePrintable(data, pos + 1, if Printable(data[pos]) then col + 1 else col);
    }
  }
}
