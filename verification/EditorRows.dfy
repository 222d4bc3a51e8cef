/** The editor on its rows of characters, also where the cursor stands behind the end of a line. */
module EditorRows {
  import opened Machine
  import opened Editor
  import opened EditorKeys

  type Row = seq<Byte>

  /** g_lines, g_line_count, g_cx and g_cy; all 500 rows, used or not. */
  datatype Page = Page(rows: seq<Row>, count: nat, cx: nat, cy: nat)

  /** A row ends in a terminator and holds nothing but printable characters and terminators. */
  predicate RowOk(r: Row) {
    && |r| == MAX_LINE && r[MAX_LINE - 1] == 0
    && forall j :: 0 <= j < MAX_LINE ==> r[j] == 0 || Printable(r[j])
  }

  predicate RowsOk(rows: seq<Row>) {
    |rows| == MAX_LINES && forall i :: 0 <= i < MAX_LINES ==> RowOk(rows[i])
  }

  /** The column is on the line or at most `slack`; between keys the slack is 2. */
  predicate Sane(p: Page, slack: nat) {
    && RowsOk(p.rows) && p.cy < p.count <= MAX_LINES
    && (p.cx <= |CStr(p.rows[p.cy])| || p.cx <= slack)
  }

  function Lines(rows: seq<Row>): (ls: seq<Line>)
    ensures |ls| == |rows|
  {
    seq(|rows|, i requires 0 <= i < |rows| => CStr(rows[i]))
  }

  /** The text a page shows. */
  function Shown(p: Page): Text
    requires p.count <= |p.rows|
  {
    Text(Lines(p.rows)[..p.count], p.cx, p.cy)
  }

  predicate AllPrintable(s: seq<Byte>) {
    forall i :: 0 <= i < |s| ==> Printable(s[i])
  }

  lemma RowLine(r: Row)
    requires RowOk(r)
    ensures var l := CStr(r);
      && |l| < MAX_LINE && r[|l|] == 0 && r[..|l|] == l && 0 !in l && AllPrintable(l) && PrintableLine(l)
  {
    var l := CStr(r);
    assert forall i :: 0 <= i < |l| ==> l[i] == r[i] && l[i] in l;
  }

  /** What a row shows when a string and its terminator start it. */
  lemma LineFrom(r: Row, l: Line)
    requires |l| < |r| && 0 !in l && r[..|l|] == l && r[|l|] == 0
    ensures CStr(r) == l
  {
    CStrOfTerminated(l, r[|l|..]);
    assert r == l + r[|l|..];
  }

  // ---------- Rows ----------

  /** The bytes with a string and its terminator stored at `at`. */
  function Put(b: seq<Byte>, at: nat, s: seq<Byte>): seq<Byte>
    requires at + |s| < |b|
  {
    b[..at] + s + [0] + b[at + |s| + 1..]
  }

  /** The loop and the store of editor_insert_char. */
  function InsertRow(r: Row, at: nat, ch: Byte): Row
    requires |CStr(r)| + 1 < |r| && at < |r|
  {
    var n := |CStr(r)|;
    if at <= n then MovedUp(r, at, n + 1)[at := ch] else r[at := ch]
  }

  /** The loop of editor_backspace and editor_delete: it ends at the first terminator from `at` on. */
  function CloseRow(r: Row, at: nat): Row
    requires at < |r| && |CStr(r[at..])| < |r| - at
  {
    MovedDown(r, at, at + |CStr(r[at..])|)
  }

  lemma PutLine(r: Row, at: nat, s: seq<Byte>)
    requires RowOk(r) && at <= |CStr(r)| && at + |s| < MAX_LINE && AllPrintable(s)
    ensures RowOk(Put(r, at, s)) && CStr(Put(r, at, s)) == CStr(r)[..at] + s
  {
    hide CStr;
    RowLine(r);
    var l, d := CStr(r), Put(r, at, s);
    assert r[..at] == l[..at];
    assert forall j :: 0 <= j < MAX_LINE ==>
        d[j] == if j < at then r[j] else if j < at + |s| then s[j - at] else if j == at + |s| then 0 else r[j];
    LineFrom(d, l[..at] + s);
  }

  lemma InsertLine(r: Row, at: nat, ch: Byte)
    requires RowOk(r) && |CStr(r)| < MAX_LINE - 1 && at < MAX_LINE - 1 && Printable(ch)
    ensures RowOk(InsertRow(r, at, ch))
    ensures var l := CStr(r); CStr(InsertRow(r, at, ch)) == if at <= |l| then l[..at] + [ch] + l[at..] else l
  {
    hide CStr;
    RowLine(r);
    var l := CStr(r);
    if at <= |l| {
      InsertedIn(r, l, at, ch);
    } else {
      LineFrom(r[at := ch], l);
    }
  }

  lemma InsertedIn(r: Row, l: Line, at: nat, ch: Byte)
    requires RowOk(r) && |r| == MAX_LINE && at <= |l| < MAX_LINE - 1 && r[..|l|] == l && r[|l|] == 0 && 0 !in l
      && Printable(ch)
    ensures var d := MovedUp(r, at, |l| + 1);
      |d| == |r| && RowOk(d[at := ch]) && CStr(d[at := ch]) == l[..at] + [ch] + l[at..]
  {
    hide CStr, RowOk;
    var d := MovedUp(r, at, |l| + 1)[at := ch];
    assert r[..at] == l[..at] && r[at..|l|] == l[at..];
    InsertedOk(r, at, |l| + 1, ch);
    LineFrom(d, l[..at] + [ch] + l[at..]);
  }

  lemma InsertedOk(r: Row, at: nat, end: nat, ch: Byte)
    requires RowOk(r) && at < end < MAX_LINE && r[end - 1] == 0 && Printable(ch)
    ensures |r| == MAX_LINE && |MovedUp(r, at, end)| == MAX_LINE && RowOk(MovedUp(r, at, end)[at := ch])
  {
  }

  lemma TailLine(r: Row, at: nat)
    requires RowOk(r) && at < MAX_LINE
    ensures |CStr(r[at..])| < MAX_LINE - at && r[at + |CStr(r[at..])|] == 0
    ensures at <= |CStr(r)| ==> CStr(r[at..]) == CStr(r)[at..]
  {
    hide CStr;
    RowLine(r);
    var l, t := CStr(r), CStr(r[at..]);
    if at <= |l| {
      assert r[at..][..|l| - at] == l[at..];
      LineFrom(r[at..], l[at..]);
    }
  }

  lemma CloseLine(r: Row, at: nat)
    requires RowOk(r) && at < MAX_LINE
    ensures |CStr(r[at..])| < MAX_LINE - at && RowOk(CloseRow(r, at))
    ensures var l := CStr(r); CStr(CloseRow(r, at)) == if at < |l| then l[..at] + l[at + 1..] else l
  {
    hide CStr;
    RowLine(r);
    TailLine(r, at);
    var l, t, d := CStr(r), CStr(r[at..]), CloseRow(r, at);
    var z := at + |t|;
    ClosedOk(r, at, z);
    if at < |l| {
      assert t == l[at..];
      ClosedIn(r, l, at);
    } else {
      assert at == |l| ==> t == l[|l|..] == [];
      ClosedBehind(r, l, at, z);
    }
  }

  lemma ClosedOk(r: Row, at: nat, z: nat)
    requires RowOk(r) && at <= z < MAX_LINE
    ensures RowOk(MovedDown(r, at, z))
  {
  }

  lemma ClosedIn(r: Row, l: Line, at: nat)
    requires at < |l| < |r| && r[..|l|] == l && r[|l|] == 0 && 0 !in l
    ensures CStr(MovedDown(r, at, |l|)) == l[..at] + l[at + 1..]
  {
    hide CStr;
    var d := MovedDown(r, at, |l|);
    assert r[..at] == l[..at] && r[at + 1..|l|] == l[at + 1..];
    LineFrom(d, l[..at] + l[at + 1..]);
  }

  lemma ClosedBehind(r: Row, l: Line, at: nat, z: nat)
    requires |l| <= at <= z < |r| && r[..|l|] == l && r[|l|] == 0 && 0 !in l && (at == |l| ==> z == at)
    ensures CStr(MovedDown(r, at, z)) == l
  {
    hide CStr;
    MoveDown(r, at, at);
    LineFrom(MovedDown(r, at, z), l);
  }

  // ---------- Shifting rows ----------

  /** The strcpy loop of editor_newline: rows first to n - 1 copied one row up, from the top. */
  function ShiftedUp(rows: seq<Row>, first: nat, n: nat): (d: seq<Row>)
    requires RowsOk(rows) && first <= n < MAX_LINES
    ensures |d| == MAX_LINES
  {
    seq(MAX_LINES, i requires 0 <= i < MAX_LINES =>
      if first < i <= n then CopiedOver(rows[i], rows[i - 1]) else rows[i])
  }

  /** The strcpy loop after a join: rows first + 1 to last copied one row down. */
  function ShiftedDown(rows: seq<Row>, first: nat, last: nat): (d: seq<Row>)
    requires RowsOk(rows) && first <= last < MAX_LINES
    ensures |d| == MAX_LINES
  {
    seq(MAX_LINES, i requires 0 <= i < MAX_LINES =>
      if first <= i < last then CopiedOver(rows[i], rows[i + 1]) else rows[i])
  }

  /** strcpy(r, src) */
  function CopiedOver(r: Row, src: Row): Row
    requires RowOk(r) && RowOk(src)
  {
    RowLine(src);
    Put(r, 0, CStr(src))
  }

  lemma CopyLine(r: Row, src: Row)
    requires RowOk(r) && RowOk(src)
    ensures RowOk(CopiedOver(r, src)) && CStr(CopiedOver(r, src)) == CStr(src)
  {
    hide CStr;
    RowLine(src);
    PutLine(r, 0, CStr(src));
  }

  lemma ShiftUpLines(rows: seq<Row>, first: nat, n: nat)
    requires RowsOk(rows) && first <= n < MAX_LINES
    ensures RowsOk(ShiftedUp(rows, first, n)) && Lines(ShiftedUp(rows, first, n)) == MovedUp(Lines(rows), first, n)
  {
    hide RowOk, CopiedOver, CStr;
    forall i | first < i <= n
      ensures RowOk(ShiftedUp(rows, first, n)[i]) && CStr(ShiftedUp(rows, first, n)[i]) == CStr(rows[i - 1])
    {
      CopyLine(rows[i], rows[i - 1]);
    }
  }

  lemma ShiftDownLines(rows: seq<Row>, first: nat, last: nat)
    requires RowsOk(rows) && first <= last < MAX_LINES
    ensures RowsOk(ShiftedDown(rows, first, last))
      && Lines(ShiftedDown(rows, first, last)) == MovedDown(Lines(rows), first, last)
  {
    hide RowOk, CopiedOver, CStr;
    forall i | first <= i < last
      ensures RowOk(ShiftedDown(rows, first, last)[i]) && CStr(ShiftedDown(rows, first, last)[i]) == CStr(rows[i + 1])
    {
      CopyLine(rows[i], rows[i + 1]);
    }
  }

  lemma RowSet(rows: seq<Row>, i: nat, r: Row)
    requires RowsOk(rows) && i < MAX_LINES && RowOk(r)
    ensures RowsOk(rows[i := r]) && Lines(rows[i := r]) == Lines(rows)[i := CStr(r)]
  {
    hide CStr, RowOk;
  }

  lemma RowAt(rows: seq<Row>, i: nat)
    requires RowsOk(rows) && i < MAX_LINES
    ensures |rows| == MAX_LINES && RowOk(rows[i]) && |rows[i]| == MAX_LINE
  {
  }

  // ---------- Operations on any column ----------

  /** editor_insert_char */
  function InsertChar(p: Page, ch: Byte): Page
    requires Sane(p, 200)
  {
    RowLine(p.rows[p.cy]);
    var r := p.rows[p.cy];
    if |CStr(r)| >= MAX_LINE - 1 then p
    else Page(p.rows[p.cy := InsertRow(r, p.cx, ch)], p.count, p.cx + 1, p.cy)
  }

  /** The row below the cursor after editor_newline's memcpy of the rest of the line. */
  function NextRow(r: Row, below: Row, cx: nat): Row
    requires |r| == |below| == MAX_LINE && |CStr(r)| < MAX_LINE && cx < MAX_LINE
  {
    var rest := if |CStr(r)| > cx then |CStr(r)| - cx else 0;
    r[cx..cx + rest + 1] + below[rest + 1..]
  }

  /** editor_newline */
  function BreakLine(p: Page): Page
    requires Sane(p, 200)
  {
    RowLine(p.rows[p.cy]);
    if p.count >= MAX_LINES then p
    else
      var r, up := p.rows[p.cy], ShiftedUp(p.rows, p.cy + 1, p.count);
      Page(up[p.cy + 1 := NextRow(r, up[p.cy + 1], p.cx)][p.cy := r[p.cx := 0]], p.count + 1, 0, p.cy + 1)
  }

  /** Row k + 1 appended to row k and the later rows shifted down. */
  function JoinRows(p: Page, k: nat): (rows: seq<Row>)
    requires RowsOk(p.rows) && k + 1 < p.count <= MAX_LINES
    requires |CStr(p.rows[k])| + |CStr(p.rows[k + 1])| < MAX_LINE - 1
    ensures |rows| == MAX_LINES
  {
    var r := Put(p.rows[k], |CStr(p.rows[k])|, CStr(p.rows[k + 1]));
    RowAt(p.rows, k);
    RowAt(p.rows, k + 1);
    RowLine(p.rows[k + 1]);
    PutLine(p.rows[k], |CStr(p.rows[k])|, CStr(p.rows[k + 1]));
    RowSet(p.rows, k, r);
    ShiftedDown(p.rows[k := r], k + 1, p.count - 1)
  }

  /** editor_backspace */
  function BackspaceAt(p: Page): Page
    requires Sane(p, 200)
  {
    if p.cx > 0 then
      RowLine(p.rows[p.cy]);
      TailLine(p.rows[p.cy], p.cx - 1);
      Page(p.rows[p.cy := CloseRow(p.rows[p.cy], p.cx - 1)], p.count, p.cx - 1, p.cy)
    else if p.cy > 0 && |CStr(p.rows[p.cy - 1])| + |CStr(p.rows[p.cy])| < MAX_LINE - 1 then
      Page(JoinRows(p, p.cy - 1), p.count - 1, |CStr(p.rows[p.cy - 1])|, p.cy - 1)
    else p
  }

  /** editor_delete */
  function DeleteAt(p: Page): Page
    requires Sane(p, 200)
  {
    RowLine(p.rows[p.cy]);
    if p.rows[p.cy][p.cx] != 0 then
      TailLine(p.rows[p.cy], p.cx);
      Page(p.rows[p.cy := CloseRow(p.rows[p.cy], p.cx)], p.count, p.cx, p.cy)
    else if p.cy + 1 < p.count && |CStr(p.rows[p.cy])| + |CStr(p.rows[p.cy + 1])| < MAX_LINE - 1 then
      Page(JoinRows(p, p.cy), p.count - 1, p.cx, p.cy)
    else p
  }

  // ---------- On the line: the text operations ----------

  lemma ShownLine(p: Page)
    requires Sane(p, 200)
    ensures |Shown(p).lines| == p.count && Shown(p).lines[p.cy] == CStr(p.rows[p.cy]) && RowOk(p.rows[p.cy])
    ensures |p.rows| == MAX_LINES && |p.rows[p.cy]| == MAX_LINE
    ensures |CStr(p.rows[p.cy])| < MAX_LINE && Editable(Shown(p).lines)
    ensures OnLine(Shown(p)) <==> p.cx <= |CStr(p.rows[p.cy])|
  {
    hide CStr, RowOk, PrintableLine;
    RowAt(p.rows, p.cy);
    RowLine(p.rows[p.cy]);
    forall i | 0 <= i < p.count
      ensures PrintableLine(Shown(p).lines[i])
    {
      RowLine(p.rows[i]);
    }
  }

  /** Replacing the current row replaces the current line. */
  lemma ShownSet(p: Page, r: Row, cx: nat)
    requires Sane(p, 200) && RowOk(r)
    ensures var d := Page(p.rows[p.cy := r], p.count, cx, p.cy);
      && RowsOk(d.rows) && d.rows[p.cy] == r
      && Shown(d) == Text(Shown(p).lines[p.cy := CStr(r)], cx, p.cy)
  {
    hide CStr, RowOk, RowsOk;
    RowSet(p.rows, p.cy, r);
    assert |p.rows| == MAX_LINES by { RowAt(p.rows, p.cy); }
    assert Lines(p.rows)[p.cy := CStr(r)][..p.count] == Lines(p.rows)[..p.count][p.cy := CStr(r)];
  }

  /** Behind the end of its line the typed character is stored and not shown. */
  lemma InsertShown(p: Page, ch: Byte, slack: nat)
    requires Sane(p, slack) && slack <= 200 && Printable(ch)
    ensures Sane(p, 200) && Sane(InsertChar(p, ch), slack + 1) && InsertChar(p, ch).cy == p.cy
    ensures Shown(InsertChar(p, ch)) ==
      if OnLine(Shown(p)) then Insert(Shown(p), ch) else Shown(p).(cx := p.cx + 1)
  {
    hide CStr, RowOk, InsertRow;
    ShownLine(p);
    var r := p.rows[p.cy];
    if |CStr(r)| < MAX_LINE - 1 {
      InsertLine(r, p.cx, ch);
      ShownSet(p, InsertRow(r, p.cx, ch), p.cx + 1);
      assert Shown(p).lines[p.cy := CStr(r)] == Shown(p).lines;
    }
  }

  /** Backspace behind the end of a line moves the cursor and removes nothing. */
  lemma BackspaceShown(p: Page, slack: nat)
    requires Sane(p, slack) && slack <= 200
    ensures Sane(p, 200) && Sane(BackspaceAt(p), slack)
    ensures Shown(BackspaceAt(p)) ==
      if OnLine(Shown(p)) then Backspace(Shown(p)) else Shown(p).(cx := p.cx - 1)
  {
    hide CStr, RowOk, CloseRow, JoinRows, JoinLines;
    ShownLine(p);
    var r := p.rows[p.cy];
    if p.cx > 0 {
      CloseLine(r, p.cx - 1);
      ShownSet(p, CloseRow(r, p.cx - 1), p.cx - 1);
      assert Shown(p).lines[p.cy := CStr(r)] == Shown(p).lines;
    } else if p.cy > 0 {
      JoinShown(p, p.cy - 1);
    }
  }

  lemma JoinedRow(rows: seq<Row>, k: nat)
    requires RowsOk(rows) && k + 1 < MAX_LINES
    ensures |rows| == MAX_LINES && |rows[k]| == MAX_LINE
    ensures |CStr(rows[k])| + |CStr(rows[k + 1])| < MAX_LINE - 1 ==>
      var r := Put(rows[k], |CStr(rows[k])|, CStr(rows[k + 1]));
      RowOk(r) && CStr(r) == CStr(rows[k]) + CStr(rows[k + 1])
  {
    hide CStr, RowOk, Put;
    var l, m := CStr(rows[k]), CStr(rows[k + 1]);
    RowAt(rows, k);
    RowLine(rows[k + 1]);
    if |l| + |m| < MAX_LINE - 1 {
      PutLine(rows[k], |l|, m);
      assert l[..|l|] == l;
    }
  }

  /** Shifting down leaves the row below `first` alone. */
  lemma DownKeeps(rows: seq<Row>, first: nat, last: nat)
    requires RowsOk(rows) && 0 < first <= last < MAX_LINES
    ensures |rows| == MAX_LINES && ShiftedDown(rows, first, last)[first - 1] == rows[first - 1]
  {
  }

  lemma LinesAt(rows: seq<Row>, i: nat)
    requires i < |rows|
    ensures Lines(rows)[i] == CStr(rows[i])
  {
  }

  /** Joining rows joins lines. */
  lemma JoinShown(p: Page, k: nat)
    requires RowsOk(p.rows) && k + 1 < p.count <= MAX_LINES
    ensures |Lines(p.rows)| == MAX_LINES && Lines(p.rows)[k] == CStr(p.rows[k])
      && Lines(p.rows)[k + 1] == CStr(p.rows[k + 1])
    ensures |CStr(p.rows[k])| + |CStr(p.rows[k + 1])| < MAX_LINE - 1 ==>
      var rows, ls := JoinRows(p, k), Lines(p.rows)[..p.count];
      && RowsOk(rows) && Lines(rows)[..p.count - 1] == JoinLines(ls, k)
      && CStr(rows[k]) == CStr(p.rows[k]) + CStr(p.rows[k + 1])
  {
    hide CStr, RowOk, RowsOk, JoinLines, MovedDown, Put, Lines, ShiftedDown;
    JoinedRow(p.rows, k);
    LinesAt(p.rows, k);
    LinesAt(p.rows, k + 1);
    if |CStr(p.rows[k])| + |CStr(p.rows[k + 1])| < MAX_LINE - 1 {
      var r := Put(p.rows[k], |CStr(p.rows[k])|, CStr(p.rows[k + 1]));
      RowSet(p.rows, k, r);
      ShiftDownLines(p.rows[k := r], k + 1, p.count - 1);
      DownKeeps(p.rows[k := r], k + 1, p.count - 1);
      MovedDownLines(Lines(p.rows), Lines(p.rows[k := r]), k, p.count);
    }
  }

  lemma MovedDownLines(ls: seq<Line>, joined: seq<Line>, k: nat, count: nat)
    requires k + 1 < count <= |ls| && joined == ls[k := ls[k] + ls[k + 1]]
    ensures MovedDown(joined, k + 1, count - 1)[..count - 1] == JoinLines(ls[..count], k)
  {
  }

  /** Delete behind the end of a line removes a stored character that is not shown; only where none
      is stored does it join the next line, as at the end of the line. */
  lemma DeleteShown(p: Page, slack: nat)
    requires Sane(p, slack) && slack <= 200
    ensures Sane(p, 200) && Sane(DeleteAt(p), slack)
    ensures Shown(DeleteAt(p)) ==
      if OnLine(Shown(p)) then Delete(Shown(p))
      else if p.rows[p.cy][p.cx] != 0 then Shown(p)
      else Delete(Shown(p).(cx := |Shown(p).lines[p.cy]|)).(cx := p.cx)
  {
    hide CStr, RowOk, CloseRow, JoinRows, JoinLines;
    ShownLine(p);
    var r := p.rows[p.cy];
    AtCursor(r, p.cx);
    if r[p.cx] != 0 {
      CloseLine(r, p.cx);
      ShownSet(p, CloseRow(r, p.cx), p.cx);
      assert Shown(p).lines[p.cy := CStr(r)] == Shown(p).lines;
    } else if p.cy + 1 < p.count {
      JoinShown(p, p.cy);
    }
  }

  /** On a line the byte at the cursor is a terminator only at the end. */
  lemma AtCursor(r: Row, cx: nat)
    requires RowOk(r) && cx < MAX_LINE
    ensures cx <= |CStr(r)| ==> (r[cx] == 0 <==> cx == |CStr(r)|)
  {
    hide CStr;
    RowLine(r);
    if cx < |CStr(r)| {
      assert r[cx] == CStr(r)[cx];
    }
  }

  /** The row below after a newline: the rest of the line, or behind its end a stored character in
      front of what the row held before. */
  lemma NextLine(r: Row, below: Row, cx: nat)
    requires RowOk(r) && RowOk(below) && cx < MAX_LINE
    ensures |CStr(r)| < MAX_LINE && RowOk(NextRow(r, below, cx)) && RowOk(r[cx := 0])
    ensures cx <= |CStr(r)| ==> CStr(NextRow(r, below, cx)) == CStr(r)[cx..] && CStr(r[cx := 0]) == CStr(r)[..cx]
    ensures cx > |CStr(r)| ==> CStr(NextRow(r, below, cx)) == CStr([r[cx]] + below[1..]) && CStr(r[cx := 0]) == CStr(r)
  {
    hide CStr;
    RowLine(r);
    var l, d := CStr(r), NextRow(r, below, cx);
    if cx <= |l| {
      assert r[cx..|l|] == l[cx..];
      LineFrom(d, l[cx..]);
      LineFrom(r[cx := 0], l[..cx]);
    } else {
      assert d == [r[cx]] + below[1..];
      LineFrom(r[cx := 0], l);
    }
  }

  lemma MovedUpLines(ls: seq<Line>, cy: nat, count: nat, left: Line, right: Line)
    requires cy < count < |ls|
    ensures var m := MovedUp(ls, cy + 1, count);
      && |m| == |ls| && m[cy] == ls[cy]
      && m[cy + 1 := right][cy := left][..count + 1] == ls[..count][..cy] + [left, right] + ls[..count][cy + 1..]
  {
  }

  /** The line a newline makes behind the end of its line: a stored character in front of what the
      next row holds, or nothing. */
  function StaleLine(p: Page): Line
    requires Sane(p, 200) && p.count < MAX_LINES
  {
    CStr([p.rows[p.cy][p.cx]] + p.rows[p.cy + 1][1..])
  }

  /** The rows of a newline: the current one cut, a new one below it, the later ones moved up. */
  lemma BreakRows(p: Page)
    requires Sane(p, 200) && p.count < MAX_LINES
    ensures |p.rows| == MAX_LINES && |p.rows[p.cy]| == |p.rows[p.cy + 1]| == MAX_LINE && |CStr(p.rows[p.cy])| < MAX_LINE
    ensures var r, ls, rows := p.rows[p.cy], Lines(p.rows)[..p.count], BreakLine(p).rows;
      && RowsOk(rows) && RowOk(r) && RowOk(p.rows[p.cy + 1]) && |r| == MAX_LINE
      && Lines(rows)[..p.count + 1] ==
         ls[..p.cy] + [CStr(r[p.cx := 0]), CStr(NextRow(r, p.rows[p.cy + 1], p.cx))] + ls[p.cy + 1..]
  {
    hide CStr, RowOk, RowsOk, NextRow, MovedUp, ShiftedUp, Lines;
    ShownLine(p);
    var r, up := p.rows[p.cy], ShiftedUp(p.rows, p.cy + 1, p.count);
    ShiftUpLines(p.rows, p.cy + 1, p.count);
    UpKeeps(p.rows, p.cy + 1, p.count);
    var below := p.rows[p.cy + 1];
    NextLine(r, below, p.cx);
    var next, left := NextRow(r, below, p.cx), r[p.cx := 0];
    RowSet(up, p.cy + 1, next);
    RowSet(up[p.cy + 1 := next], p.cy, left);
    MovedUpLines(Lines(p.rows), p.cy, p.count, CStr(left), CStr(next));
  }

  /** Shifting up leaves the rows up to `first` alone. */
  lemma UpKeeps(rows: seq<Row>, first: nat, n: nat)
    requires RowsOk(rows) && 0 < first <= n < MAX_LINES
    ensures |rows| == MAX_LINES && RowOk(rows[first]) && |rows[first]| == MAX_LINE
    ensures ShiftedUp(rows, first, n)[first] == rows[first] && ShiftedUp(rows, first, n)[first - 1] == rows[first - 1]
  {
  }

  lemma BreakShown(p: Page, slack: nat)
    requires Sane(p, slack) && slack <= 200
    ensures Sane(p, 200) && Sane(BreakLine(p), slack)
    ensures Shown(BreakLine(p)) ==
      if p.count >= MAX_LINES then Shown(p)
      else if OnLine(Shown(p)) then Newline(Shown(p))
      else
        var ls := Shown(p).lines;
        Text(ls[..p.cy] + [ls[p.cy], StaleLine(p)] + ls[p.cy + 1..], 0, p.cy + 1)
  {
    hide CStr, RowOk, RowsOk, NextRow, ShiftedUp, Lines;
    if p.count < MAX_LINES {
      ShownLine(p);
      BreakRows(p);
      RowAt(p.rows, p.cy + 1);
      NextLine(p.rows[p.cy], p.rows[p.cy + 1], p.cx);
    }
  }

  /** Behind the end of a line a newline is one at the end of the line exactly when no character is
      stored under the cursor. */
  lemma BreakBehindIff(p: Page, slack: nat)
    requires Sane(p, slack) && slack <= 200 && !OnLine(Shown(p)) && p.count < MAX_LINES
    ensures var t := Shown(p); var e := t.(cx := |t.lines[t.cy]|);
      && OnLine(e)
      && (Shown(BreakLine(p)) == Newline(e) <==> p.rows[p.cy][p.cx] == 0)
  {
    hide CStr, RowOk, BreakLine;
    ShownLine(p);
    BreakShown(p, slack);
    var t := Shown(p);
    var l := t.lines[t.cy];
    assert l[..|l|] == l && l[|l|..] == [];
    RowAt(p.rows, p.cy + 1);
    StaleEmptyIff(p.rows[p.cy][p.cx], p.rows[p.cy + 1]);
    var a, b := t.lines[..p.cy] + [l, StaleLine(p)] + t.lines[p.cy + 1..],
      t.lines[..p.cy] + [l, []] + t.lines[p.cy + 1..];
    assert a[p.cy + 1] == StaleLine(p) && b[p.cy + 1] == [];
  }

  lemma StaleEmptyIff(ch: Byte, below: Row)
    requires |below| == MAX_LINE
    ensures CStr([ch] + below[1..]) == [] <==> ch == 0
  {
  }

  /** A typed character shows exactly when the cursor is on its line and the line has room. */
  lemma TypedShowsIff(p: Page, ch: Byte, slack: nat)
    requires Sane(p, slack) && slack <= 200 && Printable(ch)
    ensures Sane(p, 200) && |Shown(p).lines| == p.count
    ensures Shown(InsertChar(p, ch)).lines != Shown(p).lines <==>
            OnLine(Shown(p)) && |Shown(p).lines[p.cy]| < MAX_LINE - 1
  {
    hide CStr, RowOk, InsertChar;
    ShownLine(p);
    InsertShown(p, ch, slack);
    var t := Shown(p);
    if OnLine(t) && |t.lines[t.cy]| < MAX_LINE - 1 {
      assert |Insert(t, ch).lines[t.cy]| == |t.lines[t.cy]| + 1;
    }
  }

  // ---------- Keys ----------

  /** What a key does to the rows before the clamp. */
  function ActAt(p: Page, key: Key, page: nat): (d: Page)
    requires Sane(p, 2) && TypableKey(key)
    ensures RowsOk(d.rows) && d.cy < d.count <= MAX_LINES
    ensures OnLine(Shown(p)) ==> Shown(d) == Act(Shown(p), key, page)
  {
    ShownLine(p);
    var len := |CStr(p.rows[p.cy])|;
    match key
    case Letter(ch) => InsertShown(p, ch, 2); InsertChar(p, ch)
    case Tab => TwoSpaces(p); InsertChar(InsertChar(p, SPACE), SPACE)
    case Return => BreakShown(p, 2); BreakLine(p)
    case Back => BackspaceShown(p, 2); BackspaceAt(p)
    case Erase => DeleteShown(p, 2); DeleteAt(p)
    case Up => if p.cy > 0 then p.(cy := p.cy - 1) else p
    case Down => if p.cy + 1 < p.count then p.(cy := p.cy + 1) else p
    case Left => if p.cx > 0 then p.(cx := p.cx - 1) else p
    case Right => if p.cx < len then p.(cx := p.cx + 1) else p
    case Home => p.(cx := 0)
    case End => p.(cx := len)
    case PageUp => p.(cy := if p.cy < page then 0 else p.cy - page)
    case PageDown => p.(cy := if p.cy + page >= p.count then p.count - 1 else p.cy + page)
    case Other => p
    case Save => p
  }

  lemma TwoSpaces(p: Page)
    requires Sane(p, 2)
    ensures Sane(p, 200) && Sane(InsertChar(p, SPACE), 200)
    ensures Sane(InsertChar(InsertChar(p, SPACE), SPACE), 200)
    ensures OnLine(Shown(p)) ==>
      Shown(InsertChar(InsertChar(p, SPACE), SPACE)) == Insert(Insert(Shown(p), SPACE), SPACE)
  {
    hide InsertChar, Insert, CStr, RowOk;
    InsertShown(p, SPACE, 2);
    InsertShown(InsertChar(p, SPACE), SPACE, 3);
    ShownLine(p);
    if OnLine(Shown(p)) {
      StaysOnLine(Shown(p));
    }
  }

  lemma StaysOnLine(t: Text)
    requires OnLine(t)
    ensures OnLine(Insert(t, SPACE))
  {
  }

  /** editor_keyboard_event on the rows. */
  function PressAt(p: Page, key: Key, cols: nat, page: nat): (d: Page)
    requires Sane(p, 2) && TypableKey(key) && cols >= 10
    ensures Sane(d, 2)
    ensures OnLine(Shown(p)) ==> Shown(d) == Press(Shown(p), key, cols, page)
  {
    if key.Save? then p
    else
      var a := ActAt(p, key, page);
      RowAt(a.rows, a.cy);
      LinesAt(a.rows, a.cy);
      a.(cx := Clamped(a.cx, |CStr(a.rows[a.cy])|, cols))
  }

  function PressAllAt(p: Page, keys: seq<Key>, cols: nat, page: nat): (d: Page)
    requires Sane(p, 2) && cols >= 10 && forall i :: 0 <= i < |keys| ==> TypableKey(keys[i])
    ensures Sane(d, 2)
    decreases |keys|
  {
    if keys == [] then p else PressAllAt(PressAt(p, keys[0], cols, page), keys[1..], cols, page)
  }

  /** After every run of keys the rows show 1 to 500 printable lines, and the cursor is on its line
      or at column 1 or 2 of a line with fewer characters than that. */
  lemma RunStaysSane(p: Page, keys: seq<Key>, cols: nat, page: nat)
    requires Sane(p, 2) && cols >= 10 && forall i :: 0 <= i < |keys| ==> TypableKey(keys[i])
    ensures var t := Shown(PressAllAt(p, keys, cols, page));
      Editable(t.lines) && t.cy < |t.lines| && (OnLine(t) || |t.lines[t.cy]| < t.cx <= 2)
  {
    hide CStr, RowsOk, PressAllAt;
    var d := PressAllAt(p, keys, cols, page);
    Looser(d);
    ShownLine(d);
  }

  lemma Looser(p: Page)
    requires Sane(p, 2)
    ensures Sane(p, 200)
  {
  }

  /** On a new file the first letter shows and the second is lost. */
  lemma SecondLetterLost(p: Page, a: Byte, b: Byte, cols: nat, page: nat)
    requires Sane(p, 2) && Shown(p) == Text([[]], 0, 0) && Printable(a) && Printable(b) && cols >= 10
    ensures var q := PressAt(p, Letter(a), cols, page);
      && Shown(q) == Text([[a]], 2, 0)
      && Shown(PressAt(q, Letter(b), cols, page)) == Text([[a]], 2, 0)
  {
    hide CStr, RowOk, InsertChar, Lines;
    var q := PressAt(p, Letter(a), cols, page);
    var l: Line := [];
    assert l[..0] + [a] + l[0..] == [a];
    assert Insert(Text([[]], 0, 0), a).lines == [[a]];
    assert Shown(q) == Text([[a]], 2, 0);
    Looser(q);
    ShownLine(q);
    InsertShown(q, b, 2);
    var r := InsertChar(q, b);
    ShownLine(r);
    assert Shown(r) == Text([[a]], 3, 0);
  }
}
