/** The editor as it runs: rows of one character array shifted in place, and its key handler. */
module EditorBuffer {
  import opened Machine
  import opened Editor
  import opened EditorKeys
  import opened EditorRows

  const SIZE := MAX_LINES * MAX_LINE

  /** The array row by row. */
  function RowsOf(b: seq<Byte>): (rows: seq<Row>)
    requires |b| == SIZE
    ensures |rows| == MAX_LINES
  {
    seq(MAX_LINES, i requires 0 <= i < MAX_LINES => b[MAX_LINE * i..MAX_LINE * i + MAX_LINE])
  }

  lemma ByteOf(b: seq<Byte>, i: nat, k: nat)
    requires |b| == SIZE && i < MAX_LINES && k < MAX_LINE
    ensures |RowsOf(b)[i]| == MAX_LINE && RowsOf(b)[i][k] == b[MAX_LINE * i + k]
  {
  }

  function Stored(r: Row, k: nat, v: Byte): Row
    requires k < |r|
  {
    r[k := v]
  }

  /** One stored byte changes one row. */
  lemma ByteSet(b: seq<Byte>, i: nat, k: nat, v: Byte)
    requires |b| == SIZE && i < MAX_LINES && k < MAX_LINE
    ensures |RowsOf(b)[i]| == MAX_LINE
    ensures RowsOf(b[MAX_LINE * i + k := v]) == RowsOf(b)[i := Stored(RowsOf(b)[i], k, v)]
  {
    var c := b[MAX_LINE * i + k := v];
    forall j | 0 <= j < MAX_LINES
      ensures RowsOf(c)[j] == RowsOf(b)[i := Stored(RowsOf(b)[i], k, v)][j]
    {
      assert MAX_LINE * j + MAX_LINE <= MAX_LINE * i || j == i || MAX_LINE * i + MAX_LINE <= MAX_LINE * j;
    }
  }

  lemma InsertedRow(r: Row, at: nat, ch: Byte)
    requires RowOk(r) && |CStr(r)| < MAX_LINE - 1 && at < MAX_LINE
    ensures |MovedUp(r, |CStr(r)| + 1, |CStr(r)| + 1)| == MAX_LINE && MovedUp(r, |CStr(r)| + 1, |CStr(r)| + 1) == r
    ensures at <= |CStr(r)| ==>
      |MovedUp(r, at, |CStr(r)| + 1)| == MAX_LINE && MovedUp(r, at, |CStr(r)| + 1)[at := ch] == InsertRow(r, at, ch)
    ensures at > |CStr(r)| ==> r[at := ch] == InsertRow(r, at, ch)
  {
  }

  /** Within the string from `at` on no byte is a terminator, and behind it one is. */
  lemma TailByte(r: Row, at: nat, k: nat)
    requires RowOk(r) && at <= k < MAX_LINE
    ensures var z := at + |CStr(r[at..])|;
      z < MAX_LINE && (k <= z ==> (r[k] == 0 <==> k == z))
  {
    TailLine(r, at);
    var t := CStr(r[at..]);
    if k < at + |t| {
      assert r[k] == r[at..][k - at] == t[k - at];
    }
  }

  class Buffer {
    const chars: array<Byte>
    var count: nat
    var cx: nat
    var cy: nat
    var modified: bool

    constructor ()
      ensures Valid() && Shown(View()) == Text([[]], 0, 0) && !modified
    {
      chars := new Byte[SIZE](_ => 0);
      count, cx, cy, modified := 1, 0, 0, false;
      new;
      BlankRows(chars[..]);
    }

    /** The rows hold strings, and the cursor is where the key handler leaves it. */
    ghost predicate Valid()
      reads this, chars
    {
      chars.Length == SIZE && Sane(View(), 2)
    }

    ghost function View(): Page
      requires chars.Length == SIZE
      reads this, chars
    {
      Page(RowsOf(chars[..]), count, cx, cy)
    }

    /** g_lines[i][k] = v */
    method SetChar(i: nat, k: nat, v: Byte)
      requires chars.Length == SIZE && i < MAX_LINES && k < MAX_LINE
      modifies chars
      ensures |old(RowsOf(chars[..])[i])| == MAX_LINE
      ensures RowsOf(chars[..]) == old(RowsOf(chars[..]))[i := Stored(old(RowsOf(chars[..])[i]), k, v)]
    {
      hide RowsOf;
      ghost var b := chars[..];
      ByteSet(b, i, k, v);
      chars[MAX_LINE * i + k] := v;
      assert chars[..] == b[MAX_LINE * i + k := v];
    }

    /** g_lines[i][k] */
    method GetChar(i: nat, k: nat) returns (v: Byte)
      requires chars.Length == SIZE && i < MAX_LINES && k < MAX_LINE
      ensures |RowsOf(chars[..])[i]| == MAX_LINE && v == RowsOf(chars[..])[i][k]
    {
      ByteOf(chars[..], i, k);
      v := chars[MAX_LINE * i + k];
    }

    method StrLen(i: nat) returns (n: nat)
      requires chars.Length == SIZE && i < MAX_LINES && RowsOk(RowsOf(chars[..]))
      ensures n == |CStr(RowsOf(chars[..])[i])|
    {
      hide CStr, RowsOf;
      ghost var rows := RowsOf(chars[..]);
      RowAt(rows, i);
      ghost var r := rows[i];
      assert r[0..] == r;
      n := 0;
      TailByte(r, 0, 0);
      var c := GetChar(i, 0);
      while c != 0
        invariant 0 <= n <= |CStr(r)| < MAX_LINE && c == r[n]
        decreases |CStr(r)| - n
      {
        TailByte(r, 0, n);
        n := n + 1;
        c := GetChar(i, n);
      }
      TailByte(r, 0, n);
    }

    /** The loop and the store of editor_insert_char. */
    method ShiftIn(i: nat, at: nat, ch: Byte, len: nat)
      requires chars.Length == SIZE && i < MAX_LINES && RowsOk(RowsOf(chars[..]))
      requires len == |CStr(RowsOf(chars[..])[i])| < MAX_LINE - 1 && at < MAX_LINE
      modifies chars
      ensures len + 1 < |old(RowsOf(chars[..])[i])| == MAX_LINE
      ensures RowsOf(chars[..]) == old(RowsOf(chars[..]))[i := InsertRow(old(RowsOf(chars[..])[i]), at, ch)]
    {
      hide CStr, RowsOf, MovedUp, InsertRow;
      ghost var rows := RowsOf(chars[..]);
      RowAt(rows, i);
      ghost var r := rows[i];
      InsertedRow(r, at, ch);
      var k := len + 1;
      while k > at
        invariant k <= len + 1 && (if at <= len then at <= k else k == len + 1)
        invariant RowsOf(chars[..]) == rows[i := MovedUp(r, k, len + 1)]
      {
        MoveUp(r, k, len + 1);
        k := k - 1;
        var c := GetChar(i, k);
        SetChar(i, k + 1, c);
      }
      SetChar(i, at, ch);
    }

    /** The loop of editor_backspace and editor_delete inside a line. */
    method Close(i: nat, at: nat)
      requires chars.Length == SIZE && i < MAX_LINES && RowsOk(RowsOf(chars[..])) && at < MAX_LINE
      modifies chars
      ensures var r := old(RowsOf(chars[..])[i]);
        && |r| == MAX_LINE && |CStr(r[at..])| < MAX_LINE - at
        && RowsOf(chars[..]) == old(RowsOf(chars[..]))[i := CloseRow(r, at)]
    {
      hide CStr, RowsOf, MovedDown;
      ghost var rows := RowsOf(chars[..]);
      RowAt(rows, i);
      ghost var r := rows[i];
      ghost var z := at + |CStr(r[at..])|;
      TailByte(r, at, at);
      MoveDown(r, at, at);
      var k := at;
      var c := GetChar(i, k);
      while c != 0
        invariant at <= k <= z < MAX_LINE && c == r[k]
        invariant RowsOf(chars[..]) == rows[i := MovedDown(r, at, k)]
        decreases z - k
      {
        TailByte(r, at, k);
        MoveDown(r, at, k);
        var d := GetChar(i, k + 1);
        SetChar(i, k, d);
        k := k + 1;
        MoveDown(r, at, k);
        c := GetChar(i, k);
      }
      TailByte(r, at, k);
    }

    /** strcpy of row `src` to column `at` of row `dst`. */
    method CopyString(dst: nat, at: nat, src: nat)
      requires chars.Length == SIZE && dst < MAX_LINES && src < MAX_LINES && dst != src && RowsOk(RowsOf(chars[..]))
      requires at + |CStr(RowsOf(chars[..])[src])| < MAX_LINE
      modifies chars
      ensures var rows := old(RowsOf(chars[..]));
        && |rows[dst]| == MAX_LINE
        && RowsOf(chars[..]) == rows[dst := Put(rows[dst], at, CStr(rows[src]))]
    {
      hide CStr, RowsOf, Put, PutSome, RowOk;
      ghost var rows := RowsOf(chars[..]);
      RowAt(rows, dst);
      RowAt(rows, src);
      ghost var r, q, s := rows[dst], rows[src], CStr(rows[src]);
      assert q[0..] == q;
      TailByte(q, 0, 0);
      RowLine(q);
      var k := 0;
      var c := GetChar(src, 0);
      PutStart(r, at, s);
      while c != 0
        invariant 0 <= k <= |s| && c == q[k]
        invariant RowsOf(chars[..]) == rows[dst := PutSome(r, at, s, k)]
        decreases |s| - k
      {
        TailByte(q, 0, k);
        PutStep(r, q, at, s, k);
        SetChar(dst, at + k, c);
        k := k + 1;
        c := GetChar(src, k);
      }
      TailByte(q, 0, k);
      PutEnd(r, at, s);
      SetChar(dst, at + k, 0);
    }

    /** memcpy of n bytes from column `from` of row `src` to the start of row `dst`. */
    method CopyBytes(dst: nat, src: nat, from: nat, n: nat)
      requires chars.Length == SIZE && dst < MAX_LINES && src < MAX_LINES && dst != src && RowsOk(RowsOf(chars[..]))
      requires from + n <= MAX_LINE
      modifies chars
      ensures var rows := old(RowsOf(chars[..]));
        && |rows[dst]| == |rows[src]| == MAX_LINE
        && RowsOf(chars[..]) == rows[dst := rows[src][from..from + n] + rows[dst][n..]]
    {
      hide RowsOf, RowOk, CopySome;
      ghost var rows := RowsOf(chars[..]);
      RowAt(rows, dst);
      RowAt(rows, src);
      ghost var r, q := rows[dst], rows[src];
      var k := 0;
      CopyStart(r, q, from);
      while k < n
        invariant 0 <= k <= n
        invariant RowsOf(chars[..]) == rows[dst := CopySome(r, q, from, k)]
      {
        CopyStep(r, q, from, k);
        var c := GetChar(src, from + k);
        SetChar(dst, k, c);
        k := k + 1;
      }
      CopyIs(r, q, from, n);
    }

    /** strcpy(g_lines[dst], g_lines[src]) */
    method CopyRow(dst: nat, src: nat)
      requires chars.Length == SIZE && dst < MAX_LINES && src < MAX_LINES && dst != src && RowsOk(RowsOf(chars[..]))
      modifies chars
      ensures var rows := old(RowsOf(chars[..]));
        && RowOk(rows[dst]) && RowOk(rows[src])
        && RowsOf(chars[..]) == rows[dst := CopiedOver(rows[dst], rows[src])] && RowsOk(RowsOf(chars[..]))
    {
      hide CStr, RowsOf, RowOk, Put;
      ghost var rows := RowsOf(chars[..]);
      RowAt(rows, dst);
      RowAt(rows, src);
      RowLine(rows[src]);
      CopyString(dst, 0, src);
      CopyLine(rows[dst], rows[src]);
      RowSet(rows, dst, CopiedOver(rows[dst], rows[src]));
    }

    /** The loop that moves rows up for a newline. */
    method ShiftRowsUp(first: nat, n: nat)
      requires chars.Length == SIZE && 0 < first <= n < MAX_LINES && RowsOk(RowsOf(chars[..]))
      modifies chars
      ensures RowsOf(chars[..]) == ShiftedUp(old(RowsOf(chars[..])), first, n) && RowsOk(RowsOf(chars[..]))
    {
      hide RowsOf, RowOk, CopiedOver, ShiftedUp;
      ghost var rows := RowsOf(chars[..]);
      var i := n;
      UpStep(rows, n, n);
      while i > first
        invariant first <= i <= n && RowsOk(RowsOf(chars[..]))
        invariant RowsOf(chars[..]) == ShiftedUp(rows, i, n)
      {
        UpStep(rows, i, n);
        CopyRow(i, i - 1);
        i := i - 1;
      }
    }

    /** The loop that moves rows down after a join. */
    method ShiftRowsDown(first: nat, last: nat)
      requires chars.Length == SIZE && first <= last < MAX_LINES && RowsOk(RowsOf(chars[..]))
      modifies chars
      ensures RowsOf(chars[..]) == ShiftedDown(old(RowsOf(chars[..])), first, last) && RowsOk(RowsOf(chars[..]))
    {
      hide RowsOf, RowOk, CopiedOver, ShiftedDown;
      ghost var rows := RowsOf(chars[..]);
      var i := first;
      DownStep(rows, first, first);
      while i < last
        invariant first <= i <= last && RowsOk(RowsOf(chars[..]))
        invariant RowsOf(chars[..]) == ShiftedDown(rows, first, i)
      {
        DownStep(rows, first, i);
        CopyRow(i, i + 1);
        i := i + 1;
      }
    }

    // ---------- Operations ----------

    /** editor_insert_char */
    method InsertCharAt(ch: Byte)
      requires chars.Length == SIZE && Sane(View(), 200)
      modifies this, chars
      ensures View() == InsertChar(old(View()), ch) && modified == (old(modified) || View() != old(View()))
    {
      hide CStr, RowsOf, RowOk, InsertRow;
      RowAt(RowsOf(chars[..]), cy);
      RowLine(RowsOf(chars[..])[cy]);
      var len := StrLen(cy);
      if len >= MAX_LINE - 1 {
        return;
      }
      ShiftIn(cy, cx, ch, len);
      cx := cx + 1;
      modified := true;
    }

    /** editor_newline */
    method NewlineKey()
      requires chars.Length == SIZE && Sane(View(), 200)
      modifies this, chars
      ensures View() == BreakLine(old(View())) && modified == (old(modified) || View() != old(View()))
    {
      hide CStr, RowsOf, RowOk, ShiftedUp;
      if count >= MAX_LINES {
        return;
      }
      ghost var rows := RowsOf(chars[..]);
      RowAt(rows, cy);
      RowLine(rows[cy]);
      var len := StrLen(cy);
      var rest := if len > cx then len - cx else 0;
      UpKeeps(rows, cy + 1, count);
      ShiftRowsUp(cy + 1, count);
      CopyBytes(cy + 1, cy, cx, rest + 1);
      SetChar(cy, cx, 0);
      count := count + 1;
      cy := cy + 1;
      cx := 0;
      modified := true;
    }

    /** Row k + 1 appended to row k and the later rows moved down. */
    method JoinNext(k: nat, len: nat)
      requires chars.Length == SIZE && RowsOk(RowsOf(chars[..])) && k + 1 < count <= MAX_LINES
      requires var rows := RowsOf(chars[..]); len == |CStr(rows[k])| && len + |CStr(rows[k + 1])| < MAX_LINE - 1
      modifies this`count, chars
      ensures RowsOf(chars[..]) == JoinRows(old(View()), k) && count == old(count) - 1
    {
      hide CStr, RowsOf, RowOk, Put, ShiftedDown;
      ghost var rows := RowsOf(chars[..]);
      JoinedRow(rows, k);
      CopyString(k, len, k + 1);
      RowSet(rows, k, Put(rows[k], len, CStr(rows[k + 1])));
      ShiftRowsDown(k + 1, count - 1);
      count := count - 1;
    }

    /** editor_backspace */
    method BackspaceKey()
      requires chars.Length == SIZE && Sane(View(), 200)
      modifies this, chars
      ensures View() == BackspaceAt(old(View())) && (old(modified) || View() != old(View()) ==> modified)
    {
      hide CStr, RowsOf, RowOk, CloseRow, JoinRows;
      RowAt(RowsOf(chars[..]), cy);
      RowLine(RowsOf(chars[..])[cy]);
      if cx > 0 {
        Close(cy, cx - 1);
        cx := cx - 1;
        modified := true;
      } else if cy > 0 {
        var plen := StrLen(cy - 1);
        var len := StrLen(cy);
        if plen + len < MAX_LINE - 1 {
          JoinNext(cy - 1, plen);
          cy := cy - 1;
          cx := plen;
          modified := true;
        }
      }
    }

    /** editor_delete */
    method DeleteKey()
      requires chars.Length == SIZE && Sane(View(), 200)
      modifies this, chars
      ensures View() == DeleteAt(old(View())) && (old(modified) || View() != old(View()) ==> modified)
    {
      hide CStr, RowsOf, RowOk, CloseRow, JoinRows;
      RowAt(RowsOf(chars[..]), cy);
      RowLine(RowsOf(chars[..])[cy]);
      var c := GetChar(cy, cx);
      if c != 0 {
        Close(cy, cx);
        modified := true;
      } else if cy + 1 < count {
        var len := StrLen(cy);
        var next := StrLen(cy + 1);
        if len + next < MAX_LINE - 1 {
          JoinNext(cy, len);
          modified := true;
        }
      }
    }

    // ---------- Keys ----------

    /** editor_keyboard_event with the editor active: `cols` and `page` are the screen's columns and
        rows of text; `written` is what a save hands to fs_write_file. */
    method KeyEvent(key: Key, cols: nat, page: nat, writable: bool) returns (written: Option<seq<Byte>>)
      requires Valid() && TypableKey(key) && cols >= 10
      modifies this, chars
      ensures Valid() && View() == PressAt(old(View()), key, cols, page)
      ensures var ls := Shown(View()).lines;
        written == if key.Save? && writable && Saved(ls) != [] then Some(Saved(ls)) else None
    {
      hide RowsOf, RowOk, CStr, Sane, Shown, InsertChar, BreakLine, BackspaceAt, DeleteAt;
      SaneFacts(View());
      if key.Save? {
        written := Save(writable);
        return;
      }
      written := None;
      Act(key, page);
      PressIs(old(View()), key, cols, page);
      ghost var a := View();
      var len := StrLen(cy);
      if cx > len {
        cx := len;
      }
      if cx < 2 {
        cx := 2;
      }
      if cx >= cols {
        cx := cols - 1;
      }
      assert cx == Clamped(a.cx, len, cols);
      assert View() == a.(cx := cx);
    }

    /** The chain of key comparisons. */
    method Act(key: Key, page: nat)
      requires Valid() && TypableKey(key) && !key.Save?
      modifies this, chars
      ensures View() == ActAt(old(View()), key, page)
    {
      hide RowsOf, RowOk, CStr, Sane, Shown, InsertChar, BreakLine, BackspaceAt, DeleteAt;
      SaneFacts(View());
      match key
      case Up => if cy > 0 { cy := cy - 1; }
      case Down => if cy + 1 < count { cy := cy + 1; }
      case Left => if cx > 0 { cx := cx - 1; }
      case Right =>
        var len := StrLen(cy);
        if cx < len { cx := cx + 1; }
      case Home => cx := 0;
      case End =>
        var len := StrLen(cy);
        cx := len;
      case PageUp => cy := if cy < page then 0 else cy - page;
      case PageDown =>
        cy := cy + page;
        if cy >= count { cy := count - 1; }
      case Back => BackspaceKey();
      case Erase => DeleteKey();
      case Return => NewlineKey();
      case Letter(ch) => InsertCharAt(ch);
      case Tab =>
        TwoSpaces(View());
        InsertCharAt(SPACE);
        InsertCharAt(SPACE);
      case _ =>
    }

    // ---------- Files ----------

    /** The memcpy of editor_save, with the newline behind it. */
    method CopyOut(i: nat, len: nat, buf: array<Byte>, pos: nat)
      requires chars.Length == SIZE && i < MAX_LINES && RowsOk(RowsOf(chars[..])) && len == |CStr(RowsOf(chars[..])[i])|
      requires buf != chars && pos + len + 1 <= buf.Length
      modifies buf
      ensures buf[..pos + len + 1] == old(buf[..pos]) + CStr(RowsOf(chars[..])[i]) + [NEWLINE]
    {
      hide CStr, RowsOf, RowOk;
      RowAt(RowsOf(chars[..]), i);
      ghost var r := RowsOf(chars[..])[i];
      RowLine(r);
      var k := 0;
      while k < len
        invariant 0 <= k <= len && buf[..pos + k] == old(buf[..pos]) + CStr(r)[..k]
      {
        assert r[..len][k] == CStr(r)[k];
        buf[pos + k] := GetChar(i, k);
        k := k + 1;
      }
      buf[pos + len] := NEWLINE;
    }

    /** editor_save; `written` is what it hands to fs_write_file. */
    method Save(writable: bool) returns (written: Option<seq<Byte>>)
      requires chars.Length == SIZE && RowsOk(RowsOf(chars[..])) && 0 < count <= MAX_LINES
      modifies this`modified
      ensures View() == old(View()) && modified == (old(modified) && !writable)
      ensures var ls := Shown(View()).lines;
        written == if writable && Saved(ls) != [] then Some(Saved(ls)) else None
    {
      hide CStr, RowsOf, RowOk, Before, Fitting, Lines;
      if !writable {
        return None;
      }
      var buf := new Byte[SAVE_BUFFER];
      ghost var ls := Shown(View()).lines;
      var pos: nat, i: nat, full := 0, 0, false;
      assert ls[0..] == ls;
      NothingBefore();
      while i < count && !full
        invariant 0 <= i <= count && pos <= SAVE_BUFFER && buf[..pos] == Before(ls[..i])
        invariant Fitting(ls, 0) == if full then i else i + Fitting(ls[i..], pos)
        decreases count - i, !full
      {
        var len := StrLen(i);
        LinesAt(RowsOf(chars[..]), i);
        FittingStep(ls, i, pos);
        if pos + len + 1 > SAVE_BUFFER {
          full := true;
        } else {
          CopyOut(i, len, buf, pos);
          BeforeAppend(ls[..i], ls[i]);
          assert ls[..i + 1] == ls[..i] + [ls[i]];
          pos := pos + len + 1;
          i := i + 1;
        }
      }
      FittingNone(ls[i..], pos);
      modified := false;
      written := if pos > 0 then Some(buf[..pos]) else None;
    }

    /** editor_start; `data` holds the file's bytes when there is one. */
    method Start(data: Option<seq<Byte>>)
      requires chars.Length == SIZE && RowsOk(RowsOf(chars[..]))
      modifies this, chars
      ensures Valid() && !modified
      ensures Shown(View()) == Text(if data.Some? then Loaded(data.value) else [[]], 0, 0)
    {
      hide CStr, RowsOf, RowOk, ReadLines, Lines;
      Clear();
      count, cx, cy, modified := 1, 0, 0, false;
      if data.Some? {
        ReadRows(data.value);
        if count == 0 {
          count := 1;
          Clear();
        }
      }
    }

    /** The outer loop of editor_start. */
    method ReadRows(data: seq<Byte>)
      requires chars.Length == SIZE && RowsOk(RowsOf(chars[..]))
      modifies this`count, chars
      ensures count <= MAX_LINES && RowsOk(RowsOf(chars[..]))
      ensures Lines(RowsOf(chars[..]))[..count] == ReadLines(data, 0, MAX_LINES)
    {
      hide CStr, RowsOf, RowOk, ReadLines, ReadLine, Lines;
      var pos := 0;
      count := 0;
      ghost var all := ReadLines(data, 0, MAX_LINES);
      assert [] + all == all;
      while pos < |data| && count < MAX_LINES
        invariant 0 <= pos <= |data| && 0 <= count <= MAX_LINES
        invariant RowsOk(RowsOf(chars[..]))
        invariant all == Lines(RowsOf(chars[..]))[..count] + ReadLines(data, pos, MAX_LINES - count)
      {
        ghost var ls, next := Lines(RowsOf(chars[..])), Editor.NextLine(data, pos);
        ReadLinesStep(data, pos, MAX_LINES - count);
        pos := ReadRow(count, data, pos);
        NextOne(ls, count, next.0, ReadLines(data, next.1, MAX_LINES - count - 1));
        if pos < |data| && data[pos] == NEWLINE {
          pos := pos + 1;
        }
        count := count + 1;
      }
      ReadLinesEnd(data, pos, MAX_LINES - count);
      assert Lines(RowsOf(chars[..]))[..count] + [] == Lines(RowsOf(chars[..]))[..count];
    }

    /** `g_lines[0][0] = '\0'` */
    method Clear()
      requires chars.Length == SIZE && RowsOk(RowsOf(chars[..]))
      modifies chars
      ensures RowsOk(RowsOf(chars[..])) && Lines(RowsOf(chars[..]))[..1] == [[]]
    {
      hide CStr, RowsOf, RowOk, Lines, Put;
      ghost var rows := RowsOf(chars[..]);
      RowAt(rows, 0);
      SetChar(0, 0, 0);
      PutNothing(rows[0]);
      PutLine(rows[0], 0, []);
      RowSet(rows, 0, Put(rows[0], 0, []));
    }

    /** The inner loop of editor_start, with the terminator. */
    method ReadRow(i: nat, data: seq<Byte>, start: nat) returns (pos: nat)
      requires chars.Length == SIZE && i < MAX_LINES && start < |data| && RowsOk(RowsOf(chars[..]))
      modifies chars
      ensures RowsOk(RowsOf(chars[..]))
      ensures var (l, p) := ReadLine(data, start, 0);
        pos == p && Lines(RowsOf(chars[..])) == old(Lines(RowsOf(chars[..])))[i := l]
    {
      hide CStr, RowsOf, RowOk, Put, PutSome, ReadLine, Lines;
      ghost var rows := RowsOf(chars[..]);
      RowAt(rows, i);
      ghost var r, acc: seq<Byte> := rows[i], [];
      ghost var whole := ReadLine(data, start, 0);
      var col := 0;
      pos := start;
      assert [] + whole.0 == whole.0;
      NothingPut(r);
      while pos < |data| && data[pos] != NEWLINE && col < MAX_LINE - 1
        invariant start <= pos <= |data| && col == |acc| < MAX_LINE && AllPrintable(acc)
        invariant RowsOf(chars[..]) == rows[i := PutSome(r, 0, acc, col)]
        invariant whole == (acc + ReadLine(data, pos, col).0, ReadLine(data, pos, col).1)
        decreases |data| - pos
      {
        var ch := data[pos];
        ReadOne(data, pos, col);
        if Printable(ch) {
          PutMore(r, acc, ch);
          SetChar(i, col, ch);
          WholeSplit(acc, ch, ReadLine(data, pos + 1, col + 1).0);
          acc := acc + [ch];
          col := col + 1;
        }
        pos := pos + 1;
      }
      ReadEnd(data, pos, col);
      assert acc + [] == acc;
      assert whole == (acc, pos);
      PutEnd(r, 0, acc);
      SetChar(i, col, 0);
      PutLine(r, 0, acc);
      assert CStr(r)[..0] + acc == acc;
      RowSet(rows, i, Put(r, 0, acc));
      assert RowsOf(chars[..]) == rows[i := Put(r, 0, acc)];
      assert Lines(RowsOf(chars[..])) == Lines(rows)[i := acc];
    }
  }

  lemma SaneFacts(p: Page)
    requires Sane(p, 2)
    ensures Sane(p, 200) && RowsOk(p.rows) && p.cy < p.count <= MAX_LINES == |p.rows|
  {
  }

  lemma PressIs(p: Page, key: Key, cols: nat, page: nat)
    requires Sane(p, 2) && TypableKey(key) && cols >= 10
    ensures var d := ActAt(p, key, page); RowsOk(d.rows) && d.cy < d.count <= MAX_LINES == |d.rows|
    ensures Sane(PressAt(p, key, cols, page), 2)
    ensures var d := ActAt(p, key, page);
      PressAt(p, key, cols, page) == if key.Save? then p else d.(cx := Clamped(d.cx, |CStr(d.rows[d.cy])|, cols))
  {
    hide ActAt;
  }

  lemma PutNothing(r: Row)
    requires |r| == MAX_LINE
    ensures Stored(r, 0, 0) == Put(r, 0, [])
  {
  }

  lemma NothingPut(r: Row)
    requires |r| == MAX_LINE
    ensures PutSome(r, 0, [], 0) == r
  {
  }

  lemma PutMore(r: Row, acc: seq<Byte>, ch: Byte)
    requires |r| == MAX_LINE && |acc| < MAX_LINE - 1
    ensures |PutSome(r, 0, acc, |acc|)| == MAX_LINE
    ensures Stored(PutSome(r, 0, acc, |acc|), |acc|, ch) == PutSome(r, 0, acc + [ch], |acc| + 1)
  {
  }

  lemma WholeSplit(acc: seq<Byte>, ch: Byte, rest: seq<Byte>)
    ensures acc + ([ch] + rest) == acc + [ch] + rest
  {
  }

  lemma NothingBefore()
    ensures Before([]) == []
  {
  }

  lemma FittingStep(ls: seq<Line>, i: nat, used: nat)
    requires i < |ls|
    ensures Fitting(ls[i..], used) ==
      if used + |ls[i]| + 1 > SAVE_BUFFER then 0 else 1 + Fitting(ls[i + 1..], used + |ls[i]| + 1)
  {
    assert ls[i..][1..] == ls[i + 1..];
  }

  lemma FittingNone(ls: seq<Line>, used: nat)
    ensures ls == [] ==> Fitting(ls, used) == 0
  {
  }

  lemma ReadLinesStep(data: seq<Byte>, pos: nat, room: nat)
    requires pos < |data| && room > 0
    ensures ReadLines(data, pos, room) == 
      [Editor.NextLine(data, pos).0] + ReadLines(data, Editor.NextLine(data, pos).1, room - 1)
  {
  }

  lemma ReadLinesEnd(data: seq<Byte>, pos: nat, room: nat)
    requires pos <= |data| && (pos == |data| || room == 0)
    ensures ReadLines(data, pos, room) == []
  {
  }

  lemma NextOne(rows: seq<Line>, n: nat, l: Line, rest: seq<Line>)
    requires n < |rows|
    ensures rows[..n] + ([l] + rest) == rows[n := l][..n + 1] + rest
  {
  }

  lemma ReadOne(data: seq<Byte>, pos: nat, col: nat)
    requires pos < |data| && data[pos] != NEWLINE && col < MAX_LINE - 1
    ensures ReadLine(data, pos, col) ==
      if Printable(data[pos]) then
        ([data[pos]] + ReadLine(data, pos + 1, col + 1).0, ReadLine(data, pos + 1, col + 1).1)
      else ReadLine(data, pos + 1, col)
  {
  }

  lemma ReadEnd(data: seq<Byte>, pos: nat, col: nat)
    requires pos <= |data| && (pos == |data| || data[pos] == NEWLINE || col >= MAX_LINE - 1)
    ensures ReadLine(data, pos, col) == ([], pos)
  {
  }

  lemma UpStep(rows: seq<Row>, i: nat, n: nat)
    requires RowsOk(rows) && i <= n < MAX_LINES
    ensures ShiftedUp(rows, n, n) == rows
    ensures i > 0 ==>
      var up := ShiftedUp(rows, i, n);
      && RowOk(rows[i]) && RowOk(rows[i - 1]) && up[i] == rows[i] && up[i - 1] == rows[i - 1]
      && up[i := CopiedOver(rows[i], rows[i - 1])] == ShiftedUp(rows, i - 1, n)
  {
    hide CopiedOver, RowOk;
  }

  lemma DownStep(rows: seq<Row>, first: nat, i: nat)
    requires RowsOk(rows) && first <= i < MAX_LINES
    ensures ShiftedDown(rows, first, first) == rows
    ensures i + 1 < MAX_LINES ==>
      var down := ShiftedDown(rows, first, i);
      && RowOk(rows[i]) && RowOk(rows[i + 1]) && down[i] == rows[i] && down[i + 1] == rows[i + 1]
      && down[i := CopiedOver(rows[i], rows[i + 1])] == ShiftedDown(rows, first, i + 1)
  {
    hide CopiedOver, RowOk;
  }

  /** A row whose first k bytes are those of q from `from` on. */
  function CopySome(r: Row, q: Row, from: nat, k: nat): Row
    requires from + k <= |q| && k <= |r|
  {
    q[from..from + k] + r[k..]
  }

  lemma CopyStart(r: Row, q: Row, from: nat)
    requires from <= |q|
    ensures CopySome(r, q, from, 0) == r
  {
  }

  lemma CopyStep(r: Row, q: Row, from: nat, k: nat)
    requires from + k < |q| && k < |r|
    ensures |CopySome(r, q, from, k)| == |r|
      && Stored(CopySome(r, q, from, k), k, q[from + k]) == CopySome(r, q, from, k + 1)
  {
  }

  lemma CopyIs(r: Row, q: Row, from: nat, n: nat)
    requires from + n <= |q| && n <= |r|
    ensures CopySome(r, q, from, n) == q[from..from + n] + r[n..]
  {
  }

  /** A row with the first k bytes of s stored at `at`. */
  function PutSome(r: Row, at: nat, s: seq<Byte>, k: nat): Row
    requires k <= |s| && at + |s| < |r|
  {
    r[..at] + s[..k] + r[at + k..]
  }

  lemma PutStart(r: Row, at: nat, s: seq<Byte>)
    requires at + |s| < |r|
    ensures PutSome(r, at, s, 0) == r
  {
  }

  lemma PutStep(r: Row, q: Row, at: nat, s: seq<Byte>, k: nat)
    requires k < |s| <= |q| && at + |s| < |r| && q[..|s|] == s
    ensures |PutSome(r, at, s, k)| == |r| && Stored(PutSome(r, at, s, k), at + k, q[k]) == PutSome(r, at, s, k + 1)
  {
    assert q[k] == q[..|s|][k];
  }

  lemma PutEnd(r: Row, at: nat, s: seq<Byte>)
    requires at + |s| < |r|
    ensures |PutSome(r, at, s, |s|)| == |r| && Stored(PutSome(r, at, s, |s|), at + |s|, 0) == Put(r, at, s)
  {
  }

  lemma BlankRows(b: seq<Byte>)
    requires |b| == SIZE && forall j :: 0 <= j < SIZE ==> b[j] == 0
    ensures RowsOk(RowsOf(b)) && Lines(RowsOf(b))[..1] == [[]]
  {
    forall i | 0 <= i < MAX_LINES
      ensures RowOk(RowsOf(b)[i])
    {
      assert forall k :: 0 <= k < MAX_LINE ==> RowsOf(b)[i][k] == b[MAX_LINE * i + k];
    }
    assert RowsOf(b)[0][0] == b[0];
  }
}
