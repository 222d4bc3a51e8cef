/** Where the cursor keys of the editor take the cursor. */
module EditorCursor {
  import opened Machine
  import opened Editor
  import opened EditorKeys
  import opened EditorRows

  /** The number nearest to x from lo to hi. */
  function Nearest(x: int, lo: int, hi: int): int {
    if x > hi then hi else if x < lo then lo else x
  }

  /** Lines that a key moves down; negative for up. */
  function LinesDown(key: Key, page: nat): int {
    match key
    case Up => -1
    case Down => 1
    case PageUp => 0 - page
    case PageDown => page
    case _ => 0
  }

  /** The column a key heads for on a line of `len` characters. */
  function Heading(key: Key, cx: nat, len: nat): int {
    match key
    case Left => cx - 1
    case Right => cx + 1
    case Home => 0
    case End => len
    case _ => cx
  }

  predicate CursorKey(key: Key) {
    Vertical(key) || key.Left? || key.Right? || key.Home? || key.End?
  }

  /** A cursor key changes no row. It goes its number of lines up or down, as far as there are lines,
      and to the column it heads for, as far as the line reaches and the screen shows, but never to
      the left of column 2. */
  lemma CursorKeyMoves(p: Page, key: Key, cols: nat, page: nat)
    requires Sane(p, 2) && cols >= 10 && CursorKey(key)
    ensures var d := PressAt(p, key, cols, page);
      && d.rows == p.rows && d.count == p.count && d.cy < |d.rows|
      && d.cy == Nearest(p.cy + LinesDown(key, page), 0, p.count - 1)
      && d.cx == Nearest(Nearest(Heading(key, p.cx, |CStr(p.rows[p.cy])|), 0, |CStr(d.rows[d.cy])|), 2, cols - 1)
  {
    hide RowOk, CStr, InsertChar, BreakLine, BackspaceAt, DeleteAt, Shown, Act;
  }

  function PressTimes(p: Page, key: Key, n: nat, cols: nat, page: nat): (d: Page)
    requires Sane(p, 2) && cols >= 10 && CursorKey(key)
    ensures Sane(d, 2)
  {
    if n == 0 then p else PressAt(PressTimes(p, key, n - 1, cols, page), key, cols, page)
  }

  /** n times the step. */
  function Far(n: nat, step: int): int {
    n * step
  }

  /** Held down, a key goes as many lines as it is repeated, up to the first line or the last. */
  lemma {:induction false} LinesAfter(p: Page, key: Key, n: nat, cols: nat, page: nat)
    requires Sane(p, 2) && cols >= 10 && CursorKey(key)
    ensures var d := PressTimes(p, key, n, cols, page);
      && d.rows == p.rows && d.count == p.count
      && d.cy == Nearest(p.cy + Far(n, LinesDown(key, page)), 0, p.count - 1)
  {
    hide PressAt, Sane, LinesDown, Nearest, Far;
    Inside(p);
    OnceMore(p.cy, p.count - 1, LinesDown(key, page), 0);
    if n > 0 {
      LinesAfter(p, key, n - 1, cols, page);
      OneKey(PressTimes(p, key, n - 1, cols, page), key, cols, page);
      OnceMore(p.cy, p.count - 1, LinesDown(key, page), n - 1);
    }
  }

  lemma OneKey(p: Page, key: Key, cols: nat, page: nat)
    requires Sane(p, 2) && cols >= 10 && CursorKey(key)
    ensures var d := PressAt(p, key, cols, page);
      d.rows == p.rows && d.count == p.count && d.cy == Nearest(p.cy + LinesDown(key, page), 0, p.count - 1)
  {
    hide PressAt, Sane, LinesDown, Nearest;
    CursorKeyMoves(p, key, cols, page);
  }

  lemma Inside(p: Page)
    requires Sane(p, 2)
    ensures 0 <= p.cy <= p.count - 1 && Nearest(p.cy, 0, p.count - 1) == p.cy
  {
  }

  lemma OnceMore(x: int, hi: int, step: int, n: nat)
    requires 0 <= x <= hi
    ensures Far(0, step) == 0
    ensures Nearest(Nearest(x + Far(n, step), 0, hi) + step, 0, hi) == Nearest(x + Far(n + 1, step), 0, hi)
  {
    FarSteps(n, step);
    hide Far;
  }

  lemma FarSteps(n: nat, step: int)
    ensures Far(0, step) == 0 && Far(n + 1, step) == Far(n, step) + step
    ensures if step >= 0 then Far(n, step) >= 0 else Far(n, step) <= 0
  {
  }

  /** A page down is `page` times down, and a page up `page` times up, as far as lines go. */
  lemma PageIsLines(p: Page, cols: nat, page: nat)
    requires Sane(p, 2) && cols >= 10
    ensures PressAt(p, PageDown, cols, page).cy == PressTimes(p, Down, page, cols, page).cy
    ensures PressAt(p, PageUp, cols, page).cy == PressTimes(p, Up, page, cols, page).cy
  {
    hide PressAt, Sane;
    CursorKeyMoves(p, PageDown, cols, page);
    CursorKeyMoves(p, PageUp, cols, page);
    LinesAfter(p, Down, page, cols, page);
    LinesAfter(p, Up, page, cols, page);
  }
}
