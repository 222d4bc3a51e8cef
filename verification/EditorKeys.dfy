/** The key handler of the editor: an operation, then the clamp of the cursor's column. */
module EditorKeys {
  import opened Machine
  import opened Editor

  const SPACE: Byte := 0x20

  /** The keys of editor_keyboard_event that leave the editor open. */
  datatype Key = Letter(ch: Byte) | Tab | Return | Back | Erase | Up | Down | Left | Right | Home | End
               | PageUp | PageDown | Other | Save

  predicate TypableKey(key: Key) {
    key.Letter? ==> Printable(key.ch)
  }

  /** The last lines of editor_keyboard_event, for a screen of `cols` columns. */
  function Clamped(cx: nat, len: nat, cols: nat): int {
    var c := if cx > len then len else cx;
    var d := if c < 2 then 2 else c;
    if d >= cols then cols - 1 else d
  }

  /** The clamp leaves the cursor on its line exactly when the line has two characters or more. */
  lemma ClampIff(cx: nat, len: nat, cols: nat)
    requires cols >= 10
    ensures Clamped(cx, len, cols) <= len <==> len >= 2
  {
  }

  // ---------- One key ----------

  /** What a key does before the clamp, for a screen of `page` rows of text. */
  function Act(t: Text, key: Key, page: nat): (d: Text)
    requires OnLine(t)
    ensures d.cy < |d.lines|
  {
    match key
    case Letter(ch) => Insert(t, ch)
    case Tab => Insert(Insert(t, SPACE), SPACE)
    case Return => Newline(t)
    case Back => Backspace(t)
    case Erase => Delete(t)
    case Up => if t.cy > 0 then t.(cy := t.cy - 1) else t
    case Down => if t.cy + 1 < |t.lines| then t.(cy := t.cy + 1) else t
    case Left => if t.cx > 0 then t.(cx := t.cx - 1) else t
    case Right => if t.cx < |Current(t)| then t.(cx := t.cx + 1) else t
    case Home => t.(cx := 0)
    case End => t.(cx := |Current(t)|)
    case PageUp => t.(cy := if t.cy < page then 0 else t.cy - page)
    case PageDown => t.(cy := if t.cy + page >= |t.lines| then |t.lines| - 1 else t.cy + page)
    case Other => t
    case Save => t
  }

  function Clamp(t: Text, cols: nat): Text
    requires t.cy < |t.lines| && cols > 0
  {
    t.(cx := Clamped(t.cx, |t.lines[t.cy]|, cols))
  }

  /** editor_keyboard_event; a save returns before the clamp. */
  function Press(t: Text, key: Key, cols: nat, page: nat): Text
    requires OnLine(t) && cols > 0
  {
    if key.Save? then t else Clamp(Act(t, key, page), cols)
  }

  function EditKey(e: Edit): Key {
    match e
    case Type(ch) => Letter(ch)
    case Enter => Return
    case Rubout => Back
    case Del => Erase
  }

  function Min(a: int, b: int): int {
    if a <= b then a else b
  }

  /** A key is the edit alone exactly when the edit leaves the column between 2 and the end of the
      line or of the screen. */
  lemma KeyIsEditIff(t: Text, e: Edit, cols: nat, page: nat)
    requires Valid(t) && cols >= 10
    ensures var d := Apply(t, e);
      && d.cy < |d.lines|
      && (Press(t, EditKey(e), cols, page) == d <==> 2 <= d.cx <= Min(|d.lines[d.cy]|, cols - 1))
  {
    hide Insert, Newline, Backspace, Delete, Editable;
    EditOnLine(t, e);
  }

  lemma EditOnLine(t: Text, e: Edit)
    requires OnLine(t)
    ensures OnLine(Apply(t, e))
  {
  }

  /** Two letters typed at the start of the line "ab": the clamp moves in between. */
  lemma TypedAroundClamp(x: Byte, y: Byte, cols: nat, page: nat)
    requires cols >= 10
    ensures var t := Text([[0x61, 0x62]], 0, 0);
      var u := Press(t, Letter(x), cols, page);
      OnLine(t) && OnLine(u) && Press(u, Letter(y), cols, page).lines == [[x, 0x61, y, 0x62]]
  {
    var t := Text([[0x61, 0x62]], 0, 0);
    var u := Press(t, Letter(x), cols, page);
    var l: Line := [0x61, 0x62];
    assert l[..0] + [x] + l[0..] == [x, 0x61, 0x62];
    assert Insert(t, x).lines == [[x, 0x61, 0x62]];
    assert u == Text([[x, 0x61, 0x62]], 2, 0);
    var m: Line := [x, 0x61, 0x62];
    assert m[..2] + [y] + m[2..] == [x, 0x61, y, 0x62];
  }

  // ---------- Runs of keys ----------

  /** What happens to the string: an edit, the cursor moved along its line, or put somewhere. */
  datatype Move = Do(e: Edit) | Shift(delta: int) | GoTo(at: nat)

  function Obey(f: Flat, m: Move): (d: Flat)
    requires f.at <= |f.text|
    ensures d.at <= |d.text|
  {
    match m
    case Do(e) => Ideal(f, e)
    case Shift(delta) => if 0 <= f.at + delta <= |f.text| then Flat(f.text, f.at + delta) else f
    case GoTo(at) => if at <= |f.text| then Flat(f.text, at) else f
  }

  function ObeyAll(f: Flat, ms: seq<Move>): (d: Flat)
    requires f.at <= |f.text|
    ensures d.at <= |d.text|
    decreases |ms|
  {
    if ms == [] then f else ObeyAll(Obey(f, ms[0]), ms[1..])
  }

  /** The edit, unless a capacity guard refuses it. */
  function Unrefused(t: Text, e: Edit): seq<Move>
    requires OnLine(t)
  {
    if Refused(t, e) then [] else [Do(e)]
  }

  function ClampShift(t: Text, cols: nat): Move
    requires t.cy < |t.lines| && cols > 0
  {
    Shift(Clamped(t.cx, |t.lines[t.cy]|, cols) - t.cx)
  }

  predicate Vertical(key: Key) {
    key.Up? || key.Down? || key.PageUp? || key.PageDown?
  }

  /** The edits of a key and the cursor moves along the line, before the clamp. */
  function OwnMoves(t: Text, key: Key): seq<Move>
    requires OnLine(t)
  {
    match key
    case Letter(ch) => Unrefused(t, Type(ch))
    case Tab => Unrefused(t, Type(SPACE)) + Unrefused(Insert(t, SPACE), Type(SPACE))
    case Return => Unrefused(t, Enter)
    case Back => Unrefused(t, Rubout)
    case Erase => Unrefused(t, Del)
    case Left => if t.cx > 0 then [Shift(-1)] else []
    case Right => if t.cx < |Current(t)| then [Shift(1)] else []
    case Home => [Shift(0 - t.cx)]
    case End => [Shift(|Current(t)| - t.cx)]
    case _ => []
  }

  /** After its key the line under the cursor has at least two characters. */
  predicate Roomy(t: Text, key: Key, page: nat)
    requires OnLine(t)
  {
    key.Save? || var d := Act(t, key, page); |d.lines[d.cy]| >= 2
  }

  /** The moves of one key; a key that changes lines goes to the clamped column of the new line. */
  function Moves(t: Text, key: Key, cols: nat, page: nat): seq<Move>
    requires OnLine(t) && cols >= 10 && Roomy(t, key, page)
  {
    if key.Save? then []
    else
      var d := Act(t, key, page);
      ClampIff(d.cx, |d.lines[d.cy]|, cols);
      if Vertical(key) then [GoTo(Offset(Clamp(d, cols)))]
      else OwnMoves(t, key) + [ClampShift(d, cols)]
  }

  lemma {:induction false} ObeyTwo(f: Flat, a: seq<Move>, b: seq<Move>)
    requires f.at <= |f.text|
    ensures ObeyAll(f, a + b) == ObeyAll(ObeyAll(f, a), b)
    decreases |a|
  {
    hide Obey;
    if a == [] {
      assert a + b == b;
    } else {
      assert (a + b)[1..] == a[1..] + b;
      ObeyTwo(Obey(f, a[0]), a[1..], b);
    }
  }

  lemma ObeyOne(f: Flat, m: Move)
    requires f.at <= |f.text|
    ensures ObeyAll(f, [m]) == Obey(f, m)
  {
  }

  lemma UnrefusedFollows(t: Text, e: Edit)
    requires Valid(t) && (e.Type? ==> Printable(e.ch))
    ensures Valid(Apply(t, e)) && Flatten(t).at <= |Flatten(t).text|
    ensures Flatten(Apply(t, e)) == ObeyAll(Flatten(t), Unrefused(t, e))
  {
    hide Flatten, Refused, Ideal, Apply, Editable;
    EditIsIdeal(t, e);
    ObeyOne(Flatten(t), Do(e));
  }

  /** Moving along the line moves the offset by as much. */
  lemma ShiftFollows(t: Text, cx: nat)
    requires Valid(t) && cx <= |Current(t)|
    ensures Valid(t.(cx := cx)) && Flatten(t).at <= |Flatten(t).text|
    ensures Flatten(t.(cx := cx)) == Obey(Flatten(t), Shift(cx - t.cx))
  {
    hide Joined, Before, Editable;
    Ends(t);
    Ends(t.(cx := cx));
  }

  lemma GoToFollows(t: Text, u: Text)
    requires Valid(t) && Valid(u) && u.lines == t.lines
    ensures Flatten(t).at <= |Flatten(t).text|
    ensures Flatten(u) == Obey(Flatten(t), GoTo(Offset(u)))
  {
    hide Joined, Before, Editable, Offset;
    Ends(t);
    Ends(u);
  }

  lemma OwnMovesFollow(t: Text, key: Key, page: nat)
    requires Valid(t) && TypableKey(key) && !Vertical(key)
    ensures Valid(Act(t, key, page)) && Flatten(t).at <= |Flatten(t).text|
    ensures Flatten(Act(t, key, page)) == ObeyAll(Flatten(t), OwnMoves(t, key))
  {
    hide Flatten, Obey, Refused, Insert, Newline, Backspace, Delete, Editable;
    Within(t);
    match key
    case Letter(ch) => UnrefusedFollows(t, Type(ch));
    case Tab =>
      UnrefusedFollows(t, Type(SPACE));
      UnrefusedFollows(Insert(t, SPACE), Type(SPACE));
      ObeyTwo(Flatten(t), Unrefused(t, Type(SPACE)), Unrefused(Insert(t, SPACE), Type(SPACE)));
    case Return => UnrefusedFollows(t, Enter);
    case Back => UnrefusedFollows(t, Rubout);
    case Erase => UnrefusedFollows(t, Del);
    case Left => AlongLine(t, Act(t, key, page).cx);
    case Right => AlongLine(t, Act(t, key, page).cx);
    case Home => AlongLine(t, 0);
    case End => AlongLine(t, |Current(t)|);
    case _ =>
  }

  lemma AlongLine(t: Text, cx: nat)
    requires Valid(t) && cx <= |Current(t)|
    ensures Valid(t.(cx := cx)) && Flatten(t).at <= |Flatten(t).text|
    ensures Flatten(t.(cx := cx)) == ObeyAll(Flatten(t), [Shift(cx - t.cx)])
  {
    hide Flatten, Obey, Editable;
    ShiftFollows(t, cx);
    ObeyOne(Flatten(t), Shift(cx - t.cx));
  }

  /** One key: its edits that no guard refuses, then the exact move of the clamp. */
  lemma KeyFollows(t: Text, key: Key, cols: nat, page: nat)
    requires Valid(t) && TypableKey(key) && cols >= 10 && Roomy(t, key, page)
    ensures Valid(Press(t, key, cols, page)) && Flatten(t).at <= |Flatten(t).text|
    ensures Flatten(Press(t, key, cols, page)) == ObeyAll(Flatten(t), Moves(t, key, cols, page))
  {
    hide Flatten, Obey, OwnMoves, Clamped, Editable;
    Within(t);
    if !key.Save? {
      var d := Act(t, key, page);
      ClampIff(d.cx, |d.lines[d.cy]|, cols);
      var u := Clamp(d, cols);
      if Vertical(key) {
        GoToFollows(t, u);
        ObeyOne(Flatten(t), GoTo(Offset(u)));
      } else {
        OwnMovesFollow(t, key, page);
        ShiftFollows(d, u.cx);
        ObeyOne(Flatten(d), ClampShift(d, cols));
        ObeyTwo(Flatten(t), OwnMoves(t, key), [ClampShift(d, cols)]);
      }
    }
  }

  /** Every key of the run is typable and leaves a line of two characters or more. */
  predicate AllRoomy(t: Text, keys: seq<Key>, cols: nat, page: nat)
    requires Valid(t) && cols >= 10
    decreases |keys|
  {
    keys == [] || (
      && TypableKey(keys[0]) && Roomy(t, keys[0], page)
      && (KeyFollows(t, keys[0], cols, page); AllRoomy(Press(t, keys[0], cols, page), keys[1..], cols, page)))
  }

  function PressAll(t: Text, keys: seq<Key>, cols: nat, page: nat): (d: Text)
    requires Valid(t) && cols >= 10 && AllRoomy(t, keys, cols, page)
    ensures Valid(d)
    decreases |keys|
  {
    if keys == [] then t
    else KeyFollows(t, keys[0], cols, page); PressAll(Press(t, keys[0], cols, page), keys[1..], cols, page)
  }

  function AllMoves(t: Text, keys: seq<Key>, cols: nat, page: nat): seq<Move>
    requires Valid(t) && cols >= 10 && AllRoomy(t, keys, cols, page)
    decreases |keys|
  {
    if keys == [] then []
    else
      KeyFollows(t, keys[0], cols, page);
      Moves(t, keys[0], cols, page) + AllMoves(Press(t, keys[0], cols, page), keys[1..], cols, page)
  }

  /** Over every run of keys that leave lines of two characters or more, the text is that of the
      ideal edits, interleaved with the moves of cursor keys and clamp. */
  lemma {:induction false} RunFollows(t: Text, keys: seq<Key>, cols: nat, page: nat)
    requires Valid(t) && cols >= 10 && AllRoomy(t, keys, cols, page)
    ensures Flatten(t).at <= |Flatten(t).text|
    ensures Flatten(PressAll(t, keys, cols, page)) == ObeyAll(Flatten(t), AllMoves(t, keys, cols, page))
    decreases |keys|
  {
    hide Flatten, Obey, Press, Moves, Roomy;
    Within(t);
    if keys != [] {
      KeyFollows(t, keys[0], cols, page);
      var u := Press(t, keys[0], cols, page);
      RunFollows(u, keys[1..], cols, page);
      ObeyTwo(Flatten(t), Moves(t, keys[0], cols, page), AllMoves(u, keys[1..], cols, page));
    }
  }
}
