/** The snake game: what every key and every timer tick keep. */
module Snake {
  import opened Machine

  const MAX_COLS := 96
  const MAX_ROWS := 64
  const MAX_CELLS := MAX_COLS * MAX_ROWS
  const FOOD_ATTEMPTS := 4096

  datatype Cell = Cell(x: int, y: int)
  datatype Dir = Up | Right | Down | Left
  datatype Mode = Splash | Play | Paused | GameOver

  /** q and ESC, ENTER and space, p, w, d, s, a, and the rest. */
  datatype Key = Quit | Go | Pause | KeyUp | KeyRight | KeyDown | KeyLeft | OtherKey

  datatype Game = Game(cols: int, rows: int, active: bool, mode: Mode, dir: Dir, next: Dir, acc: nat, div: nat,
                       body: seq<Cell>, food: Cell, score: nat, rng: U32)

  /** The low word of g_ticks at each draw of one call. */
  type Ticks = nat -> U32

  // ---------- The grid ----------

  /** C's division for a positive divisor. */
  function TruncDiv(a: int, b: int): int
    requires b > 0
  {
    if a >= 0 then a / b else -((-a) / b)
  }

  function Clamp(x: int, lo: int, hi: int): int {
    if x < lo then lo else if x > hi then hi else x
  }

  /** Side of a cell in pixels. */
  function CellSize(width: int, height: int): int
    requires width > 0 && height > 0
  {
    var cw, ch := width / 40, TruncDiv(height - 16, 23);
    Clamp(if cw < ch then cw else ch, 8, 32)
  }

  /** compute_grid: columns and rows for a screen. */
  function Grid(width: int, height: int): (g: (int, int))
    ensures 10 <= g.0 <= MAX_COLS && 10 <= g.1 <= MAX_ROWS
  {
    if width <= 0 || height <= 0 then (40, 23)
    else
      var size := CellSize(width, height);
      (Clamp(width / size, 10, MAX_COLS), Clamp(TruncDiv(height - 16, size), 10, MAX_ROWS))
  }

  predicate OnGrid(c: Cell, cols: int, rows: int) {
    0 <= c.x < cols && 0 <= c.y < rows
  }

  function Toward(c: Cell, d: Dir): Cell {
    match d
    case Up => Cell(c.x, c.y - 1)
    case Right => Cell(c.x + 1, c.y)
    case Down => Cell(c.x, c.y + 1)
    case Left => Cell(c.x - 1, c.y)
  }

  function Opposite(d: Dir): Dir {
    match d
    case Up => Down
    case Right => Left
    case Down => Up
    case Left => Right
  }

  predicate Adjacent(a: Cell, b: Cell) {
    exists d: Dir :: a == Toward(b, d)
  }

  // ---------- Food ----------

  /** rng_next */
  function NextRandom(rng: U32, tick: U32): U32 {
    (rng * 1664525 + 1013904223 + tick) % 0x1_0000_0000
  }

  /** place_food from attempt `att` on: the generator and the food it ends with. */
  function Search(body: seq<Cell>, cols: int, rows: int, rng: U32, ticks: Ticks, att: nat): (r: (U32, Cell))
    requires cols > 0 && rows > 0
    decreases FOOD_ATTEMPTS - att
  {
    if att >= FOOD_ATTEMPTS then (rng, Cell(0, 0))
    else
      var rx := NextRandom(rng, ticks(2 * att));
      var ry := NextRandom(rx, ticks(2 * att + 1));
      var c := Cell(rx % cols, ry % rows);
      if c !in body then (ry, c) else Search(body, cols, rows, ry, ticks, att + 1)
  }

  function PlaceFood(g: Game, ticks: Ticks): Game
    requires g.cols > 0 && g.rows > 0
  {
    if |g.body| >= g.cols * g.rows then g
    else
      var (rng, food) := Search(g.body, g.cols, g.rows, g.rng, ticks, 0);
      g.(rng := rng, food := food)
  }

  /** The food lies on the grid, and off the snake unless it is the fallback cell. */
  lemma {:induction false} FoodFree(body: seq<Cell>, cols: int, rows: int, rng: U32, ticks: Ticks, att: nat)
    requires cols > 0 && rows > 0
    ensures var c := Search(body, cols, rows, rng, ticks, att).1;
      OnGrid(c, cols, rows) && (c !in body || c == Cell(0, 0))
    decreases FOOD_ATTEMPTS - att
  {
    if att < FOOD_ATTEMPTS {
      var rx := NextRandom(rng, ticks(2 * att));
      var ry := NextRandom(rx, ticks(2 * att + 1));
      FoodFree(body, cols, rows, ry, ticks, att + 1);
    }
  }

  // ---------- Events ----------

  /** reset_round */
  function Reset(g: Game, ticks: Ticks): Game
    requires g.cols > 0 && g.rows > 0
  {
    var cx, cy := g.cols / 2, g.rows / 2;
    PlaceFood(g.(body := [Cell(cx, cy), Cell(cx - 1, cy), Cell(cx - 2, cy), Cell(cx - 3, cy)],
                 dir := Right, next := Right, acc := 0, score := 0, div := 6), ticks)
  }

  /** snake_start */
  function Launch(g: Game, width: int, height: int, seed: U32): Game {
    var (cols, rows) := Grid(width, height);
    g.(cols := cols, rows := rows, active := true, mode := Splash, score := 0, rng := seed)
  }

  /** snake_keyboard_event for a key press. */
  function Press(g: Game, key: Key, ticks: Ticks): Game
    requires g.cols > 0 && g.rows > 0
  {
    if !g.active then g
    else if g.mode.Splash? || g.mode.GameOver? then
      match key
      case Quit => g.(active := false)
      case Go => Reset(g, ticks).(mode := Play)
      case _ => g
    else
      match key
      case Quit => g.(active := false)
      case Pause => g.(mode := if g.mode.Paused? then Play else Paused)
      case _ => if g.mode.Play? then Steer(g, key) else g
  }

  function Steer(g: Game, key: Key): Game {
    if key.KeyUp? && g.dir != Down then g.(next := Up)
    else if key.KeyRight? && g.dir != Left then g.(next := Right)
    else if key.KeyDown? && g.dir != Up then g.(next := Down)
    else if key.KeyLeft? && g.dir != Right then g.(next := Left)
    else g
  }

  /** snake_timer_tick */
  function Tick(g: Game, ticks: Ticks): Game
    requires g.cols > 0 && g.rows > 0 && (g.mode.Play? ==> g.body != [])
  {
    if !g.active || !g.mode.Play? then g
    else if g.acc + 1 < g.div then g.(acc := g.acc + 1)
    else Move(g.(acc := 0, dir := g.next), ticks)
  }

  predicate Grows(g: Game)
    requires g.body != []
  {
    Toward(g.body[0], g.dir) == g.food
  }

  /** The next head leaves the grid or hits the part of the body that stays. */
  predicate Crashes(g: Game)
    requires g.body != []
  {
    var head := Toward(g.body[0], g.dir);
    !OnGrid(head, g.cols, g.rows) || head in g.body[..if Grows(g) then |g.body| else |g.body| - 1]
  }

  /** The body after a step; the code clamps its length to the number of cells. */
  function Moved(g: Game): seq<Cell>
    requires g.body != [] && g.cols > 0 && g.rows > 0
  {
    var len := if Grows(g) then |g.body| + 1 else |g.body|;
    var max := g.cols * g.rows;
    ([Toward(g.body[0], g.dir)] + g.body)[..if len > max then max else len]
  }

  /** ++g_score and the speed-up. */
  function Scored(g: Game): Game {
    g.(score := g.score + 1, div := if (g.score + 1) % 5 == 0 && g.div > 2 then g.div - 1 else g.div)
  }

  function Move(g: Game, ticks: Ticks): Game
    requires g.body != [] && g.cols > 0 && g.rows > 0
  {
    if Crashes(g) then g.(mode := GameOver)
    else
      var d := g.(body := Moved(g));
      if !Grows(g) then d
      else
        var s := Scored(d);
        if |s.body| >= s.cols * s.rows then s.(mode := GameOver) else PlaceFood(s, ticks)
  }

  // ---------- The invariant ----------

  predicate DistinctCells(body: seq<Cell>) {
    forall i, j :: 0 <= i < j < |body| ==> body[i] != body[j]
  }

  predicate Chain(body: seq<Cell>) {
    forall i :: 0 < i < |body| ==> Adjacent(body[i - 1], body[i])
  }

  predicate AllOnGrid(body: seq<Cell>, cols: int, rows: int) {
    forall i :: 0 <= i < |body| ==> OnGrid(body[i], cols, rows)
  }

  function Speed(score: nat): nat {
    if score / 5 >= 4 then 2 else 6 - score / 5
  }

  predicate BodyOk(g: Game) {
    && DistinctCells(g.body) && Chain(g.body) && AllOnGrid(g.body, g.cols, g.rows)
    && |g.body| == g.score + 4 && |g.body| <= g.cols * g.rows
    && g.div == Speed(g.score) && g.acc < g.div
  }

  /** While a round is on: the head is ahead of the neck, and no turn back is pending. */
  predicate Heading(g: Game) {
    && |g.body| >= 2 && g.body[0] == Toward(g.body[1], g.dir)
    && g.next != Opposite(g.dir) && |g.body| < g.cols * g.rows
    && OnGrid(g.food, g.cols, g.rows)
  }

  predicate Inv(g: Game) {
    && 10 <= g.cols <= MAX_COLS && 10 <= g.rows <= MAX_ROWS
    && (!g.mode.Splash? ==> BodyOk(g))
    && (g.mode.Play? || g.mode.Paused? ==> Heading(g))
  }

  lemma Product(a: nat, b: nat, c: nat, d: nat)
    requires a <= b && c <= d
    ensures a * c <= b * d
  {
    assert a * c <= b * c;
    assert c * b <= d * b;
  }

  lemma AreaBounds(cols: int, rows: int)
    requires 10 <= cols <= MAX_COLS && 10 <= rows <= MAX_ROWS
    ensures 100 <= cols * rows <= MAX_CELLS
  {
    Product(10, cols, 10, rows);
    Product(cols, MAX_COLS, rows, MAX_ROWS);
  }

  lemma ResetInv(g: Game, ticks: Ticks)
    requires 10 <= g.cols <= MAX_COLS && 10 <= g.rows <= MAX_ROWS
    ensures Inv(Reset(g, ticks).(mode := Play))
  {
    AreaBounds(g.cols, g.rows);
    var d := Reset(g, ticks);
    FoodFree(d.body, g.cols, g.rows, g.rng, ticks, 0);
    var b := d.body;
    assert b[0] == Toward(b[1], Right) && b[1] == Toward(b[2], Right) && b[2] == Toward(b[3], Right);
  }

  /** Once the head steps away from the neck it is not a cell of the neck or the head. */
  lemma StepsAway(c: Cell, d: Dir, e: Dir)
    requires e != Opposite(d)
    ensures Toward(Toward(c, d), e) != c && Toward(c, e) != c
  {
  }

  /** Cell i of a chain has the colour of the head on a chessboard exactly when i is even. */
  lemma {:induction false} Parity(body: seq<Cell>, i: nat)
    requires Chain(body) && i < |body|
    ensures (body[i].x + body[i].y + i) % 2 == (body[0].x + body[0].y) % 2
  {
    if i > 0 {
      Parity(body, i - 1);
      var d: Dir :| body[i - 1] == Toward(body[i], d);
    }
  }

  /** The snake can run only into its own cell 3, 5, 7 and so on. */
  lemma SelfCollisionOdd(g: Game, i: nat)
    requires Inv(g) && (g.mode.Play? || g.mode.Paused?) && i < |g.body|
    requires Toward(g.body[0], g.next) == g.body[i]
    ensures i >= 3 && i % 2 == 1
  {
    hide Toward, DistinctCells, Chain, AllOnGrid, Speed;
    StepsAway(g.body[1], g.dir, g.next);
    Parity(g.body, i);
    StepParity(g.body[0], g.next);
  }

  lemma StepParity(c: Cell, d: Dir)
    ensures (Toward(c, d).x + Toward(c, d).y) % 2 != (c.x + c.y) % 2
    ensures Toward(c, d) != c
  {
  }

  // ---------- Every event keeps the invariant ----------

  lemma Pushed(n: Cell, b: seq<Cell>, cols: int, rows: int)
    requires DistinctCells(b) && Chain(b) && AllOnGrid(b, cols, rows)
    requires b != [] && n !in b && OnGrid(n, cols, rows) && Adjacent(n, b[0])
    ensures DistinctCells([n] + b) && Chain([n] + b) && AllOnGrid([n] + b, cols, rows)
  {
    hide Adjacent, OnGrid;
    var d := [n] + b;
    assert forall i :: 0 < i < |d| ==> d[i] == b[i - 1];
    forall i | 0 < i < |d|
      ensures Adjacent(d[i - 1], d[i])
    {
      if i > 1 {
        assert d[i] == b[i - 1] && d[i - 1] == b[i - 2];
      }
    }
  }

  lemma Prefix(b: seq<Cell>, k: nat, cols: int, rows: int)
    requires k <= |b| && DistinctCells(b) && Chain(b) && AllOnGrid(b, cols, rows)
    ensures DistinctCells(b[..k]) && Chain(b[..k]) && AllOnGrid(b[..k], cols, rows)
  {
  }

  lemma SpeedStep(score: nat)
    ensures Speed(score + 1) == if (score + 1) % 5 == 0 && Speed(score) > 2 then Speed(score) - 1 else Speed(score)
    ensures 2 <= Speed(score) <= 6
  {
  }

  /** The body after a step that does not crash. */
  lemma MovedOk(g: Game)
    requires Inv(g) && g.mode.Play? && !Crashes(g.(dir := g.next))
    ensures var h := g.(dir := g.next); var b := Moved(h);
      && DistinctCells(b) && Chain(b) && AllOnGrid(b, g.cols, g.rows)
      && |b| == (if Grows(h) then |g.body| + 1 else |g.body|)
      && b[0] == Toward(g.body[0], g.next) && b[1] == g.body[0]
  {
    var h := g.(dir := g.next);
    var n := Toward(g.body[0], g.next);
    var k := if Grows(h) then |g.body| else |g.body| - 1;
    hide Adjacent, DistinctCells, Chain, AllOnGrid, Toward, Grows;
    Prefix(g.body, k, g.cols, g.rows);
    NextIsAdjacent(g.body[0], g.next);
    Pushed(n, g.body[..k], g.cols, g.rows);
    assert Moved(h) == [n] + g.body[..k];
  }

  lemma NextIsAdjacent(c: Cell, d: Dir)
    ensures Adjacent(Toward(c, d), c)
  {
  }

  lemma MoveInv(g: Game, ticks: Ticks)
    requires Inv(g) && g.mode.Play?
    ensures Inv(Move(g.(acc := 0, dir := g.next), ticks))
  {
    hide Adjacent, DistinctCells, Chain, AllOnGrid, Toward, Grows, Crashes, Moved, Search, Speed;
    SpeedStep(g.score);
    var h := g.(acc := 0, dir := g.next);
    if !Crashes(h) {
      SameCrash(g);
      MovedOk(g);
      TurnedAway(g.next);
      var b := Moved(h);
      FoodFree(b, g.cols, g.rows, g.rng, ticks, 0);
    }
  }

  /** The step does not depend on the move counter. */
  lemma SameCrash(g: Game)
    requires g.body != [] && g.cols > 0 && g.rows > 0
    ensures var h, k := g.(acc := 0, dir := g.next), g.(dir := g.next);
      Crashes(h) == Crashes(k) && Grows(h) == Grows(k) && Moved(h) == Moved(k)
  {
  }

  lemma TurnedAway(d: Dir)
    ensures d != Opposite(d)
  {
  }

  datatype Event = Started(width: int, height: int, seed: U32) | Pressed(key: Key, draws: Ticks) | Ticked(draws: Ticks)

  function Happen(g: Game, e: Event): Game
    requires g.cols > 0 && g.rows > 0 && (g.mode.Play? ==> g.body != [])
  {
    match e
    case Started(w, h, seed) => Launch(g, w, h, seed)
    case Pressed(key, draws) => Press(g, key, draws)
    case Ticked(draws) => Tick(g, draws)
  }

  lemma EventKeepsInv(g: Game, e: Event)
    requires Inv(g)
    ensures Inv(Happen(g, e))
  {
    hide DistinctCells, Chain, AllOnGrid, Reset, Move, Toward;
    match e
    case Started(w, h, seed) =>
    case Pressed(key, draws) => ResetInv(g, draws);
    case Ticked(draws) =>
      if g.mode.Play? {
        MoveInv(g, draws);
      }
  }

  function Run(g: Game, es: seq<Event>): (d: Game)
    requires Inv(g)
    ensures Inv(d)
    decreases |es|
  {
    if es == [] then g else EventKeepsInv(g, es[0]); Run(Happen(g, es[0]), es[1..])
  }

  /** Over every run of starts, keys and ticks: what holds of a game in progress. */
  lemma RunFacts(g: Game, es: seq<Event>)
    requires g.mode.Splash? && 10 <= g.cols <= MAX_COLS && 10 <= g.rows <= MAX_ROWS
    ensures Inv(g)
    ensures var d := Run(g, es);
      && (!d.mode.Splash? ==>
            && DistinctCells(d.body) && Chain(d.body) && AllOnGrid(d.body, d.cols, d.rows)
            && |d.body| == d.score + 4 <= d.cols * d.rows && d.div == Speed(d.score))
      && (d.mode.Play? || d.mode.Paused? ==>
            && d.next != Opposite(d.dir) && OnGrid(d.food, d.cols, d.rows)
            && (forall i :: 0 <= i < |d.body| && Toward(d.body[0], d.next) == d.body[i] ==> i >= 3 && i % 2 == 1))
  {
    hide DistinctCells, Chain, AllOnGrid, Toward, Run;
    var d := Run(g, es);
    if d.mode.Play? || d.mode.Paused? {
      forall i | 0 <= i < |d.body| && Toward(d.body[0], d.next) == d.body[i]
        ensures i >= 3 && i % 2 == 1
      {
        SelfCollisionOdd(d, i);
      }
    }
  }

  // ---------- A full board ----------

  function CellsOf(body: seq<Cell>): set<Cell> {
    set c | c in body
  }

  function GridCells(cols: nat, rows: nat): set<Cell> {
    set x, y | 0 <= x < cols && 0 <= y < rows :: Cell(x, y)
  }

  function RowCells(cols: nat, y: int): set<Cell> {
    set x | 0 <= x < cols :: Cell(x, y)
  }

  lemma {:induction false} DistinctCount(body: seq<Cell>)
    requires DistinctCells(body)
    ensures |CellsOf(body)| == |body|
  {
    if body != [] {
      DistinctCount(body[1..]);
      assert CellsOf(body) == CellsOf(body[1..]) + {body[0]};
      assert body[0] !in CellsOf(body[1..]);
    }
  }

  lemma {:induction false} RowCount(cols: nat, y: int)
    ensures |RowCells(cols, y)| == cols
  {
    if cols == 0 {
      assert RowCells(0, y) == {};
    } else {
      RowCount(cols - 1, y);
      assert RowCells(cols, y) == RowCells(cols - 1, y) + {Cell(cols - 1, y)};
    }
  }

  lemma OneRowMore(cols: nat, rows: int)
    ensures cols * rows == cols * (rows - 1) + cols
  {
  }

  lemma {:induction false} GridCount(cols: nat, rows: nat)
    ensures |GridCells(cols, rows)| == cols * rows
    decreases rows
  {
    if rows == 0 {
      assert GridCells(cols, 0) == {};
    } else {
      GridCount(cols, rows - 1);
      RowCount(cols, rows - 1);
      assert GridCells(cols, rows) == GridCells(cols, rows - 1) + RowCells(cols, rows - 1);
      assert GridCells(cols, rows - 1) !! RowCells(cols, rows - 1);
      OneRowMore(cols, rows);
    }
  }

  lemma SameSize(a: set<Cell>, b: set<Cell>)
    requires a <= b && |a| == |b|
    ensures a == b
  {
    assert b == a + (b - a);
  }

  /** The game that ends for want of room has filled every cell. */
  lemma FullBoard(g: Game, c: Cell)
    requires Inv(g) && !g.mode.Splash? && |g.body| == g.cols * g.rows && OnGrid(c, g.cols, g.rows)
    ensures c in g.body
  {
    hide DistinctCells, Chain, Speed, Heading;
    DistinctCount(g.body);
    GridCount(g.cols, g.rows);
    BodyInGrid(g.body, g.cols, g.rows);
    SameSize(CellsOf(g.body), GridCells(g.cols, g.rows));
    assert c == Cell(c.x, c.y);
    assert c in CellsOf(g.body);
  }

  lemma BodyInGrid(body: seq<Cell>, cols: nat, rows: nat)
    requires AllOnGrid(body, cols, rows)
    ensures CellsOf(body) <= GridCells(cols, rows)
  {
    forall c | c in CellsOf(body)
      ensures c in GridCells(cols, rows)
    {
      var i :| 0 <= i < |body| && body[i] == c;
      assert OnGrid(body[i], cols, rows);
    }
  }

  // ---------- Drawing ----------

  const HEAD_COLOR := 10
  const BODY_COLOR := 2

  /** The cells a full redraw of the snake fills, with their colours. */
  function Drawn(body: seq<Cell>): map<Cell, int>
    requires body != []
  {
    map c | c in body :: if c == body[0] then HEAD_COLOR else BODY_COLOR
  }

  /** The three cell updates of a tick: the tail's cell is cleared unless the snake grows, the old
      head becomes body, the new head is drawn. */
  function Repainted(screen: map<Cell, int>, body: seq<Cell>, head: Cell, grow: bool): map<Cell, int>
    requires body != []
  {
    var cleared := if grow then screen else screen - {body[|body| - 1]};
    cleared[body[0] := BODY_COLOR][head := HEAD_COLOR]
  }

  /** Updating the three cells gives what redrawing the whole snake would. */
  lemma RepaintMatches(g: Game)
    requires Inv(g) && g.mode.Play? && !Crashes(g.(dir := g.next))
    ensures var h := g.(dir := g.next);
      && Moved(h) != []
      && Repainted(Drawn(g.body), g.body, Toward(g.body[0], g.next), Grows(h)) == Drawn(Moved(h))
  {
    var h := g.(dir := g.next);
    var n, k := Toward(g.body[0], g.next), if Grows(h) then |g.body| else |g.body| - 1;
    hide Chain, AllOnGrid, Speed, Toward, Grows, OnGrid;
    assert Moved(h) == [n] + g.body[..k];
    RepaintBody(g.body, n, k);
  }

  lemma RepaintBody(body: seq<Cell>, n: Cell, k: nat)
    requires DistinctCells(body) && |body| >= 2 && |body| - 1 <= k <= |body| && n !in body[..k]
    ensures Repainted(Drawn(body), body, n, k == |body|) == Drawn([n] + body[..k])
  {
    var screen, b := Repainted(Drawn(body), body, n, k == |body|), [n] + body[..k];
    var tail := body[|body| - 1];
    assert body == body[..|body| - 1] + [tail];
    forall c
      ensures c in screen <==> c in b
      ensures c in screen ==> screen[c] == Drawn(b)[c]
    {
      PaintedCell(body, n, k, c);
    }
  }

  lemma PaintedCell(body: seq<Cell>, n: Cell, k: nat, c: Cell)
    requires DistinctCells(body) && |body| >= 2 && |body| - 1 <= k <= |body| && n !in body[..k]
    ensures var screen, b := Repainted(Drawn(body), body, n, k == |body|), [n] + body[..k];
      && (c in screen <==> c in b) && (c in screen ==> screen[c] == Drawn(b)[c])
  {
    if k == |body| {
      assert body[..k] == body;
    } else {
      assert body == body[..k] + [body[k]];
      assert body[k] !in body[..k];
      assert body[0] == body[..k][0];
    }
  }
}
