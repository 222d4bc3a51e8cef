/** The snake as its player sees it: what keys and ticks do to the head, the body and the score. */
module SnakePlay {
  import opened Machine
  import opened Snake

  // ---------- The screen ----------

  /** On every screen of at least 80 by 96 pixels the grid fits below the header, no column or row
      that would fit is missing up to 96 and 64, and cells are the largest, from 8 to 32 pixels, of
      which 40 columns and 23 rows fit. */
  lemma GridFits(width: int, height: int)
    requires width >= 80 && height >= 96
    ensures var ((cols, rows), size) := (Grid(width, height), CellSize(width, height));
      && cols * size <= width && 16 + rows * size <= height
      && (cols == 96 || (cols + 1) * size > width) && (rows == 64 || 16 + (rows + 1) * size > height)
      && 8 <= size <= 32
      && (size > 8 ==> 40 * size <= width && 16 + 23 * size <= height)
      && (size < 32 ==> 40 * (size + 1) > width || 16 + 23 * (size + 1) > height)
  {
    var size := CellSize(width, height);
    Columns(width, size, 96);
    Columns(height - 16, size, 64);
  }

  lemma Columns(pixels: int, size: int, max: int)
    requires 8 <= size <= 32 && pixels >= 10 * size && max >= 10
    ensures var n := Clamp(pixels / size, 10, max); n * size <= pixels && (n == max || (n + 1) * size > pixels)
  {
    var q := pixels / size;
    assert q * size <= pixels < (q + 1) * size by { DivBounds(pixels, size); }
    Times(10, q + 1, size);
    if q > max {
      Times(max, q, size);
    }
  }

  lemma DivBounds(a: int, b: int)
    requires b > 0
    ensures a / b * b <= a < (a / b + 1) * b
  {
  }

  lemma Times(a: int, b: int, c: int)
    requires c > 0
    ensures a <= b <==> a * c <= b * c
  {
  }

  // ---------- Ticks ----------

  function TickAll(g: Game, draws: seq<Ticks>): (d: Game)
    requires Inv(g)
    ensures Inv(d)
    decreases |draws|
  {
    if draws == [] then g else EventKeepsInv(g, Ticked(draws[0])); TickAll(Tick(g, draws[0]), draws[1..])
  }

  /** The snake moves with every g_tick_div-th tick and not before. */
  lemma {:induction false} MovesOnTime(g: Game, draws: seq<Ticks>)
    requires Inv(g) && g.active && g.mode.Play?
    ensures g.acc + |draws| < g.div ==> TickAll(g, draws) == g.(acc := g.acc + |draws|)
    ensures draws != [] && g.acc + |draws| == g.div ==>
      TickAll(g, draws) == Move(g.(acc := 0, dir := g.next), draws[|draws| - 1])
    decreases |draws|
  {
    hide Move, DistinctCells, Chain, AllOnGrid, Toward;
    if draws != [] && g.acc + |draws| <= g.div {
      EventKeepsInv(g, Ticked(draws[0]));
      var d := Tick(g, draws[0]);
      if |draws| == 1 {
        assert TickAll(d, draws[1..]) == d;
      } else {
        assert d == g.(acc := g.acc + 1);
        MovesOnTime(d, draws[1..]);
      }
    }
  }

  // ---------- One step ----------

  /** The cell a key points at. */
  function Target(head: Cell, key: Key): Cell {
    match key
    case KeyUp => Cell(head.x, head.y - 1)
    case KeyDown => Cell(head.x, head.y + 1)
    case KeyLeft => Cell(head.x - 1, head.y)
    case KeyRight => Cell(head.x + 1, head.y)
    case _ => head
  }

  predicate Arrow(key: Key) {
    key.KeyUp? || key.KeyDown? || key.KeyLeft? || key.KeyRight?
  }

  /** A cell the head cannot enter: off the grid or on the body, the tail excepted where it moves on. */
  predicate Blocked(g: Game, c: Cell) {
    || !(0 <= c.x < g.cols && 0 <= c.y < g.rows)
    || exists i :: 0 <= i < |g.body| && g.body[i] == c && (i < |g.body| - 1 || c == g.food)
  }

  /** What the step with the head to c leaves: a crash, or the head in front; the body grows by a cell
      and the score by one exactly where the food was. */
  predicate Stepped(g: Game, c: Cell, d: Game)
    requires g.body != []
  {
    if Blocked(g, c) then d.mode.GameOver? && d.body == g.body && d.score == g.score
    else
      && d.body == [c] + (if c == g.food then g.body else g.body[..|g.body| - 1])
      && d.score == (if c == g.food then g.score + 1 else g.score)
      && (d.mode.GameOver? <==> |d.body| == g.cols * g.rows) && (d.mode.GameOver? || d.mode.Play?)
  }

  lemma StepOutcome(g: Game, draws: Ticks)
    requires Inv(g) && g.mode.Play?
    ensures Stepped(g, Toward(g.body[0], g.next), Move(g.(acc := 0, dir := g.next), draws))
  {
    var h := g.(acc := 0, dir := g.next);
    var c := Toward(g.body[0], g.next);
    CrashIff(g, h, c);
    hide Toward, DistinctCells, Chain, AllOnGrid, Search, Blocked, Speed;
    if !Crashes(h) {
      assert [c] + g.body[..|g.body| - 1] == ([c] + g.body)[..|g.body|];
      assert [c] + g.body == ([c] + g.body)[..|g.body| + 1];
    }
  }

  lemma CrashIff(g: Game, h: Game, c: Cell)
    requires g.body != [] && c == Toward(g.body[0], g.next) && h == g.(acc := 0, dir := g.next)
    ensures Crashes(h) <==> Blocked(g, c)
    ensures Grows(h) <==> c == g.food
  {
    hide Toward;
    var n := if c == g.food then |g.body| else |g.body| - 1;
    if c in g.body[..n] {
      var i :| 0 <= i < n && g.body[..n][i] == c;
      assert g.body[i] == c;
    }
    if i :| 0 <= i < |g.body| && g.body[i] == c && (i < |g.body| - 1 || c == g.food) {
      assert g.body[..n][i] == c;
    }
  }

  /** An arrow key points the head at the next cell in its direction, and the step after as many ticks
      as are due takes it there; only a key that points at the neck is ignored. */
  lemma KeySteers(g: Game, key: Key, draw: Ticks, draws: seq<Ticks>)
    requires Inv(g) && g.active && g.mode.Play? && Arrow(key)
    requires draws != [] && g.acc + |draws| == g.div
    ensures var c := Target(g.body[0], key);
      if c == g.body[1] then Press(g, key, draw) == g
      else Inv(Press(g, key, draw)) && Stepped(g, c, TickAll(Press(g, key, draw), draws))
  {
    var p := Press(g, key, draw);
    EventKeepsInv(g, Pressed(key, draw));
    KeyPoints(g, key, draw);
    hide DistinctCells, Chain, AllOnGrid, Move, Steer, Press, Stepped, Toward, Target;
    if Target(g.body[0], key) != g.body[1] {
      MovesOnTime(p, draws);
      StepOutcome(p, draws[|draws| - 1]);
      SameStep(g, p, Target(g.body[0], key), TickAll(p, draws));
    }
  }

  lemma KeyPoints(g: Game, key: Key, draw: Ticks)
    requires Inv(g) && g.active && g.mode.Play? && Arrow(key)
    ensures var p := Press(g, key, draw);
      if Target(g.body[0], key) == g.body[1] then p == g
      else p == g.(next := p.next) && Toward(g.body[0], p.next) == Target(g.body[0], key)
  {
    hide DistinctCells, Chain, AllOnGrid;
  }

  lemma SameStep(g: Game, p: Game, c: Cell, d: Game)
    requires g.body != [] && p == g.(next := p.next) && Stepped(p, c, d)
    ensures Stepped(g, c, d)
  {
  }

  /** ENTER on the splash or after a game: four cells in a row, their head to the right in the middle
      of the grid, with the food elsewhere on it. */
  lemma NewRound(g: Game, draws: Ticks)
    requires g.active && (g.mode.Splash? || g.mode.GameOver?)
    requires 10 <= g.cols <= MAX_COLS && 10 <= g.rows <= MAX_ROWS
    ensures var d := Press(g, Go, draws);
      && Inv(d) && d.mode.Play? && d.active && d.score == 0 && d.acc == 0 && d.div == 6 && d.next == Right
      && |d.body| == 4 && (forall i :: 0 <= i < 4 ==> d.body[i] == Cell(g.cols / 2 - i, g.rows / 2))
      && OnGrid(d.food, d.cols, d.rows) && (d.food !in d.body || d.food == Cell(0, 0))
  {
    var d := Press(g, Go, draws);
    ResetInv(g, draws);
    AreaBounds(g.cols, g.rows);
    FoodFree(d.body, g.cols, g.rows, g.rng, draws, 0);
  }

  // ---------- Pausing ----------

  /** While paused no tick and no key but pause and quit changes anything, and a second pause resumes
      the game as it was. */
  lemma PauseHolds(g: Game, key: Key, draws: Ticks)
    requires Inv(g) && g.active && g.mode.Play?
    ensures var p := Press(g, Pause, draws);
      && p == g.(mode := Paused) && Inv(p) && Tick(p, draws) == p
      && (key != Pause && key != Quit ==> Press(p, key, draws) == p)
      && Press(p, Pause, draws) == g
  {
    hide DistinctCells, Chain, AllOnGrid;
  }

  // ---------- Starting and quitting ----------

  /** A start shows the splash on the grid of the screen; only ENTER and quit do anything there. */
  lemma StartShowsSplash(g: Game, width: int, height: int, seed: U32, key: Key, draws: Ticks)
    requires Inv(g)
    ensures var d := Happen(g, Started(width, height, seed));
      && d.active && d.mode.Splash? && d.score == 0 && d.rng == seed && (d.cols, d.rows) == Grid(width, height)
      && Tick(d, draws) == d && (key != Go && key != Quit ==> Press(d, key, draws) == d)
  {
  }

  predicate Restarts(es: seq<Event>) {
    exists i :: 0 <= i < |es| && es[i].Started?
  }

  /** Quitting ends the session in every mode: until the next start no key and no tick changes it. */
  lemma {:induction false} QuitEnds(g: Game, draws: Ticks, es: seq<Event>)
    requires Inv(g) && g.active && !Restarts(es)
    ensures var d := Press(g, Quit, draws); d == g.(active := false) && Inv(d) && Run(d, es) == d
  {
    hide Run, DistinctCells, Chain, AllOnGrid;
    EventKeepsInv(g, Pressed(Quit, draws));
    StaysEnded(Press(g, Quit, draws), es);
  }

  lemma {:induction false} StaysEnded(g: Game, es: seq<Event>)
    requires Inv(g) && !g.active && !Restarts(es)
    ensures Run(g, es) == g
    decreases |es|
  {
    hide DistinctCells, Chain, AllOnGrid;
    if es != [] {
      assert !es[0].Started?;
      assert Happen(g, es[0]) == g;
      assert forall i :: 0 <= i < |es[1..]| ==> es[1..][i] == es[i + 1];
      StaysEnded(g, es[1..]);
    }
  }

  // ---------- The generator ----------

  /** No state of the generator is lost: the one before can be computed back, at every tick. */
  lemma GeneratorReversible(rng: U32, tick: U32)
    ensures (NextRandom(rng, tick) - 1013904223 - tick) * 4276115653 % 0x1_0000_0000 == rng
  {
    var m := 0x1_0000_0000;
    var sum := rng * 1664525 + 1013904223 + tick;
    var q := sum / m;
    assert NextRandom(rng, tick) == sum - m * q;
    assert 1664525 * 4276115653 == 1 + m * 1657219;
    var n := rng * 1657219 - q * 4276115653;
    assert (NextRandom(rng, tick) - 1013904223 - tick) * 4276115653 == rng + m * n;
    ModPlus(rng, n);
  }

  lemma ModPlus(r: U32, n: int)
    ensures (r + 0x1_0000_0000 * n) % 0x1_0000_0000 == r
  {
  }
}
