/** The statics of snake.c, shifted and searched in place. */
module SnakeGame {
  import opened Machine
  import opened Snake

  /** The cells whose columns and rows are in the two arrays. */
  function Zip(a: seq<Byte>, b: seq<Byte>): (c: seq<Cell>)
    requires |a| == |b|
    ensures |c| == |a| && forall i :: 0 <= i < |c| ==> c[i] == Cell(a[i], b[i])
  {
    seq(|a|, i requires 0 <= i < |a| => Cell(a[i], b[i]))
  }

  class SnakeApp {
    var cols: int
    var rows: int
    var active: bool
    var mode: Mode
    var dir: Dir
    var next: Dir
    var acc: nat
    var div: nat
    var len: nat
    const xs: array<Byte>
    const ys: array<Byte>
    var fx: Byte
    var fy: Byte
    var score: nat
    var rng: U32

    constructor ()
      ensures Valid() && Inv(View()) && mode == Splash && !active
    {
      cols, rows, active, mode, dir, next := 40, 23, false, Splash, Right, Right;
      acc, div, len, fx, fy, score, rng := 0, 6, 0, 0, 0, 0, 0;
      xs := new Byte[MAX_CELLS](_ => 0);
      ys := new Byte[MAX_CELLS](_ => 0);
    }

    ghost predicate Valid()
      reads this
    {
      xs.Length == MAX_CELLS && ys.Length == MAX_CELLS && xs != ys && len <= MAX_CELLS
    }

    function Body(): (b: seq<Cell>)
      requires Valid()
      reads this, xs, ys
      ensures |b| == len
    {
      Zip(xs[..len], ys[..len])
    }

    function View(): Game
      requires Valid()
      reads this, xs, ys
    {
      Game(cols, rows, active, mode, dir, next, acc, div, Body(), Cell(fx, fy), score, rng)
    }

    /** occupied */
    method Occupied(x: Byte, y: Byte, limit: nat) returns (hit: bool)
      requires Valid() && limit <= len
      ensures hit <==> Cell(x, y) in Body()[..limit]
    {
      ghost var b := Body();
      var i := 0;
      while i < limit
        invariant 0 <= i <= limit && Cell(x, y) !in b[..i]
      {
        if xs[i] == x && ys[i] == y {
          assert b[..limit][i] == Cell(x, y);
          return true;
        }
        assert b[..i + 1] == b[..i] + [b[i]];
        i := i + 1;
      }
      return false;
    }

    /** rng_next */
    method Random(tick: U32) returns (r: U32)
      modifies this`rng
      ensures r == rng == NextRandom(old(rng), tick)
    {
      rng := (rng * 1664525 + 1013904223 + tick) % 0x1_0000_0000;
      r := rng;
    }

    /** place_food */
    method Place(ticks: Ticks)
      requires Valid() && 0 < cols <= MAX_COLS && 0 < rows <= MAX_ROWS
      modifies this`rng, this`fx, this`fy
      ensures Valid() && View() == PlaceFood(old(View()), ticks)
    {
      hide NextRandom, Zip;
      if len >= cols * rows {
        return;
      }
      ghost var whole := Search(Body(), cols, rows, rng, ticks, 0);
      assert Body()[..len] == Body();
      var attempt := 0;
      while attempt < FOOD_ATTEMPTS
        invariant 0 <= attempt <= FOOD_ATTEMPTS && Valid()
        invariant Search(Body(), cols, rows, rng, ticks, attempt) == whole
      {
        var rx := Random(ticks(2 * attempt));
        var ry := Random(ticks(2 * attempt + 1));
        var x: Byte, y: Byte := rx % cols, ry % rows;
        var hit := Occupied(x, y, len);
        if !hit {
          fx, fy := x, y;
          return;
        }
        attempt := attempt + 1;
      }
      fx, fy := 0, 0;
    }

    /** reset_round */
    method ResetRound(ticks: Ticks)
      requires Valid() && 10 <= cols <= MAX_COLS && 10 <= rows <= MAX_ROWS
      modifies this, xs, ys
      ensures Valid() && View() == Reset(old(View()), ticks)
    {
      hide PlaceFood, Zip;
      LayOut(cols / 2, rows / 2);
      dir, next, acc, score, div := Right, Right, 0, 0, 6;
      Place(ticks);
    }

    /** The four cells of a new snake. */
    method LayOut(cx: Byte, cy: Byte)
      requires Valid() && cx >= 3
      modifies this`len, xs, ys
      ensures Valid() && Body() == [Cell(cx, cy), Cell(cx - 1, cy), Cell(cx - 2, cy), Cell(cx - 3, cy)]
    {
      len := 4;
      xs[0], xs[1], xs[2], xs[3] := cx, cx - 1, cx - 2, cx - 3;
      ys[0], ys[1], ys[2], ys[3] := cy, cy, cy, cy;
    }

    /** snake_start */
    method Start(width: int, height: int, seed: U32)
      requires Valid()
      modifies this
      ensures Valid() && View() == Launch(old(View()), width, height, seed)
    {
      hide Zip;
      var (c, r) := Grid(width, height);
      hide Grid;
      cols, rows, active, mode, score, rng := c, r, true, Splash, 0, seed;
    }

    /** snake_keyboard_event */
    method KeyEvent(key: Key, ticks: Ticks)
      requires Valid() && Inv(View())
      modifies this, xs, ys
      ensures Valid() && View() == Press(old(View()), key, ticks) && Inv(View())
    {
      hide Reset, BodyOk;
      EventKeepsInv(View(), Pressed(key, ticks));
      if !active {
        return;
      }
      if mode == Splash || mode == GameOver {
        if key == Quit {
          active := false;
        } else if key == Go {
          ResetRound(ticks);
          mode := Play;
        }
        return;
      }
      if key == Quit {
        active := false;
        return;
      }
      if key == Pause {
        mode := if mode == Paused then Play else Paused;
        return;
      }
      if mode != Play {
        return;
      }
      if key == KeyUp && dir != Down {
        next := Up;
      } else if key == KeyRight && dir != Left {
        next := Right;
      } else if key == KeyDown && dir != Up {
        next := Down;
      } else if key == KeyLeft && dir != Right {
        next := Left;
      }
    }

    /** The shifting loop of snake_timer_tick and the store of the new head. */
    method ShiftBody(count: nat, nx: Byte, ny: Byte)
      requires Valid() && 0 < len && 0 < count <= len + 1 && count <= MAX_CELLS
      modifies this`len, xs, ys
      ensures Valid() && len == count && Body() == ([Cell(nx, ny)] + old(Body()))[..count]
    {
      hide Zip, MovedUp;
      ghost var x, y := xs[..], ys[..];
      var i := count - 1;
      MoveUp(x, i, count - 1);
      MoveUp(y, i, count - 1);
      while i > 0
        invariant 0 <= i < count && len == old(len)
        invariant xs[..] == MovedUp(x, i, count - 1) && ys[..] == MovedUp(y, i, count - 1)
      {
        MoveUp(x, i, count - 1);
        MoveUp(y, i, count - 1);
        assert xs[..][i - 1] == xs[i - 1] && ys[..][i - 1] == ys[i - 1];
        xs[i], ys[i] := xs[i - 1], ys[i - 1];
        i := i - 1;
      }
      xs[0], ys[0] := nx, ny;
      HeadPut(x, count - 1, nx);
      HeadPut(y, count - 1, ny);
      assert xs[..count] == xs[..][..count] && ys[..count] == ys[..][..count];
      ZipHead(x[..len], y[..len], nx, ny, count);
      assert x[..count - 1] == x[..len][..count - 1] && y[..count - 1] == y[..len][..count - 1];
      len := count;
    }

    /** snake_timer_tick */
    method TimerTick(ticks: Ticks)
      requires Valid() && Inv(View())
      modifies this, xs, ys
      ensures Valid() && View() == Tick(old(View()), ticks) && Inv(View())
    {
      hide Move, Zip, DistinctCells, Chain, AllOnGrid, Toward, Speed;
      EventKeepsInv(View(), Ticked(ticks));
      if !active || mode != Play {
        return;
      }
      acc := acc + 1;
      if acc < div {
        return;
      }
      acc := 0;
      dir := next;
      Advance(ticks);
    }

    /** The cell the head moves to. */
    method NextCell() returns (nx: int, ny: int)
      requires Valid() && len > 0
      ensures Cell(nx, ny) == Toward(Body()[0], dir)
    {
      nx, ny := xs[0], ys[0];
      assert Body()[0] == Cell(nx, ny);
      match dir {
        case Up => ny := ny - 1;
        case Right => nx := nx + 1;
        case Down => ny := ny + 1;
        case Left => nx := nx - 1;
      }
    }

    /** The two checks that end the game. */
    method Blocked(nx: int, ny: int, grow: bool) returns (hit: bool)
      requires Valid() && len > 0 && cols <= MAX_COLS && rows <= MAX_ROWS
      requires Cell(nx, ny) == Toward(Body()[0], dir) && grow == Grows(View())
      ensures hit == Crashes(View())
    {
      hide Zip, Toward, Grows;
      if nx < 0 || nx >= cols || ny < 0 || ny >= rows {
        return true;
      }
      hit := Occupied(nx, ny, if grow then len else len - 1);
    }

    /** The rest of the tick: the step itself. */
    method Advance(ticks: Ticks)
      requires Valid() && 10 <= cols <= MAX_COLS && 10 <= rows <= MAX_ROWS && 0 < len <= cols * rows
      modifies this, xs, ys
      ensures Valid() && View() == Move(old(View()), ticks)
    {
      hide PlaceFood, Zip, Toward, Crashes;
      AreaBounds(cols, rows);
      ghost var g := View();
      var nx, ny := NextCell();
      var grow := nx == fx && ny == fy;
      var hit := Blocked(nx, ny, grow);
      if hit {
        mode := GameOver;
        return;
      }
      CrashIf(g);
      var count := if grow then len + 1 else len;
      var max := cols * rows;
      if count > max {
        count := max;
      }
      ShiftBody(count, nx, ny);
      assert View() == g.(body := Moved(g));
      hide Moved, Grows;
      if grow {
        Eat(ticks);
      }
    }

    /** Scoring, the speed-up, and the next food unless the board is full. */
    method Eat(ticks: Ticks)
      requires Valid() && 10 <= cols <= MAX_COLS && 10 <= rows <= MAX_ROWS
      modifies this
      ensures Valid() && View() == (var s := Scored(old(View()));
        if |s.body| >= s.cols * s.rows then s.(mode := GameOver) else PlaceFood(s, ticks))
    {
      hide PlaceFood, Zip;
      score := score + 1;
      if score % 5 == 0 && div > 2 {
        div := div - 1;
      }
      if len >= cols * rows {
        mode := GameOver;
        return;
      }
      Place(ticks);
    }
  }

  lemma HeadPut(a: seq<Byte>, last: nat, n: Byte)
    requires last < |a|
    ensures |MovedUp(a, 0, last)| == |a| && MovedUp(a, 0, last)[0 := n][..last + 1] == [n] + a[..last]
  {
  }

  lemma ZipHead(a: seq<Byte>, b: seq<Byte>, nx: Byte, ny: Byte, count: nat)
    requires |a| == |b| && 0 < count <= |a| + 1
    ensures Zip([nx] + a[..count - 1], [ny] + b[..count - 1]) == ([Cell(nx, ny)] + Zip(a, b))[..count]
  {
  }

  lemma CrashIf(g: Game)
    requires g.body != [] && !Crashes(g)
    ensures OnGrid(Toward(g.body[0], g.dir), g.cols, g.rows)
  {
  }
}
