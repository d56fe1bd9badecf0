/*
 * Terminal Snake (ui/terminal_games/game_snake/game_snake.c): a 40x20 grid
 * with a wall on its border, a snake of up to 800 segments held in a fixed
 * array with the head at index 0, and one piece of food. The segment array
 * is updated in place; the other statics are fields of Game. The food
 * placement of spawn_food is the caller's choice (see FoodSpot below), and
 * drawing to the console is left out except for its effect on the flags.
 */
module Snake {
  import opened Common
  import Keyboard
  import Tty

  const GRID_WIDTH: int := 40
  const GRID_HEIGHT: int := 20
  const MAX_SNAKE_LENGTH: nat := 800
  /** snake_update acts on every 10th call. */
  const UPDATE_INTERVAL: nat := 10
  const FOOD_SCORE: u32 := 10
  const ESC: char := 27 as char

  datatype Point = Point(x: int, y: int)

  /** A cell strictly inside the walls: the only cells a head may enter. */
  predicate Inside(p: Point)
  {
    0 < p.x < GRID_WIDTH - 1 && 0 < p.y < GRID_HEIGHT - 1
  }

  function Abs(n: int): nat
  {
    if n < 0 then -n else n
  }

  /** Two segments that touch or coincide (a fresh growth doubles the tail). */
  predicate Near(p: Point, q: Point)
  {
    Abs(p.x - q.x) + Abs(p.y - q.y) <= 1
  }

  /** Every segment touches the next one. */
  predicate Connected(s: seq<Point>)
  {
    forall i :: 0 <= i < |s| - 1 ==> Near(s[i], s[i + 1])
  }

  predicate AllInside(s: seq<Point>)
  {
    forall i :: 0 <= i < |s| ==> Inside(s[i])
  }

  /** A direction: one of the four unit steps, or no movement before the first snake_init. */
  predicate Direction(dx: int, dy: int)
  {
    Abs(dx) + Abs(dy) <= 1
  }

  /** The snake snake_init lays out: three segments at the centre, heading right. */
  const START: seq<Point> := [Point(20, 10), Point(19, 10), Point(18, 10)]

  /** The game's statics, with the live part of the segment array as a sequence. */
  datatype World = World(segments: seq<Point>, food: Point, dx: int, dy: int, score: u32,
                         gameOver: bool, running: bool, initialized: bool, needsRedraw: bool,
                         updateCounter: int)

  /** The statics before snake_init first runs: zero, except needs_redraw. */
  const UNSTARTED: World := World([], Point(0, 0), 0, 0, 0, false, false, false, true, 0)

  /**
   * What holds between calls: the snake fits its array, lies inside the
   * walls in one piece, and never covers the food, which is inside the walls
   * once there is a snake; the update counter is below the interval.
   */
  predicate Sound(w: World)
  {
    && |w.segments| <= MAX_SNAKE_LENGTH
    && 0 <= w.updateCounter < UPDATE_INTERVAL
    && (w.running ==> |w.segments| > 0)
    && AllInside(w.segments) && Connected(w.segments)
    && w.food !in w.segments
    && (|w.segments| > 0 ==> Inside(w.food))
    && Direction(w.dx, w.dy)
  }

  /** The cell the head moves to next. */
  function NextHead(w: World): Point
    requires |w.segments| > 0
  {
    Point(w.segments[0].x + w.dx, w.segments[0].y + w.dy)
  }

  /** The move ends the game: the next head is on a wall or on a segment other than the head. */
  predicate Blocked(w: World)
    requires |w.segments| > 0
  {
    !Inside(NextHead(w)) || NextHead(w) in w.segments[1..]
  }

  /** The move reaches the food. */
  predicate Eats(w: World)
    requires |w.segments| > 0
  {
    !Blocked(w) && NextHead(w) == w.food
  }

  /** The body after the head steps to h: every segment takes the place of the one before it. */
  function Crawled(s: seq<Point>, h: Point): (r: seq<Point>)
    requires |s| > 0
    ensures |r| == |s| && r[0] == h
    ensures forall i :: 0 < i < |s| ==> r[i] == s[i - 1]
  {
    [h] + s[..|s| - 1]
  }

  /** Growth: the tail is doubled while the snake is shorter than 800. */
  function Grown(s: seq<Point>): (r: seq<Point>)
    requires |s| > 0
    ensures |r| == if |s| < MAX_SNAKE_LENGTH then |s| + 1 else |s|
    ensures r[..|s|] == s
    ensures forall i :: |s| <= i < |r| ==> r[i] == s[|s| - 1]
  {
    if |s| < MAX_SNAKE_LENGTH then s + [s[|s| - 1]] else s
  }

  /** The snake after a move that eats, where spawn_food must avoid. */
  function Fed(w: World): seq<Point>
    requires |w.segments| > 0
  {
    Grown(Crawled(w.segments, NextHead(w)))
  }

  /** spawn_food's choice: a cell inside the walls that the snake does not cover. */
  predicate FoodSpot(s: seq<Point>, spot: Point)
  {
    Inside(spot) && spot !in s
  }

  /** The snake moving part of snake_update, for a game that is on. */
  function Advanced(w: World, spot: Point): (r: World)
    requires |w.segments| > 0 && !w.gameOver
    ensures Blocked(w) ==> r == w.(gameOver := true, needsRedraw := true)
    ensures !Blocked(w) ==>
      && |r.segments| == (if Eats(w) && |w.segments| < MAX_SNAKE_LENGTH then |w.segments| + 1 else |w.segments|)
      && !r.gameOver && r.needsRedraw && r.segments[0] == NextHead(w)
      && r.segments[1..|w.segments|] == w.segments[..|w.segments| - 1]
      && r.score == (if Eats(w) then Add32(w.score, FOOD_SCORE) else w.score)
      && r.food == (if Eats(w) then spot else w.food)
    ensures r.dx == w.dx && r.dy == w.dy && r.running == w.running && r.updateCounter == w.updateCounter
  {
    var h := NextHead(w);
    if Blocked(w) then w.(gameOver := true, needsRedraw := true)
    else if h == w.food then
      w.(segments := Fed(w), score := Add32(w.score, FOOD_SCORE), food := spot, needsRedraw := true)
    else w.(segments := Crawled(w.segments, h), needsRedraw := true)
  }

  /** The update moves the snake: the game is running, not over, and this is the 10th call. */
  predicate Moves(w: World)
  {
    w.running && !w.gameOver && w.updateCounter + 1 >= UPDATE_INTERVAL
  }

  /** snake_update on the statics. */
  function Updated(w: World, spot: Point): (r: World)
    requires w.running ==> |w.segments| > 0
  {
    if !w.running then w
    else if w.updateCounter + 1 < UPDATE_INTERVAL then w.(updateCounter := w.updateCounter + 1)
    else if w.gameOver then w.(updateCounter := 0, needsRedraw := true)
    else Advanced(w.(updateCounter := 0), spot)
  }

  /** What spawn_food needs when the update about to run feeds the snake. */
  predicate SpotFits(w: World, spot: Point)
  {
    Moves(w) && |w.segments| > 0 && Eats(w) ==> FoodSpot(Fed(w), spot)
  }

  /** snake_init on the statics. */
  function Started(w: World, spot: Point): (r: World)
    requires FoodSpot(START, spot)
    ensures Sound(r)
  {
    w.(segments := START, food := spot, dx := 1, dy := 0, score := 0, gameOver := false,
       running := true, initialized := false, needsRedraw := true, updateCounter := 0)
  }

  /** The direction after an arrow key: any of the four, except straight back. */
  function Turned(dx: int, dy: int, scancode: byte): (d: (int, int))
    ensures d == (dx, dy) || d in {(0, -1), (0, 1), (-1, 0), (1, 0)}
    ensures Abs(dx) + Abs(dy) == 1 ==> d != (-dx, -dy)
    ensures scancode !in {Keyboard.KEY_UP, Keyboard.KEY_DOWN, Keyboard.KEY_LEFT, Keyboard.KEY_RIGHT} ==> d == (dx, dy)
  {
    if scancode == Keyboard.KEY_UP then (if dy != 1 then (0, -1) else (dx, dy))
    else if scancode == Keyboard.KEY_DOWN then (if dy != -1 then (0, 1) else (dx, dy))
    else if scancode == Keyboard.KEY_LEFT then (if dx != 1 then (-1, 0) else (dx, dy))
    else if scancode == Keyboard.KEY_RIGHT then (if dx != -1 then (1, 0) else (dx, dy))
    else (dx, dy)
  }

  /** A move that is not blocked keeps the snake inside the walls, in one piece and off the food. */
  lemma AdvancedSound(w: World, spot: Point)
    requires Sound(w) && |w.segments| > 0 && !w.gameOver
    requires Eats(w) ==> FoodSpot(Fed(w), spot)
    ensures Sound(Advanced(w, spot))
  {
    if !Blocked(w) {
      var h := NextHead(w);
      var s := w.segments;
      var c := Crawled(s, h);
      assert Near(h, s[0]);
      assert Connected(c) by {
        forall i | 0 <= i < |c| - 1
          ensures Near(c[i], c[i + 1])
        {
          if i > 0 {
            assert c[i] == s[i - 1] && c[i + 1] == s[i];
          }
        }
      }
      assert AllInside(c) by {
        forall i | 0 < i < |c|
          ensures Inside(c[i])
        {
          assert c[i] == s[i - 1];
        }
      }
      if h == w.food {
        var g := Grown(c);
        assert Connected(g) by {
          forall i | 0 <= i < |g| - 1
            ensures Near(g[i], g[i + 1])
          {
            if i + 1 < |c| {
              assert g[i] == c[i] && g[i + 1] == c[i + 1];
            } else {
              assert g[i] == c[|c| - 1] == g[i + 1];
            }
          }
        }
      } else {
        assert forall i :: 0 < i < |c| ==> c[i] == s[i - 1];
        assert w.food !in c;
      }
    }
  }

  /** An update keeps every invariant, provided spawn_food has a free cell to choose when the snake eats. */
  lemma UpdatedSound(w: World, spot: Point)
    requires Sound(w) && SpotFits(w, spot)
    ensures Sound(Updated(w, spot))
  {
    if Moves(w) {
      var v := w.(updateCounter := 0);
      assert NextHead(v) == NextHead(w) && v.segments == w.segments;
      AdvancedSound(v, spot);
    }
  }

  /** Nine updates in ten only count: a running snake moves on exactly one call in ten. */
  lemma {:induction false} UpdatesCount(w: World, spot: Point, n: nat)
    requires Sound(w) && w.running && !w.gameOver && w.updateCounter + n < UPDATE_INTERVAL
    ensures Repeated(w, spot, n) == w.(updateCounter := w.updateCounter + n)
  {
    if n > 0 {
      UpdatesCount(w, spot, n - 1);
    }
  }

  /** n updates in a row, all with the same food choice. */
  function Repeated(w: World, spot: Point, n: nat): World
    requires Sound(w)
  {
    if n == 0 then w
    else
      var v := Repeated(w, spot, n - 1);
      if Sound(v) && SpotFits(v, spot) then (UpdatedSound(v, spot); Updated(v, spot)) else v
  }

  class Game {
    /** snake[MAX_SNAKE_LENGTH]: segment 0 is the head. */
    const body: array<Point>
    var length: int
    var food: Point
    var dx: int
    var dy: int
    var score: u32
    var gameOver: bool
    var running: bool
    var initialized: bool
    var needsRedraw: bool
    var updateCounter: int

    /** The live segments, head first. */
    function Segments(): seq<Point>
      reads this, body
      requires 0 <= length <= body.Length
    {
      body[..length]
    }

    function State(): World
      reads this, body
      requires 0 <= length <= body.Length
    {
      World(Segments(), food, dx, dy, score, gameOver, running, initialized, needsRedraw, updateCounter)
    }

    ghost predicate Valid()
      reads this, body
    {
      body.Length == MAX_SNAKE_LENGTH && 0 <= length <= MAX_SNAKE_LENGTH && Sound(State())
    }

    constructor ()
      ensures Valid() && fresh(body)
      ensures State() == UNSTARTED
    {
      body := new Point[MAX_SNAKE_LENGTH](_ => Point(0, 0));
      length, food, dx, dy, score := 0, Point(0, 0), 0, 0, 0;
      gameOver, running, initialized, needsRedraw, updateCounter := false, false, false, true, 0;
    }

    /** spawn_food: the food goes to the chosen free cell inside the walls. */
    method SpawnFood(spot: Point)
      requires 0 <= length <= body.Length && FoodSpot(Segments(), spot)
      modifies `food
      ensures food == spot
    {
      food := spot;
    }

    /** snake_init: three segments at the centre heading right, a zero score, and fresh food. */
    method Init(spot: Point)
      requires Valid() && FoodSpot(START, spot)
      modifies this, body
      ensures Valid() && State() == Started(old(State()), spot)
    {
      ghost var target := Started(State(), spot);
      LayOut();
      dx := 1;
      dy := 0;
      score := 0;
      gameOver := false;
      running := true;
      initialized := false;
      needsRedraw := true;
      updateCounter := 0;
      SpawnFood(spot);
      assert State() == target;
    }

    /** The segment writes of snake_init: the head at the centre and two segments trailing to its left. */
    method LayOut()
      requires body.Length == MAX_SNAKE_LENGTH
      modifies body, `length
      ensures length == 3 && Segments() == START
    {
      length := 3;
      body[0] := Point(GRID_WIDTH / 2, GRID_HEIGHT / 2);
      body[1] := Point(body[0].x - 1, body[0].y);
      body[2] := Point(body[1].x - 1, body[1].y);
      assert Segments() == [body[0], body[1], body[2]];
    }

    /** The self-collision scan of snake_update: whether p is on a segment other than the head. */
    method HitsBody(p: Point) returns (hit: bool)
      requires 0 < length <= body.Length
      ensures hit <==> p in Segments()[1..]
    {
      hit := false;
      var i := 1;
      while i < length
        invariant 1 <= i && (length > 0 ==> i <= length)
        invariant forall k :: 1 <= k < i && k < length ==> body[k] != p
      {
        if body[i].x == p.x && body[i].y == p.y {
          assert Segments()[1..][i - 1] == p;
          hit := true;
          return;
        }
        i := i + 1;
      }
      assert forall q :: q in Segments()[1..] ==> exists k :: 1 <= k < length && body[k] == q;
    }

    /** The body shift of snake_update: each segment moves to its predecessor's place and the head goes to h. */
    method ShiftBody(h: Point)
      requires 0 < length <= body.Length
      modifies body
      ensures Segments() == Crawled(old(Segments()), h)
      ensures body[length..] == old(body[length..])
    {
      var i := length - 1;
      while i > 0
        invariant 0 <= i < length
        invariant forall k :: 0 <= k <= i ==> body[k] == old(body[k])
        invariant forall k :: i < k < length ==> body[k] == old(body[k - 1])
        invariant body[length..] == old(body[length..])
      {
        body[i] := body[i - 1];
        i := i - 1;
      }
      body[0] := h;
      assert forall k :: 0 <= k < length ==> Segments()[k] == Crawled(old(Segments()), h)[k];
    }

    /** The moving part of snake_update: wall and self collisions end the game; otherwise the snake crawls and may eat. */
    method Crawl(spot: Point)
      requires Valid() && length > 0 && !gameOver
      requires Eats(State()) ==> FoodSpot(Fed(State()), spot)
      modifies this, body
      ensures Valid() && State() == Advanced(old(State()), spot)
    {
      ghost var target := Advanced(State(), spot);
      AdvancedSound(State(), spot);
      var h := Point(body[0].x + dx, body[0].y + dy);
      if h.x <= 0 || h.x >= GRID_WIDTH - 1 || h.y <= 0 || h.y >= GRID_HEIGHT - 1 {
        EndGame();
        assert State() == target;
        return;
      }
      var hit := HitsBody(h);
      if hit {
        EndGame();
        assert State() == target;
        return;
      }
      MoveTo(h, spot);
      assert State() == target;
    }

    /** A collision: the game is over and the screen must be redrawn; the snake stays where it is. */
    method EndGame()
      modifies `gameOver, `needsRedraw
      ensures gameOver && needsRedraw
    {
      gameOver := true;
      needsRedraw := true;
    }

    /** The crawl itself: the body follows the head to h, and the food, if reached, is eaten. */
    method MoveTo(h: Point, spot: Point)
      requires 0 < length <= MAX_SNAKE_LENGTH == body.Length
      requires !gameOver && h == NextHead(State()) && !Blocked(State())
      requires Eats(State()) ==> FoodSpot(Fed(State()), spot)
      modifies this, body
      ensures 0 < length <= MAX_SNAKE_LENGTH
      ensures State() == Advanced(old(State()), spot)
    {
      ShiftBody(h);
      if body[0].x == food.x && body[0].y == food.y {
        score := Add32(score, FOOD_SCORE);
        if length < MAX_SNAKE_LENGTH {
          body[length] := body[length - 1];
          length := length + 1;
        }
        assert Segments() == Grown(Crawled(old(Segments()), h));
        SpawnFood(spot);
      }
      needsRedraw := true;
    }

    /** snake_update: counts calls, and on every 10th one moves the snake unless the game is over. */
    method Update(spot: Point)
      requires Valid() && SpotFits(State(), spot)
      modifies this, body
      ensures Valid() && State() == Updated(old(State()), spot)
    {
      ghost var target := Updated(State(), spot);
      UpdatedSound(State(), spot);
      if !running {
        return;
      }
      updateCounter := updateCounter + 1;
      if updateCounter < UPDATE_INTERVAL {
        assert State() == target;
        return;
      }
      updateCounter := 0;
      if gameOver {
        needsRedraw := true;
        assert State() == target;
        return;
      }
      ghost var w := State();
      assert w == old(State()).(updateCounter := 0);
      assert NextHead(w) == NextHead(old(State())) && w.segments == old(State()).segments;
      Crawl(spot);
      assert State() == target;
    }

    /** snake_draw's effect on the flags: the first call marks the screen set up; every call leaves nothing to redraw. */
    method Draw()
      requires Valid()
      modifies this
      ensures Valid()
      ensures State() == old(State()).(initialized := true, needsRedraw := false)
    {
      if !initialized {
        initialized := true;
        needsRedraw := true;
      }
      if needsRedraw {
        needsRedraw := false;
      }
    }

    /** snake_input: Esc stops the game and hands the TTY back to the shell; 'r' restarts a lost game. */
    method Input(c: char, table: Tty.TtyTable, spot: Point)
      requires Valid() && table.Valid()
      requires (c == 'r' || c == 'R') && gameOver ==> FoodSpot(START, spot)
      modifies this, body, table.ttys, table.buffers
      ensures Valid() && table.Valid()
      ensures c == ESC ==> State() == old(State()).(running := false)
      ensures c == ESC ==> table.ttys[..] == old(table.ttys[..])[table.current :=
        Tty.Restored(old(table.ttys[table.current]), table.backup[table.current])]
      ensures c != ESC ==> table.ttys[..] == old(table.ttys[..]) && unchanged(table.buffers)
      ensures (c == 'r' || c == 'R') && old(gameOver) ==> State() == Started(old(State()), spot)
      ensures c != ESC && !((c == 'r' || c == 'R') && old(gameOver)) ==> State() == old(State())
    {
      if c == ESC {
        running := false;
        table.RestoreToShell();
      } else if c == 'r' || c == 'R' {
        if gameOver {
          Init(spot);
        }
      }
    }

    /** snake_special_input: the arrow keys turn the snake, never straight back; nothing once the game is over. */
    method SpecialInput(scancode: byte)
      requires Valid()
      modifies `dx, `dy
      ensures Valid()
      ensures old(gameOver) ==> dx == old(dx) && dy == old(dy)
      ensures !old(gameOver) ==> (dx, dy) == Turned(old(dx), old(dy), scancode)
    {
      if gameOver {
        return;
      }
      if scancode == Keyboard.KEY_UP {
        if dy != 1 {
          dx := 0;
          dy := -1;
        }
      } else if scancode == Keyboard.KEY_DOWN {
        if dy != -1 {
          dx := 0;
          dy := 1;
        }
      } else if scancode == Keyboard.KEY_LEFT {
        if dx != 1 {
          dx := -1;
          dy := 0;
        }
      } else if scancode == Keyboard.KEY_RIGHT {
        if dx != -1 {
          dx := 1;
          dy := 0;
        }
      }
    }
  }
}
