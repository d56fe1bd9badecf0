/*
 * Terminal Tetris (ui/terminal_games/game_tetris/game_tetris.c): a 10x20
 * board of cells, one single-cell piece that falls, and a line clearer.
 * The board is the C array, updated in place; the game's other statics
 * (score, flags, update counter, piece position) are fields of Game.
 * Drawing to the console is left out; only its effect on the flags is kept.
 */
module Tetris {
  import opened Common
  import Keyboard
  import Tty

  const BOARD_WIDTH: nat := 10
  const BOARD_HEIGHT: nat := 20
  /** tetris_update acts on every 20th call. */
  const UPDATE_INTERVAL: nat := 20
  /** Pieces spawn at (BOARD_WIDTH / 2, 0). */
  const SPAWN_X: int := 5
  const LINE_SCORE: u32 := 100
  const DROP_BONUS: u32 := 20
  const SOFT_DROP_SCORE: u32 := 1
  const ESC: char := 27 as char

  type Row = seq<byte>

  /** A row with no empty cell. */
  predicate Full(r: Row)
  {
    forall x :: 0 <= x < |r| ==> r[x] != 0
  }

  function EmptyRow(): (r: Row)
    ensures |r| == BOARD_WIDTH
    ensures forall x :: 0 <= x < |r| ==> r[x] == 0
  {
    seq(BOARD_WIDTH, _ => 0)
  }

  /** The invariant check_lines restores: no row of the board is full. */
  predicate NoFullRow(rows: seq<Row>)
  {
    forall y :: 0 <= y < |rows| ==> !Full(rows[y])
  }

  /** An empty row is never full (the board has at least one column). */
  lemma EmptyRowNotFull()
    ensures !Full(EmptyRow())
  {
    assert EmptyRow()[0] == 0;
  }

  function Blank(n: nat): (rows: seq<Row>)
    ensures |rows| == n
  {
    seq(n, _ => EmptyRow())
  }

  /** The rows that are not full, in their original order. */
  function Kept(rows: seq<Row>): (k: seq<Row>)
    ensures |k| <= |rows|
    ensures forall i :: 0 <= i < |k| ==> !Full(k[i])
    ensures (forall i :: 0 <= i < |rows| ==> |rows[i]| == BOARD_WIDTH) ==>
      forall i :: 0 <= i < |k| ==> |k[i]| == BOARD_WIDTH
  {
    if rows == [] then []
    else (if Full(rows[0]) then [] else [rows[0]]) + Kept(rows[1..])
  }

  /** The number of full rows: every row is either full or kept. */
  function FullCount(rows: seq<Row>): (n: nat)
    ensures n + |Kept(rows)| == |rows|
  {
    if rows == [] then 0
    else (if Full(rows[0]) then 1 else 0) + FullCount(rows[1..])
  }

  /** The points check_lines awards: 100 per full row. */
  function LinePoints(rows: seq<Row>): (p: nat)
    ensures p <= 100 * |rows|
  {
    if rows == [] then 0
    else (if Full(rows[0]) then LINE_SCORE else 0) + LinePoints(rows[1..])
  }

  /** The points are 100 times the number of cleared rows. */
  lemma {:induction false} LinePointsCount(rows: seq<Row>)
    ensures LinePoints(rows) == LINE_SCORE * FullCount(rows)
  {
    if rows != [] {
      LinePointsCount(rows[1..]);
    }
  }

  /** What check_lines leaves: the non-full rows sink to the bottom in order, blank rows on top. */
  function Cleared(rows: seq<Row>): (r: seq<Row>)
    ensures |r| == |rows|
    ensures forall i :: 0 <= i < |r| ==> !Full(r[i])
    ensures (forall i :: 0 <= i < |rows| ==> |rows[i]| == BOARD_WIDTH) ==>
      forall i :: 0 <= i < |r| ==> |r[i]| == BOARD_WIDTH
  {
    EmptyRowNotFull();
    Blank(|rows| - |Kept(rows)|) + Kept(rows)
  }

  /** Keeping the non-full rows distributes over concatenation: order is preserved. */
  lemma {:induction false} KeptAppend(a: seq<Row>, b: seq<Row>)
    ensures Kept(a + b) == Kept(a) + Kept(b)
    decreases |a|
  {
    if a != [] {
      assert (a + b)[0] == a[0];
      assert (a + b)[1..] == a[1..] + b;
      KeptAppend(a[1..], b);
    } else {
      assert a + b == b;
    }
  }

  /** Rows none of which is full are all kept. */
  lemma {:induction false} KeptNoneFull(rows: seq<Row>)
    requires forall i :: 0 <= i < |rows| ==> !Full(rows[i])
    ensures Kept(rows) == rows
    decreases |rows|
  {
    if rows != [] {
      KeptNoneFull(rows[1..]);
      assert [rows[0]] + rows[1..] == rows;
    }
  }

  /** A board without full rows is left alone, so clearing twice is clearing once. */
  lemma ClearedIdempotent(rows: seq<Row>)
    ensures Cleared(Cleared(rows)) == Cleared(rows)
  {
    var c := Cleared(rows);
    KeptNoneFull(c);
    assert Blank(0) + c == c;
  }

  /** When at most row y can be full, at most one line is cleared, and one is exactly when row y is full. */
  lemma {:induction false} OneRowCanFill(rows: seq<Row>, y: int)
    requires forall i :: 0 <= i < |rows| && i != y ==> !Full(rows[i])
    ensures FullCount(rows) == if 0 <= y < |rows| && Full(rows[y]) then 1 else 0
    decreases |rows|
  {
    if rows != [] {
      OneRowCanFill(rows[1..], y - 1);
    }
  }

  /** Two boards with the same cells are the same board. */
  lemma SameRows(a: seq<Row>, b: seq<Row>)
    requires |a| == |b|
    requires forall y :: 0 <= y < |a| ==> |a[y]| == |b[y]|
    requires forall y, x :: 0 <= y < |a| && 0 <= x < |a[y]| ==> a[y][x] == b[y][x]
    ensures a == b
  {
    assert forall y | 0 <= y < |a| :: a[y] == b[y];
  }

  /** is_valid_position on a board given as rows: in range and empty. */
  predicate FreeIn(rows: seq<Row>, x: int, y: int)
  {
    0 <= x < BOARD_WIDTH && 0 <= y < BOARD_HEIGHT && y < |rows| && x < |rows[y]| && rows[y][x] == 0
  }

  /** lock_piece on rows: the piece's type lands in its cell when that cell is on the board. */
  function Locked(rows: seq<Row>, x: int, y: int, t: byte): (r: seq<Row>)
    ensures |r| == |rows|
    ensures forall i :: 0 <= i < |rows| && i != y ==> r[i] == rows[i]
    ensures forall i :: 0 <= i < |rows| ==> |r[i]| == |rows[i]|
    ensures forall i, j :: 0 <= i < |rows| && 0 <= j < |rows[i]| ==>
      r[i][j] == if i == y && j == x && x < BOARD_WIDTH && y < BOARD_HEIGHT then t else rows[i][j]
  {
    if 0 <= x < BOARD_WIDTH && 0 <= y < BOARD_HEIGHT && y < |rows| && x < |rows[y]|
    then var row: Row := rows[y][x := t]; rows[y := row]
    else rows
  }

  /** Where a hard drop from (x, y) stops: the last row reached by moving down through free cells. */
  function Landing(rows: seq<Row>, x: int, y: int): (r: int)
    ensures r >= y && !FreeIn(rows, x, r + 1)
    ensures forall k :: y < k <= r ==> FreeIn(rows, x, k)
    decreases BOARD_HEIGHT - y
  {
    if FreeIn(rows, x, y + 1) then Landing(rows, x, y + 1) else y
  }

  /** The game's scalar statics, gathered so a step can say which of them it changes. */
  datatype Status = Status(score: u32, gameOver: bool, running: bool, initialized: bool,
                           needsRedraw: bool, updateCounter: int,
                           pieceX: int, pieceY: int, pieceType: byte)

  /** The statics after spawn_new_piece: a type-1 piece at the top centre, game over if that cell is taken. */
  function Spawned(s: Status, free: bool): (r: Status)
    ensures r.gameOver <==> s.gameOver || !free
    ensures r.needsRedraw && r.pieceX == SPAWN_X && r.pieceY == 0 && r.pieceType == 1
    ensures r.score == s.score && r.running == s.running && r.updateCounter == s.updateCounter
  {
    s.(pieceX := SPAWN_X, pieceY := 0, pieceType := 1,
       gameOver := s.gameOver || !free, needsRedraw := true)
  }

  /** A left, right or soft-drop move: taken only when the game is on and the target cell is free. */
  function Moved(s: Status, free: bool, dx: int, dy: int, bonus: u32): (r: Status)
    ensures r != s ==> !s.gameOver && free
    ensures !s.gameOver && free ==>
      r.pieceX == s.pieceX + dx && r.pieceY == s.pieceY + dy && r.needsRedraw
      && r.score == Add32(s.score, bonus)
    ensures r.gameOver == s.gameOver && r.running == s.running && r.updateCounter == s.updateCounter
  {
    if !s.gameOver && free
    then s.(pieceX := s.pieceX + dx, pieceY := s.pieceY + dy, score := Add32(s.score, bonus), needsRedraw := true)
    else s
  }

  /** The statics tetris_init leaves on an empty board. */
  const FRESH: Status := Status(0, false, true, false, true, 0, SPAWN_X, 0, 1)

  class Game {
    const board: array2<byte>
    var score: u32
    var gameOver: bool
    var running: bool
    var initialized: bool
    var needsRedraw: bool
    var updateCounter: int
    var pieceX: int
    var pieceY: int
    var pieceType: byte

    predicate Shaped()
    {
      board.Length0 == BOARD_HEIGHT && board.Length1 == BOARD_WIDTH
    }

    /** The board, row by row. */
    function Rows(): (rows: seq<Row>)
      reads board
      requires Shaped()
      ensures |rows| == BOARD_HEIGHT
      ensures forall y :: 0 <= y < BOARD_HEIGHT ==> |rows[y]| == BOARD_WIDTH
      ensures forall y, x :: 0 <= y < BOARD_HEIGHT && 0 <= x < BOARD_WIDTH ==> rows[y][x] == board[y, x]
    {
      seq(BOARD_HEIGHT, y requires 0 <= y < BOARD_HEIGHT reads board =>
        seq(BOARD_WIDTH, x requires 0 <= x < BOARD_WIDTH reads board => board[y, x]))
    }

    function Snapshot(): Status
      reads this
    {
      Status(score, gameOver, running, initialized, needsRedraw, updateCounter, pieceX, pieceY, pieceType)
    }

    /**
     * Between calls the board has no full row, the update counter is below
     * the interval, and while the game is on the piece sits on a free cell.
     */
    ghost predicate Valid()
      reads this, board
    {
      Shaped() && 0 <= updateCounter < UPDATE_INTERVAL
      && NoFullRow(Rows())
      && (!gameOver ==> IsValidPosition(pieceX, pieceY))
    }

    /** The statics before tetris_init first runs: all zero except needs_redraw. */
    constructor ()
      ensures Valid() && fresh(board)
      ensures Rows() == Blank(BOARD_HEIGHT)
      ensures Snapshot() == Status(0, false, false, false, true, 0, 0, 0, 0)
    {
      board := new byte[BOARD_HEIGHT, BOARD_WIDTH]((_, _) => 0);
      score, gameOver, running, initialized, needsRedraw := 0, false, false, false, true;
      updateCounter, pieceX, pieceY, pieceType := 0, 0, 0, 0;
      new;
      EmptyRowNotFull();
      assert forall y | 0 <= y < BOARD_HEIGHT :: Rows()[y] == EmptyRow();
    }

    /** is_valid_position: (x, y) is on the board and its cell is empty. */
    function IsValidPosition(x: int, y: int): (valid: bool)
      reads board
      requires Shaped()
    {
      0 <= x < BOARD_WIDTH && 0 <= y < BOARD_HEIGHT && board[y, x] == 0
    }

    /** is_valid_position read on the board's rows. */
    lemma PositionOnRows(x: int, y: int)
      requires Shaped()
      ensures IsValidPosition(x, y) <==> FreeIn(Rows(), x, y)
    {
    }

    /** lock_piece: writes the piece's type into its cell, and nothing when the piece is off the board. */
    method LockPiece()
      requires Shaped()
      modifies board
      ensures Rows() == Locked(old(Rows()), pieceX, pieceY, pieceType)
    {
      if 0 <= pieceX < BOARD_WIDTH && 0 <= pieceY < BOARD_HEIGHT {
        board[pieceY, pieceX] := pieceType;
      }
      SameRows(Rows(), Locked(old(Rows()), pieceX, pieceY, pieceType));
    }

    /** The inner scan of check_lines: whether row y has no empty cell. */
    method RowIsFull(y: int) returns (full: bool)
      requires Shaped() && 0 <= y < BOARD_HEIGHT
      ensures full <==> Full(Rows()[y])
    {
      full := true;
      for x := 0 to BOARD_WIDTH
        invariant forall k :: 0 <= k < x ==> board[y, k] != 0
      {
        if board[y, x] == 0 {
          full := false;
          break;
        }
      }
    }

    /** The shift of check_lines: rows above y move down one and row 0 becomes empty. */
    method DropRowsAbove(y: int)
      requires Shaped() && 0 <= y < BOARD_HEIGHT
      modifies board
      ensures Rows() == [EmptyRow()] + old(Rows())[..y] + old(Rows())[y + 1..]
    {
      var ny := y;
      while ny > 0
        invariant 0 <= ny <= y
        invariant forall r, c :: 0 <= r < BOARD_HEIGHT && 0 <= c < BOARD_WIDTH ==>
          board[r, c] == if ny < r <= y then old(board[r - 1, c]) else old(board[r, c])
      {
        for x := 0 to BOARD_WIDTH
          invariant forall r, c :: 0 <= r < BOARD_HEIGHT && 0 <= c < BOARD_WIDTH ==>
            board[r, c] == if ny < r <= y || (r == ny && c < x) then old(board[r - 1, c]) else old(board[r, c])
        {
          board[ny, x] := board[ny - 1, x];
        }
        ny := ny - 1;
      }
      for x := 0 to BOARD_WIDTH
        invariant forall r, c :: 0 <= r < BOARD_HEIGHT && 0 <= c < BOARD_WIDTH ==>
          board[r, c] == if r == 0 && c < x then 0 else if 0 < r <= y then old(board[r - 1, c]) else old(board[r, c])
      {
        board[0, x] := 0;
      }
      ghost var want := [EmptyRow()] + old(Rows())[..y] + old(Rows())[y + 1..];
      assert forall r | 0 <= r < BOARD_HEIGHT :: Rows()[r] == want[r];
    }

    /** One removal in check_lines: the rows above y sink, 100 points are added and a redraw is due. */
    method RemoveRow(y: int)
      requires Shaped() && 0 <= y < BOARD_HEIGHT
      modifies board, `score, `needsRedraw
      ensures Rows() == [EmptyRow()] + old(Rows())[..y] + old(Rows())[y + 1..]
      ensures score == Add32(old(score), LINE_SCORE) && needsRedraw
    {
      DropRowsAbove(y);
      score := Add32(score, LINE_SCORE);
      needsRedraw := true;
    }

    /**
     * One pass of check_lines' loop at row y: a full row is removed and y
     * stays put so that the row which sank into it is checked next; any
     * other row is passed over.
     */
    method ScanRow(y: int, ghost rows: seq<Row>, ghost m: nat, ghost gained: nat, ghost score0: u32, ghost redraw0: bool)
      returns (y': int, ghost m': nat, ghost gained': nat)
      requires Shaped() && 0 <= y && Scanning(rows, m, y, Rows())
      requires gained == LinePoints(rows[m..]) && score == Add32(score0, gained)
      requires needsRedraw <==> redraw0 || FullCount(rows[m..]) > 0
      modifies board, `score, `needsRedraw
      ensures Scanning(rows, m', y', Rows()) && y' + m' < y + m
      ensures gained' == LinePoints(rows[m'..]) && score == Add32(score0, gained')
      ensures needsRedraw <==> redraw0 || FullCount(rows[m'..]) > 0
    {
      ghost var cur := Rows();
      var full := RowIsFull(y);
      m' := if m > 0 then m - 1 else 0;
      ScanStep(rows, m, m', y, cur);
      if full {
        Add32Twice(score0, gained, LINE_SCORE);
        RemoveRow(y);
        gained' := gained + LINE_SCORE;
        y' := y;
      } else {
        gained' := gained;
        y' := y - 1;
      }
    }

    /**
     * check_lines: every full row is removed, the others keep their order
     * and sink, and each removal adds 100 to the 32-bit score.
     */
    method CheckLines()
      requires Shaped()
      modifies board, `score, `needsRedraw
      ensures Rows() == Cleared(old(Rows()))
      ensures score == Add32(old(score), LinePoints(old(Rows())))
      ensures needsRedraw <==> old(needsRedraw) || FullCount(old(Rows())) > 0
    {
      ghost var rows := Rows();
      ghost var m: nat := BOARD_HEIGHT;
      ghost var gained: nat := 0;
      var y: int := BOARD_HEIGHT - 1;
      assert rows[BOARD_HEIGHT..] == [] && rows[..BOARD_HEIGHT] == rows;
      while y >= 0
        invariant Shaped() && Scanning(rows, m, y, Rows())
        invariant gained == LinePoints(rows[m..]) && score == Add32(old(score), gained)
        invariant needsRedraw <==> old(needsRedraw) || FullCount(rows[m..]) > 0
        decreases y + m
      {
        y, m, gained := ScanRow(y, rows, m, gained, old(score), old(needsRedraw));
      }
      ScanDone(rows, m, Rows());
    }

    /** spawn_new_piece: a type-1 piece at the top centre; the game is over if that cell is taken. */
    method SpawnNewPiece()
      requires Shaped()
      modifies this
      ensures Snapshot() == Spawned(old(Snapshot()), IsValidPosition(SPAWN_X, 0))
    {
      pieceX := BOARD_WIDTH / 2;
      pieceY := 0;
      pieceType := 1;
      if !IsValidPosition(pieceX, pieceY) {
        gameOver := true;
      }
      needsRedraw := true;
    }

    /** tetris_init: an empty board, a zero score and a fresh piece; the game is running. */
    method Init()
      requires Shaped()
      modifies this, board
      ensures Valid()
      ensures Rows() == Blank(BOARD_HEIGHT) && Snapshot() == FRESH
    {
      ClearBoard();
      score := 0;
      gameOver := false;
      running := true;
      initialized := false;
      needsRedraw := true;
      updateCounter := 0;
      SpawnNewPiece();
      EmptyRowNotFull();
    }

    /** The clearing loops of tetris_init: every cell becomes empty. */
    method ClearBoard()
      requires Shaped()
      modifies board
      ensures Rows() == Blank(BOARD_HEIGHT)
    {
      for y := 0 to BOARD_HEIGHT
        invariant forall r, c :: 0 <= r < y && 0 <= c < BOARD_WIDTH ==> board[r, c] == 0
      {
        for x := 0 to BOARD_WIDTH
          invariant forall r, c :: 0 <= r < BOARD_HEIGHT && 0 <= c < BOARD_WIDTH && (r < y || (r == y && c < x)) ==>
            board[r, c] == 0
        {
          board[y, x] := 0;
        }
      }
      assert forall r | 0 <= r < BOARD_HEIGHT :: Rows()[r] == EmptyRow();
    }

    /** lock_piece, check_lines and spawn_new_piece, the end of a fall in tetris_update. */
    method Settle()
      requires Valid()
      modifies this, board
      ensures Valid()
      ensures Rows() == Cleared(Locked(old(Rows()), old(pieceX), old(pieceY), old(pieceType)))
      ensures Snapshot() == Spawned(old(Snapshot()).(score :=
        Add32(old(score), LinePoints(Locked(old(Rows()), old(pieceX), old(pieceY), old(pieceType))))), IsValidPosition(SPAWN_X, 0))
    {
      ghost var locked := Locked(Rows(), pieceX, pieceY, pieceType);
      LockAndClear();
      ghost var mid := Snapshot();
      SpawnNewPiece();
      assert mid.(needsRedraw := old(needsRedraw)) == old(Snapshot()).(score := Add32(old(score), LinePoints(locked)));
    }

    /** lock_piece then check_lines: the piece joins the board and the full rows go. */
    method LockAndClear()
      requires Shaped()
      modifies board, `score, `needsRedraw
      ensures Rows() == Cleared(Locked(old(Rows()), pieceX, pieceY, pieceType))
      ensures NoFullRow(Rows())
      ensures score == Add32(old(score), LinePoints(Locked(old(Rows()), pieceX, pieceY, pieceType)))
    {
      LockPiece();
      CheckLines();
    }

    /**
     * tetris_update: nothing while the game is stopped; otherwise the counter
     * advances and only every 20th call acts, moving the piece down one row
     * when it can and settling it when it cannot.
     */
    method Update()
      requires Valid()
      modifies this, board
      ensures Valid()
      ensures !old(running) ==> Snapshot() == old(Snapshot()) && Rows() == old(Rows())
      ensures old(running) && old(updateCounter) + 1 < UPDATE_INTERVAL ==>
        Snapshot() == old(Snapshot()).(updateCounter := old(updateCounter) + 1) && Rows() == old(Rows())
      ensures old(running) && old(updateCounter) + 1 == UPDATE_INTERVAL && old(gameOver) ==>
        Snapshot() == old(Snapshot()).(updateCounter := 0, needsRedraw := true) && Rows() == old(Rows())
      ensures old(running) && old(updateCounter) + 1 == UPDATE_INTERVAL && !old(gameOver) ==>
        var s := old(Snapshot()).(updateCounter := 0);
        if old(IsValidPosition(pieceX, pieceY + 1)) then
          Snapshot() == s.(pieceY := old(pieceY) + 1, needsRedraw := true) && Rows() == old(Rows())
        else
          var locked := Locked(old(Rows()), old(pieceX), old(pieceY), old(pieceType));
          Rows() == Cleared(locked)
          && Snapshot() == Spawned(s.(score := Add32(old(score), LinePoints(locked))), IsValidPosition(SPAWN_X, 0))
    {
      if !running {
        return;
      }
      updateCounter := updateCounter + 1;
      if updateCounter < UPDATE_INTERVAL {
        return;
      }
      updateCounter := 0;
      if gameOver {
        needsRedraw := true;
        return;
      }
      assert Rows() == old(Rows()) && Snapshot() == old(Snapshot()).(updateCounter := 0);
      assert IsValidPosition(pieceX, pieceY + 1) == old(IsValidPosition(pieceX, pieceY + 1));
      Fall();
    }

    /** The falling step of tetris_update: the piece moves down one row, or settles where it is. */
    method Fall()
      requires Valid() && !gameOver
      modifies this, board
      ensures Valid()
      ensures if old(IsValidPosition(pieceX, pieceY + 1)) then
          Snapshot() == old(Snapshot()).(pieceY := old(pieceY) + 1, needsRedraw := true) && Rows() == old(Rows())
        else
          var locked := Locked(old(Rows()), old(pieceX), old(pieceY), old(pieceType));
          Rows() == Cleared(locked)
          && Snapshot() == Spawned(old(Snapshot()).(score := Add32(old(score), LinePoints(locked))), IsValidPosition(SPAWN_X, 0))
    {
      if IsValidPosition(pieceX, pieceY + 1) {
        pieceY := pieceY + 1;
        needsRedraw := true;
      } else {
        Settle();
      }
    }

    /** tetris_draw's effect on the flags: the first call marks the screen set up; every call leaves nothing to redraw. */
    method Draw()
      modifies this
      ensures Snapshot() == old(Snapshot()).(initialized := true, needsRedraw := false)
    {
      if !initialized {
        initialized := true;
        needsRedraw := true;
      }
      if needsRedraw {
        needsRedraw := false;
      }
    }

    /** A left, right or down move, shared by the WASD keys and the arrow keys. */
    method Move(dx: int, dy: int, bonus: u32)
      requires Valid()
      modifies this
      ensures Valid()
      ensures Snapshot() == Moved(old(Snapshot()), old(IsValidPosition(pieceX + dx, pieceY + dy)), dx, dy, bonus)
    {
      if !gameOver && IsValidPosition(pieceX + dx, pieceY + dy) {
        pieceX := pieceX + dx;
        pieceY := pieceY + dy;
        score := Add32(score, bonus);
        needsRedraw := true;
      }
    }

    /** Space: drop the piece as far as it falls, settle it, and add the 20-point bonus. */
    method HardDrop()
      requires Valid() && !gameOver
      modifies this, board
      ensures Valid()
      ensures var landed := Landing(old(Rows()), old(pieceX), old(pieceY));
        var locked := Locked(old(Rows()), old(pieceX), landed, old(pieceType));
        Rows() == Cleared(locked)
        && Snapshot() == Spawned(old(Snapshot()).(score := Add32(Add32(old(score), LinePoints(locked)), DROP_BONUS)), IsValidPosition(SPAWN_X, 0))
    {
      DropToBottom();
      ghost var dropped := Snapshot();
      LockWithBonus();
      assert dropped.(pieceY := old(pieceY)) == old(Snapshot());
    }

    /** The end of the hard drop: lock_piece, check_lines, the 20-point bonus and spawn_new_piece. */
    method LockWithBonus()
      requires Valid() && !gameOver
      modifies this, board
      ensures Valid()
      ensures var locked := Locked(old(Rows()), old(pieceX), old(pieceY), old(pieceType));
        Rows() == Cleared(locked)
        && Snapshot() == Spawned(old(Snapshot()).(score := Add32(Add32(old(score), LinePoints(locked)), DROP_BONUS)), IsValidPosition(SPAWN_X, 0))
    {
      ghost var locked := Locked(Rows(), pieceX, pieceY, pieceType);
      LockAndClear();
      score := Add32(score, DROP_BONUS);
      ghost var mid := Snapshot();
      SpawnNewPiece();
      needsRedraw := true;
      assert mid.(needsRedraw := old(needsRedraw)) == old(Snapshot()).(score := Add32(Add32(old(score), LinePoints(locked)), DROP_BONUS));
    }

    /** The loop of the hard drop: the piece moves down while the cell below it is free. */
    method DropToBottom()
      requires Valid() && !gameOver
      modifies `pieceY
      ensures Valid()
      ensures pieceY == Landing(Rows(), pieceX, old(pieceY))
    {
      ghost var y0 := pieceY;
      while IsValidPosition(pieceX, pieceY + 1)
        invariant Valid() && pieceY >= y0
        invariant Landing(Rows(), pieceX, pieceY) == Landing(Rows(), pieceX, y0)
        decreases BOARD_HEIGHT - pieceY
      {
        PositionOnRows(pieceX, pieceY + 1);
        pieceY := pieceY + 1;
      }
      PositionOnRows(pieceX, pieceY + 1);
    }

    /** tetris_input for the game keys (everything but Esc). */
    method PlayKey(c: char)
      requires Valid() && c != ESC
      modifies this, board
      ensures Valid()
      ensures c == ' ' && !old(gameOver) ==>
        var locked := Locked(old(Rows()), old(pieceX), Landing(old(Rows()), old(pieceX), old(pieceY)), old(pieceType));
        Rows() == Cleared(locked)
        && Snapshot() == Spawned(old(Snapshot()).(score := Add32(Add32(old(score), LinePoints(locked)), DROP_BONUS)), IsValidPosition(SPAWN_X, 0))
      ensures (c == 'r' || c == 'R') && old(gameOver) ==> Rows() == Blank(BOARD_HEIGHT) && Snapshot() == FRESH
      ensures c != ' ' && !((c == 'r' || c == 'R') && old(gameOver)) ==> Rows() == old(Rows())
      ensures (c == ' ' && old(gameOver)) || ((c == 'r' || c == 'R') && !old(gameOver)) ==> Snapshot() == old(Snapshot())
      ensures c == 'a' || c == 'A' ==> Snapshot() == Moved(old(Snapshot()), old(IsValidPosition(pieceX - 1, pieceY)), -1, 0, 0)
      ensures c == 'd' || c == 'D' ==> Snapshot() == Moved(old(Snapshot()), old(IsValidPosition(pieceX + 1, pieceY)), 1, 0, 0)
      ensures c == 's' || c == 'S' ==> Snapshot() == Moved(old(Snapshot()), old(IsValidPosition(pieceX, pieceY + 1)), 0, 1, SOFT_DROP_SCORE)
      ensures c !in " rRaAdDsS" ==> Snapshot() == old(Snapshot())
    {
      if c == ' ' {
        if !gameOver {
          HardDrop();
        }
      } else if c == 'r' || c == 'R' {
        if gameOver {
          Init();
        }
      } else if c == 'a' || c == 'A' {
        Move(-1, 0, 0);
      } else if c == 'd' || c == 'D' {
        Move(1, 0, 0);
      } else if c == 's' || c == 'S' {
        Move(0, 1, SOFT_DROP_SCORE);
      }
    }

    /** tetris_input: Esc stops the game and hands the TTY back to the shell; other keys play. */
    method Input(c: char, table: Tty.TtyTable)
      requires Valid() && table.Valid()
      modifies this, board, table.ttys, table.buffers
      ensures Valid() && table.Valid()
      ensures c == ESC ==> Snapshot() == old(Snapshot()).(running := false) && Rows() == old(Rows())
      ensures c == ESC ==> table.ttys[..] == old(table.ttys[..])[table.current :=
        Tty.Restored(old(table.ttys[table.current]), table.backup[table.current])]
      ensures c != ESC ==> table.ttys[..] == old(table.ttys[..]) && unchanged(table.buffers)
    {
      if c == ESC {
        running := false;
        table.RestoreToShell();
      } else {
        PlayKey(c);
      }
    }

    /** tetris_special_input: the arrow keys move left, right or down; nothing once the game is over. */
    method SpecialInput(scancode: byte)
      requires Valid()
      modifies this
      ensures Valid()
      ensures scancode == Keyboard.KEY_LEFT ==> Snapshot() == Moved(old(Snapshot()), old(IsValidPosition(pieceX - 1, pieceY)), -1, 0, 0)
      ensures scancode == Keyboard.KEY_RIGHT ==> Snapshot() == Moved(old(Snapshot()), old(IsValidPosition(pieceX + 1, pieceY)), 1, 0, 0)
      ensures scancode == Keyboard.KEY_DOWN ==> Snapshot() == Moved(old(Snapshot()), old(IsValidPosition(pieceX, pieceY + 1)), 0, 1, SOFT_DROP_SCORE)
      ensures scancode !in {Keyboard.KEY_LEFT, Keyboard.KEY_RIGHT, Keyboard.KEY_DOWN} ==> Snapshot() == old(Snapshot())
    {
      if gameOver {
        return;
      }
      if scancode == Keyboard.KEY_LEFT {
        Move(-1, 0, 0);
      } else if scancode == Keyboard.KEY_RIGHT {
        Move(1, 0, 0);
      } else if scancode == Keyboard.KEY_DOWN {
        Move(0, 1, SOFT_DROP_SCORE);
      }
    }
  }

  /**
   * The board during check_lines' bottom-up scan at row y: the rows of the
   * original board from m on have been scanned and their survivors sit at
   * the bottom, rows[..m] are still untouched above them, and the rows above
   * those are blank padding. When m is 0 only padding is left to scan.
   */
  ghost predicate Scanning(rows: seq<Row>, m: nat, y: int, cur: seq<Row>)
  {
    && |rows| == BOARD_HEIGHT && -1 <= y < BOARD_HEIGHT && m <= y + 1
    && y + 1 <= BOARD_HEIGHT - |Kept(rows[m..])|
    && (m > 0 ==> y + 1 == BOARD_HEIGHT - |Kept(rows[m..])|)
    && cur == Blank(BOARD_HEIGHT - m - |Kept(rows[m..])|) + rows[..m] + Kept(rows[m..])
  }

  /** One step of the scan: a full row at y is the original row m - 1, and removing it keeps the scan's shape. */
  lemma ScanStep(rows: seq<Row>, m: nat, k: nat, y: int, cur: seq<Row>)
    requires Scanning(rows, m, y, cur) && 0 <= y && k == if m > 0 then m - 1 else 0
    ensures y < |cur|
    ensures Full(cur[y]) ==>
      && m > 0
      && Scanning(rows, k, y, [EmptyRow()] + cur[..y] + cur[y + 1..])
      && LinePoints(rows[k..]) == LinePoints(rows[m..]) + LINE_SCORE
      && FullCount(rows[k..]) > 0
    ensures !Full(cur[y]) ==>
      && Scanning(rows, k, y - 1, cur)
      && LinePoints(rows[k..]) == LinePoints(rows[m..])
      && FullCount(rows[k..]) == FullCount(rows[m..])
  {
    if m == 0 {
      EmptyRowNotFull();
      assert cur[y] == EmptyRow();
    } else {
      ClearStep(rows, m, k, y, cur);
    }
  }

  /** When the scan has passed the top row, the board is the cleared original. */
  lemma ScanDone(rows: seq<Row>, m: nat, cur: seq<Row>)
    requires Scanning(rows, m, -1, cur)
    ensures cur == Cleared(rows)
  {
    assert rows[0..] == rows;
  }

  /** One step of check_lines' scan, on values: the row under the scan and the board after it is handled. */
  lemma ClearStep(rows: seq<Row>, m: nat, k: nat, y: int, board: seq<Row>)
    requires 0 < m <= |rows| == BOARD_HEIGHT && k == m - 1 && y + 1 == BOARD_HEIGHT - |Kept(rows[m..])|
    requires board == Blank(BOARD_HEIGHT - m - |Kept(rows[m..])|) + rows[..m] + Kept(rows[m..])
    ensures 0 <= y < |board| && board[y] == rows[k]
    ensures Full(rows[k]) ==>
      && [EmptyRow()] + board[..y] + board[y + 1..]
         == Blank(BOARD_HEIGHT - k - |Kept(rows[k..])|) + rows[..k] + Kept(rows[k..])
      && |Kept(rows[k..])| == |Kept(rows[m..])|
      && LinePoints(rows[k..]) == LinePoints(rows[m..]) + LINE_SCORE
      && FullCount(rows[k..]) > 0
    ensures !Full(rows[k]) ==>
      && board == Blank(BOARD_HEIGHT - k - |Kept(rows[k..])|) + rows[..k] + Kept(rows[k..])
      && |Kept(rows[k..])| == |Kept(rows[m..])| + 1
      && LinePoints(rows[k..]) == LinePoints(rows[m..])
      && FullCount(rows[k..]) == FullCount(rows[m..])
  {
    var z := BOARD_HEIGHT - m - |Kept(rows[m..])|;
    assert rows[k..][1..] == rows[m..];
    assert rows[..m] == rows[..k] + [rows[k]];
    if Full(rows[k]) {
      assert board[..y] == Blank(z) + rows[..k];
      assert board[y + 1..] == Kept(rows[m..]);
      assert [EmptyRow()] + Blank(z) == Blank(z + 1);
    }
  }
}
