/** The game session: the board, the falling piece, the queued piece, the
    score and line counters and the pause flag, with the operations the
    controls and the gravity timer invoke. */
module Engine {
  import opened Grid
  import opened Pieces
  import opened Collision

  /** A freshly created piece always fits once the rescue has emptied the
      top half of the board, whatever the bottom half holds. */
  lemma SpawnFitsAfterRescue(b: Board, k: Kind)
    requires IsBoard(b)
    ensures !Collides(Softened(b), CreatePiece(k))
  {
    FitsOnEmptyRows(Softened(b), CreatePiece(k));
  }

  /** A freshly created piece always fits on an empty board. */
  lemma SpawnFitsOnEmptyBoard(k: Kind)
    ensures IsBoard(EmptyRows(ROWS)) && !Collides(EmptyRows(ROWS), CreatePiece(k))
  {
    FitsOnEmptyRows(EmptyRows(ROWS), CreatePiece(k));
  }

  /** An O piece spawns in columns 4 and 5 and, on an empty board, falls
      to the two bottom rows. */
  lemma OLandsOnFloor()
    ensures var p := CreatePiece(O);
      p.x == 4 && IsBoard(EmptyRows(ROWS)) && !Collides(EmptyRows(ROWS), p) &&
      LandingY(EmptyRows(ROWS), p) == 16
  {
    var p := CreatePiece(O);
    assert BottomRow(p.shape)[0];
    LandingOnEmptyBoard(p);
  }

  /** Locking an O piece on the two bottom rows of an empty board fills
      columns 4 and 5 there, completes no row, leaves the top rows empty,
      and so leaves nothing for clearLines to do. */
  lemma OLockedOnFloor()
    ensures var m := Merged(EmptyRows(ROWS), CreatePiece(O).(y := 16));
      && m[16][4] == m[16][5] == m[17][4] == m[17][5] == Block(O)
      && (forall r :: 0 <= r < ROWS / 2 ==> m[r] == EmptyRow())
      && FullCount(m) == 0 && Cleared(m) == m
  {
    var p := CreatePiece(O).(y := 16);
    var m := Merged(EmptyRows(ROWS), p);
    assert Covers(p, 16, 4) && Covers(p, 17, 5);
    forall r | 0 <= r < ROWS
      ensures !IsFull(m[r])
    {
      assert m[r][0] == Empty;
    }
    ClearedWithoutFullRow(m);
  }

  class Game {
    var board: Board
    var score: nat
    var lines: nat
    var paused: bool
    var current: Piece
    var next: Piece

    /** The session invariant: the board keeps its size, the falling piece
        has a proper shape and never overlaps anything, and the queued piece
        is a fresh template piece. */
    ghost predicate Valid()
      reads this
    {
      && IsBoard(board)
      && IsShape(current.shape)
      && !Collides(board, current)
      && next == CreatePiece(next.kind)
    }

    /** The state lockPiece leaves when piece p is locked into board b0 with
        queued piece next0, and `pick` chooses the new queued piece: p merged,
        full rows cleared and scored, next0 spawned, and the rescue run if
        next0 does not fit. */
    ghost predicate LockedFrom(b0: Board, p: Piece, next0: Piece, score0: nat, lines0: nat, pick: nat)
      reads this
      requires IsBoard(b0) && |next0.shape| > 0 && pick < |BAG|
    {
      var merged := Merged(b0, p);
      var k := FullCount(merged);
      var spawned := Recentred(next0);
      var rescue := Collides(Cleared(merged), spawned);
      && current == spawned
      && next == CreatePiece(BAG[pick])
      && board == (if rescue then Softened(Cleared(merged)) else Cleared(merged))
      && lines == lines0 + k
      && score == score0 + 100 * k + (if rescue then 30 else 0)
    }

    /** Start-up: an empty board, zero counters, paused until the guide is
        dismissed; a queued piece is created and then spawned. */
    constructor (first: nat, second: nat)
      requires first < |BAG| && second < |BAG|
      ensures Valid()
      ensures board == EmptyRows(ROWS) && score == 0 && lines == 0 && paused
      ensures current == CreatePiece(BAG[first]) && next == CreatePiece(BAG[second])
    {
      var empty := CreateBoard();
      board := empty;
      score, lines, paused := 0, 0, true;
      next := CreatePiece(BAG[first]);
      current := next;
      new;
      SpawnFitsOnEmptyBoard(next.kind);
      var rescued := Spawn(second);
    }

    /** merge: writes the piece's letter under each of its filled cells on
        the visible board. The column is not checked, so the piece must fit. */
    method Merge(p: Piece)
      requires IsBoard(board) && !Collides(board, p)
      modifies this`board
      ensures board == Merged(old(board), p)
    {
      ghost var b0 := board;
      var y := 0;
      while y < |p.shape|
        invariant 0 <= y <= |p.shape|
        invariant IsBoard(board)
        invariant forall r, c :: 0 <= r < ROWS && 0 <= c < COLS ==>
          board[r][c] == if Covers(p, r, c) && r - p.y < y then Block(p.kind) else b0[r][c]
      {
        var x := 0;
        while x < |p.shape[y]|
          invariant 0 <= x <= |p.shape[y]|
          invariant IsBoard(board)
          invariant forall r, c :: 0 <= r < ROWS && 0 <= c < COLS ==>
            board[r][c] ==
              if Covers(p, r, c) && (r - p.y < y || (r - p.y == y && c - p.x < x)) then Block(p.kind)
              else b0[r][c]
        {
          if p.shape[y][x] {
            var row := p.y + y;
            if row >= 0 {
              NotCollidingCells(b0, p, y, x);
              board := board[row := board[row][p.x + x := Block(p.kind)]];
            }
          }
          x := x + 1;
        }
        y := y + 1;
      }
      forall r | 0 <= r < ROWS
        ensures board[r] == Merged(b0, p)[r]
      {
      }
    }

    /** clearLines: scans from the bottom row up; a full row is spliced out,
        an empty row is pushed on top and the same index is examined again.
        Each cleared row scores 100 and counts one line; `milestone` reports
        that the line total reached a multiple of five. */
    method ClearLines() returns (cleared: nat, milestone: bool)
      requires IsBoard(board)
      modifies this`board, this`score, this`lines
      ensures board == Cleared(old(board))
      ensures cleared == FullCount(old(board))
      ensures lines == old(lines) + cleared
      ensures score == old(score) + 100 * cleared
      ensures milestone <==> cleared > 0 && lines % 5 == 0
      ensures cleared == 0 ==> board == old(board)
    {
      ClearedWithoutFullRow(board);
      var rows;
      rows, cleared := RemoveFullRows(board);
      board := rows;
      if cleared > 0 {
        lines := lines + cleared;
        score := score + cleared * 100;
      }
      milestone := cleared > 0 && lines % 5 == 0;
    }

    /** softenTopRows: replaces each of the top ROWS / 2 rows by an empty row. */
    method SoftenTopRows()
      requires IsBoard(board)
      modifies this`board
      ensures board == Softened(old(board))
    {
      var y := 0;
      while y < ROWS / 2
        invariant 0 <= y <= ROWS / 2
        invariant |board| == ROWS
        invariant forall r :: 0 <= r < y ==> board[r] == EmptyRow()
        invariant forall r :: y <= r < ROWS ==> board[r] == old(board)[r]
      {
        board := board[y := EmptyRow()];
        y := y + 1;
      }
      assert board == Softened(old(board));
    }

    /** emergencyRescue: empties the top half and awards a flat 30 points. */
    method EmergencyRescue()
      requires IsBoard(board)
      modifies this`board, this`score
      ensures board == Softened(old(board))
      ensures score == old(score) + 30
    {
      SoftenTopRows();
      score := score + 30;
    }

    /** spawn: the queued piece becomes the falling piece, re-centred on the
        top row; a new piece is queued; if the falling piece overlaps the
        board, the rescue runs instead of ending the game. Either way the
        falling piece fits afterwards. */
    method Spawn(pick: nat) returns (rescued: bool)
      requires IsBoard(board) && next == CreatePiece(next.kind) && pick < |BAG|
      modifies this`current, this`next, this`board, this`score
      ensures IsBoard(board)
      ensures current == Recentred(old(next)) && IsShape(current.shape)
      ensures next == CreatePiece(BAG[pick])
      ensures rescued <==> Collides(old(board), current)
      ensures board == if rescued then Softened(old(board)) else old(board)
      ensures score == old(score) + if rescued then 30 else 0
      ensures !Collides(board, current)
      ensures Valid()
    {
      current := next;
      next := CreatePiece(BAG[pick]);
      current := Recentred(current);
      rescued := Collide(board, current);
      if rescued {
        EmergencyRescue();
        SpawnFitsAfterRescue(old(board), current.kind);
      }
    }

    /** The first two steps of lockPiece: the falling piece is merged and
        the full rows of the merged board are cleared and scored. */
    method MergeAndClear()
      requires IsBoard(board) && !Collides(board, current)
      modifies this`board, this`score, this`lines
      ensures IsBoard(board)
      ensures var merged := Merged(old(board), current);
        && board == Cleared(merged)
        && lines == old(lines) + FullCount(merged)
        && score == old(score) + 100 * FullCount(merged)
    {
      Merge(current);
      var cleared, milestone := ClearLines();
    }

    /** lockPiece: merge the falling piece, clear full rows, spawn the next. */
    method LockPiece(pick: nat)
      requires Valid() && pick < |BAG|
      modifies this`board, this`score, this`lines, this`current, this`next
      ensures Valid() && paused == old(paused)
      ensures LockedFrom(old(board), old(current), old(next), old(score), old(lines), pick)
    {
      MergeAndClear();
      var rescued := Spawn(pick);
    }

    /** The loop of hardDrop: the piece moves down one row at a time until
        it collides, then steps back up to the last row where it fit. */
    method FallToLanding()
      requires Valid()
      modifies this`current
      ensures Valid()
      ensures current == old(current).(y := LandingY(board, old(current)))
    {
      ghost var c0 := current;
      var hit := Collide(board, current);
      while !hit
        invariant current == c0.(y := current.y)
        invariant hit <==> Collides(board, current)
        invariant hit ==> current.y - 1 == LandingY(board, c0)
        invariant !hit ==> LandingY(board, current) == LandingY(board, c0)
        decreases ROWS - current.y
      {
        NotCollidingAboveFloor(board, current);
        ghost var above := current;
        current := current.(y := current.y + 1);
        assert current == Moved(above, 0, 1);
        hit := Collide(board, current);
      }
      current := current.(y := current.y - 1);
    }

    /** hardDrop: while paused nothing happens; otherwise the piece falls
        until the next row down collides and is locked there. */
    method HardDrop(pick: nat)
      requires Valid() && pick < |BAG|
      modifies this`board, this`score, this`lines, this`current, this`next
      ensures Valid() && paused == old(paused)
      ensures old(paused) ==> unchanged(this)
      ensures !old(paused) ==>
        LockedFrom(old(board), old(current).(y := LandingY(old(board), old(current))),
                   old(next), old(score), old(lines), pick)
    {
      if paused {
        return;
      }
      FallToLanding();
      LockPiece(pick);
    }

    /** move: while paused nothing happens; otherwise the piece shifts by dx
        columns unless that would collide, in which case it stays put. */
    method Move(dx: int)
      requires Valid()
      modifies this`current
      ensures Valid()
      ensures var shifted := Moved(old(current), dx, 0);
        current == if !paused && !Collides(board, shifted) then shifted else old(current)
    {
      if paused {
        return;
      }
      current := current.(x := current.x + dx);
      var hit := Collide(board, current);
      if hit {
        current := current.(x := current.x - dx);
      }
    }

    /** softDrop: while paused nothing happens; otherwise the piece moves
        down one row, or, if that row collides, stays and is locked. */
    method SoftDrop(pick: nat)
      requires Valid() && pick < |BAG|
      modifies this`board, this`score, this`lines, this`current, this`next
      ensures Valid() && paused == old(paused)
      ensures old(paused) ==> unchanged(this)
      ensures !old(paused) && !Collides(old(board), Moved(old(current), 0, 1)) ==>
        current == Moved(old(current), 0, 1) && board == old(board) && next == old(next) &&
        score == old(score) && lines == old(lines)
      ensures !old(paused) && Collides(old(board), Moved(old(current), 0, 1)) ==>
        LockedFrom(old(board), old(current), old(next), old(score), old(lines), pick)
    {
      if paused {
        return;
      }
      current := current.(y := current.y + 1);
      var hit := Collide(board, current);
      if hit {
        current := current.(y := current.y - 1);
        LockPiece(pick);
      }
    }

    /** rotate: while paused nothing happens; otherwise the turned shape is
        tried in place, then one column right, then one column left; if all
        three collide the original shape and column are restored. */
    method Rotate()
      requires Valid()
      modifies this`current
      ensures Valid()
      ensures old(paused) ==> current == old(current)
      ensures !old(paused) ==>
        var turned := old(current).(shape := Rotated(old(current).shape));
        current ==
          if !Collides(board, turned) then turned
          else if !Collides(board, Moved(turned, 1, 0)) then Moved(turned, 1, 0)
          else if !Collides(board, Moved(turned, -1, 0)) then Moved(turned, -1, 0)
          else old(current)
    {
      if paused {
        return;
      }
      var original := current.shape;
      RotatedIsShape(original);
      var turned := RotateMatrix(current.shape);
      current := current.(shape := turned);
      var hit := Collide(board, current);
      if hit {
        current := current.(x := current.x + 1);
        hit := Collide(board, current);
        if hit {
          current := current.(x := current.x - 2);
          hit := Collide(board, current);
          if hit {
            current := current.(x := current.x + 1, shape := original);
          }
        }
      }
    }

    /** The restart button: a new empty board, zero counters, unpaused, and
        the queued piece spawned (on an empty board it always fits). */
    method Restart(pick: nat)
      requires Valid() && pick < |BAG|
      modifies this`board, this`score, this`lines, this`paused, this`current, this`next
      ensures Valid()
      ensures board == EmptyRows(ROWS) && score == 0 && lines == 0 && !paused
      ensures current == old(next) && next == CreatePiece(BAG[pick])
    {
      board := CreateBoard();
      score := 0;
      lines := 0;
      paused := false;
      SpawnFitsOnEmptyBoard(next.kind);
      var rescued := Spawn(pick);
    }

    /** The pause button flips the pause flag. */
    method TogglePause()
      modifies this`paused
      ensures paused == !old(paused)
    {
      paused := !paused;
    }

    /** The guide buttons: opening the guide pauses, starting from it resumes. */
    method SetPaused(p: bool)
      modifies this`paused
      ensures paused == p
    {
      paused := p;
    }
  }

  /** A hard drop straight after start-up, with O drawn for both pieces:
      the O piece locks on the two bottom rows in columns 4 and 5, no line
      is cleared, the score stays 0, and the next O piece spawns without a
      rescue: the board is exactly the empty board with the piece merged. */
  method HardDropOAfterStart() returns (score: nat, lines: nat, board: Board)
    ensures score == 0 && lines == 0
    ensures board == Merged(EmptyRows(ROWS), CreatePiece(O).(y := 16))
    ensures board[16][4] == board[16][5] == board[17][4] == board[17][5] == Block(O)
  {
    var g := new Game(0, 0);
    g.SetPaused(false);
    OLandsOnFloor();
    OLockedOnFloor();
    ghost var m := Merged(EmptyRows(ROWS), CreatePiece(O).(y := 16));
    FitsOnEmptyRows(m, CreatePiece(O));
    g.HardDrop(0);
    score, lines, board := g.score, g.lines, g.board;
  }
}
