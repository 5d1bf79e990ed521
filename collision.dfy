/** The collision test and the board a piece leaves behind when it locks. */
module Collision {
  import opened Grid
  import opened Pieces

  /** Whether a filled piece cell landing on absolute cell (px, py) is in the
      way: outside the columns, at or below the floor, or on an occupied
      visible cell. Cells above the top edge (py < 0) never collide. */
  predicate Blocked(b: Board, px: int, py: int)
    requires IsBoard(b)
  {
    px < 0 || px >= COLS || py >= ROWS || (py >= 0 && b[py][px] != Empty)
  }

  /** Shape cell (dy, dx) of p is filled and blocked. */
  predicate CellBlocked(b: Board, p: Piece, dy: int, dx: int)
    requires IsBoard(b)
    requires 0 <= dy < |p.shape| && 0 <= dx < |p.shape[dy]|
  {
    p.shape[dy][dx] && Blocked(b, p.x + dx, p.y + dy)
  }

  /** collide: some filled cell of the piece is blocked. */
  ghost predicate Collides(b: Board, p: Piece)
    requires IsBoard(b)
  {
    exists dy, dx :: 0 <= dy < |p.shape| && 0 <= dx < |p.shape[dy]| && CellBlocked(b, p, dy, dx)
  }

  /** collide as the game runs it: row by row, cell by cell, returning at
      the first blocked filled cell. */
  method Collide(b: Board, p: Piece) returns (hit: bool)
    requires IsBoard(b)
    ensures hit <==> Collides(b, p)
  {
    var y := 0;
    while y < |p.shape|
      invariant 0 <= y <= |p.shape|
      invariant forall dy, dx :: 0 <= dy < y && 0 <= dx < |p.shape[dy]| ==> !CellBlocked(b, p, dy, dx)
    {
      var x := 0;
      while x < |p.shape[y]|
        invariant 0 <= x <= |p.shape[y]|
        invariant forall dx :: 0 <= dx < x ==> !CellBlocked(b, p, y, dx)
        invariant forall dy, dx :: 0 <= dy < y && 0 <= dx < |p.shape[dy]| ==> !CellBlocked(b, p, dy, dx)
      {
        if p.shape[y][x] {
          var px, py := p.x + x, p.y + y;
          if px < 0 || px >= COLS || py >= ROWS {
            assert CellBlocked(b, p, y, x);
            return true;
          }
          if py >= 0 && b[py][px] != Empty {
            assert CellBlocked(b, p, y, x);
            return true;
          }
        }
        x := x + 1;
      }
      y := y + 1;
    }
    return false;
  }

  /** A filled cell outside the columns or at or below the floor is a collision. */
  lemma OutOfBoundsCollides(b: Board, p: Piece, dy: int, dx: int)
    requires IsBoard(b)
    requires 0 <= dy < |p.shape| && 0 <= dx < |p.shape[dy]| && p.shape[dy][dx]
    requires p.x + dx < 0 || p.x + dx >= COLS || p.y + dy >= ROWS
    ensures Collides(b, p)
  {
    assert CellBlocked(b, p, dy, dx);
  }

  /** A piece whose filled cells all lie above the top edge, inside the
      columns, never collides, whatever the board holds. */
  lemma AboveTopNeverCollides(b: Board, p: Piece)
    requires IsBoard(b)
    requires forall dy, dx :: 0 <= dy < |p.shape| && 0 <= dx < |p.shape[dy]| && p.shape[dy][dx] ==>
      p.y + dy < 0 && 0 <= p.x + dx < COLS
    ensures !Collides(b, p)
  {
  }

  /** Whether board cell (r, c) lies under a filled cell of p. */
  predicate Covers(p: Piece, r: int, c: int)
  {
    0 <= r - p.y < |p.shape| && 0 <= c - p.x < |p.shape[r - p.y]| && p.shape[r - p.y][c - p.x]
  }

  /** The collision test reads only the board cells under the piece: two
      boards that agree there give the same answer. */
  lemma CollidesReadsOnlyCovered(b1: Board, b2: Board, p: Piece)
    requires IsBoard(b1) && IsBoard(b2)
    requires forall r, c :: 0 <= r < ROWS && 0 <= c < COLS && Covers(p, r, c) ==> b1[r][c] == b2[r][c]
    ensures Collides(b1, p) <==> Collides(b2, p)
  {
    forall dy, dx | 0 <= dy < |p.shape| && 0 <= dx < |p.shape[dy]|
      ensures CellBlocked(b1, p, dy, dx) <==> CellBlocked(b2, p, dy, dx)
    {
      var r, c := p.y + dy, p.x + dx;
      if p.shape[dy][dx] && 0 <= r < ROWS && 0 <= c < COLS {
        assert Covers(p, r, c);
      }
    }
  }

  /** A piece that does not collide lies inside the columns, above the
      floor, and is not on an occupied cell. */
  lemma NotCollidingCells(b: Board, p: Piece, dy: int, dx: int)
    requires IsBoard(b) && !Collides(b, p)
    requires 0 <= dy < |p.shape| && 0 <= dx < |p.shape[dy]| && p.shape[dy][dx]
    ensures 0 <= p.x + dx < COLS && p.y + dy < ROWS
    ensures p.y + dy >= 0 ==> b[p.y + dy][p.x + dx] == Empty
  {
    assert !CellBlocked(b, p, dy, dx);
  }

  /** A shape with a filled cell that does not collide starts above the floor. */
  lemma NotCollidingAboveFloor(b: Board, p: Piece)
    requires IsBoard(b) && HasBlock(p.shape) && !Collides(b, p)
    ensures p.y < ROWS
  {
    var dy, dx :| 0 <= dy < |p.shape| && 0 <= dx < |p.shape[dy]| && p.shape[dy][dx];
    NotCollidingCells(b, p, dy, dx);
  }

  /** A rectangular piece inside the columns, whose rows are all empty
      board rows, does not collide. */
  lemma FitsOnEmptyRows(b: Board, p: Piece)
    requires IsBoard(b) && IsMatrix(p.shape)
    requires 0 <= p.x && p.x + |p.shape[0]| <= COLS
    requires 0 <= p.y && p.y + |p.shape| <= ROWS
    requires forall r :: p.y <= r < p.y + |p.shape| ==> b[r] == EmptyRow()
    ensures !Collides(b, p)
  {
    forall dy, dx | 0 <= dy < |p.shape| && 0 <= dx < |p.shape[dy]|
      ensures !CellBlocked(b, p, dy, dx)
    {
      assert b[p.y + dy] == EmptyRow();
    }
  }

  /** merge's effect: the cells under the piece's filled cells take its
      letter; cells of the piece above the top edge are dropped; every
      other cell is unchanged. */
  ghost function Merged(b: Board, p: Piece): (r: Board)
    requires IsBoard(b)
    ensures IsBoard(r)
  {
    seq(ROWS, y requires 0 <= y < ROWS =>
      seq(COLS, x requires 0 <= x < COLS =>
        if Covers(p, y, x) then Block(p.kind) else b[y][x]))
  }

  /** After merging a piece that fits, each of its filled cells on the
      visible board holds the piece's letter. */
  lemma MergedHoldsPiece(b: Board, p: Piece)
    requires IsBoard(b) && !Collides(b, p)
    ensures forall dy, dx :: 0 <= dy < |p.shape| && 0 <= dx < |p.shape[dy]| && p.shape[dy][dx] && p.y + dy >= 0 ==>
      p.y + dy < ROWS && 0 <= p.x + dx < COLS && Merged(b, p)[p.y + dy][p.x + dx] == Block(p.kind)
  {
    forall dy, dx | 0 <= dy < |p.shape| && 0 <= dx < |p.shape[dy]| && p.shape[dy][dx] && p.y + dy >= 0
      ensures p.y + dy < ROWS && 0 <= p.x + dx < COLS && Merged(b, p)[p.y + dy][p.x + dx] == Block(p.kind)
    {
      NotCollidingCells(b, p, dy, dx);
      assert Covers(p, p.y + dy, p.x + dx);
    }
  }

  /** Merging a piece that fits never overwrites an occupied cell, and an
      empty cell becomes occupied exactly when the piece covers it. */
  lemma MergedKeepsOccupied(b: Board, p: Piece)
    requires IsBoard(b) && !Collides(b, p)
    ensures forall r, c :: 0 <= r < ROWS && 0 <= c < COLS && b[r][c] != Empty ==> Merged(b, p)[r][c] == b[r][c]
    ensures forall r, c :: 0 <= r < ROWS && 0 <= c < COLS && b[r][c] == Empty ==>
      (Merged(b, p)[r][c] != Empty <==> Covers(p, r, c))
  {
    forall r, c | 0 <= r < ROWS && 0 <= c < COLS && b[r][c] != Empty
      ensures !Covers(p, r, c)
    {
      if Covers(p, r, c) {
        NotCollidingCells(b, p, r - p.y, c - p.x);
      }
    }
  }

  /** Once locked, the same piece in the same place collides with the
      board, provided one of its cells is visible. */
  lemma MergedPieceCollides(b: Board, p: Piece, dy: int, dx: int)
    requires IsBoard(b) && !Collides(b, p)
    requires 0 <= dy < |p.shape| && 0 <= dx < |p.shape[dy]| && p.shape[dy][dx] && p.y + dy >= 0
    ensures Collides(Merged(b, p), p)
  {
    MergedHoldsPiece(b, p);
    assert CellBlocked(Merged(b, p), p, dy, dx);
  }

  /** The row hardDrop locks a piece at: the piece falls one row at a time
      while the next row down is free. */
  ghost function LandingY(b: Board, p: Piece): (r: int)
    requires IsBoard(b) && HasBlock(p.shape) && !Collides(b, p)
    ensures p.y <= r < ROWS && !Collides(b, p.(y := r))
    decreases ROWS - p.y
  {
    NotCollidingAboveFloor(b, p);
    if Collides(b, Moved(p, 0, 1)) then
      assert p.(y := p.y) == p;
      p.y
    else
      assert Moved(p, 0, 1).(y := LandingY(b, Moved(p, 0, 1))) == p.(y := LandingY(b, Moved(p, 0, 1)));
      LandingY(b, Moved(p, 0, 1))
  }

  /** The landing row is the lowest row reachable by falling straight down:
      every row from the start to it is free and the row below is not. */
  lemma {:induction false} LandingYRests(b: Board, p: Piece)
    requires IsBoard(b) && HasBlock(p.shape) && !Collides(b, p)
    ensures p.y <= LandingY(b, p) < ROWS
    ensures forall k :: 0 <= k <= LandingY(b, p) - p.y ==> !Collides(b, Moved(p, 0, k))
    ensures Collides(b, Moved(p, 0, LandingY(b, p) - p.y + 1))
    decreases ROWS - p.y
  {
    NotCollidingAboveFloor(b, p);
    var down := Moved(p, 0, 1);
    if Collides(b, down) {
      assert Moved(p, 0, 0) == p;
    } else {
      LandingYRests(b, down);
      var land := LandingY(b, p);
      forall k | 0 <= k <= land - p.y
        ensures !Collides(b, Moved(p, 0, k))
      {
        if k > 0 {
          assert Moved(p, 0, k) == Moved(down, 0, k - 1);
        } else {
          assert Moved(p, 0, k) == p;
        }
      }
      assert Moved(p, 0, land - p.y + 1) == Moved(down, 0, land - down.y + 1);
    }
  }

  /** On an empty board a piece whose bottom row has a filled cell lands
      with that row on the floor. */
  lemma {:induction false} LandingOnEmptyBoard(p: Piece)
    requires IsShape(p.shape) && 0 <= p.x && p.x + |p.shape[0]| <= COLS
    requires 0 <= p.y && p.y + |p.shape| <= ROWS
    requires exists dx :: 0 <= dx < |p.shape[0]| && BottomRow(p.shape)[dx]
    ensures IsBoard(EmptyRows(ROWS)) && !Collides(EmptyRows(ROWS), p)
    ensures LandingY(EmptyRows(ROWS), p) == ROWS - |p.shape|
    decreases ROWS - p.y
  {
    var b := EmptyRows(ROWS);
    FitsOnEmptyRows(b, p);
    var down := Moved(p, 0, 1);
    if p.y + |p.shape| == ROWS {
      var dx :| 0 <= dx < |p.shape[0]| && BottomRow(p.shape)[dx];
      OutOfBoundsCollides(b, down, |p.shape| - 1, dx);
    } else {
      FitsOnEmptyRows(b, down);
      LandingOnEmptyBoard(down);
    }
  }
}
