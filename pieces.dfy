/** Falling pieces: a type letter, a 0/1 shape matrix (true for a filled
    cell) and the board position (x, y) of the shape's top-left corner. */
module Pieces {
  import opened Grid

  type Shape = seq<seq<bool>>

  /** The fixed shape templates, one per piece type: each is a rectangle
      of at most 3 rows and 4 columns with at least one filled cell, found
      in one of the first two cells of the top row. */
  function Template(k: Kind): (m: Shape)
    ensures |m| > 0 && |m[0]| >= 2 && (m[0][0] || m[0][1])
    ensures IsShape(m) && |m| <= 3 && |m[0]| <= 4
  {
    match k
    case I => [[true, true, true, true]]
    case O => [[true, true], [true, true]]
    case T => [[false, true, false], [true, true, true]]
    case L => [[true, false], [true, false], [true, true]]
    case J => [[false, true], [false, true], [true, true]]
    case S => [[false, true, true], [true, true, false]]
    case Z => [[true, true, false], [false, true, true]]
  }

  /** The kid-friendly bag the next piece type is drawn from: O and I twice,
      T, L and J once, S and Z never. */
  const BAG: seq<Kind> := [O, I, T, O, I, L, J]

  /** The bag's odds: O and I are drawn twice as often as T, L and J, and
      S and Z are never drawn. */
  lemma BagDraws()
    ensures |BAG| == 7
    ensures multiset(BAG)[O] == 2 && multiset(BAG)[I] == 2
    ensures multiset(BAG)[T] == 1 && multiset(BAG)[L] == 1 && multiset(BAG)[J] == 1
    ensures S !in BAG && Z !in BAG
  {
  }

  datatype Piece = Piece(kind: Kind, shape: Shape, x: int, y: int)

  /** A non-empty rectangular matrix with at least one column. */
  predicate IsMatrix<A>(m: seq<seq<A>>)
  {
    |m| > 0 && |m[0]| > 0 && forall r :: 0 <= r < |m| ==> |m[r]| == |m[0]|
  }

  predicate HasBlock(m: Shape)
  {
    exists r, c :: 0 <= r < |m| && 0 <= c < |m[r]| && m[r][c]
  }

  /** A shape a piece can have: rectangular, with at least one filled cell. */
  predicate IsShape(m: Shape)
  {
    IsMatrix(m) && HasBlock(m)
  }

  function BottomRow(m: Shape): seq<bool>
    requires |m| > 0
  {
    m[|m| - 1]
  }

  /** The column that centres a shape horizontally on the board. */
  function SpawnX(m: Shape): int
    requires |m| > 0
  {
    (COLS - |m[0]|) / 2
  }

  /** The same piece moved by (dx, dy). */
  function Moved(p: Piece, dx: int, dy: int): Piece
  {
    p.(x := p.x + dx, y := p.y + dy)
  }

  /** spawn's re-centring: top row, horizontally centred. */
  function Recentred(p: Piece): Piece
    requires |p.shape| > 0
  {
    p.(x := SpawnX(p.shape), y := 0)
  }

  /** createPiece: a copy of the template, centred on the top row, and
      entirely inside the board's columns. */
  function CreatePiece(k: Kind): (p: Piece)
    ensures p.kind == k && p.shape == Template(k) && IsShape(p.shape)
    ensures p.y == 0 && 0 <= p.x && p.x + |p.shape[0]| <= COLS
    ensures |p.shape| <= ROWS / 2
    ensures Recentred(p) == p
  {
    Piece(k, Template(k), SpawnX(Template(k)), 0)
  }

  /** The quarter turn clockwise of an h x w matrix: a w x h matrix whose
      row x lists column x of the input read from the bottom up. */
  ghost function Rotated<A>(m: seq<seq<A>>): (r: seq<seq<A>>)
    requires IsMatrix(m)
    ensures IsMatrix(r) && |r| == |m[0]| && |r[0]| == |m|
    ensures forall x, i :: 0 <= x < |m[0]| && 0 <= i < |m| ==> r[x][i] == m[|m| - 1 - i][x]
  {
    seq(|m[0]|, x requires 0 <= x < |m[0]| =>
      seq(|m|, i requires 0 <= i < |m| => m[|m| - 1 - i][x]))
  }

  /** rotateMatrix: builds the turned matrix column by column into a new
      matrix; the input is a value and is left as it was. */
  method RotateMatrix<A>(m: seq<seq<A>>) returns (r: seq<seq<A>>)
    requires IsMatrix(m)
    ensures |r| == |m[0]|
    ensures forall x :: 0 <= x < |r| ==> |r[x]| == |m|
    ensures forall x, i :: 0 <= x < |m[0]| && 0 <= i < |m| ==> r[x][i] == m[|m| - 1 - i][x]
    ensures r == Rotated(m)
  {
    var h, w := |m|, |m[0]|;
    r := [];
    var x := 0;
    while x < w
      invariant 0 <= x <= w
      invariant r == Rotated(m)[..x]
    {
      var row := [];
      var y := h - 1;
      while y >= 0
        invariant -1 <= y < h
        invariant |row| == h - 1 - y
        invariant forall i :: 0 <= i < |row| ==> row[i] == m[h - 1 - i][x]
      {
        row := row + [m[y][x]];
        y := y - 1;
      }
      assert row == Rotated(m)[x];
      r := r + [row];
      x := x + 1;
    }
  }

  /** A turned matrix is again a matrix, and a turned shape keeps its
      filled cells, so a piece can always be turned again. */
  lemma RotatedIsShape(m: Shape)
    requires IsShape(m)
    ensures IsShape(Rotated(m))
    ensures |Rotated(m)| == |m[0]| && |Rotated(m)[0]| == |m|
  {
    var r := Rotated(m);
    var y, x :| 0 <= y < |m| && 0 <= x < |m[y]| && m[y][x];
    assert r[x][|m| - 1 - y] == m[y][x];
  }

  /** The half turn of a matrix: both axes reversed. */
  ghost function HalfTurned<A>(m: seq<seq<A>>): (r: seq<seq<A>>)
    requires IsMatrix(m)
    ensures IsMatrix(r) && |r| == |m| && |r[0]| == |m[0]|
  {
    seq(|m|, a requires 0 <= a < |m| =>
      seq(|m[0]|, b requires 0 <= b < |m[0]| => m[|m| - 1 - a][|m[0]| - 1 - b]))
  }

  /** Two quarter turns are a half turn. */
  lemma HalfTurn<A>(m: seq<seq<A>>)
    requires IsMatrix(m)
    ensures IsMatrix(Rotated(m))
    ensures Rotated(Rotated(m)) == HalfTurned(m)
  {
    var h, w := |m|, |m[0]|;
    var r := Rotated(m);
    assert |r| == w && |r[0]| == h;
    assert IsMatrix(r);
    var rr := Rotated(r);
    assert |rr| == h;
    forall a | 0 <= a < h
      ensures rr[a] == HalfTurned(m)[a]
    {
      forall b | 0 <= b < w
        ensures rr[a][b] == m[h - 1 - a][w - 1 - b]
      {
        assert rr[a][b] == r[w - 1 - b][a];
      }
    }
  }

  /** Two half turns give back the original matrix. */
  lemma HalfTurnTwice<A>(m: seq<seq<A>>)
    requires IsMatrix(m)
    ensures HalfTurned(HalfTurned(m)) == m
  {
    var hh := HalfTurned(HalfTurned(m));
    forall a | 0 <= a < |m|
      ensures hh[a] == m[a]
    {
      assert |hh[a]| == |m[a]|;
    }
  }

  /** Four quarter turns give back the original matrix, square or not. */
  lemma RotateFourTimes<A>(m: seq<seq<A>>)
    requires IsMatrix(m)
    ensures IsMatrix(Rotated(Rotated(m)))
    ensures Rotated(Rotated(Rotated(Rotated(m)))) == m
  {
    HalfTurn(m);
    HalfTurn(HalfTurned(m));
    HalfTurnTwice(m);
  }
}
