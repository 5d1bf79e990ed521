/** The playing field of the game: a fixed grid of ROWS rows of COLS cells,
    row 0 at the top (the spawn edge) and row ROWS - 1 at the bottom.
    Also the row-level operations used when locking a piece: detecting full
    rows, removing them while keeping the rest in order, and the rescue that
    empties the top half. */
module Grid {

  const ROWS: nat := 18
  const COLS: nat := 10

  /** The seven piece types; each names a shape template and a colour. */
  datatype Kind = I | O | T | L | J | S | Z

  /** A board cell: empty (the empty string in the game) or holding the
      letter of the piece that was locked there. */
  datatype Cell = Empty | Block(kind: Kind)

  type Row = seq<Cell>
  type Board = seq<Row>

  /** The board always has exactly ROWS rows of COLS cells. */
  predicate IsBoard(b: Board)
  {
    |b| == ROWS && forall r :: 0 <= r < |b| ==> |b[r]| == COLS
  }

  function EmptyRow(): Row
  {
    seq(COLS, _ => Empty)
  }

  function EmptyRows(n: nat): Board
  {
    seq(n, _ => EmptyRow())
  }

  /** createBoard: ROWS fresh empty rows, pushed one by one. */
  method CreateBoard() returns (b: Board)
    ensures IsBoard(b)
    ensures forall r, c :: 0 <= r < ROWS && 0 <= c < COLS ==> b[r][c] == Empty
    ensures b == EmptyRows(ROWS)
  {
    b := [];
    var y := 0;
    while y < ROWS
      invariant 0 <= y <= ROWS
      invariant b == EmptyRows(y)
    {
      b := b + [EmptyRow()];
      y := y + 1;
    }
  }

  /** A row is full when none of its cells is empty. */
  predicate IsFull(row: Row)
  {
    forall c :: 0 <= c < |row| ==> row[c] != Empty
  }

  /** The inner scan of clearLines: stops at the first empty cell. */
  method RowIsFull(row: Row) returns (full: bool)
    ensures full <==> IsFull(row)
  {
    full := true;
    var x := 0;
    while x < |row|
      invariant 0 <= x <= |row|
      invariant forall c :: 0 <= c < x ==> row[c] != Empty
    {
      if row[x] == Empty {
        full := false;
        break;
      }
      x := x + 1;
    }
  }

  /** The rows of `s` that are not full, in their original order. */
  ghost function Kept(s: Board): Board
  {
    if s == [] then []
    else (if IsFull(s[0]) then [] else [s[0]]) + Kept(s[1..])
  }

  /** The number of full rows of `s`. */
  ghost function FullCount(s: Board): nat
  {
    if s == [] then 0
    else (if IsFull(s[0]) then 1 else 0) + FullCount(s[1..])
  }

  /** The board after clearLines: one empty row on top for every full row
      removed, then the remaining rows in their original order. */
  ghost function Cleared(b: Board): (r: Board)
    requires IsBoard(b)
    ensures IsBoard(r)
  {
    KeptLength(b);
    KeptRowLengths(b);
    EmptyRows(FullCount(b)) + Kept(b)
  }

  /** The board after the rescue: the top ROWS / 2 rows emptied, the others kept. */
  ghost function Softened(b: Board): (r: Board)
    requires IsBoard(b)
    ensures IsBoard(r)
    ensures forall y :: 0 <= y < ROWS / 2 ==> r[y] == EmptyRow()
    ensures forall y :: ROWS / 2 <= y < ROWS ==> r[y] == b[y]
  {
    EmptyRows(ROWS / 2) + b[ROWS / 2..]
  }

  /** The board in the middle of clearLines' scan: `cleared` empty rows on
      top, the unexamined rows s[..j], then the kept rows of s[j..]. */
  ghost function Scanning(s: Board, j: nat, cleared: nat): Board
    requires j <= |s|
  {
    EmptyRows(cleared) + s[..j] + Kept(s[j..])
  }

  /** The scan keeps the number of rows. */
  lemma ScanningLength(s: Board, j: nat)
    requires j <= |s|
    ensures |Scanning(s, j, FullCount(s[j..]))| == |s|
  {
    KeptLength(s[j..]);
  }

  /** Once every row has been examined the scan has produced the cleared board. */
  lemma ScanningDone(s: Board)
    requires IsBoard(s)
    ensures Scanning(s, 0, FullCount(s)) == Cleared(s)
  {
    assert s[..0] == [] && s[0..] == s;
  }

  /** The row the scan looks at: the last unexamined row, or an empty row
      once every original row has been examined. */
  lemma ScanningRow(s: Board, j: nat, cleared: nat, y: int)
    requires j <= |s| && 0 <= y < cleared + j
    ensures j > 0 && y == cleared + j - 1 ==> Scanning(s, j, cleared)[y] == s[j - 1]
    ensures y < cleared ==> Scanning(s, j, cleared)[y] == EmptyRow()
  {
  }

  /** Scan step over a row that is not full: it stays where it is. */
  lemma ScanningKeeps(s: Board, j: nat, cleared: nat)
    requires 0 < j <= |s| && !IsFull(s[j - 1])
    ensures Scanning(s, j - 1, cleared) == Scanning(s, j, cleared)
    ensures FullCount(s[j - 1..]) == FullCount(s[j..])
  {
    assert s[j - 1..][1..] == s[j..];
    assert s[..j] == s[..j - 1] + [s[j - 1]];
  }

  /** Scan step over a full row at index y: splicing it out and pushing an
      empty row on top drops it from the unexamined rows. */
  lemma ScanningRemoves(s: Board, j: nat, cleared: nat, y: int)
    requires 0 < j <= |s| && IsFull(s[j - 1]) && y == cleared + j - 1
    ensures var b := Scanning(s, j, cleared);
      [EmptyRow()] + b[..y] + b[y + 1..] == Scanning(s, j - 1, cleared + 1)
    ensures FullCount(s[j - 1..]) == FullCount(s[j..]) + 1
  {
    var b := Scanning(s, j, cleared);
    assert s[j - 1..][1..] == s[j..];
    assert s[..j] == s[..j - 1] + [s[j - 1]];
    assert b[..y] == EmptyRows(cleared) + s[..j - 1];
    assert b[y + 1..] == Kept(s[j..]);
    assert EmptyRows(cleared + 1) == [EmptyRow()] + EmptyRows(cleared);
  }

  /** The scan of clearLines, from the bottom row up: a full row is spliced
      out and an empty row pushed on top, and the same index is examined
      again (the rows above have moved down into it); a row that is not full
      is passed. Rows b[j..] have been examined; b[..j] lie, unexamined,
      under the `cleared` empty rows pushed on top. */
  method RemoveFullRows(b: Board) returns (rows: Board, cleared: nat)
    requires IsBoard(b)
    ensures rows == Cleared(b)
    ensures cleared == FullCount(b)
  {
    rows := b;
    ghost var j := ROWS;
    cleared := 0;
    var y: int := ROWS - 1;
    EmptyRowNotFull();
    assert rows == Scanning(b, j, cleared);
    while y >= 0
      invariant -1 <= y < ROWS && 0 <= j <= ROWS
      invariant rows == Scanning(b, j, cleared)
      invariant cleared == FullCount(b[j..])
      invariant j > 0 ==> y + 1 == cleared + j
      invariant j == 0 ==> y + 1 <= cleared
      decreases y + 1 + j
    {
      ScanningLength(b, j);
      ScanningRow(b, j, cleared, y);
      var full := RowIsFull(rows[y]);
      if full {
        ScanningRemoves(b, j, cleared, y);
        rows := [EmptyRow()] + rows[..y] + rows[y + 1..];
        cleared := cleared + 1;
        j := j - 1;
      } else {
        if j > 0 {
          ScanningKeeps(b, j, cleared);
          j := j - 1;
        }
        y := y - 1;
      }
    }
    assert b[0..] == b;
    ScanningDone(b);
  }

  lemma EmptyRowNotFull()
    ensures !IsFull(EmptyRow())
  {
    assert EmptyRow()[0] == Empty;
  }

  /** Removing the full rows and counting them account for every row. */
  lemma {:induction false} KeptLength(s: Board)
    ensures |Kept(s)| + FullCount(s) == |s|
  {
    if s != [] {
      KeptLength(s[1..]);
    }
  }

  /** Every kept row is a row of the input that is not full. */
  lemma {:induction false} KeptRows(s: Board)
    ensures forall i :: 0 <= i < |Kept(s)| ==> Kept(s)[i] in s && !IsFull(Kept(s)[i])
  {
    if s != [] {
      KeptRows(s[1..]);
      var head := if IsFull(s[0]) then [] else [s[0]];
      forall i | 0 <= i < |Kept(s)|
        ensures Kept(s)[i] in s && !IsFull(Kept(s)[i])
      {
        if i >= |head| {
          assert Kept(s)[i] == Kept(s[1..])[i - |head|];
          assert Kept(s)[i] in s[1..];
        }
      }
    }
  }

  lemma KeptRowLengths(b: Board)
    requires IsBoard(b)
    ensures forall i :: 0 <= i < |Kept(b)| ==> |Kept(b)[i]| == COLS
  {
    KeptRows(b);
  }

  lemma {:induction false} KeptAppend(a: Board, b: Board)
    ensures Kept(a + b) == Kept(a) + Kept(b)
    ensures FullCount(a + b) == FullCount(a) + FullCount(b)
  {
    if a == [] {
      assert a + b == b;
    } else {
      assert (a + b)[1..] == a[1..] + b;
      KeptAppend(a[1..], b);
    }
  }

  /** A board without full rows is left as it is by the filter. */
  lemma {:induction false} KeptNoFull(s: Board)
    requires forall i :: 0 <= i < |s| ==> !IsFull(s[i])
    ensures Kept(s) == s && FullCount(s) == 0
  {
    if s != [] {
      KeptNoFull(s[1..]);
    }
  }

  /** No row survives a clear full: the prepended rows are empty and the
      others were not full to begin with. */
  lemma ClearedHasNoFullRow(b: Board)
    requires IsBoard(b)
    ensures forall y :: 0 <= y < ROWS ==> !IsFull(Cleared(b)[y])
  {
    KeptRows(b);
    EmptyRowNotFull();
    var e := EmptyRows(FullCount(b));
    forall y | 0 <= y < ROWS
      ensures !IsFull(Cleared(b)[y])
    {
      if y >= |e| {
        assert Cleared(b)[y] == Kept(b)[y - |e|];
      }
    }
  }

  /** Clearing twice is the same as clearing once. */
  lemma ClearedIdempotent(b: Board)
    requires IsBoard(b)
    ensures FullCount(Cleared(b)) == 0
    ensures Cleared(Cleared(b)) == Cleared(b)
  {
    ClearedHasNoFullRow(b);
    KeptNoFull(Cleared(b));
    assert EmptyRows(0) == [];
  }

  /** A count of zero full rows means that no row is full. */
  lemma {:induction false} FullCountZero(s: Board)
    requires FullCount(s) == 0
    ensures forall i :: 0 <= i < |s| ==> !IsFull(s[i])
  {
    if s != [] {
      FullCountZero(s[1..]);
      forall i | 1 <= i < |s|
        ensures !IsFull(s[i])
      {
        assert s[i] == s[1..][i - 1];
      }
    }
  }

  /** clearLines counts zero exactly when no row is full, and then it
      changes nothing. */
  lemma ClearedWithoutFullRow(b: Board)
    requires IsBoard(b)
    ensures FullCount(b) == 0 <==> forall y :: 0 <= y < ROWS ==> !IsFull(b[y])
    ensures FullCount(b) == 0 ==> Cleared(b) == b
  {
    if FullCount(b) == 0 {
      FullCountZero(b);
    }
    if forall y :: 0 <= y < ROWS ==> !IsFull(b[y]) {
      KeptNoFull(b);
      assert EmptyRows(0) == [];
    }
  }

  /** When exactly row y is full, clearing is one splice at y and one empty
      row pushed on top: the rows above y move down by one. */
  lemma ClearedSingleRow(b: Board, y: nat)
    requires IsBoard(b) && y < ROWS
    requires IsFull(b[y])
    requires forall r :: 0 <= r < ROWS && r != y ==> !IsFull(b[r])
    ensures FullCount(b) == 1
    ensures Cleared(b) == [EmptyRow()] + b[..y] + b[y + 1..]
  {
    assert b == b[..y] + ([b[y]] + b[y + 1..]);
    KeptAppend(b[..y], [b[y]] + b[y + 1..]);
    KeptAppend([b[y]], b[y + 1..]);
    KeptNoFull(b[..y]);
    KeptNoFull(b[y + 1..]);
    assert [b[y]][1..] == [];
    assert Kept([b[y]]) == [];
    assert FullCount([b[y]]) == 1;
    assert EmptyRows(1) == [EmptyRow()];
  }
}
