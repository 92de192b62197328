/** Quarter-turn rotations of the board (numpy.rot90, counter-clockwise),
    the way a coordinate found on a rotated board is mapped back, and the
    symmetry adapter try_rotated. */
module Rotation {
  import opened Board

  /** numpy.rot90(A, 1): rot90(A, 1)[i][j] == A[j][2 - i]. */
  function Rot1(g: Grid): Grid {
    [g[2], g[5], g[8],
     g[1], g[4], g[7],
     g[0], g[3], g[6]]
  }

  /** The cell of the original board that lands on c after one turn. */
  function Unrot1(c: Cell): Cell {
    Coord(c.col, 2 - c.row)
  }

  lemma Rot1At(g: Grid, c: Cell)
    ensures At(Rot1(g), c) == At(g, Unrot1(c))
  {
    if c.row == 0 {
      assert At(Rot1(g), c) == g[2 + 3 * c.col];
    } else if c.row == 1 {
      assert At(Rot1(g), c) == g[1 + 3 * c.col];
    } else {
      assert At(Rot1(g), c) == g[3 * c.col];
    }
  }

  /** The cell of the original board that lands on c after k turns: one
      turn is Unrot1, two turns mirror both coordinates, three turns are one
      turn back, and four turns are none. */
  function Unrotate(c: Cell, k: nat): Cell {
    var m := k % 4;
    if m == 0 then c
    else if m == 1 then Coord(c.col, 2 - c.row)
    else if m == 2 then Coord(2 - c.row, 2 - c.col)
    else Coord(2 - c.col, c.row)
  }

  /** k turns are one turn after k - 1 turns. */
  lemma UnrotateStep(c: Cell, k: nat)
    requires k > 0
    ensures Unrotate(c, k) == Unrotate(Unrot1(c), k - 1)
  {
    TurnsStep(k);
  }

  lemma TurnsStep(k: nat)
    requires k > 0
    ensures (k - 1) % 4 == if k % 4 == 0 then 3 else k % 4 - 1
  {
    var q := k / 4;
    if k % 4 == 0 {
      assert k - 1 == 4 * (q - 1) + 3;
    } else {
      assert k - 1 == 4 * q + (k % 4 - 1);
    }
  }

  /** numpy.rot90(g, k): every cell c of the rotated board holds the value of
      the original cell Unrotate(c, k). */
  function Rotate(g: Grid, k: nat): (r: Grid)
    ensures forall c: Cell :: At(r, c) == At(g, Unrotate(c, k))
  {
    if k == 0 then g
    else
      var h := Rotate(g, k - 1);
      forall c: Cell
        ensures At(Rot1(h), c) == At(g, Unrotate(c, k))
      {
        Rot1At(h, c);
        UnrotateStep(c, k);
      }
      Rot1(h)
  }

  /** Turning k times and then 4 - k times restores every cell, in both
      orders; so Unrotate(., k) is a bijection of the cells. */
  lemma UnrotateInverse(c: Cell, k: nat)
    requires k <= 4
    ensures Unrotate(Unrotate(c, k), 4 - k) == c
    ensures Unrotate(Unrotate(c, 4 - k), k) == c
  {
    if k == 0 {
    } else if k == 1 {
    } else if k == 2 {
    } else if k == 3 {
    }
  }

  /** Rotating k times and then 4 - k times gives back the board. */
  lemma RotateInverse(g: Grid, k: nat)
    requires k <= 4
    ensures Rotate(Rotate(g, k), 4 - k) == g
  {
    forall c: Cell
      ensures At(Rotate(Rotate(g, k), 4 - k), c) == At(g, c)
    {
      UnrotateInverse(c, 4 - k);
      assert 4 - (4 - k) == k;
    }
    GridExt(Rotate(Rotate(g, k), 4 - k), g);
  }

  /** A fresh board with a single 1 at c (the marker of get_original_match). */
  function Marker(c: Cell): Grid {
    Place(NEW_BOARD, c, 1)
  }

  /** get_original_match for a board rotated k times: the cell of the
      original board that the rotation carried onto c. */
  function OriginalMatch(c: Cell, k: nat): Cell
    requires k < 4
  {
    Unrotate(c, k)
  }

  /** The source finds that cell by marking c on a fresh board, turning the
      marked board 4 - k more times and reading back, with numpy.where, the
      cells holding the mark: exactly one cell is found, OriginalMatch(c, k),
      and on every board it holds what c holds on the board turned k times. */
  lemma OriginalMatchByMarker(c: Cell, k: nat)
    requires k < 4
    ensures Where(Rotate(Marker(c), 4 - k), 1) == [OriginalMatch(c, k)]
    ensures forall g: Grid :: At(g, OriginalMatch(c, k)) == At(Rotate(g, k), c)
  {
    var m := Rotate(Marker(c), 4 - k);
    forall d: Cell
      ensures At(m, d) == 1 <==> d == Unrotate(c, k)
    {
      MarkerAt(c, Unrotate(d, 4 - k));
      UnrotateSwap(c, d, k);
    }
    WhereSingleton(m, 1, Unrotate(c, k));
  }

  /** The marker board holds 1 at its cell and 0 elsewhere. */
  lemma MarkerAt(c: Cell, e: Cell)
    ensures At(Marker(c), e) == if e == c then 1 else 0
  {
    if e != c {
      assert NEW_BOARD[Idx(e)] == 0;
    }
  }

  /** d turned back 4 - k times is c exactly when d is c turned k times. */
  lemma UnrotateSwap(c: Cell, d: Cell, k: nat)
    requires k < 4
    ensures Unrotate(d, 4 - k) == c <==> d == Unrotate(c, k)
  {
    UnrotateInverse(d, 4 - k);
    UnrotateInverse(c, k);
    assert 4 - (4 - k) == k;
  }

  /** Maps every cell of a list found on the board rotated k times back. */
  function MapBack(cs: seq<Cell>, k: nat): (r: seq<Cell>)
    requires k < 4
    ensures |r| == |cs|
    ensures forall i :: 0 <= i < |cs| ==> r[i] == Unrotate(cs[i], k)
  {
    if cs == [] then [] else [OriginalMatch(cs[0], k)] + MapBack(cs[1..], k)
  }

  lemma {:induction false} MapBackAppend(a: seq<Cell>, b: seq<Cell>, k: nat)
    requires k < 4
    ensures MapBack(a + b, k) == MapBack(a, k) + MapBack(b, k)
  {
    if a != [] {
      calc {
        MapBack(a + b, k);
        [OriginalMatch((a + b)[0], k)] + MapBack((a + b)[1..], k);
        { assert (a + b)[1..] == a[1..] + b; }
        [OriginalMatch(a[0], k)] + MapBack(a[1..] + b, k);
        { MapBackAppend(a[1..], b, k); }
        [OriginalMatch(a[0], k)] + (MapBack(a[1..], k) + MapBack(b, k));
      }
    } else {
      assert a + b == b;
    }
  }

  /** A cell is among the mapped-back cells exactly when the cell the turn
      carries it onto is among the cells found. */
  lemma InMapBack(cs: seq<Cell>, k: nat, c: Cell)
    requires k < 4
    ensures c in MapBack(cs, k) <==> Unrotate(c, 4 - k) in cs
  {
    var mb := MapBack(cs, k);
    if c in mb {
      var i :| 0 <= i < |mb| && mb[i] == c;
      UnrotateInverse(cs[i], k);
    }
    if Unrotate(c, 4 - k) in cs {
      var i :| 0 <= i < |cs| && cs[i] == Unrotate(c, 4 - k);
      UnrotateInverse(c, k);
      assert mb[i] == c;
    }
  }

  /** The tagged result of a selector: no match, a scalar (a winner value),
      one coordinate, or a list of coordinates. */
  datatype Match = NoMatch | Scalar(n: int) | Coordinate(c: Cell) | Cells(cs: seq<Cell>)

  /** The rotation count as the source normalises it, (4 + k) % 4 (Dafny's
      `%` with a positive modulus floors, as Python's does). */
  function Normalised(k: int): (r: nat)
    ensures r < 4
  {
    (4 + k) % 4
  }

  /** try_rotated: with k == 0 the selector's result on the board itself;
      otherwise the selector runs on the board rotated k times and a
      coordinate (or each coordinate of a list) it returns is mapped back to
      the cell of the original board holding the same value, while a
      scalar or no-match is returned unchanged. */
  function TryRotated(select: Grid -> Match, g: Grid, k: int): (r: Match)
    ensures k == 0 ==> r == select(g)
    ensures k != 0 ==>
      var m := select(Rotate(g, Normalised(k)));
      && (m.NoMatch? ==> r.NoMatch?)
      && (m.Scalar? ==> r == m)
      && (m.Coordinate? ==>
            (r == Coordinate(Unrotate(m.c, Normalised(k))) &&
             At(g, r.c) == At(Rotate(g, Normalised(k)), m.c)))
      && (m.Cells? ==>
            (r == Cells(MapBack(m.cs, Normalised(k))) && |r.cs| == |m.cs| &&
             forall i :: 0 <= i < |m.cs| ==>
               At(g, r.cs[i]) == At(Rotate(g, Normalised(k)), m.cs[i])))
  {
    if k == 0 then select(g)
    else
      var kk := Normalised(k);
      match select(Rotate(g, kk))
      case NoMatch => NoMatch
      case Scalar(n) => Scalar(n)
      case Coordinate(c) => Coordinate(OriginalMatch(c, kk))
      case Cells(cs) => Cells(MapBack(cs, kk))
  }

  /** A line of three cells (a row, a column or a diagonal). */
  type Line = s: seq<Cell> | |s| == 3 witness [Coord(0, 0), Coord(0, 0), Coord(0, 0)]

  function Row(i: nat): Line
    requires i < 3
  {
    [Coord(i, 0), Coord(i, 1), Coord(i, 2)]
  }

  function Column(j: nat): Line
    requires j < 3
  {
    [Coord(0, j), Coord(1, j), Coord(2, j)]
  }

  const DIAGONAL: Line := [Coord(0, 0), Coord(1, 1), Coord(2, 2)]
  const ANTI_DIAGONAL: Line := [Coord(0, 2), Coord(1, 1), Coord(2, 0)]

  /** The eight lines of the board: rows, columns, both diagonals. */
  const LINES: seq<Line> :=
    [Row(0), Row(1), Row(2), Column(0), Column(1), Column(2), DIAGONAL, ANTI_DIAGONAL]

  /** The lines one match_board pass scans: the rows top to bottom, then the
      main diagonal (board.diagonal()). */
  const BOARD_LINES: seq<Line> := [Row(0), Row(1), Row(2), DIAGONAL]

  /** The lines one match_board pass scans on the board turned once, as
      lines of the board itself (see TurnedBoardLines). */
  const TURNED_LINES: seq<Line> := [Column(2), Column(1), Column(0), ANTI_DIAGONAL]

  /** Both passes together, in the order the source scans them. */
  const SCAN_LINES: seq<Line> := BOARD_LINES + TURNED_LINES

  /** SCAN_LINES lists the eight lines once each: scan position i holds
      LINES[SCAN_ORDER[i]], and SCAN_ORDER is its own inverse. */
  const SCAN_ORDER: seq<nat> := [0, 1, 2, 6, 5, 4, 3, 7]

  lemma ScanLinesAreLines()
    ensures |SCAN_LINES| == |LINES| == |SCAN_ORDER| == 8
    ensures forall i :: 0 <= i < 8 ==> SCAN_ORDER[i] < 8 && SCAN_ORDER[SCAN_ORDER[i]] == i
    ensures forall i :: 0 <= i < 8 ==> SCAN_LINES[i] == LINES[SCAN_ORDER[i]]
  {
  }

  /** Every line of the board holds three different cells. */
  predicate Distinct(l: Line) {
    l[0] != l[1] && l[0] != l[2] && l[1] != l[2]
  }

  lemma LinesDistinct()
    ensures forall i :: 0 <= i < |LINES| ==> Distinct(LINES[i])
  {
  }

  function LineValues(g: Grid, l: Line): seq<int> {
    [At(g, l[0]), At(g, l[1]), At(g, l[2])]
  }

  function MapBackLine(l: Line, k: nat): (r: Line)
    requires k < 4
  {
    [OriginalMatch(l[0], k), OriginalMatch(l[1], k), OriginalMatch(l[2], k)]
  }

  /** A line read on the board rotated k times has the values of the mapped
      back line on the board itself. */
  lemma LineValuesRotated(g: Grid, l: Line, k: nat)
    requires k < 4
    ensures LineValues(Rotate(g, k), l) == LineValues(g, MapBackLine(l, k))
  {
  }

  lemma MapBackLineOnce(l: Line)
    ensures MapBackLine(l, 1) == [Unrot1(l[0]), Unrot1(l[1]), Unrot1(l[2])]
  {
    assert Unrotate(l[0], 1) == Unrot1(l[0]);
    assert Unrotate(l[1], 1) == Unrot1(l[1]);
    assert Unrotate(l[2], 1) == Unrot1(l[2]);
  }

  /** One pass on the board turned once scans columns 2, 1 and 0 and then the
      anti-diagonal: together with the direct pass, all eight lines. */
  lemma TurnedBoardLines()
    ensures |TURNED_LINES| == |BOARD_LINES|
    ensures forall i :: 0 <= i < |BOARD_LINES| ==> MapBackLine(BOARD_LINES[i], 1) == TURNED_LINES[i]
  {
    forall i | 0 <= i < |BOARD_LINES|
      ensures MapBackLine(BOARD_LINES[i], 1) == TURNED_LINES[i]
    {
      if i == 0 {
        TurnedLine(0, Row(0), Column(2));
      } else if i == 1 {
        TurnedLine(1, Row(1), Column(1));
      } else if i == 2 {
        TurnedLine(2, Row(2), Column(0));
      } else {
        TurnedLine(3, DIAGONAL, ANTI_DIAGONAL);
      }
    }
  }

  lemma TurnedLine(i: nat, l: Line, m: Line)
    requires i < 4 && l == BOARD_LINES[i] && m == TURNED_LINES[i]
    ensures MapBackLine(l, 1) == m
  {
    MapBackLineOnce(l);
  }
}
