/** The positional heuristics of the bot: center, opposite_corner,
    empty_corner, empty_side and opening. The middle three scan the board by
    rotation: a selector that looks at the top-left corner (or the top side)
    runs on the board turned 0, 1, 2 and 3 times, and the first coordinate
    found is mapped back by try_rotated. */
module Heuristics {
  import opened Board
  import opened Rotation
  import opened Scan

  const CENTER: Cell := Coord(1, 1)
  const TOP_LEFT: Cell := Coord(0, 0)
  const TOP_RIGHT: Cell := Coord(0, 2)
  const BOTTOM_LEFT: Cell := Coord(2, 0)
  const BOTTOM_RIGHT: Cell := Coord(2, 2)
  const TOP: Cell := Coord(0, 1)
  const RIGHT: Cell := Coord(1, 2)
  const BOTTOM: Cell := Coord(2, 1)
  const LEFT: Cell := Coord(1, 0)

  /** The corners in the order the rotation scan visits them: top-left,
      top-right, bottom-right, bottom-left. */
  const CORNERS: seq<Cell> := [TOP_LEFT, TOP_RIGHT, BOTTOM_RIGHT, BOTTOM_LEFT]

  /** The sides in the order the rotation scan visits them: top, right,
      bottom, left. */
  const SIDES: seq<Cell> := [TOP, RIGHT, BOTTOM, LEFT]

  /** center: the middle cell (BOARD_SIZE halved with integer division) when
      it is UNPLAYED. */
  function Center(g: Grid): (r: Option<Cell>)
    ensures r.None? <==> At(g, CENTER) != UNPLAYED
    ensures r.Some? ==> r.value == CENTER
  {
    var mid: Cell := Coord(3 / 2, 3 / 2);
    if At(g, mid) == UNPLAYED then Some(mid) else None
  }

  /** The first cell of cs that is UNPLAYED on g. */
  function FirstUnplayed(g: Grid, cs: seq<Cell>): (r: Option<Cell>)
    ensures r.None? <==> forall i :: 0 <= i < |cs| ==> At(g, cs[i]) != UNPLAYED
    ensures r.Some? ==> exists i :: 0 <= i < |cs| && cs[i] == r.value && At(g, cs[i]) == UNPLAYED &&
                                    forall j :: 0 <= j < i ==> At(g, cs[j]) != UNPLAYED
  {
    if cs == [] then None
    else if At(g, cs[0]) == UNPLAYED then Some(cs[0])
    else
      var r := FirstUnplayed(g, cs[1..]);
      assert forall i :: 1 <= i < |cs| ==> cs[i] == cs[1..][i - 1];
      r
  }

  /** A selector that reports cell c0 when it is UNPLAYED. */
  function CellSelect(c0: Cell): Grid -> Match {
    (h: Grid) => if At(h, c0) == UNPLAYED then Coordinate(c0) else NoMatch
  }

  /** The cells c0 is carried to by 0, 1, 2 and 3 turns, as cells of the
      board itself. */
  function Orbit(c0: Cell): seq<Cell> {
    [c0, Unrotate(c0, 1), Unrotate(c0, 2), Unrotate(c0, 3)]
  }

  lemma OrbitsAreCornersAndSides()
    ensures Orbit(TOP_LEFT) == CORNERS
    ensures Orbit(TOP) == SIDES
  {
  }

  /** FirstUnplayed over cs is FirstSome over the per-cell answers. */
  lemma {:induction false} FirstUnplayedBySome(g: Grid, cs: seq<Cell>, rs: seq<Option<Cell>>)
    requires |rs| == |cs|
    requires forall i :: 0 <= i < |cs| ==> rs[i] == if At(g, cs[i]) == UNPLAYED then Some(cs[i]) else None
    ensures FirstSome(rs) == FirstUnplayed(g, cs)
  {
    if cs != [] {
      FirstUnplayedBySome(g, cs[1..], rs[1..]);
    }
  }

  /** Turn i of the scan for c0 answers the i-th cell of c0's orbit when it
      is UNPLAYED. */
  lemma CellReply(c0: Cell, g: Grid, i: nat)
    requires i < 4
    ensures Reply(CellSelect(c0), g, i) ==
            if At(g, Orbit(c0)[i]) == UNPLAYED then Some(Orbit(c0)[i]) else None
  {
    ReplyAt(CellSelect(c0), g, i);
    assert Orbit(c0)[i] == Unrotate(c0, i);
  }

  /** Scanning for c0 by rotation finds the first UNPLAYED cell of c0's
      orbit. */
  lemma CellScan(c0: Cell, g: Grid)
    ensures RotationScan(CellSelect(c0), g) == FirstUnplayed(g, Orbit(c0))
  {
    forall i | 0 <= i < 4
      ensures Replies(CellSelect(c0), g)[i] ==
              if At(g, Orbit(c0)[i]) == UNPLAYED then Some(Orbit(c0)[i]) else None
    {
      CellReply(c0, g, i);
    }
    FirstUnplayedBySome(g, Orbit(c0), Replies(CellSelect(c0), g));
  }

  /** empty_corner as the source runs it: the top-left corner of the board
      turned 0..3 times. */
  function EmptyCornerScan(g: Grid): Option<Cell> {
    RotationScan(CellSelect(TOP_LEFT), g)
  }

  /** empty_side as the source runs it: the top side of the board turned
      0..3 times. */
  function EmptySideScan(g: Grid): Option<Cell> {
    RotationScan(CellSelect(TOP), g)
  }

  /** empty_corner: the first UNPLAYED corner in the order TL, TR, BR, BL;
      None exactly when all four corners are played. */
  function EmptyCorner(g: Grid): Option<Cell> {
    FirstUnplayed(g, CORNERS)
  }

  /** empty_side: the first UNPLAYED side in the order top, right, bottom,
      left; None exactly when all four sides are played. */
  function EmptySide(g: Grid): Option<Cell> {
    FirstUnplayed(g, SIDES)
  }

  /** The rotation scan of empty_corner finds the first UNPLAYED corner. */
  lemma EmptyCornerSpec(g: Grid)
    ensures EmptyCornerScan(g) == EmptyCorner(g)
  {
    CellScan(TOP_LEFT, g);
    OrbitsAreCornersAndSides();
  }

  /** The rotation scan of empty_side finds the first UNPLAYED side. */
  lemma EmptySideSpec(g: Grid)
    ensures EmptySideScan(g) == EmptySide(g)
  {
    CellScan(TOP, g);
    OrbitsAreCornersAndSides();
  }

  /** The opponent holds one of the four corners (numpy.any over the corner
      mask). */
  predicate AnyCorner(g: Grid, v: int) {
    At(g, TOP_LEFT) == v || At(g, TOP_RIGHT) == v || At(g, BOTTOM_LEFT) == v || At(g, BOTTOM_RIGHT) == v
  }

  /** opening: only when the bot has not played yet. On a board the opponent
      has not touched, a corner; after an opponent corner, the center; after
      the opponent's center, a corner; otherwise the center. */
  function Opening(g: Grid): Option<Cell> {
    if Where(g, BOT) != [] then None
    else if Where(g, OPPONENT) == [] then EmptyCorner(g)
    else if AnyCorner(g, OPPONENT) then Center(g)
    else if At(g, CENTER) == OPPONENT then EmptyCorner(g)
    else Center(g)
  }

  /** A value occurs on the board exactly when the scan for it finds a cell. */
  lemma WhereEmpty(g: Grid, v: int)
    ensures Where(g, v) == [] <==> v !in g
  {
    WhereSpec(g, v);
    if v in g {
      var t :| 0 <= t < 9 && g[t] == v;
      assert At(g, CellOf(t)) == v;
    }
    if Where(g, v) != [] {
      assert At(g, Where(g, v)[0]) == v;
    }
  }

  /** opening gives up once the bot holds any cell and answers the top-left
      corner on an empty board. Before the bot's first move: a board without
      opponent marks gets the first free corner; an opponent corner is
      answered by the center when it is free; the opponent's center by the
      first free corner; an opponent side by the center. */
  lemma OpeningSpec(g: Grid)
    ensures BOT in g ==> Opening(g).None?
    ensures g == NEW_BOARD ==> Opening(g) == Some(TOP_LEFT)
    ensures BOT !in g && OPPONENT !in g ==> Opening(g) == FirstUnplayed(g, CORNERS)
    ensures BOT !in g && AnyCorner(g, OPPONENT) ==>
              Opening(g) == if At(g, CENTER) == UNPLAYED then Some(CENTER) else None
    ensures BOT !in g && !AnyCorner(g, OPPONENT) && At(g, CENTER) == OPPONENT ==>
              Opening(g) == FirstUnplayed(g, CORNERS)
    ensures BOT !in g && OPPONENT in g && !AnyCorner(g, OPPONENT) && At(g, CENTER) != OPPONENT ==>
              Opening(g) == if At(g, CENTER) == UNPLAYED then Some(CENTER) else None
  {
    WhereEmpty(g, BOT);
    WhereEmpty(g, OPPONENT);
    if At(g, CENTER) == OPPONENT {
      assert OPPONENT in g by { assert g[Idx(CENTER)] == OPPONENT; }
    }
    if AnyCorner(g, OPPONENT) {
      assert g[0] == OPPONENT || g[2] == OPPONENT || g[6] == OPPONENT || g[8] == OPPONENT;
    }
    if g == NEW_BOARD {
      WhereEmpty(g, OPPONENT);
      assert At(g, CORNERS[0]) == UNPLAYED;
    }
  }

  /** opening answers None or an UNPLAYED cell. */
  lemma OpeningUnplayed(g: Grid)
    ensures Opening(g).Some? ==> At(g, Opening(g).value) == UNPLAYED
  {
  }

  /** center, empty_corner and empty_side together cover all nine cells: on
      a board with an UNPLAYED cell one of the three answers. */
  lemma FallbacksCover(g: Grid)
    requires UNPLAYED in g
    ensures Center(g).Some? || EmptyCorner(g).Some? || EmptySide(g).Some?
  {
    var t :| 0 <= t < 9 && g[t] == UNPLAYED;
    var c := CellOf(t);
    assert At(g, c) == UNPLAYED;
    var i := CellKind(c);
    if c != CENTER {
      if c == CORNERS[i] {
        assert At(g, CORNERS[i]) == UNPLAYED;
      } else {
        assert At(g, SIDES[i]) == UNPLAYED;
      }
    }
  }

  /** Every cell is the center, a corner or a side. */
  lemma CellKind(c: Cell) returns (i: nat)
    ensures i < 4
    ensures c == CENTER || c == CORNERS[i] || c == SIDES[i]
  {
    if c.row == 1 && c.col == 1 {
      i := 0;
    } else if c.row != 1 && c.col != 1 {
      i := if c.row == 0 then (if c.col == 0 then 0 else 1) else (if c.col == 2 then 2 else 3);
    } else {
      i := if c.row == 0 then 0 else if c.col == 2 then 1 else if c.row == 2 then 2 else 3;
    }
  }
}
