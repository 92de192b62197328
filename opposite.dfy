/** opposite_corner: when the opponent holds a corner, reply on a side next
    to it. The selector looks at the top-left corner and the mask of the two
    sides beside it, and runs on the board turned 0..3 times. */
module Opposite {
  import opened Board
  import opened Rotation
  import opened Scan
  import opened Heuristics

  /** The cells of the opposite_corner mask, in row-major order: the two
      sides next to the top-left corner. */
  const ADJACENT: seq<Cell> := [TOP, LEFT]

  /** The mask (`opposite_corners` in the source) as a grid of 1s and 0s. */
  const ADJACENT_MASK: Grid := [0, 1, 0, 1, 0, 0, 0, 0, 0]

  /** Reading the mask with numpy.where gives ADJACENT. */
  lemma AdjacentIsMask()
    ensures Where(ADJACENT_MASK, 1) == ADJACENT
  {
    MaskCells(ADJACENT_MASK);
  }

  /** Any grid marked like the mask (1 on the top and left sides only) reads
      as ADJACENT. */
  lemma MaskCells(m: Grid)
    requires m[0] != 1 && m[1] == 1 && m[2] != 1 && m[3] == 1
    requires forall t :: 4 <= t < 9 ==> m[t] != 1
    ensures Where(m, 1) == ADJACENT
  {
    MaskFirstTwo(m);
    MaskFirstFour(m);
    WhereInPrefix(m, 1, 4);
  }

  lemma MaskFirstTwo(m: Grid)
    requires m[0] != 1 && m[1] == 1
    ensures WhereIn(m[..2], 1) == [TOP]
  {
    assert m[..0] == [];
    WhereInSnoc(m, 1, 0);
    WhereInSnoc(m, 1, 1);
  }

  lemma MaskFirstFour(m: Grid)
    requires WhereIn(m[..2], 1) == [TOP]
    requires m[2] != 1 && m[3] == 1
    ensures WhereIn(m[..4], 1) == [TOP, LEFT]
  {
    WhereInSnoc(m, 1, 2);
    assert WhereIn(m[..3], 1) == [TOP];
    WhereInSnoc(m, 1, 3);
    assert CellOf(3) == LEFT;
  }

  /** match_board of opposite_corner: when the opponent holds the top-left
      corner, the first UNPLAYED cell of the mask, in row-major order. */
  function OppositeSelect(h: Grid): Match {
    var side := FirstUnplayed(h, ADJACENT);
    if At(h, TOP_LEFT) == OPPONENT && side.Some? then Coordinate(side.value) else NoMatch
  }

  lemma OppositeSelectAt(h: Grid)
    ensures OppositeSelect(h) ==
            if At(h, TOP_LEFT) == OPPONENT && FirstUnplayed(h, [TOP, LEFT]).Some?
            then Coordinate(FirstUnplayed(h, [TOP, LEFT]).value) else NoMatch
  {
  }

  /** opposite_corner as the source runs it: the scan of OppositeSelect. */
  function OppositeCornerScan(g: Grid): Option<Cell> {
    RotationScan(OppositeSelect, g)
  }

  /** The two sides next to each corner of CORNERS, in the order the mask
      lists them on the board turned to bring that corner to the top left. */
  const ADJACENT_SIDES: seq<seq<Cell>> := [[TOP, LEFT], [RIGHT, TOP], [BOTTOM, RIGHT], [LEFT, BOTTOM]]

  function AdjacentSides(k: nat): seq<Cell>
    requires k < 4
  {
    ADJACENT_SIDES[k]
  }

  /** The sides next to corner k are where the rotation by k carries the
      mask's cells. */
  lemma AdjacentSidesAre(k: nat)
    requires k < 4
    ensures AdjacentSides(k) == [Unrotate(TOP, k), Unrotate(LEFT, k)]
  {
    if k == 0 {
    } else if k == 1 {
    } else if k == 2 {
    } else {
    }
  }

  /** Corner k is where the rotation by k carries the top-left corner. */
  lemma CornersAre(k: nat)
    requires k < 4
    ensures CORNERS[k] == Unrotate(TOP_LEFT, k)
  {
    if k == 0 {
    } else if k == 1 {
    } else if k == 2 {
    } else {
    }
  }

  /** What opposite_corner answers for corner k: when the opponent holds it,
      the first UNPLAYED side next to it. */
  function CornerReply(g: Grid, k: nat): Option<Cell>
    requires k < 4
  {
    if At(g, CORNERS[k]) == OPPONENT then FirstUnplayed(g, AdjacentSides(k)) else None
  }

  function CornerReplies(g: Grid): (rs: seq<Option<Cell>>)
    ensures |rs| == 4
  {
    seq(4, k requires 0 <= k < 4 => CornerReply(g, k))
  }

  /** Reading two cells on the board turned k times and mapping the first
      UNPLAYED one back is reading the two mapped-back cells on the board. */
  lemma FirstUnplayedRotated(a: Cell, b: Cell, g: Grid, k: nat)
    requires k < 4
    ensures FirstUnplayed(g, [Unrotate(a, k), Unrotate(b, k)]) ==
            match FirstUnplayed(Rotate(g, k), [a, b])
            case Some(d) => Some(Unrotate(d, k))
            case None => None
  {
    assert [a, b][1..] == [b];
    assert [Unrotate(a, k), Unrotate(b, k)][1..] == [Unrotate(b, k)];
    assert At(Rotate(g, k), a) == At(g, Unrotate(a, k));
    assert At(Rotate(g, k), b) == At(g, Unrotate(b, k));
  }

  /** Turn k of opposite_corner's scan answers for corner k. */
  lemma OppositeReply(g: Grid, k: nat)
    requires k < 4
    ensures Reply(OppositeSelect, g, k) == CornerReply(g, k)
  {
    var h := Rotate(g, k);
    ReplyAt(OppositeSelect, g, k);
    CornersAre(k);
    assert At(h, TOP_LEFT) == At(g, CORNERS[k]);
    if At(g, CORNERS[k]) == OPPONENT {
      OppositeSelectAt(h);
      FirstUnplayedRotated(TOP, LEFT, g, k);
      AdjacentSidesAre(k);
    }
  }

  /** opposite_corner: the answer of the first corner, in the order TL, TR,
      BR, BL, that the opponent holds and that has an UNPLAYED side next to
      it; None when there is no such corner. */
  function OppositeCorner(g: Grid): Option<Cell> {
    FirstSome(CornerReplies(g))
  }

  /** The rotation scan of opposite_corner answers corner by corner. */
  lemma OppositeCornerScanSpec(g: Grid)
    ensures OppositeCornerScan(g) == OppositeCorner(g)
  {
    forall k | 0 <= k < 4
      ensures Replies(OppositeSelect, g)[k] == CornerReplies(g)[k]
    {
      OppositeReply(g, k);
    }
    assert Replies(OppositeSelect, g) == CornerReplies(g);
  }

  /** The answer is a side (never a corner), UNPLAYED, next to a corner the
      opponent holds. */
  lemma OppositeCornerSpec(g: Grid)
    ensures var r := OppositeCorner(g);
            r.Some? ==> && At(g, r.value) == UNPLAYED && r.value in SIDES
                        && exists k :: 0 <= k < 4 && At(g, CORNERS[k]) == OPPONENT && r.value in AdjacentSides(k)
  {
    var r := OppositeCorner(g);
    if r.Some? {
      var k :| 0 <= k < 4 && CornerReplies(g)[k] == r;
      CornerReplyCell(g, k);
    }
  }

  lemma CornerReplyCell(g: Grid, k: nat)
    requires k < 4 && CornerReply(g, k).Some?
    ensures var c := CornerReply(g, k).value;
            && At(g, CORNERS[k]) == OPPONENT && c in AdjacentSides(k)
            && At(g, c) == UNPLAYED && c in SIDES
  {
    var sides := AdjacentSides(k);
    var i :| 0 <= i < |sides| && sides[i] == CornerReply(g, k).value && At(g, sides[i]) == UNPLAYED;
  }

  /** The source's mask selects the sides next to the opponent's corner, not
      the diagonally opposite corner: whenever the opponent holds the
      top-left corner and the top side is free, opposite_corner answers the
      top side, whatever the bottom-right corner holds. */
  lemma TopLeftAnswersTop(g: Grid)
    requires At(g, TOP_LEFT) == OPPONENT && At(g, TOP) == UNPLAYED
    ensures OppositeCornerScan(g) == Some(TOP)
  {
    OppositeCornerScanSpec(g);
    assert CornerReply(g, 0) == Some(TOP);
    FirstSomeAt(CornerReplies(g), 0);
  }
}
