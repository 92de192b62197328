/** The rotation loop shared by opposite_corner, empty_corner and
    empty_side: `for i in range(4)`, try_rotated(match_board, board,
    num_rotations=i), and the first coordinate found is the answer. */
module Scan {
  import opened Board
  import opened Rotation

  /** try_rotated(match_board, board, num_rotations=i) in the rotation
      loops, read as a cell or nothing (the selectors here return a
      coordinate or nothing). */
  function Reply(select: Grid -> Match, g: Grid, i: nat): Option<Cell>
    requires i < 4
  {
    match TryRotated(select, g, i)
    case Coordinate(c) => Some(c)
    case _ => None
  }

  /** The coordinate the selector picks on the board turned i times, mapped
      back to the board. */
  lemma ReplyAt(select: Grid -> Match, g: Grid, i: nat)
    requires i < 4
    ensures Reply(select, g, i) ==
            if select(Rotate(g, i)).Coordinate? then Some(Unrotate(select(Rotate(g, i)).c, i)) else None
  {
    if i > 0 {
      assert Normalised(i) == i;
    }
  }

  /** The replies of the four turns, in the order the loop tries them. */
  function Replies(select: Grid -> Match, g: Grid): (rs: seq<Option<Cell>>)
    ensures |rs| == 4
  {
    seq(4, i requires 0 <= i < 4 => Reply(select, g, i))
  }

  /** The loop `for i in range(4)` of the rotation heuristics: the first
      rotation whose reply is a cell. */
  function RotationScan(select: Grid -> Match, g: Grid): Option<Cell> {
    FirstSome(Replies(select, g))
  }

  /** The first present value of rs is the one at the first index holding
      one. */
  lemma FirstSomeAt(rs: seq<Option<Cell>>, i: nat)
    requires i < |rs| && rs[i].Some? && forall j :: 0 <= j < i ==> rs[j].None?
    ensures FirstSome(rs) == rs[i]
  {
    var r := FirstSome(rs);
    var i' :| 0 <= i' < |rs| && rs[i'] == r && forall j :: 0 <= j < i' ==> rs[j].None?;
    assert i' == i;
  }

  /** The scan, as the source runs it. */
  method ScanRotations(select: Grid -> Match, g: Grid) returns (r: Option<Cell>)
    ensures r == RotationScan(select, g)
  {
    ghost var rs := Replies(select, g);
    for i := 0 to 4
      invariant forall j :: 0 <= j < i ==> rs[j].None?
    {
      r := TryTurn(select, g, i);
      assert rs[i] == r;
      if r.Some? {
        FirstSomeAt(rs, i);
        return;
      }
    }
    r := None;
  }

  /** One step of the scan: try_rotated with i turns, kept when it is a
      coordinate. */
  method TryTurn(select: Grid -> Match, g: Grid, i: nat) returns (r: Option<Cell>)
    requires i < 4
    ensures r == Reply(select, g, i)
  {
    var m := TryRotated(select, g, i);
    if m.Coordinate? {
      r := Some(m.c);
    } else {
      r := None;
    }
  }
}
