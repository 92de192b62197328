/** The terminal test find_winner: a completed line, a draw, or a game still
    in progress. */
module Winner {
  import opened Board
  import opened Rotation

  /** Every cell of line l holds v. */
  predicate Complete(g: Grid, l: Line, v: int) {
    LineValues(g, l) == [v, v, v]
  }

  /** Player v (a value other than UNPLAYED) holds a whole row, column or
      diagonal. */
  predicate Won(g: Grid, v: int) {
    v != UNPLAYED && exists i :: 0 <= i < |LINES| && Complete(g, LINES[i], v)
  }

  /** match_row: the values of the line, as a set, are one single value other
      than UNPLAYED (`uniques == {row[0]}` is the source's
      `len(uniques) == 1`, since row[0] is among them). */
  function MatchRow(row: seq<int>): (r: Option<int>)
    requires |row| == 3
    ensures r.Some? <==> row[0] != UNPLAYED && row == [row[0], row[0], row[0]]
    ensures r.Some? ==> r.value == row[0]
  {
    var uniques := set x | x in row;
    assert row[1] in uniques && row[2] in uniques;
    if uniques == {row[0]} && row[0] != UNPLAYED then Some(row[0]) else None
  }

  /** match_board over the lines ls: the value of the first completed line,
      as a scalar, or no match. */
  function FirstComplete(h: Grid, ls: seq<Line>): (r: Match)
    ensures r.NoMatch? || r.Scalar?
    ensures r.Scalar? ==> r.n != UNPLAYED && exists i :: 0 <= i < |ls| && Complete(h, ls[i], r.n)
    ensures r.NoMatch? <==>
              forall i, v :: 0 <= i < |ls| && v != UNPLAYED ==> !Complete(h, ls[i], v)
    decreases ls
  {
    if ls == [] then NoMatch
    else match MatchRow(LineValues(h, ls[0]))
      case Some(v) => Scalar(v)
      case None =>
        var rest := FirstComplete(h, ls[1..]);
        assert forall i :: 1 <= i < |ls| ==> ls[i] == ls[1..][i - 1];
        rest
  }

  /** The selector find_winner passes to try_rotated. */
  function MatchBoard(h: Grid): Match {
    FirstComplete(h, BOARD_LINES)
  }

  /** Scanning the board turned k times is scanning the mapped-back lines ms
      of the board itself. */
  lemma {:induction false} FirstCompleteRotated(g: Grid, ls: seq<Line>, ms: seq<Line>, k: nat)
    requires k < 4 && |ms| == |ls|
    requires forall i :: 0 <= i < |ls| ==> ms[i] == MapBackLine(ls[i], k)
    ensures FirstComplete(Rotate(g, k), ls) == FirstComplete(g, ms)
    decreases ls
  {
    if ls != [] {
      LineValuesRotated(g, ls[0], k);
      FirstCompleteRotated(g, ls[1..], ms[1..], k);
    }
  }

  /** find_winner: the direct pass scans the rows and the main diagonal, the
      pass on the board turned once scans the columns and the anti-diagonal.
      The result is a player holding a full line; otherwise 0 when no cell is
      left (a draw), otherwise None (the game goes on). */
  function FindWinner(g: Grid): (r: Option<int>)
    ensures r.Some? && r.value != UNPLAYED ==> Won(g, r.value)
    ensures (r.Some? && r.value != UNPLAYED) <==> exists v :: Won(g, v)
    ensures r == Some(UNPLAYED) <==> (forall v :: !Won(g, v)) && UNPLAYED !in g
    ensures r == None <==> (forall v :: !Won(g, v)) && UNPLAYED in g
  {
    var direct := MatchBoard(g);
    var winner := if direct.Scalar? then direct else TryRotated(MatchBoard, g, 1);
    FindWinnerLines(g);
    if winner.Scalar? then Some(winner.n)
    else if UNPLAYED !in g then Some(UNPLAYED)
    else None
  }

  /** try_rotated(match_board, board) scans columns 2, 1, 0 and then the
      anti-diagonal of the board itself. */
  lemma TurnedPass(g: Grid)
    ensures TryRotated(MatchBoard, g, 1) == FirstComplete(g, TURNED_LINES)
  {
    TurnedPassRotates(g);
    TurnedPassLines(g);
  }

  lemma TurnedPassRotates(g: Grid)
    ensures TryRotated(MatchBoard, g, 1) == MatchBoard(Rotate(g, 1))
  {
    assert Normalised(1) == 1;
  }

  lemma TurnedPassLines(g: Grid)
    ensures MatchBoard(Rotate(g, 1)) == FirstComplete(g, TURNED_LINES)
  {
    FirstCompleteRotated(g, BOARD_LINES, TURNED_LINES, 1);
    TurnedBoardLines();
  }

  /** A completed line is among the lines of one of the two passes. */
  lemma WonByPass(g: Grid, v: int)
    requires Won(g, v)
    ensures (exists i :: 0 <= i < 4 && Complete(g, BOARD_LINES[i], v)) ||
            (exists i :: 0 <= i < 4 && Complete(g, TURNED_LINES[i], v))
  {
    var i :| 0 <= i < |LINES| && Complete(g, LINES[i], v);
    if i < 3 {
      assert BOARD_LINES[i] == LINES[i];
    } else if i == 6 {
      assert BOARD_LINES[3] == LINES[i];
    } else if i == 7 {
      assert TURNED_LINES[3] == LINES[i];
    } else {
      assert TURNED_LINES[5 - i] == LINES[i];
    }
  }

  /** A line completed in either pass is one of the eight lines. */
  lemma PassWon(g: Grid, v: int, i: nat, turned: bool)
    requires v != UNPLAYED && i < 4
    requires Complete(g, if turned then TURNED_LINES[i] else BOARD_LINES[i], v)
    ensures Won(g, v)
  {
    var j := if turned then [5, 4, 3, 7][i] else [0, 1, 2, 6][i];
    assert (if turned then TURNED_LINES[i] else BOARD_LINES[i]) == LINES[j];
  }

  /** The two passes of find_winner together inspect exactly the eight lines. */
  lemma FindWinnerLines(g: Grid)
    ensures var direct := MatchBoard(g);
            var w := if direct.Scalar? then direct else TryRotated(MatchBoard, g, 1);
            && (w.Scalar? || w.NoMatch?)
            && (w.Scalar? ==> Won(g, w.n))
            && (w.NoMatch? ==> forall v :: !Won(g, v))
  {
    var direct := MatchBoard(g);
    var turned := TryRotated(MatchBoard, g, 1);
    TurnedPass(g);
    if direct.Scalar? {
      var i :| 0 <= i < 4 && Complete(g, BOARD_LINES[i], direct.n);
      PassWon(g, direct.n, i, false);
    } else if turned.Scalar? {
      var i :| 0 <= i < 4 && Complete(g, TURNED_LINES[i], turned.n);
      PassWon(g, turned.n, i, true);
    } else {
      forall v | Won(g, v)
        ensures false
      {
        WonByPass(g, v);
      }
    }
  }
}
