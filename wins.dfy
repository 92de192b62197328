/** The two-in-a-line detector get_all_wins and its instantiations win and
    block. */
module Wins {
  import opened Board
  import opened Rotation

  /** Line l is one move from completion for player: c is its only
      UNPLAYED cell and player holds the other two. */
  predicate Threat(g: Grid, player: int, l: Line, c: Cell) {
    c in l && At(g, c) == UNPLAYED &&
    forall d :: d in l && d != c ==> At(g, d) == player
  }

  function IndexOf(s: seq<int>, v: int): (i: nat)
    requires v in s
    ensures i < |s| && s[i] == v && v !in s[..i]
  {
    if s[0] == v then 0 else 1 + IndexOf(s[1..], v)
  }

  lemma Count3(a: int, b: int, c: int, v: int)
    ensures Count([a, b, c], v) ==
            (if a == v then 1 else 0) + (if b == v then 1 else 0) + (if c == v then 1 else 0)
  {
    assert [a, b, c][1..] == [b, c];
    assert [b, c][1..] == [c];
  }

  /** match_row of get_all_wins: the line's UNPLAYED cell when the line holds
      exactly two of player's marks and exactly one UNPLAYED cell. */
  function LineWin(g: Grid, player: int, l: Line): seq<Cell> {
    var vals := LineValues(g, l);
    if Count(vals, player) == 2 && Count(vals, UNPLAYED) == 1
    then [l[IndexOf(vals, UNPLAYED)]]
    else []
  }

  /** A threat on a line of three different cells, spelt out cell by cell. */
  lemma ThreatCases(g: Grid, player: int, l: Line, c: Cell)
    requires Distinct(l)
    ensures Threat(g, player, l, c) <==>
      || (c == l[0] && At(g, l[0]) == UNPLAYED && At(g, l[1]) == player && At(g, l[2]) == player)
      || (c == l[1] && At(g, l[1]) == UNPLAYED && At(g, l[0]) == player && At(g, l[2]) == player)
      || (c == l[2] && At(g, l[2]) == UNPLAYED && At(g, l[0]) == player && At(g, l[1]) == player)
  {
    assert forall d :: d in l <==> d == l[0] || d == l[1] || d == l[2];
  }

  /** On a line of three different cells the detector reports exactly the
      completing cell of a threat. */
  lemma LineWinIsThreat(g: Grid, player: int, l: Line, c: Cell)
    requires player != UNPLAYED && Distinct(l)
    ensures c in LineWin(g, player, l) <==> Threat(g, player, l, c)
  {
    var vals := LineValues(g, l);
    Count3(vals[0], vals[1], vals[2], player);
    Count3(vals[0], vals[1], vals[2], UNPLAYED);
    ThreatCases(g, player, l, c);
    if Count(vals, player) == 2 && Count(vals, UNPLAYED) == 1 {
      var i := IndexOf(vals, UNPLAYED);
      assert LineWin(g, player, l) == [l[i]];
      assert i == 0 ==> vals[0] == UNPLAYED;
      assert i == 1 ==> vals[0] != UNPLAYED && vals[1] == UNPLAYED;
      assert i == 2 ==> vals[0] != UNPLAYED && vals[1] != UNPLAYED && vals[2] == UNPLAYED;
    }
  }

  /** The cells reported over the lines ls, in order: match_board's
      accumulated matches. */
  function LinesWins(g: Grid, player: int, ls: seq<Line>): seq<Cell>
    decreases |ls|
  {
    if ls == [] then []
    else LinesWins(g, player, ls[..|ls| - 1]) + LineWin(g, player, ls[|ls| - 1])
  }

  lemma {:induction false} InLinesWins(g: Grid, player: int, ls: seq<Line>, c: Cell)
    ensures c in LinesWins(g, player, ls) <==>
            exists i :: 0 <= i < |ls| && c in LineWin(g, player, ls[i])
    decreases |ls|
  {
    if ls != [] {
      var init := ls[..|ls| - 1];
      InLinesWins(g, player, init, c);
      InSnoc(g, player, init, ls[|ls| - 1], ls, c);
    }
  }

  lemma InSnoc(g: Grid, player: int, init: seq<Line>, l: Line, ls: seq<Line>, c: Cell)
    requires ls == init + [l]
    requires c in LinesWins(g, player, init) <==>
             exists i :: 0 <= i < |init| && c in LineWin(g, player, init[i])
    ensures (c in LinesWins(g, player, init) || c in LineWin(g, player, l)) <==>
            exists i :: 0 <= i < |ls| && c in LineWin(g, player, ls[i])
  {
    if c in LineWin(g, player, l) {
      assert ls[|init|] == l;
    }
    if c in LinesWins(g, player, init) {
      var i :| 0 <= i < |init| && c in LineWin(g, player, init[i]);
      assert ls[i] == init[i];
    }
    if exists i :: 0 <= i < |ls| && c in LineWin(g, player, ls[i]) {
      var i :| 0 <= i < |ls| && c in LineWin(g, player, ls[i]);
      if i < |init| {
        assert ls[i] == init[i];
      }
    }
  }

  lemma {:induction false} LinesWinsAppend(g: Grid, player: int, a: seq<Line>, b: seq<Line>)
    ensures LinesWins(g, player, a + b) == LinesWins(g, player, a) + LinesWins(g, player, b)
    decreases |b|
  {
    if b == [] {
      assert a + b == a;
    } else {
      var bi := b[..|b| - 1];
      assert (a + b)[..|a + b| - 1] == a + bi;
      LinesWinsAppend(g, player, a, bi);
    }
  }

  /** Scanning the board turned k times and mapping the cells back is
      scanning the mapped-back lines ms of the board itself. */
  lemma {:induction false} LinesWinsRotated(g: Grid, player: int, ls: seq<Line>, ms: seq<Line>, k: nat)
    requires k < 4 && |ms| == |ls|
    requires forall i :: 0 <= i < |ls| ==> ms[i] == MapBackLine(ls[i], k)
    ensures MapBack(LinesWins(Rotate(g, k), player, ls), k) == LinesWins(g, player, ms)
    decreases |ls|
  {
    if ls != [] {
      var n := |ls| - 1;
      LinesWinsRotated(g, player, ls[..n], ms[..n], k);
      LineValuesRotated(g, ls[n], k);
      MapBackAppend(LinesWins(Rotate(g, k), player, ls[..n]), LineWin(Rotate(g, k), player, ls[n]), k);
      LineWinRotated(g, player, ls[n], k);
    }
  }

  lemma LineWinRotated(g: Grid, player: int, l: Line, k: nat)
    requires k < 4
    ensures MapBack(LineWin(Rotate(g, k), player, l), k) == LineWin(g, player, MapBackLine(l, k))
  {
    LineValuesRotated(g, l, k);
    LineWinMapped(Rotate(g, k), g, player, l, k);
  }

  /** A line of h reading like its mapped-back line of g reports the cell
      of g its completing cell maps back to. */
  lemma LineWinMapped(h: Grid, g: Grid, player: int, l: Line, k: nat)
    requires k < 4
    requires LineValues(h, l) == LineValues(g, MapBackLine(l, k))
    ensures MapBack(LineWin(h, player, l), k) == LineWin(g, player, MapBackLine(l, k))
  {
    var vals := LineValues(h, l);
    if Count(vals, player) == 2 && Count(vals, UNPLAYED) == 1 {
      var i := IndexOf(vals, UNPLAYED);
      assert LineWin(h, player, l) == [l[i]];
      assert MapBack([l[i]], k) == [OriginalMatch(l[i], k)];
    }
  }

  /** match_board of get_all_wins: rows top to bottom, then the diagonal. */
  function BoardWins(player: int, h: Grid): seq<Cell> {
    LinesWins(h, player, BOARD_LINES)
  }

  /** What get_all_wins reports: the completions of the rows, the diagonal,
      columns 2, 1, 0 and the anti-diagonal, in that order. */
  function AllWins(player: int, g: Grid): seq<Cell> {
    LinesWins(g, player, SCAN_LINES)
  }

  /** get_all_wins as the source composes it: the direct match_board pass,
      then try_rotated(match_board, board), whose list of cells found on the
      board turned once is mapped back cell by cell. */
  lemma AllWinsByTryRotated(player: int, g: Grid)
    ensures AllWins(player, g) ==
            BoardWins(player, g) + TryRotated((h: Grid) => Cells(BoardWins(player, h)), g, 1).cs
  {
    assert Normalised(1) == 1;
    TurnedPass(player, g);
  }

  lemma TurnedPass(player: int, g: Grid)
    ensures AllWins(player, g) == BoardWins(player, g) + MapBack(BoardWins(player, Rotate(g, 1)), 1)
  {
    TurnedBoardLines();
    LinesWinsRotated(g, player, BOARD_LINES, TURNED_LINES, 1);
    LinesWinsAppend(g, player, BOARD_LINES, TURNED_LINES);
  }

  /** Every reported cell is UNPLAYED and completes a row, column or diagonal
      in which player holds the other two cells; and every such cell is
      reported. */
  lemma {:induction false} AllWinsAreThreats(player: int, g: Grid, c: Cell)
    requires player != UNPLAYED
    ensures c in AllWins(player, g) <==> exists i :: 0 <= i < |LINES| && Threat(g, player, LINES[i], c)
  {
    InLinesWins(g, player, SCAN_LINES, c);
    ScanLinesAreLines();
    LinesDistinct();
    if c in AllWins(player, g) {
      var i :| 0 <= i < |SCAN_LINES| && c in LineWin(g, player, SCAN_LINES[i]);
      LineWinIsThreat(g, player, LINES[SCAN_ORDER[i]], c);
    }
    if exists i :: 0 <= i < |LINES| && Threat(g, player, LINES[i], c) {
      var i :| 0 <= i < |LINES| && Threat(g, player, LINES[i], c);
      LineWinIsThreat(g, player, LINES[i], c);
      assert SCAN_LINES[SCAN_ORDER[i]] == LINES[i];
    }
  }

  /** One match_board pass, accumulating the matches row by row. */
  method MatchBoardWins(player: int, h: Grid) returns (matches: seq<Cell>)
    ensures matches == BoardWins(player, h)
  {
    matches := [];
    for i := 0 to 3
      invariant matches == LinesWins(h, player, BOARD_LINES[..i])
    {
      assert BOARD_LINES[..i + 1][..i] == BOARD_LINES[..i];
      matches := matches + LineWin(h, player, Row(i));
    }
    assert BOARD_LINES[..4][..3] == BOARD_LINES[..3];
    matches := matches + LineWin(h, player, DIAGONAL);
    assert BOARD_LINES[..4] == BOARD_LINES;
  }

  /** get_all_wins, as the source runs it: the direct pass, then the pass on
      the board turned once with its matches mapped back. */
  method GetAllWins(player: int, g: Grid) returns (matches: seq<Cell>)
    ensures matches == AllWins(player, g)
  {
    matches := [];
    var direct := MatchBoardWins(player, g);
    matches := matches + direct;
    var turned := MatchBoardWins(player, Rotate(g, 1));
    matches := matches + MapBack(turned, 1);
    TurnedPass(player, g);
  }

  /** win_by_player: the first cell get_all_wins reports, or None. */
  function WinBy(player: int, g: Grid): Option<Cell> {
    var matches := AllWins(player, g);
    if matches == [] then None else Some(matches[0])
  }

  /** win_by_player finds nothing exactly when no line holds a threat of
      player's, and otherwise an UNPLAYED cell that completes a line of
      player's. */
  lemma WinBySpec(player: int, g: Grid)
    requires player != UNPLAYED
    ensures WinBy(player, g).None? <==> forall i, c :: 0 <= i < |LINES| ==> !Threat(g, player, LINES[i], c)
    ensures var r := WinBy(player, g);
            r.Some? ==> At(g, r.value) == UNPLAYED &&
                        exists i :: 0 <= i < |LINES| && Threat(g, player, LINES[i], r.value)
  {
    var matches := AllWins(player, g);
    if matches == [] {
      forall i, c | 0 <= i < |LINES|
        ensures !Threat(g, player, LINES[i], c)
      {
        AllWinsAreThreats(player, g, c);
      }
    } else {
      AllWinsAreThreats(player, g, matches[0]);
    }
  }

  /** win_by_player(player)(board), as the source runs it. */
  method WinByPlayer(player: int, g: Grid) returns (r: Option<Cell>)
    ensures r == WinBy(player, g)
  {
    var matches := GetAllWins(player, g);
    if matches != [] {
      r := Some(matches[0]);
    } else {
      r := None;
    }
  }

  /** win: a cell that completes a line of the bot's. */
  function Win(g: Grid): Option<Cell> {
    WinBy(BOT, g)
  }

  /** block: a cell that completes a line of the opponent's. */
  function Block(g: Grid): Option<Cell> {
    WinBy(OPPONENT, g)
  }
}
