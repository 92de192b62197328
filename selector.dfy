/** pick_best_move: the bot's strategies tried in priority order (opening,
    win, block, fork, block_fork, center, opposite_corner, empty_corner,
    empty_side); the first that answers decides the move, and only when none
    does is a random unplayed cell chosen. */
module Selector {
  import opened Board
  import opened Rotation
  import opened Wins
  import opened Forks
  import opened Scan
  import opened Heuristics
  import opened Opposite

  /** The source's `best_moves` list: the strategies in priority order, the
      fork table bound in for fork and block_fork. */
  function BestMoves(forks: seq<Grid>): (moves: seq<Grid -> Option<Cell>>)
    ensures |moves| == 9
  {
    [Opening, Win, Block, (h: Grid) => Fork(forks, h), (h: Grid) => BlockFork(forks, h),
     Center, OppositeCorner, EmptyCorner, EmptySide]
  }

  /** The answer of the first strategy of `moves` that answers on g. */
  function FirstAnswer(moves: seq<Grid -> Option<Cell>>, g: Grid): (r: Option<Cell>)
    ensures r.None? <==> forall i :: 0 <= i < |moves| ==> moves[i](g).None?
    ensures r.Some? ==> exists i :: 0 <= i < |moves| && moves[i](g) == r &&
                                    forall j :: 0 <= j < i ==> moves[j](g).None?
  {
    if moves == [] then None
    else if moves[0](g).Some? then moves[0](g)
    else
      var r := FirstAnswer(moves[1..], g);
      assert forall i :: 1 <= i < |moves| ==> moves[i] == moves[1..][i - 1];
      r
  }

  /** pick_best_move: the first strategy that answers; otherwise the unplayed
      cell of index `choice` (taken modulo their number) among the unplayed
      cells in row-major order, standing for random.choice. On a full board
      random.choice fails on the empty list: None. */
  function PickBestMove(forks: seq<Grid>, g: Grid, choice: nat): Option<Cell> {
    var r := FirstAnswer(BestMoves(forks), g);
    if r.Some? then r
    else
      var unplayed := Where(g, UNPLAYED);
      if unplayed == [] then None else Some(unplayed[choice % |unplayed|])
  }

  /** r is nothing or an UNPLAYED cell of g. */
  predicate UnplayedOrNone(g: Grid, r: Option<Cell>) {
    r.Some? ==> At(g, r.value) == UNPLAYED
  }

  /** An answer that is an UNPLAYED cell shows that the board has one. */
  lemma AnswerOnBoard(g: Grid, r: Option<Cell>)
    requires UnplayedOrNone(g, r)
    ensures r.Some? ==> UNPLAYED in g
  {
    if r.Some? {
      assert g[Idx(r.value)] == UNPLAYED;
    }
  }

  /** Every strategy answers None or an UNPLAYED cell. */
  lemma StrategyUnplayed(forks: seq<Grid>, i: nat, g: Grid)
    requires i < 9
    ensures UnplayedOrNone(g, BestMoves(forks)[i](g))
  {
    if i == 0 {
      OpeningUnplayed(g);
    } else if i == 1 {
      WinBySpec(BOT, g);
    } else if i == 2 {
      WinBySpec(OPPONENT, g);
    } else if i == 4 {
      BlockForkUnplayed(forks, g);
    } else if i == 6 {
      OppositeCornerSpec(g);
    }
  }

  /** On a board with an UNPLAYED cell one of the strategies answers, so the
      random fallback is never reached, and the move chosen is UNPLAYED. */
  lemma PickBestMoveUnplayed(forks: seq<Grid>, g: Grid, choice: nat)
    requires UNPLAYED in g
    ensures FirstAnswer(BestMoves(forks), g).Some?
    ensures PickBestMove(forks, g, choice) == FirstAnswer(BestMoves(forks), g)
    ensures var r := PickBestMove(forks, g, choice);
            r.Some? && At(g, r.value) == UNPLAYED
  {
    var moves := BestMoves(forks);
    FallbacksCover(g);
    assert moves[5](g).Some? || moves[7](g).Some? || moves[8](g).Some?;
    var r := FirstAnswer(moves, g);
    var i :| 0 <= i < |moves| && moves[i](g) == r;
    StrategyUnplayed(forks, i, g);
  }

  /** A full board leaves no strategy anything to answer and no cell to
      choose: the source's random.choice fails. */
  lemma PickBestMoveFull(forks: seq<Grid>, g: Grid, choice: nat)
    requires UNPLAYED !in g
    ensures PickBestMove(forks, g, choice).None?
  {
    var moves := BestMoves(forks);
    forall i | 0 <= i < |moves|
      ensures moves[i](g).None?
    {
      StrategyUnplayed(forks, i, g);
      AnswerOnBoard(g, moves[i](g));
    }
    WhereEmpty(g, UNPLAYED);
  }

  /** pick_best_move, as the source runs it: the loop over `best_moves`, then
      the random fallback. */
  method BestMove(forks: seq<Grid>, g: Grid, choice: nat) returns (r: Option<Cell>)
    ensures r == PickBestMove(forks, g, choice)
  {
    var moves := BestMoves(forks);
    for i := 0 to |moves|
      invariant forall j :: 0 <= j < i ==> moves[j](g).None?
    {
      r := moves[i](g);
      if r.Some? {
        FirstAnswerAt(moves, g, i);
        return;
      }
    }
    var unplayed := Where(g, UNPLAYED);
    if unplayed == [] {
      return None;
    }
    r := Some(unplayed[choice % |unplayed|]);
  }

  lemma FirstAnswerAt(moves: seq<Grid -> Option<Cell>>, g: Grid, i: nat)
    requires i < |moves| && moves[i](g).Some? && forall j :: 0 <= j < i ==> moves[j](g).None?
    ensures FirstAnswer(moves, g) == moves[i](g)
  {
    var r := FirstAnswer(moves, g);
    var i' :| 0 <= i' < |moves| && moves[i'](g) == r && forall j :: 0 <= j < i' ==> moves[j](g).None?;
    assert i' == i;
  }
}
