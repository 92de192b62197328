/** The turn loop of play: the two players alternate on a fresh board, each
    move is applied with apply_move, and the game stops as soon as
    find_winner reports a result. */
module Game {
  import opened Board
  import opened Winner
  import opened Selector
  import opened Rotation

  /** How a game ends: find_winner's verdict (BOT, OPPONENT, or 0 for a
      draw), or TicTacNo raised by apply_move on the move of `player`. */
  datatype Outcome = Finished(winner: int) | Illegal(player: int)

  /** The turn order: [BOT, OPPONENT] stably sorted with first_player's key
      -1 and the other's 1, so first_player moves first when it names a
      player and BOT moves first otherwise. */
  function TurnOrder(first: int): (players: seq<int>)
    ensures |players| == 2 && players[0] != players[1]
    ensures forall p :: p in players <==> p == BOT || p == OPPONENT
    ensures first == BOT || first == OPPONENT ==> players[0] == first
    ensures first != BOT && first != OPPONENT ==> players == [BOT, OPPONENT]
  {
    if first == OPPONENT then [OPPONENT, BOT] else [BOT, OPPONENT]
  }

  /** players[(players.index(current) + 1) % len(players)]. */
  function NextPlayer(players: seq<int>, current: int): (next: int)
    requires |players| == 2 && players[0] != players[1] && current in players
    ensures next in players && next != current
  {
    if current == players[0] then players[1] else players[0]
  }

  /** The position after alternating moves: the first player has made as many
      moves as the second, or one more when it is the second's turn. */
  predicate Alternated(g: Grid, players: seq<int>, current: int)
    requires |players| == 2
  {
    Count(g, players[0]) == Count(g, players[1]) + (if current == players[1] then 1 else 0)
  }

  /** The bot's turn: pick_best_move, then apply_move. While the game goes on
      the bot's move is always legal. */
  method BotTurn(forks: seq<Grid>, board: array2<int>, choice: nat) returns (c: Cell)
    requires board.Length0 == 3 && board.Length1 == 3
    requires UNPLAYED in Snapshot(board)
    modifies board
    ensures PickBestMove(forks, old(Snapshot(board)), choice) == Some(c)
    ensures At(old(Snapshot(board)), c) == UNPLAYED
    ensures Snapshot(board) == Place(old(Snapshot(board)), c, BOT)
  {
    var g := Snapshot(board);
    var p := BestMove(forks, g, choice);
    PickBestMoveUnplayed(forks, g, choice);
    c := p.value;
    var r := ApplyMove(board, Pair(c), BOT);
  }

  /** The opponent's turn: its move function names a cell, which apply_move
      plays for OPPONENT unless it is taken. */
  method OpponentTurn(opponent: Grid -> Cell, board: array2<int>) returns (c: Cell, legal: bool)
    requires board.Length0 == 3 && board.Length1 == 3
    modifies board
    ensures c == opponent(old(Snapshot(board)))
    ensures legal <==> At(old(Snapshot(board)), c) == UNPLAYED
    ensures legal ==> Snapshot(board) == Place(old(Snapshot(board)), c, OPPONENT)
    ensures !legal ==> Snapshot(board) == old(Snapshot(board))
  {
    c := opponent(Snapshot(board));
    var r := ApplyMove(board, Pair(c), OPPONENT);
    legal := r == Applied;
  }

  /** A legal move keeps the alternation, with the turn passed on, and uses
      up one unplayed cell. */
  lemma MoveAlternates(g: Grid, c: Cell, players: seq<int>, current: int)
    requires |players| == 2 && players[0] != players[1] && current in players
    requires current == BOT || current == OPPONENT
    requires forall p :: p in players ==> p == BOT || p == OPPONENT
    requires Alternated(g, players, current) && At(g, c) == UNPLAYED
    ensures Alternated(Place(g, c, current), players, NextPlayer(players, current))
    ensures Count(Place(g, c, current), UNPLAYED) == Count(g, UNPLAYED) - 1
  {
    var h := Place(g, c, current);
    var other := NextPlayer(players, current);
    PlaceCounts(g, c, current, other);
  }

  /** A mark occurs nowhere on a board of UNPLAYED cells. */
  lemma BlankCounts(g: Grid, v: int)
    requires forall t :: 0 <= t < 9 ==> g[t] == UNPLAYED
    requires v != UNPLAYED
    ensures Count(g, v) == 0
  {
  }

  /** A board of UNPLAYED cells is alternated for the first player to move,
      and undecided. */
  lemma BlankStart(g: Grid, players: seq<int>)
    requires forall t :: 0 <= t < 9 ==> g[t] == UNPLAYED
    requires |players| == 2 && players[0] != players[1]
    requires forall p :: p in players ==> p == BOT || p == OPPONENT
    ensures Alternated(g, players, players[0])
    ensures FindWinner(g) == None
  {
    assert players[0] in players && players[1] in players;
    BlankCounts(g, players[0]);
    BlankCounts(g, players[1]);
    assert g[0] == UNPLAYED;
  }

  /** NEW_BOARD.copy(), in place: a fresh blank board, ready for the first
      player. */
  method NewBoard(players: seq<int>) returns (b: array2<int>)
    requires |players| == 2 && players[0] != players[1]
    requires forall p :: p in players ==> p == BOT || p == OPPONENT
    ensures fresh(b) && b.Length0 == 3 && b.Length1 == 3
    ensures Snapshot(b) == NEW_BOARD
    ensures Alternated(Snapshot(b), players, players[0])
    ensures FindWinner(Snapshot(b)) == None
  {
    b := new int[3, 3]((i, j) => UNPLAYED);
    BlankStart(Snapshot(b), players);
  }

  /** One turn of the loop: the current player moves, then find_winner
      judges the board. The bot plays pick_best_move's cell; the opponent
      plays the cell its move function names, which only it can get wrong.
      A legal move passes the turn on with the alternation kept. */
  method Turn(forks: seq<Grid>, opponent: Grid -> Cell, board: array2<int>,
              players: seq<int>, current: int, choice: nat)
    returns (legal: bool, winner: Option<int>)
    requires board.Length0 == 3 && board.Length1 == 3
    requires |players| == 2 && players[0] != players[1] && current in players
    requires forall p :: p in players ==> p == BOT || p == OPPONENT
    requires Alternated(Snapshot(board), players, current)
    requires FindWinner(Snapshot(board)) == None
    modifies board
    ensures !legal ==> current == OPPONENT &&
                       At(old(Snapshot(board)), opponent(old(Snapshot(board)))) != UNPLAYED &&
                       Snapshot(board) == old(Snapshot(board))
    ensures legal && current == BOT ==>
              var m := PickBestMove(forks, old(Snapshot(board)), choice);
              m.Some? && At(old(Snapshot(board)), m.value) == UNPLAYED &&
              Snapshot(board) == Place(old(Snapshot(board)), m.value, BOT)
    ensures legal && current == OPPONENT ==>
              var c := opponent(old(Snapshot(board)));
              At(old(Snapshot(board)), c) == UNPLAYED &&
              Snapshot(board) == Place(old(Snapshot(board)), c, OPPONENT)
    ensures legal ==> Alternated(Snapshot(board), players, NextPlayer(players, current)) &&
                      Count(Snapshot(board), UNPLAYED) < Count(old(Snapshot(board)), UNPLAYED) &&
                      winner == FindWinner(Snapshot(board))
  {
    var g := Snapshot(board);
    assert current == BOT || current == OPPONENT;
    var c: Cell;
    if current == BOT {
      c := BotTurn(forks, board, choice);
    } else {
      c, legal := OpponentTurn(opponent, board);
      if !legal {
        return legal, None;
      }
    }
    legal := true;
    MoveAlternates(g, c, players, current);
    winner := FindWinner(Snapshot(board));
  }

  /** play without its output: the players alternate from a fresh board,
      `opponent` standing for the opponent's move function, until
      find_winner reports a result. The bot's moves are never illegal; the
      opponent's can be, and so ends the game with TicTacNo. The final board
      shows the alternation of the turns. */
  method Play(forks: seq<Grid>, opponent: Grid -> Cell, first: int, choice: nat)
    returns (outcome: Outcome, final: Grid)
    ensures outcome.Finished? ==> FindWinner(final) == Some(outcome.winner)
    ensures outcome.Illegal? ==> outcome.player == OPPONENT &&
                                 At(final, opponent(final)) != UNPLAYED &&
                                 FindWinner(final) == None
    ensures var players := TurnOrder(first);
            0 <= Count(final, players[0]) - Count(final, players[1]) <= 1
  {
    var players := TurnOrder(first);
    var current := players[0];
    var board := NewBoard(players);
    while true
      invariant board.Length0 == 3 && board.Length1 == 3
      invariant current in players
      invariant forall p :: p in players ==> p == BOT || p == OPPONENT
      invariant Alternated(Snapshot(board), players, current)
      invariant FindWinner(Snapshot(board)) == None
      decreases Count(Snapshot(board), UNPLAYED)
    {
      var g := Snapshot(board);
      var legal, winner := Turn(forks, opponent, board, players, current, choice);
      if !legal {
        return Illegal(OPPONENT), g;
      }
      if winner.Some? {
        return Finished(winner.value), Snapshot(board);
      }
      current := NextPlayer(players, current);
    }
  }
}
