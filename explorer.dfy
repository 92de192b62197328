/** The test driver that walks the game tree: a tree of the opponent's
    replies, each node flagged once every game below it has been played,
    grown lazily while the games are played until the root is exhausted,
    once with the opponent moving first and once with the bot first. */
module Explorer {
  import opened Board
  import opened Winner
  import opened Game
  import opened Selector

  /** array_to_position: a cell becomes its 1-based number row*3 + col + 1;
      a number is passed through. */
  function ArrayToPosition(p: Position): (n: int)
    ensures p.Pair? && 0 <= p.at.row < 3 && 0 <= p.at.col < 3 ==> 1 <= n <= 9
    ensures p.Number? ==> n == p.n
  {
    match p
    case Pair(at) => at.row * 3 + at.col + 1
    case Number(n) => n
  }

  /** array_to_position undoes position_to_array on the numbers 1..9 ... */
  lemma NumberRoundTrip(n: int)
    requires 1 <= n <= 9
    ensures ArrayToPosition(Pair(PositionToArray(Number(n)))) == n
  {
  }

  /** ... and position_to_array undoes array_to_position on the cells. */
  lemma CellRoundTrip(c: Cell)
    ensures PositionToArray(Number(ArrayToPosition(Pair(c)))) == c
  {
  }

  /** The position numbers of a list of cells, in the same order. */
  function Numbers(cs: seq<Cell>): (ns: seq<int>)
    ensures |ns| == |cs|
    ensures forall i :: 0 <= i < |cs| ==> ns[i] == ArrayToPosition(Pair(cs[i])) && 1 <= ns[i] <= 9
  {
    seq(|cs|, i requires 0 <= i < |cs| => ArrayToPosition(Pair(cs[i])))
  }

  /** A node of the tree is named by the opponent's moves that lead to it
      from the root; the map holds its `exhausted` flag. */
  type Branches = map<seq<int>, bool>

  /** A child that get_first_available may still choose: missing (it is
      created unexhausted) or not exhausted. */
  predicate Live(tree: Branches, k: seq<int>) {
    k !in tree || !tree[k]
  }

  /** The first position of ps whose child of `node` is live. */
  function FirstAvailable(tree: Branches, node: seq<int>, ps: seq<int>): (r: Option<int>)
    ensures r.None? <==> forall i :: 0 <= i < |ps| ==> !Live(tree, node + [ps[i]])
    ensures r.Some? ==> exists i :: 0 <= i < |ps| && ps[i] == r.value && Live(tree, node + [ps[i]]) &&
                                    forall j :: 0 <= j < i ==> !Live(tree, node + [ps[j]])
  {
    if ps == [] then None
    else if Live(tree, node + [ps[0]]) then Some(ps[0])
    else
      var r := FirstAvailable(tree, node, ps[1..]);
      assert forall i :: 1 <= i < |ps| ==> ps[i] == ps[1..][i - 1];
      r
  }

  /** The tree after get_first_available has inspected ps from `node`: each
      position inspected gets a child, created unexhausted where missing,
      and the inspection stops at the first live one. */
  function Inspected(tree: Branches, node: seq<int>, ps: seq<int>): Branches {
    if ps == [] then tree
    else
      var k := node + [ps[0]];
      var t := if k in tree then tree else tree[k := false];
      if !t[k] then t else Inspected(t, node, ps[1..])
  }

  /** t extends tree: no node is removed and no flag falls back to False. */
  predicate Grows(tree: Branches, t: Branches) {
    forall k :: k in tree ==> k in t && (tree[k] ==> t[k])
  }

  /** The exhausted nodes. */
  function Exhausted(tree: Branches): set<seq<int>> {
    set k | k in tree && tree[k]
  }

  /** Inspecting keeps every existing node and its flag, and adds only
      unexhausted children of `node` for inspected positions. */
  lemma {:induction false} InspectedGrows(tree: Branches, node: seq<int>, ps: seq<int>)
    ensures var t := Inspected(tree, node, ps);
            && (forall k :: k in tree ==> k in t && t[k] == tree[k])
            && (forall k :: k in t && k !in tree ==> !t[k] && exists i :: 0 <= i < |ps| && k == node + [ps[i]])
    decreases |ps|
  {
    if ps != [] {
      var k := node + [ps[0]];
      var t := if k in tree then tree else tree[k := false];
      if t[k] {
        assert t == tree;
        InspectedGrows(tree, node, ps[1..]);
        var r := Inspected(tree, node, ps[1..]);
        forall k' | k' in r && k' !in tree
          ensures !r[k'] && exists i :: 0 <= i < |ps| && k' == node + [ps[i]]
        {
          var i :| 0 <= i < |ps[1..]| && k' == node + [ps[1..][i]];
          assert k' == node + [ps[i + 1]];
        }
      }
    }
  }

  /** What get_first_available leaves behind: the child of the chosen
      position exists and is live, and when no position is chosen every
      child already existed exhausted, so the tree is unchanged. */
  lemma {:induction false} InspectedChoice(tree: Branches, node: seq<int>, ps: seq<int>)
    ensures var t := Inspected(tree, node, ps);
            var r := FirstAvailable(tree, node, ps);
            && (r.Some? ==> node + [r.value] in t && !t[node + [r.value]])
            && (r.None? ==> t == tree && forall i :: 0 <= i < |ps| ==> node + [ps[i]] in t)
    decreases |ps|
  {
    if ps != [] {
      var k := node + [ps[0]];
      var t := if k in tree then tree else tree[k := false];
      if t[k] {
        assert t == tree;
        InspectedChoice(tree, node, ps[1..]);
        var r := Inspected(tree, node, ps[1..]);
        if FirstAvailable(tree, node, ps).None? {
          forall i | 0 <= i < |ps|
            ensures node + [ps[i]] in r
          {
            if i > 0 {
              assert ps[i] == ps[1..][i - 1];
            }
          }
        }
      }
    }
  }

  /** When the first live child is that of ps[i], get_first_available
      chooses ps[i] and creates at most that child. */
  lemma {:induction false} InspectedAt(tree: Branches, node: seq<int>, ps: seq<int>, i: nat)
    requires i < |ps| && Live(tree, node + [ps[i]])
    requires forall j :: 0 <= j < i ==> !Live(tree, node + [ps[j]])
    ensures FirstAvailable(tree, node, ps) == Some(ps[i])
    ensures Inspected(tree, node, ps) ==
            (var k := node + [ps[i]]; if k in tree then tree else tree[k := false])
    decreases i
  {
    if i > 0 {
      assert !Live(tree, node + [ps[0]]);
      InspectedAt(tree, node, ps[1..], i - 1);
      assert ps[1..][i - 1] == ps[i];
      forall j | 0 <= j < i - 1
        ensures !Live(tree, node + [ps[1..][j]])
      {
        assert ps[1..][j] == ps[j + 1];
      }
    }
  }

  /** When no child is live, get_first_available chooses nothing and
      changes nothing. */
  lemma {:induction false} InspectedNone(tree: Branches, node: seq<int>, ps: seq<int>)
    requires forall j :: 0 <= j < |ps| ==> !Live(tree, node + [ps[j]])
    ensures Inspected(tree, node, ps) == tree
    decreases |ps|
  {
    if ps != [] {
      assert !Live(tree, node + [ps[0]]);
      forall j | 0 <= j < |ps| - 1
        ensures !Live(tree, node + [ps[1..][j]])
      {
        assert ps[1..][j] == ps[j + 1];
      }
      InspectedNone(tree, node, ps[1..]);
    }
  }

  /** Paths of at most 9 moves, each a position number. */
  predicate Bounded(k: seq<int>) {
    |k| <= 9 && forall i :: 0 <= i < |k| ==> 1 <= k[i] <= 9
  }

  /** A child of a node short of the bound is bounded. */
  lemma ChildBounded(node: seq<int>, n: int)
    requires Bounded(node) && |node| < 9 && 1 <= n <= 9
    ensures Bounded(node + [n]) && Parent(node + [n]) == node
  {
  }

  /** The paths of at most d moves. */
  function Paths(d: nat): (ps: set<seq<int>>)
    ensures forall k :: k in ps ==> |k| <= d && forall i :: 0 <= i < |k| ==> 1 <= k[i] <= 9
  {
    if d == 0 then {[]}
    else
      var shorter := Paths(d - 1);
      {[]} + set p, n | p in shorter && 1 <= n <= 9 :: p + [n]
  }

  lemma {:induction false} PathsComplete(d: nat, k: seq<int>)
    requires |k| <= d && forall i :: 0 <= i < |k| ==> 1 <= k[i] <= 9
    ensures k in Paths(d)
  {
    if k != [] {
      var p := k[..|k| - 1];
      PathsComplete(d - 1, p);
      assert k == p + [k[|k| - 1]];
    }
  }

  /** A finite set holding every bounded path: the tree cannot grow, nor
      its exhausted nodes multiply, without end. */
  lemma Universe() returns (u: set<seq<int>>)
    ensures forall k :: Bounded(k) ==> k in u
  {
    u := Paths(9);
    forall k | Bounded(k)
      ensures k in u
    {
      PathsComplete(9, k);
    }
  }

  lemma {:induction false} SubsetCard(a: set<seq<int>>, b: set<seq<int>>)
    requires a <= b
    ensures |a| <= |b|
    ensures a < b ==> |a| < |b|
  {
    assert b == a + (b - a);
    if a < b {
      var x :| x in b - a;
    }
  }

  lemma GrowsTrans(a: Branches, b: Branches, c: Branches)
    requires Grows(a, b) && Grows(b, c)
    ensures Grows(a, c)
  {
  }

  /** A growing tree never loses an exhausted node. */
  lemma GrowsExhausted(a: Branches, b: Branches)
    requires Grows(a, b)
    ensures Exhausted(a) <= Exhausted(b)
  {
  }

  /** Flagging a live node exhausted grows the tree and adds an exhausted
      node. */
  lemma FlagGrows(a: Branches, k: seq<int>)
    requires k in a
    ensures Grows(a, a[k := true])
    ensures !a[k] ==> Exhausted(a) < Exhausted(a[k := true])
  {
    assert k in Exhausted(a[k := true]);
  }

  /** Since the tree t0, the walk has either flagged a new node exhausted or
      still stands on a live node: marking it at the end of the game is
      progress either way. */
  predicate Progress(t0: Branches, t: Branches, cursor: seq<int>) {
    Grows(t0, t) && ((cursor in t && !t[cursor]) || Exhausted(t0) < Exhausted(t))
  }

  /** The node a non-root node hangs from. */
  function Parent(k: seq<int>): seq<int>
    requires k != []
  {
    k[..|k| - 1]
  }

  /** The root is a node, every node's parent is a node, and every node is
      a bounded path. */
  predicate WellFormed(tree: Branches) {
    && [] in tree
    && (forall k :: k in tree ==> Bounded(k))
    && (forall k {:trigger Parent(k)} :: k in tree && k != [] ==> Parent(k) in tree)
  }

  /** get_positions_by_item(board, UNPLAYED) as position numbers. */
  function Available(g: Grid): seq<int> {
    Numbers(Where(g, UNPLAYED))
  }

  /** The available numbers name exactly unplayed cells, and there is one
      while the board has an unplayed cell. */
  lemma AvailableSpec(g: Grid)
    ensures forall i :: 0 <= i < |Available(g)| ==>
              1 <= Available(g)[i] <= 9 && IsUnplayed(g, Number(Available(g)[i]))
    ensures UNPLAYED in g ==> Available(g) != []
  {
    var cs := Where(g, UNPLAYED);
    WhereSpec(g, UNPLAYED);
    forall i | 0 <= i < |cs|
      ensures IsUnplayed(g, Number(Available(g)[i]))
    {
      CellRoundTrip(cs[i]);
    }
    if UNPLAYED in g {
      var t :| 0 <= t < 9 && g[t] == UNPLAYED;
      assert At(g, CellOf(t)) == UNPLAYED;
    }
  }

  /** The number opponent_move_func plays from `node` on board g. */
  function OpponentChoice(tree: Branches, node: seq<int>, g: Grid): int
    requires UNPLAYED in g
  {
    var ps := Available(g);
    AvailableSpec(g);
    var r := FirstAvailable(tree, node, ps);
    if r.Some? then r.value else ps[0]
  }

  /** The tree after opponent_move_func from `node` on board g. */
  function OpponentTree(tree: Branches, node: seq<int>, g: Grid): Branches {
    var ps := Available(g);
    var t := Inspected(tree, node, ps);
    if FirstAvailable(tree, node, ps).None? then t[node := true] else t
  }

  /** opponent_move_func plays an unplayed cell, the child it descends to
      exists (so the lookup of the new current_branch succeeds), the tree
      only grows, and the node is flagged exhausted exactly when none of
      its children is live, the child then taken being exhausted too. */
  lemma OpponentSpec(tree: Branches, node: seq<int>, g: Grid)
    requires UNPLAYED in g && node in tree
    ensures var n := OpponentChoice(tree, node, g);
            var t := OpponentTree(tree, node, g);
            && 1 <= n <= 9 && IsUnplayed(g, Number(n))
            && node + [n] in t
            && Grows(tree, t)
            && (FirstAvailable(tree, node, Available(g)).None? <==> t[node] && !Live(tree, node + [n]))
            && (FirstAvailable(tree, node, Available(g)).Some? ==> !t[node + [n]] && t[node] == tree[node])
  {
    var ps := Available(g);
    AvailableSpec(g);
    InspectedChoice(tree, node, ps);
    InspectedGrows(tree, node, ps);
    var r := FirstAvailable(tree, node, ps);
    if r.None? {
      assert !Live(tree, node + [ps[0]]);
    } else {
      var i :| 0 <= i < |ps| && ps[i] == r.value && Live(tree, node + [ps[i]]);
      assert node + [r.value] != node;
    }
  }

  /** What opponent_move_func adds keeps the tree well formed. */
  lemma OpponentTreeWellFormed(tree: Branches, node: seq<int>, g: Grid)
    requires WellFormed(tree) && node in tree && |node| < 9
    ensures WellFormed(OpponentTree(tree, node, g))
  {
    var ps := Available(g);
    AvailableSpec(g);
    InspectedGrows(tree, node, ps);
    var t := Inspected(tree, node, ps);
    forall k | k in t && k !in tree
      ensures Bounded(k) && Parent(k) in t
    {
      var i :| 0 <= i < |ps| && k == node + [ps[i]];
      ChildBounded(node, ps[i]);
    }
  }

  /** One move of opponent_move_func keeps the progress of the game's walk. */
  lemma OpponentProgress(t0: Branches, tree: Branches, node: seq<int>, g: Grid)
    requires UNPLAYED in g && node in tree && Progress(t0, tree, node)
    ensures Progress(t0, OpponentTree(tree, node, g), node + [OpponentChoice(tree, node, g)])
  {
    var t := OpponentTree(tree, node, g);
    var n := OpponentChoice(tree, node, g);
    OpponentSpec(tree, node, g);
    GrowsTrans(t0, tree, t);
    GrowsExhausted(tree, t);
    if FirstAvailable(tree, node, Available(g)).None? && !(Exhausted(t0) < Exhausted(tree)) {
      assert !tree[node];
      assert node in Exhausted(t) && node !in Exhausted(tree);
      GrowsExhausted(t0, tree);
    }
  }

  /** The exhausted nodes of a well formed tree lie among the bounded paths. */
  lemma ExhaustedBounded(tree: Branches, u: set<seq<int>>)
    requires WellFormed(tree)
    requires forall k :: Bounded(k) ==> k in u
    ensures Exhausted(tree) <= u
    ensures |Exhausted(tree)| <= |u|
  {
    SubsetCard(Exhausted(tree), u);
  }

  /** The bot's turn, counted: pick_best_move's cell, an unplayed one, gets
      BOT's mark, so one unplayed cell fewer. */
  method BotMove(forks: seq<Grid>, board: array2<int>, choice: nat) returns (c: Cell)
    requires board.Length0 == 3 && board.Length1 == 3
    requires UNPLAYED in Snapshot(board)
    modifies board
    ensures PickBestMove(forks, old(Snapshot(board)), choice) == Some(c)
    ensures At(old(Snapshot(board)), c) == UNPLAYED
    ensures Snapshot(board) == Place(old(Snapshot(board)), c, BOT)
    ensures Count(Snapshot(board), UNPLAYED) == old(Count(Snapshot(board), UNPLAYED)) - 1
  {
    var g := Snapshot(board);
    c := BotTurn(forks, board, choice);
    PlaceCounts(g, c, BOT, OPPONENT);
  }

  /** The walk over the tree: the nodes and their flags, and the cursor
      current_branch naming the node of the game being played. */
  class Tree {
    var tree: Branches
    var cursor: seq<int>

    /** The root and the cursor are nodes, every node's parent is a node,
        and every node is a bounded path. */
    predicate Valid()
      reads this
    {
      WellFormed(tree) && cursor in tree
    }

    /** A fresh root {'branches': {}, 'exhausted': False}, the cursor on it. */
    constructor ()
      ensures Valid() && tree == map[[] := false] && cursor == []
    {
      tree := map[[] := false];
      cursor := [];
    }

    /** get_first_available on the children of the cursor node for the
        available position numbers ps, in order. */
    method GetFirstAvailable(ps: seq<int>) returns (r: Option<int>)
      requires Valid() && |cursor| < 9
      requires forall i :: 0 <= i < |ps| ==> 1 <= ps[i] <= 9
      modifies this
      ensures cursor == old(cursor)
      ensures r == FirstAvailable(old(tree), cursor, ps)
      ensures tree == Inspected(old(tree), cursor, ps)
      ensures Valid()
    {
      var i := 0;
      while i < |ps|
        invariant 0 <= i <= |ps|
        invariant tree == old(tree) && cursor == old(cursor)
        invariant forall j :: 0 <= j < i ==> !Live(tree, cursor + [ps[j]])
        decreases |ps| - i
      {
        var k := cursor + [ps[i]];
        if k !in tree || !tree[k] {
          InspectedAt(tree, cursor, ps, i);
          ChildBounded(cursor, ps[i]);
          Take(k);
          return Some(ps[i]);
        }
        i := i + 1;
      }
      InspectedNone(tree, cursor, ps);
      return None;
    }

    /** The child k of the cursor node is looked up, created unexhausted
        if it is missing. */
    method Take(k: seq<int>)
      requires Valid() && k != [] && Parent(k) == cursor && Bounded(k)
      modifies this
      ensures tree == if k in old(tree) then old(tree) else old(tree)[k := false]
      ensures cursor == old(cursor)
      ensures Valid()
    {
      if k !in tree {
        tree := tree[k := false];
      }
    }

    /** The choice of opponent_move_func on board g: the first available
        position whose child is live, or, when every child is exhausted, the
        node itself is flagged exhausted and the first unplayed cell is
        taken. */
    method Choose(g: Grid) returns (position: Position, n: int)
      requires Valid() && UNPLAYED in g && |cursor| < 9
      modifies this
      ensures n == OpponentChoice(old(tree), cursor, g) && 1 <= n <= 9
      ensures n == ArrayToPosition(position) && OnBoard(position) && CellAt(position) == CellAt(Number(n))
      ensures tree == OpponentTree(old(tree), cursor, g)
      ensures cursor == old(cursor) && Valid() && cursor + [n] in tree
    {
      var available := Where(g, UNPLAYED);
      ghost var before := tree;
      var first := GetFirstAvailable(Numbers(available));
      AvailableSpec(g);
      if first.None? {
        tree := tree[cursor := true];
        position := Pair(available[0]);
        CellRoundTrip(available[0]);
      } else {
        position := Number(first.value);
      }
      n := ArrayToPosition(position);
      OpponentSpec(before, cursor, g);
      OpponentTreeWellFormed(before, cursor, g);
    }

    /** opponent_move_func: the choice is applied for OPPONENT and the
        cursor descends to the child of the move. */
    method OpponentMove(board: array2<int>) returns (n: int)
      requires Valid() && board.Length0 == 3 && board.Length1 == 3
      requires UNPLAYED in Snapshot(board) && |cursor| < 9
      modifies this, board
      ensures n == OpponentChoice(old(tree), old(cursor), old(Snapshot(board))) && 1 <= n <= 9
      ensures tree == OpponentTree(old(tree), old(cursor), old(Snapshot(board)))
      ensures cursor == old(cursor) + [n]
      ensures Snapshot(board) == Place(old(Snapshot(board)), CellAt(Number(n)), OPPONENT)
      ensures Valid()
    {
      var g := Snapshot(board);
      var position;
      position, n := Choose(g);
      OpponentSpec(old(tree), cursor, g);
      var r := ApplyMove(board, position, OPPONENT);
      cursor := cursor + [n];
    }

    /** One turn of a game played by play_all_games: the bot's move or the
        walk's, then find_winner. The opponent has made as many moves as the
        cursor is deep, so the cursor stays short of the bound. */
    method Turn(forks: seq<Grid>, board: array2<int>, current: int, choice: nat, ghost t0: Branches)
      returns (winner: Option<int>)
      requires Valid() && board.Length0 == 3 && board.Length1 == 3
      requires FindWinner(Snapshot(board)) == None
      requires |cursor| + Count(Snapshot(board), UNPLAYED) <= 9
      requires Progress(t0, tree, cursor)
      modifies this, board
      ensures Valid() && Progress(t0, tree, cursor)
      ensures |cursor| + Count(Snapshot(board), UNPLAYED) <= 9
      ensures Count(Snapshot(board), UNPLAYED) < old(Count(Snapshot(board), UNPLAYED))
      ensures winner == FindWinner(Snapshot(board))
      ensures current == BOT ==>
                var m := PickBestMove(forks, old(Snapshot(board)), choice);
                && m.Some? && At(old(Snapshot(board)), m.value) == UNPLAYED
                && Snapshot(board) == Place(old(Snapshot(board)), m.value, BOT)
                && tree == old(tree) && cursor == old(cursor)
      ensures current != BOT ==>
                var n := OpponentChoice(old(tree), old(cursor), old(Snapshot(board)));
                && 1 <= n <= 9 && IsUnplayed(old(Snapshot(board)), Number(n))
                && Snapshot(board) == Place(old(Snapshot(board)), CellAt(Number(n)), OPPONENT)
                && tree == OpponentTree(old(tree), old(cursor), old(Snapshot(board)))
                && cursor == old(cursor) + [n]
    {
      assert UNPLAYED in Snapshot(board);
      if current == BOT {
        var c := BotMove(forks, board, choice);
      } else {
        WalkMove(board, t0);
      }
      winner := FindWinner(Snapshot(board));
    }

    /** The walk's move: opponent_move_func's choice, an unplayed cell, gets
      OPPONENT's mark and the cursor descends to its child, with the
      progress and the depth bound kept. */
    method WalkMove(board: array2<int>, ghost t0: Branches)
      requires Valid() && board.Length0 == 3 && board.Length1 == 3
      requires UNPLAYED in Snapshot(board)
      requires |cursor| + Count(Snapshot(board), UNPLAYED) <= 9
      requires Progress(t0, tree, cursor)
      modifies this, board
      ensures Valid() && Progress(t0, tree, cursor)
      ensures |cursor| + Count(Snapshot(board), UNPLAYED) <= 9
      ensures Count(Snapshot(board), UNPLAYED) < old(Count(Snapshot(board), UNPLAYED))
      ensures var n := OpponentChoice(old(tree), old(cursor), old(Snapshot(board)));
              && 1 <= n <= 9 && IsUnplayed(old(Snapshot(board)), Number(n))
              && Snapshot(board) == Place(old(Snapshot(board)), CellAt(Number(n)), OPPONENT)
              && tree == OpponentTree(old(tree), old(cursor), old(Snapshot(board)))
              && cursor == old(cursor) + [n]
    {
      var g := Snapshot(board);
      var node := cursor;
      var n := OpponentMove(board);
      OpponentSpec(old(tree), node, g);
      OpponentProgress(t0, old(tree), node, g);
      PlaceCounts(g, CellAt(Number(n)), OPPONENT, BOT);
    }

    /** play(opponent_move_func, first_player) with the walk as the
        opponent, from the root: the game ends with the cursor on the node
        its last opponent move reached, and the walk has made progress. */
    method PlayGame(forks: seq<Grid>, first: int, choice: nat, ghost t0: Branches)
      returns (winner: int)
      requires Valid() && cursor == [] && Progress(t0, tree, cursor)
      modifies this
      ensures Valid() && Progress(t0, tree, cursor)
    {
      var players := TurnOrder(first);
      var current := players[0];
      var board := NewBoard(players);
      while true
        invariant board.Length0 == 3 && board.Length1 == 3
        invariant Valid() && Progress(t0, tree, cursor)
        invariant FindWinner(Snapshot(board)) == None
        invariant |cursor| + Count(Snapshot(board), UNPLAYED) <= 9
        invariant current in players
        decreases Count(Snapshot(board), UNPLAYED)
      {
        var w := Turn(forks, board, current, choice, t0);
        if w.Some? {
          return w.value;
        }
        current := NextPlayer(players, current);
      }
    }

    /** The loop of play_all_games for one first_player: a fresh root, then
        games from the root, each ending with its last node flagged
        exhausted, until the root is exhausted. Each game flags a node that
        was live, so the loop ends. */
    method ExhaustRoot(forks: seq<Grid>, first: int, choice: nat)
      modifies this
      ensures Valid() && tree[[]]
    {
      tree := map[[] := false];
      cursor := [];
      ghost var u := Universe();
      while !tree[[]]
        invariant Valid()
        decreases |u| - |Exhausted(tree)|
      {
        cursor := [];
        ghost var t0 := tree;
        var winner := PlayGame(forks, first, choice, t0);
        FlagGrows(tree, cursor);
        GrowsExhausted(t0, tree);
        tree := tree[cursor := true];
        ExhaustedBounded(t0, u);
        ExhaustedBounded(tree, u);
        SubsetCard(Exhausted(t0), Exhausted(tree));
      }
    }

    /** play_all_games: the walk with the opponent first, then with the bot
        first, each from a fresh root, until that root is exhausted. */
    method PlayAllGames(forks: seq<Grid>, choice: nat)
      modifies this
      ensures Valid() && tree[[]]
    {
      var firsts := [OPPONENT, BOT];
      for i := 0 to |firsts|
        invariant i > 0 ==> Valid() && tree[[]]
      {
        ExhaustRoot(forks, firsts[i], choice);
      }
    }
  }
}
