/** The 3x3 board of the tic-tac-toe bot: cell values, coordinates, the two
    forms of a position, cell scans and the legality-checked move.

    A board value is a `Grid`: the nine cells in row-major order, cell
    (row, col) at index 3 * row + col. The board a game mutates in place is a
    3x3 `array2<int>`; `Snapshot` reads it as a Grid. */
module Board {

  datatype Option<T> = None | Some(value: T)

  const UNPLAYED := 0
  const OPPONENT := 1
  const BOT := 2

  /** Nine cells, row-major. Game boards hold UNPLAYED, OPPONENT or BOT;
      fork masks hold -1, 0 and 1. */
  type Grid = g: seq<int> | |g| == 9 witness [0, 0, 0, 0, 0, 0, 0, 0, 0]

  const NEW_BOARD: Grid := [0, 0, 0, 0, 0, 0, 0, 0, 0]

  /** A 0-based (row, column) coordinate pair, possibly off the board. */
  datatype Coord = Coord(row: int, col: int)

  /** A coordinate pair on the board. */
  type Cell = c: Coord | 0 <= c.row < 3 && 0 <= c.col < 3 witness Coord(0, 0)

  /** A position as callers pass it: a 1-based number or a coordinate pair. */
  datatype Position = Number(n: int) | Pair(at: Coord)

  function Idx(c: Cell): (t: nat)
    ensures t < 9
  {
    3 * c.row + c.col
  }

  /** The cell at row-major index t, the inverse of Idx. */
  function CellOf(t: nat): (c: Cell)
    requires t < 9
    ensures Idx(c) == t
  {
    if t < 3 then Coord(0, t) else if t < 6 then Coord(1, t - 3) else Coord(2, t - 6)
  }

  lemma CellOfIdx(c: Cell)
    ensures CellOf(Idx(c)) == c
  {
  }

  function At(g: Grid, c: Cell): int {
    g[3 * c.row + c.col]
  }

  /** Two grids that agree on every cell are equal. */
  lemma GridExt(g: Grid, h: Grid)
    requires forall c: Cell :: At(g, c) == At(h, c)
    ensures g == h
  {
    forall t | 0 <= t < 9
      ensures g[t] == h[t]
    {
      assert At(g, CellOf(t)) == At(h, CellOf(t));
    }
  }

  /** position_to_array: a number p becomes ((p-1) div 3, (p-1) mod 3); a
      pair is passed through. Dafny's `/` and `%` by 3 floor, as Python 2's
      integer `/` and `%` do, so every integer maps as it does in the source. */
  function PositionToArray(p: Position): (c: Coord)
    ensures p.Number? && 1 <= p.n <= 9 ==>
              0 <= c.row < 3 && 0 <= c.col < 3 && 3 * c.row + c.col + 1 == p.n
    ensures p.Pair? ==> c == p.at
  {
    match p
    case Number(n) => Coord((n - 1) / 3, (n - 1) % 3)
    case Pair(at) => at
  }

  /** Distinct numbers 1..9 name distinct cells. */
  lemma PositionToArrayInjective(p: int, q: int)
    requires 1 <= p <= 9 && 1 <= q <= 9 && p != q
    ensures PositionToArray(Number(p)) != PositionToArray(Number(q))
  {
  }

  /** The positions the board can be indexed with. */
  predicate OnBoard(p: Position) {
    var c := PositionToArray(p);
    0 <= c.row < 3 && 0 <= c.col < 3
  }

  function CellAt(p: Position): Cell
    requires OnBoard(p)
  {
    PositionToArray(p)
  }

  predicate IsUnplayed(g: Grid, p: Position)
    requires OnBoard(p)
  {
    At(g, CellAt(p)) == UNPLAYED
  }

  /** The board with cell c set to v. */
  function Place(g: Grid, c: Cell, v: int): (r: Grid)
    ensures At(r, c) == v
    ensures forall d: Cell :: d != c ==> At(r, d) == At(g, d)
  {
    g[Idx(c) := v]
  }

  /** Number of occurrences of v in s. */
  function Count(s: seq<int>, v: int): (n: nat)
    ensures n <= |s|
    ensures n == 0 <==> v !in s
  {
    if s == [] then 0 else (if s[0] == v then 1 else 0) + Count(s[1..], v)
  }

  lemma {:induction false} CountUpdate(s: seq<int>, i: nat, v: int, x: int)
    requires i < |s|
    ensures Count(s[i := x], v) ==
            Count(s, v) - (if s[i] == v then 1 else 0) + (if x == v then 1 else 0)
  {
    if i > 0 {
      CountUpdate(s[1..], i - 1, v, x);
      assert s[i := x][1..] == s[1..][i - 1 := x];
    } else {
      assert s[i := x][1..] == s[1..];
    }
  }

  /** Two different values together occur at most |s| times. */
  lemma {:induction false} CountTwo(s: seq<int>, v: int, w: int)
    requires v != w
    ensures Count(s, v) + Count(s, w) <= |s|
  {
    if s != [] {
      CountTwo(s[1..], v, w);
    }
  }

  /** Placing a mark on an unplayed cell removes exactly one unplayed cell. */
  lemma PlaceCounts(g: Grid, c: Cell, v: int, w: int)
    requires At(g, c) == UNPLAYED && v != UNPLAYED
    ensures Count(Place(g, c, v), UNPLAYED) == Count(g, UNPLAYED) - 1
    ensures Count(Place(g, c, v), v) == Count(g, v) + 1
    ensures w != v && w != UNPLAYED ==> Count(Place(g, c, v), w) == Count(g, w)
  {
    CountUpdate(g, Idx(c), UNPLAYED, v);
    CountUpdate(g, Idx(c), v, v);
    CountUpdate(g, Idx(c), w, v);
  }

  /** get_positions_by_item: the cells holding v, in row-major order
      (the order of numpy.where). */
  function Where(g: Grid, v: int): seq<Cell> {
    WhereIn(g, v)
  }

  /** The cells among the first |s| (row-major) that hold v. */
  function WhereIn(s: seq<int>, v: int): seq<Cell>
    requires |s| <= 9
  {
    if s == [] then []
    else WhereIn(s[..|s| - 1], v) + (if s[|s| - 1] == v then [CellOf(|s| - 1)] else [])
  }

  /** The scan finds exactly the cells holding v, each once, in strictly
      increasing row-major order. */
  lemma WhereSpec(g: Grid, v: int)
    ensures forall c: Cell :: c in Where(g, v) <==> At(g, c) == v
    ensures forall i, j :: 0 <= i < j < |Where(g, v)| ==> Idx(Where(g, v)[i]) < Idx(Where(g, v)[j])
  {
    WhereInMembers(g, v);
    WhereInSorted(g, v);
  }

  lemma {:induction false} WhereInMembers(s: seq<int>, v: int)
    requires |s| <= 9
    ensures forall c: Cell :: c in WhereIn(s, v) <==> Idx(c) < |s| && s[Idx(c)] == v
  {
    if s != [] {
      var init := s[..|s| - 1];
      WhereInMembers(init, v);
      forall c: Cell
        ensures c in WhereIn(s, v) <==> Idx(c) < |s| && s[Idx(c)] == v
      {
        CellOfIdx(c);
        if Idx(c) < |init| {
          assert init[Idx(c)] == s[Idx(c)];
        }
      }
    }
  }

  lemma {:induction false} WhereInSorted(s: seq<int>, v: int)
    requires |s| <= 9
    ensures forall i :: 0 <= i < |WhereIn(s, v)| ==> Idx(WhereIn(s, v)[i]) < |s|
    ensures forall i, j :: 0 <= i < j < |WhereIn(s, v)| ==> Idx(WhereIn(s, v)[i]) < Idx(WhereIn(s, v)[j])
  {
    if s != [] {
      var init := s[..|s| - 1];
      WhereInSorted(init, v);
      if s[|s| - 1] == v {
        SortedSnoc(WhereIn(init, v), CellOf(|s| - 1), |s| - 1);
      } else {
        assert WhereIn(s, v) == WhereIn(init, v);
      }
    }
  }

  lemma SortedSnoc(rest: seq<Cell>, c: Cell, t: nat)
    requires Idx(c) == t
    requires forall i :: 0 <= i < |rest| ==> Idx(rest[i]) < t
    requires forall i, j :: 0 <= i < j < |rest| ==> Idx(rest[i]) < Idx(rest[j])
    ensures forall i :: 0 <= i < |rest + [c]| ==> Idx((rest + [c])[i]) < t + 1
    ensures forall i, j :: 0 <= i < j < |rest + [c]| ==> Idx((rest + [c])[i]) < Idx((rest + [c])[j])
  {
    var w := rest + [c];
    assert forall i :: 0 <= i < |rest| ==> w[i] == rest[i];
  }

  /** Cells past index k that do not hold v add nothing to the scan. */
  lemma {:induction false} WhereInPrefix(s: seq<int>, v: int, k: nat)
    requires k <= |s| <= 9
    requires forall t :: k <= t < |s| ==> s[t] != v
    ensures WhereIn(s, v) == WhereIn(s[..k], v)
    decreases |s| - k
  {
    if k < |s| {
      var init := s[..|s| - 1];
      WhereInPrefix(init, v, k);
      assert init[..k] == s[..k];
      assert s[|s| - 1] != v;
      assert s[..|s| - 1] == init;
    } else {
      assert s[..k] == s;
    }
  }

  /** The scan of the first t + 1 cells extends the scan of the first t. */
  lemma WhereInSnoc(s: seq<int>, v: int, t: nat)
    requires t < |s| <= 9
    ensures WhereIn(s[..t + 1], v) == WhereIn(s[..t], v) + (if s[t] == v then [CellOf(t)] else [])
  {
    assert s[..t + 1][..t] == s[..t];
  }

  /** When exactly one cell holds v, the scan finds that cell alone. */
  lemma WhereSingleton(g: Grid, v: int, d: Cell)
    requires forall c: Cell :: At(g, c) == v <==> c == d
    ensures Where(g, v) == [d]
  {
    forall t | 0 <= t < 9
      ensures g[t] == v <==> t == Idx(d)
    {
      assert At(g, CellOf(t)) == g[t];
      CellOfIdx(d);
    }
    WhereInSingleton(g, v, d);
  }

  lemma {:induction false} WhereInSingleton(s: seq<int>, v: int, d: Cell)
    requires |s| <= 9
    requires forall t :: 0 <= t < |s| ==> (s[t] == v <==> t == Idx(d))
    ensures WhereIn(s, v) == if Idx(d) < |s| then [d] else []
  {
    if s != [] {
      var init := s[..|s| - 1];
      WhereInSingleton(init, v, d);
      CellOfIdx(d);
    }
  }

  /** The first cell of cs that satisfies p, scanning cs in order. */
  function FirstWhere(cs: seq<Cell>, p: Cell -> bool): (r: Option<Cell>)
    ensures r.None? <==> forall i :: 0 <= i < |cs| ==> !p(cs[i])
    ensures r.Some? ==> exists i :: 0 <= i < |cs| && cs[i] == r.value && p(cs[i]) &&
                                    forall j :: 0 <= j < i ==> !p(cs[j])
  {
    if cs == [] then None
    else if p(cs[0]) then Some(cs[0])
    else
      var r := FirstWhere(cs[1..], p);
      assert forall i :: 1 <= i < |cs| ==> cs[i] == cs[1..][i - 1];
      r
  }

  /** The first present value of rs. */
  function FirstSome(rs: seq<Option<Cell>>): (r: Option<Cell>)
    ensures r.None? <==> forall i :: 0 <= i < |rs| ==> rs[i].None?
    ensures r.Some? ==> exists i :: 0 <= i < |rs| && rs[i] == r && forall j :: 0 <= j < i ==> rs[j].None?
  {
    if rs == [] then None
    else if rs[0].Some? then rs[0]
    else
      var r := FirstSome(rs[1..]);
      assert forall i :: 1 <= i < |rs| ==> rs[i] == rs[1..][i - 1];
      r
  }

  /** The in-place board read as a Grid. */
  function Snapshot(b: array2<int>): Grid
    requires b.Length0 == 3 && b.Length1 == 3
    reads b
  {
    [b[0, 0], b[0, 1], b[0, 2], b[1, 0], b[1, 1], b[1, 2], b[2, 0], b[2, 1], b[2, 2]]
  }

  /** The outcome of apply_move: the move was applied, or TicTacNo
      ("Position already played.") was raised. */
  datatype MoveResult = Applied | TicTacNo

  /** apply_move: place `player` on the cell named by p if it is unplayed;
      otherwise signal TicTacNo and leave the board as it was. */
  method ApplyMove(board: array2<int>, p: Position, player: int) returns (r: MoveResult)
    requires board.Length0 == 3 && board.Length1 == 3
    requires OnBoard(p)
    modifies board
    ensures r == TicTacNo <==> !IsUnplayed(old(Snapshot(board)), p)
    ensures r == TicTacNo ==> Snapshot(board) == old(Snapshot(board))
    ensures r == Applied ==> Snapshot(board) == Place(old(Snapshot(board)), CellAt(p), player)
  {
    var c := CellAt(p);
    SnapshotAt(board, c);
    if board[c.row, c.col] != UNPLAYED {
      return TicTacNo;
    }
    ghost var g := Snapshot(board);
    SnapshotCells(board);
    board[c.row, c.col] := player;
    SnapshotCells(board);
    GridExt(Snapshot(board), Place(g, c, player));
    r := Applied;
  }

  /** The Grid reads each cell of the in-place board. */
  lemma SnapshotAt(b: array2<int>, c: Cell)
    requires b.Length0 == 3 && b.Length1 == 3
    ensures At(Snapshot(b), c) == b[c.row, c.col]
  {
  }

  lemma SnapshotCells(b: array2<int>)
    requires b.Length0 == 3 && b.Length1 == 3
    ensures forall c: Cell :: At(Snapshot(b), c) == b[c.row, c.col]
  {
    forall c: Cell
      ensures At(Snapshot(b), c) == b[c.row, c.col]
    {
      SnapshotAt(b, c);
    }
  }
}
