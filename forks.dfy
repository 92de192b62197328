/** Matching the fork table against a board: get_all_forks, fork and
    block_fork. The table is a parameter: the source computes it once, at
    import time, with generate_forks. */
module Forks {
  import opened Board
  import opened Rotation
  import opened Wins

  /** The values of h on the cells cs, in order (board[numpy.where(...)]). */
  function Values(h: Grid, cs: seq<Cell>): (vs: seq<int>)
    ensures |vs| == |cs| && forall i :: 0 <= i < |cs| ==> vs[i] == At(h, cs[i])
  {
    if cs == [] then [] else [At(h, cs[0])] + Values(h, cs[1..])
  }

  /** Python's set(...) of a list of values. */
  function Uniques(vs: seq<int>): set<int> {
    set x | x in vs
  }

  lemma UniquesSingleton(vs: seq<int>, v: int)
    ensures Uniques(vs) == {v} <==> |vs| > 0 && forall i :: 0 <= i < |vs| ==> vs[i] == v
  {
    if |vs| > 0 && forall i :: 0 <= i < |vs| ==> vs[i] == v {
      assert vs[0] in Uniques(vs);
    }
    if Uniques(vs) == {v} {
      assert v in Uniques(vs);
      forall i | 0 <= i < |vs|
        ensures vs[i] == v
      {
        assert vs[i] in Uniques(vs);
      }
    }
  }

  /** The test match_board of get_all_forks applies to mask f: the set of
      values on the 0-cells is exactly {UNPLAYED}, and the values on the
      1-cells hold player twice and UNPLAYED once. */
  predicate Fits(f: Grid, h: Grid, player: int) {
    var played := Values(h, Where(f, 1));
    Uniques(Values(h, Where(f, 0))) == {UNPLAYED} && Count(played, player) == 2 && Count(played, UNPLAYED) == 1
  }

  /** A fitting mask reports its 1-cell that is still UNPLAYED. */
  function MaskMatch(f: Grid, h: Grid, player: int): seq<Cell> {
    var ones := Where(f, 1);
    if Fits(f, h, player) then [ones[IndexOf(Values(h, ones), UNPLAYED)]] else []
  }

  /** The set test on the 0-cells means: the mask has a 0-cell, and every
      0-cell of the mask is UNPLAYED on the board. */
  lemma FitsZeros(f: Grid, h: Grid, player: int)
    ensures Fits(f, h, player) <==>
              && (exists d: Cell :: At(f, d) == 0)
              && (forall d: Cell :: At(f, d) == 0 ==> At(h, d) == UNPLAYED)
              && Count(Values(h, Where(f, 1)), player) == 2
              && Count(Values(h, Where(f, 1)), UNPLAYED) == 1
  {
    var zs := Where(f, 0);
    WhereSpec(f, 0);
    UniquesSingleton(Values(h, zs), UNPLAYED);
    AllOnCells(f, h, zs, Values(h, zs));
  }

  lemma AllOnCells(f: Grid, h: Grid, zs: seq<Cell>, vals: seq<int>)
    requires forall c: Cell :: c in zs <==> At(f, c) == 0
    requires |vals| == |zs| && forall i :: 0 <= i < |zs| ==> vals[i] == At(h, zs[i])
    ensures (|vals| > 0 && forall i :: 0 <= i < |vals| ==> vals[i] == UNPLAYED) <==>
            (exists d: Cell :: At(f, d) == 0) && (forall d: Cell :: At(f, d) == 0 ==> At(h, d) == UNPLAYED)
  {
    if |vals| > 0 {
      assert zs[0] in zs;
    }
    if exists d: Cell :: At(f, d) == 0 {
      var d: Cell :| At(f, d) == 0;
      assert d in zs;
    }
    if forall i :: 0 <= i < |vals| ==> vals[i] == UNPLAYED {
      forall d: Cell | At(f, d) == 0
        ensures At(h, d) == UNPLAYED
      {
        assert d in zs;
        var k :| 0 <= k < |zs| && zs[k] == d;
        assert vals[k] == UNPLAYED;
      }
    }
  }

  /** A reported cell is a 1-cell of the mask that is UNPLAYED on the board;
      at most one cell is reported, and one is exactly when the mask fits. */
  lemma MaskMatchCell(f: Grid, h: Grid, player: int)
    ensures |MaskMatch(f, h, player)| <= 1
    ensures MaskMatch(f, h, player) != [] <==> Fits(f, h, player)
    ensures MaskMatch(f, h, player) != [] ==>
              At(f, MaskMatch(f, h, player)[0]) == 1 && At(h, MaskMatch(f, h, player)[0]) == UNPLAYED
  {
    var ones := Where(f, 1);
    WhereSpec(f, 1);
    if Fits(f, h, player) {
      var i := IndexOf(Values(h, ones), UNPLAYED);
      assert ones[i] in ones;
    }
  }

  /** The reports of the masks fs, in table order. */
  function Reports(fs: seq<Grid>, report: Grid -> seq<Cell>): seq<Cell>
    decreases |fs|
  {
    if fs == [] then [] else Reports(fs[..|fs| - 1], report) + report(fs[|fs| - 1])
  }

  lemma {:induction false} InReports(fs: seq<Grid>, report: Grid -> seq<Cell>, d: Cell)
    ensures d in Reports(fs, report) <==> exists j :: 0 <= j < |fs| && d in report(fs[j])
    decreases |fs|
  {
    if fs != [] {
      var init := fs[..|fs| - 1];
      InReports(init, report, d);
      assert forall j :: 0 <= j < |init| ==> init[j] == fs[j];
      assert fs[|init|] == fs[|fs| - 1];
    }
  }

  lemma ReportsStep(fs: seq<Grid>, report: Grid -> seq<Cell>, i: nat)
    requires i < |fs|
    ensures Reports(fs[..i + 1], report) == Reports(fs[..i], report) + report(fs[i])
  {
    assert fs[..i + 1][..i] == fs[..i];
  }

  /** The per-mask report of match_board on board h. */
  function Matcher(h: Grid, player: int): Grid -> seq<Cell> {
    (f: Grid) => MaskMatch(f, h, player)
  }

  /** The matcher of get_all_forks for player, as a function of the board. */
  function MatcherFor(player: int): Grid -> (Grid -> seq<Cell>) {
    (h: Grid) => Matcher(h, player)
  }

  /** match_board of get_all_forks: the reports of the masks in table order. */
  function BoardForks(forks: seq<Grid>, player: int, h: Grid): seq<Cell> {
    Reports(forks, Matcher(h, player))
  }

  /** The passes over the board turned 0, ..., n - 1 times, each mapped back. */
  function Passes(forks: seq<Grid>, matcher: Grid -> (Grid -> seq<Cell>), g: Grid, n: nat): seq<Cell>
    requires n <= 4
  {
    if n == 0 then []
    else Passes(forks, matcher, g, n - 1) + MapBack(Reports(forks, matcher(Rotate(g, n - 1))), n - 1)
  }

  /** get_all_forks: the matches on the board turned 0, 1, 2 and 3 times,
      each mapped back to the board itself. */
  function AllForks(forks: seq<Grid>, player: int, g: Grid): seq<Cell> {
    Passes(forks, MatcherFor(player), g, 4)
  }

  /** Cell c comes from mask j on the board turned k times. */
  predicate PassReports(forks: seq<Grid>, matcher: Grid -> (Grid -> seq<Cell>), g: Grid, c: Cell, k: nat, j: nat)
    requires k < 4 && j < |forks|
  {
    Unrotate(c, 4 - k) in matcher(Rotate(g, k))(forks[j])
  }

  lemma {:induction false} InPasses(forks: seq<Grid>, matcher: Grid -> (Grid -> seq<Cell>), g: Grid, n: nat, c: Cell)
    requires n <= 4
    ensures c in Passes(forks, matcher, g, n) <==>
            exists k, j :: 0 <= k < n && 0 <= j < |forks| && PassReports(forks, matcher, g, c, k, j)
  {
    if n > 0 {
      var k := n - 1;
      InPasses(forks, matcher, g, k, c);
      var cs := Reports(forks, matcher(Rotate(g, k)));
      var d := Unrotate(c, 4 - k);
      InMapBack(cs, k, c);
      InReports(forks, matcher(Rotate(g, k)), d);
      assert Passes(forks, matcher, g, n) == Passes(forks, matcher, g, k) + MapBack(cs, k);
      if c in Passes(forks, matcher, g, n) {
        if c in Passes(forks, matcher, g, k) {
          var k', j :| 0 <= k' < k && 0 <= j < |forks| && PassReports(forks, matcher, g, c, k', j);
          assert 0 <= k' < n;
        } else {
          var j :| 0 <= j < |forks| && d in matcher(Rotate(g, k))(forks[j]);
          assert PassReports(forks, matcher, g, c, k, j);
        }
      }
      if exists k', j :: 0 <= k' < n && 0 <= j < |forks| && PassReports(forks, matcher, g, c, k', j) {
        var k', j :| 0 <= k' < n && 0 <= j < |forks| && PassReports(forks, matcher, g, c, k', j);
        if k' < k {
          assert c in Passes(forks, matcher, g, k);
        } else {
          assert k' == k;
          assert d in matcher(Rotate(g, k))(forks[j]);
          assert c in MapBack(cs, k);
        }
      }
    }
  }

  /** Mask j of the table, fitted to the board turned k times, reports the
      cell that the turn carries c onto. */
  predicate ReportedBy(forks: seq<Grid>, player: int, g: Grid, c: Cell, k: nat, j: nat)
    requires k < 4 && j < |forks|
  {
    Unrotate(c, 4 - k) in MaskMatch(forks[j], Rotate(g, k), player)
  }

  /** get_all_forks reports exactly the cells that some mask of the table,
      fitted to the board turned k times (k = 0..3), reports, mapped back.
      Each such cell is UNPLAYED on the board and comes from a mask that fits
      the turned board, at one of the mask's 1-cells. */
  lemma AllForksSpec(forks: seq<Grid>, player: int, g: Grid, c: Cell)
    ensures c in AllForks(forks, player, g) <==>
            exists k, j :: 0 <= k < 4 && 0 <= j < |forks| && ReportedBy(forks, player, g, c, k, j)
    ensures c in AllForks(forks, player, g) ==>
            && At(g, c) == UNPLAYED
            && exists k, j :: 0 <= k < 4 && 0 <= j < |forks| &&
                 Fits(forks[j], Rotate(g, k), player) && At(forks[j], Unrotate(c, 4 - k)) == 1
  {
    InPasses(forks, MatcherFor(player), g, 4, c);
    forall k, j | 0 <= k < 4 && 0 <= j < |forks|
      ensures PassReports(forks, MatcherFor(player), g, c, k, j) <==> ReportedBy(forks, player, g, c, k, j)
    {
    }
    if c in AllForks(forks, player, g) {
      var k, j :| 0 <= k < 4 && 0 <= j < |forks| && ReportedBy(forks, player, g, c, k, j);
      ReportedCell(forks, player, g, c, k, j);
    }
  }

  lemma ReportedCell(forks: seq<Grid>, player: int, g: Grid, c: Cell, k: nat, j: nat)
    requires k < 4 && j < |forks| && ReportedBy(forks, player, g, c, k, j)
    ensures At(g, c) == UNPLAYED
    ensures Fits(forks[j], Rotate(g, k), player) && At(forks[j], Unrotate(c, 4 - k)) == 1
  {
    MaskMatchCell(forks[j], Rotate(g, k), player);
    UnrotateInverse(c, k);
  }

  /** Every cell get_all_forks reports is UNPLAYED. */
  lemma AllForksUnplayed(forks: seq<Grid>, player: int, g: Grid)
    ensures forall c :: c in AllForks(forks, player, g) ==> At(g, c) == UNPLAYED
  {
    forall c | c in AllForks(forks, player, g)
      ensures At(g, c) == UNPLAYED
    {
      AllForksSpec(forks, player, g, c);
    }
  }

  /** The source's loop: for i in range(4), extend by
      try_rotated(match_board, board, num_rotations=i). */
  lemma AllForksByTryRotated(forks: seq<Grid>, player: int, g: Grid, k: nat)
    requires k < 4
    ensures TryRotated((h: Grid) => Cells(BoardForks(forks, player, h)), g, k).cs ==
            MapBack(BoardForks(forks, player, Rotate(g, k)), k)
  {
    if k == 0 {
      var bf := BoardForks(forks, player, g);
      assert MapBack(bf, 0) == bf;
    } else {
      assert Normalised(k) == k;
    }
  }

  /** match_board of get_all_forks, as the source runs it. */
  method MatchBoardForks(forks: seq<Grid>, player: int, h: Grid) returns (boardForks: seq<Cell>)
    ensures boardForks == BoardForks(forks, player, h)
  {
    boardForks := [];
    for i := 0 to |forks|
      invariant boardForks == BoardForks(forks[..i], player, h)
    {
      ReportsStep(forks, Matcher(h, player), i);
      boardForks := boardForks + MaskMatch(forks[i], h, player);
    }
    assert forks[..|forks|] == forks;
  }

  /** get_all_forks, as the source runs it. */
  method GetAllForks(forks: seq<Grid>, player: int, g: Grid) returns (allForks: seq<Cell>)
    ensures allForks == AllForks(forks, player, g)
  {
    allForks := [];
    for i := 0 to 4
      invariant allForks == Passes(forks, MatcherFor(player), g, i)
    {
      var turned := MatchBoardForks(forks, player, Rotate(g, i));
      allForks := allForks + MapBack(turned, i);
    }
  }

  /** fork_by_player(player): the first reported cell, or None. */
  function ForkBy(forks: seq<Grid>, player: int, g: Grid): (r: Option<Cell>)
    ensures r.None? <==> AllForks(forks, player, g) == []
    ensures r.Some? ==> r.value in AllForks(forks, player, g) && At(g, r.value) == UNPLAYED
  {
    var all := AllForks(forks, player, g);
    if all == [] then None
    else
      AllForksSpec(forks, player, g, all[0]);
      Some(all[0])
  }

  /** fork_by_player(player), as the source runs it. */
  method ForkByPlayer(forks: seq<Grid>, player: int, g: Grid) returns (r: Option<Cell>)
    ensures r == ForkBy(forks, player, g)
  {
    var all := GetAllForks(forks, player, g);
    if all == [] {
      return None;
    }
    r := Some(all[0]);
  }

  /** fork: a cell where the bot completes a fork. */
  function Fork(forks: seq<Grid>, g: Grid): Option<Cell> {
    ForkBy(forks, BOT, g)
  }

  /** The first index of cs whose element satisfies p gives FirstWhere's
      answer. */
  lemma FirstWhereAt(cs: seq<Cell>, p: Cell -> bool, i: nat)
    requires i < |cs| && p(cs[i]) && forall j :: 0 <= j < i ==> !p(cs[j])
    ensures FirstWhere(cs, p) == Some(cs[i])
  {
    var r := FirstWhere(cs, p);
    var i' :| 0 <= i' < |cs| && cs[i'] == r.value && p(cs[i']) && forall j :: 0 <= j < i' ==> !p(cs[j]);
    assert i' == i;
  }

  /** Playing f for the bot gives the bot a winning threat whose completing
      cell is not one of the opponent's fork cells, so the opponent has to
      block there instead of forking. */
  predicate ForcesBlock(g: Grid, opp: seq<Cell>, f: Cell) {
    var w := Win(Place(g, f, BOT));
    w.Some? && w.value !in opp
  }

  /** Playing f for the bot leaves the opponent no fork. */
  predicate Defuses(forks: seq<Grid>, g: Grid, f: Cell) {
    AllForks(forks, OPPONENT, Place(g, f, BOT)) == []
  }

  /** The forcing test of block_fork as a function value. */
  function Forcing(g: Grid, opp: seq<Cell>): Cell -> bool {
    (f: Cell) => ForcesBlock(g, opp, f)
  }

  /** The fork-removing test of block_fork as a function value. */
  function Defusing(forks: seq<Grid>, g: Grid): Cell -> bool {
    (f: Cell) => Defuses(forks, g, f)
  }

  /** block_fork: when the opponent has a fork, the first unplayed cell (in
      row-major order) that forces a block elsewhere; failing that, the first
      of the opponent's fork cells that leaves no fork after the bot takes it;
      failing that, the opponent's first fork cell. None when the opponent has
      no fork. */
  function BlockFork(forks: seq<Grid>, g: Grid): (r: Option<Cell>)
    ensures r.None? <==> AllForks(forks, OPPONENT, g) == []
  {
    var opp := AllForks(forks, OPPONENT, g);
    if opp == [] then None
    else
      match FirstWhere(Where(g, UNPLAYED), Forcing(g, opp))
      case Some(f) => Some(f)
      case None =>
        match FirstWhere(opp, Defusing(forks, g))
        case Some(f) => Some(f)
        case None => Some(opp[0])
  }

  /** Every cell block_fork returns is UNPLAYED. */
  lemma BlockForkUnplayed(forks: seq<Grid>, g: Grid)
    ensures var r := BlockFork(forks, g);
            r.Some? ==> At(g, r.value) == UNPLAYED
  {
    var opp := AllForks(forks, OPPONENT, g);
    if opp != [] {
      WhereSpec(g, UNPLAYED);
      AllForksUnplayed(forks, OPPONENT, g);
    }
  }

  /** When some unplayed cell forces a block, block_fork returns the
      row-major first such cell. */
  lemma BlockForkForcing(forks: seq<Grid>, g: Grid, c: Cell)
    requires AllForks(forks, OPPONENT, g) != []
    requires At(g, c) == UNPLAYED && ForcesBlock(g, AllForks(forks, OPPONENT, g), c)
    ensures var r := BlockFork(forks, g);
            var opp := AllForks(forks, OPPONENT, g);
            && r.Some? && At(g, r.value) == UNPLAYED && ForcesBlock(g, opp, r.value)
            && forall d: Cell :: At(g, d) == UNPLAYED && Idx(d) < Idx(r.value) ==> !ForcesBlock(g, opp, d)
  {
    var opp := AllForks(forks, OPPONENT, g);
    WhereSpec(g, UNPLAYED);
    FirstInSorted(Where(g, UNPLAYED), Forcing(g, opp), c);
  }

  /** In a list sorted by row-major index that holds a cell satisfying p,
      FirstWhere finds the cell of least index satisfying p. */
  lemma FirstInSorted(cs: seq<Cell>, p: Cell -> bool, c: Cell)
    requires forall a, b :: 0 <= a < b < |cs| ==> Idx(cs[a]) < Idx(cs[b])
    requires c in cs && p(c)
    ensures var r := FirstWhere(cs, p);
            && r.Some? && r.value in cs && p(r.value)
            && forall d :: d in cs && Idx(d) < Idx(r.value) ==> !p(d)
  {
    var first := FirstSatisfying(cs, p, c);
    var i :| 0 <= i < |cs| && cs[i] == first && p(cs[i]) && forall j :: 0 <= j < i ==> !p(cs[j]);
    forall d | d in cs && Idx(d) < Idx(first)
      ensures !p(d)
    {
      var j :| 0 <= j < |cs| && cs[j] == d;
      EarlierFails(cs, p, i, j);
    }
  }

  /** In a list sorted by row-major index, a cell earlier than the first one
      satisfying p does not satisfy p. */
  lemma EarlierFails(cs: seq<Cell>, p: Cell -> bool, i: nat, j: nat)
    requires i < |cs| && j < |cs| && Idx(cs[j]) < Idx(cs[i])
    requires forall a, b :: 0 <= a < b < |cs| ==> Idx(cs[a]) < Idx(cs[b])
    requires forall k :: 0 <= k < i ==> !p(cs[k])
    ensures !p(cs[j])
  {
    assert j < i;
  }

  /** FirstWhere finds a value when some member satisfies p; its index is the
      first such. */
  lemma FirstSatisfying(cs: seq<Cell>, p: Cell -> bool, c: Cell) returns (first: Cell)
    requires c in cs && p(c)
    ensures FirstWhere(cs, p) == Some(first)
    ensures exists i :: 0 <= i < |cs| && cs[i] == first && p(cs[i]) && forall j :: 0 <= j < i ==> !p(cs[j])
  {
    var j :| 0 <= j < |cs| && cs[j] == c;
    first := FirstWhere(cs, p).value;
  }

  /** When no unplayed cell forces a block, block_fork returns one of the
      opponent's fork cells, and one that removes every fork when such a
      cell exists. */
  lemma BlockForkFallback(forks: seq<Grid>, g: Grid)
    requires AllForks(forks, OPPONENT, g) != []
    requires forall c: Cell :: At(g, c) == UNPLAYED ==> !ForcesBlock(g, AllForks(forks, OPPONENT, g), c)
    ensures var r := BlockFork(forks, g);
            var opp := AllForks(forks, OPPONENT, g);
            && r.Some? && r.value in opp
            && ((exists c :: c in opp && Defuses(forks, g, c)) ==> Defuses(forks, g, r.value))
  {
    var opp := AllForks(forks, OPPONENT, g);
    var un := Where(g, UNPLAYED);
    NoneSatisfying(g, un, Forcing(g, opp));
    if exists c :: c in opp && Defuses(forks, g, c) {
      var c :| c in opp && Defuses(forks, g, c);
      var _ := FirstSatisfying(opp, Defusing(forks, g), c);
    }
  }

  lemma NoneSatisfying(g: Grid, un: seq<Cell>, p: Cell -> bool)
    requires un == Where(g, UNPLAYED)
    requires forall c: Cell :: At(g, c) == UNPLAYED ==> !p(c)
    ensures FirstWhere(un, p) == None
  {
    WhereSpec(g, UNPLAYED);
    assert forall i :: 0 <= i < |un| ==> At(g, un[i]) == UNPLAYED;
  }

  /** One step of block_fork's first loop: play c for the bot on a copy of
      the board and look for the bot's winning cell. */
  method TryForcing(g: Grid, opp: seq<Cell>, c: Cell) returns (forces: bool)
    ensures forces == Forcing(g, opp)(c)
  {
    var temp := Place(g, c, BOT);
    var block := WinByPlayer(BOT, temp);
    forces := block.Some? && block.value !in opp;
  }

  /** The first loop of block_fork, over the given cells in order (the
      caller passes the unplayed cells in row-major order). */
  method ForcingSearch(g: Grid, opp: seq<Cell>, cells: seq<Cell>) returns (r: Option<Cell>)
    ensures r == FirstWhere(cells, Forcing(g, opp))
  {
    for i := 0 to |cells|
      invariant forall j :: 0 <= j < i ==> !Forcing(g, opp)(cells[j])
    {
      r := ForcingStep(g, opp, cells, i);
      if r.Some? {
        return;
      }
    }
    r := None;
  }

  /** One turn of the first loop: cells[i] is the answer when it forces a
      block, the earlier cells having failed. */
  method ForcingStep(g: Grid, opp: seq<Cell>, cells: seq<Cell>, i: nat) returns (r: Option<Cell>)
    requires i < |cells| && forall j :: 0 <= j < i ==> !Forcing(g, opp)(cells[j])
    ensures r.Some? ==> r == FirstWhere(cells, Forcing(g, opp))
    ensures r.None? ==> !Forcing(g, opp)(cells[i])
  {
    var forces := TryForcing(g, opp, cells[i]);
    if forces {
      FirstWhereAt(cells, Forcing(g, opp), i);
      r := Some(cells[i]);
    } else {
      r := None;
    }
  }

  /** One step of block_fork's second loop: take c for the bot on a copy of
      the board and look for the opponent's forks. */
  method TryDefusing(forks: seq<Grid>, g: Grid, c: Cell) returns (defuses: bool)
    ensures defuses == Defusing(forks, g)(c)
  {
    var temp := Place(g, c, BOT);
    var left := GetAllForks(forks, OPPONENT, temp);
    defuses := left == [];
  }

  /** The second loop of block_fork: the opponent's fork cells in order,
      each taken for the bot on a copy of the board. */
  method DefusingSearch(forks: seq<Grid>, g: Grid, opp: seq<Cell>) returns (r: Option<Cell>)
    ensures r == FirstWhere(opp, Defusing(forks, g))
  {
    for i := 0 to |opp|
      invariant forall j :: 0 <= j < i ==> !Defusing(forks, g)(opp[j])
    {
      r := DefusingStep(forks, g, opp, i);
      if r.Some? {
        return;
      }
    }
    r := None;
  }

  /** One turn of the second loop: opp[i] is the answer when it defuses,
      the earlier cells having failed. */
  method DefusingStep(forks: seq<Grid>, g: Grid, opp: seq<Cell>, i: nat) returns (r: Option<Cell>)
    requires i < |opp| && forall j :: 0 <= j < i ==> !Defusing(forks, g)(opp[j])
    ensures r.Some? ==> r == FirstWhere(opp, Defusing(forks, g))
    ensures r.None? ==> !Defusing(forks, g)(opp[i])
  {
    var defuses := TryDefusing(forks, g, opp[i]);
    if defuses {
      FirstWhereAt(opp, Defusing(forks, g), i);
      r := Some(opp[i]);
    } else {
      r := None;
    }
  }

  /** block_fork, as the source runs it. */
  method BlockForkSearch(forks: seq<Grid>, g: Grid) returns (r: Option<Cell>)
    ensures r == BlockFork(forks, g)
  {
    var opp := GetAllForks(forks, OPPONENT, g);
    if opp == [] {
      return None;
    }
    var unplayed := Where(g, UNPLAYED);
    r := ForcingSearch(g, opp, unplayed);
    if r.None? {
      r := DefusingSearch(forks, g, opp);
      if r.None? {
        r := Some(opp[0]);
      }
    }
  }
}
