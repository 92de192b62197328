/** generate_forks: the table of fork masks the bot matches boards against.

    A mask is a board of -1, 0 and 1: 1 on the three cells of a fork, 0 on
    the two cells the fork threatens to complete, -1 on every other cell. */
module ForkTable {
  import opened Board
  import opened Rotation
  import opened Wins

  /** The cell a position number 1..9 names. */
  function Spot(p: int): (c: Cell)
    requires 1 <= p <= 9
    ensures Idx(c) == p - 1
  {
    CellAt(Number(p))
  }

  /** A fresh board with 1 on each of the cells cs, set one after another. */
  function Marks(cs: seq<Cell>): Grid
    decreases |cs|
  {
    if cs == [] then NEW_BOARD else Place(Marks(cs[..|cs| - 1]), cs[|cs| - 1], 1)
  }

  /** The marked board holds 1 exactly on the cells cs. */
  lemma {:induction false} MarksAt(cs: seq<Cell>)
    ensures forall d: Cell :: At(Marks(cs), d) == (if d in cs then 1 else UNPLAYED)
    decreases |cs|
  {
    if cs != [] {
      var init := cs[..|cs| - 1];
      MarksAt(init);
      assert forall d :: d in cs <==> d in init || d == cs[|cs| - 1];
    }
  }

  /** prefork_is_possible: some two of the three marks alone leave at most
      n - 2 open completions. */
  predicate PreforkPossible(x: Cell, y: Cell, z: Cell, n: int) {
    exists u, v :: u in [x, y, z] && v in [x, y, z] && u != v &&
                   |AllWins(1, Marks([u, v]))| <= n - 2
  }

  /** The ordered pairs of itertools.permutations(3 items, 2), in its order. */
  const PAIRS: seq<(nat, nat)> := [(0, 1), (0, 2), (1, 0), (1, 2), (2, 0), (2, 1)]

  predicate PairSuffices(triple: seq<Cell>, pair: (nat, nat), n: int)
    requires pair.0 < |triple| && pair.1 < |triple|
  {
    |AllWins(1, Marks([triple[pair.0], triple[pair.1]]))| <= n - 2
  }

  method PreforkIsPossible(x: Cell, y: Cell, z: Cell, n: int) returns (possible: bool)
    requires x != y && x != z && y != z
    ensures possible <==> PreforkPossible(x, y, z, n)
  {
    var triple := [x, y, z];
    possible := false;
    for t := 0 to |PAIRS|
      invariant forall s :: 0 <= s < t ==> !PairSuffices(triple, PAIRS[s], n)
    {
      var suffices := TryPair(triple, PAIRS[t], n);
      if suffices {
        possible := true;
        return;
      }
    }
    NoPairSuffices(x, y, z, n);
  }

  /** One pair of the loop: the two marks alone on a fresh board, and the
      number of their open completions. */
  method TryPair(triple: seq<Cell>, pair: (nat, nat), n: int) returns (suffices: bool)
    requires pair.0 < |triple| && pair.1 < |triple|
    ensures suffices == PairSuffices(triple, pair, n)
  {
    var (p, q) := pair;
    var subBoard := MarkBoard([triple[p], triple[q]]);
    var subWins := GetAllWins(1, subBoard);
    suffices := |subWins| <= n - 2;
  }

  /** When none of the six ordered pairs suffices, no prefork is possible. */
  lemma NoPairSuffices(x: Cell, y: Cell, z: Cell, n: int)
    requires forall s :: 0 <= s < |PAIRS| ==> !PairSuffices([x, y, z], PAIRS[s], n)
    ensures !PreforkPossible(x, y, z, n)
  {
    var triple := [x, y, z];
    forall u, v | u in triple && v in triple && u != v
      ensures |AllWins(1, Marks([u, v]))| > n - 2
    {
      var iu :| 0 <= iu < 3 && triple[iu] == u;
      var iv :| 0 <= iv < 3 && triple[iv] == v;
      var s := if iu == 0 then iv - 1 else if iu == 1 then (if iv == 0 then 2 else 3) else iv + 4;
      assert PAIRS[s] == (iu, iv);
      assert !PairSuffices(triple, PAIRS[s], n);
    }
  }

  /** The mask built from a board of marks for the completions w1 and w2:
      every UNPLAYED cell other than w1 and w2 becomes -1. */
  function Mask(b: Grid, w1: Cell, w2: Cell): (f: Grid)
    ensures forall d: Cell :: At(f, d) ==
              (if At(b, d) == UNPLAYED && d != w1 && d != w2 then -1 else At(b, d))
  {
    var f := seq(9, t requires 0 <= t < 9 =>
                   if b[t] == UNPLAYED && CellOf(t) != w1 && CellOf(t) != w2 then -1 else b[t]);
    assert forall d: Cell :: CellOf(Idx(d)) == d by {
      forall d: Cell { CellOfIdx(d); }
    }
    f
  }

  /** The mask loop of generate_forks after it has visited the cells ps:
      each visited cell other than w1 and w2 overwritten with -1. */
  function MaskAfter(b: Grid, ps: seq<Cell>, w1: Cell, w2: Cell): Grid
    decreases |ps|
  {
    if ps == [] then b
    else
      var m := MaskAfter(b, ps[..|ps| - 1], w1, w2);
      var pos := ps[|ps| - 1];
      if pos != w1 && pos != w2 then Place(m, pos, -1) else m
  }

  lemma {:induction false} MaskAfterAt(b: Grid, ps: seq<Cell>, w1: Cell, w2: Cell, d: Cell)
    ensures At(MaskAfter(b, ps, w1, w2), d) ==
            (if d in ps && d != w1 && d != w2 then -1 else At(b, d))
    decreases |ps|
  {
    if ps != [] {
      var init := ps[..|ps| - 1];
      MaskAfterAt(b, init, w1, w2, d);
      assert d in ps <==> d in init || d == ps[|ps| - 1];
    }
  }

  /** Visiting every UNPLAYED cell of the board gives its mask. */
  lemma MaskAfterAll(b: Grid, w1: Cell, w2: Cell)
    ensures MaskAfter(b, Where(b, UNPLAYED), w1, w2) == Mask(b, w1, w2)
  {
    var m := MaskAfter(b, Where(b, UNPLAYED), w1, w2);
    WhereSpec(b, UNPLAYED);
    forall d: Cell
      ensures At(m, d) == At(Mask(b, w1, w2), d)
    {
      MaskAfterAt(b, Where(b, UNPLAYED), w1, w2, d);
    }
    GridExt(m, Mask(b, w1, w2));
  }

  lemma MaskAfterStep(b: Grid, ps: seq<Cell>, t: nat, w1: Cell, w2: Cell)
    requires t < |ps|
    ensures MaskAfter(b, ps[..t + 1], w1, w2) ==
            var m := MaskAfter(b, ps[..t], w1, w2);
            if ps[t] != w1 && ps[t] != w2 then Place(m, ps[t], -1) else m
  {
    assert ps[..t + 1][..t] == ps[..t];
  }

  /** The mask loop of generate_forks: a copy of the board whose UNPLAYED
      cells, scanned in row-major order, are overwritten with -1 unless they
      are one of the two chosen completions. */
  method BuildMask(b: Grid, w1: Cell, w2: Cell) returns (m: Grid)
    ensures m == Mask(b, w1, w2)
  {
    var positions := Where(b, UNPLAYED);
    m := b;
    for t := 0 to |positions|
      invariant m == MaskAfter(b, positions[..t], w1, w2)
    {
      MaskAfterStep(b, positions, t, w1, w2);
      if positions[t] != w1 && positions[t] != w2 {
        m := Place(m, positions[t], -1);
      }
    }
    assert positions[..|positions|] == positions;
    assert m == MaskAfter(b, positions, w1, w2);
    MaskAfterAll(b, w1, w2);
  }

  /** The board of the marks a, b, c (position numbers) and its completions. */
  function TripleBoard(a: int, b: int, c: int): Grid
    requires 1 <= a <= 9 && 1 <= b <= 9 && 1 <= c <= 9
  {
    Marks([Spot(a), Spot(b), Spot(c)])
  }

  function TripleWins(a: int, b: int, c: int): seq<Cell>
    requires 1 <= a <= 9 && 1 <= b <= 9 && 1 <= c <= 9
  {
    AllWins(1, TripleBoard(a, b, c))
  }

  /** The masks generate_forks considers: three different marks with more
      than one open completion, a possible prefork, and a pair i < j of
      those completions. */
  predicate Candidate(a: int, b: int, c: int, i: int, j: int) {
    && 1 <= a <= 9 && 1 <= b <= 9 && 1 <= c <= 9 && a != b && a != c && b != c
    && var wins := TripleWins(a, b, c);
    && |wins| > 1
    && PreforkPossible(Spot(a), Spot(b), Spot(c), |wins|)
    && 0 <= i < j < |wins|
  }

  function CandidateMask(a: int, b: int, c: int, i: int, j: int): Grid
    requires Candidate(a, b, c, i, j)
  {
    var wins := TripleWins(a, b, c);
    Mask(TripleBoard(a, b, c), wins[i], wins[j])
  }

  /** Every candidate mask has 1 on exactly the three (different) cells of the
      marks, 0 on exactly the two chosen completions, which are UNPLAYED cells
      completing a line with two of the marks, and -1 everywhere else. */
  lemma CandidateShape(a: int, b: int, c: int, i: int, j: int)
    requires Candidate(a, b, c, i, j)
    ensures var f := CandidateMask(a, b, c, i, j);
            var wins := TripleWins(a, b, c);
            && Spot(a) != Spot(b) && Spot(a) != Spot(c) && Spot(b) != Spot(c)
            && (forall d: Cell :: At(f, d) == 1 <==> d == Spot(a) || d == Spot(b) || d == Spot(c))
            && (forall d: Cell :: At(f, d) == 0 <==> d == wins[i] || d == wins[j])
            && (forall d: Cell :: At(f, d) == 1 || At(f, d) == 0 || At(f, d) == -1)
            && (exists l :: 0 <= l < |LINES| && Threat(TripleBoard(a, b, c), 1, LINES[l], wins[i]))
            && (exists l :: 0 <= l < |LINES| && Threat(TripleBoard(a, b, c), 1, LINES[l], wins[j]))
  {
    var wins := TripleWins(a, b, c);
    var board := TripleBoard(a, b, c);
    TripleBoardAt(a, b, c);
    AllWinsAreThreats(1, board, wins[i]);
    AllWinsAreThreats(1, board, wins[j]);
    MaskShape(board, Spot(a), Spot(b), Spot(c), wins[i], wins[j]);
  }

  /** The board of three different marks holds 1 exactly on their cells. */
  lemma TripleBoardAt(a: int, b: int, c: int)
    requires 1 <= a <= 9 && 1 <= b <= 9 && 1 <= c <= 9 && a != b && a != c && b != c
    ensures Spot(a) != Spot(b) && Spot(a) != Spot(c) && Spot(b) != Spot(c)
    ensures forall d: Cell :: At(TripleBoard(a, b, c), d) ==
              (if d == Spot(a) || d == Spot(b) || d == Spot(c) then 1 else UNPLAYED)
  {
    var cs := [Spot(a), Spot(b), Spot(c)];
    MarksAt(cs);
    assert forall d :: d in cs <==> d == Spot(a) || d == Spot(b) || d == Spot(c);
  }

  lemma MaskShape(board: Grid, x: Cell, y: Cell, z: Cell, w1: Cell, w2: Cell)
    requires forall d: Cell :: At(board, d) == (if d == x || d == y || d == z then 1 else UNPLAYED)
    requires At(board, w1) == UNPLAYED && At(board, w2) == UNPLAYED
    ensures var f := Mask(board, w1, w2);
            && (forall d: Cell :: At(f, d) == 1 <==> d == x || d == y || d == z)
            && (forall d: Cell :: At(f, d) == 0 <==> d == w1 || d == w2)
            && (forall d: Cell :: At(f, d) == 1 || At(f, d) == 0 || At(f, d) == -1)
  {
  }

  /** A table entry: the mask of some candidate. */
  ghost predicate IsForkMask(f: Grid) {
    exists a, b, c, i, j :: Candidate(a, b, c, i, j) && f == CandidateMask(a, b, c, i, j)
  }

  /** No stored mask equals another stored mask turned any number of times. */
  predicate Unique(forks: seq<Grid>) {
    forall i, j, r :: 0 <= i < |forks| && 0 <= j < |forks| && i != j && 0 <= r < 4 ==>
      Rotate(forks[i], r) != forks[j]
  }

  /** Mask m, turned some number of times, is stored in the table. */
  predicate Covered(forks: seq<Grid>, m: Grid) {
    exists r, k :: 0 <= r < 4 && 0 <= k < |forks| && Rotate(m, r) == forks[k]
  }

  lemma CoveredGrows(forks: seq<Grid>, more: seq<Grid>, m: Grid)
    requires Covered(forks, m)
    ensures Covered(forks + more, m)
  {
    var r, k :| 0 <= r < 4 && 0 <= k < |forks| && Rotate(m, r) == forks[k];
    assert (forks + more)[k] == forks[k];
  }

  /** The is_unique loop: whether no turn of m equals a stored mask. */
  method IsUnique(forks: seq<Grid>, m: Grid) returns (unique: bool)
    ensures unique <==> !Covered(forks, m)
  {
    unique := true;
    for r := 0 to 4
      invariant unique
      invariant forall s, k :: 0 <= s < r && 0 <= k < |forks| ==> Rotate(m, s) != forks[k]
    {
      var rotated := Rotate(m, r);
      var found := false;
      for k := 0 to |forks|
        invariant found <==> rotated in forks[..k]
      {
        assert forks[..k + 1] == forks[..k] + [forks[k]];
        found := found || rotated == forks[k];
      }
      assert forks[..|forks|] == forks;
      if found {
        unique := false;
        return;
      }
    }
  }

  /** Appending a mask none of whose turns is stored keeps the table unique. */
  lemma UniqueAppend(forks: seq<Grid>, m: Grid)
    requires Unique(forks) && !Covered(forks, m)
    ensures Unique(forks + [m])
  {
    var fs := forks + [m];
    forall i, j, r | 0 <= i < |fs| && 0 <= j < |fs| && i != j && 0 <= r < 4
      ensures Rotate(fs[i], r) != fs[j]
    {
      if i == |forks| {
        assert fs[j] == forks[j];
      } else if j == |forks| {
        assert fs[i] == forks[i];
        RotateInverse(forks[i], r);
        var back := if r == 0 then 0 else 4 - r;
        assert Rotate(m, back) != forks[i];
      } else {
        assert fs[i] == forks[i] && fs[j] == forks[j];
      }
    }
  }

  /** The table invariant of generate_forks. */
  ghost predicate Table(forks: seq<Grid>) {
    (forall k :: 0 <= k < |forks| ==> IsForkMask(forks[k])) && Unique(forks)
  }

  /** One mask of the combinations loop: stored when it is unique. */
  method AddIfUnique(forks: seq<Grid>, m: Grid) returns (grown: seq<Grid>)
    requires Table(forks) && IsForkMask(m)
    ensures Table(grown) && Covered(grown, m)
    ensures grown == forks || grown == forks + [m]
  {
    var unique := IsUnique(forks, m);
    if unique {
      TableAppend(forks, m);
      grown := forks + [m];
    } else {
      grown := forks;
    }
  }

  /** Storing a mask none of whose turns is stored keeps the table
      invariant and covers the mask. */
  lemma TableAppend(forks: seq<Grid>, m: Grid)
    requires Table(forks) && IsForkMask(m) && !Covered(forks, m)
    ensures Table(forks + [m]) && Covered(forks + [m], m)
  {
    var grown := forks + [m];
    UniqueAppend(forks, m);
    forall k | 0 <= k < |grown|
      ensures IsForkMask(grown[k])
    {
      if k < |forks| {
        assert grown[k] == forks[k];
      }
    }
    assert Rotate(m, 0) == grown[|forks|];
  }

  /** The marking loop of generate_forks: a copy of the empty board with 1
      written on each cell of cs in turn. */
  method MarkBoard(cs: seq<Cell>) returns (board: Grid)
    ensures board == Marks(cs)
  {
    board := NEW_BOARD;
    for t := 0 to |cs|
      invariant board == Marks(cs[..t])
    {
      MarksStep(cs, t);
      board := Place(board, cs[t], 1);
    }
    assert cs[..|cs|] == cs;
  }

  lemma MarksStep(cs: seq<Cell>, t: nat)
    requires t < |cs|
    ensures Marks(cs[..t + 1]) == Place(Marks(cs[..t]), cs[t], 1)
  {
    assert cs[..t + 1][..t] == cs[..t];
  }

  /** grown keeps forks as its prefix. */
  predicate Extends(forks: seq<Grid>, grown: seq<Grid>) {
    |forks| <= |grown| && grown[..|forks|] == forks
  }

  lemma ExtendsTrans(a: seq<Grid>, b: seq<Grid>, c: seq<Grid>)
    requires Extends(a, b) && Extends(b, c)
    ensures Extends(a, c)
  {
    assert c[..|a|] == c[..|b|][..|a|];
  }

  lemma CoveredExtends(forks: seq<Grid>, grown: seq<Grid>, m: Grid)
    requires Extends(forks, grown) && Covered(forks, m)
    ensures Covered(grown, m)
  {
    var r, k :| 0 <= r < 4 && 0 <= k < |forks| && Rotate(m, r) == forks[k];
    assert grown[k] == grown[..|forks|][k];
  }

  /** The pairs (i', j') of itertools.combinations before (i, j), with
      i' < j' < n: their masks are covered. */
  ghost predicate PairsCovered(grown: seq<Grid>, board: Grid, wins: seq<Cell>, i: int, j: int) {
    forall i', j' :: 0 <= i' < j' < |wins| && (i' < i || (i' == i && j' < j)) ==>
      Covered(grown, Mask(board, wins[i'], wins[j']))
  }

  /** The combinations loop of generate_forks for the marks a, b, c: every
      pair i < j of the completions gives a mask, stored when unique. */
  method AddCombinations(forks: seq<Grid>, a: int, b: int, c: int, board: Grid, wins: seq<Cell>)
    returns (grown: seq<Grid>)
    requires 1 <= a <= 9 && 1 <= b <= 9 && 1 <= c <= 9 && a != b && a != c && b != c
    requires board == TripleBoard(a, b, c) && wins == TripleWins(a, b, c)
    requires |wins| > 1 && PreforkPossible(Spot(a), Spot(b), Spot(c), |wins|)
    requires Table(forks)
    ensures Table(grown) && Extends(forks, grown)
    ensures forall i, j :: Candidate(a, b, c, i, j) ==> Covered(grown, CandidateMask(a, b, c, i, j))
  {
    grown := forks;
    var n := |wins|;
    for i := 0 to n
      invariant Table(grown) && Extends(forks, grown)
      invariant PairsCovered(grown, board, wins, i, 0)
    {
      var next := AddPairsWith(grown, a, b, c, board, wins, i);
      ExtendsTrans(forks, grown, next);
      grown := next;
    }
    assert PairsCovered(grown, board, wins, n, 0);
  }

  /** The inner loop of the combinations: the pairs (i, j) for j > i. */
  method AddPairsWith(forks: seq<Grid>, a: int, b: int, c: int, board: Grid, wins: seq<Cell>, i: int)
    returns (grown: seq<Grid>)
    requires 1 <= a <= 9 && 1 <= b <= 9 && 1 <= c <= 9 && a != b && a != c && b != c
    requires board == TripleBoard(a, b, c) && wins == TripleWins(a, b, c)
    requires |wins| > 1 && PreforkPossible(Spot(a), Spot(b), Spot(c), |wins|)
    requires 0 <= i < |wins|
    requires Table(forks) && PairsCovered(forks, board, wins, i, 0)
    ensures Table(grown) && Extends(forks, grown)
    ensures PairsCovered(grown, board, wins, i + 1, 0)
  {
    grown := forks;
    PairsCoveredStart(forks, board, wins, i);
    for j := i + 1 to |wins|
      invariant Table(grown) && Extends(forks, grown)
      invariant PairsCovered(grown, board, wins, i, j)
    {
      var m := BuildMask(board, wins[i], wins[j]);
      assert Candidate(a, b, c, i, j) && m == CandidateMask(a, b, c, i, j);
      var next := AddIfUnique(grown, m);
      PairsCoveredAdd(grown, next, m, board, wins, i, j);
      ExtendsTrans(forks, grown, next);
      grown := next;
    }
    PairsCoveredEnd(grown, board, wins, i);
  }

  lemma PairsCoveredStart(forks: seq<Grid>, board: Grid, wins: seq<Cell>, i: int)
    requires PairsCovered(forks, board, wins, i, 0)
    ensures PairsCovered(forks, board, wins, i, i + 1)
  {
  }

  lemma PairsCoveredEnd(forks: seq<Grid>, board: Grid, wins: seq<Cell>, i: int)
    requires PairsCovered(forks, board, wins, i, |wins|)
    ensures PairsCovered(forks, board, wins, i + 1, 0)
  {
  }

  lemma PairsCoveredAdd(grown: seq<Grid>, next: seq<Grid>, m: Grid, board: Grid, wins: seq<Cell>, i: int, j: int)
    requires next == grown || next == grown + [m]
    requires 0 <= i < j < |wins| && m == Mask(board, wins[i], wins[j])
    requires PairsCovered(grown, board, wins, i, j) && Covered(next, m)
    ensures Extends(grown, next)
    ensures PairsCovered(next, board, wins, i, j + 1)
  {
    AddKeepsCovered(grown, next, m);
  }

  /** What AddIfUnique leaves behind extends what it was given. */
  lemma AddKeepsCovered(grown: seq<Grid>, next: seq<Grid>, m: Grid)
    requires next == grown || next == grown + [m]
    ensures Extends(grown, next)
    ensures forall x :: Covered(grown, x) ==> Covered(next, x)
  {
    assert next[..|grown|] == grown;
    forall x | Covered(grown, x)
      ensures Covered(next, x)
    {
      CoveredExtends(grown, next, x);
    }
  }

  /** The body of generate_forks' permutations loop for the marks a, b, c. */
  method ConsiderTriple(forks: seq<Grid>, a: int, b: int, c: int) returns (grown: seq<Grid>)
    requires 1 <= a <= 9 && 1 <= b <= 9 && 1 <= c <= 9 && a != b && a != c && b != c
    requires Table(forks)
    ensures Table(grown) && Extends(forks, grown)
    ensures forall i, j :: Candidate(a, b, c, i, j) ==> Covered(grown, CandidateMask(a, b, c, i, j))
  {
    var board := MarkBoard([Spot(a), Spot(b), Spot(c)]);
    var wins := GetAllWins(1, board);
    grown := forks;
    if |wins| > 1 {
      var possible := PreforkIsPossible(Spot(a), Spot(b), Spot(c), |wins|);
      if possible {
        grown := AddCombinations(forks, a, b, c, board, wins);
      }
    }
  }

  /** Every candidate of marks lexicographically before (a, b, c) is covered. */
  ghost predicate CoversBefore(forks: seq<Grid>, a: int, b: int, c: int) {
    forall a', b', c', i, j ::
      Candidate(a', b', c', i, j) && (a' < a || (a' == a && (b' < b || (b' == b && c' < c)))) ==>
        Covered(forks, CandidateMask(a', b', c', i, j))
  }

  lemma CoversStep(forks: seq<Grid>, grown: seq<Grid>, a: int, b: int, c: int)
    requires CoversBefore(forks, a, b, c) && Extends(forks, grown)
    requires forall i, j :: Candidate(a, b, c, i, j) ==> Covered(grown, CandidateMask(a, b, c, i, j))
    ensures CoversBefore(grown, a, b, c + 1)
  {
    forall a', b', c', i, j |
      Candidate(a', b', c', i, j) && (a' < a || (a' == a && (b' < b || (b' == b && c' < c + 1))))
      ensures Covered(grown, CandidateMask(a', b', c', i, j))
    {
      if a' != a || b' != b || c' != c {
        CoveredExtends(forks, grown, CandidateMask(a', b', c', i, j));
      }
    }
  }

  lemma CoversNextB(forks: seq<Grid>, a: int, b: int)
    requires CoversBefore(forks, a, b, 10)
    ensures CoversBefore(forks, a, b + 1, 1)
  {
  }

  lemma CoversNextA(forks: seq<Grid>, a: int)
    requires CoversBefore(forks, a, 10, 1)
    ensures CoversBefore(forks, a + 1, 1, 1)
  {
  }

  /** generate_forks: for every ordered triple of different marks (the order
      of itertools.permutations) with more than one open completion and a
      possible prefork, the mask of every pair of its completions is stored
      unless one of its turns already is. The table holds only such masks,
      no two of them equal under any turn, and every such mask is stored
      under some turn. */
  method GenerateForks() returns (forks: seq<Grid>)
    ensures forall k :: 0 <= k < |forks| ==> IsForkMask(forks[k])
    ensures Unique(forks)
    ensures forall a, b, c, i, j :: Candidate(a, b, c, i, j) ==> Covered(forks, CandidateMask(a, b, c, i, j))
  {
    forks := [];
    for a := 1 to 10
      invariant Table(forks) && CoversBefore(forks, a, 1, 1)
    {
      for b := 1 to 10
        invariant Table(forks) && CoversBefore(forks, a, b, 1)
      {
        for c := 1 to 10
          invariant Table(forks) && CoversBefore(forks, a, b, c)
        {
          var grown := forks;
          if a != b && a != c && b != c {
            grown := ConsiderTriple(forks, a, b, c);
          }
          CoversStep(forks, grown, a, b, c);
          forks := grown;
        }
        CoversNextB(forks, a, b);
      }
      CoversNextA(forks, a);
    }
  }
}
