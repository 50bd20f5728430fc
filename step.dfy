/**
 * The step engine: one generation to the next.
 *
 * The tally gives each cell the number of live cells among its eight
 * neighbours, but only for cells next to at least one live cell (a cell
 * with no live neighbour is never born).  Survivors are live cells with a
 * tally of 2 or 3; births are dead cells with a tally of exactly 3.
 */
module StepEngine {
  import opened Cells

  /** The tally of c counted over a list of offsets: positions i with c - offsets[i] live. */
  function Hits(live: Generation, c: Cell, offsets: seq<Cell>): (n: nat)
    ensures n <= |offsets|
  {
    if offsets == [] then 0
    else Hits(live, c, offsets[..|offsets| - 1]) + (if Sub(c, offsets[|offsets| - 1]) in live then 1 else 0)
  }

  /** Number of live cells among the eight neighbours of c. */
  function LiveNeighbours(live: Generation, c: Cell): nat {
    Hits(live, c, CellNeighbours)
  }

  /** A dictionary lookup that, like a defaultdict(int), gives 0 for a missing key. */
  function Count(tally: map<Cell, int>, c: Cell): int {
    if c in tally then tally[c] else 0
  }

  predicate Survives(n: int) {
    n == 2 || n == 3
  }

  predicate Born(n: int) {
    n == 3
  }

  /** The Game of Life rule for one cell of the next generation. */
  predicate LiveNext(live: Generation, c: Cell) {
    if c in live then Survives(LiveNeighbours(live, c)) else Born(LiveNeighbours(live, c))
  }

  /** The live cells whose tally lets them survive. */
  function ContinueLiving(tally: map<Cell, int>, live: Generation): (r: Generation)
    ensures r <= live
    ensures forall c :: c in r <==> c in live && c in tally && Survives(tally[c])
  {
    (set c | c in tally && Survives(tally[c])) * live
  }

  /** The dead cells whose tally makes them come alive. */
  function ComeToLife(tally: map<Cell, int>, live: Generation): (r: Generation)
    ensures r !! live
    ensures forall c :: c in r <==> c !in live && c in tally && Born(tally[c])
  {
    (set c | c in tally && Born(tally[c])) - live
  }

  /** Cells next to at least one live cell. */
  function Candidates(live: Generation): set<Cell> {
    set x, d | x in live && d in CellNeighbours :: Add(x, d)
  }

  /** A positive tally means some offset leads back to a live cell. */
  lemma {:induction false} HitsPositive(live: Generation, c: Cell, offsets: seq<Cell>)
    ensures Hits(live, c, offsets) > 0 <==> exists i :: 0 <= i < |offsets| && Sub(c, offsets[i]) in live
    decreases |offsets|
  {
    if offsets != [] {
      var init := offsets[..|offsets| - 1];
      HitsPositive(live, c, init);
      assert forall i :: 0 <= i < |init| ==> init[i] == offsets[i];
    }
  }

  /** Nothing live, nothing tallied. */
  lemma {:induction false} HitsNone(c: Cell, offsets: seq<Cell>)
    ensures Hits({}, c, offsets) == 0
    decreases |offsets|
  {
    if offsets != [] {
      HitsNone(c, offsets[..|offsets| - 1]);
    }
  }

  /** Tallying one more live cell x adds its own contribution. */
  lemma {:induction false} HitsAddCell(live: Generation, x: Cell, c: Cell, offsets: seq<Cell>)
    requires x !in live
    ensures Hits(live + {x}, c, offsets) == Hits(live, c, offsets) + Hits({x}, c, offsets)
    decreases |offsets|
  {
    if offsets != [] {
      HitsAddCell(live, x, c, offsets[..|offsets| - 1]);
    }
  }

  /** The cells with a positive tally are exactly the neighbours of live cells. */
  lemma CandidatesPositive(live: Generation, c: Cell)
    ensures c in Candidates(live) <==> LiveNeighbours(live, c) > 0
  {
    HitsPositive(live, c, CellNeighbours);
    if c in Candidates(live) {
      var x, d :| x in live && d in CellNeighbours && c == Add(x, d);
      var i :| 0 <= i < |CellNeighbours| && CellNeighbours[i] == d;
      assert Sub(c, CellNeighbours[i]) == x;
    }
    if LiveNeighbours(live, c) > 0 {
      var i :| 0 <= i < |CellNeighbours| && Sub(c, CellNeighbours[i]) in live;
      var x, d := Sub(c, CellNeighbours[i]), CellNeighbours[i];
      assert c == Add(x, d);
    }
  }

  /** The tally the source builds, as a value: one entry per neighbour of a live cell. */
  function NeighbourTally(live: Generation): map<Cell, int> {
    map c | c in Candidates(live) :: LiveNeighbours(live, c) as int
  }

  /** The tally holds exactly the cells with a live neighbour, each with its neighbour count. */
  lemma NeighbourTallyAt(live: Generation, c: Cell)
    ensures c in NeighbourTally(live) <==> LiveNeighbours(live, c) > 0
    ensures c in NeighbourTally(live) ==> NeighbourTally(live)[c] == LiveNeighbours(live, c)
  {
    CandidatesPositive(live, c);
  }

  /**
   * The next generation by the rule alone: the cells next to a live cell
   * that the rule makes live.  (A cell with no live neighbour can neither
   * survive nor be born, so no other cell is left out.)
   */
  function Life(live: Generation): Generation {
    set c | c in Candidates(live) && LiveNext(live, c)
  }

  /** The Game of Life rule holds for every cell of the unbounded plane. */
  lemma LifeRule(live: Generation, c: Cell)
    ensures c in Life(live) <==> LiveNext(live, c)
  {
    CandidatesPositive(live, c);
  }

  /**
   * The source's step, survivors of the tally joined with births of the
   * tally, is the next generation by the rule.
   */
  lemma TallyStepIsLife(live: Generation)
    ensures ContinueLiving(NeighbourTally(live), live) + ComeToLife(NeighbourTally(live), live) == Life(live)
  {
    var tally := NeighbourTally(live);
    forall c ensures c in ContinueLiving(tally, live) + ComeToLife(tally, live) <==> c in Life(live) {
      NeighbourTallyAt(live, c);
      LifeRule(live, c);
    }
  }

  /** Every cell of the next generation is a neighbour of some live cell. */
  lemma LifeStaysNear(live: Generation, c: Cell)
    requires c in Life(live)
    ensures exists i :: 0 <= i < |CellNeighbours| && Sub(c, CellNeighbours[i]) in live
  {
    LifeRule(live, c);
    HitsPositive(live, c, CellNeighbours);
  }

  /**
   * The two nested loops at the start of the source's step: every live
   * cell adds one to each of its eight neighbours.  The result is the
   * tally of every cell next to a live cell, and nothing else.
   */
  method CountNeighbours(live: Generation) returns (tally: map<Cell, int>)
    ensures forall c :: c in tally <==> LiveNeighbours(live, c) > 0
    ensures forall c :: c in tally ==> tally[c] == LiveNeighbours(live, c)
  {
    tally := map[];
    var rest := live;
    ghost var done: Generation := {};
    forall c ensures Hits(done, c, CellNeighbours) == 0 {
      HitsNone(c, CellNeighbours);
    }
    while rest != {}
      invariant rest + done == live && rest !! done
      invariant forall c :: Count(tally, c) == Hits(done, c, CellNeighbours)
      invariant forall c :: c in tally ==> tally[c] > 0
      decreases |rest|
    {
      var x :| x in rest;
      tally := AddNeighbours(tally, x);
      forall c
        ensures Hits(done + {x}, c, CellNeighbours) == Hits(done, c, CellNeighbours) + Hits({x}, c, CellNeighbours)
      {
        HitsAddCell(done, x, c, CellNeighbours);
      }
      done := done + {x};
      rest := rest - {x};
    }
  }

  /** The inner loop: the live cell x adds one to each of its neighbours. */
  method AddNeighbours(tally0: map<Cell, int>, x: Cell) returns (tally: map<Cell, int>)
    ensures forall c :: Count(tally, c) == Count(tally0, c) + Hits({x}, c, CellNeighbours)
    ensures forall c :: c in tally <==> c in tally0 || Hits({x}, c, CellNeighbours) > 0
  {
    tally := tally0;
    var k := 0;
    forall c ensures Hits({x}, c, CellNeighbours[..0]) == 0 {
      assert CellNeighbours[..0] == [];
    }
    while k < |CellNeighbours|
      invariant 0 <= k <= |CellNeighbours|
      invariant forall c :: Count(tally, c) == Count(tally0, c) + Hits({x}, c, CellNeighbours[..k])
      invariant forall c :: c in tally <==> c in tally0 || Hits({x}, c, CellNeighbours[..k]) > 0
    {
      var target := Add(x, CellNeighbours[k]);
      forall c
        ensures Hits({x}, c, CellNeighbours[..k + 1]) ==
                Hits({x}, c, CellNeighbours[..k]) + (if c == target then 1 else 0)
      {
        assert CellNeighbours[..k + 1][..k] == CellNeighbours[..k];
        assert Sub(c, CellNeighbours[k]) == x <==> c == target;
      }
      tally := tally[target := Count(tally, target) + 1];
      k := k + 1;
    }
    assert CellNeighbours[..|CellNeighbours|] == CellNeighbours;
  }

  /** The source's step: tally, then survivors joined with births. */
  method NextGeneration(live: Generation) returns (next: Generation)
    ensures next == Life(live)
    ensures forall c :: c in next <==> LiveNext(live, c)
  {
    var tally := CountNeighbours(live);
    forall c ensures c in tally <==> c in NeighbourTally(live)
      ensures c in tally ==> tally[c] == NeighbourTally(live)[c]
    {
      NeighbourTallyAt(live, c);
    }
    assert tally == NeighbourTally(live);
    var stayAlive := ContinueLiving(tally, live);
    var comeAlive := ComeToLife(tally, live);
    next := stayAlive + comeAlive;
    TallyStepIsLife(live);
    forall c ensures c in next <==> LiveNext(live, c) {
      LifeRule(live, c);
    }
  }

  function Bit(b: bool): nat {
    if b then 1 else 0
  }

  /** Extending the offsets by one adds that offset's contribution. */
  lemma HitsPrefix(live: Generation, c: Cell, offsets: seq<Cell>, k: nat)
    requires k < |offsets|
    ensures Hits(live, c, offsets[..k + 1]) == Hits(live, c, offsets[..k]) + Bit(Sub(c, offsets[k]) in live)
  {
    assert offsets[..k + 1][..k] == offsets[..k];
  }

  /** The tally of c written out over the eight offsets. */
  lemma LiveNeighboursUnfold(live: Generation, c: Cell)
    ensures LiveNeighbours(live, c) ==
      Bit((c.0 + 1, c.1 + 1) in live) + Bit((c.0 + 1, c.1) in live) + Bit((c.0 + 1, c.1 - 1) in live) +
      Bit((c.0, c.1 + 1) in live) + Bit((c.0, c.1 - 1) in live) +
      Bit((c.0 - 1, c.1 + 1) in live) + Bit((c.0 - 1, c.1) in live) + Bit((c.0 - 1, c.1 - 1) in live)
  {
    var n := CellNeighbours;
    assert n[..0] == [];
    HitsPrefix(live, c, n, 0);
    HitsPrefix(live, c, n, 1);
    HitsPrefix(live, c, n, 2);
    HitsPrefix(live, c, n, 3);
    HitsPrefix(live, c, n, 4);
    HitsPrefix(live, c, n, 5);
    HitsPrefix(live, c, n, 6);
    HitsPrefix(live, c, n, 7);
    assert n[..8] == n;
  }

  /** A generation whose cells follow the rule one by one is the next generation. */
  lemma LifeIs(live: Generation, next: Generation)
    requires forall c :: LiveNext(live, c) <==> c in next
    ensures Life(live) == next
  {
    forall c ensures c in Life(live) <==> c in next {
      LifeRule(live, c);
    }
  }

  /** Stepping nothing gives nothing. */
  lemma EmptyStaysEmpty()
    ensures Life({}) == {}
  {
    forall c ensures !LiveNext({}, c) {
      HitsNone(c, CellNeighbours);
    }
    LifeIs({}, {});
  }

  /** A lone cell dies of underpopulation. */
  lemma LoneCellDies(x: Cell)
    ensures Life({x}) == {}
  {
    forall c ensures !LiveNext({x}, c) {
      LiveNeighboursUnfold({x}, c);
    }
    LifeIs({x}, {});
  }

  const Block: Generation := {(1, 1), (1, 2), (2, 1), (2, 2)}
  const Tromino: Generation := {(1, 1), (1, 2), (2, 1)}
  const VerticalBlinker: Generation := {(1, 2), (2, 2), (3, 2)}
  const HorizontalBlinker: Generation := {(2, 1), (2, 2), (2, 3)}

  lemma BlockAt(c: Cell)
    ensures LiveNext(Block, c) <==> c in Block
  {
    LiveNeighboursUnfold(Block, c);
    var r, k := c.0, c.1;
    if r < 0 || r > 3 || k < 0 || k > 3 {
      assert LiveNeighbours(Block, c) == 0;
    } else if r == 0 || r == 3 || k == 0 || k == 3 {
      assert LiveNeighbours(Block, c) <= 2;
    } else {
      assert LiveNeighbours(Block, c) == 3;
    }
  }

  /** The 2 x 2 block is a still life. */
  lemma BlockIsStill()
    ensures Life(Block) == Block
  {
    forall c ensures LiveNext(Block, c) <==> c in Block {
      BlockAt(c);
    }
    LifeIs(Block, Block);
  }

  lemma TrominoAt(c: Cell)
    ensures LiveNext(Tromino, c) <==> c in Block
  {
    LiveNeighboursUnfold(Tromino, c);
    var r, k := c.0, c.1;
    if r < 0 || r > 3 || k < 0 || k > 3 {
      assert LiveNeighbours(Tromino, c) == 0;
    } else if r == 2 && k == 2 {
      assert LiveNeighbours(Tromino, c) == 3;
    } else if c in Tromino {
      assert LiveNeighbours(Tromino, c) == 2;
    } else {
      assert LiveNeighbours(Tromino, c) <= 2;
    }
  }

  /** Three cells of a block grow the fourth: the L-tromino becomes the block. */
  lemma TrominoBecomesBlock()
    ensures Life(Tromino) == Block
  {
    forall c ensures LiveNext(Tromino, c) <==> c in Block {
      TrominoAt(c);
    }
    LifeIs(Tromino, Block);
  }

  /** The tallies of the test suite, fed to the survival and birth rules. */
  lemma TallyRuleExamples()
    ensures ContinueLiving(map[(1, 1) := 2, (2, 2) := 3, (3, 3) := 1, (4, 4) := 4],
                           {(1, 1), (2, 2), (3, 3), (4, 4)}) == {(1, 1), (2, 2)}
    ensures ContinueLiving(map[(1, 1) := 1, (2, 2) := 4, (3, 3) := 0], {(1, 1), (2, 2), (3, 3)}) == {}
    ensures ContinueLiving(map[(1, 1) := 2, (2, 2) := 3, (3, 3) := 2], {(1, 1), (2, 2)}) == {(1, 1), (2, 2)}
    ensures ComeToLife(map[(1, 1) := 3, (2, 2) := 3, (3, 3) := 2, (4, 4) := 3], {(2, 2)}) == {(1, 1), (4, 4)}
    ensures ComeToLife(map[(1, 1) := 2, (2, 2) := 4, (3, 3) := 1], {(1, 1), (2, 2)}) == {}
    ensures ComeToLife(map[(1, 1) := 3, (2, 2) := 3], {(1, 1), (2, 2)}) == {}
  {
  }

  lemma VerticalBlinkerAt(c: Cell)
    ensures LiveNext(VerticalBlinker, c) <==> c in HorizontalBlinker
  {
    LiveNeighboursUnfold(VerticalBlinker, c);
    var r, k := c.0, c.1;
    if r < 0 || r > 4 || k < 1 || k > 3 {
      assert LiveNeighbours(VerticalBlinker, c) == 0;
    } else if r == 2 {
      assert LiveNeighbours(VerticalBlinker, c) == if k == 2 then 2 else 3;
    } else if k == 2 {
      assert LiveNeighbours(VerticalBlinker, c) <= 1;
    } else {
      assert LiveNeighbours(VerticalBlinker, c) <= 2;
    }
  }

  lemma HorizontalBlinkerAt(c: Cell)
    ensures LiveNext(HorizontalBlinker, c) <==> c in VerticalBlinker
  {
    LiveNeighboursUnfold(HorizontalBlinker, c);
    var r, k := c.0, c.1;
    if k < 0 || k > 4 || r < 1 || r > 3 {
      assert LiveNeighbours(HorizontalBlinker, c) == 0;
    } else if k == 2 {
      assert LiveNeighbours(HorizontalBlinker, c) == if r == 2 then 2 else 3;
    } else if r == 2 {
      assert LiveNeighbours(HorizontalBlinker, c) <= 1;
    } else {
      assert LiveNeighbours(HorizontalBlinker, c) <= 2;
    }
  }

  /** The blinker turns from vertical to horizontal and back: period two. */
  lemma BlinkerOscillates()
    ensures Life(VerticalBlinker) == HorizontalBlinker
    ensures Life(HorizontalBlinker) == VerticalBlinker
  {
    forall c ensures LiveNext(VerticalBlinker, c) <==> c in HorizontalBlinker {
      VerticalBlinkerAt(c);
    }
    LifeIs(VerticalBlinker, HorizontalBlinker);
    forall c ensures LiveNext(HorizontalBlinker, c) <==> c in VerticalBlinker {
      HorizontalBlinkerAt(c);
    }
    LifeIs(HorizontalBlinker, VerticalBlinker);
  }
}
