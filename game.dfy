/**
 * The driver: encode the word, seed the first generation, then step until
 * the end-of-game check fires or the generation cap is reached, summing
 * the live-cell counts of the generations that were run.
 *
 * The history of the end-of-game check is module-level state in the
 * source, created once and never cleared; here it is the field
 * liveCellHistory of a Cgol object that every run and every check share.
 */
module Game {
  import opened Cells
  import opened Encoder
  import opened Seeder
  import opened StepEngine
  import opened History

  /** The cap a caller gets when it names none. */
  const DefaultGenerations: int := 1000

  /** The result dictionary: generations run and the summed live-cell counts. */
  datatype Outcome = Outcome(generations: nat, score: nat)

  /** A run as a value: its outcome and the history it leaves behind. */
  datatype Run = Run(generations: nat, score: nat, history: seq<Generation>)

  function Max(a: int, b: int): int {
    if a < b then b else a
  }

  /** The first generation for a word. */
  function Seed(word: string): Generation {
    InitialLiveCells(Bitmask(word))
  }

  /*
   * The loop below is stated for any step function; the game passes Life.
   * The lemmas about the loop alone then do not depend on how a step is
   * computed.
   */

  /** g after k steps. */
  function Iterate(step: Generation -> Generation, g: Generation, k: nat): Generation
    decreases k
  {
    if k == 0 then g else Iterate(step, step(g), k - 1)
  }

  /** g and its next k - 1 successors, in order. */
  function Trajectory(step: Generation -> Generation, g: Generation, k: nat): (s: seq<Generation>)
    ensures |s| == k
    decreases k
  {
    if k == 0 then [] else [g] + Trajectory(step, step(g), k - 1)
  }

  /** The live-cell counts of g and of its next k - 1 successors, summed. */
  function SizesSum(step: Generation -> Generation, g: Generation, k: nat): nat
    decreases k
  {
    if k == 0 then 0 else |g| + SizesSum(step, step(g), k - 1)
  }

  /**
   * The source's loop from generation n on, as a value: check the current
   * generation; on a stop, return; otherwise score it, step and go on.
   */
  function Simulate(step: Generation -> Generation, history: seq<Generation>, curr: Generation,
                    n: nat, cap: int, score: nat): (r: Run)
    ensures n <= r.generations <= Max(n, cap)
    decreases cap - n
  {
    if n >= cap then
      Run(n, score, history)
    else
      var v := Check(history, curr);
      if v.stop then Run(n, score, v.history)
      else Simulate(step, v.history, step(curr), n + 1, cap, score + |curr|)
  }

  /** A check that does not stop scores the generation and moves on to its successor. */
  lemma SimulateContinues(step: Generation -> Generation, history: seq<Generation>, curr: Generation,
                          n: nat, cap: int, score: nat, history': seq<Generation>, next: Generation)
    requires n < cap && Check(history, curr) == Verdict(false, history')
    requires next == step(curr)
    ensures Simulate(step, history, curr, n, cap, score) ==
            Simulate(step, history', next, n + 1, cap, score + |curr|)
  {
  }

  /** A check that stops ends the run at generation n with the history unchanged. */
  lemma SimulateHalts(step: Generation -> Generation, history: seq<Generation>, curr: Generation,
                      n: nat, cap: int, score: nat)
    requires n < cap && Check(history, curr).stop
    ensures Simulate(step, history, curr, n, cap, score) == Run(n, score, history)
  {
  }

  /** At the cap the run ends where it stands. */
  lemma SimulateAtCap(step: Generation -> Generation, history: seq<Generation>, curr: Generation,
                      n: nat, cap: int, score: nat)
    requires n >= cap
    ensures Simulate(step, history, curr, n, cap, score) == Run(n, score, history)
  {
  }

  /** Two step functions that agree everywhere give the same run. */
  lemma {:induction false} SimulateSameStep(f: Generation -> Generation, g: Generation -> Generation,
                                            history: seq<Generation>, curr: Generation, n: nat, cap: int, score: nat)
    requires forall x {:trigger g(x)} :: f(x) == g(x)
    ensures Simulate(f, history, curr, n, cap, score) == Simulate(g, history, curr, n, cap, score)
    decreases cap - n
  {
    if n < cap {
      var v := Check(history, curr);
      if !v.stop {
        SimulateSameStep(f, g, v.history, g(curr), n + 1, cap, score + |curr|);
      }
    }
  }

  /** The score is the summed size of exactly the generations that were run. */
  lemma {:induction false} SimulateScore(step: Generation -> Generation, history: seq<Generation>, curr: Generation, n: nat, cap: int, score: nat)
    ensures var r := Simulate(step, history, curr, n, cap, score);
            r.score == score + SizesSum(step, curr, r.generations - n)
    decreases cap - n
  {
    if n < cap {
      var v := Check(history, curr);
      if !v.stop {
        SimulateScore(step, v.history, step(curr), n + 1, cap, score + |curr|);
      }
    }
  }

  /**
   * A run that ends before the cap ends because the generation it reached
   * is empty or repeats one in the (non-empty) history, which the stopping
   * check left as it was.
   */
  lemma {:induction false} SimulateStops(step: Generation -> Generation, history: seq<Generation>, curr: Generation, n: nat, cap: int, score: nat)
    ensures var r := Simulate(step, history, curr, n, cap, score);
            var last := Iterate(step, curr, r.generations - n);
            r.generations < cap ==> r.history != [] && (last == {} || last in r.history)
    decreases cap - n
  {
    if n < cap {
      var v := Check(history, curr);
      if !v.stop {
        SimulateStops(step, v.history, step(curr), n + 1, cap, score + |curr|);
        var r := Simulate(step, history, curr, n, cap, score);
        assert Iterate(step, curr, r.generations - n) == Iterate(step, step(curr), r.generations - (n + 1));
      }
    }
  }

  /** The history never grows past its capacity over a run. */
  lemma {:induction false} SimulateHistoryBound(step: Generation -> Generation, history: seq<Generation>, curr: Generation, n: nat, cap: int, score: nat)
    requires |history| <= Capacity
    ensures |Simulate(step, history, curr, n, cap, score).history| <= Capacity
    decreases cap - n
  {
    if n < cap {
      var v := Check(history, curr);
      if !v.stop {
        SimulateHistoryBound(step, v.history, step(curr), n + 1, cap, score + |curr|);
      }
    }
  }

  /** Entry i of a trajectory is g after i steps. */
  lemma {:induction false} TrajectoryAt(step: Generation -> Generation, g: Generation, k: nat, i: nat)
    requires i < k
    ensures Trajectory(step, g, k)[i] == Iterate(step, g, i)
    decreases k
  {
    if i > 0 {
      TrajectoryAt(step, step(g), k - 1, i - 1);
    }
  }

  /** The first a + b generations are the first a followed by the b that come after them. */
  lemma {:induction false} TrajectorySplit(step: Generation -> Generation, g: Generation, a: nat, b: nat)
    ensures Trajectory(step, g, a + b) == Trajectory(step, g, a) + Trajectory(step, Iterate(step, g, a), b)
    decreases a
  {
    if a > 0 {
      TrajectorySplit(step, step(g), a - 1, b);
    }
  }

  /** Checking a trajectory begins with checking its first generation. */
  lemma FeedTrajectoryStep(step: Generation -> Generation, history: seq<Generation>, g: Generation, k: nat)
    requires k >= 1 && !Check(history, g).stop
    ensures Feed(history, Trajectory(step, g, k)) == Feed(Check(history, g).history, Trajectory(step, step(g), k - 1))
  {
    var t := Trajectory(step, g, k);
    assert t[0] == g && t[1..] == Trajectory(step, step(g), k - 1);
  }

  /** The generations a run ran passed the check one after the other. */
  lemma {:induction false} SimulateRanUnstopped(step: Generation -> Generation, history: seq<Generation>, curr: Generation,
                                                n: nat, cap: int, score: nat)
    ensures var r := Simulate(step, history, curr, n, cap, score);
            !Feed(history, Trajectory(step, curr, r.generations - n)).stop
    decreases cap - n
  {
    if n >= cap {
      SimulateAtCap(step, history, curr, n, cap, score);
    } else if Check(history, curr).stop {
      SimulateHalts(step, history, curr, n, cap, score);
    } else {
      var v := Check(history, curr);
      SimulateContinues(step, history, curr, n, cap, score, v.history, step(curr));
      SimulateRanUnstopped(step, v.history, step(curr), n + 1, cap, score + |curr|);
      var k := Simulate(step, history, curr, n, cap, score).generations - n;
      FeedTrajectoryStep(step, history, curr, k);
    }
  }

  /** The history a run leaves is the history of checking the generations it ran. */
  lemma {:induction false} SimulateIsFeed(step: Generation -> Generation, history: seq<Generation>, curr: Generation,
                                          n: nat, cap: int, score: nat)
    ensures var r := Simulate(step, history, curr, n, cap, score);
            r.history == Feed(history, Trajectory(step, curr, r.generations - n)).history
    decreases cap - n
  {
    if n >= cap {
      SimulateAtCap(step, history, curr, n, cap, score);
    } else if Check(history, curr).stop {
      SimulateHalts(step, history, curr, n, cap, score);
    } else {
      var v := Check(history, curr);
      SimulateContinues(step, history, curr, n, cap, score, v.history, step(curr));
      SimulateIsFeed(step, v.history, step(curr), n + 1, cap, score + |curr|);
      var k := Simulate(step, history, curr, n, cap, score).generations - n;
      FeedTrajectoryStep(step, history, curr, k);
    }
  }

  /**
   * When generation k + p repeats generation k with p at most ten, checking
   * the first k + p generations without a stop leaves a history on which
   * the next generation stops: the repeat is still in the window.
   */
  lemma RepeatIsRecorded(step: Generation -> Generation, history: seq<Generation>, g: Generation, k: nat, p: nat)
    requires |history| <= Capacity
    requires 1 <= p <= Capacity
    requires Iterate(step, g, k + p) == Iterate(step, g, k)
    requires !Feed(history, Trajectory(step, g, k + p)).stop
    ensures Check(Feed(history, Trajectory(step, g, k + p)).history, Iterate(step, g, k + p)).stop
  {
    var first := Trajectory(step, g, k + p);
    RecentRepeatStops(history, first, p);
    TrajectoryAt(step, g, k + p, k);
    assert |history + first| - p == |history| + k;
    assert (history + first)[|history| + k] == first[k];
  }

  /** Checking the first m > k + p generations stops when generation k + p repeats generation k. */
  lemma RepeatInTrajectoryStops(step: Generation -> Generation, history: seq<Generation>, g: Generation,
                                k: nat, p: nat, m: nat)
    requires |history| <= Capacity
    requires 1 <= p <= Capacity && m > k + p
    requires Iterate(step, g, k + p) == Iterate(step, g, k)
    ensures Feed(history, Trajectory(step, g, m)).stop
  {
    var first := Trajectory(step, g, k + p);
    var x := Iterate(step, g, k + p);
    var rest := Trajectory(step, x, m - (k + p));
    TrajectorySplit(step, g, k + p, m - (k + p));
    if Feed(history, first).stop {
      FeedStopsEarly(history, first, rest);
    } else {
      FeedAppend(history, first, rest);
      RepeatIsRecorded(step, history, g, k, p);
      TrajectoryAt(step, x, m - (k + p), 0);
    }
  }

  /**
   * Oscillation of period at most ten is caught: once generation k + p
   * repeats generation k (1 <= p <= 10; p == 1 is a still life), a run
   * from a history within the bound ends after at most k + p generations.
   */
  lemma PeriodicStops(step: Generation -> Generation, history: seq<Generation>, g: Generation,
                      k: nat, p: nat, cap: int)
    requires |history| <= Capacity
    requires 1 <= p <= Capacity
    requires Iterate(step, g, k + p) == Iterate(step, g, k)
    ensures Simulate(step, history, g, 0, cap, 0).generations <= k + p
  {
    var r := Simulate(step, history, g, 0, cap, 0);
    SimulateRanUnstopped(step, history, g, 0, cap, 0);
    if r.generations > k + p {
      RepeatInTrajectoryStops(step, history, g, k, p, r.generations);
      assert false;
    }
  }

  /** The loop with the end-of-game check forced to answer False. */
  function SimulateUnchecked(step: Generation -> Generation, curr: Generation, n: nat, cap: int, score: nat): Outcome
    decreases cap - n
  {
    if n >= cap then Outcome(n, score) else SimulateUnchecked(step, step(curr), n + 1, cap, score + |curr|)
  }

  /** Without the check a run always reaches the cap and scores every generation. */
  lemma {:induction false} UncheckedReachesCap(step: Generation -> Generation, curr: Generation, n: nat, cap: int, score: nat)
    ensures SimulateUnchecked(step, curr, n, cap, score) ==
            Outcome(Max(n, cap), score + SizesSum(step, curr, Max(n, cap) - n))
    decreases cap - n
  {
    if n < cap {
      UncheckedReachesCap(step, step(curr), n + 1, cap, score + |curr|);
    }
  }

  /** Once a step maps the empty generation to itself, nothing more is scored from it. */
  lemma {:induction false} EmptySizesSum(step: Generation -> Generation, k: nat)
    requires step({}) == {}
    ensures SizesSum(step, {}, k) == 0
  {
    if k > 0 {
      EmptySizesSum(step, k - 1);
    }
  }

  /** Two live cells more than two columns apart both die and nothing is born. */
  lemma DistantPairDies(a: Cell, b: Cell)
    requires b.1 - a.1 > 2
    ensures Life({a, b}) == {}
  {
    forall c ensures !LiveNext({a, b}, c) {
      LiveNeighboursUnfold({a, b}, c);
      if c.1 <= a.1 + 1 {
        assert LiveNeighbours({a, b}, c) <= 1;
      } else {
        assert LiveNeighbours({a, b}, c) <= 1;
      }
    }
    LifeIs({a, b}, {});
  }

  /** "A" seeds two cells on row 29, six columns apart. */
  lemma SeedOfA()
    ensures Seed("A") == {(29, 17), (29, 23)}
  {
    EncoderExamples();
    SeederExamples();
  }

  /**
   * The checks of the test suite: the first call never stops, a repeat of
   * the only recorded generation stops, and the L-tromino followed by the
   * block it grows into (TrominoBecomesBlock) does not.
   */
  lemma CheckExamples()
    ensures Check([], {(1, 1)}) == Verdict(false, [{(1, 1)}])
    ensures Check([{(1, 1)}], {(1, 1)}).stop
    ensures Check([Tromino], Block) == Verdict(false, [Tromino, Block])
  {
    assert (2, 2) in Block && (2, 2) !in Tromino;
  }

  /** A generation that dies at once scores only its own cells over any k >= 1 steps. */
  lemma DiesAtOnceSizesSum(step: Generation -> Generation, g: Generation, k: nat)
    requires step(g) == {} && step({}) == {}
    requires k >= 1
    ensures SizesSum(step, g, k) == |g|
  {
    EmptySizesSum(step, k - 1);
  }

  /** Without the check, a generation that dies at once runs to the cap and scores its own size. */
  lemma UncheckedDiesAtOnce(step: Generation -> Generation, g: Generation, cap: int)
    requires step(g) == {} && step({}) == {}
    requires cap >= 1
    ensures SimulateUnchecked(step, g, 0, cap, 0) == Outcome(cap, |g|)
  {
    DiesAtOnceSizesSum(step, g, cap);
    UncheckedReachesCap(step, g, 0, cap, 0);
  }

  /**
   * With the check forced off, "A" (01000001: two cells six columns apart)
   * runs all ten generations and scores 2: both cells die after one step.
   */
  lemma UncheckedRunOfA()
    ensures SimulateUnchecked(Life, Seed("A"), 0, 10, 0) == Outcome(10, 2)
  {
    SeedOfA();
    DistantPairDies((29, 17), (29, 23));
    EmptyStaysEmpty();
    UncheckedDiesAtOnce(Life, {(29, 17), (29, 23)}, 10);
  }

  /** With the check forced off, a word that seeds some cell scores more than 0. */
  lemma UncheckedScorePositive(word: string, k: nat, cap: int)
    requires |word| <= MaxWordLength && k < |word| && word[k] as int > 0
    requires cap >= 1
    ensures SimulateUnchecked(Life, Seed(word), 0, cap, 0).generations == cap
    ensures SimulateUnchecked(Life, Seed(word), 0, cap, 0).score > 0
  {
    WordSeedNonEmpty(word, k);
    UncheckedReachesCap(Life, Seed(word), 0, cap, 0);
  }

  /**
   * On an empty history, a word that seeds nothing (empty, or longer than
   * sixty characters) runs one generation and scores 0: the first check
   * records the empty generation, the second stops on it.
   */
  lemma EmptySeedFreshRun(word: string, cap: int)
    requires |word| == 0 || |word| > MaxWordLength
    requires cap >= 1
    ensures Simulate(Life, [], Seed(word), 0, cap, 0) == Run(1, 0, [{}])
  {
    BitmaskShape(word);
    SeedOfNothing(Bitmask(word));
    EmptyStaysEmpty();
  }

  /**
   * On a history left non-empty by earlier runs, the same word runs no
   * generation at all: the very first check stops on the empty generation.
   */
  lemma EmptySeedAfterEarlierRun(history: seq<Generation>, word: string, cap: int)
    requires history != []
    requires |word| == 0 || |word| > MaxWordLength
    ensures Simulate(Life, history, Seed(word), 0, cap, 0) == Run(0, 0, history)
  {
    BitmaskShape(word);
    SeedOfNothing(Bitmask(word));
  }

  /** Running the empty word twice on one history gives 1 generation, then 0. */
  lemma HistoryCarriesOver(cap: int)
    requires cap >= 1
    ensures var first := Simulate(Life, [], Seed(""), 0, cap, 0);
            var second := Simulate(Life, first.history, Seed(""), 0, cap, 0);
            first.generations == 1 && second.generations == 0
  {
    EmptySeedFreshRun("", cap);
    EmptySeedAfterEarlierRun([{}], "", cap);
  }

  /**
   * A period-two oscillator on an empty history runs exactly two
   * generations: the third check finds the first generation recorded.
   */
  lemma PeriodTwoStops(step: Generation -> Generation, a: Generation, b: Generation, cap: int)
    requires step(a) == b && step(b) == a
    requires a != b && b != {}
    requires cap >= 2
    ensures Simulate(step, [], a, 0, cap, 0) == Run(2, |a| + |b|, [a, b])
  {
    assert Check([], a) == Verdict(false, [a]);
    SimulateContinues(step, [], a, 0, cap, 0, [a], b);
    assert Check([a], b) == Verdict(false, [a, b]);
    SimulateContinues(step, [a], b, 1, cap, |a|, [a, b], a);
    if cap > 2 {
      assert a in [a, b];
      SimulateHalts(step, [a, b], a, 2, cap, |a| + |b|);
    }
  }

  lemma BlinkerSizes()
    ensures |VerticalBlinker| == 3 && |HorizontalBlinker| == 3
    ensures VerticalBlinker != HorizontalBlinker
  {
    assert (1, 2) in VerticalBlinker && (1, 2) !in HorizontalBlinker;
  }

  /** The blinker stops after two generations with a score of 6. */
  lemma BlinkerRun(cap: int)
    requires cap >= 2
    ensures Simulate(Life, [], VerticalBlinker, 0, cap, 0) == Run(2, 6, [VerticalBlinker, HorizontalBlinker])
  {
    BlinkerOscillates();
    BlinkerSizes();
    PeriodTwoStops(Life, VerticalBlinker, HorizontalBlinker, cap);
  }

  /** The run's result, for a caller that gives each run a history of its own. */
  function FreshOutcome(word: string, generations: int): Outcome {
    var r := Simulate(Life, [], Seed(word), 0, generations, 0);
    Outcome(r.generations, r.score)
  }

  /** The module's state: the history shared by every check and every run. */
  class Cgol {
    var liveCellHistory: seq<Generation>

    constructor ()
      ensures liveCellHistory == []
    {
      liveCellHistory := [];
    }

    /** The end-of-game check, updating the shared history in place. */
    method CheckEndConditions(currGeneration: Generation) returns (stop: bool)
      modifies this
      ensures Verdict(stop, liveCellHistory) == Check(old(liveCellHistory), currGeneration)
    {
      if |liveCellHistory| == 0 {
        liveCellHistory := liveCellHistory + [currGeneration];
        return false;
      }
      if |currGeneration| == 0 || currGeneration in liveCellHistory
         || currGeneration == liveCellHistory[|liveCellHistory| - 1] {
        return true;
      }
      if |liveCellHistory| == Capacity {
        liveCellHistory := liveCellHistory[1..];
      }
      liveCellHistory := liveCellHistory + [currGeneration];
      return false;
    }

    /** One game: encode the word, seed the grid, then play it out; the cap defaults to DefaultGenerations. */
    method RunGame(word: string, generations: int := DefaultGenerations) returns (result: Outcome)
      modifies this
      ensures 0 <= result.generations <= Max(generations, 0)
      ensures var r := Simulate(Life, old(liveCellHistory), Seed(word), 0, generations, 0);
              result == Outcome(r.generations, r.score) && liveCellHistory == r.history
      ensures |old(liveCellHistory)| <= Capacity ==> |liveCellHistory| <= Capacity
    {
      ghost var step := LifeStep();
      var asciiBits := ConvertToAsciiBitmask(word);
      var currGen := GenerateInitialLiveCells(asciiBits);
      var played, spawned := Play(step, currGen, generations);
      SimulateSameStep(step, Life, old(liveCellHistory), currGen, 0, generations, 0);
      result := Outcome(played, spawned);
      if |old(liveCellHistory)| <= Capacity {
        SimulateHistoryBound(Life, old(liveCellHistory), Seed(word), 0, generations, 0);
      }
    }

    /** One game with the cap a caller gets when it names none. */
    /**
     * The game loop of the source: check the current generation against the
     * shared history, stop or add its size to the total and step.
     */
    method Play(ghost step: Generation -> Generation, seed: Generation, generations: int)
        returns (currGenNumber: nat, totalCellsSpawned: nat)
      requires forall g {:trigger Life(g)} :: step(g) == Life(g)
      modifies this
      ensures Simulate(step, old(liveCellHistory), seed, 0, generations, 0)
              == Run(currGenNumber, totalCellsSpawned, liveCellHistory)
    {
      currGenNumber := 0;
      totalCellsSpawned := 0;
      var currGen := seed;
      ghost var spec := Simulate(step, liveCellHistory, currGen, 0, generations, 0);
      while currGenNumber < generations
        invariant Simulate(step, liveCellHistory, currGen, currGenNumber, generations, totalCellsSpawned) == spec
        decreases generations - currGenNumber
      {
        ghost var before := liveCellHistory;
        var shouldEnd := CheckEndConditions(currGen);
        if shouldEnd {
          SimulateHalts(step, before, currGen, currGenNumber, generations, totalCellsSpawned);
          return;
        }
        ghost var scored := totalCellsSpawned;
        totalCellsSpawned := totalCellsSpawned + |currGen|;
        var nextGen := NextGenerationAsStep(step, currGen);
        SimulateContinues(step, before, currGen, currGenNumber, generations, scored, liveCellHistory, nextGen);
        currGen := nextGen;
        currGenNumber := currGenNumber + 1;
      }
      SimulateAtCap(step, liveCellHistory, currGen, currGenNumber, generations, totalCellsSpawned);
    }
  }

  /*
   * The loop's proof sees the step only as a function equal to Life at
   * every generation it is applied to; Life's own definition then stays
   * out of the loop's proof, which keeps it small.
   */

  /** A name for Life whose equality with Life is known one generation at a time. */
  lemma LifeStep() returns (step: Generation -> Generation)
    ensures forall g {:trigger Life(g)} :: step(g) == Life(g)
  {
    step := Life;
  }

  /** The source's step, as the loop sees it. */
  method NextGenerationAsStep(ghost step: Generation -> Generation, live: Generation) returns (next: Generation)
    requires forall g {:trigger Life(g)} :: step(g) == Life(g)
    ensures next == step(live)
  {
    next := NextGeneration(live);
  }

  /**
   * A run on a history of its own: the result depends on the word and the
   * cap only, whatever ran before.
   */
  method RunFresh(word: string, generations: int) returns (result: Outcome)
    ensures result == FreshOutcome(word, generations)
    ensures 0 <= result.generations <= Max(generations, 0)
    ensures (|word| == 0 || |word| > MaxWordLength) && generations >= 1 ==> result == Outcome(1, 0)
  {
    var game := new Cgol();
    result := game.RunGame(word, generations);
    if (|word| == 0 || |word| > MaxWordLength) && generations >= 1 {
      EmptySeedFreshRun(word, generations);
    }
  }
}
