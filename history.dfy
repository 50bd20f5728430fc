/**
 * The end-of-game check as a value: the verdict and the new history that
 * one call produces from the old history and the current generation.
 *
 * The history is a first-in-first-out window of at most ten generations,
 * oldest first.  The first call only records; later calls stop the game
 * on an empty generation or on one that repeats a recorded generation,
 * and otherwise record the generation, dropping the oldest entry when ten
 * are already held.
 */
module History {
  import opened Cells

  /** How many past generations the window holds. */
  const Capacity: nat := 10

  /** Whether to stop, and the history after the check. */
  datatype Verdict = Verdict(stop: bool, history: seq<Generation>)

  /**
   * The stop condition as written in the source, including its separate
   * test against the newest entry.
   */
  predicate StopCondition(history: seq<Generation>, g: Generation)
    requires history != []
  {
    |g| == 0 || g in history || g == history[|history| - 1]
  }

  /** The newest Capacity entries of s (all of s when it is shorter). */
  function Window(s: seq<Generation>): (w: seq<Generation>)
    ensures |w| == if |s| <= Capacity then |s| else Capacity
  {
    if |s| <= Capacity then s else s[|s| - Capacity..]
  }

  /** One call of the end-of-game check. */
  function Check(history: seq<Generation>, g: Generation): (v: Verdict)
    ensures history == [] ==> v == Verdict(false, [g])
    ensures history != [] ==> (v.stop <==> g == {} || g in history)
    ensures v.stop ==> v.history == history
    ensures |history| <= Capacity ==> |v.history| <= Capacity
    ensures !v.stop ==> v.history != [] && v.history[|v.history| - 1] == g
  {
    if |history| == 0 then
      Verdict(false, [g])
    else if StopCondition(history, g) then
      Verdict(true, history)
    else
      var kept := if |history| == Capacity then history[1..] else history;
      Verdict(false, kept + [g])
  }

  /** A check that does not stop records g at the end of the window, oldest first. */
  lemma CheckRecords(history: seq<Generation>, g: Generation)
    requires |history| <= Capacity
    requires !Check(history, g).stop
    ensures Check(history, g).history == Window(history + [g])
  {
    if |history| == Capacity {
      assert history[1..] + [g] == (history + [g])[1..];
    }
  }

  /** The source's test against the newest entry never changes the outcome. */
  lemma NewestEntryTestRedundant(history: seq<Generation>, g: Generation)
    requires history != []
    ensures StopCondition(history, g) <==> (g == {} || g in history)
  {
  }

  /** Checking a list of generations in turn, until one stops the game. */
  function Feed(history: seq<Generation>, gs: seq<Generation>): Verdict
    decreases |gs|
  {
    if gs == [] then Verdict(false, history)
    else
      var v := Check(history, gs[0]);
      if v.stop then v else Feed(v.history, gs[1..])
  }

  /** Trimming to the window early or late keeps the same newest entries. */
  lemma WindowAppend(s: seq<Generation>, t: seq<Generation>)
    ensures Window(Window(s) + t) == Window(s + t)
  {
    var a, b := Window(Window(s) + t), Window(s + t);
    assert |a| == |b|;
    forall i | 0 <= i < |a| ensures a[i] == b[i] {
      var k := |s + t| - |b| + i;
      if k >= |s| {
        assert b[i] == t[k - |s|];
      }
    }
  }

  /**
   * As long as no check stops the game, the history is the window of the
   * newest (at most ten) generations, oldest first.
   */
  lemma {:induction false} FeedWindow(history: seq<Generation>, gs: seq<Generation>)
    requires |history| <= Capacity
    requires !Feed(history, gs).stop
    ensures Feed(history, gs).history == Window(history + gs)
    decreases |gs|
  {
    if gs == [] {
      assert history + gs == history;
    } else {
      var v := Check(history, gs[0]);
      var rest := gs[1..];
      assert Feed(history, gs) == Feed(v.history, rest) && |v.history| <= Capacity by {
        assert !v.stop;
      }
      CheckRecords(history, gs[0]);
      FeedWindow(v.history, rest);
      assert Window(v.history + rest) == Window(history + gs) by {
        WindowAppend(history + [gs[0]], rest);
        assert history + [gs[0]] + rest == history + gs;
      }
    }
  }

  /** Checking s without a stop and then t is checking s + t. */
  lemma {:induction false} FeedAppend(history: seq<Generation>, s: seq<Generation>, t: seq<Generation>)
    requires !Feed(history, s).stop
    ensures Feed(history, s + t) == Feed(Feed(history, s).history, t)
    decreases |s|
  {
    if s == [] {
      assert s + t == t;
    } else {
      assert (s + t)[0] == s[0] && (s + t)[1..] == s[1..] + t;
      FeedAppend(Check(history, s[0]).history, s[1..], t);
    }
  }

  /** A stop while checking s is still a stop when more generations follow. */
  lemma {:induction false} FeedStopsEarly(history: seq<Generation>, s: seq<Generation>, t: seq<Generation>)
    requires Feed(history, s).stop
    ensures Feed(history, s + t) == Feed(history, s)
    decreases |s|
  {
    assert s != [];
    assert (s + t)[0] == s[0] && (s + t)[1..] == s[1..] + t;
    var v := Check(history, s[0]);
    if !v.stop {
      FeedStopsEarly(v.history, s[1..], t);
    }
  }

  /** The window keeps the newest entries at their distance from the end. */
  lemma WindowTail(s: seq<Generation>, p: nat)
    requires 1 <= p <= Capacity && p <= |s|
    ensures |Window(s)| >= p && Window(s)[|Window(s)| - p] == s[|s| - p]
  {
  }

  /**
   * Oscillation of period at most ten is caught: after a run of checks that
   * did not stop, a generation equal to one of the last ten (at any
   * distance p from the end) stops the game.
   */
  lemma RecentRepeatStops(history: seq<Generation>, gs: seq<Generation>, p: nat)
    requires |history| <= Capacity
    requires !Feed(history, gs).stop
    requires 1 <= p <= Capacity && p <= |history + gs|
    ensures Check(Feed(history, gs).history, (history + gs)[|history + gs| - p]).stop
  {
    var s := history + gs;
    FeedWindow(history, gs);
    WindowTail(s, p);
    var h := Feed(history, gs).history;
    assert h[|h| - p] in h;
  }
}
