/**
 * The desktop simulator's three algorithms. Each records, for every reference,
 * the frames as they were BEFORE the reference, the page requested and the
 * running fault count. Its LRU keeps every page in the slot it was loaded into
 * and tracks recency in a separate list; its Optimal picks the victim with a
 * helper that returns the first unused frame or the first farthest one.
 */
module FinalCode {
  import opened Common
  import opened Lists
  import opened Replacement

  /** One row of the simulation: the frames before the reference, the page, the faults so far. */
  datatype Step = Step(frames: seq<int>, page: int, faults: nat)

  /** The steps and the total returned by one algorithm. */
  datatype Run = Run(steps: seq<Step>, faults: nat)

  /** The three runs shown side by side. */
  datatype Simulation = Simulation(fifo: Run, lru: Run, optimal: Run)

  /**
   * The rows a run records for its first `n` references: the frames before each
   * reference, the page, and the faults up to and including it.
   */
  function Trace(p: Policy, pages: seq<int>, cap: nat, n: nat): (r: seq<Step>)
    requires cap >= 1 && n <= |pages|
    ensures |r| == n
    ensures forall k {:trigger r[k]} :: 0 <= k < n ==>
      r[k] == Step(FramesKept(p, pages, cap, k), pages[k], FaultsAt(p, pages, cap, k + 1))
  {
    if n == 0 then []
    else Trace(p, pages, cap, n - 1) + [Step(FramesKept(p, pages, cap, n - 1), pages[n - 1], FaultsAt(p, pages, cap, n))]
  }

  /**
   * The frame list this simulator keeps after the first `n` references: LRU's is
   * in slot order (`LruSlotsAt`); FIFO's and Optimal's are the shared lists.
   */
  function FramesKept(p: Policy, pages: seq<int>, cap: nat, n: nat): seq<int>
    requires cap >= 1 && n <= |pages|
  {
    if p == LRU then LruSlotsAt(pages, cap, n) else FramesAt(p, pages, cap, n)
  }

  // ---------------------------------------------------------------------------
  // FIFO
  // ---------------------------------------------------------------------------

  method FifoAlgorithm(pages: seq<int>, frameSize: int) returns (steps: seq<Step>, pageFaults: nat)
    requires frameSize >= 1
    ensures steps == Trace(FIFO, pages, frameSize, |pages|)
    ensures pageFaults == TotalFaults(FIFO, pages, frameSize)
  {
    var frames: seq<int> := [];
    pageFaults := 0;
    steps := [];
    for i := 0 to |pages|
      invariant frames == FramesAt(FIFO, pages, frameSize, i)
      invariant pageFaults == FaultsAt(FIFO, pages, frameSize, i)
      invariant steps == Trace(FIFO, pages, frameSize, i)
    {
      var page := pages[i];
      var current := frames;
      if page !in frames {
        if |frames| < frameSize {
          frames := frames + [page];
        } else {
          frames := frames[1..];
          frames := frames + [page];
        }
        pageFaults := pageFaults + 1;
      }
      steps := steps + [Step(current, page, pageFaults)];
    }
  }

  // ---------------------------------------------------------------------------
  // LRU with fixed slots
  // ---------------------------------------------------------------------------

  /**
   * The slot list of the slot-keeping LRU after the first `n` references. A hit
   * leaves it alone; a miss with room appends; a miss on full frames overwrites
   * the slot of the least recently used page, the head of the shared LRU queue
   * (the list `recent`). There are never more slots than frames. The last
   * branch is never taken: the slots always hold the queue's pages
   * (`LruSlotsMatchQueue`).
   */
  function LruSlotsAt(pages: seq<int>, cap: nat, n: nat): (r: seq<int>)
    requires cap >= 1 && n <= |pages|
    ensures |r| <= cap
  {
    if n == 0 then []
    else
      var S, R, page := LruSlotsAt(pages, cap, n - 1), FramesAt(LRU, pages, cap, n - 1), pages[n - 1];
      if page in S then S
      else if |S| < cap then S + [page]
      else if R != [] && R[0] in S then S[IndexOf(S, R[0]) := page]
      else S
  }

  /**
   * `recent` is a permutation of the slot list: both hold the same pages, each
   * once, so a page is in the slots exactly when LRU has it resident.
   */
  lemma {:induction false} LruSlotsMatchQueue(pages: seq<int>, cap: nat, n: nat)
    requires cap >= 1 && n <= |pages|
    ensures var S, R := LruSlotsAt(pages, cap, n), FramesAt(LRU, pages, cap, n);
      NoDup(S) && Elems(S) == Elems(R) && |S| == |R|
  {
    if n > 0 {
      LruSlotsMatchQueue(pages, cap, n - 1);
      var S, R, page := LruSlotsAt(pages, cap, n - 1), FramesAt(LRU, pages, cap, n - 1), pages[n - 1];
      FramesAtResident(LRU, pages, cap, n - 1);
      NextResident(LRU, R, pages, n - 1, cap);
      assert page in S <==> page in R by {
        assert page in S <==> page in Elems(S);
      }
      if page !in S && |S| >= cap {
        assert R[0] in Elems(S);
        OverwriteResident(S, IndexOf(S, R[0]), page);
      } else if page !in S {
        assert Elems(S + [page]) == Elems(S) + {page};
      }
    }
  }

  /**
   * Every page keeps its slot while it stays resident: a reference appends a
   * slot or overwrites only the slot of the page LRU evicts.
   */
  lemma LruKeepsSlots(pages: seq<int>, cap: nat, n: nat)
    requires cap >= 1 && n < |pages|
    ensures var S, S' := LruSlotsAt(pages, cap, n), LruSlotsAt(pages, cap, n + 1);
      var e := Evicted(LRU, FramesAt(LRU, pages, cap, n), pages, n, cap);
      && (|S'| == |S| || S' == S + [pages[n]])
      && forall j :: 0 <= j < |S| ==> S'[j] == if e == Some(S[j]) then pages[n] else S[j]
  {
    var S, R := LruSlotsAt(pages, cap, n), FramesAt(LRU, pages, cap, n);
    LruSlotsMatchQueue(pages, cap, n);
    FramesAtResident(LRU, pages, cap, n);
    assert pages[n] in S <==> pages[n] in R by {
      assert pages[n] in S <==> pages[n] in Elems(S);
    }
    if pages[n] !in S && |S| >= cap {
      assert R[0] in Elems(S);
    }
  }

  /**
   * One reference of the slot-keeping LRU, branch by branch: the slot list,
   * the queue `recent`, the fault count and the recorded rows after it. The
   * page is in the slots exactly when it is resident, and on a miss with full
   * frames the head of `recent` holds the slot the reference overwrites.
   */
  lemma LruSlotsStep(pages: seq<int>, cap: nat, n: nat)
    requires cap >= 1 && n < |pages|
    ensures var S, R, f, page := LruSlotsAt(pages, cap, n), FramesAt(LRU, pages, cap, n), FaultsAt(LRU, pages, cap, n), pages[n];
      var S', R', f' := LruSlotsAt(pages, cap, n + 1), FramesAt(LRU, pages, cap, n + 1), FaultsAt(LRU, pages, cap, n + 1);
      && (page in S <==> page in R)
      && (page in S ==> S' == S && R' == RemoveFirst(R, page) + [page] && f' == f)
      && (page !in S && |S| < cap ==> S' == S + [page] && R' == R + [page] && f' == f + 1)
      && (page !in S && |S| >= cap ==>
            R != [] && R[0] in S && S' == S[IndexOf(S, R[0]) := page] && R' == R[1..] + [page] && f' == f + 1)
      && Trace(LRU, pages, cap, n + 1) == Trace(LRU, pages, cap, n) + [Step(S, page, f')]
  {
    var S, R, page := LruSlotsAt(pages, cap, n), FramesAt(LRU, pages, cap, n), pages[n];
    LruSlotsMatchQueue(pages, cap, n);
    FramesAtResident(LRU, pages, cap, n);
    FaultsAtStep(LRU, pages, cap, n);
    assert page in S <==> page in R by {
      assert page in S <==> page in Elems(S);
    }
    if page !in S && |S| >= cap {
      assert R[0] in Elems(S);
    }
  }

  /**
   * Keeps every page in the slot it was loaded into and tracks recency in
   * `recent`: a hit moves the page to the back of `recent`; a miss on full frames
   * takes the victim from the front of `recent` and overwrites its slot.
   */
  method LruAlgorithm(pages: seq<int>, frameSize: int) returns (steps: seq<Step>, pageFaults: nat)
    requires frameSize >= 1
    ensures steps == Trace(LRU, pages, frameSize, |pages|)
    ensures pageFaults == TotalFaults(LRU, pages, frameSize)
  {
    var frames: seq<int> := [];
    pageFaults := 0;
    steps := [];
    var recent: seq<int> := [];
    for i := 0 to |pages|
      invariant frames == LruSlotsAt(pages, frameSize, i)
      invariant recent == FramesAt(LRU, pages, frameSize, i)
      invariant pageFaults == FaultsAt(LRU, pages, frameSize, i)
      invariant steps == Trace(LRU, pages, frameSize, i)
    {
      var page := pages[i];
      var current := frames;
      LruSlotsStep(pages, frameSize, i);
      if page !in frames {
        if |frames| < frameSize {
          frames := frames + [page];
          recent := recent + [page];
        } else {
          var lruPage := recent[0];
          recent := recent[1..];
          frames := frames[IndexOf(frames, lruPage) := page];
          recent := recent + [page];
        }
        pageFaults := pageFaults + 1;
      } else {
        recent := RemoveFirst(recent, page);
        recent := recent + [page];
      }
      steps := steps + [Step(current, page, pageFaults)];
    }
  }

  // ---------------------------------------------------------------------------
  // Optimal
  // ---------------------------------------------------------------------------

  /**
   * The slot to overwrite: the first frame whose page never occurs in `future`;
   * failing that, the first frame whose next occurrence is the farthest.
   */
  method FindOptimalReplace(frames: seq<int>, future: seq<int>) returns (idx: nat)
    requires frames != []
    ensures IsOptimalChoice(frames, future, idx)
  {
    var distances: seq<int> := [];
    for j := 0 to |frames|
      invariant |distances| == j
      invariant forall k :: 0 <= k < j ==> frames[k] in future && distances[k] == IndexOf(future, frames[k])
    {
      if frames[j] !in future {
        idx := IndexOf(frames, frames[j]);
        return;
      }
      distances := distances + [IndexOf(future, frames[j])];
    }
    idx := ArgMax(distances);
  }

  method OptimalAlgorithm(pages: seq<int>, frameSize: int) returns (steps: seq<Step>, pageFaults: nat)
    requires frameSize >= 1
    ensures steps == Trace(Optimal, pages, frameSize, |pages|)
    ensures pageFaults == TotalFaults(Optimal, pages, frameSize)
  {
    var frames: seq<int> := [];
    pageFaults := 0;
    steps := [];
    for i := 0 to |pages|
      invariant frames == FramesAt(Optimal, pages, frameSize, i)
      invariant pageFaults == FaultsAt(Optimal, pages, frameSize, i)
      invariant steps == Trace(Optimal, pages, frameSize, i)
    {
      var page := pages[i];
      var current := frames;
      if page !in frames {
        if |frames| < frameSize {
          frames := frames + [page];
        } else {
          var future := pages[i + 1..];
          var replaceIdx := FindOptimalReplace(frames, future);
          OptimalChoiceUnique(frames, future, replaceIdx, OptimalVictim(frames, future));
          frames := frames[replaceIdx := page];
        }
        pageFaults := pageFaults + 1;
      }
      steps := steps + [Step(current, page, pageFaults)];
    }
  }

  // ---------------------------------------------------------------------------
  // The simulate button
  // ---------------------------------------------------------------------------

  /**
   * Rejects a frame size below one or an empty reference string; otherwise runs
   * the three algorithms on the same input.
   */
  method RunSimulation(pages: seq<int>, frameSize: int) returns (r: Result<Simulation, string>)
    ensures r.Failure? <==> frameSize <= 0 || pages == []
    ensures r.Success? ==> r.value == Simulation(
      Run(Trace(FIFO, pages, frameSize, |pages|), TotalFaults(FIFO, pages, frameSize)),
      Run(Trace(LRU, pages, frameSize, |pages|), TotalFaults(LRU, pages, frameSize)),
      Run(Trace(Optimal, pages, frameSize, |pages|), TotalFaults(Optimal, pages, frameSize)))
  {
    if frameSize <= 0 || pages == [] {
      return Failure("Invalid input");
    }
    var fifoSteps, fifoFaults := FifoAlgorithm(pages, frameSize);
    var lruSteps, lruFaults := LruAlgorithm(pages, frameSize);
    var optSteps, optFaults := OptimalAlgorithm(pages, frameSize);
    r := Success(Simulation(Run(fifoSteps, fifoFaults), Run(lruSteps, lruFaults), Run(optSteps, optFaults)));
  }
}
