/**
 * The web simulator's three algorithms. Each records, for every reference, the
 * frame list as it is AFTER the reference and a Hit/Miss label, and returns the
 * number of faults. Its LRU keeps the frame list itself in recency order; its
 * Optimal scans the frames for the victim, stopping at the first page that is
 * never referenced again.
 */
module StreamlitCode {
  import opened Lists
  import opened Replacement

  /** The frame lists a run records for its first `n` references, each taken after the reference. */
  function Snapshots(p: Policy, pages: seq<int>, cap: nat, n: nat): (r: seq<seq<int>>)
    requires cap >= 1 && n <= |pages|
    ensures |r| == n
    ensures forall k {:trigger r[k]} :: 0 <= k < n ==> r[k] == FramesAt(p, pages, cap, k + 1)
  {
    if n == 0 then [] else Snapshots(p, pages, cap, n - 1) + [FramesAt(p, pages, cap, n)]
  }

  /** The Hit/Miss labels of the first `n` references. */
  function Outcomes(p: Policy, pages: seq<int>, cap: nat, n: nat): (r: seq<Outcome>)
    requires cap >= 1 && n <= |pages|
    ensures |r| == n
    ensures forall k {:trigger r[k]} :: 0 <= k < n ==> (r[k] == Miss <==> pages[k] !in FramesAt(p, pages, cap, k))
  {
    if n == 0 then [] else Outcomes(p, pages, cap, n - 1) + [OutcomeAt(p, pages, cap, n - 1)]
  }

  /** The number of Miss labels. */
  function MissCount(h: seq<Outcome>): (c: nat)
    ensures c <= |h|
  {
    if h == [] then 0 else MissCount(h[..|h| - 1]) + if h[|h| - 1] == Miss then 1 else 0
  }

  /**
   * The running fault count drawn by the animation: the cumulative sum of one
   * per Miss label and zero per Hit label.
   */
  function CumulativeFaults(h: seq<Outcome>): (c: seq<nat>)
    ensures |c| == |h|
    ensures forall k {:trigger c[k]} :: 0 <= k < |h| ==>
      c[k] == (if k == 0 then 0 else c[k - 1]) + (if h[k] == Miss then 1 else 0)
    ensures h != [] ==> c[|h| - 1] == MissCount(h)
  {
    if h == [] then []
    else
      var c0 := CumulativeFaults(h[..|h| - 1]);
      assert forall k :: 0 <= k < |h| - 1 ==> h[..|h| - 1][k] == h[k];
      c0 + [MissCount(h)]
  }

  // ---------------------------------------------------------------------------
  // The three algorithms
  // ---------------------------------------------------------------------------

  method FifoPageReplacement(pages: seq<int>, capacity: int)
    returns (pageFaults: nat, steps: seq<seq<int>>, hitMiss: seq<Outcome>)
    requires capacity >= 1
    ensures steps == Snapshots(FIFO, pages, capacity, |pages|)
    ensures hitMiss == Outcomes(FIFO, pages, capacity, |pages|)
    ensures pageFaults == TotalFaults(FIFO, pages, capacity) == MissCount(hitMiss)
  {
    var frame: seq<int> := [];
    pageFaults := 0;
    steps := [];
    hitMiss := [];
    for i := 0 to |pages|
      invariant frame == FramesAt(FIFO, pages, capacity, i)
      invariant steps == Snapshots(FIFO, pages, capacity, i)
      invariant hitMiss == Outcomes(FIFO, pages, capacity, i)
      invariant pageFaults == FaultsAt(FIFO, pages, capacity, i)
    {
      var page := pages[i];
      if page !in frame {
        if |frame| < capacity {
          frame := frame + [page];
        } else {
          frame := frame[1..];
          frame := frame + [page];
        }
        pageFaults := pageFaults + 1;
        hitMiss := hitMiss + [Miss];
      } else {
        hitMiss := hitMiss + [Hit];
      }
      steps := steps + [frame];
    }
    MissCountIsFaults(FIFO, pages, capacity, |pages|);
  }

  method LruPageReplacement(pages: seq<int>, capacity: int)
    returns (pageFaults: nat, steps: seq<seq<int>>, hitMiss: seq<Outcome>)
    requires capacity >= 1
    ensures steps == Snapshots(LRU, pages, capacity, |pages|)
    ensures hitMiss == Outcomes(LRU, pages, capacity, |pages|)
    ensures pageFaults == TotalFaults(LRU, pages, capacity) == MissCount(hitMiss)
  {
    var frame: seq<int> := [];
    pageFaults := 0;
    steps := [];
    hitMiss := [];
    for i := 0 to |pages|
      invariant frame == FramesAt(LRU, pages, capacity, i)
      invariant steps == Snapshots(LRU, pages, capacity, i)
      invariant hitMiss == Outcomes(LRU, pages, capacity, i)
      invariant pageFaults == FaultsAt(LRU, pages, capacity, i)
    {
      var page := pages[i];
      if page !in frame {
        if |frame| < capacity {
          frame := frame + [page];
        } else {
          frame := frame[1..];
          frame := frame + [page];
        }
        pageFaults := pageFaults + 1;
        hitMiss := hitMiss + [Miss];
      } else {
        frame := RemoveFirst(frame, page);
        frame := frame + [page];
        hitMiss := hitMiss + [Hit];
      }
      steps := steps + [frame];
    }
    MissCountIsFaults(LRU, pages, capacity, |pages|);
  }

  /**
   * The victim scan: the first slot whose page is not in `futurePages` (the scan
   * stops there); failing that, the first slot with the largest next use.
   */
  method ScanVictim(frame: seq<int>, futurePages: seq<int>) returns (indexToReplace: nat)
    requires frame != []
    ensures IsOptimalChoice(frame, futurePages, indexToReplace)
  {
    var farthest: int := -1;
    indexToReplace := 0;
    for index := 0 to |frame|
      invariant forall k :: 0 <= k < index ==> frame[k] in futurePages
      invariant index == 0 ==> farthest == -1 && indexToReplace == 0
      invariant index > 0 ==> indexToReplace < index && farthest == IndexOf(futurePages, frame[indexToReplace])
      invariant forall k :: 0 <= k < index ==> IndexOf(futurePages, frame[k]) <= farthest
      invariant forall k :: 0 <= k < indexToReplace ==> IndexOf(futurePages, frame[k]) < farthest
    {
      var fPage := frame[index];
      if fPage in futurePages {
        var nextUse := IndexOf(futurePages, fPage);
        if nextUse > farthest {
          farthest := nextUse;
          indexToReplace := index;
        }
      } else {
        indexToReplace := index;
        break;
      }
    }
  }

  method OptimalPageReplacement(pages: seq<int>, capacity: int)
    returns (pageFaults: nat, steps: seq<seq<int>>, hitMiss: seq<Outcome>)
    requires capacity >= 1
    ensures steps == Snapshots(Optimal, pages, capacity, |pages|)
    ensures hitMiss == Outcomes(Optimal, pages, capacity, |pages|)
    ensures pageFaults == TotalFaults(Optimal, pages, capacity) == MissCount(hitMiss)
  {
    var frame: seq<int> := [];
    pageFaults := 0;
    steps := [];
    hitMiss := [];
    for i := 0 to |pages|
      invariant frame == FramesAt(Optimal, pages, capacity, i)
      invariant steps == Snapshots(Optimal, pages, capacity, i)
      invariant hitMiss == Outcomes(Optimal, pages, capacity, i)
      invariant pageFaults == FaultsAt(Optimal, pages, capacity, i)
    {
      var page := pages[i];
      if page !in frame {
        if |frame| < capacity {
          frame := frame + [page];
        } else {
          var futurePages := pages[i + 1..];
          var indexToReplace := ScanVictim(frame, futurePages);
          OptimalChoiceUnique(frame, futurePages, indexToReplace, OptimalVictim(frame, futurePages));
          frame := frame[indexToReplace := page];
        }
        pageFaults := pageFaults + 1;
        hitMiss := hitMiss + [Miss];
      } else {
        hitMiss := hitMiss + [Hit];
      }
      steps := steps + [frame];
    }
    MissCountIsFaults(Optimal, pages, capacity, |pages|);
  }

  // ---------------------------------------------------------------------------
  // The fault curve
  // ---------------------------------------------------------------------------

  /** The Miss labels counted over a prefix are the faults of that prefix. */
  lemma {:induction false} MissCountIsFaults(p: Policy, pages: seq<int>, cap: nat, n: nat)
    requires cap >= 1 && n <= |pages|
    ensures MissCount(Outcomes(p, pages, cap, n)) == FaultsAt(p, pages, cap, n)
  {
    if n > 0 {
      MissCountIsFaults(p, pages, cap, n - 1);
      MissCountSnoc(Outcomes(p, pages, cap, n - 1), OutcomeAt(p, pages, cap, n - 1));
    }
  }

  /** Appending a label adds one to the count exactly when it is a Miss. */
  lemma MissCountSnoc(h: seq<Outcome>, o: Outcome)
    ensures MissCount(h + [o]) == MissCount(h) + if o == Miss then 1 else 0
  {
    assert (h + [o])[..|h|] == h;
  }

  /** One point of the curve the animation draws: the faults up to and including reference `k`. */
  lemma {:induction false} CumulativeAt(p: Policy, pages: seq<int>, cap: nat, k: nat)
    requires cap >= 1 && k < |pages|
    ensures CumulativeFaults(Outcomes(p, pages, cap, |pages|))[k] == FaultsAt(p, pages, cap, k + 1)
  {
    if k > 0 {
      CumulativeAt(p, pages, cap, k - 1);
    }
  }

  /**
   * The curve the animation draws from a run's labels is the running fault
   * count, and it ends at the total the run returns.
   */
  lemma CumulativeIsRunningFaults(p: Policy, pages: seq<int>, cap: nat)
    requires cap >= 1
    ensures var c := CumulativeFaults(Outcomes(p, pages, cap, |pages|));
      && (forall k :: 0 <= k < |pages| ==> c[k] == FaultsAt(p, pages, cap, k + 1))
      && (pages != [] ==> c[|pages| - 1] == TotalFaults(p, pages, cap))
  {
    forall k | 0 <= k < |pages| ensures CumulativeFaults(Outcomes(p, pages, cap, |pages|))[k] == FaultsAt(p, pages, cap, k + 1) {
      CumulativeAt(p, pages, cap, k);
    }
  }
}
