/**
 * Two concrete runs. Belady's anomaly on the classic reference string: FIFO
 * faults 9 times with three frames and 10 times with four; each of its lemmas
 * follows the run for two more references from the state the previous one
 * reached. And the textbook LRU run: 12 faults with three frames, followed one
 * reference at a time.
 */
module Examples {
  import opened Lists
  import opened Replacement

  /** Belady's reference string. */
  const BeladyString: seq<int> := [1, 2, 3, 4, 1, 2, 5, 1, 2, 3, 4, 5]

  /** The textbook reference string for LRU. */
  const TextbookString: seq<int> := [7, 0, 1, 2, 0, 3, 0, 4, 2, 3, 0, 3, 2, 1, 2, 0, 1, 7, 0, 1]

  /** One reference, from a known state: the list moves by `Next` and the count by the outcome. */
  lemma StepFrom(p: Policy, pages: seq<int>, cap: nat, n: nat, F: seq<int>, f: nat)
    requires cap >= 1 && n < |pages|
    requires FramesAt(p, pages, cap, n) == F && FaultsAt(p, pages, cap, n) == f
    ensures FramesAt(p, pages, cap, n + 1) == Next(p, F, pages, n, cap)
    ensures FaultsAt(p, pages, cap, n + 1) == f + if pages[n] in F then 0 else 1
  {
  }

  /**
   * One FIFO or LRU reference to the page `x`, from a known state: the list
   * the queue policies produce, written out so that it evaluates on literals.
   */
  lemma QueueStepFrom(p: Policy, pages: seq<int>, cap: nat, n: nat, F: seq<int>, f: nat, x: int)
    requires p != Optimal && cap >= 1 && n < |pages| && pages[n] == x
    requires FramesAt(p, pages, cap, n) == F && FaultsAt(p, pages, cap, n) == f
    ensures FramesAt(p, pages, cap, n + 1) ==
      if x in F then (if p == LRU then RemoveFirst(F, x) + [x] else F)
      else if |F| < cap then F + [x]
      else F[1..] + [x]
    ensures FaultsAt(p, pages, cap, n + 1) == f + if x in F then 0 else 1
  {
  }

  lemma BeladyThreeUpTo2(s: seq<int>)
    requires s == BeladyString
    ensures FramesAt(FIFO, s, 3, 2) == [1, 2] && FaultsAt(FIFO, s, 3, 2) == 2
  {
    StepFrom(FIFO, s, 3, 0, [], 0);
    StepFrom(FIFO, s, 3, 1, [1], 1);
  }

  lemma BeladyThreeUpTo4(s: seq<int>)
    requires s == BeladyString
    ensures FramesAt(FIFO, s, 3, 4) == [2, 3, 4] && FaultsAt(FIFO, s, 3, 4) == 4
  {
    BeladyThreeUpTo2(s);
    StepFrom(FIFO, s, 3, 2, [1, 2], 2);
    StepFrom(FIFO, s, 3, 3, [1, 2, 3], 3);
  }

  lemma BeladyThreeUpTo6(s: seq<int>)
    requires s == BeladyString
    ensures FramesAt(FIFO, s, 3, 6) == [4, 1, 2] && FaultsAt(FIFO, s, 3, 6) == 6
  {
    BeladyThreeUpTo4(s);
    StepFrom(FIFO, s, 3, 4, [2, 3, 4], 4);
    StepFrom(FIFO, s, 3, 5, [3, 4, 1], 5);
  }

  lemma BeladyThreeUpTo8(s: seq<int>)
    requires s == BeladyString
    ensures FramesAt(FIFO, s, 3, 8) == [1, 2, 5] && FaultsAt(FIFO, s, 3, 8) == 7
  {
    BeladyThreeUpTo6(s);
    StepFrom(FIFO, s, 3, 6, [4, 1, 2], 6);
    StepFrom(FIFO, s, 3, 7, [1, 2, 5], 7);
  }

  lemma BeladyThreeUpTo10(s: seq<int>)
    requires s == BeladyString
    ensures FramesAt(FIFO, s, 3, 10) == [2, 5, 3] && FaultsAt(FIFO, s, 3, 10) == 8
  {
    BeladyThreeUpTo8(s);
    StepFrom(FIFO, s, 3, 8, [1, 2, 5], 7);
    StepFrom(FIFO, s, 3, 9, [1, 2, 5], 7);
  }

  /** FIFO faults 9 times on Belady's string with three frames. */
  lemma BeladyThree(s: seq<int>)
    requires s == BeladyString
    ensures TotalFaults(FIFO, s, 3) == 9
  {
    BeladyThreeUpTo10(s);
    StepFrom(FIFO, s, 3, 10, [2, 5, 3], 8);
    StepFrom(FIFO, s, 3, 11, [5, 3, 4], 9);
  }

  lemma BeladyFourUpTo2(s: seq<int>)
    requires s == BeladyString
    ensures FramesAt(FIFO, s, 4, 2) == [1, 2] && FaultsAt(FIFO, s, 4, 2) == 2
  {
    StepFrom(FIFO, s, 4, 0, [], 0);
    StepFrom(FIFO, s, 4, 1, [1], 1);
  }

  lemma BeladyFourUpTo4(s: seq<int>)
    requires s == BeladyString
    ensures FramesAt(FIFO, s, 4, 4) == [1, 2, 3, 4] && FaultsAt(FIFO, s, 4, 4) == 4
  {
    BeladyFourUpTo2(s);
    StepFrom(FIFO, s, 4, 2, [1, 2], 2);
    StepFrom(FIFO, s, 4, 3, [1, 2, 3], 3);
  }

  lemma BeladyFourUpTo6(s: seq<int>)
    requires s == BeladyString
    ensures FramesAt(FIFO, s, 4, 6) == [1, 2, 3, 4] && FaultsAt(FIFO, s, 4, 6) == 4
  {
    BeladyFourUpTo4(s);
    StepFrom(FIFO, s, 4, 4, [1, 2, 3, 4], 4);
    StepFrom(FIFO, s, 4, 5, [1, 2, 3, 4], 4);
  }

  lemma BeladyFourUpTo8(s: seq<int>)
    requires s == BeladyString
    ensures FramesAt(FIFO, s, 4, 8) == [3, 4, 5, 1] && FaultsAt(FIFO, s, 4, 8) == 6
  {
    BeladyFourUpTo6(s);
    StepFrom(FIFO, s, 4, 6, [1, 2, 3, 4], 4);
    StepFrom(FIFO, s, 4, 7, [2, 3, 4, 5], 5);
  }

  lemma BeladyFourUpTo10(s: seq<int>)
    requires s == BeladyString
    ensures FramesAt(FIFO, s, 4, 10) == [5, 1, 2, 3] && FaultsAt(FIFO, s, 4, 10) == 8
  {
    BeladyFourUpTo8(s);
    StepFrom(FIFO, s, 4, 8, [3, 4, 5, 1], 6);
    StepFrom(FIFO, s, 4, 9, [4, 5, 1, 2], 7);
  }

  /** FIFO faults 10 times on Belady's string with four frames. */
  lemma BeladyFour(s: seq<int>)
    requires s == BeladyString
    ensures TotalFaults(FIFO, s, 4) == 10
  {
    BeladyFourUpTo10(s);
    StepFrom(FIFO, s, 4, 10, [5, 1, 2, 3], 8);
    StepFrom(FIFO, s, 4, 11, [1, 2, 3, 4], 9);
  }

  /**
   * Belady's anomaly: FIFO can fault more with one frame more, which LRU never
   * does (`QueueOrder.LruFaultsMonotone`).
   */
  lemma FifoIsNotMonotone()
    ensures exists pages: seq<int>, cap: nat ::
      (cap >= 1 && TotalFaults(FIFO, pages, cap) < TotalFaults(FIFO, pages, cap + 1))
  {
    BeladyThree(BeladyString);
    BeladyFour(BeladyString);
  }

  // The textbook LRU run one reference at a time: each lemma takes the state
  // before reference `n` to the state after it, for any string whose entry at
  // `n` is the textbook one.

  lemma LruTextbookFrom0(s: seq<int>, n: nat)
    requires n + 1 <= |s| && s[n] == 7
    requires FramesAt(LRU, s, 3, n) == [] && FaultsAt(LRU, s, 3, n) == 0
    ensures FramesAt(LRU, s, 3, n + 1) == [7] && FaultsAt(LRU, s, 3, n + 1) == 1
  {
    QueueStepFrom(LRU, s, 3, n, [], 0, 7);
  }

  lemma LruTextbookFrom1(s: seq<int>, n: nat)
    requires n + 1 <= |s| && s[n] == 0
    requires FramesAt(LRU, s, 3, n) == [7] && FaultsAt(LRU, s, 3, n) == 1
    ensures FramesAt(LRU, s, 3, n + 1) == [7, 0] && FaultsAt(LRU, s, 3, n + 1) == 2
  {
    QueueStepFrom(LRU, s, 3, n, [7], 1, 0);
  }

  lemma LruTextbookFrom2(s: seq<int>, n: nat)
    requires n + 1 <= |s| && s[n] == 1
    requires FramesAt(LRU, s, 3, n) == [7, 0] && FaultsAt(LRU, s, 3, n) == 2
    ensures FramesAt(LRU, s, 3, n + 1) == [7, 0, 1] && FaultsAt(LRU, s, 3, n + 1) == 3
  {
    QueueStepFrom(LRU, s, 3, n, [7, 0], 2, 1);
  }

  lemma LruTextbookFrom3(s: seq<int>, n: nat)
    requires n + 1 <= |s| && s[n] == 2
    requires FramesAt(LRU, s, 3, n) == [7, 0, 1] && FaultsAt(LRU, s, 3, n) == 3
    ensures FramesAt(LRU, s, 3, n + 1) == [0, 1, 2] && FaultsAt(LRU, s, 3, n + 1) == 4
  {
    QueueStepFrom(LRU, s, 3, n, [7, 0, 1], 3, 2);
  }

  lemma LruTextbookFrom4(s: seq<int>, n: nat)
    requires n + 1 <= |s| && s[n] == 0
    requires FramesAt(LRU, s, 3, n) == [0, 1, 2] && FaultsAt(LRU, s, 3, n) == 4
    ensures FramesAt(LRU, s, 3, n + 1) == [1, 2, 0] && FaultsAt(LRU, s, 3, n + 1) == 4
  {
    QueueStepFrom(LRU, s, 3, n, [0, 1, 2], 4, 0);
  }

  lemma LruTextbookFrom5(s: seq<int>, n: nat)
    requires n + 1 <= |s| && s[n] == 3
    requires FramesAt(LRU, s, 3, n) == [1, 2, 0] && FaultsAt(LRU, s, 3, n) == 4
    ensures FramesAt(LRU, s, 3, n + 1) == [2, 0, 3] && FaultsAt(LRU, s, 3, n + 1) == 5
  {
    QueueStepFrom(LRU, s, 3, n, [1, 2, 0], 4, 3);
  }

  lemma LruTextbookFrom6(s: seq<int>, n: nat)
    requires n + 1 <= |s| && s[n] == 0
    requires FramesAt(LRU, s, 3, n) == [2, 0, 3] && FaultsAt(LRU, s, 3, n) == 5
    ensures FramesAt(LRU, s, 3, n + 1) == [2, 3, 0] && FaultsAt(LRU, s, 3, n + 1) == 5
  {
    QueueStepFrom(LRU, s, 3, n, [2, 0, 3], 5, 0);
  }

  lemma LruTextbookFrom7(s: seq<int>, n: nat)
    requires n + 1 <= |s| && s[n] == 4
    requires FramesAt(LRU, s, 3, n) == [2, 3, 0] && FaultsAt(LRU, s, 3, n) == 5
    ensures FramesAt(LRU, s, 3, n + 1) == [3, 0, 4] && FaultsAt(LRU, s, 3, n + 1) == 6
  {
    QueueStepFrom(LRU, s, 3, n, [2, 3, 0], 5, 4);
  }

  lemma LruTextbookFrom8(s: seq<int>, n: nat)
    requires n + 1 <= |s| && s[n] == 2
    requires FramesAt(LRU, s, 3, n) == [3, 0, 4] && FaultsAt(LRU, s, 3, n) == 6
    ensures FramesAt(LRU, s, 3, n + 1) == [0, 4, 2] && FaultsAt(LRU, s, 3, n + 1) == 7
  {
    QueueStepFrom(LRU, s, 3, n, [3, 0, 4], 6, 2);
  }

  lemma LruTextbookFrom9(s: seq<int>, n: nat)
    requires n + 1 <= |s| && s[n] == 3
    requires FramesAt(LRU, s, 3, n) == [0, 4, 2] && FaultsAt(LRU, s, 3, n) == 7
    ensures FramesAt(LRU, s, 3, n + 1) == [4, 2, 3] && FaultsAt(LRU, s, 3, n + 1) == 8
  {
    QueueStepFrom(LRU, s, 3, n, [0, 4, 2], 7, 3);
  }

  lemma LruTextbookFrom10(s: seq<int>, n: nat)
    requires n + 1 <= |s| && s[n] == 0
    requires FramesAt(LRU, s, 3, n) == [4, 2, 3] && FaultsAt(LRU, s, 3, n) == 8
    ensures FramesAt(LRU, s, 3, n + 1) == [2, 3, 0] && FaultsAt(LRU, s, 3, n + 1) == 9
  {
    QueueStepFrom(LRU, s, 3, n, [4, 2, 3], 8, 0);
  }

  lemma LruTextbookFrom11(s: seq<int>, n: nat)
    requires n + 1 <= |s| && s[n] == 3
    requires FramesAt(LRU, s, 3, n) == [2, 3, 0] && FaultsAt(LRU, s, 3, n) == 9
    ensures FramesAt(LRU, s, 3, n + 1) == [2, 0, 3] && FaultsAt(LRU, s, 3, n + 1) == 9
  {
    QueueStepFrom(LRU, s, 3, n, [2, 3, 0], 9, 3);
  }

  lemma LruTextbookFrom12(s: seq<int>, n: nat)
    requires n + 1 <= |s| && s[n] == 2
    requires FramesAt(LRU, s, 3, n) == [2, 0, 3] && FaultsAt(LRU, s, 3, n) == 9
    ensures FramesAt(LRU, s, 3, n + 1) == [0, 3, 2] && FaultsAt(LRU, s, 3, n + 1) == 9
  {
    QueueStepFrom(LRU, s, 3, n, [2, 0, 3], 9, 2);
  }

  lemma LruTextbookFrom13(s: seq<int>, n: nat)
    requires n + 1 <= |s| && s[n] == 1
    requires FramesAt(LRU, s, 3, n) == [0, 3, 2] && FaultsAt(LRU, s, 3, n) == 9
    ensures FramesAt(LRU, s, 3, n + 1) == [3, 2, 1] && FaultsAt(LRU, s, 3, n + 1) == 10
  {
    QueueStepFrom(LRU, s, 3, n, [0, 3, 2], 9, 1);
  }

  lemma LruTextbookFrom14(s: seq<int>, n: nat)
    requires n + 1 <= |s| && s[n] == 2
    requires FramesAt(LRU, s, 3, n) == [3, 2, 1] && FaultsAt(LRU, s, 3, n) == 10
    ensures FramesAt(LRU, s, 3, n + 1) == [3, 1, 2] && FaultsAt(LRU, s, 3, n + 1) == 10
  {
    QueueStepFrom(LRU, s, 3, n, [3, 2, 1], 10, 2);
  }

  lemma LruTextbookFrom15(s: seq<int>, n: nat)
    requires n + 1 <= |s| && s[n] == 0
    requires FramesAt(LRU, s, 3, n) == [3, 1, 2] && FaultsAt(LRU, s, 3, n) == 10
    ensures FramesAt(LRU, s, 3, n + 1) == [1, 2, 0] && FaultsAt(LRU, s, 3, n + 1) == 11
  {
    QueueStepFrom(LRU, s, 3, n, [3, 1, 2], 10, 0);
  }

  lemma LruTextbookFrom16(s: seq<int>, n: nat)
    requires n + 1 <= |s| && s[n] == 1
    requires FramesAt(LRU, s, 3, n) == [1, 2, 0] && FaultsAt(LRU, s, 3, n) == 11
    ensures FramesAt(LRU, s, 3, n + 1) == [2, 0, 1] && FaultsAt(LRU, s, 3, n + 1) == 11
  {
    QueueStepFrom(LRU, s, 3, n, [1, 2, 0], 11, 1);
  }

  lemma LruTextbookFrom17(s: seq<int>, n: nat)
    requires n + 1 <= |s| && s[n] == 7
    requires FramesAt(LRU, s, 3, n) == [2, 0, 1] && FaultsAt(LRU, s, 3, n) == 11
    ensures FramesAt(LRU, s, 3, n + 1) == [0, 1, 7] && FaultsAt(LRU, s, 3, n + 1) == 12
  {
    QueueStepFrom(LRU, s, 3, n, [2, 0, 1], 11, 7);
  }

  lemma LruTextbookFrom18(s: seq<int>, n: nat)
    requires n + 1 <= |s| && s[n] == 0
    requires FramesAt(LRU, s, 3, n) == [0, 1, 7] && FaultsAt(LRU, s, 3, n) == 12
    ensures FramesAt(LRU, s, 3, n + 1) == [1, 7, 0] && FaultsAt(LRU, s, 3, n + 1) == 12
  {
    QueueStepFrom(LRU, s, 3, n, [0, 1, 7], 12, 0);
  }

  lemma LruTextbookFrom19(s: seq<int>, n: nat)
    requires n + 1 <= |s| && s[n] == 1
    requires FramesAt(LRU, s, 3, n) == [1, 7, 0] && FaultsAt(LRU, s, 3, n) == 12
    ensures FramesAt(LRU, s, 3, n + 1) == [7, 0, 1] && FaultsAt(LRU, s, 3, n + 1) == 12
  {
    QueueStepFrom(LRU, s, 3, n, [1, 7, 0], 12, 1);
  }

  /** The textbook string, entry by entry. */
  lemma TextbookEntries(s: seq<int>)
    requires s == TextbookString
    ensures |s| == 20 && s[0] == 7 && s[1] == 0 && s[2] == 1 && s[3] == 2 && s[4] == 0 && s[5] == 3 && s[6] == 0 && s[7] == 4 && s[8] == 2 && s[9] == 3 && s[10] == 0 && s[11] == 3 && s[12] == 2 && s[13] == 1 && s[14] == 2 && s[15] == 0 && s[16] == 1 && s[17] == 7 && s[18] == 0 && s[19] == 1
  {
  }

  /** Any string with the textbook entries: twelve LRU faults with three frames. */
  lemma LruTextbookRun(s: seq<int>)
    requires |s| == 20 && s[0] == 7 && s[1] == 0 && s[2] == 1 && s[3] == 2 && s[4] == 0 && s[5] == 3 && s[6] == 0 && s[7] == 4 && s[8] == 2 && s[9] == 3 && s[10] == 0 && s[11] == 3 && s[12] == 2 && s[13] == 1 && s[14] == 2 && s[15] == 0 && s[16] == 1 && s[17] == 7 && s[18] == 0 && s[19] == 1
    ensures TotalFaults(LRU, s, 3) == 12
  {
    var n := 0;
    LruTextbookFrom0(s, n);
    n := n + 1;
    LruTextbookFrom1(s, n);
    n := n + 1;
    LruTextbookFrom2(s, n);
    n := n + 1;
    LruTextbookFrom3(s, n);
    n := n + 1;
    LruTextbookFrom4(s, n);
    n := n + 1;
    LruTextbookFrom5(s, n);
    n := n + 1;
    LruTextbookFrom6(s, n);
    n := n + 1;
    LruTextbookFrom7(s, n);
    n := n + 1;
    LruTextbookFrom8(s, n);
    n := n + 1;
    LruTextbookFrom9(s, n);
    n := n + 1;
    LruTextbookFrom10(s, n);
    n := n + 1;
    LruTextbookFrom11(s, n);
    n := n + 1;
    LruTextbookFrom12(s, n);
    n := n + 1;
    LruTextbookFrom13(s, n);
    n := n + 1;
    LruTextbookFrom14(s, n);
    n := n + 1;
    LruTextbookFrom15(s, n);
    n := n + 1;
    LruTextbookFrom16(s, n);
    n := n + 1;
    LruTextbookFrom17(s, n);
    n := n + 1;
    LruTextbookFrom18(s, n);
    n := n + 1;
    LruTextbookFrom19(s, n);
  }

  /** The textbook LRU run: twelve faults with three frames. */
  lemma LruTextbook(s: seq<int>)
    requires s == TextbookString
    ensures TotalFaults(LRU, s, 3) == 12
  {
    TextbookEntries(s);
    LruTextbookRun(s);
  }
}
