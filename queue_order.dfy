/**
 * FIFO and LRU keep their resident pages as a queue and evict its head; they
 * differ only in which references move a page to the back. Under LRU every
 * reference does; under FIFO only a faulting one (the load). This module gives
 * each resident page the position of the last reference that moved it (its
 * stamp) and proves that the queue is ordered by stamp, so that the evicted
 * head is the least recently used page (LRU) or the earliest loaded (FIFO).
 */
module QueueOrder {
  import opened Common
  import opened Lists
  import opened Replacement

  /** Whether reference `k` moves its page to the back of the queue. */
  predicate Refreshes(p: Policy, pages: seq<int>, cap: nat, k: nat)
    requires cap >= 1 && k < |pages|
  {
    p == LRU || IsMissAt(p, pages, cap, k)
  }

  /** The position of the last reference among the first `n` that moved `x` to the back, or -1. */
  function Stamp(p: Policy, pages: seq<int>, cap: nat, n: nat, x: int): (t: int)
    requires cap >= 1 && n <= |pages|
    ensures -1 <= t < n
    ensures t >= 0 ==> pages[t] == x
  {
    if n == 0 then -1
    else if pages[n - 1] == x && Refreshes(p, pages, cap, n - 1) then n - 1
    else Stamp(p, pages, cap, n - 1, x)
  }

  /** The position of the last reference to `x` among the first `n`, or -1. */
  function LastUse(pages: seq<int>, n: nat, x: int): (t: int)
    requires n <= |pages|
    ensures -1 <= t < n
    ensures t >= 0 ==> pages[t] == x
    ensures forall k :: t < k < n ==> pages[k] != x
  {
    if n == 0 then -1
    else if pages[n - 1] == x then n - 1
    else LastUse(pages, n - 1, x)
  }

  /** Under LRU the stamp of a page is its last use, whatever the capacity. */
  lemma {:induction false} LruStampIsLastUse(pages: seq<int>, cap: nat, n: nat, x: int)
    requires cap >= 1 && n <= |pages|
    ensures Stamp(LRU, pages, cap, n, x) == LastUse(pages, n, x)
  {
    if n > 0 {
      LruStampIsLastUse(pages, cap, n - 1, x);
    }
  }

  /**
   * `F` is a queue in stamp order: each page in it has a stamp, stamps increase
   * from head to back, and every page of `seen` that is not in `F` was stamped
   * before the head.
   */
  ghost predicate OrderedBy(F: seq<int>, seen: set<int>, st: int -> int)
  {
    && (forall j :: 0 <= j < |F| ==> 0 <= st(F[j]))
    && (forall j, k :: 0 <= j < k < |F| ==> st(F[j]) < st(F[k]))
    && (forall x :: x in seen && x !in F ==> F != [] && st(x) < st(F[0]))
  }

  /**
   * The queue discipline of FIFO and LRU after the first `n` references: the
   * resident list is ordered by stamp, and every referenced page that is no
   * longer resident was moved to the back before the head was.
   */
  ghost predicate QueueOrdered(p: Policy, pages: seq<int>, cap: nat, n: nat)
    requires cap >= 1 && n <= |pages|
  {
    OrderedBy(FramesAt(p, pages, cap, n), Elems(pages[..n]), Stamps(p, pages, cap, n))
  }

  /** The stamps after the first `n` references, as a function of the page. */
  function Stamps(p: Policy, pages: seq<int>, cap: nat, n: nat): int -> int
    requires cap >= 1 && n <= |pages|
  {
    x => Stamp(p, pages, cap, n, x)
  }

  /** FIFO and LRU keep their queue discipline after every prefix of the reference string. */
  lemma {:induction false} QueueOrderInvariant(p: Policy, pages: seq<int>, cap: nat, n: nat)
    requires cap >= 1 && n <= |pages| && p != Optimal
    ensures QueueOrdered(p, pages, cap, n)
  {
    if n > 0 {
      QueueOrderInvariant(p, pages, cap, n - 1);
      QueueOrderStep(p, pages, cap, n - 1);
    }
  }

  /** One reference keeps the queue discipline. */
  lemma QueueOrderStep(p: Policy, pages: seq<int>, cap: nat, m: nat)
    requires cap >= 1 && m < |pages| && p != Optimal
    requires QueueOrdered(p, pages, cap, m)
    ensures QueueOrdered(p, pages, cap, m + 1)
  {
    assert Elems(pages[..m + 1]) == Elems(pages[..m]) + {pages[m]} by {
      assert pages[..m + 1] == pages[..m] + [pages[m]];
    }
    if pages[m] in FramesAt(p, pages, cap, m) && p == FIFO {
      FifoHitOrder(pages, cap, m);
    } else {
      MovedOrder(p, pages, cap, m);
    }
  }

  /** A FIFO hit changes neither the queue nor a stamp. */
  lemma FifoHitOrder(pages: seq<int>, cap: nat, m: nat)
    requires cap >= 1 && m < |pages| && pages[m] in FramesAt(FIFO, pages, cap, m)
    requires QueueOrdered(FIFO, pages, cap, m)
    requires Elems(pages[..m + 1]) == Elems(pages[..m]) + {pages[m]}
    ensures QueueOrdered(FIFO, pages, cap, m + 1)
  {
    var F := FramesAt(FIFO, pages, cap, m);
    assert FramesAt(FIFO, pages, cap, m + 1) == F;
    StampsKept(pages, cap, m);
    var st, st' := Stamps(FIFO, pages, cap, m), Stamps(FIFO, pages, cap, m + 1);
    OrderedSameStamps(F, Elems(pages[..m]), pages[m], st, st');
  }

  /** A reference that moves its page to the back of the queue keeps the discipline. */
  lemma MovedOrder(p: Policy, pages: seq<int>, cap: nat, m: nat)
    requires cap >= 1 && m < |pages| && p != Optimal
    requires p == LRU || pages[m] !in FramesAt(p, pages, cap, m)
    requires QueueOrdered(p, pages, cap, m)
    requires Elems(pages[..m + 1]) == Elems(pages[..m]) + {pages[m]}
    ensures QueueOrdered(p, pages, cap, m + 1)
  {
    FramesAtResident(p, pages, cap, m);
    var F, page := FramesAt(p, pages, cap, m), pages[m];
    var st, st' := Stamps(p, pages, cap, m), Stamps(p, pages, cap, m + 1);
    var seen := Elems(pages[..m]);
    StampsMoved(p, pages, cap, m);
    if page in F {
      assert FramesAt(p, pages, cap, m + 1) == RemoveFirst(F, page) + [page];
      OrderedMoveBack(F, seen, st, st', page, m);
    } else if |F| < cap {
      assert FramesAt(p, pages, cap, m + 1) == F + [page];
      OrderedAppend(F, seen, st, st', page, m);
    } else {
      assert FramesAt(p, pages, cap, m + 1) == F[1..] + [page];
      OrderedDropHead(F, seen, st, st', page, m);
    }
  }

  /** Stamps that agree everywhere give the same order; the page referenced was already resident. */
  lemma OrderedSameStamps(F: seq<int>, seen: set<int>, page: int, st: int -> int, st': int -> int)
    requires OrderedBy(F, seen, st) && page in F
    requires forall x :: st'(x) == st(x)
    ensures OrderedBy(F, seen + {page}, st')
  {
    forall j | 0 <= j < |F| ensures st'(F[j]) == st(F[j]) {
      var x := F[j];
      assert st'(x) == st(x);
    }
    forall x | x in seen + {page} && x !in F ensures F != [] && st'(x) < st'(F[0]) {
      assert st'(x) == st(x) && st'(F[0]) == st(F[0]);
    }
  }

  /** A FIFO hit moves no page: every stamp stays. */
  lemma StampsKept(pages: seq<int>, cap: nat, m: nat)
    requires cap >= 1 && m < |pages| && pages[m] in FramesAt(FIFO, pages, cap, m)
    ensures forall x :: Stamps(FIFO, pages, cap, m + 1)(x) == Stamps(FIFO, pages, cap, m)(x)
  {
    forall x ensures Stamp(FIFO, pages, cap, m + 1, x) == Stamp(FIFO, pages, cap, m, x) {
      StampStep(FIFO, pages, cap, m, x);
    }
  }

  /** An LRU reference, or a fault under either policy, gives its page the newest stamp. */
  lemma StampsMoved(p: Policy, pages: seq<int>, cap: nat, m: nat)
    requires cap >= 1 && m < |pages|
    requires p == LRU || pages[m] !in FramesAt(p, pages, cap, m)
    ensures forall x :: Stamps(p, pages, cap, m)(x) < m
    ensures forall x :: Stamps(p, pages, cap, m + 1)(x) == if x == pages[m] then m else Stamps(p, pages, cap, m)(x)
  {
    forall x ensures Stamp(p, pages, cap, m + 1, x) == if x == pages[m] then m else Stamp(p, pages, cap, m, x) {
      StampStep(p, pages, cap, m, x);
    }
  }

  /** A stamp changes only for the page referenced, and only when the reference moves it. */
  lemma StampStep(p: Policy, pages: seq<int>, cap: nat, n: nat, x: int)
    requires cap >= 1 && n < |pages|
    ensures Stamp(p, pages, cap, n + 1, x) ==
      if pages[n] == x && Refreshes(p, pages, cap, n) then n else Stamp(p, pages, cap, n, x)
  {
  }

  /** Moving a resident page to the back with the newest stamp keeps the order (an LRU hit). */
  lemma OrderedMoveBack(F: seq<int>, seen: set<int>, st: int -> int, st': int -> int, page: int, n: int)
    requires OrderedBy(F, seen, st) && NoDup(F) && page in F
    requires 0 <= n && forall x :: st(x) < n
    requires forall x :: st'(x) == if x == page then n else st(x)
    ensures OrderedBy(RemoveFirst(F, page) + [page], seen + {page}, st')
  {
    var s := RemoveFirst(F, page);
    RemoveFirstNoDup(F, page);
    RemoveFirstSpec(F, page);
    var k := IndexOf(F, page);
    var F' := s + [page];
    forall j | 0 <= j < |s| ensures s[j] == F[if j < k then j else j + 1] && s[j] != page {
    }
    assert forall x :: x in F' <==> x in F;
    if k == 0 && |F| > 1 {
      assert F'[0] == F[1];
    }
  }

  /** Appending a new page with the newest stamp keeps the order (a fault with room to spare). */
  lemma OrderedAppend(F: seq<int>, seen: set<int>, st: int -> int, st': int -> int, page: int, n: int)
    requires OrderedBy(F, seen, st) && page !in F
    requires 0 <= n && forall x :: st(x) < n
    requires forall x :: st'(x) == if x == page then n else st(x)
    ensures OrderedBy(F + [page], seen + {page}, st')
  {
    var F' := F + [page];
    forall j | 0 <= j < |F|
      ensures F'[j] == F[j] && F[j] != page && st'(F[j]) == st(F[j])
    {
      assert F[j] in F;
    }
    if F != [] {
      assert F'[0] == F[0];
    }
  }

  /** Dropping the head and appending a new page with the newest stamp keeps the order (a fault on full frames). */
  lemma OrderedDropHead(F: seq<int>, seen: set<int>, st: int -> int, st': int -> int, page: int, n: int)
    requires OrderedBy(F, seen, st) && NoDup(F) && F != [] && page !in F
    requires 0 <= n && forall x :: st(x) < n
    requires forall x :: st'(x) == if x == page then n else st(x)
    ensures OrderedBy(F[1..] + [page], seen + {page}, st')
  {
    var F' := F[1..] + [page];
    assert forall x :: x in F' <==> x == page || (x in F && x != F[0]);
    if |F| > 1 {
      assert F'[0] == F[1];
    }
  }

  /**
   * The head that FIFO and LRU evict on a fault with full frames is the
   * resident page moved to the back longest ago: the least recently used page
   * under LRU, the earliest loaded under FIFO.
   */
  lemma VictimIsOldest(p: Policy, pages: seq<int>, cap: nat, n: nat)
    requires cap >= 1 && n < |pages| && p != Optimal
    requires IsMissAt(p, pages, cap, n) && |FramesAt(p, pages, cap, n)| == cap
    ensures var F := FramesAt(p, pages, cap, n);
      && Evicted(p, F, pages, n, cap) == Some(F[0])
      && forall x :: x in F && x != F[0] ==> Stamp(p, pages, cap, n, F[0]) < Stamp(p, pages, cap, n, x)
  {
    QueueOrderInvariant(p, pages, cap, n);
  }

  /** Under LRU the page just referenced is the most recently used: the last in the list. */
  lemma LruRequestedIsLast(pages: seq<int>, cap: nat, n: nat)
    requires cap >= 1 && 0 < n <= |pages|
    ensures var F := FramesAt(LRU, pages, cap, n);
      F != [] && F[|F| - 1] == pages[n - 1]
  {
  }

  /**
   * The head LRU evicts is the resident page whose last reference is the
   * earliest: every other resident page was referenced after it.
   */
  lemma LruVictimLeastRecent(pages: seq<int>, cap: nat, n: nat)
    requires cap >= 1 && n < |pages|
    requires IsMissAt(LRU, pages, cap, n) && |FramesAt(LRU, pages, cap, n)| == cap
    ensures var F := FramesAt(LRU, pages, cap, n);
      forall x :: x in F && x != F[0] ==> LastUse(pages, n, F[0]) < LastUse(pages, n, x)
  {
    var F := FramesAt(LRU, pages, cap, n);
    VictimIsOldest(LRU, pages, cap, n);
    forall x | x in F && x != F[0] ensures LastUse(pages, n, F[0]) < LastUse(pages, n, x) {
      LruStampIsLastUse(pages, cap, n, x);
      LruStampIsLastUse(pages, cap, n, F[0]);
    }
  }

  /**
   * LRU's inclusion property: the pages resident with `cap` frames are also
   * resident with one frame more, after every prefix of the reference string.
   */
  lemma LruInclusion(pages: seq<int>, cap: nat, n: nat)
    requires cap >= 1 && n <= |pages|
    ensures Elems(FramesAt(LRU, pages, cap, n)) <= Elems(FramesAt(LRU, pages, cap + 1, n))
  {
    forall x | x in FramesAt(LRU, pages, cap, n) ensures x in FramesAt(LRU, pages, cap + 1, n) {
      LruStaysResident(pages, cap, n, x);
    }
  }

  lemma LruStaysResident(pages: seq<int>, cap: nat, n: nat, x: int)
    requires cap >= 1 && n <= |pages| && x in FramesAt(LRU, pages, cap, n)
    ensures x in FramesAt(LRU, pages, cap + 1, n)
  {
    if x !in FramesAt(LRU, pages, cap + 1, n) {
      // The larger memory is then full, so it holds a page y missing from the smaller one:
      // y was used after x (the larger memory keeps y, not x) and before x (the smaller
      // memory keeps x, not y).
      var y := ResidentOnlyInLarger(pages, cap, n, x);
      var ux, uy := LastUse(pages, n, x), LastUse(pages, n, y);
      LruEvictedOlder(pages, cap + 1, cap, n, y, x);
      assert ux < uy;
      LruEvictedOlder(pages, cap, cap + 1, n, x, y);
      assert false;
    }
  }

  /**
   * A page resident with `cap` frames but not with `cap + 1` leaves the larger
   * memory full, so that it holds some page the smaller one does not.
   */
  lemma ResidentOnlyInLarger(pages: seq<int>, cap: nat, n: nat, x: int) returns (y: int)
    requires cap >= 1 && n <= |pages|
    requires x in FramesAt(LRU, pages, cap, n) && x !in FramesAt(LRU, pages, cap + 1, n)
    ensures y in FramesAt(LRU, pages, cap + 1, n) && y !in FramesAt(LRU, pages, cap, n)
  {
    var A, B := FramesAt(LRU, pages, cap, n), FramesAt(LRU, pages, cap + 1, n);
    FramesAtResident(LRU, pages, cap, n);
    FramesAtResident(LRU, pages, cap + 1, n);
    SubsetCard(Elems(B) + {x}, Elems(pages[..n]));
    NoDupCard(B);
    y := OutsideOf(B, A);
  }

  /**
   * Under LRU, a page that was resident in some memory (so it was referenced) and is not
   * resident now was used before every resident page.
   */
  lemma LruEvictedOlder(pages: seq<int>, cap: nat, other: nat, n: nat, x: int, y: int)
    requires cap >= 1 && other >= 1 && n <= |pages|
    requires x in FramesAt(LRU, pages, cap, n)
    requires y in FramesAt(LRU, pages, other, n) && y !in FramesAt(LRU, pages, cap, n)
    ensures LastUse(pages, n, y) < LastUse(pages, n, x)
  {
    FramesAtResident(LRU, pages, other, n);
    assert y in Elems(pages[..n]);
    QueueOrderInvariant(LRU, pages, cap, n);
    OrderedEvictedOlder(FramesAt(LRU, pages, cap, n), Elems(pages[..n]), Stamps(LRU, pages, cap, n), x, y);
    LruStampIsLastUse(pages, cap, n, x);
    LruStampIsLastUse(pages, cap, n, y);
  }

  /** In a queue in stamp order, a page that left it was stamped before every page in it. */
  lemma OrderedEvictedOlder(F: seq<int>, seen: set<int>, st: int -> int, x: int, y: int)
    requires OrderedBy(F, seen, st) && x in F && y in seen && y !in F
    ensures st(y) < st(x)
  {
    var j :| 0 <= j < |F| && F[j] == x;
    if j > 0 {
      assert st(F[0]) < st(F[j]);
    }
  }

  /** A list without duplicates longer than another list has an element outside it. */
  lemma OutsideOf(big: seq<int>, small: seq<int>) returns (y: int)
    requires NoDup(big) && NoDup(small) && |small| < |big|
    ensures y in big && y !in small
  {
    NoDupCard(big);
    NoDupCard(small);
    if Elems(big) <= Elems(small) {
      SubsetCard(Elems(big), Elems(small));
      assert false;
    }
    y := Member(Elems(big) - Elems(small));
  }

  /** LRU never shows Belady's anomaly: one frame more never costs a fault. */
  lemma {:induction false} LruFaultsMonotone(pages: seq<int>, cap: nat, n: nat)
    requires cap >= 1 && n <= |pages|
    ensures FaultsAt(LRU, pages, cap + 1, n) <= FaultsAt(LRU, pages, cap, n)
  {
    if n > 0 {
      LruFaultsMonotone(pages, cap, n - 1);
      LruStepMonotone(pages, cap, n - 1);
    }
  }

  /** One reference adds no more to the count with `cap + 1` LRU frames than with `cap`. */
  lemma LruStepMonotone(pages: seq<int>, cap: nat, i: nat)
    requires cap >= 1 && i < |pages|
    ensures FaultsAt(LRU, pages, cap + 1, i + 1) - FaultsAt(LRU, pages, cap + 1, i)
         <= FaultsAt(LRU, pages, cap, i + 1) - FaultsAt(LRU, pages, cap, i)
  {
    LruMissMonotone(pages, cap, i);
    FaultsAtStep(LRU, pages, cap, i);
    FaultsAtStep(LRU, pages, cap + 1, i);
  }

  /** A reference that misses with `cap + 1` LRU frames also misses with `cap`. */
  lemma LruMissMonotone(pages: seq<int>, cap: nat, i: nat)
    requires cap >= 1 && i < |pages|
    ensures IsMissAt(LRU, pages, cap + 1, i) ==> IsMissAt(LRU, pages, cap, i)
  {
    if pages[i] in FramesAt(LRU, pages, cap, i) {
      LruStaysResident(pages, cap, i, pages[i]);
    }
  }
}
