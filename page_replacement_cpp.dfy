/**
 * The command-line simulator's three algorithms. Each only counts faults. FIFO
 * keeps a queue beside a page -> present map; LRU keeps a page -> last-use map
 * and evicts the entry with the smallest index; Optimal keeps a frame vector and
 * searches the rest of the reference string by absolute position.
 *
 * The counters and indices are C++ `int`s: the model requires the reference
 * string to have at most `IntMax` entries, so that none of them overflows and
 * every last-use index is below the `INT_MAX` the LRU search starts from.
 *
 * `frames` is an `int` compared with a container's `size()`, so it is
 * converted to `size_t` first: a negative frame count becomes a bound no
 * container reaches, and the run never evicts.
 */
module PageReplacementCpp {
  import opened Common
  import opened Lists
  import opened Replacement
  import opened QueueOrder

  /** `INT_MIN` and `INT_MAX` for a 32-bit `int`. */
  const IntMin: int := -0x8000_0000
  const IntMax: int := 0x7fff_ffff

  /** One more than the largest 64-bit `size_t`. */
  const SizeTModulus: int := 0x1_0000_0000_0000_0000

  /**
   * The `size_t` an `int` frame count becomes when compared with a size: the
   * value below 2^64 that agrees with it modulo 2^64, so a negative count
   * wraps past every size a reference string of at most `IntMax` pages reaches.
   */
  function SizeT(frames: int): (c: nat)
    requires IntMin <= frames <= IntMax
    ensures c < SizeTModulus
    ensures frames >= 0 ==> c == frames
    ensures frames < 0 ==> c > IntMax
  {
    if frames >= 0 then frames else frames + SizeTModulus
  }

  // ---------------------------------------------------------------------------
  // FIFO
  // ---------------------------------------------------------------------------

  method Fifo(pages: seq<int>, frames: int) returns (pageFaults: nat)
    requires frames != 0 && IntMin <= frames <= IntMax && |pages| <= IntMax
    ensures pageFaults == TotalFaults(FIFO, pages, SizeT(frames))
    ensures frames < 0 ==> pageFaults == |Elems(pages)|
    ensures pageFaults <= IntMax
  {
    // `frames` as the `size_t` the size comparisons convert it to.
    var bound := SizeT(frames);
    var frameQueue: seq<int> := [];
    var pageMap: map<int, bool> := map[];
    pageFaults := 0;
    for i := 0 to |pages|
      invariant frameQueue == FramesAt(FIFO, pages, bound, i)
      invariant forall x :: (x in pageMap && pageMap[x]) <==> x in frameQueue
      invariant pageFaults == FaultsAt(FIFO, pages, bound, i)
    {
      FramesAtResident(FIFO, pages, bound, i);
      var page := pages[i];
      // `pageMap[page]` inserts `false` for a page it has not seen.
      if page !in pageMap {
        pageMap := pageMap[page := false];
      }
      if !pageMap[page] {
        if |frameQueue| >= bound {
          var oldest := frameQueue[0];
          frameQueue := frameQueue[1..];
          pageMap := pageMap - {oldest};
        }
        frameQueue := frameQueue + [page];
        pageMap := pageMap[page := true];
        pageFaults := pageFaults + 1;
      }
    }
    if frames < 0 {
      NoEvictionFaults(FIFO, pages, bound);
    }
  }

  // ---------------------------------------------------------------------------
  // LRU
  // ---------------------------------------------------------------------------

  /**
   * The search for the victim: walks the map in whatever order it yields its
   * entries, keeping the entry with the smallest index seen so far, starting
   * from `INT_MAX`.
   */
  method LeastRecentlyUsed(pageMap: map<int, int>) returns (pageToRemove: int)
    requires |pageMap| >= 1
    requires forall x :: x in pageMap ==> pageMap[x] < IntMax
    ensures pageToRemove in pageMap
    ensures forall x :: x in pageMap ==> pageMap[pageToRemove] <= pageMap[x]
  {
    var lru := IntMax;
    pageToRemove := 0;
    var rest := pageMap.Keys;
    while rest != {}
      invariant rest <= pageMap.Keys
      invariant lru == IntMax <==> rest == pageMap.Keys
      invariant lru < IntMax ==> pageToRemove in pageMap && pageMap[pageToRemove] == lru
      invariant forall x :: x in pageMap && x !in rest ==> lru <= pageMap[x]
      decreases |rest|
    {
      // The witness lets the solver see that the `:|` below can pick an entry.
      ghost var w := Member(rest);
      var p :| p in rest;
      if pageMap[p] < lru {
        lru := pageMap[p];
        pageToRemove := p;
      }
      rest := rest - {p};
    }
    // A witness that the map is not empty: the loop took an entry, so `lru < IntMax`.
    ghost var w := Member(pageMap.Keys);
  }

  /**
   * The map holds exactly LRU's resident pages after the first `n` references,
   * each with the index of its last reference.
   */
  ghost predicate LastUseMap(m: map<int, int>, pages: seq<int>, cap: nat, n: nat)
    requires cap >= 1 && n <= |pages|
  {
    && m.Keys == Elems(FramesAt(LRU, pages, cap, n))
    && forall x :: x in m ==> m[x] == LastUse(pages, n, x)
  }

  /**
   * On a fault with a full map, the entry with the smallest index is the head
   * of LRU's queue, the page the shared model evicts.
   */
  lemma SmallestIndexIsVictim(m: map<int, int>, pages: seq<int>, cap: nat, n: nat, v: int)
    requires cap >= 1 && n < |pages| && LastUseMap(m, pages, cap, n)
    requires pages[n] !in m && |m| >= cap
    requires v in m && forall x :: x in m ==> m[v] <= m[x]
    ensures var F := FramesAt(LRU, pages, cap, n);
      |F| == cap && v == F[0] && Evicted(LRU, F, pages, n, cap) == Some(v)
  {
    var F := FramesAt(LRU, pages, cap, n);
    FramesAtResident(LRU, pages, cap, n);
    NoDupCard(F);
    assert |m| == |m.Keys|;
    LruVictimLeastRecent(pages, cap, n);
    assert F[0] in m;
  }

  /**
   * The map answers the questions the loop asks as the resident list would: is
   * the page resident, how many pages are, and every index is an earlier one.
   */
  lemma LastUseMapFacts(m: map<int, int>, pages: seq<int>, cap: nat, n: nat)
    requires cap >= 1 && n < |pages| && LastUseMap(m, pages, cap, n)
    ensures var F := FramesAt(LRU, pages, cap, n);
      && (pages[n] in m <==> pages[n] in F)
      && |m| == |F| <= cap
      && (forall x :: x in m ==> m[x] < n)
  {
    var F := FramesAt(LRU, pages, cap, n);
    FramesAtResident(LRU, pages, cap, n);
    NoDupCard(F);
    assert |m| == |m.Keys|;
  }

  /** Recording reference `n` after removing the evicted page, if any, keeps the map exact. */
  lemma LastUseMapStep(m: map<int, int>, pages: seq<int>, cap: nat, n: nat)
    requires cap >= 1 && n < |pages| && LastUseMap(m, pages, cap, n)
    ensures var e := Evicted(LRU, FramesAt(LRU, pages, cap, n), pages, n, cap);
      var m' := if e.Some? then m - {e.value} else m;
      LastUseMap(m'[pages[n] := n], pages, cap, n + 1)
  {
    var F := FramesAt(LRU, pages, cap, n);
    FramesAtResident(LRU, pages, cap, n);
    NextResident(LRU, F, pages, n, cap);
  }

  /** A hit: recording the new index keeps the map exact, and the reference does not fault. */
  lemma LastUseMapHit(m: map<int, int>, pages: seq<int>, cap: nat, n: nat)
    requires cap >= 1 && n < |pages| && LastUseMap(m, pages, cap, n) && pages[n] in m
    ensures LastUseMap(m[pages[n] := n], pages, cap, n + 1)
    ensures FaultsAt(LRU, pages, cap, n + 1) == FaultsAt(LRU, pages, cap, n)
  {
    LastUseMapFacts(m, pages, cap, n);
    LastUseMapStep(m, pages, cap, n);
    FaultsAtStep(LRU, pages, cap, n);
  }

  /** A fault with room to spare: recording the page keeps the map exact, and the count goes up. */
  lemma LastUseMapInsert(m: map<int, int>, pages: seq<int>, cap: nat, n: nat)
    requires cap >= 1 && n < |pages| && LastUseMap(m, pages, cap, n)
    requires pages[n] !in m && |m| < cap
    ensures LastUseMap(m[pages[n] := n], pages, cap, n + 1)
    ensures FaultsAt(LRU, pages, cap, n + 1) == FaultsAt(LRU, pages, cap, n) + 1
  {
    LastUseMapFacts(m, pages, cap, n);
    LastUseMapStep(m, pages, cap, n);
    FaultsAtStep(LRU, pages, cap, n);
  }

  /**
   * A fault with every frame in use: dropping the entry with the smallest index
   * and recording the page keeps the map exact, and the count goes up.
   */
  lemma LastUseMapEvict(m: map<int, int>, pages: seq<int>, cap: nat, n: nat, v: int)
    requires cap >= 1 && n < |pages| && LastUseMap(m, pages, cap, n)
    requires pages[n] !in m && |m| >= cap
    requires v in m && forall x :: x in m ==> m[v] <= m[x]
    ensures LastUseMap((m - {v})[pages[n] := n], pages, cap, n + 1)
    ensures FaultsAt(LRU, pages, cap, n + 1) == FaultsAt(LRU, pages, cap, n) + 1
  {
    LastUseMapFacts(m, pages, cap, n);
    LastUseMapStep(m, pages, cap, n);
    SmallestIndexIsVictim(m, pages, cap, n, v);
    FaultsAtStep(LRU, pages, cap, n);
  }

  method Lru(pages: seq<int>, frames: int) returns (pageFaults: nat)
    requires frames != 0 && IntMin <= frames <= IntMax && |pages| <= IntMax
    ensures pageFaults == TotalFaults(LRU, pages, SizeT(frames))
    ensures frames < 0 ==> pageFaults == |Elems(pages)|
    ensures pageFaults <= IntMax
  {
    // `frames` as the `size_t` the size comparisons convert it to.
    var bound := SizeT(frames);
    var pageMap: map<int, int> := map[];
    pageFaults := 0;
    for i := 0 to |pages|
      invariant LastUseMap(pageMap, pages, bound, i)
      invariant pageFaults == FaultsAt(LRU, pages, bound, i)
    {
      if pages[i] !in pageMap {
        if |pageMap| >= bound {
          LastUseMapFacts(pageMap, pages, bound, i);
          var pageToRemove := LeastRecentlyUsed(pageMap);
          LastUseMapEvict(pageMap, pages, bound, i, pageToRemove);
          pageMap := pageMap - {pageToRemove};
        } else {
          LastUseMapInsert(pageMap, pages, bound, i);
        }
        pageFaults := pageFaults + 1;
      } else {
        LastUseMapHit(pageMap, pages, bound, i);
      }
      pageMap := pageMap[pages[i] := i];
    }
    if frames < 0 {
      NoEvictionFaults(LRU, pages, bound);
    }
  }

  // ---------------------------------------------------------------------------
  // Optimal
  // ---------------------------------------------------------------------------

  /**
   * The position of the first reference to `x` at or after `from`, or
   * `|pages|` when there is none.
   */
  method NextReference(pages: seq<int>, from: nat, x: int) returns (k: nat)
    requires from <= |pages|
    ensures from <= k <= |pages|
    ensures k == |pages| <==> x !in pages[from..]
    ensures k < |pages| ==> k == from + IndexOf(pages[from..], x)
  {
    k := from;
    while k < |pages|
      invariant from <= k <= |pages|
      invariant forall m :: from <= m < k ==> pages[m] != x
    {
      if pages[k] == x {
        break;
      }
      k := k + 1;
    }
    if k < |pages| {
      assert pages[from..][k - from] == x;
    }
  }

  /**
   * The victim search: for each frame, scans `pages` from `i + 1` for the page's
   * next reference; stops at the first frame whose page is not referenced again,
   * and otherwise keeps the first frame with the farthest next reference.
   */
  method FarthestFrame(pages: seq<int>, i: nat, frame: seq<int>) returns (pageToReplace: nat)
    requires i < |pages| && frame != []
    ensures IsOptimalChoice(frame, pages[i + 1..], pageToReplace)
  {
    ghost var future := pages[i + 1..];
    var farthest: int := -1;
    pageToReplace := 0;
    for j := 0 to |frame|
      invariant forall m :: 0 <= m < j ==> frame[m] in future
      invariant j == 0 ==> farthest == -1 && pageToReplace == 0
      invariant j > 0 ==> pageToReplace < j && farthest == i + 1 + IndexOf(future, frame[pageToReplace])
      invariant forall m :: 0 <= m < j ==> i + 1 + IndexOf(future, frame[m]) <= farthest
      invariant forall m :: 0 <= m < pageToReplace ==> i + 1 + IndexOf(future, frame[m]) < farthest
    {
      var k := NextReference(pages, i + 1, frame[j]);
      if k == |pages| {
        pageToReplace := j;
        break;
      }
      if k > farthest {
        farthest := k;
        pageToReplace := j;
      }
    }
  }

  method Optimal(pages: seq<int>, frames: int) returns (pageFaults: nat)
    requires frames != 0 && IntMin <= frames <= IntMax && |pages| <= IntMax
    ensures pageFaults == TotalFaults(Replacement.Optimal, pages, SizeT(frames))
    ensures frames < 0 ==> pageFaults == |Elems(pages)|
    ensures pageFaults <= IntMax
  {
    // `frames` as the `size_t` the size comparisons convert it to.
    var bound := SizeT(frames);
    var frame: seq<int> := [];
    pageFaults := 0;
    for i := 0 to |pages|
      invariant frame == FramesAt(Replacement.Optimal, pages, bound, i)
      invariant pageFaults == FaultsAt(Replacement.Optimal, pages, bound, i)
    {
      if pages[i] !in frame {
        if |frame| >= bound {
          var pageToReplace := FarthestFrame(pages, i, frame);
          OptimalChoiceUnique(frame, pages[i + 1..], pageToReplace, OptimalVictim(frame, pages[i + 1..]));
          frame := frame[pageToReplace := pages[i]];
        } else {
          frame := frame + [pages[i]];
        }
        pageFaults := pageFaults + 1;
      }
    }
    if frames < 0 {
      NoEvictionFaults(Replacement.Optimal, pages, bound);
    }
  }
}
