/**
 * The replacement engine shared by the three implementations: one transition
 * per policy on the list of resident pages, and the run of a whole reference
 * string as a fold of that transition.
 *
 * The frame list is kept in the order the simulator keeps it: insertion order
 * for FIFO, recency order (least recently used first) for LRU, and slot order
 * for Optimal, whose victim's slot is overwritten in place.
 */
module Replacement {
  import opened Common
  import opened Lists

  datatype Policy = FIFO | LRU | Optimal

  /** Whether a reference found its page resident. */
  datatype Outcome = Hit | Miss

  /** At most `cap` resident pages, none of them twice. */
  predicate Resident(frames: seq<int>, cap: nat)
  {
    NoDup(frames) && |frames| <= cap
  }

  // ---------------------------------------------------------------------------
  // Optimal victim selection
  // ---------------------------------------------------------------------------

  /** The leftmost frame whose page is never referenced again in `future`. */
  function FirstAbsent(frames: seq<int>, future: seq<int>): (r: Option<nat>)
    ensures r.None? <==> forall j :: 0 <= j < |frames| ==> frames[j] in future
    ensures r.Some? ==> r.value < |frames| && frames[r.value] !in future
    ensures r.Some? ==> forall j :: 0 <= j < r.value ==> frames[j] in future
  {
    if frames == [] then None
    else if frames[0] !in future then Some(0)
    else
      match FirstAbsent(frames[1..], future)
      case None => None
      case Some(k) => Some(k + 1)
  }

  /** For each frame, how far ahead in `future` its page is next referenced. */
  function NextUses(frames: seq<int>, future: seq<int>): (d: seq<int>)
    requires forall j :: 0 <= j < |frames| ==> frames[j] in future
    ensures |d| == |frames|
    ensures forall j :: 0 <= j < |frames| ==> d[j] == IndexOf(future, frames[j])
  {
    seq(|frames|, j requires 0 <= j < |frames| => IndexOf(future, frames[j]))
  }

  /**
   * `v` is the frame the optimal policy evicts: the leftmost frame whose page
   * is never referenced again if there is one, and otherwise the leftmost
   * frame whose next reference is the farthest away.
   */
  predicate IsOptimalChoice(frames: seq<int>, future: seq<int>, v: int)
    ensures IsOptimalChoice(frames, future, v) ==>
      && 0 <= v < |frames|
      && (frames[v] in future ==> forall j :: 0 <= j < |frames| ==>
            frames[j] in future && IndexOf(future, frames[j]) <= IndexOf(future, frames[v]))
  {
    && 0 <= v < |frames|
    && if exists j :: 0 <= j < |frames| && frames[j] !in future then
         && frames[v] !in future
         && forall j :: 0 <= j < v ==> frames[j] in future
       else
         && (forall j :: 0 <= j < |frames| ==> IndexOf(future, frames[j]) <= IndexOf(future, frames[v]))
         && (forall j :: 0 <= j < v ==> IndexOf(future, frames[j]) < IndexOf(future, frames[v]))
  }

  /** The slot the optimal policy overwrites on a fault with every frame in use. */
  function OptimalVictim(frames: seq<int>, future: seq<int>): (v: nat)
    requires frames != []
    ensures IsOptimalChoice(frames, future, v)
  {
    match FirstAbsent(frames, future)
    case Some(j) => j
    case None => ArgMax(NextUses(frames, future))
  }

  /** The victim rule leaves no choice: at most one slot satisfies it. */
  lemma OptimalChoiceUnique(frames: seq<int>, future: seq<int>, v: int, w: int)
    requires IsOptimalChoice(frames, future, v) && IsOptimalChoice(frames, future, w)
    ensures v == w
  {
    if exists j :: 0 <= j < |frames| && frames[j] !in future {
      assert frames[v] !in future && frames[w] !in future;
    } else {
      assert IndexOf(future, frames[v]) <= IndexOf(future, frames[w]);
      assert IndexOf(future, frames[w]) <= IndexOf(future, frames[v]);
    }
  }

  // ---------------------------------------------------------------------------
  // One reference
  // ---------------------------------------------------------------------------

  /**
   * The resident list after the reference `pages[i]`, given the list before it.
   * A hit leaves FIFO and Optimal alone and moves the page to the back under
   * LRU; a miss appends while there is room, and otherwise FIFO and LRU drop
   * the head and append, while Optimal overwrites the victim's slot.
   */
  function Next(p: Policy, frames: seq<int>, pages: seq<int>, i: nat, cap: nat): (r: seq<int>)
    requires i < |pages| && cap >= 1
    ensures pages[i] in r
  {
    var page := pages[i];
    if page in frames then
      if p == LRU then RemoveFirst(frames, page) + [page] else frames
    else if |frames| < cap then
      frames + [page]
    else
      match p
      case FIFO => frames[1..] + [page]
      case LRU => frames[1..] + [page]
      case Optimal =>
        var v := OptimalVictim(frames, pages[i + 1..]);
        assert frames[v := page][v] == page;
        frames[v := page]
  }

  /** The page a reference evicts, if it evicts one. */
  function Evicted(p: Policy, frames: seq<int>, pages: seq<int>, i: nat, cap: nat): (e: Option<int>)
    requires i < |pages| && cap >= 1
    ensures e.Some? ==> e.value in frames && e.value != pages[i]
  {
    if pages[i] in frames || |frames| < cap then None
    else if p == Optimal then Some(frames[OptimalVictim(frames, pages[i + 1..])])
    else Some(frames[0])
  }

  /**
   * What one reference does to a valid resident list: the list stays valid and
   * holds the page; a hit keeps the same pages; a miss adds the page and loses
   * exactly the evicted page, and evicts only when the list was full.
   */
  lemma NextResident(p: Policy, frames: seq<int>, pages: seq<int>, i: nat, cap: nat)
    requires i < |pages| && cap >= 1 && Resident(frames, cap)
    ensures var r := Next(p, frames, pages, i, cap);
      && Resident(r, cap)
      && pages[i] in r
      && (pages[i] in frames ==> Elems(r) == Elems(frames) && |r| == |frames|)
      && (pages[i] !in frames && |frames| < cap ==> Elems(r) == Elems(frames) + {pages[i]} && |r| == |frames| + 1)
      && (pages[i] !in frames && |frames| == cap ==>
            var e := Evicted(p, frames, pages, i, cap);
            e.Some? && Elems(r) == Elems(frames) - {e.value} + {pages[i]} && |r| == cap)
  {
    if pages[i] in frames {
      if p == LRU {
        LruHitResident(frames, pages[i]);
      }
    } else if |frames| < cap {
      assert Elems(Next(p, frames, pages, i, cap)) == Elems(frames) + {pages[i]};
    } else if p == Optimal {
      OverwriteResident(frames, OptimalVictim(frames, pages[i + 1..]), pages[i]);
    } else {
      DropHeadResident(frames, pages[i]);
    }
  }

  /** Moving a resident page to the back keeps the same pages, without duplicates. */
  lemma LruHitResident(frames: seq<int>, page: int)
    requires NoDup(frames) && page in frames
    ensures var r := RemoveFirst(frames, page) + [page];
      NoDup(r) && Elems(r) == Elems(frames) && |r| == |frames|
  {
    var s := RemoveFirst(frames, page);
    RemoveFirstNoDup(frames, page);
    assert Elems(s + [page]) == Elems(s) + {page};
  }

  /** Overwriting slot `v` of a list without duplicates with a new page. */
  lemma OverwriteResident(frames: seq<int>, v: nat, page: int)
    requires NoDup(frames) && v < |frames| && page !in frames
    ensures var r := frames[v := page];
      NoDup(r) && Elems(r) == Elems(frames) - {frames[v]} + {page}
  {
    var r := frames[v := page];
    forall x | x in frames && x != frames[v] ensures x in r {
      var m :| 0 <= m < |frames| && frames[m] == x;
      assert r[m] == x;
    }
    forall x | x in r ensures x == page || (x in frames && x != frames[v]) {
      var m :| 0 <= m < |r| && r[m] == x;
      if m != v {
        assert frames[m] == x;
      }
    }
    assert r[v] == page;
    assert Elems(r) == Elems(frames) - {frames[v]} + {page};
  }

  /** Dropping the head of a list without duplicates and appending a new page. */
  lemma DropHeadResident(frames: seq<int>, page: int)
    requires NoDup(frames) && frames != [] && page !in frames
    ensures var r := frames[1..] + [page];
      NoDup(r) && Elems(r) == Elems(frames) - {frames[0]} + {page}
  {
    assert forall x :: x in frames[1..] <==> x in frames && x != frames[0];
    assert Elems(frames[1..] + [page]) == Elems(frames) - {frames[0]} + {page};
  }

  // ---------------------------------------------------------------------------
  // A whole reference string
  // ---------------------------------------------------------------------------

  /** The resident list after the first `n` references. */
  function FramesAt(p: Policy, pages: seq<int>, cap: nat, n: nat): (r: seq<int>)
    requires cap >= 1 && n <= |pages|
    ensures n > 0 ==> pages[n - 1] in r
    decreases n
  {
    if n == 0 then [] else Next(p, FramesAt(p, pages, cap, n - 1), pages, n - 1, cap)
  }

  /** Reference `i` faults: its page is not resident when it is made. */
  predicate IsMissAt(p: Policy, pages: seq<int>, cap: nat, i: nat)
    requires cap >= 1 && i < |pages|
  {
    pages[i] !in FramesAt(p, pages, cap, i)
  }

  /** The Hit/Miss label of reference `i`: Miss exactly when its page is not resident before it. */
  function OutcomeAt(p: Policy, pages: seq<int>, cap: nat, i: nat): Outcome
    requires cap >= 1 && i < |pages|
  {
    if IsMissAt(p, pages, cap, i) then Miss else Hit
  }

  /** The running fault count after the first `n` references. */
  function FaultsAt(p: Policy, pages: seq<int>, cap: nat, n: nat): (f: nat)
    requires cap >= 1 && n <= |pages|
  {
    if n == 0 then 0
    else FaultsAt(p, pages, cap, n - 1) + if IsMissAt(p, pages, cap, n - 1) then 1 else 0
  }

  /** The total number of faults over the whole reference string: at least one per distinct page, at most one per reference. */
  function TotalFaults(p: Policy, pages: seq<int>, cap: nat): (t: nat)
    requires cap >= 1
    ensures |Elems(pages)| <= t <= |pages|
  {
    FaultsAtBounds(p, pages, cap, |pages|);
    assert pages[..|pages|] == pages;
    FaultsAt(p, pages, cap, |pages|)
  }


  // ---------------------------------------------------------------------------
  // Properties of a run
  // ---------------------------------------------------------------------------

  /**
   * After every prefix the resident list is valid, holds only pages already
   * referenced, and holds as many pages as fit: all the distinct pages seen so
   * far until the frames fill up, and exactly `cap` from then on.
   */
  lemma {:induction false} FramesAtResident(p: Policy, pages: seq<int>, cap: nat, n: nat)
    requires cap >= 1 && n <= |pages|
    ensures var F := FramesAt(p, pages, cap, n);
      && Resident(F, cap)
      && Elems(F) <= Elems(pages[..n])
      && |F| == if |Elems(pages[..n])| < cap then |Elems(pages[..n])| else cap
  {
    if n > 0 {
      FramesAtResident(p, pages, cap, n - 1);
      NextKeepsResident(p, FramesAt(p, pages, cap, n - 1), pages, n - 1, cap);
    }
  }

  /** One reference keeps the three facts of `FramesAtResident`, for any list that has them. */
  lemma NextKeepsResident(p: Policy, F: seq<int>, pages: seq<int>, m: nat, cap: nat)
    requires cap >= 1 && m < |pages|
    requires Resident(F, cap) && Elems(F) <= Elems(pages[..m])
    requires |F| == if |Elems(pages[..m])| < cap then |Elems(pages[..m])| else cap
    ensures var r := Next(p, F, pages, m, cap);
      && Resident(r, cap)
      && Elems(r) <= Elems(pages[..m + 1])
      && |r| == if |Elems(pages[..m + 1])| < cap then |Elems(pages[..m + 1])| else cap
  {
    var page, seen := pages[m], Elems(pages[..m]);
    NextResident(p, F, pages, m, cap);
    assert pages[..m + 1] == pages[..m] + [page];
    assert Elems(pages[..m + 1]) == seen + {page};
    NoDupCard(F);
    if page in F {
      assert Elems(pages[..m + 1]) == seen;
    } else if page in seen {
      // The page was seen and is gone, so it was evicted: the frames are full.
      SubsetCard(Elems(F) + {page}, seen);
      assert |Elems(F) + {page}| == |F| + 1;
      assert |F| == cap;
      assert Elems(pages[..m + 1]) == seen;
    } else {
      assert |seen + {page}| == |seen| + 1;
    }
  }

  /** A page referenced for the first time always faults, under every policy. */
  lemma FirstReferenceFaults(p: Policy, pages: seq<int>, cap: nat, i: nat)
    requires cap >= 1 && i < |pages|
    requires pages[i] !in pages[..i]
    ensures IsMissAt(p, pages, cap, i)
  {
    FramesAtResident(p, pages, cap, i);
    assert pages[i] !in Elems(pages[..i]);
  }

  /**
   * The fault count never exceeds the number of references, and is at least the
   * number of distinct pages referenced (each faults on its first reference).
   */
  lemma {:induction false} FaultsAtBounds(p: Policy, pages: seq<int>, cap: nat, n: nat)
    requires cap >= 1 && n <= |pages|
    ensures |Elems(pages[..n])| <= FaultsAt(p, pages, cap, n) <= n
  {
    if n > 0 {
      FaultsAtBounds(p, pages, cap, n - 1);
      var page := pages[n - 1];
      assert pages[..n] == pages[..n - 1] + [page];
      assert Elems(pages[..n]) == Elems(pages[..n - 1]) + {page};
      if page !in pages[..n - 1] {
        FirstReferenceFaults(p, pages, cap, n - 1);
      } else {
        assert Elems(pages[..n]) == Elems(pages[..n - 1]);
      }
    }
  }

  /**
   * While the frames never fill up, a reference faults exactly when its page
   * has not been referenced before: the count is the number of distinct pages.
   */
  lemma {:induction false} NoEvictionFaultsAt(p: Policy, pages: seq<int>, cap: nat, n: nat)
    requires cap >= 1 && n <= |pages| && n <= cap
    ensures FaultsAt(p, pages, cap, n) == |Elems(pages[..n])|
  {
    if n > 0 {
      NoEvictionFaultsAt(p, pages, cap, n - 1);
      FaultsAtBounds(p, pages, cap, n - 1);
      ResidentIsSeen(p, pages, cap, n - 1);
      assert pages[..n] == pages[..n - 1] + [pages[n - 1]];
      assert Elems(pages[..n]) == Elems(pages[..n - 1]) + {pages[n - 1]};
      FaultsAtStep(p, pages, cap, n - 1);
    }
  }

  /** Until the frames fill up, every page referenced so far is resident. */
  lemma ResidentIsSeen(p: Policy, pages: seq<int>, cap: nat, n: nat)
    requires cap >= 1 && n <= |pages| && |Elems(pages[..n])| < cap
    ensures Elems(FramesAt(p, pages, cap, n)) == Elems(pages[..n])
  {
    var F, seen := FramesAt(p, pages, cap, n), Elems(pages[..n]);
    FramesAtResident(p, pages, cap, n);
    NoDupCard(F);
    var E := Elems(F);
    if seen - E != {} {
      var y := Member(seen - E);
      SubsetCard(E + {y}, seen);
      assert false;
    }
  }

  /** With at least as many frames as references, every policy faults once per distinct page. */
  lemma NoEvictionFaults(p: Policy, pages: seq<int>, cap: nat)
    requires cap >= 1 && |pages| <= cap
    ensures TotalFaults(p, pages, cap) == |Elems(pages)|
  {
    NoEvictionFaultsAt(p, pages, cap, |pages|);
    assert pages[..|pages|] == pages;
  }

  /**
   * The running count grows by one on a fault and stays put on a hit: the
   * defining equation of `FaultsAt` unfolded once, for the inductive steps of
   * `NoEvictionFaultsAt` and `QueueOrder.LruStepMonotone`, and the loop steps
   * of the C++ LRU.
   */
  lemma {:induction false} FaultsAtStep(p: Policy, pages: seq<int>, cap: nat, n: nat)
    requires cap >= 1 && n < |pages|
    ensures IsMissAt(p, pages, cap, n) ==> FaultsAt(p, pages, cap, n + 1) == FaultsAt(p, pages, cap, n) + 1
    ensures !IsMissAt(p, pages, cap, n) ==> FaultsAt(p, pages, cap, n + 1) == FaultsAt(p, pages, cap, n)
    ensures FaultsAt(p, pages, cap, n) <= FaultsAt(p, pages, cap, n + 1)
  {
  }

  /**
   * Under Optimal a page keeps its slot for as long as it stays resident: a
   * reference changes at most the victim's slot, and only by appending or
   * overwriting it.
   */
  lemma OptimalKeepsSlots(pages: seq<int>, cap: nat, n: nat)
    requires cap >= 1 && n < |pages|
    ensures var F, F' := FramesAt(Optimal, pages, cap, n), FramesAt(Optimal, pages, cap, n + 1);
      && |F| <= |F'|
      && forall j :: 0 <= j < |F| && F[j] in F' ==> F'[j] == F[j]
  {
    var F := FramesAt(Optimal, pages, cap, n);
    FramesAtResident(Optimal, pages, cap, n);
    var F' := FramesAt(Optimal, pages, cap, n + 1);
    assert F' == Next(Optimal, F, pages, n, cap);
    if pages[n] !in F && |F| >= cap {
      // the victim is the one page that leaves, and only its slot changes
      OverwriteResident(F, OptimalVictim(F, pages[n + 1..]), pages[n]);
    }
  }
}
