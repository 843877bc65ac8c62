/**
 * The list operations the simulator relies on, on sequences of page numbers:
 * membership (`in`), Python's `list.index` / C++'s `std::find`, Python's
 * `list.remove`, and NumPy's `argmax`.
 */
module Lists {

  /** No page number occurs twice. */
  predicate NoDup(s: seq<int>)
  {
    forall i, j :: 0 <= i < j < |s| ==> s[i] != s[j]
  }

  /** The set of page numbers that occur in `s`. */
  function Elems(s: seq<int>): set<int>
  {
    set x | x in s
  }

  /** Position of the first occurrence of `x` (Python's `s.index(x)`). */
  function IndexOf(s: seq<int>, x: int): (i: nat)
    requires x in s
    ensures i < |s| && s[i] == x
    ensures forall j :: 0 <= j < i ==> s[j] != x
  {
    if s[0] == x then 0 else 1 + IndexOf(s[1..], x)
  }

  /** `s` with the first occurrence of `x` dropped (Python's `s.remove(x)`). */
  function RemoveFirst(s: seq<int>, x: int): (r: seq<int>)
    requires x in s
    ensures |r| == |s| - 1
  {
    var i := IndexOf(s, x);
    s[..i] + s[i + 1..]
  }

  /**
   * `RemoveFirst` drops exactly one occurrence of `x`, the first: the elements
   * before it stay in place and the ones after it move up by one.
   */
  lemma RemoveFirstSpec(s: seq<int>, x: int)
    requires x in s
    ensures var r := RemoveFirst(s, x);
      forall j {:trigger r[j]} :: 0 <= j < |r| ==> r[j] == if j < IndexOf(s, x) then s[j] else s[j + 1]
  {
    var i, r := IndexOf(s, x), RemoveFirst(s, x);
    assert r == s[..i] + s[i + 1..];
    forall j {:trigger r[j]} | 0 <= j < |r| ensures r[j] == if j < i then s[j] else s[j + 1] {
      if j < i {
        assert r[j] == s[..i][j];
      } else {
        assert r[j] == s[i + 1..][j - i];
      }
    }
  }

  /** Removing a page from a list without duplicates removes exactly that page. */
  lemma RemoveFirstNoDup(s: seq<int>, x: int)
    requires NoDup(s) && x in s
    ensures var r := RemoveFirst(s, x);
      NoDup(r) && x !in r && Elems(r) == Elems(s) - {x}
  {
    var k, r := IndexOf(s, x), RemoveFirst(s, x);
    assert r == s[..k] + s[k + 1..];
    forall a, b | 0 <= a < b < |r| ensures r[a] != r[b] {
      assert r[a] == s[if a < k then a else a + 1];
      assert r[b] == s[if b < k then b else b + 1];
    }
    forall j | 0 <= j < |r| ensures r[j] != x && r[j] in s {
      assert r[j] == s[if j < k then j else j + 1];
    }
    forall y | y in s && y != x ensures y in r {
      var m :| 0 <= m < |s| && s[m] == y;
      assert m != k;
      assert r[if m < k then m else m - 1] == y;
    }
  }

  /** The leftmost position of a largest element (NumPy's `argmax`). */
  function ArgMax(xs: seq<int>): (k: nat)
    requires xs != []
    ensures k < |xs|
    ensures forall j :: 0 <= j < |xs| ==> xs[j] <= xs[k]
    ensures forall j :: 0 <= j < k ==> xs[j] < xs[k]
  {
    if |xs| == 1 then 0
    else
      var k := ArgMax(xs[..|xs| - 1]);
      if xs[|xs| - 1] > xs[k] then |xs| - 1 else k
  }

  /** A sequence without duplicates has as many elements as it has distinct ones. */
  lemma {:induction false} NoDupCard(s: seq<int>)
    requires NoDup(s)
    ensures |Elems(s)| == |s|
  {
    if s != [] {
      NoDupCard(s[1..]);
      assert Elems(s) == Elems(s[1..]) + {s[0]};
      assert s[0] !in Elems(s[1..]);
    }
  }

  /** A subset has no more elements than its superset. */
  lemma {:induction false} SubsetCard(a: set<int>, b: set<int>)
    requires a <= b
    ensures |a| <= |b|
  {
    if |a| > 0 {
      var x := Member(a);
      SubsetCard(a - {x}, b - {x});
    }
  }

  /** A set with a positive cardinality has a member. */
  lemma Member(a: set<int>) returns (x: int)
    requires |a| > 0
    ensures x in a
  {
    if forall y :: y !in a {
      assert false;
    }
    x :| x in a;
  }
}
