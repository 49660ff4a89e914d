/**
 * The "clean up small movements" computation: the list of moving
 * vertices in index order, its stable sort by distance, and which
 * vertices a PERCENTAGE or THRESHOLD run resets to the basis.
 *
 * Distances are carried squared (see Geometry): the squared key orders
 * vertices exactly as the length does, ties included.
 */
module Cleanup {
  import opened Geometry

  datatype CleanupMode = Percentage | Threshold

  /** One element of the moving list: a vertex index and its squared distance. */
  datatype Entry = Entry(index: nat, sqDist: real)

  /**
   * The moving set: vertices whose shape position differs from the basis
   * (length > 0). It is `Selection.AffectedSet(b, s, 0.0)`, the vertices
   * selection would flag at threshold 0, written out here over `Exceeds`.
   */
  ghost function MovingSet(b: seq<Vec3>, s: seq<Vec3>): set<nat>
    requires |b| == |s|
  {
    set i: nat | i < |b| && Exceeds(b[i], s[i], 0.0)
  }

  ghost function MovingSetUpTo(b: seq<Vec3>, s: seq<Vec3>, k: nat): set<nat>
    requires |b| == |s|
  {
    set i: nat | i < k && i < |b| && Exceeds(b[i], s[i], 0.0)
  }

  /** The moving list built from the first `k` vertices, in index order. */
  function MovingUpTo(b: seq<Vec3>, s: seq<Vec3>, k: nat): seq<Entry>
    requires |b| == |s| && k <= |b|
  {
    if k == 0 then []
    else
      MovingUpTo(b, s, k - 1) +
      (if Exceeds(b[k - 1], s[k - 1], 0.0) then [Entry(k - 1, SqDist(b[k - 1], s[k - 1]))] else [])
  }

  /** The moving list of the whole mesh. */
  function MovingEntries(b: seq<Vec3>, s: seq<Vec3>): seq<Entry>
    requires |b| == |s|
  {
    MovingUpTo(b, s, |b|)
  }

  /** `e` is the moving-list entry of a moving vertex. */
  ghost predicate EntryOf(b: seq<Vec3>, s: seq<Vec3>, e: Entry)
    requires |b| == |s|
  {
    e.index < |b| && Exceeds(b[e.index], s[e.index], 0.0) && e.sqDist == SqDist(b[e.index], s[e.index])
  }

  /** The sort key with its tie-break: distance first, then index. */
  predicate Before(x: Entry, y: Entry) {
    x.sqDist < y.sqDist || (x.sqDist == y.sqDist && x.index < y.index)
  }

  ghost predicate SortedByDistance(e: seq<Entry>) {
    forall p, q :: 0 <= p < q < |e| ==> e[p].sqDist <= e[q].sqDist
  }

  /** Ascending by distance, equal distances in index order. */
  ghost predicate StablySorted(e: seq<Entry>) {
    forall p, q :: 0 <= p < q < |e| ==> Before(e[p], e[q])
  }

  ghost predicate IndexOrdered(e: seq<Entry>) {
    forall p, q :: 0 <= p < q < |e| ==> e[p].index < e[q].index
  }

  ghost predicate DistinctIndices(e: seq<Entry>) {
    forall p, q :: 0 <= p < q < |e| ==> e[p].index != e[q].index
  }

  /**
   * The moving list holds exactly one entry per moving vertex, carrying
   * its distance, in increasing index order.
   */
  lemma {:induction false} MovingUpToFacts(b: seq<Vec3>, s: seq<Vec3>, k: nat)
    requires |b| == |s| && k <= |b|
    ensures forall e :: e in MovingUpTo(b, s, k) <==> e.index < k && EntryOf(b, s, e)
    ensures IndexOrdered(MovingUpTo(b, s, k))
    ensures |MovingUpTo(b, s, k)| == |MovingSetUpTo(b, s, k)|
  {
    if k > 0 {
      MovingUpToFacts(b, s, k - 1);
      if Exceeds(b[k - 1], s[k - 1], 0.0) {
        assert MovingSetUpTo(b, s, k) == MovingSetUpTo(b, s, k - 1) + {k - 1};
      } else {
        assert MovingSetUpTo(b, s, k) == MovingSetUpTo(b, s, k - 1);
      }
    } else {
      assert MovingSetUpTo(b, s, k) == {};
    }
  }

  lemma MovingEntriesFacts(b: seq<Vec3>, s: seq<Vec3>)
    requires |b| == |s|
    ensures forall e :: e in MovingEntries(b, s) <==> EntryOf(b, s, e)
    ensures IndexOrdered(MovingEntries(b, s))
    ensures |MovingEntries(b, s)| == |MovingSet(b, s)|
  {
    MovingUpToFacts(b, s, |b|);
    assert MovingSetUpTo(b, s, |b|) == MovingSet(b, s);
  }

  /**
   * The sort's progress: the first `n` elements are in order, the rest are
   * still the input's. When the input `orig` is in index order (`inc`),
   * the sorted part is in stable order and every index in it is smaller
   * than each index not yet inserted.
   */
  ghost predicate SortedPrefix(a: seq<Entry>, n: nat, orig: seq<Entry>, inc: bool)
    requires n <= |a| == |orig|
  {
    && (forall p, q :: 0 <= p < q < n ==> a[p].sqDist <= a[q].sqDist)
    && (inc ==> forall p, q :: 0 <= p < q < n ==> Before(a[p], a[q]))
    && (inc ==> forall p, k :: 0 <= p < n <= k < |a| ==> a[p].index < orig[k].index)
    && (forall k :: n <= k < |a| ==> a[k] == orig[k])
  }

  /**
   * Stable in-place sort by distance (insertion sort by adjacent swaps).
   * The result is a permutation sorted by distance; on an input in index
   * order, as the moving list is, equal distances stay in index order.
   */
  method SortByDistance(a: array<Entry>)
    modifies a
    ensures multiset(a[..]) == multiset(old(a[..]))
    ensures SortedByDistance(a[..])
    ensures IndexOrdered(old(a[..])) ==> StablySorted(a[..])
  {
    ghost var orig := a[..];
    ghost var inc := IndexOrdered(orig);
    var i := 0;
    while i < a.Length
      invariant 0 <= i <= a.Length
      invariant multiset(a[..]) == multiset(orig)
      invariant SortedPrefix(a[..], i, orig, inc)
    {
      InsertNext(a, i, orig, inc);
      i := i + 1;
    }
  }

  /** One insertion step: sink `a[i]` into the sorted prefix `a[..i]`. */
  method InsertNext(a: array<Entry>, i: nat, ghost orig: seq<Entry>, ghost inc: bool)
    requires i < a.Length == |orig|
    requires inc ==> IndexOrdered(orig)
    requires SortedPrefix(a[..], i, orig, inc)
    modifies a
    ensures multiset(a[..]) == multiset(old(a[..]))
    ensures SortedPrefix(a[..], i + 1, orig, inc)
  {
    InsertStart(a[..], i, orig, inc);
    var j := i;
    while j > 0 && a[j - 1].sqDist > a[j].sqDist
      invariant 0 <= j <= i
      invariant multiset(a[..]) == multiset(old(a[..]))
      invariant InsertInv(a[..], i, j, orig, inc)
    {
      ghost var before := a[..];
      SwapDown(a, j);
      InsertSwap(before, i, j, orig, inc);
      j := j - 1;
    }
    InsertDone(a[..], i, j, orig, inc);
  }

  /** Exchange `a[j - 1]` and `a[j]`. */
  method SwapDown(a: array<Entry>, j: nat)
    requires 0 < j < a.Length
    modifies a
    ensures a[..] == old(a[..])[j - 1 := old(a[j])][j := old(a[j - 1])]
    ensures multiset(a[..]) == multiset(old(a[..]))
  {
    a[j - 1], a[j] := a[j], a[j - 1];
  }

  /**
   * While `s[j]` (the element being inserted) sinks: everything else in
   * `s[..i + 1]` is in order, `s[j]` is below everything after it, and
   * (on index-ordered input) its index is above every other one so far.
   */
  ghost predicate InsertInv(s: seq<Entry>, i: nat, j: nat, orig: seq<Entry>, inc: bool)
    requires j <= i < |s| == |orig|
  {
    && (forall k :: i < k < |s| ==> s[k] == orig[k])
    && (forall p, q :: 0 <= p < q <= i && p != j && q != j ==> s[p].sqDist <= s[q].sqDist)
    && (forall q :: j < q <= i ==> s[j].sqDist < s[q].sqDist)
    && (inc ==> forall p, q :: 0 <= p < q <= i && p != j && q != j ==> Before(s[p], s[q]))
    && (inc ==> forall p :: 0 <= p <= i && p != j ==> s[p].index < s[j].index)
    && (inc ==> forall p, k :: 0 <= p <= i < k < |s| ==> s[p].index < orig[k].index)
  }

  lemma InsertStart(s: seq<Entry>, i: nat, orig: seq<Entry>, inc: bool)
    requires i < |s| == |orig|
    requires inc ==> IndexOrdered(orig)
    requires SortedPrefix(s, i, orig, inc)
    ensures InsertInv(s, i, i, orig, inc)
  {
  }

  lemma InsertSwap(s: seq<Entry>, i: nat, j: nat, orig: seq<Entry>, inc: bool)
    requires 0 < j <= i < |s| == |orig|
    requires InsertInv(s, i, j, orig, inc)
    requires s[j - 1].sqDist > s[j].sqDist
    ensures InsertInv(s[j - 1 := s[j]][j := s[j - 1]], i, j - 1, orig, inc)
  {
  }

  lemma InsertDone(s: seq<Entry>, i: nat, j: nat, orig: seq<Entry>, inc: bool)
    requires j <= i < |s| == |orig|
    requires InsertInv(s, i, j, orig, inc)
    requires j == 0 || s[j - 1].sqDist <= s[j].sqDist
    ensures SortedPrefix(s, i + 1, orig, inc)
  {
    forall p, q | 0 <= p < q <= i
      ensures s[p].sqDist <= s[q].sqDist
      ensures inc ==> Before(s[p], s[q])
    {
      if q == j && p < j - 1 {
        assert s[p].sqDist <= s[j - 1].sqDist;
      }
    }
  }

  /** `sorted` is what the add-on's stable sort makes of the moving list. */
  ghost predicate IsSortedMoving(b: seq<Vec3>, s: seq<Vec3>, sorted: seq<Entry>)
    requires |b| == |s|
  {
    multiset(sorted) == multiset(MovingEntries(b, s)) && StablySorted(sorted)
  }

  /**
   * The sorted moving list holds one entry per moving vertex and no
   * vertex twice.
   */
  lemma SortedMovingFacts(b: seq<Vec3>, s: seq<Vec3>, sorted: seq<Entry>)
    requires |b| == |s| && IsSortedMoving(b, s, sorted)
    ensures forall e :: e in sorted <==> EntryOf(b, s, e)
    ensures |sorted| == |MovingSet(b, s)|
    ensures DistinctIndices(sorted)
  {
    MovingEntriesFacts(b, s);
    forall e
      ensures e in sorted <==> EntryOf(b, s, e)
    {
      assert e in sorted <==> e in multiset(sorted);
      assert e in MovingEntries(b, s) <==> e in multiset(MovingEntries(b, s));
    }
    assert |sorted| == |multiset(sorted)| == |multiset(MovingEntries(b, s))| == |MovingEntries(b, s)|;
    forall p, q | 0 <= p < q < |sorted|
      ensures sorted[p].index != sorted[q].index
    {
      assert sorted[p] in sorted && sorted[q] in sorted;
      assert Before(sorted[p], sorted[q]);
    }
  }

  /** The set of indices listed in `l`. */
  ghost function IndexSet(l: seq<nat>): set<nat> {
    set i | i in l
  }

  /** A list with no repeated index lists as many vertices as it has elements. */
  lemma {:induction false} DistinctListSize(l: seq<nat>)
    requires forall p, q :: 0 <= p < q < |l| ==> l[p] != l[q]
    ensures |IndexSet(l)| == |l|
  {
    if l != [] {
      var n := |l| - 1;
      DistinctListSize(l[..n]);
      assert IndexSet(l) == IndexSet(l[..n]) + {l[n]};
      assert l[n] !in IndexSet(l[..n]);
    }
  }

  /** `int(M * (p / 100.0))` for a percentage `p` in [0, 100]: the floor, at most `M`. */
  function PercentageCount(m: nat, p: real): (n: nat)
    requires 0.0 <= p <= 100.0
    ensures n <= m
    ensures n as real <= m as real * (p / 100.0) < n as real + 1.0
    ensures p == 0.0 ==> n == 0
    ensures p == 100.0 ==> n == m
  {
    ScaledBounds(m as real, p / 100.0);
    (m as real * (p / 100.0)).Floor
  }

  lemma ScaledBounds(x: real, f: real)
    requires 0.0 <= x && 0.0 <= f <= 1.0
    ensures 0.0 <= x * f <= x
  {
    if 0.0 < x && 0.0 < f {
      MulPositive(x, f);
      if f < 1.0 {
        MulStrictlyMonotone(f, 1.0, x);
        assert Mul(f, x) == x * f && Mul(1.0, x) == x;
      }
    }
  }

  /** `[v[0] for v in sorted[:n]]`: the indices of the first `n` sorted entries. */
  function PrefixIndices(sorted: seq<Entry>, n: nat): seq<nat>
    requires n <= |sorted|
  {
    seq(n, k requires 0 <= k < n => sorted[k].index)
  }

  /** `[v[0] for v in sorted if v[1] <= t]`: the indices of the entries within `t`. */
  function ThresholdPicks(sorted: seq<Entry>, t: real): (r: seq<nat>)
    ensures |r| <= |sorted|
    ensures forall i :: i in r <==> exists k :: 0 <= k < |sorted| && sorted[k].index == i && WithinSq(sorted[k].sqDist, t)
  {
    if sorted == [] then []
    else
      var rest := ThresholdPicks(sorted[1..], t);
      (if WithinSq(sorted[0].sqDist, t) then [sorted[0].index] else []) + rest
  }

  /** The squared distance of vertex `i`, as its moving-list entry carries it. */
  function Key(b: seq<Vec3>, s: seq<Vec3>, i: nat): Entry
    requires |b| == |s| && i < |b|
  {
    Entry(i, SqDist(b[i], s[i]))
  }

  /**
   * `P` is a set of moving vertices each of which comes before every moving
   * vertex outside `P` in the stable order: the least-moved vertices.
   */
  ghost predicate LeastMoving(b: seq<Vec3>, s: seq<Vec3>, P: set<nat>)
    requires |b| == |s|
  {
    && P <= MovingSet(b, s)
    && forall i, j :: i in P && j in MovingSet(b, s) && j !in P ==>
         i < |b| && j < |b| && Before(Key(b, s, i), Key(b, s, j))
  }

  /** The vertices THRESHOLD mode resets: moving, and within `t`. */
  ghost function ThresholdSet(b: seq<Vec3>, s: seq<Vec3>, t: real): set<nat>
    requires |b| == |s|
  {
    set i: nat | i < |b| && Exceeds(b[i], s[i], 0.0) && WithinSq(SqDist(b[i], s[i]), t)
  }

  /** Shape positions after the vertices in `P` are reset to an exact copy of the basis. */
  function ResetTo(b: seq<Vec3>, s: seq<Vec3>, P: set<nat>): seq<Vec3>
    requires |b| == |s|
  {
    seq(|s|, i requires 0 <= i < |s| => if i in P then b[i] else s[i])
  }

  /**
   * PERCENTAGE mode: the first `n` sorted entries are `n` distinct moving
   * vertices, the least-moved ones, so none of them moves more than any
   * moving vertex left alone.
   */
  lemma PrefixIsLeastMoving(b: seq<Vec3>, s: seq<Vec3>, sorted: seq<Entry>, n: nat)
    requires |b| == |s| && IsSortedMoving(b, s, sorted) && n <= |sorted|
    ensures forall k :: 0 <= k < n ==> PrefixIndices(sorted, n)[k] < |b|
    ensures |IndexSet(PrefixIndices(sorted, n))| == n
    ensures LeastMoving(b, s, IndexSet(PrefixIndices(sorted, n)))
    ensures forall i, j :: i in IndexSet(PrefixIndices(sorted, n)) && j in MovingSet(b, s) - IndexSet(PrefixIndices(sorted, n)) ==>
              i < |b| && j < |b| && SqDist(b[i], s[i]) <= SqDist(b[j], s[j])
  {
    SortedMovingFacts(b, s, sorted);
    var l := PrefixIndices(sorted, n);
    var P := IndexSet(l);
    forall k | 0 <= k < n
      ensures l[k] < |b| && sorted[k] == Key(b, s, l[k])
    {
      assert sorted[k] in sorted;
    }
    DistinctListSize(l);
    forall i | i in P
      ensures i in MovingSet(b, s)
    {
      var k :| 0 <= k < n && l[k] == i;
      assert sorted[k] in sorted;
    }
    forall i, j | i in P && j in MovingSet(b, s) && j !in P
      ensures i < |b| && j < |b| && Before(Key(b, s, i), Key(b, s, j))
    {
      var p :| 0 <= p < n && l[p] == i;
      assert EntryOf(b, s, Key(b, s, j));
      var q :| 0 <= q < |sorted| && sorted[q] == Key(b, s, j);
      assert p < q;
    }
  }

  /** THRESHOLD mode: the picked list names each vertex of the threshold set exactly once. */
  lemma ThresholdPicksAreThresholdSet(b: seq<Vec3>, s: seq<Vec3>, sorted: seq<Entry>, t: real)
    requires |b| == |s| && IsSortedMoving(b, s, sorted)
    ensures forall k :: 0 <= k < |ThresholdPicks(sorted, t)| ==> ThresholdPicks(sorted, t)[k] < |b|
    ensures IndexSet(ThresholdPicks(sorted, t)) == ThresholdSet(b, s, t)
    ensures |ThresholdPicks(sorted, t)| == |ThresholdSet(b, s, t)|
  {
    SortedMovingFacts(b, s, sorted);
    var r := ThresholdPicks(sorted, t);
    forall i | i in r
      ensures i < |b| && i in ThresholdSet(b, s, t)
    {
      var k :| 0 <= k < |sorted| && sorted[k].index == i && WithinSq(sorted[k].sqDist, t);
      assert sorted[k] in sorted;
    }
    forall i | i in ThresholdSet(b, s, t)
      ensures i in r
    {
      assert EntryOf(b, s, Key(b, s, i));
      var q :| 0 <= q < |sorted| && sorted[q] == Key(b, s, i);
    }
    forall k | 0 <= k < |r|
      ensures r[k] < |b|
    {
      assert r[k] in r;
    }
    ThresholdPicksDistinct(sorted, t);
    DistinctListSize(r);
  }

  lemma {:induction false} ThresholdPicksDistinct(e: seq<Entry>, t: real)
    requires DistinctIndices(e)
    ensures forall p, q :: 0 <= p < q < |ThresholdPicks(e, t)| ==> ThresholdPicks(e, t)[p] != ThresholdPicks(e, t)[q]
  {
    if e != [] {
      var rest := ThresholdPicks(e[1..], t);
      ThresholdPicksDistinct(e[1..], t);
      if WithinSq(e[0].sqDist, t) {
        assert e[0].index !in rest;
        assert ThresholdPicks(e, t) == [e[0].index] + rest;
      } else {
        assert ThresholdPicks(e, t) == rest;
      }
    }
  }

  /**
   * The stable order leaves no choice: two sets of least-moved vertices of
   * the same size are the same set, so a PERCENTAGE run is deterministic.
   */
  lemma LeastMovingUnique(b: seq<Vec3>, s: seq<Vec3>, P: set<nat>, Q: set<nat>)
    requires |b| == |s|
    requires LeastMoving(b, s, P) && LeastMoving(b, s, Q) && |P| == |Q|
    ensures P == Q
  {
    forall i | i in P
      ensures i in Q
    {
      if i !in Q {
        assert |P| == |P - Q| + |P * Q| && |Q| == |Q - P| + |P * Q|;
        assert i in P - Q;
        var j :| j in Q - P;
        assert false;
      }
    }
    assert |Q| == |Q - P| + |P * Q| && P * Q == P;
    assert Q - P == {};
  }

  /**
   * Running the clean-up again: resetting `P` leaves exactly the moving
   * vertices outside `P` moving, so the next run's moving count is this
   * run's `remaining_moving`.
   */
  lemma ResetShrinksMoving(b: seq<Vec3>, s: seq<Vec3>, P: set<nat>)
    requires |b| == |s| && P <= MovingSet(b, s)
    ensures MovingSet(b, ResetTo(b, s, P)) == MovingSet(b, s) - P
    ensures |MovingSet(b, ResetTo(b, s, P))| == |MovingSet(b, s)| - |P|
  {
    var s' := ResetTo(b, s, P);
    forall i: nat | i < |b|
      ensures Exceeds(b[i], s'[i], 0.0) <==> i !in P && Exceeds(b[i], s[i], 0.0)
    {
      MovingIffDisplaced(b[i], s'[i]);
    }
    assert MovingSet(b, s') == MovingSet(b, s) - P;
    var M := MovingSet(b, s);
    assert M * P == P;
    assert |M| == |M - P| + |M * P|;
  }

  /**
   * THRESHOLD mode converges in one run: afterwards no moving vertex is
   * within the threshold, so a second run with the same threshold resets nothing.
   */
  lemma ThresholdRunConverges(b: seq<Vec3>, s: seq<Vec3>, t: real)
    requires |b| == |s|
    ensures ThresholdSet(b, ResetTo(b, s, ThresholdSet(b, s, t)), t) == {}
  {
    var P := ThresholdSet(b, s, t);
    var s' := ResetTo(b, s, P);
    forall i: nat | i < |b| && Exceeds(b[i], s'[i], 0.0)
      ensures !WithinSq(SqDist(b[i], s'[i]), t)
    {
      MovingIffDisplaced(b[i], s'[i]);
    }
  }
}
