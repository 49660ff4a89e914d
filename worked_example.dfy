/**
 * A worked instance: four vertices at the origin in the basis, displaced
 * along x by 0, 1, 2 and 3 in the shape key.
 */
module WorkedExample {
  import opened Geometry
  import opened Selection
  import opened Cleanup

  const Origin := Vec3(0.0, 0.0, 0.0)

  function AlongX(d: real): Vec3 {
    Vec3(d, 0.0, 0.0)
  }

  /** The example's basis and shape-key positions. */
  ghost predicate IsExample(b: seq<Vec3>, s: seq<Vec3>) {
    && b == [Origin, Origin, Origin, Origin]
    && s == [Origin, AlongX(1.0), AlongX(2.0), AlongX(3.0)]
  }

  lemma AlongXDist(d: real)
    ensures SqDist(Origin, AlongX(d)) == Sq(d)
  {
    var v := AlongX(d);
    assert SqDist(Origin, v) == Sq(v.x - Origin.x) + Sq(v.y - Origin.y) + Sq(v.z - Origin.z);
    assert v.x - Origin.x == d && v.y - Origin.y == 0.0 && v.z - Origin.z == 0.0;
    assert Sq(0.0) == 0.0;
  }

  lemma SqValues()
    ensures Sq(1.0) == 1.0 && Sq(2.0) == 4.0 && Sq(3.0) == 9.0
    ensures Sq(0.5) == 0.25 && Sq(1.5) == 2.25
  {
    assert Sq(1.0) == 1.0;
    assert Sq(2.0) == 4.0;
    assert Sq(3.0) == 9.0;
    assert Sq(0.5) == 0.25;
    assert Sq(1.5) == 2.25;
  }

  /** The squared distance of vertex `i` is `i * i`. */
  lemma DistanceAt(b: seq<Vec3>, s: seq<Vec3>, i: nat)
    requires IsExample(b, s) && i < 4
    ensures SqDist(b[i], s[i]) == Sq(i as real)
  {
    assert b[i] == Origin;
    if i == 0 {
      assert s[i] == Origin;
      assert Sq(0.0) == 0.0;
    } else {
      assert s[i] == AlongX(i as real);
      AlongXDist(i as real);
    }
  }

  /** The facts about the example that the set computations below use. */
  ghost predicate ExampleDistances(b: seq<Vec3>, s: seq<Vec3>) {
    && |b| == |s| == 4
    && SqDist(b[0], s[0]) == 0.0 && SqDist(b[1], s[1]) == 1.0
    && SqDist(b[2], s[2]) == 4.0 && SqDist(b[3], s[3]) == 9.0
  }

  /** The squared distances of the four vertices are 0, 1, 4 and 9. */
  lemma Distances(b: seq<Vec3>, s: seq<Vec3>)
    requires IsExample(b, s)
    ensures ExampleDistances(b, s)
  {
    DistanceAt(b, s, 0);
    DistanceAt(b, s, 1);
    DistanceAt(b, s, 2);
    DistanceAt(b, s, 3);
    assert Sq(0 as real) == 0.0;
    SqValues();
  }

  lemma MovingThree(b: seq<Vec3>, s: seq<Vec3>, t: real)
    requires ExampleDistances(b, s) && 0.0 <= t && Sq(t) < 1.0
    ensures AffectedSet(b, s, t) == {1, 2, 3}
  {
    forall i: nat | i in AffectedSet(b, s, t) ensures i in {1, 2, 3} {
      assert i != 0;
    }
    assert Exceeds(b[1], s[1], t) && Exceeds(b[2], s[2], t) && Exceeds(b[3], s[3], t);
  }

  /** Threshold 0.5 selects vertices 1, 2 and 3, which are also the moving vertices. */
  lemma SelectsThree(b: seq<Vec3>, s: seq<Vec3>)
    requires IsExample(b, s)
    ensures AffectedSet(b, s, 0.5) == {1, 2, 3}
    ensures MovingSet(b, s) == {1, 2, 3}
  {
    Distances(b, s);
    HalfBelowOne();
    MovingThree(b, s, 0.5);
    MovingIsAffectedAtZero(b, s);
  }

  lemma HalfBelowOne()
    ensures Sq(0.5) < 1.0
  {
    assert Sq(0.5) == 0.25;
  }

  lemma MovingIsAffectedAtZero(b: seq<Vec3>, s: seq<Vec3>)
    requires ExampleDistances(b, s)
    ensures MovingSet(b, s) == {1, 2, 3}
  {
    assert Sq(0.0) == 0.0;
    MovingThree(b, s, 0.0);
    assert MovingSet(b, s) == AffectedSet(b, s, 0.0);
  }

  /** PERCENTAGE 50 of the 3 moving vertices resets `floor(1.5) = 1` of them. */
  lemma HalfOfThree()
    ensures PercentageCount(3, 50.0) == 1
  {
    assert 3 as real * (50.0 / 100.0) == 1.5;
  }

  lemma LeastOfThree(b: seq<Vec3>, s: seq<Vec3>)
    requires ExampleDistances(b, s) && MovingSet(b, s) == {1, 2, 3}
    ensures LeastMoving(b, s, {1})
  {
    forall j | j in MovingSet(b, s) && j != 1
      ensures Before(Key(b, s, 1), Key(b, s, j))
    {
      assert j == 2 || j == 3;
    }
  }

  /** Vertex 1 is the least-moved one, so PERCENTAGE 50 resets it. */
  lemma LeastMovedIsVertexOne(b: seq<Vec3>, s: seq<Vec3>)
    requires IsExample(b, s)
    ensures LeastMoving(b, s, {1})
  {
    Distances(b, s);
    SelectsThree(b, s);
    LeastOfThree(b, s);
  }

  lemma WithinOne(b: seq<Vec3>, s: seq<Vec3>, t: real)
    requires ExampleDistances(b, s) && 0.0 <= t && 1.0 <= Sq(t) < 4.0
    ensures ThresholdSet(b, s, t) == {1}
  {
    forall i: nat | i in ThresholdSet(b, s, t) ensures i == 1 {
      assert i != 0 && i != 2 && i != 3;
    }
    assert Sq(0.0) == 0.0;
    assert 1 in ThresholdSet(b, s, t);
  }

  /** THRESHOLD 1.5 resets vertex 1 only. */
  lemma ThresholdResetsVertexOne(b: seq<Vec3>, s: seq<Vec3>)
    requires IsExample(b, s)
    ensures ThresholdSet(b, s, 1.5) == {1}
  {
    Distances(b, s);
    SqValues();
    WithinOne(b, s, 1.5);
  }

  lemma RemoveOne(m: set<nat>)
    requires m == {1, 2, 3}
    ensures |m - {1}| == 2
  {
    assert m - {1} == {2, 3};
  }

  /** Resetting vertex 1 leaves vertices 2 and 3 moving. */
  lemma TwoStillMoving(b: seq<Vec3>, s: seq<Vec3>)
    requires IsExample(b, s)
    ensures ResetTo(b, s, {1}) == [Origin, Origin, AlongX(2.0), AlongX(3.0)]
    ensures |MovingSet(b, ResetTo(b, s, {1}))| == 2
  {
    var r := ResetTo(b, s, {1});
    assert |r| == 4 && r[0] == s[0] && r[1] == b[1] && r[2] == s[2] && r[3] == s[3];
    assert r == [s[0], b[1], s[2], s[3]];
    SelectsThree(b, s);
    ResetShrinksMoving(b, s, {1});
    RemoveOne(MovingSet(b, s));
  }
}
