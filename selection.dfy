/**
 * What the two selection operators compute: the set of vertices the
 * active shape key moves by more than a threshold, the faces touching
 * one of them, and how many flags end up set.
 */
module Selection {
  import opened Geometry

  /** Indices of the vertices whose basis-to-shape length exceeds `t`. */
  ghost function AffectedSet(b: seq<Vec3>, s: seq<Vec3>, t: real): set<nat>
    requires |b| == |s|
  {
    set i: nat | i < |b| && Exceeds(b[i], s[i], t)
  }

  /** The per-vertex select flags that mark exactly the affected vertices. */
  function AffectedMask(b: seq<Vec3>, s: seq<Vec3>, t: real): seq<bool>
    requires |b| == |s|
  {
    seq(|b|, i requires 0 <= i < |b| => Exceeds(b[i], s[i], t))
  }

  /** A face is affected when one of its corner indices is affected. */
  ghost predicate FaceAffected(face: seq<nat>, affected: set<nat>) {
    exists k :: 0 <= k < |face| && face[k] in affected
  }

  /** The per-face select flags for a given affected-vertex set. */
  ghost function FaceMask(faces: seq<seq<nat>>, affected: set<nat>): seq<bool> {
    seq(|faces|, f requires 0 <= f < |faces| => FaceAffected(faces[f], affected))
  }

  /** Number of set flags. */
  function CountTrue(m: seq<bool>): nat {
    if m == [] then 0 else CountTrue(m[..|m| - 1]) + (if m[|m| - 1] then 1 else 0)
  }

  /** Positions of the set flags. */
  ghost function TrueIndices(m: seq<bool>): set<nat> {
    set i: nat | i < |m| && m[i]
  }

  /** Counting the flags counts the marked positions. */
  lemma {:induction false} CountTrueIsSize(m: seq<bool>)
    ensures CountTrue(m) == |TrueIndices(m)|
    ensures CountTrue(m) <= |m|
  {
    if m != [] {
      var n := |m| - 1;
      var init := m[..n];
      CountTrueIsSize(init);
      if m[n] {
        assert TrueIndices(m) == TrueIndices(init) + {n};
      } else {
        assert TrueIndices(m) == TrueIndices(init);
      }
    }
  }

  /** Turning flags on never lowers the count. */
  lemma {:induction false} CountTrueMonotone(m1: seq<bool>, m2: seq<bool>)
    requires |m1| == |m2|
    requires forall i :: 0 <= i < |m1| && m1[i] ==> m2[i]
    ensures CountTrue(m1) <= CountTrue(m2)
  {
    if m1 != [] {
      var n := |m1| - 1;
      CountTrueMonotone(m1[..n], m2[..n]);
    }
  }

  /** The mask marks exactly the affected set, so its count is that set's size. */
  lemma AffectedCountIsSetSize(b: seq<Vec3>, s: seq<Vec3>, t: real)
    requires |b| == |s|
    ensures TrueIndices(AffectedMask(b, s, t)) == AffectedSet(b, s, t)
    ensures CountTrue(AffectedMask(b, s, t)) == |AffectedSet(b, s, t)|
  {
    assert TrueIndices(AffectedMask(b, s, t)) == AffectedSet(b, s, t);
    CountTrueIsSize(AffectedMask(b, s, t));
  }

  /**
   * Raising the threshold can only shrink the selection: every vertex
   * selected at `t2` is selected at any `t1 <= t2`, and the counts follow.
   */
  lemma AffectedAntitone(b: seq<Vec3>, s: seq<Vec3>, t1: real, t2: real)
    requires |b| == |s| && t1 <= t2
    ensures AffectedSet(b, s, t2) <= AffectedSet(b, s, t1)
    ensures CountTrue(AffectedMask(b, s, t2)) <= CountTrue(AffectedMask(b, s, t1))
  {
    forall i | 0 <= i < |b|
      ensures Exceeds(b[i], s[i], t2) ==> Exceeds(b[i], s[i], t1)
    {
      ExceedsAntitone(b[i], s[i], t1, t2);
    }
    CountTrueMonotone(AffectedMask(b, s, t2), AffectedMask(b, s, t1));
  }

  /**
   * Raising the threshold can only shrink the face selection, and the
   * number of selected faces never exceeds the number of faces.
   */
  lemma FacesAntitone(b: seq<Vec3>, s: seq<Vec3>, faces: seq<seq<nat>>, t1: real, t2: real)
    requires |b| == |s| && t1 <= t2
    ensures forall f :: 0 <= f < |faces| && FaceMask(faces, AffectedSet(b, s, t2))[f] ==>
              FaceMask(faces, AffectedSet(b, s, t1))[f]
    ensures CountTrue(FaceMask(faces, AffectedSet(b, s, t2))) <= CountTrue(FaceMask(faces, AffectedSet(b, s, t1)))
    ensures CountTrue(FaceMask(faces, AffectedSet(b, s, t1))) <= |faces|
  {
    AffectedAntitone(b, s, t1, t2);
    var m1, m2 := FaceMask(faces, AffectedSet(b, s, t1)), FaceMask(faces, AffectedSet(b, s, t2));
    forall f | 0 <= f < |faces| && m2[f]
      ensures m1[f]
    {
      var k :| 0 <= k < |faces[f]| && faces[f][k] in AffectedSet(b, s, t2);
      assert faces[f][k] in AffectedSet(b, s, t1);
    }
    CountTrueMonotone(m2, m1);
    CountTrueIsSize(m1);
  }
}
