/**
 * The four operators of the Shapekey Tools add-on, on one mesh with an
 * active (non-basis) shape key. The mesh holds, index-aligned per vertex,
 * the basis positions, the active shape key's positions, the vertex
 * select flags and each vertex's vertex-group entries; per face, its
 * select flag and its corner vertex indices; and the object's vertex
 * group names, whose position is the group's index.
 */
module ShapekeyTools {
  import opened Geometry
  import opened Selection
  import opened VertexGroups
  import opened Cleanup

  /** The operator's return value. */
  datatype Status = Finished | Cancelled

  /** What the clean-up reports: nothing moving, or the counts of one run. */
  datatype CleanupReport =
    | NothingToClean
    | Cleaned(resetCount: nat, moving: nat, remaining: int)

  class ShapeKeyMesh {
    var basis: array<Vec3>
    var shape: array<Vec3>
    var vertexSelect: array<bool>
    var faceSelect: array<bool>
    var faces: seq<seq<nat>>
    var groupNames: seq<string>
    var vertexGroups: seq<seq<GroupEntry>>

    /** Shape-key data is index-aligned with the vertices; the active key is not the basis. */
    ghost predicate Valid()
      reads this
    {
      && shape.Length == basis.Length
      && vertexSelect.Length == basis.Length
      && |vertexGroups| == basis.Length
      && faceSelect.Length == |faces|
      && shape != basis
      && faceSelect != vertexSelect
    }

    constructor (basisCo: seq<Vec3>, shapeCo: seq<Vec3>, faces: seq<seq<nat>>,
                 groupNames: seq<string>, vertexGroups: seq<seq<GroupEntry>>)
      requires |shapeCo| == |basisCo| && |vertexGroups| == |basisCo|
      ensures Valid()
      ensures basis[..] == basisCo && shape[..] == shapeCo
      ensures this.faces == faces && this.groupNames == groupNames && this.vertexGroups == vertexGroups
      ensures fresh(basis) && fresh(shape) && fresh(vertexSelect) && fresh(faceSelect)
    {
      basis := new Vec3[|basisCo|](k requires 0 <= k < |basisCo| => basisCo[k]);
      shape := new Vec3[|shapeCo|](k requires 0 <= k < |shapeCo| => shapeCo[k]);
      vertexSelect := new bool[|basisCo|];
      faceSelect := new bool[|faces|];
      this.faces := faces;
      this.groupNames := groupNames;
      this.vertexGroups := vertexGroups;
    }

    /**
     * Select Affected Vertices: clear every vertex flag, then flag each
     * vertex that moved strictly more than `threshold`, counting them.
     * No position is written.
     */
    method SelectAffectedVertices(threshold: real) returns (affectedCount: nat)
      requires Valid()
      modifies vertexSelect
      ensures basis[..] == old(basis[..]) && shape[..] == old(shape[..])
      ensures forall i :: 0 <= i < vertexSelect.Length ==>
                vertexSelect[i] == Exceeds(basis[i], shape[i], threshold)
      ensures affectedCount == CountTrue(vertexSelect[..])
      ensures affectedCount == |AffectedSet(basis[..], shape[..], threshold)|
    {
      ClearFlags(vertexSelect);
      affectedCount := 0;
      var i := 0;
      while i < vertexSelect.Length
        invariant 0 <= i <= vertexSelect.Length
        invariant forall k :: 0 <= k < i ==> vertexSelect[k] == Exceeds(basis[k], shape[k], threshold)
        invariant forall k :: i <= k < vertexSelect.Length ==> !vertexSelect[k]
        invariant affectedCount == CountTrue(vertexSelect[..i])
      {
        if Exceeds(basis[i], shape[i], threshold) {
          vertexSelect[i] := true;
          affectedCount := affectedCount + 1;
        }
        assert vertexSelect[..i + 1][..i] == vertexSelect[..i];
        i := i + 1;
      }
      assert vertexSelect[..] == vertexSelect[..i];
      assert vertexSelect[..] == AffectedMask(basis[..], shape[..], threshold);
      AffectedCountIsSetSize(basis[..], shape[..], threshold);
    }

    /** The deselect-all loop: every flag of `flags` cleared. */
    static method ClearFlags(flags: array<bool>)
      modifies flags
      ensures forall i :: 0 <= i < flags.Length ==> !flags[i]
    {
      var i := 0;
      while i < flags.Length
        invariant 0 <= i <= flags.Length
        invariant forall k :: 0 <= k < i ==> !flags[k]
      {
        flags[i] := false;
        i := i + 1;
      }
    }

    /** The loop that gathers the affected-vertex indices into a set. */
    method CollectAffected(threshold: real) returns (affected: set<nat>)
      requires Valid()
      ensures affected == AffectedSet(basis[..], shape[..], threshold)
    {
      affected := {};
      var i := 0;
      while i < basis.Length
        invariant 0 <= i <= basis.Length
        invariant affected == set k: nat | k < i && Exceeds(basis[k], shape[k], threshold)
      {
        if Exceeds(basis[i], shape[i], threshold) {
          affected := affected + {i};
        }
        i := i + 1;
      }
    }

    /**
     * Select Affected Faces: clear every face flag, then flag each face
     * with at least one affected corner, stopping at its first one, so
     * each face is counted once.
     */
    method SelectAffectedFaces(threshold: real) returns (affectedCount: nat)
      requires Valid()
      modifies faceSelect
      ensures basis[..] == old(basis[..]) && shape[..] == old(shape[..])
      ensures forall f :: 0 <= f < |faces| ==>
                faceSelect[f] == FaceAffected(faces[f], AffectedSet(basis[..], shape[..], threshold))
      ensures faceSelect[..] == FaceMask(faces, AffectedSet(basis[..], shape[..], threshold))
      ensures affectedCount == CountTrue(faceSelect[..]) <= |faces|
    {
      var affected := CollectAffected(threshold);
      ClearFlags(faceSelect);
      affectedCount := 0;
      var f := 0;
      while f < |faces|
        invariant 0 <= f <= |faces|
        invariant forall g :: 0 <= g < f ==> faceSelect[g] == FaceAffected(faces[g], affected)
        invariant forall g :: f <= g < |faces| ==> !faceSelect[g]
        invariant affectedCount == CountTrue(faceSelect[..f])
      {
        var touches := TouchesAffected(faces[f], affected);
        if touches {
          faceSelect[f] := true;
          affectedCount := affectedCount + 1;
        }
        assert faceSelect[f] == FaceAffected(faces[f], affected);
        assert faceSelect[..f + 1][..f] == faceSelect[..f];
        f := f + 1;
      }
      assert faceSelect[..] == faceSelect[..f];
      assert faceSelect[..] == FaceMask(faces, affected);
      CountTrueIsSize(faceSelect[..]);
    }

    /** The scan over one face's corners, stopping at the first affected one. */
    static method TouchesAffected(face: seq<nat>, affected: set<nat>) returns (touches: bool)
      ensures touches == FaceAffected(face, affected)
    {
      touches := false;
      var k := 0;
      while k < |face|
        invariant 0 <= k <= |face|
        invariant forall m :: 0 <= m < k ==> face[m] !in affected
      {
        if face[k] in affected {
          touches := true;
          break;
        }
        k := k + 1;
      }
    }

    /**
     * Blend from Vertex Group: with no group of that name, cancel and
     * write nothing. Otherwise move every vertex to
     * `lerp(basis, shape, w)`, `w` its weight in the group (inverted on
     * request); the basis is never written.
     */
    method BlendFromVertexGroup(groupName: string, invert: bool) returns (status: Status)
      requires Valid()
      modifies shape
      ensures basis[..] == old(basis[..])
      ensures status == Cancelled <==> FindGroup(groupNames, groupName).None?
      ensures status == Cancelled ==> shape[..] == old(shape[..])
      ensures status == Finished ==>
                forall i :: 0 <= i < shape.Length ==>
                  shape[i] == Lerp(basis[i], old(shape[i]),
                                   EffectiveWeight(vertexGroups[i], FindGroup(groupNames, groupName).value, invert))
    {
      var found := FindGroup(groupNames, groupName);
      if found.None? {
        return Cancelled;
      }
      var g := found.value;
      var i := 0;
      while i < shape.Length
        invariant 0 <= i <= shape.Length
        invariant forall k :: 0 <= k < i ==>
                    shape[k] == Lerp(basis[k], old(shape[k]), EffectiveWeight(vertexGroups[k], g, invert))
        invariant forall k :: i <= k < shape.Length ==> shape[k] == old(shape[k])
      {
        var weight := LookupWeight(vertexGroups[i], g);
        if invert {
          weight := 1.0 - weight;
        }
        shape[i] := Lerp(basis[i], shape[i], weight);
        i := i + 1;
      }
      return Finished;
    }

    /** The loop that lists the moving vertices with their distances, in index order. */
    method CollectMoving() returns (moving: seq<Entry>)
      requires Valid()
      ensures moving == MovingEntries(basis[..], shape[..])
    {
      moving := [];
      var i := 0;
      while i < basis.Length
        invariant 0 <= i <= basis.Length
        invariant moving == MovingUpTo(basis[..], shape[..], i)
      {
        var d := SqDist(basis[i], shape[i]);
        if Exceeds(basis[i], shape[i], 0.0) {
          moving := moving + [Entry(i, d)];
        }
        i := i + 1;
      }
    }

    /**
     * Clean Up Small Movements: with no moving vertex, report so and
     * write nothing. Otherwise sort the moving vertices stably by
     * distance and reset to an exact copy of the basis either the first
     * `int(M * (p / 100.0))` of them (PERCENTAGE) or those within the
     * distance threshold (THRESHOLD); report the counts.
     */
    method CleanUpSmallMovements(mode: CleanupMode, percentage: real, distanceThreshold: real)
      returns (report: CleanupReport, ghost reset: set<nat>)
      requires Valid()
      requires mode == Percentage ==> 0.0 <= percentage <= 100.0
      modifies shape
      ensures basis[..] == old(basis[..])
      ensures report.NothingToClean? <==> MovingSet(basis[..], old(shape[..])) == {}
      ensures reset <= MovingSet(basis[..], old(shape[..]))
      ensures shape[..] == ResetTo(basis[..], old(shape[..]), reset)
      ensures report.NothingToClean? ==> reset == {} && shape[..] == old(shape[..])
      ensures report.Cleaned? ==>
                && report.moving == |MovingSet(basis[..], old(shape[..]))|
                && report.resetCount == |reset|
                && report.remaining == report.moving - report.resetCount >= 0
      ensures report.Cleaned? && mode == Percentage ==>
                && report.resetCount == PercentageCount(report.moving, percentage)
                && LeastMoving(basis[..], old(shape[..]), reset)
      ensures report.Cleaned? && mode == Threshold ==>
                reset == ThresholdSet(basis[..], old(shape[..]), distanceThreshold)
    {
      ghost var b, s := basis[..], shape[..];
      var moving := CollectMoving();
      MovingEntriesFacts(b, s);
      if |moving| == 0 {
        assert MovingSet(b, s) == {};
        assert shape[..] == ResetTo(b, s, {});
        return NothingToClean, {};
      }
      var sorted := new Entry[|moving|](k requires 0 <= k < |moving| => moving[k]);
      assert sorted[..] == moving;
      SortByDistance(sorted);
      assert IsSortedMoving(b, s, sorted[..]);

      var toReset: seq<nat>;
      if mode == Percentage {
        var n := PercentageCount(|moving|, percentage);
        toReset := PrefixIndices(sorted[..], n);
        PrefixIsLeastMoving(b, s, sorted[..], n);
      } else {
        toReset := ThresholdPicks(sorted[..], distanceThreshold);
        ThresholdPicksAreThresholdSet(b, s, sorted[..], distanceThreshold);
      }
      reset := IndexSet(toReset);
      var resetCount := ResetToBasis(toReset);
      return Cleaned(resetCount, |moving|, |moving| - resetCount), reset;
    }

    /** Overwrite each listed vertex with a copy of its basis position, counting the writes. */
    method ResetToBasis(toReset: seq<nat>) returns (resetCount: nat)
      requires Valid()
      requires forall k :: 0 <= k < |toReset| ==> toReset[k] < shape.Length
      modifies shape
      ensures basis[..] == old(basis[..])
      ensures resetCount == |toReset|
      ensures shape[..] == ResetTo(basis[..], old(shape[..]), IndexSet(toReset))
    {
      resetCount := 0;
      var j := 0;
      while j < |toReset|
        invariant 0 <= j <= |toReset| && resetCount == j
        invariant forall k :: 0 <= k < shape.Length ==>
                    shape[k] == if k in IndexSet(toReset[..j]) then basis[k] else old(shape[k])
      {
        shape[toReset[j]] := basis[toReset[j]];
        resetCount := resetCount + 1;
        assert IndexSet(toReset[..j + 1]) == IndexSet(toReset[..j]) + {toReset[j]};
        j := j + 1;
      }
      assert toReset[..j] == toReset;
    }
  }
}
