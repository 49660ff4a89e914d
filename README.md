# Shapekey Tools, modelled in Dafny

Shapekey Tools is a Blender add-on that works on a mesh's *active shape
key*. A shape key stores one position per vertex. Its *basis* (reference
key) stores the rest position of each vertex. Beneath the Blender operator
plumbing sit four routines over these index-aligned per-vertex arrays:

- **Select Affected Vertices** clears every vertex select flag. It then
  flags each vertex whose basis-to-shape distance is strictly greater than
  a threshold, and counts the flagged vertices.
- **Select Affected Faces** collects the affected vertices with the same
  strict test and clears every face flag. It then flags each face with at
  least one affected corner. The scan of a face stops at its first affected
  corner, so each face is counted once.
- **Blend from Vertex Group** cancels without writing anything when the
  object has no vertex group of the given name. Otherwise it rewrites every
  vertex of the active key as `lerp(basis, shape, w)`. Here `w` is the
  vertex's weight in the group: the first matching entry, or 0 when the
  vertex is not in the group. With `invert` set, `w` becomes `1 - w`.
- **Clean Up Small Movements** lists the *moving* vertices (distance > 0)
  in index order and reports when there are none. Otherwise it stable-sorts
  them by ascending distance and resets a selection of them to an exact
  copy of their basis position:
  - PERCENTAGE mode resets the first `int(M * (p / 100.0))` of the sorted list;
  - THRESHOLD mode resets every moving vertex whose distance is at most the
    threshold.

  It reports how many vertices it reset and how many still move. When
  nothing moves it returns FINISHED with an informational report and
  writes nothing (`_init_.py:307-309`); the model's `NothingToClean`
  report stands for that outcome.

The model is organised as follows:

- `geometry.dfy` (`Geometry`): coordinates, and the distance test in
  squared form. Lemmas show the squared test decides exactly the same
  comparisons as the true length would. It also holds `Lerp`.
- `selection.dfy` (`Selection`): the affected-vertex set, the face mask and
  flag counting, with the threshold-monotonicity lemmas.
- `vertex_groups.dfy` (`VertexGroups`): group lookup by name, the
  per-vertex weight, and the blend lemmas.
- `cleanup.dfy` (`Cleanup`): the moving list, an in-place stable sort on an
  array, the two reset-selection rules, and the lemmas characterising them.
- `shapekey_tools.dfy` (`ShapekeyTools`): the class `ShapeKeyMesh`. It
  holds the basis and shape positions and the vertex and face select flags
  as arrays, plus the faces, the vertex-group names and each vertex's group
  entries. Each operator is a method with the source's loops, proved
  against the functions above.
- `worked_example.dfy` (`WorkedExample`): one concrete mesh of four
  vertices moved along x by 0, 1, 2 and 3, with the exact sets that
  vertex selection and both clean-up modes compute on it.

The code has no error path for mismatched array lengths: Blender keeps
shape-key data index-aligned, so alignment is the class invariant
`Valid()`. The percentage property is bounded to [0, 100] by its
declaration (`_init_.py:235-242`), so that range is a precondition of the
clean-up.

## Model

| member | source | states |
|---|---|---|
| Geometry.SqDist | _init_.py:61 | the squared basis-to-shape distance is never negative, and is zero exactly when the two positions coincide |
| Geometry.Exceeds | _init_.py:61 | the strict test `(shape_co - basis_co).length > t`, also used at lines 118 and 303, stated on the squared distance; `Geometry.ExceedsIsLengthTest` shows it is exactly `length > t` |
| Geometry.WithinSq | _init_.py:323 | the inclusive test `v[1] <= distance_threshold` on the squared distance; `Geometry.WithinIsLengthTest` shows it is exactly `length <= t` |
| Geometry.ExceedsIsLengthTest | _init_.py:61 | the squared test `Exceeds(a, b, t)` holds exactly when the true length `len` (the non-negative root of the squared distance) satisfies `len > t`, for every threshold, negative ones included |
| Geometry.WithinIsLengthTest | _init_.py:323 | the squared test `WithinSq` holds exactly when the true length is `<= t` (inclusive) |
| Geometry.SquaredOrderIsLengthOrder | _init_.py:312 | ordering by squared distance is ordering by length, with equal keys exactly when the lengths are equal, so sorting on the squared key sorts on length, ties included |
| Geometry.MovingIffDisplaced | _init_.py:303 | `dist > 0.0` holds exactly when the shape position differs from the basis position |
| Geometry.ExceedsAntitone | _init_.py:61 | a vertex passing the strict test at a threshold also passes it at every smaller threshold |
| Geometry.Lerp | _init_.py:216 | `lerp(a, b, t)` is `a` at `t = 0` and `b` at `t = 1`, and is `a` whenever `a == b` |
| Geometry.LerpScalesDisplacement | _init_.py:216 | blending from the basis scales the squared displacement by the square of the weight |
| Selection.CountTrueIsSize | _init_.py:55-63 | the number of set flags is the size of the set of flagged positions, and at most the number of flags |
| Selection.AffectedCountIsSetSize | _init_.py:55-63 | the mask built by the strict test marks exactly the affected-vertex set, and its count is that set's size |
| Selection.AffectedAntitone | _init_.py:56-63 | raising the threshold shrinks the affected set (subset) and never raises the count |
| Selection.FacesAntitone | _init_.py:121-132 | raising the threshold only deselects faces, never raises the face count, and the face count never exceeds the number of faces |
| VertexGroups.FindGroup | _init_.py:183-186 | the lookup finds nothing exactly when no group has the name; otherwise it gives a valid index of a group with that name, the first one |
| VertexGroups.WeightOf | _init_.py:201-205 | a vertex's weight in group `g` is the weight of its first entry for `g`, and 0.0 when it has none |
| VertexGroups.EffectiveWeight | _init_.py:201-209 | the weight the blend uses: the group weight, or `1 - weight` when inverted; a vertex in no entry of the group gets 0, or 1 when inverted |
| VertexGroups.LookupWeight | _init_.py:201-205 | the scan over `vert.groups`, stopping at the first entry for the group, yields exactly `WeightOf` |
| VertexGroups.UngroupedVertex | _init_.py:201-216 | a vertex outside the group returns to its basis position, or keeps its shape position when the weight is inverted |
| VertexGroups.InvertedBlendIsReverseBlend | _init_.py:208-216 | blending with `1 - w` from basis toward shape equals blending with `w` from shape toward basis |
| Cleanup.MovingUpToFacts | _init_.py:298-304 | after `k` iterations the list holds exactly the moving vertices below `k`, each with its own squared distance, in strictly increasing index order, one entry per moving vertex |
| Cleanup.MovingEntries | _init_.py:296-304 | the list `vertex_distances` built by the loop; `Cleanup.MovingEntriesFacts` shows it holds exactly one entry per moving vertex, with its distance, in index order |
| Cleanup.MovingEntriesFacts | _init_.py:296-304 | the finished list holds exactly one entry per moving vertex, each with its own distance, in index order |
| Cleanup.SortByDistance | _init_.py:312 | the in-place sort permutes the list (same multiset), orders it by ascending distance, and keeps index order among equal distances when the input is in index order |
| Cleanup.SortedMovingFacts | _init_.py:296-312 | the sorted list contains exactly the moving vertices' entries, has one entry per moving vertex, and no index twice |
| Cleanup.PercentageCount | _init_.py:319 | `int(M * (p / 100.0))`, on exact reals, is the floor of `M * p / 100`: at most `M`, 0 at 0 %, `M` at 100 % |
| Cleanup.PrefixIsLeastMoving | _init_.py:317-320 | the first `n` sorted entries are `n` distinct moving vertices, each before every other moving vertex in the stable order, so none moves more than any moving vertex left alone |
| Cleanup.PrefixIndices | _init_.py:320 | the comprehension over the first `n` sorted entries; `Cleanup.PrefixIsLeastMoving` shows these are `n` distinct least-moved vertices |
| Cleanup.LeastMovingUnique | _init_.py:312-320 | two sets of the same size that both consist of least-moved vertices are equal, so the percentage pick is determined by the stable order alone |
| Cleanup.ThresholdPicks | _init_.py:323 | the comprehension keeps an index exactly when some sorted entry with that index is within the threshold, and keeps no more entries than the list has |
| Cleanup.ThresholdPicksAreThresholdSet | _init_.py:321-323 | the threshold picks are distinct valid indices, and they are exactly the moving vertices within the threshold |
| Cleanup.ResetTo | _init_.py:325-330 | the shape positions after the reset loop: basis copies at the reset vertices, old positions elsewhere; `ShapekeyTools.ShapeKeyMesh.ResetToBasis` shows the loop produces it and `Cleanup.ResetShrinksMoving` what it does to the moving set |
| Cleanup.ResetShrinksMoving | _init_.py:326-340 | resetting a set of moving vertices leaves exactly the other moving vertices moving, so each run removes exactly `reset_count` vertices from the moving set |
| Cleanup.ThresholdRunConverges | _init_.py:321-330 | after a THRESHOLD run, a second run with the same threshold finds nothing to reset |
| ShapekeyTools.ShapeKeyMesh.ClearFlags | _init_.py:51-52 | the deselect-all loop leaves every flag cleared |
| ShapekeyTools.ShapeKeyMesh.SelectAffectedVertices | _init_.py:50-63 | afterwards vertex `i` is selected exactly when its distance exceeds the threshold; the count equals the number of selected flags and the size of the affected set; no position is written |
| ShapekeyTools.ShapeKeyMesh.CollectAffected | _init_.py:113-119 | the collected set is exactly the set of vertices whose distance exceeds the threshold |
| ShapekeyTools.ShapeKeyMesh.TouchesAffected | _init_.py:128-132 | the scan of a face's corners finds an affected one exactly when the face has one |
| ShapekeyTools.ShapeKeyMesh.SelectAffectedFaces | _init_.py:113-132 | afterwards face `f` is selected exactly when one of its corners is affected; the count equals the number of selected faces and is at most the face count; no position is written |
| ShapekeyTools.ShapeKeyMesh.BlendFromVertexGroup | _init_.py:183-216 | cancels exactly when no group has the name, and then writes nothing; otherwise each vertex becomes `lerp(basis, old shape, w)` with `w` its (possibly inverted) weight; the basis is unchanged |
| ShapekeyTools.ShapeKeyMesh.CollectMoving | _init_.py:296-304 | the collected list is the moving list in index order |
| ShapekeyTools.ShapeKeyMesh.CleanUpSmallMovements | _init_.py:296-340 | reports nothing to clean exactly when no vertex moves, and then writes nothing; otherwise resets a subset of the moving vertices to their basis positions and leaves every other position unchanged. PERCENTAGE resets `floor(M * p / 100)` least-moved vertices; THRESHOLD resets exactly the moving vertices within the threshold. Reports `moving = M`, the reset count and `remaining = M - reset >= 0` |
| ShapekeyTools.ShapeKeyMesh.ResetToBasis | _init_.py:325-330 | each listed vertex becomes an exact copy of its basis position, every other vertex keeps its position, and the count is the list's length |
| WorkedExample.SelectsThree | _init_.py:56-63 | on the four-vertex example, threshold 0.5 selects vertices 1, 2 and 3, which are also the moving vertices |
| WorkedExample.HalfOfThree | _init_.py:319 | 50 % of 3 moving vertices resets `floor(1.5) = 1` |
| WorkedExample.LeastMovedIsVertexOne | _init_.py:312-320 | on the example, `{1}` is the set of least-moved vertices, so PERCENTAGE 50 resets vertex 1 |
| WorkedExample.ThresholdResetsVertexOne | _init_.py:323 | on the example, THRESHOLD 1.5 resets vertex 1 only |
| WorkedExample.TwoStillMoving | _init_.py:325-340 | on the example, resetting vertex 1 gives the positions `[0, 0, 2, 3]` along x and leaves 2 vertices moving |

## Left out

- Blender operator machinery is not modelled: `poll`, `invoke` reading window-manager properties, registration, `bl_info` and the panel's `draw`. It is host API with no logic of its own.
- Switching between object and edit mode, `select_mode` and `mesh.update()` are host side effects. They are not modelled. One consequence is not captured: the nothing-to-clean return (`_init_.py:307-309`) skips the mode restore of the normal path (`_init_.py:336-337`), so an object that was in edit mode is left in object mode.
- The `self.report` message strings are not modelled. The counts they carry are, as method results.
- Floating point is not modelled. Coordinates and weights are exact reals. `Vector.length` is not computed: the distance tests compare squared distances instead, and `Geometry.ExceedsIsLengthTest`, `Geometry.WithinIsLengthTest` and `Geometry.SquaredOrderIsLengthOrder` show this decides the same comparisons. `int()` of the non-negative product is the floor on exact reals.
- Cleanup.PercentageCount: the reset count is the exact floor of `M * (p / 100.0)`, not its IEEE-double value. The two can differ by one: in double arithmetic `100 * (29 / 100.0)` is `28.999999999999996`, so the add-on resets 28 vertices where the model resets 29. For integer percentages and `M <= 200` there are 12 such cases.
- Cleanup.SortByDistance: stability (index order kept among equal distances) is stated only for input already in index order, not for every input as Python's `list.sort` promises. The moving list is always in index order (`Cleanup.MovingEntriesFacts`), so the clean-up uses the sort only in that case.
- The clean-up sorts on the squared distance rather than the length. The entries carry the squared value, and `Geometry.SquaredOrderIsLengthOrder` shows the order is the same.
- ShapekeyTools.ShapeKeyMesh.CleanUpSmallMovements: the reset set is a ghost out-parameter. The executable results are the report and the new shape positions, which the contract ties to that set.
- Vertex groups are modelled as a list of names, whose positions are the group indices, and per vertex a list of (group index, weight) entries. Blender keeps group names unique; `VertexGroups.FindGroup` returns the first match, which agrees whenever the names are unique.
- Mismatched array lengths are excluded by the class invariant `Valid()`, as Blender guarantees. The code has no error path for them.
- The panel comment at `_init_.py:397` mentions a former distance-based blend. The code has no such operator, so there is nothing to model.
