/**
 * Vertex groups as the host exposes them: the object's groups, found by
 * name, and for each vertex its `groups` list of (group index, weight)
 * entries. A vertex listed in no entry of a group has weight 0 in it.
 */
module VertexGroups {
  import opened Geometry

  datatype Option<T> = None | Some(value: T)

  /** One entry of a vertex's `groups` list. */
  datatype GroupEntry = GroupEntry(group: nat, weight: real)

  /**
   * `obj.vertex_groups.get(name)`: the index of the first group called
   * `name`, or nothing when no group has that name.
   */
  function FindGroup(names: seq<string>, name: string): (r: Option<nat>)
    ensures r.None? <==> name !in names
    ensures r.Some? ==> r.value < |names| && names[r.value] == name
    ensures r.Some? ==> forall j :: 0 <= j < r.value ==> names[j] != name
  {
    if names == [] then None
    else if names[0] == name then Some(0)
    else
      match FindGroup(names[1..], name)
      case None => None
      case Some(k) => Some(k + 1)
  }

  /**
   * The weight of a vertex in group `g`: the weight of its first entry
   * for `g`, and 0 when it has none.
   */
  function WeightOf(entries: seq<GroupEntry>, g: nat): (w: real)
    ensures (forall k :: 0 <= k < |entries| ==> entries[k].group != g) ==> w == 0.0
    ensures forall k ::
              (0 <= k < |entries| && entries[k].group == g && forall j :: 0 <= j < k ==> entries[j].group != g)
              ==> w == entries[k].weight
  {
    if entries == [] then 0.0
    else if entries[0].group == g then entries[0].weight
    else WeightOf(entries[1..], g)
  }

  /** The weight the blend uses: the group weight, or `1 - weight` when inverted. */
  function EffectiveWeight(entries: seq<GroupEntry>, g: nat, invert: bool): (w: real)
    ensures (forall k :: 0 <= k < |entries| ==> entries[k].group != g) ==> w == (if invert then 1.0 else 0.0)
  {
    if invert then 1.0 - WeightOf(entries, g) else WeightOf(entries, g)
  }

  /** The per-vertex lookup loop: scan the entries, stop at the first one for `g`. */
  method LookupWeight(entries: seq<GroupEntry>, g: nat) returns (weight: real)
    ensures weight == WeightOf(entries, g)
  {
    weight := 0.0;
    var k := 0;
    while k < |entries|
      invariant 0 <= k <= |entries|
      invariant forall j :: 0 <= j < k ==> entries[j].group != g
    {
      if entries[k].group == g {
        weight := entries[k].weight;
        break;
      }
      k := k + 1;
    }
  }

  /**
   * A vertex outside the group goes back to its basis position, or keeps
   * its shape position when the group is inverted.
   */
  lemma UngroupedVertex(entries: seq<GroupEntry>, g: nat, basisCo: Vec3, shapeCo: Vec3)
    requires forall k :: 0 <= k < |entries| ==> entries[k].group != g
    ensures Lerp(basisCo, shapeCo, EffectiveWeight(entries, g, false)) == basisCo
    ensures Lerp(basisCo, shapeCo, EffectiveWeight(entries, g, true)) == shapeCo
  {
  }

  /**
   * Inverting the weight blends from the shape toward the basis instead:
   * `lerp(basis, shape, 1 - w) == lerp(shape, basis, w)`.
   */
  lemma InvertedBlendIsReverseBlend(a: Vec3, b: Vec3, w: real)
    ensures Lerp(a, b, 1.0 - w) == Lerp(b, a, w)
  {
    LerpComplement(a.x, b.x, w);
    LerpComplement(a.y, b.y, w);
    LerpComplement(a.z, b.z, w);
  }

  lemma LerpComplement(p: real, q: real, w: real)
    ensures p + (1.0 - w) * (q - p) == q + w * (p - q)
  {
    assert (1.0 - w) * (q - p) == (q - p) - w * (q - p);
    assert w * (p - q) == -(w * (q - p));
  }
}
