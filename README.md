# BlendNormals: copyNormals, modelled and proved in Dafny

`copyNormals(sourceObject, targetObject, threshold)` in `bm_blendNormals.py` makes the shading
continuous across a seam between two meshes. It runs in three steps:

1. It collects the boundary vertices of each mesh. These are the vertices on an open edge. For
   each one it keeps the index and the world-space position, in two parallel arrays.
2. It pairs boundary vertices. For each source boundary vertex, in order, it scans the target
   boundary vertices in order. It stores the first one within `threshold` in the dict
   `vertPairs` and stops the scan. Later, closer targets are never looked at.
3. It copies normals. For each entry of `vertPairs` it reads the source vertex normal and
   writes it over the target vertex normal. There is no blending.

If either object name is `None` or empty, it returns at once and changes nothing.

The model has three modules:

- `Geometry` (`geometry.dfy`): world-space vectors and the distance test `Within`. The test
  compares squared lengths over `real`, so no square root is needed. `DistanceTest` proves
  that it accepts exactly the pairs whose Euclidean distance is `<= threshold`.
- `PyDict` (`py_dict.dfy`): the part of a Python dict that the operation uses. That is a
  mapping plus its keys in insertion order. Insertion order is the order `for vert in
  vertPairs` visits the keys in Python 3.7 and later.
- `BlendNormals` (`blend_normals.dfy`): the three steps and the whole operation.

Each step is an imperative method with loops, proved equal to a specification function:

- `CollectBoundary` is proved equal to `BoundaryOf` and `PositionsOf`.
- `PairBoundary` has the nested loop and the `break`. It is proved equal to `Pairing` and
  `FirstWithin`.
- `CopyPairedNormals` overwrites an `array` of target normals in place. It is proved equal to
  `CopyAlong`.

The lemmas then state what the source promises about those functions.

The host is replaced by plain inputs:

- A mesh is the sequence of its vertices in the vertex iterator's order.
- A vertex's index is its place in that sequence. It carries its `onBoundary` flag and its
  world-space position.
- Vertex normals are arrays of vectors, one per vertex.
- The model assumes that when both names denote the same mesh, the host hands out one normal
  table for both, so the two normal arrays are one array and a read sees earlier writes.
  `SelfOutcome` and `CopyInPlace` model that case. This is an assumption about the host; it is
  listed under "## Left out".

## Model

| member | source | states |
|---|---|---|
| Geometry.Within | bm_blendNormals.py:63 | the distance test: the threshold is non-negative and the squared distance is at most its square |
| Geometry.DistanceTest | bm_blendNormals.py:63 | for the Euclidean distance `len` between two points, `Within` holds iff `len <= threshold`: the test is inclusive, a distance equal to the threshold is accepted and any larger one refused, and a negative threshold accepts nothing |
| BlendNormals.Named | bm_blendNormals.py:13 | the guard: a name counts only when it is present and non-empty |
| BlendNormals.BoundaryOf | bm_blendNormals.py:31-51 | the collected indices are exactly the vertices whose boundary flag is set, each a valid vertex index, in strictly increasing (iteration) order |
| BlendNormals.PositionsOf | bm_blendNormals.py:37 | the position array has one entry per collected index, and entry k is the world position of vertex `verts[k]` |
| BlendNormals.CollectBoundary | bm_blendNormals.py:28-51 | the iterator loop leaves the index array equal to `BoundaryOf(mesh)` and the position array corresponding to it element by element |
| BlendNormals.FirstWithin | bm_blendNormals.py:60-67 | the scan's result, if any, is a candidate within the threshold and no earlier candidate is within it; no result means no candidate at all is within the threshold |
| PyDict.Dict.Put | bm_blendNormals.py:65 | `d[k] = v` keeps the dict well formed (each key listed once, listed keys = mapped keys), maps `k` to `v` and leaves other entries alone, appends a new key last and keeps an existing key in its place |
| BlendNormals.Pairing | bm_blendNormals.py:54-67 | `vertPairs` is a well-formed dict whose every key is a source boundary index and every value a target boundary index |
| BlendNormals.PairBoundary | bm_blendNormals.py:54-67 | the nested loop with `break` builds exactly `Pairing` of the collected arrays |
| BlendNormals.PairingAt | bm_blendNormals.py:56-67 | for distinct source indices: source boundary vertex i has no entry iff no target is within the threshold, and otherwise its entry is the target index of its first match |
| BlendNormals.SeamPairs | bm_blendNormals.py:28-67 | the pairing of two meshes is a well-formed dict whose keys are source vertex indices and whose values are target vertex indices |
| BlendNormals.SeamPairsKeys | bm_blendNormals.py:54-67 | a source vertex has an entry iff it is a boundary vertex and some target boundary vertex lies within the threshold; an unmatched vertex just has no entry |
| BlendNormals.SeamPairsFirstMatch | bm_blendNormals.py:60-67 | an entry pairs a source boundary vertex with a target boundary vertex within the threshold, and no target boundary vertex with a lower index is within it, however close a later one is |
| BlendNormals.FirstMatchNotNearest | bm_blendNormals.py:63-67 | when the first candidate is within the threshold it is chosen even though a later one is strictly nearer (and also within) |
| BlendNormals.CopyAlong | bm_blendNormals.py:73-79 | the copy loop over the dict's keys yields a normal table of the same size; its meaning is proved in the CopyAlong lemmas below |
| BlendNormals.CopyInPlace | bm_blendNormals.py:73-79 | the same loop when source and target are one mesh (reads see earlier writes) keeps the table size |
| BlendNormals.CopyPairedNormals | bm_blendNormals.py:73-79 | the loop leaves the target normals equal to `CopyAlong` of the old target and source normals (or `CopyInPlace` when the arrays alias) and writes nothing else |
| BlendNormals.CopyAlongUnclaimed | bm_blendNormals.py:73-79 | a target vertex that no key is paired with keeps its old normal |
| BlendNormals.CopyAlongSoleClaimant | bm_blendNormals.py:77-79 | a target vertex claimed by exactly one source vertex ends up with that source vertex's normal, exactly: no blending |
| BlendNormals.CopyAlongLastClaimant | bm_blendNormals.py:73-79 | a target vertex claimed by several source vertices ends up with the normal of the claimant visited last |
| BlendNormals.CopyAlongOverwrites | bm_blendNormals.py:79 | on a claimed target vertex the result does not depend on the old target normal |
| BlendNormals.CopyAlongIdempotent | bm_blendNormals.py:73-79 | copying again along keys that include the earlier ones gives what the later copy alone gives |
| BlendNormals.CopyInPlaceUnclaimed | bm_blendNormals.py:73-79 | when source and target are one mesh, a vertex no key claims keeps its normal |
| BlendNormals.Outcome | bm_blendNormals.py:13-79 | the target normals after the operation on two distinct meshes have one entry per target vertex |
| BlendNormals.SelfOutcome | bm_blendNormals.py:13-79 | the normals after the operation on one mesh named twice have one entry per vertex; `SelfIsOutcome` gives it its meaning |
| BlendNormals.PairingKeysIncreasing | bm_blendNormals.py:54-67 | `vertPairs` gains keys in the order the source boundary indices are visited, so increasing indices give increasing keys |
| BlendNormals.SeamPairsKeysIncreasing | bm_blendNormals.py:28-67 | the keys of the pairing of two meshes are listed in increasing vertex order |
| BlendNormals.SelfPairsDescend | bm_blendNormals.py:60-67 | on one mesh named twice, a vertex's entry is itself or a lower-indexed vertex, since a boundary vertex is within any non-negative threshold of itself and the scan takes the first match |
| BlendNormals.CopyInPlaceIsCopyAlong | bm_blendNormals.py:73-79 | copying within one normal table equals copying from an unchanged snapshot of it whenever no key reads a vertex an earlier key wrote |
| BlendNormals.SelfPairsNoReadAfterWrite | bm_blendNormals.py:54-79 | on one mesh named twice, no entry of `vertPairs` reads a normal that an earlier entry wrote |
| BlendNormals.SelfIsOutcome | bm_blendNormals.py:13-79 | the operation on one mesh named twice gives exactly `Outcome` with that mesh and its normals passed as both source and target, so the unclaimed and sole-claimant results hold for it too |
| BlendNormals.CopyNormals | bm_blendNormals.py:4-79 | an absent or empty name changes no normal; the source normals are never written; the target normals become `Outcome` of the old ones (`SelfOutcome` when both names denote one mesh) |
| BlendNormals.OutcomeUnclaimed | bm_blendNormals.py:54-79 | after the operation, a target vertex that no source vertex claims keeps its original normal |
| BlendNormals.OutcomeSoleClaimant | bm_blendNormals.py:54-79 | after the operation, a target vertex claimed by exactly one source vertex carries that source vertex's normal |
| BlendNormals.OutcomeIdempotent | bm_blendNormals.py:54-79 | running the operation a second time with unchanged meshes and source normals leaves the target normals as the first run left them |

## Left out

- Scene access through the Maya API is not modelled: `MSelectionList`, `MDagPath`, `MFnMesh` and `MItMeshVertex`. The operation takes the already resolved meshes as parameters. So the fatal error for an unknown name, or a name that is not a mesh, is not modelled.
- The topology test behind `onBoundary()` is not modelled. Each vertex carries its flag as an input.
- World-space transforms are not modelled. Positions and normals are given already in world space.
- The model assumes the vertex iterator visits vertices in index order, so a vertex's index is its place in the sequence.
- Floating point is not modelled. `MVector.length()` and its square root are replaced by an exact comparison of squared lengths over `real`. `Geometry.DistanceTest` shows that this matches `length() <= threshold` on exact reals. Rounding is not covered.
- An error from a host call part-way through the copy is not modelled. In the source such an error aborts the copy, and the normals already written stay changed.
- The dict's iteration order is modelled as insertion order, which is Python 3.7+ behaviour. Python 2 visits a dict's keys in hash order. For two distinct meshes every result holds for any key order except `CopyAlongLastClaimant`, which decides which claimant wins a target claimed several times. When one mesh is named twice, the results need insertion order: `SelfIsOutcome`, `PairingKeysIncreasing`, `SeamPairsKeysIncreasing` and `SelfPairsNoReadAfterWrite`, and through them the one-mesh reading of `OutcomeUnclaimed` and `OutcomeSoleClaimant`. For example, take boundary vertices 0, 1, 3 and 10 at x = 0, 1, 2 and 3, with threshold 1. The pairs are `{0:0, 1:0, 3:1, 10:3}`, and vertex 1 is claimed only by vertex 3. A Python 2 dict with 8 slots visits the keys as 0, 1, 10, 3. Vertex 3's normal is then overwritten with N10 before it is copied to vertex 1, so vertex 1 ends with N10, where `SelfIsOutcome` gives N3.
- BlendNormals.CopyNormals: when the two normal arrays alias, its contract says something only if the two meshes are also equal. What the host does in the aliasing cases is an assumption, not something `copyNormals` shows: whether `MSelectionList` keeps a name added twice (if it does not, `getDagPath(1, dagB)` fails before any normal is written), and whether two transforms instancing one shape share normal data while their world positions differ (normal arrays alias, meshes differ). Neither case is modelled.
- BlendNormals.CopyNormals: the `None` defaults of `sourceObject` and `targetObject` are not modelled as default parameters, because the mesh and normal parameters follow them; a caller passes `None` explicitly. The `threshold` default of 0.01 is kept.
- BlendNormals.OutcomeIdempotent: it covers two distinct meshes only. When one mesh is named twice, the first run changes the source normals too, so a second run can differ. Take boundary vertices at positions 0, 1 and 2 on a line, threshold 1, normals N0, N1, N2: one run gives [N1, N2, N2] and a second gives [N2, N2, N2].
- Per-face normals are not modelled. A vertex has a single normal, as `getVertexNormal` and `setVertexNormal` treat it.
