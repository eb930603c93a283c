/** copyNormals: find the boundary vertices of a source and a target mesh that lie on
    top of each other, and overwrite each such target vertex's normal with the normal
    of the source vertex matched to it.

    The host mesh is given as plain values. A mesh is the sequence of its vertices in
    the vertex iterator's order, and a vertex's index is its place in that sequence.
    Each vertex carries its boundary flag and its world-space position. Vertex normals
    are the only state the operation changes, so they are arrays. */
module BlendNormals {
  import opened Geometry
  import opened PyDict

  datatype Option<T> = None | Some(value: T)

  /** What the vertex iterator reports for one vertex. */
  datatype Vertex = Vertex(onBoundary: bool, position: Vec3)

  /** Python's truth test on an object name: None and "" are false. */
  predicate Named(name: Option<string>)
  {
    name.Some? && name.value != []
  }

  /*********************************************************************************
   * Step 1: boundary collection
   *********************************************************************************/

  /** The indices of the boundary vertices, in iteration order: exactly the vertices
      whose boundary flag is set, each once, in increasing order. */
  function BoundaryOf(mesh: seq<Vertex>): (r: seq<nat>)
    ensures forall v: nat :: v in r <==> v < |mesh| && mesh[v].onBoundary
    ensures forall p, q :: 0 <= p < q < |r| ==> r[p] < r[q]
    ensures forall k :: 0 <= k < |r| ==> r[k] < |mesh|
  {
    if mesh == [] then []
    else
      var n := |mesh| - 1;
      var prev := BoundaryOf(mesh[..n]);
      assert forall p :: 0 <= p < |prev| ==> prev[p] in prev;
      prev + (if mesh[n].onBoundary then [n] else [])
  }

  /** The world-space positions of the listed vertices, element by element. */
  function PositionsOf(mesh: seq<Vertex>, verts: seq<nat>): (r: seq<Vec3>)
    requires forall k :: 0 <= k < |verts| ==> verts[k] < |mesh|
    ensures |r| == |verts|
    ensures forall k :: 0 <= k < |verts| ==> r[k] == mesh[verts[k]].position
  {
    seq(|verts|, k requires 0 <= k < |verts| => mesh[verts[k]].position)
  }

  /** One `while not iter.isDone()` loop: append the index and the position of every
      boundary vertex to two parallel arrays. */
  method CollectBoundary(mesh: seq<Vertex>) returns (verts: seq<nat>, locs: seq<Vec3>)
    ensures verts == BoundaryOf(mesh)
    ensures locs == PositionsOf(mesh, verts)
  {
    verts, locs := [], [];
    var v := 0;
    while v < |mesh|
      invariant 0 <= v <= |mesh|
      invariant verts == BoundaryOf(mesh[..v])
      invariant locs == PositionsOf(mesh, verts)
    {
      assert mesh[..v + 1][..v] == mesh[..v];
      if mesh[v].onBoundary {
        verts := verts + [v];
        locs := locs + [mesh[v].position];
      }
      v := v + 1;
    }
    assert mesh[..|mesh|] == mesh;
  }

  /*********************************************************************************
   * Step 2: first-match pairing
   *********************************************************************************/

  /** The first candidate within the threshold of `p`, if any: not the nearest one. */
  function FirstWithin(p: Vec3, candidates: seq<Vec3>, threshold: real): (r: Option<nat>)
    ensures r.Some? ==> r.value < |candidates| && Within(p, candidates[r.value], threshold)
    ensures r.Some? ==> forall j :: 0 <= j < r.value ==> !Within(p, candidates[j], threshold)
    ensures r.None? ==> forall j :: 0 <= j < |candidates| ==> !Within(p, candidates[j], threshold)
  {
    if candidates == [] then None
    else if Within(p, candidates[0], threshold) then Some(0)
    else
      match FirstWithin(p, candidates[1..], threshold)
      case None => None
      case Some(j) => Some(j + 1)
  }

  /** The dict `vertPairs` after the pairing loop has processed every source boundary
      vertex: source vertex `i` stores `vertsA[i] -> vertsB[j]` for its first match `j`. */
  function Pairing(vertsA: seq<nat>, locsA: seq<Vec3>, vertsB: seq<nat>, locsB: seq<Vec3>,
                   threshold: real): (d: Dict)
    requires |vertsA| == |locsA| && |vertsB| == |locsB|
    ensures d.Valid()
    ensures forall k :: k in d.at ==> k in vertsA && d.at[k] in vertsB
  {
    if vertsA == [] then Empty
    else
      var n := |vertsA| - 1;
      var prev := Pairing(vertsA[..n], locsA[..n], vertsB, locsB, threshold);
      match FirstWithin(locsA[n], locsB, threshold)
      case None => prev
      case Some(j) => prev.Put(vertsA[n], vertsB[j])
  }

  /** The nested pairing loop: for each source boundary vertex, scan the target
      boundary vertices in order and store the first one within the threshold, then
      `break`. */
  method PairBoundary(vertsA: seq<nat>, locsA: seq<Vec3>, vertsB: seq<nat>, locsB: seq<Vec3>,
                      threshold: real) returns (vertPairs: Dict)
    requires |vertsA| == |locsA| && |vertsB| == |locsB|
    ensures vertPairs == Pairing(vertsA, locsA, vertsB, locsB, threshold)
  {
    vertPairs := Empty;
    var i := 0;
    while i < |locsA|
      invariant 0 <= i <= |locsA|
      invariant vertPairs == Pairing(vertsA[..i], locsA[..i], vertsB, locsB, threshold)
    {
      assert vertsA[..i + 1][..i] == vertsA[..i] && locsA[..i + 1][..i] == locsA[..i];
      var j := 0;
      while j < |locsB|
        invariant 0 <= j <= |locsB|
        invariant vertPairs == Pairing(vertsA[..i], locsA[..i], vertsB, locsB, threshold)
        invariant forall k :: 0 <= k < j ==> !Within(locsA[i], locsB[k], threshold)
      {
        if Within(locsA[i], locsB[j], threshold) {
          vertPairs := vertPairs.Put(vertsA[i], vertsB[j]);
          break;
        }
        j := j + 1;
      }
      i := i + 1;
    }
    assert vertsA[..|vertsA|] == vertsA && locsA[..|locsA|] == locsA;
  }

  /** For distinct source indices, source vertex `i` has an entry iff it has a match,
      and its entry is the target index of its first match. */
  lemma {:induction false} PairingAt(vertsA: seq<nat>, locsA: seq<Vec3>, vertsB: seq<nat>,
                                     locsB: seq<Vec3>, threshold: real, i: nat)
    requires |vertsA| == |locsA| && |vertsB| == |locsB|
    requires forall p, q :: 0 <= p < q < |vertsA| ==> vertsA[p] != vertsA[q]
    requires i < |vertsA|
    ensures var d := Pairing(vertsA, locsA, vertsB, locsB, threshold);
      match FirstWithin(locsA[i], locsB, threshold)
      case None => vertsA[i] !in d.at
      case Some(j) => vertsA[i] in d.at && d.at[vertsA[i]] == vertsB[j]
  {
    var n := |vertsA| - 1;
    var prev := Pairing(vertsA[..n], locsA[..n], vertsB, locsB, threshold);
    if i == n {
      assert vertsA[n] !in vertsA[..n];
    } else {
      assert vertsA[n] != vertsA[i];
      PairingAt(vertsA[..n], locsA[..n], vertsB, locsB, threshold, i);
    }
  }

  /** The pairing of two meshes, as the operation builds it from their boundaries. */
  function SeamPairs(meshA: seq<Vertex>, meshB: seq<Vertex>, threshold: real): (d: Dict)
    ensures d.Valid()
    ensures CopyFits(d.at, d.keys, |meshA|, |meshB|)
  {
    var vertsA := BoundaryOf(meshA);
    var vertsB := BoundaryOf(meshB);
    assert forall k :: 0 <= k < |vertsA| ==> vertsA[k] in vertsA;
    assert forall k :: 0 <= k < |vertsB| ==> vertsB[k] in vertsB;
    Pairing(vertsA, PositionsOf(meshA, vertsA), vertsB, PositionsOf(meshB, vertsB), threshold)
  }

  /** Which source vertices get an entry: exactly the boundary vertices of the source
      that have some target boundary vertex within the threshold. Having no match is
      not an error: the vertex just has no entry. */
  lemma SeamPairsKeys(meshA: seq<Vertex>, meshB: seq<Vertex>, threshold: real, s: nat)
    ensures s in SeamPairs(meshA, meshB, threshold).at <==>
      s < |meshA| && meshA[s].onBoundary &&
      exists u: nat :: u < |meshB| && meshB[u].onBoundary && Within(meshA[s].position, meshB[u].position, threshold)
  {
    var vertsA, vertsB := BoundaryOf(meshA), BoundaryOf(meshB);
    var locsA, locsB := PositionsOf(meshA, vertsA), PositionsOf(meshB, vertsB);
    if s in vertsA {
      var i :| 0 <= i < |vertsA| && vertsA[i] == s;
      PairingAt(vertsA, locsA, vertsB, locsB, threshold, i);
      if u: nat :| u < |meshB| && meshB[u].onBoundary && Within(meshA[s].position, meshB[u].position, threshold) {
        var j :| 0 <= j < |vertsB| && vertsB[j] == u;
        assert Within(locsA[i], locsB[j], threshold);
      }
    }
  }

  /** What an entry holds: the target is a boundary vertex within the threshold of the
      source, and no target boundary vertex enumerated before it is within the
      threshold, even if it is farther away than a later one. */
  lemma SeamPairsFirstMatch(meshA: seq<Vertex>, meshB: seq<Vertex>, threshold: real, s: nat)
    ensures var d := SeamPairs(meshA, meshB, threshold);
      s in d.at ==>
      && s < |meshA| && meshA[s].onBoundary
      && d.at[s] < |meshB| && meshB[d.at[s]].onBoundary
      && Within(meshA[s].position, meshB[d.at[s]].position, threshold)
      && forall u: nat :: u < d.at[s] && meshB[u].onBoundary ==> !Within(meshA[s].position, meshB[u].position, threshold)
  {
    var vertsA, vertsB := BoundaryOf(meshA), BoundaryOf(meshB);
    var locsA, locsB := PositionsOf(meshA, vertsA), PositionsOf(meshB, vertsB);
    if s !in SeamPairs(meshA, meshB, threshold).at {
      return;
    }
    var i :| 0 <= i < |vertsA| && vertsA[i] == s;
    PairingAt(vertsA, locsA, vertsB, locsB, threshold, i);
    var j := FirstWithin(locsA[i], locsB, threshold).value;
    forall u: nat | u < vertsB[j] && meshB[u].onBoundary
      ensures !Within(meshA[s].position, meshB[u].position, threshold)
    {
      var j' :| 0 <= j' < |vertsB| && vertsB[j'] == u;
      assert j' < j;
    }
  }

  /** First match, not nearest match: when the first candidate is within the
      threshold it is chosen, even if a later one is strictly nearer (candidates at
      0.005 and then 0.002 with threshold 0.01 give the one at 0.005). */
  lemma FirstMatchNotNearest(p: Vec3, first: Vec3, nearer: Vec3, threshold: real)
    requires Within(p, first, threshold)
    requires SqLength(Sub(p, nearer)) < SqLength(Sub(p, first))
    ensures Within(p, nearer, threshold)
    ensures FirstWithin(p, [first, nearer], threshold) == Some(0)
  {
  }

  /*********************************************************************************
   * Step 3: normal copy
   *********************************************************************************/

  /** Every listed key has an entry, is a source vertex, and maps to a target vertex. */
  predicate CopyFits(at: map<nat, nat>, keys: seq<nat>, sourceCount: nat, targetCount: nat)
  {
    forall k :: k in keys ==> k in at && k < sourceCount && at[k] < targetCount
  }

  /** The target normals after visiting `keys` in order, each visit overwriting the
      normal of the paired target vertex with the source vertex's normal. */
  function CopyAlong(target: seq<Vec3>, source: seq<Vec3>, at: map<nat, nat>, keys: seq<nat>): (r: seq<Vec3>)
    requires CopyFits(at, keys, |source|, |target|)
    ensures |r| == |target|
  {
    if keys == [] then target
    else
      var n := |keys| - 1;
      assert forall k :: k in keys[..n] ==> k in keys;
      CopyAlong(target, source, at, keys[..n])[at[keys[n]] := source[keys[n]]]
  }

  /** The same loop when source and target are one mesh: a read sees earlier writes. */
  function CopyInPlace(normals: seq<Vec3>, at: map<nat, nat>, keys: seq<nat>): (r: seq<Vec3>)
    requires CopyFits(at, keys, |normals|, |normals|)
    ensures |r| == |normals|
  {
    if keys == [] then normals
    else
      var n := |keys| - 1;
      assert forall k :: k in keys[..n] ==> k in keys;
      var prev := CopyInPlace(normals, at, keys[..n]);
      prev[at[keys[n]] := prev[keys[n]]]
  }

  /** The copy loop `for vert in vertPairs`: read the source normal, write it to the
      paired target vertex. */
  method CopyPairedNormals(vertPairs: Dict, normalsA: array<Vec3>, normalsB: array<Vec3>)
    requires CopyFits(vertPairs.at, vertPairs.keys, normalsA.Length, normalsB.Length)
    modifies normalsB
    ensures normalsA != normalsB ==>
      normalsB[..] == CopyAlong(old(normalsB[..]), old(normalsA[..]), vertPairs.at, vertPairs.keys)
    ensures normalsA == normalsB ==>
      normalsB[..] == CopyInPlace(old(normalsB[..]), vertPairs.at, vertPairs.keys)
  {
    var keys := vertPairs.keys;
    var i := 0;
    while i < |keys|
      invariant 0 <= i <= |keys|
      invariant CopyFits(vertPairs.at, keys[..i], normalsA.Length, normalsB.Length)
      invariant normalsA != normalsB ==> normalsA[..] == old(normalsA[..])
      invariant normalsA != normalsB ==>
        normalsB[..] == CopyAlong(old(normalsB[..]), old(normalsA[..]), vertPairs.at, keys[..i])
      invariant normalsA == normalsB ==>
        normalsB[..] == CopyInPlace(old(normalsB[..]), vertPairs.at, keys[..i])
    {
      assert keys[..i + 1][..i] == keys[..i];
      assert keys[i] in keys;
      var vert := keys[i];
      var vertNormal := normalsA[vert];
      normalsB[vertPairs.at[vert]] := vertNormal;
      i := i + 1;
    }
    assert keys[..|keys|] == keys;
  }

  /** A target vertex that no visited key claims keeps its normal. */
  lemma {:induction false} CopyAlongUnclaimed(target: seq<Vec3>, source: seq<Vec3>, at: map<nat, nat>,
                                              keys: seq<nat>, t: nat)
    requires CopyFits(at, keys, |source|, |target|)
    requires t < |target|
    requires forall k :: k in keys ==> at[k] != t
    ensures CopyAlong(target, source, at, keys)[t] == target[t]
  {
    if keys != [] {
      var n := |keys| - 1;
      assert forall k :: k in keys[..n] ==> k in keys;
      CopyAlongUnclaimed(target, source, at, keys[..n], t);
    }
  }

  /** A target vertex claimed by a single source vertex ends up with that source
      vertex's normal. */
  lemma {:induction false} CopyAlongSoleClaimant(target: seq<Vec3>, source: seq<Vec3>, at: map<nat, nat>,
                                                 keys: seq<nat>, s: nat)
    requires CopyFits(at, keys, |source|, |target|)
    requires s in keys
    requires forall k :: k in keys && at[k] == at[s] ==> k == s
    ensures CopyAlong(target, source, at, keys)[at[s]] == source[s]
  {
    var n := |keys| - 1;
    if keys[n] != s {
      assert forall k :: k in keys[..n] ==> k in keys;
      assert s in keys[..n] by {
        var i :| 0 <= i < |keys| && keys[i] == s;
        assert i < n;
      }
      CopyAlongSoleClaimant(target, source, at, keys[..n], s);
    }
  }

  /** A target vertex claimed by several source vertices ends up with the normal of
      the one visited last (insertion order of the dict). */
  lemma {:induction false} CopyAlongLastClaimant(target: seq<Vec3>, source: seq<Vec3>, at: map<nat, nat>,
                                                 keys: seq<nat>, i: nat)
    requires CopyFits(at, keys, |source|, |target|)
    requires i < |keys|
    requires forall q :: i < q < |keys| ==> at[keys[q]] != at[keys[i]]
    ensures CopyAlong(target, source, at, keys)[at[keys[i]]] == source[keys[i]]
  {
    var n := |keys| - 1;
    if i < n {
      assert forall k :: k in keys[..n] ==> k in keys;
      CopyAlongLastClaimant(target, source, at, keys[..n], i);
    }
  }

  /** On a claimed target vertex the result does not depend on the old normal: the
      copy only overwrites. */
  lemma {:induction false} CopyAlongOverwrites(a: seq<Vec3>, b: seq<Vec3>, source: seq<Vec3>,
                                               at: map<nat, nat>, keys: seq<nat>, s: nat)
    requires |a| == |b|
    requires CopyFits(at, keys, |source|, |a|)
    requires s in keys
    ensures CopyAlong(a, source, at, keys)[at[s]] == CopyAlong(b, source, at, keys)[at[s]]
  {
    var n := |keys| - 1;
    if at[keys[n]] != at[s] {
      assert forall k :: k in keys[..n] ==> k in keys;
      assert s in keys[..n] by {
        var i :| 0 <= i < |keys| && keys[i] == s;
        assert i < n;
      }
      CopyAlongOverwrites(a, b, source, at, keys[..n], s);
    }
  }

  /** Copying again over the result of an earlier copy, along any keys that include
      the earlier ones, gives what the later copy alone gives. */
  lemma CopyAlongIdempotent(target: seq<Vec3>, source: seq<Vec3>, at: map<nat, nat>,
                            keys1: seq<nat>, keys2: seq<nat>)
    requires CopyFits(at, keys1, |source|, |target|) && CopyFits(at, keys2, |source|, |target|)
    requires forall k :: k in keys1 ==> k in keys2
    ensures CopyAlong(CopyAlong(target, source, at, keys1), source, at, keys2)
         == CopyAlong(target, source, at, keys2)
  {
    var once := CopyAlong(target, source, at, keys1);
    forall t | 0 <= t < |target|
      ensures CopyAlong(once, source, at, keys2)[t] == CopyAlong(target, source, at, keys2)[t]
    {
      if s :| s in keys2 && at[s] == t {
        CopyAlongOverwrites(once, target, source, at, keys2, s);
      } else {
        CopyAlongUnclaimed(once, source, at, keys2, t);
        CopyAlongUnclaimed(target, source, at, keys1, t);
        CopyAlongUnclaimed(target, source, at, keys2, t);
      }
    }
  }

  /** When source and target are one mesh, a vertex no key claims keeps its normal. */
  lemma {:induction false} CopyInPlaceUnclaimed(normals: seq<Vec3>, at: map<nat, nat>, keys: seq<nat>, t: nat)
    requires CopyFits(at, keys, |normals|, |normals|)
    requires t < |normals|
    requires forall k :: k in keys ==> at[k] != t
    ensures CopyInPlace(normals, at, keys)[t] == normals[t]
  {
    if keys != [] {
      var n := |keys| - 1;
      assert forall k :: k in keys[..n] ==> k in keys;
      CopyInPlaceUnclaimed(normals, at, keys[..n], t);
    }
  }

  /*********************************************************************************
   * The whole operation
   *********************************************************************************/

  /** The target normals after copyNormals on two distinct meshes. */
  function Outcome(sourceObject: Option<string>, targetObject: Option<string>,
                   meshA: seq<Vertex>, meshB: seq<Vertex>,
                   normalsA: seq<Vec3>, normalsB: seq<Vec3>, threshold: real): (r: seq<Vec3>)
    requires |normalsA| == |meshA| && |normalsB| == |meshB|
    ensures |r| == |normalsB|
  {
    if !Named(sourceObject) || !Named(targetObject) then normalsB
    else
      var d := SeamPairs(meshA, meshB, threshold);
      CopyAlong(normalsB, normalsA, d.at, d.keys)
  }

  /** The normals after copyNormals when both names denote the same mesh. */
  function SelfOutcome(sourceObject: Option<string>, targetObject: Option<string>,
                       mesh: seq<Vertex>, normals: seq<Vec3>, threshold: real): (r: seq<Vec3>)
    requires |normals| == |mesh|
    ensures |r| == |normals|
  {
    if !Named(sourceObject) || !Named(targetObject) then normals
    else
      var d := SeamPairs(mesh, mesh, threshold);
      CopyInPlace(normals, d.at, d.keys)
  }

  /** copyNormals(sourceObject, targetObject, threshold = 0.01). */
  method CopyNormals(sourceObject: Option<string>, targetObject: Option<string>,
                     meshA: seq<Vertex>, meshB: seq<Vertex>,
                     normalsA: array<Vec3>, normalsB: array<Vec3>, threshold: real := 0.01)
    requires normalsA.Length == |meshA| && normalsB.Length == |meshB|
    modifies normalsB
    ensures !Named(sourceObject) || !Named(targetObject) ==> unchanged(normalsB)
    ensures normalsA != normalsB ==> unchanged(normalsA)
    ensures normalsA != normalsB ==>
      normalsB[..] == Outcome(sourceObject, targetObject, meshA, meshB, old(normalsA[..]), old(normalsB[..]), threshold)
    ensures normalsA == normalsB && meshA == meshB ==>
      normalsB[..] == SelfOutcome(sourceObject, targetObject, meshA, old(normalsB[..]), threshold)
  {
    if !Named(sourceObject) || !Named(targetObject) {
      return;
    }
    var boundaryVertsA, boundaryVertLocsA := CollectBoundary(meshA);
    var boundaryVertsB, boundaryVertLocsB := CollectBoundary(meshB);
    var vertPairs := PairBoundary(boundaryVertsA, boundaryVertLocsA, boundaryVertsB, boundaryVertLocsB, threshold);
    CopyPairedNormals(vertPairs, normalsA, normalsB);
  }

  /** After the operation on two distinct meshes, a target vertex that no source
      vertex claims keeps its normal. */
  lemma OutcomeUnclaimed(sourceObject: Option<string>, targetObject: Option<string>,
                         meshA: seq<Vertex>, meshB: seq<Vertex>,
                         normalsA: seq<Vec3>, normalsB: seq<Vec3>, threshold: real, t: nat)
    requires |normalsA| == |meshA| && |normalsB| == |meshB|
    requires t < |meshB|
    requires forall s :: s in SeamPairs(meshA, meshB, threshold).at ==> SeamPairs(meshA, meshB, threshold).at[s] != t
    ensures Outcome(sourceObject, targetObject, meshA, meshB, normalsA, normalsB, threshold)[t] == normalsB[t]
  {
    if Named(sourceObject) && Named(targetObject) {
      var d := SeamPairs(meshA, meshB, threshold);
      CopyAlongUnclaimed(normalsB, normalsA, d.at, d.keys, t);
    }
  }

  /** After the operation on two distinct meshes, a target vertex claimed by exactly
      one source vertex carries that source vertex's normal. */
  lemma OutcomeSoleClaimant(sourceObject: Option<string>, targetObject: Option<string>,
                            meshA: seq<Vertex>, meshB: seq<Vertex>,
                            normalsA: seq<Vec3>, normalsB: seq<Vec3>, threshold: real, s: nat)
    requires |normalsA| == |meshA| && |normalsB| == |meshB|
    ensures var d := SeamPairs(meshA, meshB, threshold);
      (Named(sourceObject) && Named(targetObject) && s in d.at &&
       forall s' :: s' in d.at && d.at[s'] == d.at[s] ==> s' == s) ==>
      Outcome(sourceObject, targetObject, meshA, meshB, normalsA, normalsB, threshold)[d.at[s]] == normalsA[s]
  {
    var d := SeamPairs(meshA, meshB, threshold);
    if Named(sourceObject) && Named(targetObject) && s in d.at &&
       forall s' :: s' in d.at && d.at[s'] == d.at[s] ==> s' == s
    {
      CopyAlongSoleClaimant(normalsB, normalsA, d.at, d.keys, s);
    }
  }

  /** Strictly increasing, so also free of repeats. */
  predicate Increasing(s: seq<nat>)
  {
    forall p, q :: 0 <= p < q < |s| ==> s[p] < s[q]
  }

  /** `Pairing` stores its keys in the order of the source indices, so increasing
      source indices give increasing keys. */
  lemma {:induction false} PairingKeysIncreasing(vertsA: seq<nat>, locsA: seq<Vec3>, vertsB: seq<nat>,
                                                 locsB: seq<Vec3>, threshold: real)
    requires |vertsA| == |locsA| && |vertsB| == |locsB|
    requires Increasing(vertsA)
    ensures Increasing(Pairing(vertsA, locsA, vertsB, locsB, threshold).keys)
  {
    if vertsA != [] {
      var n := |vertsA| - 1;
      var prev := Pairing(vertsA[..n], locsA[..n], vertsB, locsB, threshold);
      PairingKeysIncreasing(vertsA[..n], locsA[..n], vertsB, locsB, threshold);
      forall p | 0 <= p < |prev.keys|
        ensures prev.keys[p] < vertsA[n]
      {
        assert prev.keys[p] in prev.at;
        var i :| 0 <= i < n && vertsA[..n][i] == prev.keys[p];
      }
      match FirstWithin(locsA[n], locsB, threshold)
      case None =>
        assert Pairing(vertsA, locsA, vertsB, locsB, threshold) == prev;
      case Some(j) =>
        assert vertsA[n] !in prev.keys;
        assert Pairing(vertsA, locsA, vertsB, locsB, threshold).keys == prev.keys + [vertsA[n]];
    }
  }

  /** The keys of the pairing of two meshes are in increasing vertex order. */
  lemma SeamPairsKeysIncreasing(meshA: seq<Vertex>, meshB: seq<Vertex>, threshold: real)
    ensures Increasing(SeamPairs(meshA, meshB, threshold).keys)
  {
    var vertsA, vertsB := BoundaryOf(meshA), BoundaryOf(meshB);
    assert forall k :: 0 <= k < |vertsA| ==> vertsA[k] in vertsA;
    assert forall k :: 0 <= k < |vertsB| ==> vertsB[k] in vertsB;
    PairingKeysIncreasing(vertsA, PositionsOf(meshA, vertsA), vertsB, PositionsOf(meshB, vertsB), threshold);
    assert SeamPairs(meshA, meshB, threshold)
        == Pairing(vertsA, PositionsOf(meshA, vertsA), vertsB, PositionsOf(meshB, vertsB), threshold);
  }

  /** On one mesh named twice, every vertex is matched to itself or to an earlier
      vertex: it is on the boundary and within any non-negative threshold of itself. */
  lemma SelfPairsDescend(mesh: seq<Vertex>, threshold: real, s: nat)
    ensures var d := SeamPairs(mesh, mesh, threshold);
      s in d.at ==> d.at[s] <= s
  {
    var d := SeamPairs(mesh, mesh, threshold);
    if s in d.at {
      SeamPairsFirstMatch(mesh, mesh, threshold, s);
      assert Sub(mesh[s].position, mesh[s].position) == Vec3(0.0, 0.0, 0.0);
      assert Within(mesh[s].position, mesh[s].position, threshold);
    }
  }

  /** When no key reads a normal that an earlier key wrote, copying within one table
      is copying from an unchanged snapshot of it. */
  lemma {:induction false} CopyInPlaceIsCopyAlong(normals: seq<Vec3>, at: map<nat, nat>, keys: seq<nat>)
    requires CopyFits(at, keys, |normals|, |normals|)
    requires forall p, q :: 0 <= p < q < |keys| ==> at[keys[p]] != keys[q]
    ensures CopyInPlace(normals, at, keys) == CopyAlong(normals, normals, at, keys)
  {
    if keys != [] {
      var n := |keys| - 1;
      assert forall k :: k in keys[..n] ==> k in keys;
      CopyInPlaceIsCopyAlong(normals, at, keys[..n]);
      forall k | k in keys[..n]
        ensures at[k] != keys[n]
      {
        var p :| 0 <= p < n && keys[..n][p] == k;
      }
      assert keys[n] in keys;
      CopyAlongUnclaimed(normals, normals, at, keys[..n], keys[n]);
    }
  }

  /** On one mesh named twice, no key reads a vertex that an earlier key wrote. */
  lemma SelfPairsNoReadAfterWrite(mesh: seq<Vertex>, threshold: real)
    ensures var d := SeamPairs(mesh, mesh, threshold);
      forall p, q :: 0 <= p < q < |d.keys| ==> d.at[d.keys[p]] != d.keys[q]
  {
    var d := SeamPairs(mesh, mesh, threshold);
    SeamPairsKeysIncreasing(mesh, mesh, threshold);
    forall p, q | 0 <= p < q < |d.keys|
      ensures d.at[d.keys[p]] != d.keys[q]
    {
      SelfPairsDescend(mesh, threshold, d.keys[p]);
    }
  }

  /** One mesh named twice ends up exactly as if the source normals had been read from
      an unchanged copy: every vertex's match is itself or an earlier vertex, and the
      dict visits vertices in increasing order, so no read sees an earlier write. The
      results about `Outcome` (unclaimed and sole-claimant vertices) therefore hold for
      this case too. */
  lemma SelfIsOutcome(sourceObject: Option<string>, targetObject: Option<string>,
                      mesh: seq<Vertex>, normals: seq<Vec3>, threshold: real)
    requires |normals| == |mesh|
    ensures SelfOutcome(sourceObject, targetObject, mesh, normals, threshold)
         == Outcome(sourceObject, targetObject, mesh, mesh, normals, normals, threshold)
  {
    if Named(sourceObject) && Named(targetObject) {
      var d := SeamPairs(mesh, mesh, threshold);
      SelfPairsNoReadAfterWrite(mesh, threshold);
      CopyInPlaceIsCopyAlong(normals, d.at, d.keys);
    }
  }

  /** Running the operation twice on unchanged meshes and source normals gives the
      target normals of running it once. */
  lemma OutcomeIdempotent(sourceObject: Option<string>, targetObject: Option<string>,
                          meshA: seq<Vertex>, meshB: seq<Vertex>,
                          normalsA: seq<Vec3>, normalsB: seq<Vec3>, threshold: real)
    requires |normalsA| == |meshA| && |normalsB| == |meshB|
    ensures var once := Outcome(sourceObject, targetObject, meshA, meshB, normalsA, normalsB, threshold);
      Outcome(sourceObject, targetObject, meshA, meshB, normalsA, once, threshold) == once
  {
    if Named(sourceObject) && Named(targetObject) {
      var d := SeamPairs(meshA, meshB, threshold);
      CopyAlongIdempotent(normalsB, normalsA, d.at, d.keys, d.keys);
    }
  }
}
