/** Linear-scan deduplication of candidate vertices into an indexed mesh.

    Each candidate is looked up among the vertices emitted so far, from index 0
    upward, and the first entry passing the attribute test is reused; when none
    does, the candidate is appended. Either way exactly one index is emitted.
 */
module IndexedMesh {
  import opened Geometry

  datatype Option<T> = None | Some(value: T)

  /** The `vertices` / `indices` pair the loader appends to. */
  datatype Mesh = Mesh(vertices: seq<Vertex>, indices: seq<nat>)

  /** No two entries pass the attribute test against each other. */
  predicate Distinct(vs: seq<Vertex>) {
    forall i, j :: 0 <= i < j < |vs| ==> !SameAttributes(vs[i], vs[j])
  }

  /** Every index refers to an existing vertex. */
  predicate IndicesValid(m: Mesh) {
    forall k :: 0 <= k < |m.indices| ==> m.indices[k] < |m.vertices|
  }

  /** The scan from position `from` upward, stopping at the first hit. */
  function FindFrom(vs: seq<Vertex>, c: Vertex, from: nat): (r: Option<nat>)
    requires from <= |vs|
    ensures r.Some? ==> from <= r.value < |vs| && SameAttributes(vs[r.value], c)
    ensures r.Some? ==> forall j :: from <= j < r.value ==> !SameAttributes(vs[j], c)
    ensures r.None? <==> forall j :: from <= j < |vs| ==> !SameAttributes(vs[j], c)
    decreases |vs| - from
  {
    if from == |vs| then None
    else if SameAttributes(vs[from], c) then Some(from)
    else FindFrom(vs, c, from + 1)
  }

  /** First-match search over all emitted vertices. */
  function FindMatch(vs: seq<Vertex>, c: Vertex): (r: Option<nat>)
    ensures r.Some? ==> r.value < |vs| && SameAttributes(vs[r.value], c)
    ensures r.Some? ==> forall j :: 0 <= j < r.value ==> !SameAttributes(vs[j], c)
    ensures r.None? <==> forall j :: 0 <= j < |vs| ==> !SameAttributes(vs[j], c)
  {
    FindFrom(vs, c, 0)
  }

  /** Index `i` names a vertex equal to `c`, and no vertex before it passes
      the attribute test against `c`: `i` is where a first-match scan stops. */
  predicate FirstMatchAt(vs: seq<Vertex>, i: nat, c: Vertex) {
    i < |vs| && vs[i] == c && forall j :: 0 <= j < i ==> !SameAttributes(vs[j], c)
  }

  /** `k` is the first position of `ixs` holding `j`, and every earlier
      position holds a smaller index. */
  predicate FirstUseAt(ixs: seq<nat>, j: int, k: int) {
    0 <= k < |ixs| && ixs[k] == j && forall k' :: 0 <= k' < k ==> ixs[k'] < j
  }

  /** Index `j` is used, and its first use comes after lower indices only. */
  predicate UsedInOrder(ixs: seq<nat>, j: int) {
    exists k :: 0 <= k < |ixs| && FirstUseAt(ixs, j, k)
  }

  /** One corner: reuse the first matching vertex, or append the candidate. */
  function AddCorner(m: Mesh, c: Vertex): (r: Mesh)
    ensures m.vertices <= r.vertices && |r.vertices| <= |m.vertices| + 1
    ensures m.indices <= r.indices && |r.indices| == |m.indices| + 1
    ensures FirstMatchAt(r.vertices, r.indices[|m.indices|], c)
    ensures |r.vertices| == |m.vertices| + 1 <==>
              forall j :: 0 <= j < |m.vertices| ==> !SameAttributes(m.vertices[j], c)
    ensures |r.vertices| == |m.vertices| + 1 ==> r.indices[|m.indices|] == |m.vertices|
  {
    match FindMatch(m.vertices, c)
    case Some(i) => Mesh(m.vertices, m.indices + [i])
    case None => Mesh(m.vertices + [c], m.indices + [|m.vertices|])
  }

  /** Every candidate in order, one `AddCorner` each. */
  function Dedup(m: Mesh, cs: seq<Vertex>): (r: Mesh)
    ensures m.vertices <= r.vertices && |r.vertices| <= |m.vertices| + |cs|
    ensures m.indices <= r.indices && |r.indices| == |m.indices| + |cs|
    decreases |cs|
  {
    if |cs| == 0 then m else Dedup(AddCorner(m, cs[0]), cs[1..])
  }

  /** Deduplicating a concatenation is deduplicating its parts in turn. */
  lemma {:induction false} DedupAppend(m: Mesh, a: seq<Vertex>, b: seq<Vertex>)
    ensures Dedup(m, a + b) == Dedup(Dedup(m, a), b)
    decreases |a|
  {
    if |a| == 0 {
      assert a + b == b;
    } else {
      assert (a + b)[0] == a[0];
      assert (a + b)[1..] == a[1..] + b;
      DedupAppend(AddCorner(m, a[0]), a[1..], b);
    }
  }

  /** The index emitted for the k-th candidate names a vertex equal to it, and
      no earlier vertex passes the attribute test against it: first match wins. */
  lemma {:induction false} DedupResolves(m: Mesh, cs: seq<Vertex>)
    ensures var r := Dedup(m, cs); var added := r.indices[|m.indices|..];
      forall k :: 0 <= k < |cs| ==> FirstMatchAt(r.vertices, added[k], cs[k])
    decreases |cs|
  {
    if |cs| > 0 {
      var m1 := AddCorner(m, cs[0]);
      var r := Dedup(m1, cs[1..]);
      var added := r.indices[|m.indices|..];
      DedupResolves(m1, cs[1..]);
      assert added[1..] == r.indices[|m1.indices|..];
      assert added[0] == m1.indices[|m.indices|] by {
        assert m1.indices <= r.indices;
      }
      assert FirstMatchAt(r.vertices, added[0], cs[0]) by {
        assert m1.vertices <= r.vertices;
      }
      forall k | 1 <= k < |cs|
        ensures FirstMatchAt(r.vertices, added[k], cs[k])
      {
        assert added[k] == added[1..][k - 1];
        assert cs[k] == cs[1..][k - 1];
      }
    }
  }

  /** Appending never creates a pair that passes the attribute test. */
  lemma {:induction false} DedupKeepsDistinct(m: Mesh, cs: seq<Vertex>)
    requires Distinct(m.vertices)
    ensures Distinct(Dedup(m, cs).vertices)
    decreases |cs|
  {
    if |cs| > 0 {
      var m1 := AddCorner(m, cs[0]);
      assert Distinct(m1.vertices) by {
        if |m1.vertices| == |m.vertices| + 1 {
          assert m1.vertices == m.vertices + [cs[0]];
        } else {
          assert m1.vertices == m.vertices;
        }
      }
      DedupKeepsDistinct(m1, cs[1..]);
    }
  }

  /** Indices emitted before stay in range, and so do the new ones. */
  lemma DedupKeepsIndicesValid(m: Mesh, cs: seq<Vertex>)
    requires IndicesValid(m)
    ensures IndicesValid(Dedup(m, cs))
  {
    var r := Dedup(m, cs);
    var added := r.indices[|m.indices|..];
    DedupResolves(m, cs);
    forall k | 0 <= k < |r.indices|
      ensures r.indices[k] < |r.vertices|
    {
      if k < |m.indices| {
        assert r.indices[k] == m.indices[k];
      } else {
        assert r.indices[k] == added[k - |m.indices|];
      }
    }
  }

  /** New vertices appear in order of first use: the first corner referring to
      a new vertex `j` comes after corners referring only to lower indices. */
  lemma {:induction false} DedupFirstOccurrenceOrder(m: Mesh, cs: seq<Vertex>)
    ensures var r := Dedup(m, cs); var added := r.indices[|m.indices|..];
      forall j :: |m.vertices| <= j < |r.vertices| ==> UsedInOrder(added, j)
    decreases |cs|
  {
    if |cs| > 0 {
      var m1 := AddCorner(m, cs[0]);
      var r := Dedup(m1, cs[1..]);
      var added := r.indices[|m.indices|..];
      DedupFirstOccurrenceOrder(m1, cs[1..]);
      assert r == Dedup(m1, cs[1..]);
      assert forall j :: |m1.vertices| <= j < |r.vertices| ==> UsedInOrder(r.indices[|m1.indices|..], j);
      assert added[1..] == r.indices[|m1.indices|..];
      assert added[0] == m1.indices[|m.indices|] by {
        assert m1.indices <= r.indices;
      }
      assert added[0] < |m1.vertices|;
      forall j | |m.vertices| <= j < |r.vertices|
        ensures UsedInOrder(added, j)
      {
        if j < |m1.vertices| {
          assert FirstUseAt(added, j, 0);
        } else {
          UsedInOrderShift(added, j);
        }
      }
    }
  }

  /** A first use in the tail is a first use in the whole when the head is
      smaller. */
  lemma UsedInOrderShift(ixs: seq<nat>, j: int)
    requires |ixs| > 0 && ixs[0] < j && UsedInOrder(ixs[1..], j)
    ensures UsedInOrder(ixs, j)
  {
    var k1 :| 0 <= k1 < |ixs[1..]| && FirstUseAt(ixs[1..], j, k1);
    assert FirstUseAt(ixs, j, k1 + 1) by {
      forall k' | 0 <= k' < k1 + 1
        ensures ixs[k'] < j
      {
        if k' > 0 {
          assert ixs[k'] == ixs[1..][k' - 1];
        }
      }
    }
  }

  /** Corners with identical NaN-free attributes share one index. */
  lemma EqualCornersShareIndex(m: Mesh, cs: seq<Vertex>, k1: nat, k2: nat)
    requires k1 < |cs| && k2 < |cs| && cs[k1] == cs[k2] && !HasNaN(cs[k1])
    ensures var added := Dedup(m, cs).indices[|m.indices|..]; added[k1] == added[k2]
  {
    var r := Dedup(m, cs);
    var added := r.indices[|m.indices|..];
    DedupResolves(m, cs);
    assert FirstMatchAt(r.vertices, added[k1], cs[k1]);
    assert FirstMatchAt(r.vertices, added[k2], cs[k2]);
    SameAttributesIsEquality(cs[k1], cs[k2]);
  }

  /** A sequence without repeated elements has as many elements as its set. */
  lemma {:induction false} UniqueCardinality(vs: seq<Vertex>)
    requires forall i, j :: 0 <= i < j < |vs| ==> vs[i] != vs[j]
    ensures |set v | v in vs| == |vs|
    decreases |vs|
  {
    if |vs| > 0 {
      var last := vs[|vs| - 1];
      var init := vs[..|vs| - 1];
      UniqueCardinality(init);
      assert (set v | v in vs) == (set v | v in init) + {last};
      assert last !in init;
    }
  }

  /** From an empty mesh and NaN-free corners, the vertex list holds exactly
      the distinct corner values, each once. */
  lemma VertexCountIsDistinctCorners(cs: seq<Vertex>)
    requires forall k :: 0 <= k < |cs| ==> !HasNaN(cs[k])
    ensures var r := Dedup(Mesh([], []), cs);
      && (set v | v in r.vertices) == (set v | v in cs)
      && |r.vertices| == |set v | v in cs|
  {
    var m := Mesh([], []);
    var r := Dedup(m, cs);
    var added := r.indices[|m.indices|..];
    assert added == r.indices;
    DedupResolves(m, cs);
    DedupFirstOccurrenceOrder(m, cs);
    DedupKeepsDistinct(m, cs);
    assert forall k :: 0 <= k < |cs| ==> FirstMatchAt(r.vertices, added[k], cs[k]);
    assert forall j :: 0 <= j < |r.vertices| ==> UsedInOrder(added, j);
    forall j | 0 <= j < |r.vertices|
      ensures r.vertices[j] in cs && !HasNaN(r.vertices[j])
    {
      assert UsedInOrder(added, j);
      var k :| 0 <= k < |added| && FirstUseAt(added, j, k);
      assert FirstMatchAt(r.vertices, added[k], cs[k]);
    }
    forall i, j | 0 <= i < j < |r.vertices|
      ensures r.vertices[i] != r.vertices[j]
    {
      SameAttributesIsEquality(r.vertices[i], r.vertices[j]);
    }
    UniqueCardinality(r.vertices);
    forall k | 0 <= k < |cs|
      ensures cs[k] in r.vertices
    {
      assert FirstMatchAt(r.vertices, added[k], cs[k]);
    }
  }

  lemma SeqAssoc<T>(x: seq<T>, y: seq<T>, z: seq<T>)
    ensures x + y + z == x + (y + z)
  {
  }
}
