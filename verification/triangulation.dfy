/** Fan triangulation of `f` lines with more than three corners.

    The loader's comment announces that faces with more than three vertices are
    triangulated, but the loop meant to do it walks `face_indices`, which is
    never filled, so every corner index goes straight to the index list and a
    quad contributes four indices to a buffer drawn as `GL_TRIANGLES`. This
    module shows that on a quad, and defines the loader as evidently intended:
    corners are resolved and deduplicated exactly as before, and the face's
    corner indices are emitted as the fan (c0, c1, c2), (c0, c2, c3), ...
 */
module Triangulation {
  import opened Geometry
  import opened IndexedMesh
  import opened ObjLoader

  /** Triangle number `t` of an index list drawn as `GL_TRIANGLES`. */
  function TriangleAt(ixs: seq<nat>, t: nat): seq<nat>
    requires 3 * t + 3 <= |ixs|
  {
    ixs[3 * t .. 3 * t + 3]
  }

  /** The fan over one polygon's corner indices: triangle `t` is corner 0
      with corners `t + 1` and `t + 2`; fewer than three corners give none. */
  function Fan(cs: seq<nat>): (r: seq<nat>)
    ensures |r| == if |cs| < 3 then 0 else 3 * (|cs| - 2)
    ensures forall t: nat :: t + 2 < |cs| ==> TriangleAt(r, t) == [cs[0], cs[t + 1], cs[t + 2]]
    ensures forall k :: 0 <= k < |r| ==> r[k] in cs
    decreases |cs|
  {
    if |cs| < 3 then []
    else
      var init := cs[..|cs| - 1];
      var r0 := Fan(init);
      var r := r0 + [cs[0], cs[|cs| - 2], cs[|cs| - 1]];
      assert forall t: nat :: t + 2 < |cs| ==> TriangleAt(r, t) == [cs[0], cs[t + 1], cs[t + 2]] by {
        forall t: nat | t + 2 < |cs|
          ensures TriangleAt(r, t) == [cs[0], cs[t + 1], cs[t + 2]]
        {
          if t + 3 < |cs| {
            assert TriangleAt(r, t) == TriangleAt(r0, t);
            assert init[0] == cs[0] && init[t + 1] == cs[t + 1] && init[t + 2] == cs[t + 2];
          } else {
            assert 3 * t == |r0|;
          }
        }
      }
      assert forall k :: 0 <= k < |r| ==> r[k] in cs by {
        forall k | 0 <= k < |r|
          ensures r[k] in cs
        {
          if k < |r0| {
            assert r0[k] in init;
          }
        }
      }
      r
  }

  /** A line of the loop as evidently intended: the face's corners are
      resolved as before, then emitted as a fan. */
  function StepFan(ld: Loader, line: Record): Loader
    requires line.FaceLine? ==> FaceInRange(|ld.positions|, |ld.normals|, line.corners)
  {
    match line
    case FaceLine(cs) =>
      var face := Dedup(Mesh(ld.mesh.vertices, []), FaceCandidates(ld.positions, ld.normals, cs));
      ld.(mesh := Mesh(face.vertices, ld.mesh.indices + Fan(face.indices)))
    case _ => Step(ld, line)
  }

  function RunFan(ld: Loader, lines: seq<Record>): Loader
    requires Admissible(|ld.positions|, |ld.normals|, lines)
    decreases |lines|
  {
    if |lines| == 0 then ld
    else
      var next := StepFan(ld, lines[0]);
      assert |next.positions| == |Step(ld, lines[0]).positions|;
      assert |next.normals| == |Step(ld, lines[0]).normals|;
      RunFan(next, lines[1..])
  }

  /** The corrected `loadOBJ`. */
  function LoadObjTriangulated(src: Source, m: Mesh): (r: LoadResult)
    requires src.Readable? ==> Admissible(0, 0, src.lines)
    ensures r.OpenFailed? <==> src.Unreadable?
  {
    match src
    case Unreadable => OpenFailed
    case Readable(lines) => Loaded(RunFan(Loader([], [], m), lines).mesh)
  }

  /** Triangles emitted: `k - 2` for a face of `k >= 3` corners. */
  function TriangleCount(lines: seq<Record>): nat {
    if |lines| == 0 then 0
    else (if lines[0].FaceLine? && |lines[0].corners| >= 3 then |lines[0].corners| - 2 else 0)
         + TriangleCount(lines[1..])
  }

  lemma AddCornerIgnoresIndices(vs: seq<Vertex>, ixs: seq<nat>, c: Vertex)
    ensures AddCorner(Mesh(vs, ixs), c) ==
            Mesh(AddCorner(Mesh(vs, []), c).vertices, ixs + AddCorner(Mesh(vs, []), c).indices)
  {
  }

  /** The vertices a corner sequence produces do not depend on the indices
      already present, and the indices it emits are appended to them. */
  lemma {:induction false} DedupIgnoresIndices(vs: seq<Vertex>, ixs: seq<nat>, cs: seq<Vertex>)
    ensures Dedup(Mesh(vs, ixs), cs) ==
            Mesh(Dedup(Mesh(vs, []), cs).vertices, ixs + Dedup(Mesh(vs, []), cs).indices)
    decreases |cs|
  {
    if |cs| == 0 {
      assert ixs + [] == ixs;
    } else {
      var b := AddCorner(Mesh(vs, []), cs[0]);
      AddCornerIgnoresIndices(vs, ixs, cs[0]);
      var rest := Dedup(Mesh(b.vertices, []), cs[1..]);
      assert Dedup(Mesh(vs, ixs), cs) == Mesh(rest.vertices, (ixs + b.indices) + rest.indices) by {
        DedupIgnoresIndices(b.vertices, ixs + b.indices, cs[1..]);
      }
      assert Dedup(Mesh(vs, []), cs) == Mesh(rest.vertices, b.indices + rest.indices) by {
        assert b == Mesh(b.vertices, b.indices);
        DedupIgnoresIndices(b.vertices, b.indices, cs[1..]);
      }
      SeqAssoc(ixs, b.indices, rest.indices);
    }
  }

  /** The corrected loader builds the same vertex list as the original, and
      reads positions and normals alike. */
  lemma RunFanSharesVertices(ld: Loader, lines: seq<Record>)
    requires Admissible(|ld.positions|, |ld.normals|, lines)
    ensures RunFan(ld, lines).positions == Run(ld, lines).positions
    ensures RunFan(ld, lines).normals == Run(ld, lines).normals
    ensures RunFan(ld, lines).mesh.vertices == Run(ld, lines).mesh.vertices
  {
    RunFanSharesVerticesFrom(ld, ld, lines);
  }

  /** Two loader states that differ only in their index lists keep building
      the same vertex list. */
  lemma {:induction false} RunFanSharesVerticesFrom(a: Loader, b: Loader, lines: seq<Record>)
    requires a.positions == b.positions && a.normals == b.normals && a.mesh.vertices == b.mesh.vertices
    requires Admissible(|a.positions|, |a.normals|, lines)
    ensures RunFan(a, lines).positions == Run(b, lines).positions
    ensures RunFan(a, lines).normals == Run(b, lines).normals
    ensures RunFan(a, lines).mesh.vertices == Run(b, lines).mesh.vertices
    decreases |lines|
  {
    if |lines| > 0 {
      var a1 := StepFan(a, lines[0]);
      var b1 := Step(b, lines[0]);
      if lines[0].FaceLine? {
        DedupIgnoresIndices(b.mesh.vertices, b.mesh.indices,
                            FaceCandidates(b.positions, b.normals, lines[0].corners));
      }
      assert a1.positions == b1.positions && a1.normals == b1.normals && a1.mesh.vertices == b1.mesh.vertices;
      RunFanSharesVerticesFrom(a1, b1, lines[1..]);
    }
  }

  /** On a three-corner face, the fan is the corners themselves. */
  lemma StepFanAgreesOnTriangle(ld: Loader, cs: seq<Corner>)
    requires FaceInRange(|ld.positions|, |ld.normals|, cs) && |cs| == 3
    ensures StepFan(ld, FaceLine(cs)) == Step(ld, FaceLine(cs))
  {
    var cands := FaceCandidates(ld.positions, ld.normals, cs);
    var face := Dedup(Mesh(ld.mesh.vertices, []), cands);
    assert Fan(face.indices) == face.indices by {
      assert |face.indices| == 3;
      assert TriangleAt(Fan(face.indices), 0) == [face.indices[0], face.indices[1], face.indices[2]];
    }
    assert Dedup(ld.mesh, cands) == Mesh(face.vertices, ld.mesh.indices + face.indices) by {
      DedupIgnoresIndices(ld.mesh.vertices, ld.mesh.indices, cands);
    }
  }

  /** On a file of triangles only, the corrected loader and the original
      produce identical vertex and index lists. */
  lemma {:induction false} RunFanAgreesOnTriangles(ld: Loader, lines: seq<Record>)
    requires Admissible(|ld.positions|, |ld.normals|, lines)
    requires forall i :: 0 <= i < |lines| && lines[i].FaceLine? ==> |lines[i].corners| == 3
    ensures RunFan(ld, lines) == Run(ld, lines)
    decreases |lines|
  {
    if |lines| > 0 {
      if lines[0].FaceLine? {
        StepFanAgreesOnTriangle(ld, lines[0].corners);
      }
      assert StepFan(ld, lines[0]) == Step(ld, lines[0]);
      assert forall i :: 0 <= i < |lines[1..]| ==> lines[1..][i] == lines[i + 1];
      RunFanAgreesOnTriangles(Step(ld, lines[0]), lines[1..]);
    }
  }

  /** One line of the corrected loader: three indices per fan triangle,
      each naming a vertex, and no new pair passing the attribute test. */
  lemma StepFanKeeps(ld: Loader, line: Record)
    requires line.FaceLine? ==> FaceInRange(|ld.positions|, |ld.normals|, line.corners)
    ensures ld.mesh.indices <= StepFan(ld, line).mesh.indices
    ensures |StepFan(ld, line).mesh.indices| == |ld.mesh.indices| + 3 * TriangleCount([line])
    ensures IndicesValid(ld.mesh) ==> IndicesValid(StepFan(ld, line).mesh)
    ensures Distinct(ld.mesh.vertices) ==> Distinct(StepFan(ld, line).mesh.vertices)
  {
    var next := StepFan(ld, line);
    if line.FaceLine? {
      var cands := FaceCandidates(ld.positions, ld.normals, line.corners);
      var face := Dedup(Mesh(ld.mesh.vertices, []), cands);
      assert IndicesValid(face) by {
        DedupKeepsIndicesValid(Mesh(ld.mesh.vertices, []), cands);
      }
      if Distinct(ld.mesh.vertices) {
        DedupKeepsDistinct(Mesh(ld.mesh.vertices, []), cands);
      }
      if IndicesValid(ld.mesh) {
        forall k | 0 <= k < |next.mesh.indices|
          ensures next.mesh.indices[k] < |next.mesh.vertices|
        {
          if k >= |ld.mesh.indices| {
            var f := Fan(face.indices);
            assert next.mesh.indices[k] == f[k - |ld.mesh.indices|];
            assert f[k - |ld.mesh.indices|] in face.indices;
          } else {
            assert next.mesh.indices[k] == ld.mesh.indices[k];
          }
        }
      }
    }
  }

  /** The corrected loader appends three indices per triangle of the fan,
      every one of them naming a vertex, and keeps the vertex list free of
      pairs that pass the attribute test. */
  lemma {:induction false} RunFanIndexCount(ld: Loader, lines: seq<Record>)
    requires Admissible(|ld.positions|, |ld.normals|, lines)
    ensures ld.mesh.indices <= RunFan(ld, lines).mesh.indices
    ensures |RunFan(ld, lines).mesh.indices| == |ld.mesh.indices| + 3 * TriangleCount(lines)
    ensures IndicesValid(ld.mesh) ==> IndicesValid(RunFan(ld, lines).mesh)
    ensures Distinct(ld.mesh.vertices) ==> Distinct(RunFan(ld, lines).mesh.vertices)
    decreases |lines|
  {
    if |lines| > 0 {
      StepFanKeeps(ld, lines[0]);
      RunFanIndexCount(StepFan(ld, lines[0]), lines[1..]);
    }
  }

  /** The corrected `loadOBJ` builds the same vertex list as the original,
      emits whole triangles only (three indices per fan triangle), and every
      index it emits names a vertex. */
  lemma LoadObjTriangulatedIsTriangles(src: Source, m: Mesh)
    requires src.Readable? ==> Admissible(0, 0, src.lines)
    ensures src.Readable? ==>
      && LoadObjTriangulated(src, m).mesh.vertices == LoadObj(src, m).mesh.vertices
      && m.indices <= LoadObjTriangulated(src, m).mesh.indices
      && |LoadObjTriangulated(src, m).mesh.indices| == |m.indices| + 3 * TriangleCount(src.lines)
      && (IndicesValid(m) ==> IndicesValid(LoadObjTriangulated(src, m).mesh))
  {
    if src.Readable? {
      RunFanSharesVertices(Loader([], [], m), src.lines);
      RunFanIndexCount(Loader([], [], m), src.lines);
    }
  }

  /** Each triangle of a face names the vertices of its fan corners: triangle
      `t` resolves corners 0, `t + 1` and `t + 2` by first match. */
  lemma FaceTrianglesResolve(ld: Loader, cs: seq<Corner>)
    requires FaceInRange(|ld.positions|, |ld.normals|, cs)
    ensures var r := StepFan(ld, FaceLine(cs)).mesh; var added := r.indices[|ld.mesh.indices|..];
      var cands := FaceCandidates(ld.positions, ld.normals, cs);
      forall t: nat :: t + 2 < |cs| ==>
        && 3 * t + 3 <= |added|
        && FirstMatchAt(r.vertices, TriangleAt(added, t)[0], cands[0])
        && FirstMatchAt(r.vertices, TriangleAt(added, t)[1], cands[t + 1])
        && FirstMatchAt(r.vertices, TriangleAt(added, t)[2], cands[t + 2])
  {
    var cands := FaceCandidates(ld.positions, ld.normals, cs);
    var face := Dedup(Mesh(ld.mesh.vertices, []), cands);
    var r := StepFan(ld, FaceLine(cs)).mesh;
    var added := r.indices[|ld.mesh.indices|..];
    assert added == Fan(face.indices);
    assert r.vertices == face.vertices;
    DedupResolves(Mesh(ld.mesh.vertices, []), cands);
    assert face.indices[0..] == face.indices;
  }

  // ---------------------------------------------------------------------------
  // The discrepancy on a quad

  const P0: Vec3 := Vec3(Num(0.0), Num(0.0), Num(0.0))
  const P1: Vec3 := Vec3(Num(1.0), Num(0.0), Num(0.0))
  const P2: Vec3 := Vec3(Num(1.0), Num(1.0), Num(0.0))
  const P3: Vec3 := Vec3(Num(0.0), Num(1.0), Num(0.0))
  const Up: Vec3 := Vec3(Num(0.0), Num(0.0), Num(1.0))

  /** `f 1//1 2//1 3//1 4//1` */
  const QuadFace: Record := FaceLine([Corner(1, 1), Corner(2, 1), Corner(3, 1), Corner(4, 1)])

  /** The loader after `v` x4 and `vn` x1, with empty output vectors. */
  const QuadHeaderRead: Loader := Loader([P0, P1, P2, P3], [Up], Mesh([], []))

  /** Corners that are NaN-free, pairwise different and unmatched by the
      existing vertices are all appended, with consecutive indices. */
  lemma {:induction false} DedupFreshCorners(m: Mesh, cs: seq<Vertex>)
    requires forall k :: 0 <= k < |cs| ==> !HasNaN(cs[k])
    requires forall i, j :: 0 <= i < j < |cs| ==> cs[i] != cs[j]
    requires forall j, k :: 0 <= j < |m.vertices| && 0 <= k < |cs| ==> !SameAttributes(m.vertices[j], cs[k])
    ensures Dedup(m, cs) == Mesh(m.vertices + cs, m.indices + seq(|cs|, k => |m.vertices| + k))
    decreases |cs|
  {
    if |cs| == 0 {
      assert m.vertices + cs == m.vertices;
      assert m.indices + seq(|cs|, k => |m.vertices| + k) == m.indices;
    } else {
      var m1 := AddCorner(m, cs[0]);
      assert m1 == Mesh(m.vertices + [cs[0]], m.indices + [|m.vertices|]);
      forall j, k | 0 <= j < |m1.vertices| && 0 <= k < |cs[1..]|
        ensures !SameAttributes(m1.vertices[j], cs[1..][k])
      {
        if j == |m.vertices| {
          SameAttributesIsEquality(cs[0], cs[k + 1]);
        } else {
          assert m1.vertices[j] == m.vertices[j];
        }
      }
      DedupFreshCorners(m1, cs[1..]);
      assert m1.vertices + cs[1..] == m.vertices + cs;
      assert m1.indices + seq(|cs| - 1, k => |m1.vertices| + k)
          == m.indices + seq(|cs|, k => |m.vertices| + k);
    }
  }

  /** The four vertices the quad's corners name, in corner order. */
  const QuadVertices: seq<Vertex> := [Vertex(P0, Up), Vertex(P1, Up), Vertex(P2, Up), Vertex(P3, Up)]

  /** The quad's corners resolve to four fresh vertices, indexed 0 to 3. */
  lemma QuadCorners()
    ensures FaceInRange(4, 1, QuadFace.corners)
    ensures FaceCandidates(QuadHeaderRead.positions, QuadHeaderRead.normals, QuadFace.corners) == QuadVertices
    ensures Dedup(Mesh([], []), QuadVertices) == Mesh(QuadVertices, [0, 1, 2, 3])
  {
    var cands := FaceCandidates(QuadHeaderRead.positions, QuadHeaderRead.normals, QuadFace.corners);
    assert cands[0] == QuadVertices[0] && cands[1] == QuadVertices[1];
    assert cands[2] == QuadVertices[2] && cands[3] == QuadVertices[3];
    DedupFreshCorners(Mesh([], []), QuadVertices);
    assert seq(4, k => 0 + k) == [0, 1, 2, 3];
  }

  /** The fan over four indices is two triangles sharing the first. */
  lemma QuadFan()
    ensures Fan([0, 1, 2, 3]) == [0, 1, 2, 0, 2, 3]
  {
    var r := Fan([0, 1, 2, 3]);
    assert TriangleAt(r, 0) == [0, 1, 2];
    assert TriangleAt(r, 1) == [0, 2, 3];
  }

  /** As written, the quad's line yields four indices, which `GL_TRIANGLES`
      cannot split into whole triangles; as intended it yields the two
      triangles (0, 1, 2) and (0, 2, 3) over the same four vertices. */
  lemma QuadIsNotTriangulated()
    ensures Step(QuadHeaderRead, QuadFace).mesh == Mesh(QuadVertices, [0, 1, 2, 3])
    ensures |Step(QuadHeaderRead, QuadFace).mesh.indices| % 3 != 0
    ensures StepFan(QuadHeaderRead, QuadFace).mesh == Mesh(QuadVertices, [0, 1, 2, 0, 2, 3])
  {
    QuadCorners();
    QuadFan();
    assert [] + [0, 1, 2, 0, 2, 3] == [0, 1, 2, 0, 2, 3];
  }
}
