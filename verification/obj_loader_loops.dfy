/** `loadOBJ` written as its nested loops: the line loop, the corner loop of an
    `f` line, and the linear scan with its `found` flag and early `break`.
    Its contract ties it to the functional `ObjLoader.LoadObj`.
 */
module ObjLoaderLoops {
  import opened Geometry
  import opened IndexedMesh
  import opened ObjLoader

  /** The scan of one corner: reuse the first matching vertex, else append. */
  method ResolveCorner(vertices0: seq<Vertex>, indices0: seq<nat>, candidate: Vertex)
    returns (vertices: seq<Vertex>, indices: seq<nat>)
    ensures Mesh(vertices, indices) == AddCorner(Mesh(vertices0, indices0), candidate)
  {
    vertices, indices := vertices0, indices0;
    var found := false;
    var i := 0;
    while i < |vertices|
      invariant 0 <= i <= |vertices|
      invariant vertices == vertices0 && indices == indices0 && !found
      invariant forall j :: 0 <= j < i ==> !SameAttributes(vertices[j], candidate)
    {
      if SameAttributes(vertices[i], candidate) {
        indices := indices + [i];
        found := true;
        break;
      }
      i := i + 1;
    }
    if !found {
      vertices := vertices + [candidate];
      indices := indices + [|vertices| - 1];
    }
  }

  /** The corner loop of one `f` line. */
  method ResolveFace(vertices0: seq<Vertex>, indices0: seq<nat>,
                     positions: seq<Vec3>, normals: seq<Vec3>, cs: seq<Corner>)
    returns (vertices: seq<Vertex>, indices: seq<nat>)
    requires FaceInRange(|positions|, |normals|, cs)
    ensures Mesh(vertices, indices) == Dedup(Mesh(vertices0, indices0), FaceCandidates(positions, normals, cs))
  {
    vertices, indices := vertices0, indices0;
    ghost var cands := FaceCandidates(positions, normals, cs);
    var c := 0;
    while c < |cs|
      invariant 0 <= c <= |cs|
      invariant Dedup(Mesh(vertices, indices), cands[c..]) == Dedup(Mesh(vertices0, indices0), cands)
    {
      FaceCandidateAt(positions, normals, cs, c);
      var candidate := Vertex(positions[cs[c].position - 1], normals[cs[c].normal - 1]);
      ghost var before := Mesh(vertices, indices);
      vertices, indices := ResolveCorner(vertices, indices, candidate);
      DedupStep(before, Mesh(vertices, indices), cands, c, Dedup(Mesh(vertices0, indices0), cands));
      c := c + 1;
    }
    assert cands[c..] == [];
  }

  /** Resolving candidate `c` moves the remaining suffix on by one. */
  lemma DedupStep(before: Mesh, after: Mesh, cands: seq<Vertex>, c: nat, target: Mesh)
    requires c < |cands| && after == AddCorner(before, cands[c])
    requires Dedup(before, cands[c..]) == target
    ensures Dedup(after, cands[c + 1..]) == target
  {
    assert cands[c..][0] == cands[c] && cands[c..][1..] == cands[c + 1..];
  }

  lemma FaceCandidateAt(ps: seq<Vec3>, ns: seq<Vec3>, cs: seq<Corner>, k: nat)
    requires FaceInRange(|ps|, |ns|, cs) && k < |cs|
    ensures 0 <= cs[k].position - 1 < |ps| && 0 <= cs[k].normal - 1 < |ns|
    ensures FaceCandidates(ps, ns, cs)[k] == Vertex(ps[cs[k].position - 1], ns[cs[k].normal - 1])
  {
  }

  /** `Run` on a non-empty suffix is `Step` followed by `Run` on the rest. */
  lemma RunCons(ld: Loader, lines: seq<Record>)
    requires |lines| > 0 && Admissible(|ld.positions|, |ld.normals|, lines)
    ensures lines[0].FaceLine? ==> FaceInRange(|ld.positions|, |ld.normals|, lines[0].corners)
    ensures Admissible(|Step(ld, lines[0]).positions|, |Step(ld, lines[0]).normals|, lines[1..])
    ensures Run(ld, lines) == Run(Step(ld, lines[0]), lines[1..])
  {
  }

  /** One turn of the `getline` loop: dispatch on the line's first word. */
  method ReadLine(positions0: seq<Vec3>, normals0: seq<Vec3>, vertices0: seq<Vertex>, indices0: seq<nat>, line: Record)
    returns (positions: seq<Vec3>, normals: seq<Vec3>, vertices: seq<Vertex>, indices: seq<nat>)
    requires line.FaceLine? ==> FaceInRange(|positions0|, |normals0|, line.corners)
    ensures Loader(positions, normals, Mesh(vertices, indices))
         == Step(Loader(positions0, normals0, Mesh(vertices0, indices0)), line)
  {
    positions, normals, vertices, indices := positions0, normals0, vertices0, indices0;
    match line {
      case PositionLine(p) =>
        positions := positions + [p];
      case NormalLine(q) =>
        normals := normals + [q];
      case FaceLine(cs) =>
        vertices, indices := ResolveFace(vertices, indices, positions, normals, cs);
        // Lines 98-102 of the source loop over `face_indices`, which nothing
        // fills, so they emit nothing.
      case OtherLine =>
    }
  }

  /** `loadOBJ(path, vertices, indices)` with its loops. */
  method LoadObjLoops(src: Source, vertices0: seq<Vertex>, indices0: seq<nat>)
    returns (ok: bool, vertices: seq<Vertex>, indices: seq<nat>)
    requires src.Readable? ==> Admissible(0, 0, src.lines)
    ensures ok <==> src.Readable?
    ensures !ok ==> vertices == vertices0 && indices == indices0
    ensures ok ==> LoadObj(src, Mesh(vertices0, indices0)) == Loaded(Mesh(vertices, indices))
  {
    vertices, indices := vertices0, indices0;
    if src.Unreadable? {
      return false, vertices, indices;
    }
    var lines := src.lines;
    var positions: seq<Vec3> := [];
    var normals: seq<Vec3> := [];
    var n := 0;
    ghost var rest := lines;
    while n < |lines|
      invariant 0 <= n <= |lines| && rest == lines[n..]
      invariant Admissible(|positions|, |normals|, rest)
      invariant Run(Loader(positions, normals, Mesh(vertices, indices)), rest)
             == Run(Loader([], [], Mesh(vertices0, indices0)), lines)
    {
      ghost var before := Loader(positions, normals, Mesh(vertices, indices));
      assert rest[0] == lines[n];
      RunCons(before, rest);
      positions, normals, vertices, indices := ReadLine(positions, normals, vertices, indices, lines[n]);
      rest := rest[1..];
      n := n + 1;
    }
    ok := true;
  }
}
