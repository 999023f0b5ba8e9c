/** `loadOBJ`: a single pass over the lines of a Wavefront OBJ file.

    `v` and `vn` lines are collected in file order; every corner of an `f` line
    is resolved against the positions and normals read SO FAR and handed to the
    linear-scan deduplication, which appends to the caller's vertex and index
    vectors. Line reading and number parsing are taken as done: a line arrives
    as a `Record`.
 */
module ObjLoader {
  import opened Geometry
  import opened IndexedMesh

  /** A corner token `p/t/n` after `std::stoi`: the 1-based position and
      normal references. The texture field is read and skipped. */
  datatype Corner = Corner(position: int, normal: int)

  /** One line, classified by its first word. */
  datatype Record =
    | PositionLine(position: Vec3)    // `v x y z`
    | NormalLine(normal: Vec3)        // `vn x y z`
    | FaceLine(corners: seq<Corner>)  // `f p/t/n p/t/n ...`
    | OtherLine                       // any other first word, or none

  /** The file: it either cannot be opened or yields its lines. */
  datatype Source = Unreadable | Readable(lines: seq<Record>)

  datatype LoadResult = Loaded(mesh: Mesh) | OpenFailed

  /** `temp_positions`, `temp_normals`, and the caller's two vectors. */
  datatype Loader = Loader(positions: seq<Vec3>, normals: seq<Vec3>, mesh: Mesh)

  /** Both references of `c` name an element among `np` positions and `nn`
      normals; anything else is an unchecked out-of-bounds read in the source. */
  predicate CornerInRange(np: nat, nn: nat, c: Corner) {
    1 <= c.position <= np && 1 <= c.normal <= nn
  }

  predicate FaceInRange(np: nat, nn: nat, cs: seq<Corner>) {
    forall k :: 0 <= k < |cs| ==> CornerInRange(np, nn, cs[k])
  }

  /** Every face refers only to positions and normals on earlier lines, given
      that `np` positions and `nn` normals were read before `lines`. */
  predicate Admissible(np: nat, nn: nat, lines: seq<Record>)
    decreases |lines|
  {
    if |lines| == 0 then true
    else match lines[0]
      case PositionLine(_) => Admissible(np + 1, nn, lines[1..])
      case NormalLine(_) => Admissible(np, nn + 1, lines[1..])
      case FaceLine(cs) => FaceInRange(np, nn, cs) && Admissible(np, nn, lines[1..])
      case OtherLine => Admissible(np, nn, lines[1..])
  }

  /** The positions of `lines`, in file order. */
  function PositionsOf(lines: seq<Record>): seq<Vec3> {
    if |lines| == 0 then []
    else (if lines[0].PositionLine? then [lines[0].position] else []) + PositionsOf(lines[1..])
  }

  /** The normals of `lines`, in file order. */
  function NormalsOf(lines: seq<Record>): seq<Vec3> {
    if |lines| == 0 then []
    else (if lines[0].NormalLine? then [lines[0].normal] else []) + NormalsOf(lines[1..])
  }

  /** The number of corner tokens over all `f` lines. */
  function CornerCount(lines: seq<Record>): nat {
    if |lines| == 0 then 0
    else (if lines[0].FaceLine? then |lines[0].corners| else 0) + CornerCount(lines[1..])
  }

  /** The candidate vertex of a corner: 1-based references made 0-based. */
  function Candidate(ps: seq<Vec3>, ns: seq<Vec3>, c: Corner): Vertex
    requires CornerInRange(|ps|, |ns|, c)
  {
    Vertex(ps[c.position - 1], ns[c.normal - 1])
  }

  function FaceCandidates(ps: seq<Vec3>, ns: seq<Vec3>, cs: seq<Corner>): seq<Vertex>
    requires FaceInRange(|ps|, |ns|, cs)
  {
    seq(|cs|, k requires 0 <= k < |cs| => Candidate(ps, ns, cs[k]))
  }

  /** All corner candidates of `lines` in encounter order, each resolved
      against the positions and normals read before its line. */
  function CandidatesOf(ps: seq<Vec3>, ns: seq<Vec3>, lines: seq<Record>): (r: seq<Vertex>)
    requires Admissible(|ps|, |ns|, lines)
    ensures |r| == CornerCount(lines)
    decreases |lines|
  {
    if |lines| == 0 then []
    else match lines[0]
      case PositionLine(p) => CandidatesOf(ps + [p], ns, lines[1..])
      case NormalLine(n) => CandidatesOf(ps, ns + [n], lines[1..])
      case FaceLine(cs) => FaceCandidates(ps, ns, cs) + CandidatesOf(ps, ns, lines[1..])
      case OtherLine => CandidatesOf(ps, ns, lines[1..])
  }

  /** One line of the `while (getline ...)` loop. */
  function Step(ld: Loader, line: Record): Loader
    requires line.FaceLine? ==> FaceInRange(|ld.positions|, |ld.normals|, line.corners)
  {
    match line
    case PositionLine(p) => ld.(positions := ld.positions + [p])
    case NormalLine(n) => ld.(normals := ld.normals + [n])
    case FaceLine(cs) => ld.(mesh := Dedup(ld.mesh, FaceCandidates(ld.positions, ld.normals, cs)))
    case OtherLine => ld
  }

  /** The whole loop: positions and normals accumulate in file order, the
      caller's vectors are only appended to, one index per corner token. */
  function Run(ld: Loader, lines: seq<Record>): (r: Loader)
    requires Admissible(|ld.positions|, |ld.normals|, lines)
    ensures r.positions == ld.positions + PositionsOf(lines)
    ensures r.normals == ld.normals + NormalsOf(lines)
    ensures ld.mesh.vertices <= r.mesh.vertices && ld.mesh.indices <= r.mesh.indices
    ensures |r.mesh.indices| == |ld.mesh.indices| + CornerCount(lines)
    decreases |lines|
  {
    if |lines| == 0 then ld
    else
      var next := Step(ld, lines[0]);
      StepRecords(ld, lines[0]);
      assert lines == [lines[0]] + lines[1..];
      PositionsOfAppend([lines[0]], lines[1..]);
      SeqAssoc(ld.positions, PositionsOf([lines[0]]), PositionsOf(lines[1..]));
      SeqAssoc(ld.normals, NormalsOf([lines[0]]), NormalsOf(lines[1..]));
      Run(next, lines[1..])
  }

  /** One line: its position or normal is appended, and its corners, if
      any, each emit one index. */
  lemma StepRecords(ld: Loader, line: Record)
    requires line.FaceLine? ==> FaceInRange(|ld.positions|, |ld.normals|, line.corners)
    ensures Step(ld, line).positions == ld.positions + PositionsOf([line])
    ensures Step(ld, line).normals == ld.normals + NormalsOf([line])
    ensures ld.mesh.vertices <= Step(ld, line).mesh.vertices && ld.mesh.indices <= Step(ld, line).mesh.indices
    ensures |Step(ld, line).mesh.indices| == |ld.mesh.indices| + CornerCount([line])
  {
    assert [line][1..] == [];
    assert ld.positions + [] == ld.positions && ld.normals + [] == ld.normals;
  }

  /** `loadOBJ(path, vertices, indices)`: fails without touching the vectors
      when the file cannot be opened, else appends to them. */
  function LoadObj(src: Source, m: Mesh): (r: LoadResult)
    requires src.Readable? ==> Admissible(0, 0, src.lines)
    ensures r.OpenFailed? <==> src.Unreadable?
    ensures r.Loaded? ==> m.vertices <= r.mesh.vertices && m.indices <= r.mesh.indices
    ensures r.Loaded? ==> |r.mesh.indices| == |m.indices| + CornerCount(src.lines)
  {
    match src
    case Unreadable => OpenFailed
    case Readable(lines) => Loaded(Run(Loader([], [], m), lines).mesh)
  }

  // ---------------------------------------------------------------------------
  // Splitting the line sequence

  lemma {:induction false} PositionsOfAppend(a: seq<Record>, b: seq<Record>)
    ensures PositionsOf(a + b) == PositionsOf(a) + PositionsOf(b)
    ensures NormalsOf(a + b) == NormalsOf(a) + NormalsOf(b)
    ensures CornerCount(a + b) == CornerCount(a) + CornerCount(b)
  {
    PositionsConcat(a, b);
    NormalsConcat(a, b);
    CornerCountConcat(a, b);
  }

  lemma {:induction false} PositionsConcat(a: seq<Record>, b: seq<Record>)
    ensures PositionsOf(a + b) == PositionsOf(a) + PositionsOf(b)
    decreases |a|
  {
    if |a| == 0 {
      assert a + b == b;
    } else {
      assert (a + b)[0] == a[0];
      assert (a + b)[1..] == a[1..] + b;
      PositionsConcat(a[1..], b);
    }
  }

  lemma {:induction false} NormalsConcat(a: seq<Record>, b: seq<Record>)
    ensures NormalsOf(a + b) == NormalsOf(a) + NormalsOf(b)
    decreases |a|
  {
    if |a| == 0 {
      assert a + b == b;
    } else {
      assert (a + b)[0] == a[0];
      assert (a + b)[1..] == a[1..] + b;
      NormalsConcat(a[1..], b);
    }
  }

  lemma {:induction false} CornerCountConcat(a: seq<Record>, b: seq<Record>)
    ensures CornerCount(a + b) == CornerCount(a) + CornerCount(b)
    decreases |a|
  {
    if |a| == 0 {
      assert a + b == b;
    } else {
      assert (a + b)[0] == a[0];
      assert (a + b)[1..] == a[1..] + b;
      CornerCountConcat(a[1..], b);
    }
  }

  /** A file is admissible exactly when its first part is, and its second
      part is admissible after the positions and normals of the first. */
  lemma {:induction false} AdmissibleAppend(np: nat, nn: nat, a: seq<Record>, b: seq<Record>)
    ensures Admissible(np, nn, a + b) <==>
      Admissible(np, nn, a) && Admissible(np + |PositionsOf(a)|, nn + |NormalsOf(a)|, b)
    decreases |a|
  {
    if |a| == 0 {
      assert a + b == b;
    } else {
      assert (a + b)[0] == a[0];
      assert (a + b)[1..] == a[1..] + b;
      match a[0]
      case PositionLine(_) => AdmissibleAppend(np + 1, nn, a[1..], b);
      case NormalLine(_) => AdmissibleAppend(np, nn + 1, a[1..], b);
      case FaceLine(_) => AdmissibleAppend(np, nn, a[1..], b);
      case OtherLine => AdmissibleAppend(np, nn, a[1..], b);
    }
  }

  /** Running over a concatenation is running over its parts in turn. */
  lemma {:induction false} RunAppend(ld: Loader, a: seq<Record>, b: seq<Record>)
    requires Admissible(|ld.positions|, |ld.normals|, a + b)
    ensures Admissible(|ld.positions|, |ld.normals|, a)
    ensures Admissible(|Run(ld, a).positions|, |Run(ld, a).normals|, b)
    ensures Run(ld, a + b) == Run(Run(ld, a), b)
    decreases |a|
  {
    AdmissibleAppend(|ld.positions|, |ld.normals|, a, b);
    if |a| == 0 {
      assert a + b == b;
    } else {
      assert (a + b)[0] == a[0];
      assert (a + b)[1..] == a[1..] + b;
      RunAppend(Step(ld, a[0]), a[1..], b);
    }
  }

  /** The line loop deduplicates exactly the corner candidates, in order. */
  lemma {:induction false} RunIsDedup(ld: Loader, lines: seq<Record>)
    requires Admissible(|ld.positions|, |ld.normals|, lines)
    ensures Run(ld, lines).mesh == Dedup(ld.mesh, CandidatesOf(ld.positions, ld.normals, lines))
    decreases |lines|
  {
    if |lines| > 0 {
      var ld1 := Step(ld, lines[0]);
      RunIsDedup(ld1, lines[1..]);
      match lines[0]
      case FaceLine(cs) =>
        DedupAppend(ld.mesh, FaceCandidates(ld.positions, ld.normals, cs),
                    CandidatesOf(ld.positions, ld.normals, lines[1..]));
      case _ =>
    }
  }

  /** The range facts the precondition gives about corner `j` of line `i`. */
  lemma {:induction false} AdmissibleCorner(np: nat, nn: nat, lines: seq<Record>, i: nat, j: nat)
    requires Admissible(np, nn, lines)
    requires i < |lines| && lines[i].FaceLine? && j < |lines[i].corners|
    ensures CornerInRange(np + |PositionsOf(lines[..i])|, nn + |NormalsOf(lines[..i])|, lines[i].corners[j])
  {
    assert lines == lines[..i] + lines[i..];
    AdmissibleAppend(np, nn, lines[..i], lines[i..]);
    assert lines[i..][0] == lines[i];
  }

  /** The vertex that corner `j` of line `i` denotes: the position and normal
      it names among those read on lines before `i`. */
  function CornerValue(lines: seq<Record>, i: nat, j: nat): Vertex
    requires Admissible(0, 0, lines)
    requires i < |lines| && lines[i].FaceLine? && j < |lines[i].corners|
  {
    AdmissibleCorner(0, 0, lines, i, j);
    Candidate(PositionsOf(lines[..i]), NormalsOf(lines[..i]), lines[i].corners[j])
  }

  /** The records of a one-line file. */
  lemma OneLine(line: Record)
    ensures PositionsOf([line]) == if line.PositionLine? then [line.position] else []
    ensures NormalsOf([line]) == if line.NormalLine? then [line.normal] else []
  {
    assert [line][1..] == [];
  }

  /** The first line's candidates, then the rest resolved after it. */
  lemma CandidatesOfCons(ps: seq<Vec3>, ns: seq<Vec3>, line: Record, rest: seq<Record>)
    requires Admissible(|ps|, |ns|, [line] + rest)
    ensures Admissible(|ps + PositionsOf([line])|, |ns + NormalsOf([line])|, rest)
    ensures CandidatesOf(ps, ns, [line] + rest) ==
            CandidatesOf(ps, ns, [line]) + CandidatesOf(ps + PositionsOf([line]), ns + NormalsOf([line]), rest)
  {
    var lines := [line] + rest;
    assert lines[0] == line && lines[1..] == rest;
    assert [line][1..] == [];
    OneLine(line);
    match line
    case PositionLine(p) =>
      assert ps + PositionsOf([line]) == ps + [p];
      assert ns + NormalsOf([line]) == ns;
      assert CandidatesOf(ps, ns, lines) == CandidatesOf(ps + [p], ns, rest);
      assert CandidatesOf(ps, ns, [line]) == [];
    case NormalLine(n) =>
      assert ps + PositionsOf([line]) == ps;
      assert ns + NormalsOf([line]) == ns + [n];
      assert CandidatesOf(ps, ns, lines) == CandidatesOf(ps, ns + [n], rest);
      assert CandidatesOf(ps, ns, [line]) == [];
    case FaceLine(cs) =>
      assert ps + PositionsOf([line]) == ps;
      assert ns + NormalsOf([line]) == ns;
      assert CandidatesOf(ps, ns, lines) == FaceCandidates(ps, ns, cs) + CandidatesOf(ps, ns, rest);
      assert CandidatesOf(ps, ns, [line]) == FaceCandidates(ps, ns, cs) + [];
    case OtherLine =>
      assert ps + PositionsOf([line]) == ps;
      assert ns + NormalsOf([line]) == ns;
      assert CandidatesOf(ps, ns, lines) == CandidatesOf(ps, ns, rest);
      assert CandidatesOf(ps, ns, [line]) == [];
  }

  /** The candidates of a concatenation: those of the first part, then those
      of the second part resolved after the first part's records. */
  lemma {:induction false} CandidatesOfAppend(ps: seq<Vec3>, ns: seq<Vec3>, a: seq<Record>, b: seq<Record>)
    requires Admissible(|ps|, |ns|, a + b)
    ensures Admissible(|ps|, |ns|, a)
    ensures Admissible(|ps + PositionsOf(a)|, |ns + NormalsOf(a)|, b)
    ensures CandidatesOf(ps, ns, a + b) ==
            CandidatesOf(ps, ns, a) + CandidatesOf(ps + PositionsOf(a), ns + NormalsOf(a), b)
    decreases |a|
  {
    AdmissibleAppend(|ps|, |ns|, a, b);
    if |a| == 0 {
      assert a + b == b;
      assert ps + [] == ps && ns + [] == ns;
    } else {
      assert a + b == [a[0]] + (a[1..] + b);
      CandidatesOfCons(ps, ns, a[0], a[1..] + b);
      CandidatesOfAppend(ps + PositionsOf([a[0]]), ns + NormalsOf([a[0]]), a[1..], b);
      CandidatesOfAppendStep(ps, ns, a, b);
    }
  }

  /** The inductive step of `CandidatesOfAppend`, given the statement for
      the tail. */
  lemma CandidatesOfAppendStep(ps: seq<Vec3>, ns: seq<Vec3>, a: seq<Record>, b: seq<Record>)
    requires |a| > 0 && Admissible(|ps|, |ns|, a + b)
    requires Admissible(|ps + PositionsOf([a[0]])|, |ns + NormalsOf([a[0]])|, a[1..] + b)
    requires Admissible(|ps + PositionsOf([a[0]])|, |ns + NormalsOf([a[0]])|, a[1..])
    requires Admissible(|ps + PositionsOf([a[0]]) + PositionsOf(a[1..])|, |ns + NormalsOf([a[0]]) + NormalsOf(a[1..])|, b)
    requires CandidatesOf(ps, ns, a + b) ==
             CandidatesOf(ps, ns, [a[0]]) + CandidatesOf(ps + PositionsOf([a[0]]), ns + NormalsOf([a[0]]), a[1..] + b)
    requires CandidatesOf(ps + PositionsOf([a[0]]), ns + NormalsOf([a[0]]), a[1..] + b) ==
             CandidatesOf(ps + PositionsOf([a[0]]), ns + NormalsOf([a[0]]), a[1..]) +
             CandidatesOf(ps + PositionsOf([a[0]]) + PositionsOf(a[1..]), ns + NormalsOf([a[0]]) + NormalsOf(a[1..]), b)
    ensures Admissible(|ps|, |ns|, a)
    ensures Admissible(|ps + PositionsOf(a)|, |ns + NormalsOf(a)|, b)
    ensures CandidatesOf(ps, ns, a + b) ==
            CandidatesOf(ps, ns, a) + CandidatesOf(ps + PositionsOf(a), ns + NormalsOf(a), b)
  {
    var line, tail := a[0], a[1..];
    assert a == [line] + tail;
    AdmissibleAppend(|ps|, |ns|, a, b);
    CandidatesOfCons(ps, ns, line, tail);
    PositionsOfAppend([line], tail);
    var ps1, ns1 := ps + PositionsOf([line]), ns + NormalsOf([line]);
    assert PositionsOf(a) == PositionsOf([line]) + PositionsOf(tail);
    assert NormalsOf(a) == NormalsOf([line]) + NormalsOf(tail);
    SeqAssoc(ps, PositionsOf([line]), PositionsOf(tail));
    SeqAssoc(ns, NormalsOf([line]), NormalsOf(tail));
    var c1 := CandidatesOf(ps, ns, [line]);
    var c2 := CandidatesOf(ps1, ns1, tail);
    var c3 := CandidatesOf(ps + PositionsOf(a), ns + NormalsOf(a), b);
    assert CandidatesOf(ps, ns, a) == c1 + c2;
    assert CandidatesOf(ps, ns, a + b) == c1 + (c2 + c3);
    SeqAssoc(c1, c2, c3);
  }

  /** The candidate list, indexed by line and corner. */
  lemma CandidatesAt(ps: seq<Vec3>, ns: seq<Vec3>, lines: seq<Record>, i: nat, j: nat)
    requires Admissible(|ps|, |ns|, lines)
    requires i < |lines| && lines[i].FaceLine? && j < |lines[i].corners|
    ensures CornerCount(lines[..i]) + j < CornerCount(lines)
    ensures CornerInRange(|ps + PositionsOf(lines[..i])|, |ns + NormalsOf(lines[..i])|, lines[i].corners[j])
    ensures CandidatesOf(ps, ns, lines)[CornerCount(lines[..i]) + j] ==
            Candidate(ps + PositionsOf(lines[..i]), ns + NormalsOf(lines[..i]), lines[i].corners[j])
  {
    var a, b := lines[..i], lines[i..];
    assert lines == a + b;
    CandidatesOfAppend(ps, ns, a, b);
    var ps', ns' := ps + PositionsOf(a), ns + NormalsOf(a);
    assert b[0] == lines[i];
    var face := FaceCandidates(ps', ns', lines[i].corners);
    assert CandidatesOf(ps', ns', b) == face + CandidatesOf(ps', ns', b[1..]);
    assert CandidatesOf(ps, ns, lines) == CandidatesOf(ps, ns, a) + face + CandidatesOf(ps', ns', b[1..]);
    assert face[j] == Candidate(ps', ns', lines[i].corners[j]);
  }

  // ---------------------------------------------------------------------------
  // Properties of loadOBJ

  /** In `r`, loaded from `lines` on top of `m`, the index emitted for corner
      `j` of line `i` names a vertex equal to the position and normal that the
      corner refers to, and no earlier vertex passes the attribute test
      against it. */
  predicate CornerResolved(lines: seq<Record>, m: Mesh, r: Mesh, i: nat, j: nat)
    requires Admissible(0, 0, lines)
    requires i < |lines| && lines[i].FaceLine? && j < |lines[i].corners|
  {
    && m.indices <= r.indices
    && |m.indices| + CornerCount(lines[..i]) + j < |r.indices|
    && FirstMatchAt(r.vertices, r.indices[|m.indices| + CornerCount(lines[..i]) + j], CornerValue(lines, i, j))
  }

  /** Loading is deduplicating the corner candidates of the whole file. */
  lemma LoadObjIsDedup(lines: seq<Record>, m: Mesh)
    requires Admissible(0, 0, lines)
    ensures LoadObj(Readable(lines), m).mesh == Dedup(m, CandidatesOf([], [], lines))
  {
    RunIsDedup(Loader([], [], m), lines);
  }

  /** Corner `j` of line `i` is candidate number `CornerCount(lines[..i]) + j`. */
  lemma CornerCandidate(lines: seq<Record>, i: nat, j: nat)
    requires Admissible(0, 0, lines)
    requires i < |lines| && lines[i].FaceLine? && j < |lines[i].corners|
    ensures CornerCount(lines[..i]) + j < CornerCount(lines)
    ensures CandidatesOf([], [], lines)[CornerCount(lines[..i]) + j] == CornerValue(lines, i, j)
  {
    CandidatesAt([], [], lines, i, j);
    EmptyPrefix(PositionsOf(lines[..i]));
    EmptyPrefix(NormalsOf(lines[..i]));
  }

  lemma EmptyPrefix(s: seq<Vec3>)
    ensures [] + s == s
  {
  }

  /** Resolution and first-seen-wins for one corner. */
  lemma LoadObjResolvesCorner(lines: seq<Record>, m: Mesh, i: nat, j: nat)
    requires Admissible(0, 0, lines)
    requires i < |lines| && lines[i].FaceLine? && j < |lines[i].corners|
    ensures CornerResolved(lines, m, LoadObj(Readable(lines), m).mesh, i, j)
  {
    var cands := CandidatesOf([], [], lines);
    var r := Dedup(m, cands);
    var k := CornerCount(lines[..i]) + j;
    LoadObjIsDedup(lines, m);
    CornerCandidate(lines, i, j);
    DedupResolves(m, cands);
    assert r.indices[|m.indices|..][k] == r.indices[|m.indices| + k];
  }

  /** Resolution and first-seen-wins, for every corner of every face. */
  lemma LoadObjResolvesCorners(lines: seq<Record>, m: Mesh)
    requires Admissible(0, 0, lines)
    ensures forall i: nat, j: nat :: i < |lines| && lines[i].FaceLine? && j < |lines[i].corners| ==>
      CornerResolved(lines, m, LoadObj(Readable(lines), m).mesh, i, j)
  {
    forall i: nat, j: nat | i < |lines| && lines[i].FaceLine? && j < |lines[i].corners|
      ensures CornerResolved(lines, m, LoadObj(Readable(lines), m).mesh, i, j)
    {
      LoadObjResolvesCorner(lines, m, i, j);
    }
  }

  /** The two mesh invariants survive a load: no two vertices pass the
      attribute test, and every index names a vertex. */
  lemma LoadObjKeepsInvariants(lines: seq<Record>, m: Mesh, r: Mesh)
    requires Admissible(0, 0, lines) && LoadObj(Readable(lines), m) == Loaded(r)
    ensures Distinct(m.vertices) ==> Distinct(r.vertices)
    ensures IndicesValid(m) ==> IndicesValid(r)
  {
    var cands := CandidatesOf([], [], lines);
    RunIsDedup(Loader([], [], m), lines);
    if Distinct(m.vertices) {
      DedupKeepsDistinct(m, cands);
    }
    if IndicesValid(m) {
      DedupKeepsIndicesValid(m, cands);
    }
  }

  /** New vertices appear in the order their first corner is met. */
  lemma LoadObjFirstUseOrder(lines: seq<Record>, m: Mesh)
    requires Admissible(0, 0, lines)
    ensures var r := LoadObj(Readable(lines), m).mesh; var added := r.indices[|m.indices|..];
      forall j :: |m.vertices| <= j < |r.vertices| ==> UsedInOrder(added, j)
  {
    RunIsDedup(Loader([], [], m), lines);
    DedupFirstOccurrenceOrder(m, CandidatesOf([], [], lines));
  }

  /** Lines with any other first word change nothing. */
  lemma OtherLinesAreInert(a: seq<Record>, b: seq<Record>, m: Mesh)
    requires Admissible(0, 0, a + b)
    ensures Admissible(0, 0, a + [OtherLine] + b)
    ensures LoadObj(Readable(a + [OtherLine] + b), m) == LoadObj(Readable(a + b), m)
  {
    assert a + [OtherLine] + b == a + ([OtherLine] + b);
    RunSkipsOtherLine(Loader([], [], m), a, b);
  }

  lemma {:induction false} RunSkipsOtherLine(ld: Loader, a: seq<Record>, b: seq<Record>)
    requires Admissible(|ld.positions|, |ld.normals|, a + b)
    ensures Admissible(|ld.positions|, |ld.normals|, a + ([OtherLine] + b))
    ensures Run(ld, a + ([OtherLine] + b)) == Run(ld, a + b)
    decreases |a|
  {
    var ob := [OtherLine] + b;
    if |a| == 0 {
      assert a + ob == ob && a + b == b;
      assert ob[0] == OtherLine && ob[1..] == b;
    } else {
      assert (a + ob)[0] == a[0] && (a + ob)[1..] == a[1..] + ob;
      assert (a + b)[0] == a[0] && (a + b)[1..] == a[1..] + b;
      RunSkipsOtherLine(Step(ld, a[0]), a[1..], b);
    }
  }
}
