/// The Euler operators of the surface mesh that this module holds:
/// `is_flip_ok`/`flip` and `insert_vertex`, with the record writes shared by
/// the other operators.  `insert_edge` and `split(Face, Vertex)` are in
/// FaceSplitting, `split(Edge, Vertex)` in EdgeSplitting and EdgeSplitPairs,
/// `is_removal_ok`/`remove_edge` in EdgeRemoval and
/// `is_collapse_ok`/`collapse` in EdgeCollapse.
///
/// Each operator reads the handles it needs, rewrites the connectivity
/// records through the source's sequence of set_next_halfedge / set_vertex /
/// set_face / set_halfedge calls on local copies, and stores the records
/// back.  The link updates are stated on record values: `NextOf(hp, h)` is
/// what `next_halfedge(h)` returns in a mesh whose halfedge records are hp.
module EulerOperators {
  import opened Handles
  import opened Wrappers
  import opened HalfedgeMesh

  // ---- the record writes of the set_* calls

  function NextOf(hp: HalfedgeProps, h: Halfedge): Halfedge { Get(hp.next, h) }
  function PrevOf(hp: HalfedgeProps, h: Halfedge): Halfedge { Get(hp.prev, h) }
  function TargetOf(hp: HalfedgeProps, h: Halfedge): Vertex { Get(hp.vertex, h) }
  function FaceOf(hp: HalfedgeProps, h: Halfedge): Face { Get(hp.face, h) }

  /// `set_next_halfedge(h, nh)`: next of h is nh and prev of nh is h.
  function Link(hp: HalfedgeProps, h: Halfedge, nh: Halfedge): (r: HalfedgeProps)
    ensures h < |hp.next| && nh < |hp.prev| ==> NextOf(r, h) == nh && PrevOf(r, nh) == h
  {
    hp.(next := Put(hp.next, h, nh), prev := Put(hp.prev, nh, h))
  }

  /// `set_vertex(h, v)`.
  function Retarget(hp: HalfedgeProps, h: Halfedge, v: Vertex): HalfedgeProps
  {
    hp.(vertex := Put(hp.vertex, h, v))
  }

  /// `set_face(h, f)`.
  function Reown(hp: HalfedgeProps, h: Halfedge, f: Face): HalfedgeProps
  {
    hp.(face := Put(hp.face, h, f))
  }

  /// The halfedge records of one halfedge agree in two states.
  predicate SameAt(hp: HalfedgeProps, hp': HalfedgeProps, h: Halfedge)
  {
    NextOf(hp', h) == NextOf(hp, h) && PrevOf(hp', h) == PrevOf(hp, h) &&
    TargetOf(hp', h) == TargetOf(hp, h) && FaceOf(hp', h) == FaceOf(hp, h)
  }

  /// The four halfedge arrays keep their sizes.
  predicate SameSizes(hp: HalfedgeProps, hp': HalfedgeProps)
  {
    |hp'.next| == |hp.next| && |hp'.prev| == |hp.prev| && |hp'.vertex| == |hp.vertex| && |hp'.face| == |hp.face|
  }

  /// The four halfedge arrays have one length.
  predicate SameLength(hp: HalfedgeProps)
  {
    |hp.prev| == |hp.next| && |hp.vertex| == |hp.next| && |hp.face| == |hp.next|
  }

  /// The references of the halfedge records are in range: nv vertices, nf
  /// faces, and the halfedges of the records themselves.
  predicate RecordsIn(hp: HalfedgeProps, nv: nat, nf: nat)
  {
    RefsIn(hp.vertex, nv) && RefsIn(hp.face, nf) && RefsIn(hp.next, |hp.next|) && RefsIn(hp.prev, |hp.next|)
  }

  /// h is the first halfedge of a triangle: three halfedges of one valid face,
  /// linked by next and prev into a loop.
  predicate Triangle(hp: HalfedgeProps, h: Halfedge)
  {
    var h1 := NextOf(hp, h);
    var h2 := NextOf(hp, h1);
    h < |hp.next| && h1 < |hp.next| && h2 < |hp.next| && NextOf(hp, h2) == h &&
    PrevOf(hp, h1) == h && PrevOf(hp, h2) == h1 && PrevOf(hp, h) == h2 &&
    IsValid(FaceOf(hp, h)) && FaceOf(hp, h1) == FaceOf(hp, h) && FaceOf(hp, h2) == FaceOf(hp, h)
  }

  /// The six halfedges of the two triangles at an edge: a0 = halfedge(e, 0)
  /// with a1, a2 following it, and b0 = halfedge(e, 1) with b1, b2.
  datatype Wing = Wing(a0: Halfedge, a1: Halfedge, a2: Halfedge, b0: Halfedge, b1: Halfedge, b2: Halfedge)

  function WingOf(hp: HalfedgeProps, e: Edge): Wing
  {
    var a0, b0 := 2 * e, 2 * e + 1;
    Wing(a0, NextOf(hp, a0), NextOf(hp, NextOf(hp, a0)), b0, NextOf(hp, b0), NextOf(hp, NextOf(hp, b0)))
  }

  predicate InWing(w: Wing, h: Halfedge)
  {
    h == w.a0 || h == w.a1 || h == w.a2 || h == w.b0 || h == w.b1 || h == w.b2
  }

  /// The six halfedges are pairwise different.
  predicate Separate(w: Wing)
  {
    w.a0 != w.a1 && w.a0 != w.a2 && w.a0 != w.b0 && w.a0 != w.b1 && w.a0 != w.b2 &&
    w.a1 != w.a2 && w.a1 != w.b0 && w.a1 != w.b1 && w.a1 != w.b2 &&
    w.a2 != w.b0 && w.a2 != w.b1 && w.a2 != w.b2 &&
    w.b0 != w.b1 && w.b0 != w.b2 && w.b1 != w.b2
  }

  /// Edge e lies between two different triangles (the case the operators
  /// that are "only valid for triangle meshes" are written for).
  predicate TrianglePair(hp: HalfedgeProps, e: Edge)
  {
    var w := WingOf(hp, e);
    Triangle(hp, w.a0) && Triangle(hp, w.b0) && Separate(w) && FaceOf(hp, w.a0) != FaceOf(hp, w.b0)
  }

  // ---- flip

  /// What `is_flip_ok(e)` tests: e is an interior edge, the vertices opposite
  /// to it differ, and no halfedge joins them yet.
  predicate FlipOk(m: SurfaceMesh, e: Edge)
    reads m`vprops, m`hprops
  {
    var v0 := m.ToVertex(m.Next(HalfedgeOf(e, 0)));
    var v1 := m.ToVertex(m.Next(HalfedgeOf(e, 1)));
    !m.IsBoundaryEdge(e) && v0 != v1 && !IsValid(m.FirstTo(m.ClockwiseHalfedges(v0), v1))
  }

  /// The test of `is_flip_ok` in words: a boundary edge, coinciding opposite
  /// vertices, or an existing halfedge between them rule the flip out.
  lemma FlipOkMeaning(m: SurfaceMesh, e: Edge)
    requires m.Valid() && OppositeVerticesExist(m, e)
    ensures var v0 := m.ToVertex(m.Next(HalfedgeOf(e, 0)));
            var v1 := m.ToVertex(m.Next(HalfedgeOf(e, 1)));
            FlipOk(m, e) <==>
              !m.IsBoundaryEdge(e) && v0 != v1 &&
              forall k :: 0 <= k < |m.ClockwiseHalfedges(v0)| ==> m.ToVertex(m.ClockwiseHalfedges(v0)[k]) != v1
  {
    var v0 := m.ToVertex(m.Next(HalfedgeOf(e, 0)));
    var v1 := m.ToVertex(m.Next(HalfedgeOf(e, 1)));
    if v0 != v1 {
      m.FirstToSpec(m.ClockwiseHalfedges(v0), v1);
    }
  }

  /// find_halfedge between the vertices opposite to e is defined: both exist
  /// and the rotation of the first one closes.
  predicate OppositeVerticesExist(m: SurfaceMesh, e: Edge)
    reads m`vprops, m`hprops
  {
    var v0 := m.ToVertex(m.Next(HalfedgeOf(e, 0)));
    var v1 := m.ToVertex(m.Next(HalfedgeOf(e, 1)));
    m.IsValidVertex(v0) && m.IsValidVertex(v1) && m.RingCloses(Cw, v0)
  }

  /// `is_flip_ok(e)`.
  method IsFlipOk(m: SurfaceMesh, e: Edge) returns (r: bool)
    requires m.Valid() && HalfedgeOf(e, 1) < |m.hprops.next|
    requires !m.IsBoundaryEdge(e) ==> OppositeVerticesExist(m, e)
    ensures r <==> FlipOk(m, e)
  {
    if m.IsBoundaryEdge(e) {
      return false;
    }
    var h0, h1 := HalfedgeOf(e, 0), HalfedgeOf(e, 1);
    var v0, v1 := m.ToVertex(m.Next(h0)), m.ToVertex(m.Next(h1));
    if v0 == v1 {
      return false;
    }
    var h := m.FindHalfedge(v0, v1);
    return !IsValid(h);
  }

  /// The halfedge records after a flip of e, in terms of those before: with
  /// a0 a1 a2 and b0 b1 b2 the two triangles at e, the loops become
  /// a0 a2 b1 and b0 b2 a1, a0 and b0 point to the former targets of a1 and
  /// b1, a1 and b1 change faces, and no other halfedge changes.
  ghost predicate Flipped(hp: HalfedgeProps, hp': HalfedgeProps, e: Edge)
  {
    FlippedAt(hp, hp', WingOf(hp, e))
  }

  ghost predicate FlippedAt(hp: HalfedgeProps, hp': HalfedgeProps, w: Wing)
  {
    SameSizes(hp, hp') && FlippedLoops(hp', w) && FlippedTargets(hp, hp', w) && FlippedFaces(hp, hp', w) &&
    forall h :: !InWing(w, h) ==> SameAt(hp, hp', h)
  }

  /// The loops a0 a2 b1 and b0 b2 a1, by next and by prev.
  predicate FlippedLoops(hp': HalfedgeProps, w: Wing)
  {
    NextOf(hp', w.a0) == w.a2 && NextOf(hp', w.a2) == w.b1 && NextOf(hp', w.b1) == w.a0 &&
    NextOf(hp', w.b0) == w.b2 && NextOf(hp', w.b2) == w.a1 && NextOf(hp', w.a1) == w.b0 &&
    PrevOf(hp', w.a2) == w.a0 && PrevOf(hp', w.b1) == w.a2 && PrevOf(hp', w.a0) == w.b1 &&
    PrevOf(hp', w.b2) == w.b0 && PrevOf(hp', w.a1) == w.b2 && PrevOf(hp', w.b0) == w.a1
  }

  /// a0 and b0 point to the former targets of a1 and b1; the other four
  /// keep theirs.
  predicate FlippedTargets(hp: HalfedgeProps, hp': HalfedgeProps, w: Wing)
  {
    TargetOf(hp', w.a0) == TargetOf(hp, w.a1) && TargetOf(hp', w.b0) == TargetOf(hp, w.b1) &&
    TargetOf(hp', w.a1) == TargetOf(hp, w.a1) && TargetOf(hp', w.a2) == TargetOf(hp, w.a2) &&
    TargetOf(hp', w.b1) == TargetOf(hp, w.b1) && TargetOf(hp', w.b2) == TargetOf(hp, w.b2)
  }

  /// a1 moves to the face of b0 and b1 to the face of a0.
  predicate FlippedFaces(hp: HalfedgeProps, hp': HalfedgeProps, w: Wing)
  {
    var fa, fb := FaceOf(hp, w.a0), FaceOf(hp, w.b0);
    FaceOf(hp', w.a0) == fa && FaceOf(hp', w.a2) == fa && FaceOf(hp', w.b1) == fa &&
    FaceOf(hp', w.b0) == fb && FaceOf(hp', w.b2) == fb && FaceOf(hp', w.a1) == fb
  }

  /// Three slots of a handle array written to point along the cycle x y z.
  function Cycle(s: seq<nat>, x: nat, y: nat, z: nat): seq<nat>
  {
    Put(Put(Put(s, x, y), y, z), z, x)
  }

  /// Two different slots of an array written.
  function Put2<T>(s: seq<T>, x: nat, a: T, y: nat, b: T): seq<T>
  {
    Put(Put(s, x, a), y, b)
  }

  lemma CycleAt(s: seq<nat>, x: nat, y: nat, z: nat)
    requires x < |s| && y < |s| && z < |s| && x != y && y != z && x != z
    ensures var r := Cycle(s, x, y, z);
            |r| == |s| && Get(r, x) == y && Get(r, y) == z && Get(r, z) == x &&
            forall k :: k != x && k != y && k != z ==> Get(r, k) == Get(s, k)
  {
  }

  lemma Put2At<T>(s: seq<T>, x: nat, a: T, y: nat, b: T)
    requires x < |s| && y < |s| && x != y
    ensures var r := Put2(s, x, a, y, b);
            |r| == |s| && r[x] == a && r[y] == b && forall k :: 0 <= k < |s| && k != x && k != y ==> r[k] == s[k]
  {
  }

  lemma CycleRefs(s: seq<nat>, x: nat, y: nat, z: nat, n: nat)
    requires RefsIn(s, n) && x < n && y < n && z < n
    ensures RefsIn(Cycle(s, x, y, z), n)
  {
    PutRefs(s, x, y, n);
    PutRefs(Put(s, x, y), y, z, n);
    PutRefs(Put(Put(s, x, y), y, z), z, x, n);
  }

  lemma Put2Refs(s: seq<nat>, x: nat, a: nat, y: nat, b: nat, n: nat)
    requires RefsIn(s, n) && Ref(a, n) && Ref(b, n)
    ensures RefsIn(Put2(s, x, a, y, b), n)
  {
    PutRefs(s, x, a, n);
    PutRefs(Put(s, x, a), y, b, n);
  }

  /// The halfedge writes of `flip(e)`: set_vertex on a0 and b0, the six
  /// set_next_halfedge calls (two cycles of next and two of prev), and
  /// set_face on a1 and b1.
  function FlipHalfedges(hp: HalfedgeProps, w: Wing): HalfedgeProps
  {
    HalfedgeProps(
      Put2(hp.face, w.a1, FaceOf(hp, w.b0), w.b1, FaceOf(hp, w.a0)),
      Put2(hp.vertex, w.a0, TargetOf(hp, w.a1), w.b0, TargetOf(hp, w.b1)),
      Cycle(Cycle(hp.next, w.a0, w.a2, w.b1), w.b0, w.b2, w.a1),
      Cycle(Cycle(hp.prev, w.a0, w.b1, w.a2), w.b0, w.a1, w.b2))
  }

  /// All six halfedges of a wing are below n.
  predicate WingIn(w: Wing, n: nat)
  {
    w.a0 < n && w.a1 < n && w.a2 < n && w.b0 < n && w.b1 < n && w.b2 < n
  }

  lemma NextFlipped(s: seq<nat>, w: Wing)
    requires Separate(w) && WingIn(w, |s|)
    ensures var r := Cycle(Cycle(s, w.a0, w.a2, w.b1), w.b0, w.b2, w.a1);
            |r| == |s| &&
            Get(r, w.a0) == w.a2 && Get(r, w.a2) == w.b1 && Get(r, w.b1) == w.a0 &&
            Get(r, w.b0) == w.b2 && Get(r, w.b2) == w.a1 && Get(r, w.a1) == w.b0 &&
            forall h :: !InWing(w, h) ==> Get(r, h) == Get(s, h)
  {
    CycleAt(s, w.a0, w.a2, w.b1);
    CycleAt(Cycle(s, w.a0, w.a2, w.b1), w.b0, w.b2, w.a1);
  }

  lemma PrevFlipped(s: seq<nat>, w: Wing)
    requires Separate(w) && WingIn(w, |s|)
    ensures var r := Cycle(Cycle(s, w.a0, w.b1, w.a2), w.b0, w.a1, w.b2);
            |r| == |s| &&
            Get(r, w.a2) == w.a0 && Get(r, w.b1) == w.a2 && Get(r, w.a0) == w.b1 &&
            Get(r, w.b2) == w.b0 && Get(r, w.a1) == w.b2 && Get(r, w.b0) == w.a1 &&
            forall h :: !InWing(w, h) ==> Get(r, h) == Get(s, h)
  {
    CycleAt(s, w.a0, w.b1, w.a2);
    CycleAt(Cycle(s, w.a0, w.b1, w.a2), w.b0, w.a1, w.b2);
  }

  lemma PairFlipped(s: seq<nat>, w: Wing, x: nat, a: nat, y: nat, b: nat)
    requires Separate(w) && WingIn(w, |s|) && InWing(w, x) && InWing(w, y) && x != y
    ensures var r := Put2(s, x, a, y, b);
            |r| == |s| && Get(r, x) == a && Get(r, y) == b &&
            forall h :: h != x && h != y ==> Get(r, h) == Get(s, h)
  {
    Put2At(s, x, a, y, b);
  }

  lemma FlipLoops(hp: HalfedgeProps, w: Wing)
    requires SameLength(hp) && Separate(w) && WingIn(w, |hp.next|)
    ensures FlippedLoops(FlipHalfedges(hp, w), w)
  {
    NextFlipped(hp.next, w);
    PrevFlipped(hp.prev, w);
  }

  lemma FlipTargets(hp: HalfedgeProps, w: Wing)
    requires SameLength(hp) && Separate(w) && WingIn(w, |hp.next|)
    ensures FlippedTargets(hp, FlipHalfedges(hp, w), w)
  {
    PairFlipped(hp.vertex, w, w.a0, TargetOf(hp, w.a1), w.b0, TargetOf(hp, w.b1));
  }

  lemma FlipFaces(hp: HalfedgeProps, w: Wing)
    requires SameLength(hp) && Separate(w) && WingIn(w, |hp.next|)
    requires FaceOf(hp, w.a2) == FaceOf(hp, w.a0) && FaceOf(hp, w.b2) == FaceOf(hp, w.b0)
    ensures FlippedFaces(hp, FlipHalfedges(hp, w), w)
  {
    PairFlipped(hp.face, w, w.a1, FaceOf(hp, w.b0), w.b1, FaceOf(hp, w.a0));
  }

  lemma FlipOthers(hp: HalfedgeProps, w: Wing)
    requires SameLength(hp) && Separate(w) && WingIn(w, |hp.next|)
    ensures var hp' := FlipHalfedges(hp, w);
            SameSizes(hp, hp') && forall h :: !InWing(w, h) ==> SameAt(hp, hp', h)
  {
    NextFlipped(hp.next, w);
    PrevFlipped(hp.prev, w);
    PairFlipped(hp.vertex, w, w.a0, TargetOf(hp, w.a1), w.b0, TargetOf(hp, w.b1));
    PairFlipped(hp.face, w, w.a1, FaceOf(hp, w.b0), w.b1, FaceOf(hp, w.a0));
  }

  /// The writes on six different halfedges in range give the flipped
  /// configuration.
  lemma FlipAt(hp: HalfedgeProps, w: Wing)
    requires SameLength(hp) && Separate(w) && WingIn(w, |hp.next|)
    requires FaceOf(hp, w.a2) == FaceOf(hp, w.a0) && FaceOf(hp, w.b2) == FaceOf(hp, w.b0)
    ensures FlippedAt(hp, FlipHalfedges(hp, w), w)
  {
    FlipLoops(hp, w);
    FlipTargets(hp, w);
    FlipFaces(hp, w);
    FlipOthers(hp, w);
  }

  /// On two triangles the writes produce the flipped configuration.
  lemma FlipHalfedgesSpec(hp: HalfedgeProps, e: Edge)
    requires TrianglePair(hp, e) && SameLength(hp)
    ensures Flipped(hp, FlipHalfedges(hp, WingOf(hp, e)), e)
  {
    FlipAt(hp, WingOf(hp, e));
  }

  /// A flip turns the two triangles at e into two triangles at e again,
  /// a0 a2 b1 keeping the face of a0 and b0 b2 a1 that of b0, so the edge
  /// can be flipped again.
  lemma FlipKeepsTriangles(hp: HalfedgeProps, e: Edge)
    requires TrianglePair(hp, e) && SameLength(hp)
    ensures var w := WingOf(hp, e);
            var hp' := FlipHalfedges(hp, w);
            TrianglePair(hp', e) && SameLength(hp') &&
            WingOf(hp', e) == Wing(w.a0, w.a2, w.b1, w.b0, w.b2, w.a1) &&
            FaceOf(hp', w.a0) == FaceOf(hp, w.a0) && FaceOf(hp', w.b0) == FaceOf(hp, w.b0)
  {
    var w := WingOf(hp, e);
    FlipAt(hp, w);
    var hp' := FlipHalfedges(hp, w);
    assert WingOf(hp', e) == Wing(w.a0, w.a2, w.b1, w.b0, w.b2, w.a1);
  }

  /// The flip writes only handles that were already stored, so references
  /// stay in range.
  lemma FlipHalfedgesIn(hp: HalfedgeProps, e: Edge, nv: nat, nf: nat)
    requires TrianglePair(hp, e) && SameLength(hp) && RecordsIn(hp, nv, nf)
    ensures RecordsIn(FlipHalfedges(hp, WingOf(hp, e)), nv, nf)
  {
    var w := WingOf(hp, e);
    var n := |hp.next|;
    CycleRefs(hp.next, w.a0, w.a2, w.b1, n);
    CycleRefs(Cycle(hp.next, w.a0, w.a2, w.b1), w.b0, w.b2, w.a1, n);
    CycleRefs(hp.prev, w.a0, w.b1, w.a2, n);
    CycleRefs(Cycle(hp.prev, w.a0, w.b1, w.a2), w.b0, w.a1, w.b2, n);
    Put2Refs(hp.face, w.a1, FaceOf(hp, w.b0), w.b1, FaceOf(hp, w.a0), nf);
    Put2Refs(hp.vertex, w.a0, TargetOf(hp, w.a1), w.b0, TargetOf(hp, w.b1), nv);
  }

  /// The anchor of vertex v after a flip: the vertex that lost b0 (a0) as
  /// its outgoing halfedge gets a1 (b1) instead.
  function FlipAnchor(conn: seq<Halfedge>, v: Vertex, va0: Vertex, vb0: Vertex, w: Wing): Halfedge
  {
    var h := Get(conn, v);
    if v == va0 && h == w.b0 then w.a1 else if v == vb0 && h == w.a0 then w.b1 else h
  }

  /// The two conditional set_halfedge calls at the end of `flip`.
  function FlipVertexConn(conn: seq<Halfedge>, va0: Vertex, vb0: Vertex, w: Wing): seq<Halfedge>
  {
    var c := if Get(conn, va0) == w.b0 then Put(conn, va0, w.a1) else conn;
    if Get(c, vb0) == w.a0 then Put(c, vb0, w.b1) else c
  }

  lemma FlipVertexConnSpec(conn: seq<Halfedge>, va0: Vertex, vb0: Vertex, w: Wing, nh: nat)
    requires Separate(w) && RefsIn(conn, nh) && WingIn(w, nh)
    ensures var r := FlipVertexConn(conn, va0, vb0, w);
            |r| == |conn| && RefsIn(r, nh) &&
            forall v: nat :: v < |r| ==> Get(r, v) == FlipAnchor(conn, v, va0, vb0, w)
  {
    var c := if Get(conn, va0) == w.b0 then Put(conn, va0, w.a1) else conn;
    PutRefs(conn, va0, w.a1, nh);
    PutRefs(c, vb0, w.b1, nh);
  }

  lemma FlipFaceConnSpec(conn: seq<Halfedge>, fa: Face, fb: Face, w: Wing, nh: nat)
    requires RefsIn(conn, nh) && WingIn(w, nh) && fa < |conn| && fb < |conn| && fa != fb
    ensures var r := Put2(conn, fa, w.a0, fb, w.b0);
            |r| == |conn| && RefsIn(r, nh) && Get(r, fa) == w.a0 && Get(r, fb) == w.b0 &&
            forall f: nat :: f != fa && f != fb ==> Get(r, f) == Get(conn, f)
  {
    Put2Refs(conn, fa, w.a0, fb, w.b0, nh);
    Put2At(conn, fa, w.a0, fb, w.b0);
  }

  /// The connectivity records are consistent with the element counts of a
  /// mesh: nv vertices, ne edges, nf faces.
  predicate RecordsFit(vp: VertexProps, hp: HalfedgeProps, ne: nat, fp: FaceProps)
  {
    |vp.point| == |vp.conn| == |vp.deleted| &&
    |hp.face| == |hp.vertex| == |hp.next| == |hp.prev| == 2 * ne &&
    |fp.conn| == |fp.deleted| &&
    |vp.conn| < MaxIndex && |hp.next| < MaxIndex && |fp.conn| < MaxIndex &&
    RefsIn(vp.conn, |hp.next|) && RefsIn(hp.face, |fp.conn|) && RefsIn(hp.vertex, |vp.conn|) &&
    RefsIn(hp.next, |hp.next|) && RefsIn(hp.prev, |hp.next|) && RefsIn(fp.conn, |hp.next|)
  }

  /// Storing records that fit the edge count keeps the mesh valid.
  method Store(m: SurfaceMesh, vp: VertexProps, hp: HalfedgeProps, fp: FaceProps)
    requires RecordsFit(vp, hp, |m.edeleted|, fp)
    modifies m`vprops, m`hprops, m`fprops
    ensures m.vprops == vp && m.hprops == hp && m.fprops == fp
    ensures m.Valid() && m.InRange()
  {
    m.vprops, m.hprops, m.fprops := vp, hp, fp;
  }

  /// `flip(e)`, which asserts is_flip_ok(e) and is written for the two
  /// triangles of a triangle mesh.
  method Flip(m: SurfaceMesh, e: Edge)
    requires m.Valid() && m.InRange() && FlipOk(m, e) && TrianglePair(m.hprops, e)
    modifies m`vprops, m`hprops, m`fprops
    ensures m.Valid() && m.InRange()
    ensures Flipped(old(m.hprops), m.hprops, e)
    ensures var w := old(WingOf(m.hprops, e));
            m.hprops == FlipHalfedges(old(m.hprops), w) &&
            m.fprops == old(m.fprops.(conn := Put2(m.fprops.conn, m.FaceOf(w.a0), w.a0, m.FaceOf(w.b0), w.b0))) &&
            m.vprops == old(m.vprops.(conn := FlipVertexConn(m.vprops.conn, m.ToVertex(w.a0), m.ToVertex(w.b0), w)))
  {
    var a0, b0 := HalfedgeOf(e, 0), HalfedgeOf(e, 1);
    var a1 := m.Next(a0);
    var a2 := m.Next(a1);
    var b1 := m.Next(b0);
    var b2 := m.Next(b1);
    var va0, vb0 := m.ToVertex(a0), m.ToVertex(b0);
    var fa, fb := m.FaceOf(a0), m.FaceOf(b0);
    var w := Wing(a0, a1, a2, b0, b1, b2);
    var nh := |m.hprops.next|;
    FlipHalfedgesSpec(m.hprops, e);
    FlipHalfedgesIn(m.hprops, e, |m.vprops.conn|, |m.fprops.conn|);
    FlipFaceConnSpec(m.fprops.conn, fa, fb, w, nh);
    FlipVertexConnSpec(m.vprops.conn, va0, vb0, w, nh);
    var hp := FlipHalfedges(m.hprops, w);
    var fp := m.fprops.(conn := Put2(m.fprops.conn, fa, a0, fb, b0));
    var vp := m.vprops.(conn := FlipVertexConn(m.vprops.conn, va0, vb0, w));
    Store(m, vp, hp, fp);
  }

  // ---- shared pieces of the operators below

  /// Three and four writes to one handle array, in the order given.
  function Put3(s: seq<nat>, i: nat, a: nat, j: nat, b: nat, k: nat, c: nat): seq<nat>
  {
    Put(Put2(s, i, a, j, b), k, c)
  }

  function Put4(s: seq<nat>, i: nat, a: nat, j: nat, b: nat, k: nat, c: nat, l: nat, d: nat): seq<nat>
  {
    Put(Put3(s, i, a, j, b, k, c), l, d)
  }

  lemma Put3At(s: seq<nat>, i: nat, a: nat, j: nat, b: nat, k: nat, c: nat)
    requires i < |s| && j < |s| && k < |s| && i != j && i != k && j != k
    ensures var r := Put3(s, i, a, j, b, k, c);
            |r| == |s| && Get(r, i) == a && Get(r, j) == b && Get(r, k) == c &&
            forall h :: h != i && h != j && h != k ==> Get(r, h) == Get(s, h)
  {
  }

  lemma Put4At(s: seq<nat>, i: nat, a: nat, j: nat, b: nat, k: nat, c: nat, l: nat, d: nat)
    requires i < |s| && j < |s| && k < |s| && l < |s|
    requires i != j && i != k && i != l && j != k && j != l && k != l
    ensures var r := Put4(s, i, a, j, b, k, c, l, d);
            |r| == |s| && Get(r, i) == a && Get(r, j) == b && Get(r, k) == c && Get(r, l) == d &&
            forall h :: h != i && h != j && h != k && h != l ==> Get(r, h) == Get(s, h)
  {
    Put3At(s, i, a, j, b, k, c);
  }

  lemma Put3Refs(s: seq<nat>, i: nat, a: nat, j: nat, b: nat, k: nat, c: nat, n: nat)
    requires RefsIn(s, n) && Ref(a, n) && Ref(b, n) && Ref(c, n)
    ensures RefsIn(Put3(s, i, a, j, b, k, c), n)
  {
    Put2Refs(s, i, a, j, b, n);
    PutRefs(Put2(s, i, a, j, b), k, c, n);
  }

  lemma Put4Refs(s: seq<nat>, i: nat, a: nat, j: nat, b: nat, k: nat, c: nat, l: nat, d: nat, n: nat)
    requires RefsIn(s, n) && Ref(a, n) && Ref(b, n) && Ref(c, n) && Ref(d, n)
    ensures RefsIn(Put4(s, i, a, j, b, k, c, l, d), n)
  {
    Put3Refs(s, i, a, j, b, k, c, n);
    PutRefs(Put3(s, i, a, j, b, k, c), l, d, n);
  }

  /// Two handle arrays agree everywhere except possibly at the listed slots.
  ghost predicate AgreeOutside(s: seq<nat>, s': seq<nat>, xs: seq<nat>)
  {
    |s'| == |s| && forall h :: h !in xs ==> Get(s', h) == Get(s, h)
  }

  /// The halfedge records `new_edge(start, end)` leaves: two more halfedges,
  /// the first pointing to end and the second to start, in no face and
  /// linked to nothing.
  function AppendPair(hp: HalfedgeProps, start: Vertex, end: Vertex): (r: HalfedgeProps)
  {
    HalfedgeProps(hp.face + NoHalfedges, hp.vertex + [end, start], hp.next + NoHalfedges, hp.prev + NoHalfedges)
  }

  /// `adjust_outgoing_halfedge(v)` where the clockwise rotation of v comes
  /// back to its start (elsewhere the call would not return).
  method Adjust(m: SurfaceMesh, v: Vertex)
    requires m.Valid() && m.InRange()
    modifies m`vprops
    ensures m.Valid() && m.InRange()
    ensures var b := old(m.FirstBoundary(m.ClockwiseHalfedges(v)));
            m.vprops == if old(m.RingCloses(Cw, v)) && b.Some? then old(m.vprops.(conn := Put(m.vprops.conn, v, b.value))) else old(m.vprops)
    ensures m.VertexHalfedge(v) == old(m.VertexHalfedge(v)) || m.IsBoundaryHalfedge(m.VertexHalfedge(v))
  {
    if m.RingCloses(Cw, v) {
      m.AdjustedInRange(v);
      m.FirstBoundarySpec(m.ClockwiseHalfedges(v));
      m.AdjustOutgoingHalfedge(v);
    }
  }

  // ---- insert_vertex

  /// The halfedge writes of `insert_vertex(h0, v)` on the records after
  /// new_edge(v, to_vertex(h0)) has appended h1 and o1: h0 now ends at v and
  /// h1 continues it to the old target v2; o1 runs from v2 to v in front of o0.
  function InsertVertexHalfedges(hp: HalfedgeProps, h0: Halfedge, h1: Halfedge, v: Vertex): HalfedgeProps
  {
    var o1, o0 := Opposite(h1), Opposite(h0);
    var h2, o2 := NextOf(hp, h0), PrevOf(hp, o0);
    var v2, fh, fo := TargetOf(hp, h0), FaceOf(hp, h0), FaceOf(hp, o0);
    HalfedgeProps(
      Put2(hp.face, h1, fh, o1, fo),
      Put3(hp.vertex, h0, v, h1, v2, o1, v),
      Put4(hp.next, h1, h2, h0, h1, o1, o0, o2, o1),
      Put4(hp.prev, h2, h1, h1, h0, o0, o1, o1, o2))
  }

  /// The records after inserting v into the edge of h0, with h1 and o1 the
  /// new pair: the paths h0 h1 h2 and o2 o1 o0 by next and prev, h0 and o1
  /// end at v and h1 at the old target of h0, the new halfedges lie in the
  /// faces of h0 and o0, and nothing else changes.
  ghost predicate VertexInserted(hp: HalfedgeProps, hp': HalfedgeProps, h0: Halfedge, h1: Halfedge, v: Vertex)
  {
    var o1, o0 := Opposite(h1), Opposite(h0);
    var h2, o2 := NextOf(hp, h0), PrevOf(hp, o0);
    InsertedLinks(hp', h0, h1, h2, o0, o1, o2) &&
    TargetOf(hp', h0) == v && TargetOf(hp', h1) == TargetOf(hp, h0) && TargetOf(hp', o1) == v &&
    FaceOf(hp', h1) == FaceOf(hp, h0) && FaceOf(hp', o1) == FaceOf(hp, o0) &&
    AgreeOutside(hp.next, hp'.next, [h0, h1, o1, o2]) && AgreeOutside(hp.prev, hp'.prev, [h1, h2, o1, o0]) &&
    AgreeOutside(hp.vertex, hp'.vertex, [h0, h1, o1]) && AgreeOutside(hp.face, hp'.face, [h1, o1])
  }

  predicate InsertedLinks(hp': HalfedgeProps, h0: Halfedge, h1: Halfedge, h2: Halfedge, o0: Halfedge, o1: Halfedge, o2: Halfedge)
  {
    NextOf(hp', h0) == h1 && NextOf(hp', h1) == h2 && NextOf(hp', o2) == o1 && NextOf(hp', o1) == o0 &&
    PrevOf(hp', h1) == h0 && PrevOf(hp', h2) == h1 && PrevOf(hp', o1) == o2 && PrevOf(hp', o0) == o1
  }

  /// The six halfedges insert_vertex touches are different and in range:
  /// h0's edge is not a dead end at either side and the new pair is h1, o1.
  predicate InsertSeparate(h0: Halfedge, h1: Halfedge, h2: Halfedge, o0: Halfedge, o1: Halfedge, o2: Halfedge, n: nat)
  {
    h0 < n && o0 < n && h1 < n && o1 < n && h2 < n && o2 < n &&
    h0 != h1 && h0 != o1 && o0 != h1 && o0 != o1 && h2 != h1 && h2 != o1 && o2 != h1 && o2 != o1 &&
    h2 != h0 && h2 != o0 && h2 != o2 && o2 != h0 && o2 != o0 && h0 != o0 && h1 != o1
  }

  lemma InsertLinksAt(next: seq<nat>, prev: seq<nat>, h0: Halfedge, h1: Halfedge, h2: Halfedge, o0: Halfedge, o1: Halfedge, o2: Halfedge)
    requires InsertSeparate(h0, h1, h2, o0, o1, o2, |next|) && |prev| == |next|
    ensures var next', prev' := Put4(next, h1, h2, h0, h1, o1, o0, o2, o1), Put4(prev, h2, h1, h1, h0, o0, o1, o1, o2);
            Get(next', h0) == h1 && Get(next', h1) == h2 && Get(next', o2) == o1 && Get(next', o1) == o0 &&
            Get(prev', h1) == h0 && Get(prev', h2) == h1 && Get(prev', o1) == o2 && Get(prev', o0) == o1 &&
            AgreeOutside(next, next', [h0, h1, o1, o2]) && AgreeOutside(prev, prev', [h1, h2, o1, o0])
  {
    Put4At(next, h1, h2, h0, h1, o1, o0, o2, o1);
    Put4At(prev, h2, h1, h1, h0, o0, o1, o1, o2);
  }

  lemma InsertRecordsAt(vertex: seq<nat>, face: seq<nat>, h0: Halfedge, h1: Halfedge, o1: Halfedge, v: Vertex, v2: Vertex, fh: Face, fo: Face)
    requires h0 < |vertex| && h1 < |vertex| && o1 < |vertex| && h0 != h1 && h0 != o1 && h1 != o1 && |face| == |vertex|
    ensures var vertex', face' := Put3(vertex, h0, v, h1, v2, o1, v), Put2(face, h1, fh, o1, fo);
            Get(vertex', h0) == v && Get(vertex', h1) == v2 && Get(vertex', o1) == v &&
            Get(face', h1) == fh && Get(face', o1) == fo &&
            AgreeOutside(vertex, vertex', [h0, h1, o1]) && AgreeOutside(face, face', [h1, o1])
  {
    Put3At(vertex, h0, v, h1, v2, o1, v);
    Put2At(face, h1, fh, o1, fo);
  }

  lemma InsertVertexSpec(hp: HalfedgeProps, h0: Halfedge, h1: Halfedge, v: Vertex)
    requires SameLength(hp)
    requires InsertSeparate(h0, h1, NextOf(hp, h0), Opposite(h0), Opposite(h1), PrevOf(hp, Opposite(h0)), |hp.next|)
    ensures VertexInserted(hp, InsertVertexHalfedges(hp, h0, h1, v), h0, h1, v)
  {
    var o1, o0 := Opposite(h1), Opposite(h0);
    var h2, o2 := NextOf(hp, h0), PrevOf(hp, o0);
    InsertLinksAt(hp.next, hp.prev, h0, h1, h2, o0, o1, o2);
    InsertRecordsAt(hp.vertex, hp.face, h0, h1, o1, v, TargetOf(hp, h0), FaceOf(hp, h0), FaceOf(hp, o0));
  }

  lemma AppendPairIn(hp: HalfedgeProps, start: Vertex, end: Vertex, nv: nat, nf: nat)
    requires RecordsIn(hp, nv, nf) && Ref(start, nv) && Ref(end, nv)
    ensures RecordsIn(AppendPair(hp, start, end), nv, nf)
  {
  }

  lemma InsertVertexIn(hp: HalfedgeProps, h0: Halfedge, h1: Halfedge, v: Vertex, nv: nat, nf: nat)
    requires SameLength(hp) && RecordsIn(hp, nv, nf) && Ref(v, nv)
    requires h0 < |hp.next| && Opposite(h0) < |hp.next| && h1 < |hp.next| && Opposite(h1) < |hp.next|
    ensures RecordsIn(InsertVertexHalfedges(hp, h0, h1, v), nv, nf)
  {
    var o1, o0 := Opposite(h1), Opposite(h0);
    var h2, o2 := NextOf(hp, h0), PrevOf(hp, o0);
    var v2, fh, fo := TargetOf(hp, h0), FaceOf(hp, h0), FaceOf(hp, o0);
    var n := |hp.next|;
    Put2Refs(hp.face, h1, fh, o1, fo, nf);
    Put3Refs(hp.vertex, h0, v, h1, v2, o1, v, nv);
    Put4Refs(hp.next, h1, h2, h0, h1, o1, o0, o2, o1, n);
    Put4Refs(hp.prev, h2, h1, h1, h0, o0, o1, o1, o2, n);
  }

  /// The face anchors at the end of `insert_vertex`: a valid face of h0
  /// gets h0, a valid face of o0 gets o1.
  function InsertVertexFaceConn(conn: seq<Halfedge>, fh: Face, h0: Halfedge, fo: Face, o1: Halfedge): seq<Halfedge>
  {
    var c := if IsValid(fh) then Put(conn, fh, h0) else conn;
    if IsValid(fo) then Put(c, fo, o1) else c
  }

  lemma InsertVertexFaceConnSpec(conn: seq<Halfedge>, fh: Face, h0: Halfedge, fo: Face, o1: Halfedge, nh: nat)
    requires RefsIn(conn, nh) && h0 < nh && o1 < nh && |conn| < MaxIndex
    ensures var r := InsertVertexFaceConn(conn, fh, h0, fo, o1);
            RefsIn(r, nh) && |r| == |conn| &&
            (fh < |conn| && fh != fo ==> Get(r, fh) == h0) && (fo < |conn| ==> Get(r, fo) == o1) &&
            forall f: nat :: f != fh && f != fo ==> Get(r, f) == Get(conn, f)
  {
    var c := if IsValid(fh) then Put(conn, fh, h0) else conn;
    PutRefs(conn, fh, h0, nh);
    PutRefs(c, fo, o1, nh);
  }

  /// Storing all four connectivity parts at once.
  method StoreAll(m: SurfaceMesh, vp: VertexProps, hp: HalfedgeProps, ed: seq<bool>, fp: FaceProps)
    requires RecordsFit(vp, hp, |ed|, fp)
    modifies m`vprops, m`hprops, m`edeleted, m`fprops
    ensures m.vprops == vp && m.hprops == hp && m.edeleted == ed && m.fprops == fp
    ensures m.Valid() && m.InRange()
  {
    m.vprops, m.hprops, m.edeleted, m.fprops := vp, hp, ed, fp;
  }

  /// The records `insert_vertex` stores fit the grown edge count.
  lemma InsertVertexFits(vp: VertexProps, hp: HalfedgeProps, ed: seq<bool>, fp: FaceProps, h0: Halfedge, v: Vertex)
    requires RecordsFit(vp, hp, |ed|, fp) && h0 < |hp.next| && Opposite(h0) < |hp.next| && v < |vp.conn| && |hp.next| < MaxIndex - 1
    ensures var n, v2 := |hp.next|, TargetOf(hp, h0);
            RecordsFit(vp, InsertVertexHalfedges(AppendPair(hp, v, v2), h0, n, v), |ed| + 1,
                       fp.(conn := InsertVertexFaceConn(fp.conn, FaceOf(hp, h0), h0, FaceOf(hp, Opposite(h0)), n + 1)))
  {
    var n, v2 := |hp.next|, TargetOf(hp, h0);
    var nv, nf := |vp.conn|, |fp.conn|;
    AppendPairIn(hp, v, v2, nv, nf);
    var hp1 := AppendPair(hp, v, v2);
    InsertVertexIn(hp1, h0, n, v, nv, nf);
    InsertVertexFaceConnSpec(fp.conn, FaceOf(hp, h0), h0, FaceOf(hp, Opposite(h0)), n + 1, n + 2);
    WidenRefs(vp.conn, n, n + 2);
  }

  /// Storing new halfedge, edge and face records over the same vertices.
  method StoreEdges(m: SurfaceMesh, hp: HalfedgeProps, ed: seq<bool>, fp: FaceProps)
    requires RecordsFit(m.vprops, hp, |ed|, fp)
    modifies m`hprops, m`edeleted, m`fprops
    ensures m.hprops == hp && m.edeleted == ed && m.fprops == fp
    ensures m.Valid() && m.InRange()
  {
    m.hprops, m.edeleted, m.fprops := hp, ed, fp;
  }

  /// `set_halfedge(v, h)` followed by `adjust_outgoing_halfedge(v)`.
  method Anchor(m: SurfaceMesh, v: Vertex, h: Halfedge)
    requires m.Valid() && m.InRange() && h < |m.hprops.next|
    modifies m`vprops
    ensures m.Valid() && m.InRange()
    ensures m.vprops.point == old(m.vprops.point) && m.vprops.deleted == old(m.vprops.deleted)
    ensures |m.vprops.conn| == old(|m.vprops.conn|)
    ensures forall u: nat :: u != v ==> m.VertexHalfedge(u) == old(m.VertexHalfedge(u))
    ensures v < |m.vprops.conn| ==> m.VertexHalfedge(v) == h || m.IsBoundaryHalfedge(m.VertexHalfedge(v))
  {
    PutRefs(m.vprops.conn, v, h, |m.hprops.next|);
    m.vprops := m.vprops.(conn := Put(m.vprops.conn, v, h));
    Adjust(m, v);
  }

  /// The halfedge and face writes of `insert_vertex(h0, v)`, including the
  /// allocation of the new edge.
  method InsertVertexLinks(m: SurfaceMesh, h0: Halfedge, v: Vertex) returns (r: Outcome<Halfedge>)
    requires m.Valid() && m.InRange() && h0 < |m.hprops.next| && v < |m.vprops.conn|
    modifies m`hprops, m`edeleted, m`fprops
    ensures m.Valid() && m.InRange()
    ensures r.Fail? ==> r.error == AllocationError && m.hprops == old(m.hprops) && m.edeleted == old(m.edeleted) &&
                        m.fprops == old(m.fprops)
    ensures r.Ok? ==> r.value == old(|m.hprops.next|) + 1 && m.edeleted == old(m.edeleted) + [false]
    ensures r.Ok? ==> m.hprops == old(InsertVertexHalfedges(AppendPair(m.hprops, v, m.ToVertex(h0)), h0, |m.hprops.next|, v))
    ensures r.Ok? ==> m.fprops == old(m.fprops.(conn := InsertVertexFaceConn(m.fprops.conn, m.FaceOf(h0), h0, m.FaceOf(Opposite(h0)), |m.hprops.next| + 1)))
  {
    var v2 := m.ToVertex(h0);
    var o0 := Opposite(h0);
    var fh, fo := m.FaceOf(h0), m.FaceOf(o0);
    var n := |m.hprops.next|;
    if n == MaxIndex - 1 {
      return Fail(AllocationError);
    }
    var hp := InsertVertexHalfedges(AppendPair(m.hprops, v, v2), h0, n, v);
    var fp := m.fprops.(conn := InsertVertexFaceConn(m.fprops.conn, fh, h0, fo, n + 1));
    HalfedgeRange(h0, |m.edeleted|);
    InsertVertexFits(m.vprops, m.hprops, m.edeleted, m.fprops, h0, v);
    StoreEdges(m, hp, m.edeleted + [false], fp);
    r := Ok(n + 1);
  }

  /// `insert_vertex(h0, v)`: v splits the edge of h0, which now ends at v;
  /// the new edge continues it to the old target v2.  The result is the new
  /// halfedge o1 from v2 to v.
  method InsertVertex(m: SurfaceMesh, h0: Halfedge, v: Vertex) returns (r: Outcome<Halfedge>)
    requires m.Valid() && m.InRange() && h0 < |m.hprops.next| && v < |m.vprops.conn|
    modifies m`vprops, m`hprops, m`edeleted, m`fprops
    ensures m.Valid() && m.InRange()
    ensures r.Fail? ==> r.error == AllocationError && m.hprops == old(m.hprops) && m.edeleted == old(m.edeleted) &&
                        m.vprops == old(m.vprops) && m.fprops == old(m.fprops)
    ensures r.Ok? ==> r.value == old(|m.hprops.next|) + 1 && m.edeleted == old(m.edeleted) + [false]
    ensures r.Ok? ==> m.hprops == old(InsertVertexHalfedges(AppendPair(m.hprops, v, m.ToVertex(h0)), h0, |m.hprops.next|, v))
    ensures r.Ok? ==> m.fprops == old(m.fprops.(conn := InsertVertexFaceConn(m.fprops.conn, m.FaceOf(h0), h0, m.FaceOf(Opposite(h0)), |m.hprops.next| + 1)))
    ensures m.vprops.point == old(m.vprops.point) && m.vprops.deleted == old(m.vprops.deleted) &&
            |m.vprops.conn| == old(|m.vprops.conn|)
    ensures r.Ok? ==> var v2 := old(m.ToVertex(h0));
                      forall u: nat :: u != v && u != v2 ==> m.VertexHalfedge(u) == old(m.VertexHalfedge(u))
    ensures r.Ok? ==> var v2, n := old(m.ToVertex(h0)), old(|m.hprops.next|);
                      v != v2 ==> m.VertexHalfedge(v2) == n + 1 || m.IsBoundaryHalfedge(m.VertexHalfedge(v2))
    ensures r.Ok? ==> var n := old(|m.hprops.next|);
                      m.VertexHalfedge(v) == n || m.IsBoundaryHalfedge(m.VertexHalfedge(v))
  {
    var v2 := m.ToVertex(h0);
    var n := |m.hprops.next|;
    r := InsertVertexLinks(m, h0, v);
    if r.Fail? {
      return;
    }
    Anchor(m, v2, n + 1);
    Anchor(m, v, n);
  }
}
