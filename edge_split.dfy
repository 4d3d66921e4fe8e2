/// `split(Edge, Vertex)` of surface_mesh.cpp: a vertex v is put on edge e,
/// and each face at e is cut in two by a new edge from v to the corner
/// opposite e.
module EdgeSplitting {
  import opened Handles
  import opened Wrappers
  import opened HalfedgeMesh
  import opened EulerOperators
  import opened EdgeRemoval
  import FaceAddition

  // ---- the record writes

  /// The three `set_face` and three `set_next_halfedge` calls that close
  /// a, b, c into a triangle of face f: next(a) = b, next(b) = c, next(c) = a.
  function Triangulated(hp: HalfedgeProps, a: Halfedge, b: Halfedge, c: Halfedge, f: Face): HalfedgeProps
  {
    var hp1 := Reown(Reown(Reown(hp, b, f), c, f), a, f);
    Link(Link(Link(hp1, a, b), b, c), c, a)
  }

  /// The start of `split(e, v)`: the new edge e1 from v to v2, the start of
  /// h0 (halfedge(e, 0)), with t1 coming back; o0 (halfedge(e, 1)) now ends at v.
  function SplitEdgeStart(hp: HalfedgeProps, e: Edge, v: Vertex): (r: HalfedgeProps)
    requires SameLength(hp)
    ensures SameLength(r) && |r.next| == |hp.next| + 2
  {
    var o0 := HalfedgeOf(e, 1);
    Retarget(AppendPair(hp, v, TargetOf(hp, o0)), o0, v)
  }

  /// The side of h0.  With a face f0 there, the new edge e0 from v to the
  /// target of h1 = next(h0) cuts it into the triangles (h0, h1, t0) of f0
  /// and (e0, h2, t1) of the new face f1.  On the boundary, t1 is linked in
  /// before h0.
  function FirstSide(hp: HalfedgeProps, h0: Halfedge, t1: Halfedge, v: Vertex, f0: Face, f1: Face): (r: HalfedgeProps)
    requires SameLength(hp)
    ensures SameLength(r) && |r.next| == |hp.next| + (if IsValid(FaceOf(hp, h0)) then 2 else 0)
  {
    if IsValid(FaceOf(hp, h0)) then Cut(hp, h0, t1, v, f0, f1) else Skirt(hp, h0, t1)
  }

  function Cut(hp: HalfedgeProps, h0: Halfedge, t1: Halfedge, v: Vertex, f0: Face, f1: Face): (r: HalfedgeProps)
    requires SameLength(hp)
    ensures SameLength(r) && |r.next| == |hp.next| + 2
  {
    var h1 := NextOf(hp, h0);
    var h2 := NextOf(hp, h1);
    var e0 := |hp.next|;
    Triangulated(Triangulated(AppendPair(hp, v, TargetOf(hp, h1)), h0, h1, e0 + 1, f0), e0, h2, t1, f1)
  }

  function Skirt(hp: HalfedgeProps, h0: Halfedge, t1: Halfedge): (r: HalfedgeProps)
    requires SameLength(hp)
    ensures SameLength(r) && |r.next| == |hp.next|
  {
    Link(Link(hp, PrevOf(hp, h0), t1), t1, h0)
  }

  /// The side of o0.  With a face f3 there, the new edge e2 from v to the
  /// target of o1 = next(o0) cuts it into the triangles (e1, o1, t2) of the
  /// new face f2 and (o0, e2, o2) of f3.  On the boundary, e1 is linked in
  /// after o0.
  function SecondSide(hp: HalfedgeProps, o0: Halfedge, e1: Halfedge, v: Vertex, f3: Face, f2: Face): (r: HalfedgeProps)
    requires SameLength(hp)
    ensures SameLength(r) && |r.next| == |hp.next| + (if IsValid(FaceOf(hp, o0)) then 2 else 0)
  {
    if IsValid(FaceOf(hp, o0)) then CutOpposite(hp, o0, e1, v, f3, f2) else SkirtOpposite(hp, o0, e1)
  }

  function CutOpposite(hp: HalfedgeProps, o0: Halfedge, e1: Halfedge, v: Vertex, f3: Face, f2: Face): (r: HalfedgeProps)
    requires SameLength(hp)
    ensures SameLength(r) && |r.next| == |hp.next| + 2
  {
    var o1 := NextOf(hp, o0);
    var o2 := NextOf(hp, o1);
    var e2 := |hp.next|;
    Triangulated(Triangulated(AppendPair(hp, v, TargetOf(hp, o1)), e1, o1, e2 + 1, f2), o0, e2, o2, f3)
  }

  function SkirtOpposite(hp: HalfedgeProps, o0: Halfedge, e1: Halfedge): (r: HalfedgeProps)
    requires SameLength(hp)
    ensures SameLength(r) && |r.next| == |hp.next|
  {
    Link(Link(hp, e1, NextOf(hp, o0)), o0, e1)
  }


  /// The halfedge records once the side of h0 is done; nf is the number of
  /// faces before the call.
  function SplitEdgeMiddle(hp: HalfedgeProps, e: Edge, v: Vertex, nf: nat): (r: HalfedgeProps)
    requires SameLength(hp)
    ensures SameLength(r)
  {
    var h0 := HalfedgeOf(e, 0);
    FirstSide(SplitEdgeStart(hp, e, v), h0, |hp.next| + 1, v, FaceOf(hp, h0), nf)
  }

  /// Whether the side of h0, and then the side of o0, has a face when the
  /// split reaches it.
  predicate FirstInner(hp: HalfedgeProps, e: Edge) { IsValid(FaceOf(hp, HalfedgeOf(e, 0))) }

  predicate SecondInner(hp: HalfedgeProps, e: Edge, v: Vertex, nf: nat)
    requires SameLength(hp)
  {
    IsValid(FaceOf(SplitEdgeMiddle(hp, e, v, nf), HalfedgeOf(e, 1)))
  }

  /// The number of faces once the side of h0 is done.
  function FirstFaces(hp: HalfedgeProps, e: Edge, nf: nat): nat
  {
    if FirstInner(hp, e) then nf + 1 else nf
  }

  /// The number of faces the split creates.
  function NewFaces(hp: HalfedgeProps, e: Edge, v: Vertex, nf: nat): nat
    requires SameLength(hp)
  {
    (if FirstInner(hp, e) then 1 else 0) + (if SecondInner(hp, e, v, nf) then 1 else 0)
  }

  function SplitEdgeHalfedges(hp: HalfedgeProps, e: Edge, v: Vertex, nf: nat): HalfedgeProps
    requires SameLength(hp)
  {
    var o0 := HalfedgeOf(e, 1);
    SecondSide(SplitEdgeMiddle(hp, e, v, nf), o0, |hp.next|, v, FaceOf(hp, o0), FirstFaces(hp, e, nf))
  }

  /// The face anchors after the side of h0: f0 gets h0 and the new face h2.
  function FirstAnchors(hp: HalfedgeProps, e: Edge, v: Vertex, conn: seq<Halfedge>): seq<Halfedge>
    requires SameLength(hp)
  {
    var h0 := HalfedgeOf(e, 0);
    var hp1 := SplitEdgeStart(hp, e, v);
    if FirstInner(hp, e) then Put(Put(conn + [Invalid], FaceOf(hp, h0), h0), |conn|, NextOf(hp1, NextOf(hp1, h0))) else conn
  }

  /// All face anchors: on the side of o0, the new face gets o1 and f3 gets o0.
  function SplitEdgeFaceConn(hp: HalfedgeProps, e: Edge, v: Vertex, conn: seq<Halfedge>): seq<Halfedge>
    requires SameLength(hp)
  {
    var o0 := HalfedgeOf(e, 1);
    var hp2 := SplitEdgeMiddle(hp, e, v, |conn|);
    var c1 := FirstAnchors(hp, e, v, conn);
    if SecondInner(hp, e, v, |conn|) then Put(Put(c1 + [Invalid], |c1|, NextOf(hp2, o0)), FaceOf(hp, o0), o0) else c1
  }

  /// The vertex anchors: v gets h0, or e1 when o0 is a boundary halfedge;
  /// v2 moves from h0, which no longer leaves it, to t1.
  function SplitEdgeVertexConn(conn: seq<Halfedge>, e: Edge, v: Vertex, v2: Vertex, n: nat, inner: bool): seq<Halfedge>
  {
    var h0 := HalfedgeOf(e, 0);
    var c1 := Put(conn, v, h0);
    var c2 := if inner then c1 else Put(c1, v, n);
    if Get(c2, v2) == h0 then Put(c2, v2, n + 1) else c2
  }

  /// All records after `split(e, v)`.
  function SplitEdgeRecords(vp: VertexProps, hp: HalfedgeProps, ed: seq<bool>, fp: FaceProps, e: Edge, v: Vertex):
    (VertexProps, HalfedgeProps, seq<bool>, FaceProps)
    requires SameLength(hp)
  {
    var nf := |fp.conn|;
    var k := NewFaces(hp, e, v, nf);
    (vp.(conn := SplitEdgeVertexConn(vp.conn, e, v, TargetOf(hp, HalfedgeOf(e, 1)), |hp.next|, SecondInner(hp, e, v, nf))), SplitEdgeHalfedges(hp, e, v, nf),
     ed + FaceAddition.Falses(1 + k), FaceProps(SplitEdgeFaceConn(hp, e, v, fp.conn), fp.deleted + FaceAddition.Falses(k)))
  }

  /// `split(e, v)`: returns t1, the new halfedge from v2 to v.  The number
  /// of edges and faces the split allocates is known before the first write;
  /// when they do not fit, the model refuses.
  method SplitEdge(m: SurfaceMesh, e: Edge, v: Vertex) returns (r: Outcome<Halfedge>)
    requires m.Valid() && m.InRange() && e < |m.edeleted| && v < |m.vprops.conn|
    modifies m`vprops, m`hprops, m`edeleted, m`fprops
    ensures m.Valid() && m.InRange()
    ensures var k := old(NewFaces(m.hprops, e, v, |m.fprops.conn|));
            r == Fail(AllocationError) <==> old(|m.hprops.next| + 2 * (1 + k) > MaxIndex - 1 || |m.fprops.conn| + k > MaxIndex - 1)
    ensures r.Fail? ==> m.vprops == old(m.vprops) && m.hprops == old(m.hprops) && m.edeleted == old(m.edeleted) && m.fprops == old(m.fprops)
    ensures r.Ok? ==> r.value == old(|m.hprops.next|) + 1 &&
                      (m.vprops, m.hprops, m.edeleted, m.fprops) == old(SplitEdgeRecords(m.vprops, m.hprops, m.edeleted, m.fprops, e, v))
  {
    var n, nf := |m.hprops.next|, |m.fprops.conn|;
    var k := NewFaces(m.hprops, e, v, nf);
    if n + 2 * (1 + k) > MaxIndex - 1 || nf + k > MaxIndex - 1 {
      return Fail(AllocationError);
    }
    SplitEdgeFits(m.vprops, m.hprops, m.edeleted, m.fprops, e, v);
    var rec := SplitEdgeRecords(m.vprops, m.hprops, m.edeleted, m.fprops, e, v);
    StoreAll(m, rec.0, rec.1, rec.2, rec.3);
    r := Ok(n + 1);
  }

  // ---- the records stay in range

  lemma GetRef(s: seq<nat>, x: nat, n: nat)
    requires RefsIn(s, n)
    ensures Ref(Get(s, x), n)
  {
  }

  lemma TriangulatedIn(hp: HalfedgeProps, a: Halfedge, b: Halfedge, c: Halfedge, f: Face, nv: nat, nf: nat)
    requires SameLength(hp) && RecordsIn(hp, nv, nf) && Ref(f, nf)
    requires Ref(a, |hp.next|) && Ref(b, |hp.next|) && Ref(c, |hp.next|)
    ensures var r := Triangulated(hp, a, b, c, f); SameLength(r) && |r.next| == |hp.next| && RecordsIn(r, nv, nf)
  {
    PutRefs(hp.face, b, f, nf);
    PutRefs(Put(hp.face, b, f), c, f, nf);
    PutRefs(Put(Put(hp.face, b, f), c, f), a, f, nf);
    var hp1 := Reown(Reown(Reown(hp, b, f), c, f), a, f);
    LinkRefs(hp1, a, b, nv, nf);
    LinkRefs(Link(hp1, a, b), b, c, nv, nf);
    LinkRefs(Link(Link(hp1, a, b), b, c), c, a, nv, nf);
  }

  lemma StartIn(hp: HalfedgeProps, e: Edge, v: Vertex, nv: nat, nf: nat)
    requires SameLength(hp) && RecordsIn(hp, nv, nf) && Ref(v, nv)
    ensures RecordsIn(SplitEdgeStart(hp, e, v), nv, nf)
  {
    var o0 := HalfedgeOf(e, 1);
    GetRef(hp.vertex, o0, nv);
    AppendPairIn(hp, v, TargetOf(hp, o0), nv, nf);
    PutRefs(AppendPair(hp, v, TargetOf(hp, o0)).vertex, o0, v, nv);
  }

  lemma FirstSideIn(hp: HalfedgeProps, h0: Halfedge, t1: Halfedge, v: Vertex, f0: Face, f1: Face, nv: nat, nf: nat)
    requires SameLength(hp) && RecordsIn(hp, nv, nf) && Ref(v, nv) && Ref(f0, nf)
    requires h0 < |hp.next| && t1 < |hp.next| && (IsValid(FaceOf(hp, h0)) ==> f1 < nf)
    ensures RecordsIn(FirstSide(hp, h0, t1, v, f0, f1), nv, nf)
  {
    if IsValid(FaceOf(hp, h0)) {
      CutIn(hp, h0, t1, v, f0, f1, nv, nf);
    } else {
      SkirtIn(hp, h0, t1, nv, nf);
    }
  }

  lemma CutIn(hp: HalfedgeProps, h0: Halfedge, t1: Halfedge, v: Vertex, f0: Face, f1: Face, nv: nat, nf: nat)
    requires SameLength(hp) && RecordsIn(hp, nv, nf) && Ref(v, nv) && Ref(f0, nf) && Ref(f1, nf)
    requires h0 < |hp.next| && t1 < |hp.next|
    ensures RecordsIn(Cut(hp, h0, t1, v, f0, f1), nv, nf)
  {
    var n := |hp.next|;
    var h1 := NextOf(hp, h0);
    GetRef(hp.next, h0, n);
    GetRef(hp.next, h1, n);
    GetRef(hp.vertex, h1, nv);
    AppendPairIn(hp, v, TargetOf(hp, h1), nv, nf);
    var hpA := AppendPair(hp, v, TargetOf(hp, h1));
    TriangulatedIn(hpA, h0, h1, n + 1, f0, nv, nf);
    TriangulatedIn(Triangulated(hpA, h0, h1, n + 1, f0), n, NextOf(hp, h1), t1, f1, nv, nf);
  }

  lemma SkirtIn(hp: HalfedgeProps, h0: Halfedge, t1: Halfedge, nv: nat, nf: nat)
    requires SameLength(hp) && RecordsIn(hp, nv, nf) && h0 < |hp.next| && t1 < |hp.next|
    ensures RecordsIn(Skirt(hp, h0, t1), nv, nf)
  {
    GetRef(hp.prev, h0, |hp.next|);
    LinkRefs(hp, PrevOf(hp, h0), t1, nv, nf);
    LinkRefs(Link(hp, PrevOf(hp, h0), t1), t1, h0, nv, nf);
  }

  lemma SecondSideIn(hp: HalfedgeProps, o0: Halfedge, e1: Halfedge, v: Vertex, f3: Face, f2: Face, nv: nat, nf: nat)
    requires SameLength(hp) && RecordsIn(hp, nv, nf) && Ref(v, nv) && Ref(f3, nf)
    requires o0 < |hp.next| && e1 < |hp.next| && (IsValid(FaceOf(hp, o0)) ==> f2 < nf)
    ensures RecordsIn(SecondSide(hp, o0, e1, v, f3, f2), nv, nf)
  {
    if IsValid(FaceOf(hp, o0)) {
      CutOppositeIn(hp, o0, e1, v, f3, f2, nv, nf);
    } else {
      SkirtOppositeIn(hp, o0, e1, nv, nf);
    }
  }

  lemma CutOppositeIn(hp: HalfedgeProps, o0: Halfedge, e1: Halfedge, v: Vertex, f3: Face, f2: Face, nv: nat, nf: nat)
    requires SameLength(hp) && RecordsIn(hp, nv, nf) && Ref(v, nv) && Ref(f3, nf) && Ref(f2, nf)
    requires o0 < |hp.next| && e1 < |hp.next|
    ensures RecordsIn(CutOpposite(hp, o0, e1, v, f3, f2), nv, nf)
  {
    var n := |hp.next|;
    var o1 := NextOf(hp, o0);
    GetRef(hp.next, o0, n);
    GetRef(hp.next, o1, n);
    GetRef(hp.vertex, o1, nv);
    AppendPairIn(hp, v, TargetOf(hp, o1), nv, nf);
    var hpA := AppendPair(hp, v, TargetOf(hp, o1));
    TriangulatedIn(hpA, e1, o1, n + 1, f2, nv, nf);
    TriangulatedIn(Triangulated(hpA, e1, o1, n + 1, f2), o0, n, NextOf(hp, o1), f3, nv, nf);
  }

  lemma SkirtOppositeIn(hp: HalfedgeProps, o0: Halfedge, e1: Halfedge, nv: nat, nf: nat)
    requires SameLength(hp) && RecordsIn(hp, nv, nf) && o0 < |hp.next| && e1 < |hp.next|
    ensures RecordsIn(SkirtOpposite(hp, o0, e1), nv, nf)
  {
    GetRef(hp.next, o0, |hp.next|);
    LinkRefs(hp, e1, NextOf(hp, o0), nv, nf);
    LinkRefs(Link(hp, e1, NextOf(hp, o0)), o0, e1, nv, nf);
  }

  /// The halfedge records of the split stay in range, nf2 faces being the
  /// count after it.
  lemma SplitEdgeHalfedgesIn(hp: HalfedgeProps, e: Edge, v: Vertex, nv: nat, nf: nat)
    requires SameLength(hp) && RecordsIn(hp, nv, nf) && Ref(v, nv) && HalfedgeOf(e, 1) < |hp.next|
    ensures var nf2 := nf + NewFaces(hp, e, v, nf);
            RecordsIn(SplitEdgeHalfedges(hp, e, v, nf), nv, nf2) && RecordsIn(SplitEdgeMiddle(hp, e, v, nf), nv, nf2)
  {
    var h0, o0, n := HalfedgeOf(e, 0), HalfedgeOf(e, 1), |hp.next|;
    var hp1 := SplitEdgeStart(hp, e, v);
    var hp2 := SplitEdgeMiddle(hp, e, v, nf);
    var nf2 := nf + NewFaces(hp, e, v, nf);
    FirstStageIn(hp, e, v, nv, nf, nf2, hp1, hp2);
    SecondSideIn(hp2, o0, n, v, FaceOf(hp, o0), FirstFaces(hp, e, nf), nv, nf2);
  }

  lemma FirstStageIn(hp: HalfedgeProps, e: Edge, v: Vertex, nv: nat, nf: nat, nf2: nat, hp1: HalfedgeProps, hp2: HalfedgeProps)
    requires SameLength(hp) && RecordsIn(hp, nv, nf) && Ref(v, nv) && HalfedgeOf(e, 1) < |hp.next|
    requires hp1 == SplitEdgeStart(hp, e, v)
    requires hp2 == FirstSide(hp1, HalfedgeOf(e, 0), |hp.next| + 1, v, FaceOf(hp, HalfedgeOf(e, 0)), nf)
    requires FirstFaces(hp, e, nf) <= nf2
    ensures RecordsIn(hp2, nv, nf2) && Ref(FaceOf(hp, HalfedgeOf(e, 1)), nf2)
  {
    var h0, n := HalfedgeOf(e, 0), |hp.next|;
    StartStageIn(hp, e, v, nv, nf, nf2, hp1);
    FirstSideIn(hp1, h0, n + 1, v, FaceOf(hp, h0), nf, nv, nf2);
  }

  /// The records after the first stage (the new pair appended) are in range
  /// for the face count after the split, and the first face is unchanged.
  lemma StartStageIn(hp: HalfedgeProps, e: Edge, v: Vertex, nv: nat, nf: nat, nf2: nat, hp1: HalfedgeProps)
    requires SameLength(hp) && RecordsIn(hp, nv, nf) && Ref(v, nv) && HalfedgeOf(e, 1) < |hp.next|
    requires hp1 == SplitEdgeStart(hp, e, v)
    requires FirstFaces(hp, e, nf) <= nf2
    ensures SameLength(hp1) && RecordsIn(hp1, nv, nf2) && |hp1.next| == |hp.next| + 2
    ensures Ref(FaceOf(hp, HalfedgeOf(e, 0)), nf2) && Ref(FaceOf(hp, HalfedgeOf(e, 1)), nf2)
    ensures FaceOf(hp1, HalfedgeOf(e, 0)) == FaceOf(hp, HalfedgeOf(e, 0))
    ensures IsValid(FaceOf(hp, HalfedgeOf(e, 0))) ==> nf < nf2
  {
    var h0, o0 := HalfedgeOf(e, 0), HalfedgeOf(e, 1);
    WidenRefs(hp.face, nf, nf2);
    GetRef(hp.face, h0, nf);
    GetRef(hp.face, o0, nf2);
    StartIn(hp, e, v, nv, nf2);
  }

  lemma SplitEdgeFaceConnIn(hp: HalfedgeProps, e: Edge, v: Vertex, conn: seq<Halfedge>, nv: nat)
    requires SameLength(hp) && RecordsIn(hp, nv, |conn|) && RefsIn(conn, |hp.next|) && Ref(v, nv) && HalfedgeOf(e, 1) < |hp.next|
    ensures var c := SplitEdgeFaceConn(hp, e, v, conn);
            var nh := |SplitEdgeHalfedges(hp, e, v, |conn|).next|;
            |c| == |conn| + NewFaces(hp, e, v, |conn|) && RefsIn(c, nh)
  {
    var o0, nf := HalfedgeOf(e, 1), |conn|;
    var hp2 := SplitEdgeMiddle(hp, e, v, nf);
    var nh := |SplitEdgeHalfedges(hp, e, v, nf).next|;
    SplitEdgeHalfedgesIn(hp, e, v, nv, nf);
    FirstAnchorsIn(hp, e, v, conn, nv, nh);
    var c1 := FirstAnchors(hp, e, v, conn);
    if SecondInner(hp, e, v, nf) {
      GetRef(hp2.next, o0, |hp2.next|);
      AnchorPairIn(c1, |c1|, NextOf(hp2, o0), FaceOf(hp, o0), o0, nh);
    }
  }

  lemma FirstAnchorsIn(hp: HalfedgeProps, e: Edge, v: Vertex, conn: seq<Halfedge>, nv: nat, nh: nat)
    requires SameLength(hp) && RecordsIn(hp, nv, |conn|) && RefsIn(conn, |hp.next|) && Ref(v, nv) && HalfedgeOf(e, 1) < |hp.next|
    requires |hp.next| + 2 <= nh
    ensures var c := FirstAnchors(hp, e, v, conn);
            |c| == |conn| + (if FirstInner(hp, e) then 1 else 0) && RefsIn(c, nh)
  {
    var h0 := HalfedgeOf(e, 0);
    var hp1 := SplitEdgeStart(hp, e, v);
    StartIn(hp, e, v, nv, |conn|);
    GetRef(hp1.next, h0, |hp1.next|);
    GetRef(hp1.next, NextOf(hp1, h0), |hp1.next|);
    WidenRefs(conn, |hp.next|, nh);
    if FirstInner(hp, e) {
      AnchorPairIn(conn, FaceOf(hp, h0), h0, |conn|, NextOf(hp1, NextOf(hp1, h0)), nh);
    }
  }

  /// A new face slot and two anchors written keep the face anchors in range.
  lemma AnchorPairIn(c: seq<Halfedge>, f: Face, h: Halfedge, g: Face, k: Halfedge, nh: nat)
    requires RefsIn(c, nh) && Ref(h, nh) && Ref(k, nh)
    ensures var c' := Put(Put(c + [Invalid], f, h), g, k); |c'| == |c| + 1 && RefsIn(c', nh)
  {
    PutRefs(c + [Invalid], f, h, nh);
    PutRefs(Put(c + [Invalid], f, h), g, k, nh);
  }

  lemma SplitEdgeVertexConnIn(conn: seq<Halfedge>, e: Edge, v: Vertex, v2: Vertex, n: nat, inner: bool, nh: nat)
    requires RefsIn(conn, nh) && HalfedgeOf(e, 1) < n && n + 2 <= nh
    ensures var c := SplitEdgeVertexConn(conn, e, v, v2, n, inner); |c| == |conn| && RefsIn(c, nh)
  {
    var c1 := Put(conn, v, HalfedgeOf(e, 0));
    PutRefs(conn, v, HalfedgeOf(e, 0), nh);
    PutRefs(c1, v, n, nh);
    PutRefs(if inner then c1 else Put(c1, v, n), v2, n + 1, nh);
  }

  /// The records `split(e, v)` stores fit the grown counts.
  lemma SplitEdgeFits(vp: VertexProps, hp: HalfedgeProps, ed: seq<bool>, fp: FaceProps, e: Edge, v: Vertex)
    requires RecordsFit(vp, hp, |ed|, fp) && e < |ed| && v < |vp.conn|
    requires var k := NewFaces(hp, e, v, |fp.conn|); |hp.next| + 2 * (1 + k) <= MaxIndex - 1 && |fp.conn| + k <= MaxIndex - 1
    ensures var rec := SplitEdgeRecords(vp, hp, ed, fp, e, v);
            RecordsFit(rec.0, rec.1, |rec.2|, rec.3)
  {
    var nf := |fp.conn|;
    var k := NewFaces(hp, e, v, nf);
    HalfedgeRange(HalfedgeOf(e, 1), |ed|);
    SplitEdgeHalfedgesIn(hp, e, v, |vp.conn|, nf);
    SplitEdgeFaceConnIn(hp, e, v, fp.conn, |vp.conn|);
    var nh := |SplitEdgeHalfedges(hp, e, v, nf).next|;
    assert nh == |hp.next| + 2 + 2 * k;
    SplitEdgeVertexConnIn(vp.conn, e, v, TargetOf(hp, HalfedgeOf(e, 1)), |hp.next|, SecondInner(hp, e, v, nf), nh);
  }

  // ---- the shape of a split between two triangles

  /// a, b, c form a triangle of face f, linked in this order.
  predicate TriangleOf(r: HalfedgeProps, a: Halfedge, b: Halfedge, c: Halfedge, f: Face)
  {
    Triangle(r, a) && NextOf(r, a) == b && NextOf(r, b) == c && FaceOf(r, a) == f
  }

  /// The links and the face of x are the same in both records.
  predicate LinksKept(hp: HalfedgeProps, r: HalfedgeProps, x: Halfedge)
  {
    NextOf(r, x) == NextOf(hp, x) && PrevOf(r, x) == PrevOf(hp, x) && FaceOf(r, x) == FaceOf(hp, x)
  }

  /// The start of the split: the new pair (n from v to v2, n + 1 back) and o0
  /// retargeted to v; every link is kept.
  ghost predicate Started(hp: HalfedgeProps, e: Edge, v: Vertex, hp1: HalfedgeProps)
  {
    var n, o0 := |hp.next|, HalfedgeOf(e, 1);
    SameLength(hp1) && |hp1.next| == n + 2 && hp1.vertex == Put(hp.vertex, o0, v) + [TargetOf(hp, o0), v] &&
    (forall x: nat :: x < n ==> LinksKept(hp, hp1, x))
  }

  /// The interior branch of the side of h0, on three different halfedges
  /// h0, h1, h2 of its loop: triangles (h0, h1, n + 1) of f0 and (n, h2, t1)
  /// of f1, where n is the first new halfedge.
  ghost predicate SideCut(hp: HalfedgeProps, h0: Halfedge, h1: Halfedge, h2: Halfedge, t1: Halfedge, v: Vertex, f0: Face, f1: Face, r: HalfedgeProps)
  {
    var n := |hp.next|;
    SameLength(r) && |r.next| == n + 2 &&
    TriangleOf(r, h0, h1, n + 1, f0) && TriangleOf(r, n, h2, t1, f1) &&
    r.vertex == hp.vertex + [TargetOf(hp, h1), v] &&
    (forall x: nat :: x < n && x != h0 && x != h1 && x != h2 && x != t1 ==> LinksKept(hp, r, x))
  }

  /// The interior branch of the side of o0, on three different halfedges
  /// o0, o1, o2 of its loop: triangles (e1, o1, n + 1) of f2 and (o0, n, o2)
  /// of f3.
  ghost predicate OppositeCut(hp: HalfedgeProps, o0: Halfedge, o1: Halfedge, o2: Halfedge, e1: Halfedge, v: Vertex, f3: Face, f2: Face, r: HalfedgeProps)
  {
    var n := |hp.next|;
    SameLength(r) && |r.next| == n + 2 &&
    TriangleOf(r, e1, o1, n + 1, f2) && TriangleOf(r, o0, n, o2, f3) &&
    r.vertex == hp.vertex + [TargetOf(hp, o1), v] &&
    (forall x: nat :: x < n && x != o0 && x != o1 && x != o2 && x != e1 ==> LinksKept(hp, r, x))
  }

  /// The records once the side of h0 of an edge between two triangles is
  /// done: the triangle of h0 is cut into (a0, a1, n + 3) and (n + 2, a2, n + 1),
  /// and nothing outside it has moved.
  ghost predicate FirstHalf(hp: HalfedgeProps, e: Edge, v: Vertex, nf: nat, hp2: HalfedgeProps)
  {
    var n, w := |hp.next|, WingOf(hp, e);
    SameLength(hp2) && |hp2.next| == n + 4 &&
    TriangleOf(hp2, w.a0, w.a1, n + 3, FaceOf(hp, w.a0)) && TriangleOf(hp2, n + 2, w.a2, n + 1, nf) &&
    hp2.vertex == Put(hp.vertex, w.b0, v) + [TargetOf(hp, w.b0), v, TargetOf(hp, w.a1), v] &&
    (forall x: nat :: x < n && x != w.a0 && x != w.a1 && x != w.a2 ==> LinksKept(hp, hp2, x))
  }

  /// The records after splitting an edge between two triangles: four
  /// triangles, (a0, a1, n + 3) of f0, (n + 2, a2, n + 1) of nf, (n, b1, n + 5)
  /// of nf + 1 and (b0, n + 4, b2) of f3.
  ghost predicate PairSplit(hp: HalfedgeProps, e: Edge, v: Vertex, nf: nat, r: HalfedgeProps)
  {
    var n, w := |hp.next|, WingOf(hp, e);
    SameLength(r) && |r.next| == n + 6 &&
    TriangleOf(r, w.a0, w.a1, n + 3, FaceOf(hp, w.a0)) && TriangleOf(r, n + 2, w.a2, n + 1, nf) &&
    TriangleOf(r, n, w.b1, n + 5, nf + 1) && TriangleOf(r, w.b0, n + 4, w.b2, FaceOf(hp, w.b0)) &&
    r.vertex == Put(hp.vertex, w.b0, v) + [TargetOf(hp, w.b0), v, TargetOf(hp, w.a1), v, TargetOf(hp, w.b1), v] &&
    (forall x: nat :: x < n && !InWing(w, x) ==> LinksKept(hp, r, x))
  }
}
