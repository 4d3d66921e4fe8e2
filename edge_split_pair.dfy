/// What `split(Edge, Vertex)` of surface_mesh.cpp does to an edge between two
/// triangles: both are cut in two at the new vertex.
module EdgeSplitPairs {
  import opened Handles
  import opened HalfedgeMesh
  import opened EulerOperators
  import opened EdgeSplitting
  import opened FaceSplitting

  lemma TriangulatedAt(hp: HalfedgeProps, a: Halfedge, b: Halfedge, c: Halfedge, f: Face, r: HalfedgeProps)
    requires SameLength(hp) && a < |hp.next| && b < |hp.next| && c < |hp.next| && a != b && b != c && a != c && IsValid(f)
    requires r == Triangulated(hp, a, b, c, f)
    ensures SameLength(r) && |r.next| == |hp.next| && TriangleOf(r, a, b, c, f) && r.vertex == hp.vertex
    ensures forall x: nat :: x != a && x != b && x != c ==> LinksKept(hp, r, x)
  {
    var hp1 := Reown(Reown(Reown(hp, b, f), c, f), a, f);
    assert FaceOf(hp1, a) == f && FaceOf(hp1, b) == f && FaceOf(hp1, c) == f;
    TriangleFrom(r, a, b, c);
  }

  /// A triangle none of whose halfedges a later write touches survives it.
  lemma TriangleKept(hp: HalfedgeProps, r: HalfedgeProps, x: Halfedge, y: Halfedge, z: Halfedge, f: Face)
    requires TriangleOf(hp, x, y, z, f) && |r.next| >= |hp.next| && LinksKept(hp, r, x) && LinksKept(hp, r, y) && LinksKept(hp, r, z)
    ensures TriangleOf(r, x, y, z, f)
  {
  }

  lemma StartAt(hp: HalfedgeProps, e: Edge, v: Vertex, hp1: HalfedgeProps)
    requires SameLength(hp) && HalfedgeOf(e, 1) < |hp.next| && hp1 == SplitEdgeStart(hp, e, v)
    ensures Started(hp, e, v, hp1)
  {
    var o0 := HalfedgeOf(e, 1);
    assert Put(hp.vertex + [TargetOf(hp, o0), v], o0, v) == Put(hp.vertex, o0, v) + [TargetOf(hp, o0), v];
  }

  /// Two triangles closed on a record with a new pair appended, known only
  /// through its stages: both triangles hold, targets stay, every other link
  /// is kept.
  lemma PairCut(hp: HalfedgeProps, v: Vertex, t: Vertex, a: Halfedge, b: Halfedge, c: Halfedge, f: Face,
                a': Halfedge, b': Halfedge, c': Halfedge, f': Face, hpA: HalfedgeProps, hpB: HalfedgeProps, r: HalfedgeProps)
    requires SameLength(hp) && IsValid(f) && IsValid(f')
    requires var n := |hp.next| + 2;
             a < n && b < n && c < n && a' < n && b' < n && c' < n &&
             a != b && a != c && b != c && a' != b' && a' != c' && b' != c' &&
             a != a' && a != b' && a != c' && b != a' && b != b' && b != c' && c != a' && c != b' && c != c'
    requires hpA == AppendPair(hp, v, t) && hpB == Triangulated(hpA, a, b, c, f) && r == Triangulated(hpB, a', b', c', f')
    ensures SameLength(r) && |r.next| == |hp.next| + 2 && TriangleOf(r, a, b, c, f) && TriangleOf(r, a', b', c', f') &&
            r.vertex == hp.vertex + [t, v]
    ensures forall x: nat :: x < |hp.next| && x != a && x != b && x != c && x != a' && x != b' && x != c' ==> LinksKept(hp, r, x)
  {
    TriangulatedAt(hpA, a, b, c, f, hpB);
    TriangulatedAt(hpB, a', b', c', f', r);
    TriangleKept(hpB, r, a, b, c, f);
    forall x: nat | x < |hp.next| && x != a && x != b && x != c && x != a' && x != b' && x != c' ensures LinksKept(hp, r, x) {
      assert LinksKept(hp, hpA, x) && LinksKept(hpA, hpB, x) && LinksKept(hpB, r, x);
    }
  }

  lemma CutAt(hp: HalfedgeProps, h0: Halfedge, h1: Halfedge, h2: Halfedge, t1: Halfedge, v: Vertex, f0: Face, f1: Face, r: HalfedgeProps)
    requires SameLength(hp) && IsValid(f0) && IsValid(f1) && h1 == NextOf(hp, h0) && h2 == NextOf(hp, h1)
    requires h0 < |hp.next| && h1 < |hp.next| && h2 < |hp.next| && t1 < |hp.next|
    requires h0 != h1 && h1 != h2 && h0 != h2 && t1 != h0 && t1 != h1 && t1 != h2
    requires r == FirstSide(hp, h0, t1, v, f0, f1) && IsValid(FaceOf(hp, h0))
    ensures SideCut(hp, h0, h1, h2, t1, v, f0, f1, r)
  {
    var n := |hp.next|;
    var hpA := AppendPair(hp, v, TargetOf(hp, h1));
    PairCut(hp, v, TargetOf(hp, h1), h0, h1, n + 1, f0, n, h2, t1, f1, hpA, Triangulated(hpA, h0, h1, n + 1, f0), r);
  }

  lemma CutOppositeAt(hp: HalfedgeProps, o0: Halfedge, o1: Halfedge, o2: Halfedge, e1: Halfedge, v: Vertex, f3: Face, f2: Face, r: HalfedgeProps)
    requires SameLength(hp) && IsValid(f3) && IsValid(f2) && o1 == NextOf(hp, o0) && o2 == NextOf(hp, o1)
    requires o0 < |hp.next| && o1 < |hp.next| && o2 < |hp.next| && e1 < |hp.next|
    requires o0 != o1 && o1 != o2 && o0 != o2 && e1 != o0 && e1 != o1 && e1 != o2
    requires r == SecondSide(hp, o0, e1, v, f3, f2) && IsValid(FaceOf(hp, o0))
    ensures OppositeCut(hp, o0, o1, o2, e1, v, f3, f2, r)
  {
    var n := |hp.next|;
    var hpA := AppendPair(hp, v, TargetOf(hp, o1));
    PairCut(hp, v, TargetOf(hp, o1), e1, o1, n + 1, f2, o0, n, o2, f3, hpA, Triangulated(hpA, e1, o1, n + 1, f2), r);
  }

  lemma MiddleAt(hp: HalfedgeProps, e: Edge, v: Vertex, nf: nat, hp1: HalfedgeProps, hp2: HalfedgeProps)
    requires SameLength(hp) && TrianglePair(hp, e) && IsValid(nf) && Started(hp, e, v, hp1)
    requires var a0 := WingOf(hp, e).a0; hp2 == FirstSide(hp1, a0, |hp.next| + 1, v, FaceOf(hp, a0), nf)
    ensures FirstHalf(hp, e, v, nf, hp2)
  {
    var n, w := |hp.next|, WingOf(hp, e);
    assert LinksKept(hp, hp1, w.a0) && LinksKept(hp, hp1, w.a1);
    CutAt(hp1, w.a0, w.a1, w.a2, n + 1, v, FaceOf(hp, w.a0), nf, hp2);
    FirstFrame(hp, e, v, nf, hp1, hp2);
  }

  lemma FirstFrame(hp: HalfedgeProps, e: Edge, v: Vertex, nf: nat, hp1: HalfedgeProps, hp2: HalfedgeProps)
    requires SameLength(hp) && TrianglePair(hp, e) && Started(hp, e, v, hp1)
    requires var w := WingOf(hp, e); SideCut(hp1, w.a0, w.a1, w.a2, |hp.next| + 1, v, FaceOf(hp, w.a0), nf, hp2)
    ensures FirstHalf(hp, e, v, nf, hp2)
  {
    var n, w := |hp.next|, WingOf(hp, e);
    assert TargetOf(hp1, w.a1) == TargetOf(hp, w.a1);
    forall x: nat | x < n && x != w.a0 && x != w.a1 && x != w.a2 ensures LinksKept(hp, hp2, x) {
      assert LinksKept(hp, hp1, x) && LinksKept(hp1, hp2, x);
    }
  }

  lemma SecondFrame(hp: HalfedgeProps, e: Edge, v: Vertex, nf: nat, hp2: HalfedgeProps, r: HalfedgeProps)
    requires SameLength(hp) && TrianglePair(hp, e) && FirstHalf(hp, e, v, nf, hp2)
    requires var w := WingOf(hp, e); OppositeCut(hp2, w.b0, w.b1, w.b2, |hp.next|, v, FaceOf(hp, w.b0), nf + 1, r)
    ensures PairSplit(hp, e, v, nf, r)
  {
    var n, w := |hp.next|, WingOf(hp, e);
    assert TargetOf(hp2, w.b1) == TargetOf(hp, w.b1);
    TriangleKept(hp2, r, w.a0, w.a1, n + 3, FaceOf(hp, w.a0));
    TriangleKept(hp2, r, n + 2, w.a2, n + 1, nf);
    forall x: nat | x < n && !InWing(w, x) ensures LinksKept(hp, r, x) {
      assert LinksKept(hp, hp2, x) && LinksKept(hp2, r, x);
    }
  }

  /// The first two stages of the split, named one at a time.
  lemma MiddleLayer(hp: HalfedgeProps, e: Edge, v: Vertex, nf: nat, hp1: HalfedgeProps, hp2: HalfedgeProps)
    requires SameLength(hp) && hp1 == SplitEdgeStart(hp, e, v) && hp2 == SplitEdgeMiddle(hp, e, v, nf)
    ensures var a0 := WingOf(hp, e).a0; hp2 == FirstSide(hp1, a0, |hp.next| + 1, v, FaceOf(hp, a0), nf)
  {
  }

  lemma LastLayer(hp: HalfedgeProps, e: Edge, v: Vertex, nf: nat, hp2: HalfedgeProps, r: HalfedgeProps)
    requires SameLength(hp) && hp2 == SplitEdgeMiddle(hp, e, v, nf) && r == SplitEdgeHalfedges(hp, e, v, nf)
    ensures var b0 := WingOf(hp, e).b0; r == SecondSide(hp2, b0, |hp.next|, v, FaceOf(hp, b0), FirstFaces(hp, e, nf))
  {
  }

  /// The second stage on top of the first: the side of b0 is cut as well.
  lemma SecondAt(hp: HalfedgeProps, e: Edge, v: Vertex, nf: nat, hp2: HalfedgeProps, r: HalfedgeProps)
    requires SameLength(hp) && TrianglePair(hp, e) && nf + 1 < MaxIndex && FirstHalf(hp, e, v, nf, hp2)
    requires var b0 := WingOf(hp, e).b0; r == SecondSide(hp2, b0, |hp.next|, v, FaceOf(hp, b0), nf + 1)
    ensures IsValid(FaceOf(hp2, WingOf(hp, e).b0)) && PairSplit(hp, e, v, nf, r)
  {
    var n, w := |hp.next|, WingOf(hp, e);
    assert LinksKept(hp, hp2, w.b0) && LinksKept(hp, hp2, w.b1);
    CutOppositeAt(hp2, w.b0, w.b1, w.b2, n, v, FaceOf(hp, w.b0), nf + 1, r);
    SecondFrame(hp, e, v, nf, hp2, r);
  }

  /// `split(e, v)` on an edge between two different triangles creates two
  /// faces and leaves four triangles around v; v is the target of b0 and of
  /// every new halfedge pointing back to it, and no other halfedge moves.
  lemma SplitEdgeTrianglePair(hp: HalfedgeProps, e: Edge, v: Vertex, nf: nat)
    requires SameLength(hp) && TrianglePair(hp, e) && nf + 1 < MaxIndex
    ensures NewFaces(hp, e, v, nf) == 2 && PairSplit(hp, e, v, nf, SplitEdgeHalfedges(hp, e, v, nf))
  {
    var hp1 := SplitEdgeStart(hp, e, v);
    var hp2 := SplitEdgeMiddle(hp, e, v, nf);
    var r := SplitEdgeHalfedges(hp, e, v, nf);
    StartAt(hp, e, v, hp1);
    MiddleLayer(hp, e, v, nf, hp1, hp2);
    MiddleAt(hp, e, v, nf, hp1, hp2);
    LastLayer(hp, e, v, nf, hp2, r);
    SecondAt(hp, e, v, nf, hp2, r);
  }
}
