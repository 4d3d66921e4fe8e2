/// `is_removal_ok(e)` and `remove_edge(e)`: merging the two faces of an
/// edge into one by deleting the edge and the face of its first halfedge.
module EdgeRemoval {
  import opened Handles
  import opened Wrappers
  import opened HalfedgeMesh
  import opened EulerOperators

  // ---- is_removal_ok

  /// v is neither v0 nor v1 and has f1 among its faces.
  predicate Elsewhere(m: SurfaceMesh, v: Vertex, v0: Vertex, v1: Vertex, f1: Face)
    reads m`vprops, m`hprops
  {
    v != v0 && v != v1 && f1 in m.FacesAround(v)
  }

  /// Some vertex of vs is such a vertex.
  predicate MeetsElsewhere(m: SurfaceMesh, vs: seq<Vertex>, v0: Vertex, v1: Vertex, f1: Face)
    reads m`vprops, m`hprops
  {
    |vs| > 0 && (MeetsElsewhere(m, vs[..|vs| - 1], v0, v1, f1) || Elsewhere(m, vs[|vs| - 1], v0, v1, f1))
  }

  /// The recursive test in words.
  lemma {:induction false} MeetsElsewhereMeaning(m: SurfaceMesh, vs: seq<Vertex>, v0: Vertex, v1: Vertex, f1: Face)
    ensures MeetsElsewhere(m, vs, v0, v1, f1) <==>
            exists k {:trigger Elsewhere(m, vs[k], v0, v1, f1)} :: 0 <= k < |vs| && Elsewhere(m, vs[k], v0, v1, f1)
    decreases |vs|
  {
    if |vs| > 0 {
      var init, last := vs[..|vs| - 1], vs[|vs| - 1];
      MeetsElsewhereMeaning(m, init, v0, v1, f1);
      if Elsewhere(m, last, v0, v1, f1) {
        assert vs[|vs| - 1] == last;
      } else if MeetsElsewhere(m, init, v0, v1, f1) {
        var k :| 0 <= k < |init| && Elsewhere(m, init[k], v0, v1, f1);
        assert vs[k] == init[k];
      } else {
        forall k | 0 <= k < |vs| ensures !Elsewhere(m, vs[k], v0, v1, f1) {
          if k < |init| {
            assert vs[k] == init[k];
          }
        }
      }
    }
  }

  /// What `is_removal_ok(e)` tests: both sides of e are faces, they are two
  /// different faces, and no vertex of the first face other than the ends of
  /// e also lies on the second.
  predicate RemovalOk(m: SurfaceMesh, e: Edge)
    reads m`vprops, m`hprops, m`fprops
  {
    var h0, h1 := HalfedgeOf(e, 0), HalfedgeOf(e, 1);
    var f0, f1 := m.FaceOf(h0), m.FaceOf(h1);
    IsValid(f0) && IsValid(f1) && f0 != f1 &&
    !MeetsElsewhere(m, m.Targets(m.FaceLoop(f0)), m.ToVertex(h0), m.ToVertex(h1), f1)
  }

  /// The inner loop of `is_removal_ok`: whether f is among the faces of v.
  method HasFace(m: SurfaceMesh, v: Vertex, f: Face) returns (r: bool)
    ensures r == (f in m.FacesAround(v))
  {
    var fs := m.IncidentFaces(v);
    var j := 0;
    while j < |fs|
      invariant j <= |fs| && f !in fs[..j]
    {
      if fs[j] == f {
        return true;
      }
      assert fs[..j + 1] == fs[..j] + [fs[j]];
      j := j + 1;
    }
    assert fs[..j] == fs;
    return false;
  }

  /// `is_removal_ok(e)`, with its loop over the vertices of the first face.
  method IsRemovalOk(m: SurfaceMesh, e: Edge) returns (r: bool)
    ensures r == RemovalOk(m, e)
  {
    var h0, h1 := HalfedgeOf(e, 0), HalfedgeOf(e, 1);
    var v0, v1 := m.ToVertex(h0), m.ToVertex(h1);
    var f0, f1 := m.FaceOf(h0), m.FaceOf(h1);
    if !IsValid(f0) || !IsValid(f1) {
      return false;
    }
    if f0 == f1 {
      return false;
    }
    var hs := m.Collect(NextStep, m.FaceHalfedge(f0));
    r := ScanFace(m, hs, v0, v1, f1);
  }

  /// The loop of `is_removal_ok` over the targets of hs: false as soon as
  /// one of them other than v0 and v1 has face f1.
  method ScanFace(m: SurfaceMesh, hs: seq<Halfedge>, v0: Vertex, v1: Vertex, f1: Face) returns (r: bool)
    ensures r == !MeetsElsewhere(m, m.Targets(hs), v0, v1, f1)
  {
    ghost var vs := m.Targets(hs);
    ghost var vp, hp := m.vprops, m.hprops;
    var i := 0;
    while i < |hs|
      invariant i <= |hs| && m.vprops == vp && m.hprops == hp
      invariant !MeetsElsewhere(m, vs[..i], v0, v1, f1)
    {
      var v := m.ToVertex(hs[i]);
      assert vs[..i + 1][..i] == vs[..i] && vs[..i + 1][i] == v;
      if v != v0 && v != v1 {
        var b := HasFace(m, v, f1);
        if b {
          assert Elsewhere(m, vs[i], v0, v1, f1);
          MeetsElsewhereMeaning(m, vs, v0, v1, f1);
          return false;
        }
      }
      i := i + 1;
    }
    assert vs[..i] == vs;
    return true;
  }

  /// The test rejects boundary edges and the edges inside one face.
  lemma RemovalNeedsTwoFaces(m: SurfaceMesh, e: Edge)
    ensures m.IsBoundaryEdge(e) ==> !RemovalOk(m, e)
    ensures m.EdgeFace(e, 0) == m.EdgeFace(e, 1) ==> !RemovalOk(m, e)
  {
  }

  // ---- remove_edge

  /// The halfedge records `remove_edge(e)` leaves: the halfedges hs of the
  /// first face f0 join the second face f1, and the loops are linked past
  /// the edge, prev(h1) to next(h0) and prev(h0) to next(h1).
  function RemovedHalfedges(hp: HalfedgeProps, e: Edge, hs: seq<Halfedge>): HalfedgeProps
  {
    var h0, h1 := HalfedgeOf(e, 0), HalfedgeOf(e, 1);
    var hp1 := hp.(face := Relabelled(hp.face, hs, FaceOf(hp, h1)));
    Link(Link(hp1, PrevOf(hp, h1), NextOf(hp, h0)), PrevOf(hp, h0), NextOf(hp, h1))
  }

  /// The vertex anchors after `remove_edge(e)`: an end of e whose outgoing
  /// halfedge is the one that goes away takes the halfedge after e instead.
  function RemovedVertexConn(conn: seq<Halfedge>, hp: HalfedgeProps, e: Edge): seq<Halfedge>
  {
    var h0, h1 := HalfedgeOf(e, 0), HalfedgeOf(e, 1);
    var v0, v1 := TargetOf(hp, h0), TargetOf(hp, h1);
    var c := if Get(conn, v0) == h1 then Put(conn, v0, NextOf(hp, h0)) else conn;
    if Get(c, v1) == h0 then Put(c, v1, NextOf(hp, h1)) else c
  }

  /// The face anchors after `remove_edge(e)`: f1 moves off h1 onto next(h1).
  function RemovedFaceConn(conn: seq<Halfedge>, hp: HalfedgeProps, e: Edge): seq<Halfedge>
  {
    var h1 := HalfedgeOf(e, 1);
    var f1 := FaceOf(hp, h1);
    if Get(conn, f1) == h1 then Put(conn, f1, NextOf(hp, h1)) else conn
  }

  lemma RelabelledRefs(face: seq<Face>, hs: seq<Halfedge>, f: Face, n: nat)
    requires RefsIn(face, n) && Ref(f, n)
    ensures RefsIn(Relabelled(face, hs, f), n)
  {
    RelabelledSpec(face, hs, f);
  }

  lemma LinkRefs(hp: HalfedgeProps, h: Halfedge, nh: Halfedge, nv: nat, nf: nat)
    requires SameLength(hp) && RecordsIn(hp, nv, nf) && Ref(h, |hp.next|) && Ref(nh, |hp.next|)
    ensures var r := Link(hp, h, nh); SameLength(r) && |r.next| == |hp.next| && RecordsIn(r, nv, nf)
  {
    PutRefs(hp.next, h, nh, |hp.next|);
    PutRefs(hp.prev, nh, h, |hp.next|);
  }

  /// The records `remove_edge` stores fit the mesh it stores them in.
  lemma RemovedFits(vp: VertexProps, hp: HalfedgeProps, ne: nat, fp: FaceProps, e: Edge, hs: seq<Halfedge>)
    requires RecordsFit(vp, hp, ne, fp) && e < ne
    ensures RecordsFit(vp.(conn := RemovedVertexConn(vp.conn, hp, e)), RemovedHalfedges(hp, e, hs), ne,
                       fp.(conn := RemovedFaceConn(fp.conn, hp, e)))
  {
    var h0, h1 := HalfedgeOf(e, 0), HalfedgeOf(e, 1);
    HalfedgeRange(h0, ne);
    var nv, nf, n := |vp.conn|, |fp.conn|, |hp.next|;
    RelabelledRefs(hp.face, hs, FaceOf(hp, h1), nf);
    var hp1 := hp.(face := Relabelled(hp.face, hs, FaceOf(hp, h1)));
    LinkRefs(hp1, PrevOf(hp, h1), NextOf(hp, h0), nv, nf);
    LinkRefs(Link(hp1, PrevOf(hp, h1), NextOf(hp, h0)), PrevOf(hp, h0), NextOf(hp, h1), nv, nf);
    var v0, v1 := TargetOf(hp, h0), TargetOf(hp, h1);
    var c := if Get(vp.conn, v0) == h1 then Put(vp.conn, v0, NextOf(hp, h0)) else vp.conn;
    PutRefs(vp.conn, v0, NextOf(hp, h0), n);
    PutRefs(c, v1, NextOf(hp, h1), n);
    PutRefs(fp.conn, FaceOf(hp, h1), NextOf(hp, h1), n);
  }

  /// The loop `for (auto h : halfedges(f0)) set_face(h, f1)`.
  method SetFaces(m: SurfaceMesh, hs: seq<Halfedge>, f: Face)
    modifies m`hprops
    ensures m.hprops == old(m.hprops).(face := Relabelled(old(m.hprops.face), hs, f))
    ensures old(m.Valid() && m.InRange()) && Ref(f, |m.fprops.conn|) ==> m.Valid() && m.InRange()
  {
    var i := 0;
    while i < |hs|
      invariant i <= |hs|
      invariant m.hprops == old(m.hprops).(face := Relabelled(old(m.hprops.face), hs[..i], f))
    {
      assert hs[..i + 1][..i] == hs[..i];
      m.hprops := m.hprops.(face := Put(m.hprops.face, hs[i], f));
      i := i + 1;
    }
    assert hs[..i] == hs;
    if old(m.Valid() && m.InRange()) && Ref(f, |m.fprops.conn|) {
      RelabelledRefs(old(m.hprops.face), hs, f, |m.fprops.conn|);
    }
  }

  /// h starts a loop of four halfedges of one valid face, linked by next
  /// and prev.
  predicate Quad(hp: HalfedgeProps, h: Halfedge)
  {
    var h1 := NextOf(hp, h);
    var h2 := NextOf(hp, h1);
    var h3 := NextOf(hp, h2);
    h < |hp.next| && h1 < |hp.next| && h2 < |hp.next| && h3 < |hp.next| && NextOf(hp, h3) == h &&
    PrevOf(hp, h1) == h && PrevOf(hp, h2) == h1 && PrevOf(hp, h3) == h2 && PrevOf(hp, h) == h3 &&
    IsValid(FaceOf(hp, h)) && FaceOf(hp, h1) == FaceOf(hp, h) && FaceOf(hp, h2) == FaceOf(hp, h) &&
    FaceOf(hp, h3) == FaceOf(hp, h)
  }

  /// Removing the diagonal of two triangles leaves their other four
  /// halfedges as one quad of the second face, when the collected loop of the
  /// first face holds its two other halfedges.
  lemma RemoveDiagonal(hp: HalfedgeProps, e: Edge, hs: seq<Halfedge>)
    requires SameLength(hp) && TrianglePair(hp, e)
    requires WingOf(hp, e).a1 in hs && WingOf(hp, e).a2 in hs
    ensures var w := WingOf(hp, e); var hp' := RemovedHalfedges(hp, e, hs);
            Quad(hp', w.a1) && FaceOf(hp', w.a1) == FaceOf(hp, w.b0) &&
            NextOf(hp', w.a1) == w.a2 && NextOf(hp', w.a2) == w.b1 && NextOf(hp', w.b1) == w.b2
  {
    var w := WingOf(hp, e);
    var f1 := FaceOf(hp, w.b0);
    assert HalfedgeOf(e, 0) == w.a0 && HalfedgeOf(e, 1) == w.b0;
    assert PrevOf(hp, w.b0) == w.b2 && PrevOf(hp, w.a0) == w.a2;
    var hp1 := hp.(face := Relabelled(hp.face, hs, f1));
    var hp' := RemovedHalfedges(hp, e, hs);
    assert hp' == Link(Link(hp1, w.b2, w.a1), w.a2, w.b1);
    assert hp'.next == Put2(hp.next, w.b2, w.a1, w.a2, w.b1) && hp'.prev == Put2(hp.prev, w.a1, w.b2, w.b1, w.a2);
    QuadLinksAt(hp.next, hp.prev, w.a1, w.a2, w.b1, w.b2);
    QuadFacesAt(hp.face, hs, f1, w.a1, w.a2, w.b1, w.b2);
  }

  lemma QuadLinksAt(next: seq<nat>, prev: seq<nat>, a1: nat, a2: nat, b1: nat, b2: nat)
    requires a1 < |next| && a2 < |next| && b1 < |next| && b2 < |next| && |prev| == |next|
    requires a1 != a2 && a1 != b1 && a1 != b2 && a2 != b1 && a2 != b2 && b1 != b2
    requires Get(next, a1) == a2 && Get(next, b1) == b2 && Get(prev, a2) == a1 && Get(prev, b2) == b1
    ensures var next', prev' := Put2(next, b2, a1, a2, b1), Put2(prev, a1, b2, b1, a2);
            Get(next', a1) == a2 && Get(next', a2) == b1 && Get(next', b1) == b2 && Get(next', b2) == a1 &&
            Get(prev', a1) == b2 && Get(prev', a2) == a1 && Get(prev', b1) == a2 && Get(prev', b2) == b1
  {
    Put2At(next, b2, a1, a2, b1);
    Put2At(prev, a1, b2, b1, a2);
  }

  lemma QuadFacesAt(face: seq<nat>, hs: seq<Halfedge>, f1: Face, a1: nat, a2: nat, b1: nat, b2: nat)
    requires a1 < |face| && a2 < |face| && b1 < |face| && b2 < |face| && a1 in hs && a2 in hs
    requires Get(face, b1) == f1 && Get(face, b2) == f1
    ensures var face' := Relabelled(face, hs, f1);
            Get(face', a1) == f1 && Get(face', a2) == f1 && Get(face', b1) == f1 && Get(face', b2) == f1
  {
    RelabelledSpec(face, hs, f1);
  }

  /// The writes of `remove_edge(e)` once the test has passed: the records
  /// of f0 move to f1, the loops are linked past e, the anchors move off e,
  /// and f0 and e are flagged.
  method MergeFaces(m: SurfaceMesh, e: Edge)
    requires m.Valid() && m.InRange() && e < |m.edeleted|
    requires IsValid(m.FaceOf(HalfedgeOf(e, 0)))
    modifies m`vprops, m`hprops, m`edeleted, m`fprops
    ensures m.Valid() && m.InRange()
    ensures m.hprops == old(RemovedHalfedges(m.hprops, e, m.FaceLoop(m.FaceOf(HalfedgeOf(e, 0)))))
    ensures m.vprops == old(m.vprops.(conn := RemovedVertexConn(m.vprops.conn, m.hprops, e)))
    ensures m.fprops == old(FaceProps(RemovedFaceConn(m.fprops.conn, m.hprops, e), m.fprops.deleted[m.FaceOf(HalfedgeOf(e, 0)) := true]))
    ensures m.edeleted == old(m.edeleted[e := true])
  {
    var h0, h1 := HalfedgeOf(e, 0), HalfedgeOf(e, 1);
    var f0, f1 := m.FaceOf(h0), m.FaceOf(h1);
    HalfedgeRange(h0, |m.edeleted|);
    var hs := m.Collect(NextStep, m.FaceHalfedge(f0));
    var hp0 := m.hprops;
    var vp := m.vprops.(conn := RemovedVertexConn(m.vprops.conn, hp0, e));
    var fp := FaceProps(RemovedFaceConn(m.fprops.conn, hp0, e), m.fprops.deleted[f0 := true]);
    var ed := m.edeleted[e := true];
    RemovedFits(m.vprops, hp0, |m.edeleted|, m.fprops, e, hs);
    SetFaces(m, hs, f1);
    var hp := Link(Link(m.hprops, PrevOf(hp0, h1), NextOf(hp0, h0)), PrevOf(hp0, h0), NextOf(hp0, h1));
    assert hp == RemovedHalfedges(hp0, e, hs);
    StoreAll(m, vp, hp, ed, fp);
  }

  /// `remove_edge(e)`: when `is_removal_ok(e)` holds, the first face f0 of e
  /// is merged into the second face f1.  f0 and e are flagged and counted
  /// (the source does not look at their flags first) and the garbage flag is
  /// raised.  Otherwise nothing changes and the result is false.
  method RemoveEdge(m: SurfaceMesh, e: Edge) returns (ok: bool)
    requires m.Valid() && m.InRange() && e < |m.edeleted|
    modifies m
    ensures m.Valid() && m.InRange()
    ensures ok == old(RemovalOk(m, e))
    ensures !ok ==> unchanged(m)
    ensures ok ==> m.hprops == old(RemovedHalfedges(m.hprops, e, m.FaceLoop(m.FaceOf(HalfedgeOf(e, 0)))))
    ensures ok ==> m.vprops == old(m.vprops.(conn := RemovedVertexConn(m.vprops.conn, m.hprops, e)))
    ensures ok ==> m.fprops == old(FaceProps(RemovedFaceConn(m.fprops.conn, m.hprops, e), m.fprops.deleted[m.FaceOf(HalfedgeOf(e, 0)) := true]))
    ensures ok ==> m.edeleted == old(m.edeleted[e := true])
    ensures ok ==> m.deletedFaces == old(m.deletedFaces) + 1 && m.deletedEdges == old(m.deletedEdges) + 1 &&
                   m.deletedVertices == old(m.deletedVertices) && m.hasGarbage
  {
    ghost var vp0, hp0, ed0, fp0 := m.vprops, m.hprops, m.edeleted, m.fprops;
    ok := IsRemovalOk(m, e);
    if !ok {
      return;
    }
    assert m.vprops == vp0 && m.hprops == hp0 && m.edeleted == ed0 && m.fprops == fp0;
    MergeFaces(m, e);
    m.deletedFaces := m.deletedFaces + 1;
    m.deletedEdges := m.deletedEdges + 1;
    m.hasGarbage := true;
  }
}
