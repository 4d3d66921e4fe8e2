/// A face inserted and removed again: `add_triangle` on three isolated
/// vertices, `delete_face`, then `garbage_collection` leave a mesh without
/// vertices, edges or faces.
module MeshLifecycle {
  import opened Handles
  import opened Compaction
  import opened HalfedgeMesh
  import opened FaceAddition
  import opened MeshGarbage

  /// One more edge of the second loop of `delete_face`: its links are
  /// bypassed and its ends released on the records the earlier edges left.
  lemma UnlinkedStep(s: Unlinking, es: seq<Edge>, k: nat, t: Unlinking)
    requires k < |es| && Unlinked(s, es[..k]) == t
    ensures Unlinked(s, es[..k + 1]) == Unlinking(Bypassed(t.hp, es[k]), ReleaseEnds(t.vp, t.hp, es[k]), Put(t.edeleted, es[k], true))
  {
    assert es[..k + 1][..k] == es[..k];
  }

  /// The first loop of `delete_face` on the triangle's loop 4, 0, 2: every
  /// halfedge loses the face, and as each outer halfedge has none, all three
  /// edges are collected, in loop order.
  lemma TriangleLoneEdges(face: seq<Face>, hs: seq<Halfedge>)
    requires face == [0, Invalid, 0, Invalid, 0, Invalid] && hs == [4, 0, 2]
    ensures Relabelled(face, hs, Invalid) == [Invalid, Invalid, Invalid, Invalid, Invalid, Invalid]
    ensures LoneEdges(face, hs) == [2, 0, 1]
  {
    var I := Invalid;
    assert hs[..0] == [] && hs[..1][..0] == [] && hs[..2][..1] == hs[..1] && hs[..3][..2] == hs[..2] && hs[..3] == hs;
    assert Relabelled(face, hs[..1], I) == [0, I, 0, I, I, I];
    assert Relabelled(face, hs[..2], I) == [I, I, 0, I, I, I];
    assert Relabelled(face, hs, I) == [I, I, I, I, I, I];
    assert LoneEdges(face, hs[..1]) == [2];
    assert LoneEdges(face, hs[..2]) == [2, 0];
  }

  /// Unlinking edge e of the records t leaves u.
  predicate UnlinksTo(t: Unlinking, e: Edge, u: Unlinking)
  {
    u == Unlinking(Bypassed(t.hp, e), ReleaseEnds(t.vp, t.hp, e), Put(t.edeleted, e, true))
  }

  /// Edge 2 first: its ends 0 and 2 keep their vertices, vertex 0 now
  /// leaving on halfedge 0.
  lemma TriangleEdge2(t: Unlinking, u: Unlinking)
    requires t == Unlinking(HalfedgeProps([Invalid, Invalid, Invalid, Invalid, Invalid, Invalid], [1, 0, 2, 1, 0, 2],
                                          [2, 5, 4, 1, 0, 3], [4, 3, 0, 5, 2, 1]),
                            VertexProps([Origin, Origin, Origin], [5, 1, 3], [false, false, false]), [false, false, false])
    requires u == Unlinking(t.hp.(next := [2, 0, 3, 1, 0, 3], prev := [1, 3, 0, 2, 2, 1]),
                            t.vp.(conn := [0, 1, 3]), [false, false, true])
    ensures UnlinksTo(t, 2, u)
  {
    assert HalfedgeOf(2, 0) == 4 && HalfedgeOf(2, 1) == 5;
  }

  /// Edge 0 next: vertex 0 has lost both its halfedges and is deleted.
  lemma TriangleEdge0(t: Unlinking, u: Unlinking)
    requires t == Unlinking(HalfedgeProps([Invalid, Invalid, Invalid, Invalid, Invalid, Invalid], [1, 0, 2, 1, 0, 2],
                                          [2, 0, 3, 1, 0, 3], [1, 3, 0, 2, 2, 1]),
                            VertexProps([Origin, Origin, Origin], [0, 1, 3], [false, false, false]), [false, false, true])
    requires u == Unlinking(HalfedgeProps([Invalid, Invalid, Invalid, Invalid, Invalid, Invalid], [1, 0, 2, 1, 0, 2],
                                          [2, 0, 3, 2, 0, 3], [1, 3, 3, 2, 2, 1]),
                            VertexProps([Origin, Origin, Origin], [0, 2, 3], [true, false, false]), [true, false, true])
    ensures UnlinksTo(t, 0, u)
  {
    assert Bypassed(t.hp, 0) == u.hp;
    assert ReleaseEnds(t.vp, t.hp, 0) == u.vp;
    assert Put(t.edeleted, 0, true) == u.edeleted;
  }

  /// Edge 1 last: vertices 2 and 1 lose their last halfedges and are deleted.
  lemma TriangleEdge1(t: Unlinking, u: Unlinking)
    requires t.hp.vertex == [1, 0, 2, 1, 0, 2] && t.hp.next == [2, 0, 3, 2, 0, 3] && t.hp.prev == [1, 3, 3, 2, 2, 1]
    requires t.vp.conn == [0, 2, 3] && t.vp.deleted == [true, false, false] && t.edeleted == [true, false, true]
    requires u == Unlinking(t.hp, t.vp.(deleted := [true, true, true]), [true, true, true])
    ensures UnlinksTo(t, 1, u)
  {
    assert HalfedgeOf(1, 0) == 2 && HalfedgeOf(1, 1) == 3;
  }

  /// The second loop of `delete_face` on the triangle's edges 2, 0 and 1:
  /// every edge is flagged, and each vertex is deleted once both of its
  /// halfedges are gone.
  lemma TriangleUnlinked(s: Unlinking, es: seq<Edge>)
    requires s == Unlinking(HalfedgeProps([Invalid, Invalid, Invalid, Invalid, Invalid, Invalid], [1, 0, 2, 1, 0, 2],
                                          [2, 5, 4, 1, 0, 3], [4, 3, 0, 5, 2, 1]),
                            VertexProps([Origin, Origin, Origin], [5, 1, 3], [false, false, false]), [false, false, false])
    requires es == [2, 0, 1]
    ensures Unlinked(s, es).vp.deleted == [true, true, true] && Unlinked(s, es).edeleted == [true, true, true]
  {
    assert es[..0] == [] && es[..3] == es;
    var t1 := Unlinking(s.hp.(next := [2, 0, 3, 1, 0, 3], prev := [1, 3, 0, 2, 2, 1]), s.vp.(conn := [0, 1, 3]), [false, false, true]);
    TriangleEdge2(s, t1);
    UnlinkedStep(s, es, 0, s);
    var t2 := Unlinking(t1.hp.(next := [2, 0, 3, 2, 0, 3], prev := [1, 3, 3, 2, 2, 1]),
                        t1.vp.(conn := [0, 2, 3], deleted := [true, false, false]), [true, false, true]);
    TriangleEdge0(t1, t2);
    UnlinkedStep(s, es, 1, t1);
    var t3 := Unlinking(t2.hp, t2.vp.(deleted := [true, true, true]), [true, true, true]);
    TriangleEdge1(t2, t3);
    UnlinkedStep(s, es, 2, t2);
  }

  /// What `delete_face` leaves on the triangle add_face made: every vertex
  /// and every edge is deleted.
  lemma TriangleLoopDeleted(m: SurfaceMesh, hp0: HalfedgeProps, vp0: VertexProps, ed0: seq<bool>)
    requires hp0 == HalfedgeProps([0, Invalid, 0, Invalid, 0, Invalid], [1, 0, 2, 1, 0, 2], [2, 5, 4, 1, 0, 3], [4, 3, 0, 5, 2, 1])
    requires vp0 == VertexProps([Origin, Origin, Origin], [5, 1, 3], [false, false, false]) && ed0 == [false, false, false]
    requires m.LoopDeleted(hp0, vp0, ed0, [4, 0, 2])
    ensures m.vprops.deleted == [true, true, true] && m.edeleted == [true, true, true]
  {
    TriangleLoneEdges(hp0.face, [4, 0, 2]);
    TriangleUnlinked(Unlinking(hp0.(face := Relabelled(hp0.face, [4, 0, 2], Invalid)), vp0, ed0), [2, 0, 1]);
  }

  /// `delete_face(f0)` on the triangle: the face, its three edges and its
  /// three vertices are deleted.
  method DeleteTriangle(m: SurfaceMesh)
    requires m.Valid() && m.InRange() && m.Counted()
    requires m.hprops == HalfedgeProps([0, Invalid, 0, Invalid, 0, Invalid], [1, 0, 2, 1, 0, 2], [2, 5, 4, 1, 0, 3], [4, 3, 0, 5, 2, 1])
    requires m.vprops == VertexProps([Origin, Origin, Origin], [5, 1, 3], [false, false, false])
    requires m.edeleted == [false, false, false] && m.fprops == FaceProps([4], [false]) && m.FaceLoop(0) == [4, 0, 2]
    modifies m
    ensures m.Valid() && m.hasGarbage
    ensures m.vprops.deleted == [true, true, true] && m.edeleted == [true, true, true] && m.fprops.deleted == [true]
  {
    ghost var hp0, vp0, ed0 := m.hprops, m.vprops, m.edeleted;
    m.DeleteFace(0);
    TriangleLoopDeleted(m, hp0, vp0, ed0);
  }

  /// `garbage_collection` once every vertex, edge and face is deleted leaves
  /// every array empty.
  method CollectAll(m: SurfaceMesh)
    requires m.Valid() && m.hasGarbage
    requires m.vprops.deleted == [true, true, true] && m.edeleted == [true, true, true] && m.fprops.deleted == [true]
    modifies m
    ensures m.Valid() && m.NVertices() == 0 && m.NEdges() == 0 && m.NFaces() == 0
    ensures |m.vprops.conn| == 0 && |m.edeleted| == 0 && |m.fprops.conn| == 0
  {
    ghost var vp1, hp1, ed1, fp1 := m.vprops, m.hprops, m.edeleted, m.fprops;
    ghost var p := GarbageCollection(m);
    CollectedSized(vp1, hp1, ed1, fp1, p, m.vprops, m.hprops, m.edeleted, m.fprops);
    assert Count([true, true, true]) == 3 && Count([true]) == 1 by {
      assert multiset([true, true, true])[true] == 3;
    }
  }

  /// The test that inserts and removes a single triangle: after
  /// `add_triangle` on three isolated vertices, `delete_face` of the new
  /// face deletes its three edges and its three vertices, and
  /// `garbage_collection` then leaves every array empty.
  method InsertRemoveTriangle(m: SurfaceMesh)
    requires m.vprops == VertexProps([Origin, Origin, Origin], [Invalid, Invalid, Invalid], [false, false, false])
    requires m.hprops == HalfedgeProps([], [], [], []) && m.edeleted == [] && m.fprops == FaceProps([], [])
    requires m.deletedVertices == 0 && m.deletedEdges == 0 && m.deletedFaces == 0
    modifies m
    ensures m.Valid() && m.NVertices() == 0 && m.NEdges() == 0 && m.NFaces() == 0
    ensures |m.vprops.conn| == 0 && |m.edeleted| == 0 && |m.fprops.conn| == 0
  {
    var r := FreshTriangle(m);
    DeleteTriangle(m);
    CollectAll(m);
  }
}
