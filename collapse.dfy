/// `is_collapse_ok(h)` and `collapse(h)`: contracting the edge of h by moving
/// its start vertex into its target, then removing the two-halfedge loops
/// the contraction leaves where the faces beside the edge were triangles.
module EdgeCollapse {
  import opened Handles
  import opened Wrappers
  import opened HalfedgeMesh
  import opened EulerOperators
  import opened EdgeRemoval

  // ---- is_collapse_ok

  /// The vertex opposite h in its face, `to_vertex(next_halfedge(h))`; the
  /// invalid vertex when h is a boundary halfedge.
  function Apex(m: SurfaceMesh, h: Halfedge): Vertex
    reads m`hprops
  {
    if m.IsBoundaryHalfedge(h) then Invalid else m.ToVertex(m.Next(h))
  }

  /// h lies in a face whose two other edges are both boundary edges.
  predicate Ear(m: SurfaceMesh, h: Halfedge)
    reads m`hprops
  {
    var h1 := m.Next(h);
    var h2 := m.Next(h1);
    !m.IsBoundaryHalfedge(h) && m.IsBoundaryHalfedge(Opposite(h1)) && m.IsBoundaryHalfedge(Opposite(h2))
  }

  /// vv, other than v1 and the two apexes, has a halfedge to v1 in its
  /// rotation: the one-rings of the two ends meet away from the edge.
  predicate Joined(m: SurfaceMesh, vv: Vertex, v1: Vertex, vl: Vertex, vr: Vertex)
    reads m`vprops, m`hprops
  {
    vv != v1 && vv != vl && vv != vr && IsValid(m.FirstTo(m.ClockwiseHalfedges(vv), v1))
  }

  /// No vertex of vs is joined to v1 in that sense.
  predicate NoneJoined(m: SurfaceMesh, vs: seq<Vertex>, v1: Vertex, vl: Vertex, vr: Vertex)
    reads m`vprops, m`hprops
  {
    forall k :: 0 <= k < |vs| ==> !Joined(m, vs[k], v1, vl, vr)
  }

  /// What `is_collapse_ok(v0v1)` tests, v0v1 running from v0 to v1 with the
  /// apexes vl on its side and vr on the other side: neither face at the
  /// edge has its two other edges on the boundary, vl and vr differ (so an
  /// edge with no face at all fails), an edge joining two boundary vertices
  /// is itself a boundary edge, and no neighbour of v0 other than v1, vl and
  /// vr is a neighbour of v1.
  predicate CollapseOk(m: SurfaceMesh, h: Halfedge)
    reads m`vprops, m`hprops
  {
    var o := Opposite(h);
    var v0, v1 := m.ToVertex(o), m.ToVertex(h);
    var vl, vr := Apex(m, h), Apex(m, o);
    !Ear(m, h) && !Ear(m, o) && vl != vr &&
    !(m.IsBoundaryVertex(v0) && m.IsBoundaryVertex(v1) && !m.IsBoundaryHalfedge(h) && !m.IsBoundaryHalfedge(o)) &&
    NoneJoined(m, m.Neighbours(v0), v1, vl, vr)
  }

  /// `find_halfedge(start, end)` on the rotation of start collected by a
  /// bounded walk.
  method FindTo(m: SurfaceMesh, start: Vertex, end: Vertex) returns (r: Halfedge)
    ensures r == m.FirstTo(m.ClockwiseHalfedges(start), end)
  {
    var a := m.VertexHalfedge(start);
    var hs: seq<Halfedge> := [];
    if IsValid(a) {
      hs := m.Collect(Cw, a);
    }
    var i := 0;
    while i < |hs|
      invariant i <= |hs| && m.FirstTo(hs, end) == m.FirstTo(hs[i..], end)
    {
      if m.ToVertex(hs[i]) == end {
        return hs[i];
      }
      assert hs[i..][1..] == hs[i + 1..];
      i := i + 1;
    }
    return Invalid;
  }

  /// The loop of `is_collapse_ok` over the one-ring of v0, the targets of hs.
  method ScanRing(m: SurfaceMesh, hs: seq<Halfedge>, v1: Vertex, vl: Vertex, vr: Vertex) returns (r: bool)
    ensures r == NoneJoined(m, m.Targets(hs), v1, vl, vr)
  {
    ghost var vs := m.Targets(hs);
    var i := 0;
    while i < |hs|
      invariant i <= |hs| && forall k :: 0 <= k < i ==> !Joined(m, vs[k], v1, vl, vr)
    {
      var vv := m.ToVertex(hs[i]);
      assert vs[i] == vv;
      if vv != v1 && vv != vl && vv != vr {
        var found := FindTo(m, vv, v1);
        if IsValid(found) {
          assert Joined(m, vs[i], v1, vl, vr);
          return false;
        }
      }
      forall k | 0 <= k < i + 1
        ensures !Joined(m, vs[k], v1, vl, vr)
      {
        if k == i {
          assert !Joined(m, vs[i], v1, vl, vr);
        }
      }
      i := i + 1;
    }
    return true;
  }

  /// The tests of `is_collapse_ok(v0v1)` before its loop, in the source's
  /// order, with the apexes they compute.
  method LocalTests(m: SurfaceMesh, h: Halfedge) returns (ok: bool, vl: Vertex, vr: Vertex)
    ensures vl == Apex(m, h) && vr == Apex(m, Opposite(h))
    ensures var o := Opposite(h);
            ok == (!Ear(m, h) && !Ear(m, o) && vl != vr &&
                   !(m.IsBoundaryVertex(m.ToVertex(o)) && m.IsBoundaryVertex(m.ToVertex(h)) &&
                     !m.IsBoundaryHalfedge(h) && !m.IsBoundaryHalfedge(o)))
  {
    var o := Opposite(h);
    var v0, v1 := m.ToVertex(o), m.ToVertex(h);
    vl, vr := Invalid, Invalid;
    if !m.IsBoundaryHalfedge(h) {
      vl := m.ToVertex(m.Next(h));
      var h1 := m.Next(h);
      var h2 := m.Next(h1);
      if m.IsBoundaryHalfedge(Opposite(h1)) && m.IsBoundaryHalfedge(Opposite(h2)) {
        vr := Apex(m, o);
        return false, vl, vr;
      }
    }
    if !m.IsBoundaryHalfedge(o) {
      vr := m.ToVertex(m.Next(o));
      var h1 := m.Next(o);
      var h2 := m.Next(h1);
      if m.IsBoundaryHalfedge(Opposite(h1)) && m.IsBoundaryHalfedge(Opposite(h2)) {
        return false, vl, vr;
      }
    }
    if vl == vr {
      return false, vl, vr;
    }
    if m.IsBoundaryVertex(v0) && m.IsBoundaryVertex(v1) && !m.IsBoundaryHalfedge(h) && !m.IsBoundaryHalfedge(o) {
      return false, vl, vr;
    }
    return true, vl, vr;
  }

  /// `is_collapse_ok(v0v1)`: the local tests, then the loop over the
  /// one-ring of v0.
  method IsCollapseOk(m: SurfaceMesh, h: Halfedge) returns (r: bool)
    ensures r == CollapseOk(m, h)
  {
    var ok, vl, vr := LocalTests(m, h);
    if !ok {
      return false;
    }
    var v0, v1 := m.ToVertex(Opposite(h)), m.ToVertex(h);
    var a := m.VertexHalfedge(v0);
    var hs: seq<Halfedge> := [];
    if IsValid(a) {
      hs := m.Collect(Ccw, a);
    }
    r := ScanRing(m, hs, v1, vl, vr);
  }

  /// The test in words: it passes exactly when the four local conditions
  /// hold and no neighbour of v0 other than v1, vl and vr has a halfedge to
  /// v1.
  lemma CollapseOkMeaning(m: SurfaceMesh, h: Halfedge)
    requires m.Valid() && IsValid(m.ToVertex(h))
    ensures var o := Opposite(h);
            var v0, v1 := m.ToVertex(o), m.ToVertex(h);
            var vl, vr := Apex(m, h), Apex(m, o);
            var ns := m.Neighbours(v0);
            CollapseOk(m, h) <==>
              !Ear(m, h) && !Ear(m, o) && vl != vr &&
              !(m.IsBoundaryVertex(v0) && m.IsBoundaryVertex(v1) && !m.IsBoundaryHalfedge(h) && !m.IsBoundaryHalfedge(o)) &&
              forall k :: 0 <= k < |ns| && ns[k] != v1 && ns[k] != vl && ns[k] != vr ==>
                forall j :: 0 <= j < |m.ClockwiseHalfedges(ns[k])| ==> m.ToVertex(m.ClockwiseHalfedges(ns[k])[j]) != v1
  {
    var o := Opposite(h);
    var v0, v1 := m.ToVertex(o), m.ToVertex(h);
    var vl, vr := Apex(m, h), Apex(m, o);
    var ns := m.Neighbours(v0);
    forall k | 0 <= k < |ns|
      ensures Joined(m, ns[k], v1, vl, vr) <==>
              ns[k] != v1 && ns[k] != vl && ns[k] != vr &&
              !forall j :: 0 <= j < |m.ClockwiseHalfedges(ns[k])| ==> m.ToVertex(m.ClockwiseHalfedges(ns[k])[j]) != v1
    {
      m.FirstToSpec(m.ClockwiseHalfedges(ns[k]), v1);
    }
  }

  /// An edge with a boundary on both sides (a dangling edge) is never
  /// collapsed: both apexes are the invalid vertex.
  lemma LooseEdgeRejected(m: SurfaceMesh, h: Halfedge)
    requires m.IsBoundaryHalfedge(h) && m.IsBoundaryHalfedge(Opposite(h))
    ensures !CollapseOk(m, h)
  {
  }

  /// An interior edge between two boundary vertices is never collapsed, nor
  /// an edge of a face whose other two edges are on the boundary.
  lemma PinchesRejected(m: SurfaceMesh, h: Halfedge)
    ensures var o := Opposite(h);
            (m.IsBoundaryVertex(m.ToVertex(o)) && m.IsBoundaryVertex(m.ToVertex(h)) &&
             !m.IsBoundaryHalfedge(h) && !m.IsBoundaryHalfedge(o)) ==> !CollapseOk(m, h)
    ensures Ear(m, h) || Ear(m, Opposite(h)) ==> !CollapseOk(m, h)
  {
  }

  // ---- the records the collapse rewrites

  /// The connectivity records of a mesh.
  datatype Records = Records(vp: VertexProps, hp: HalfedgeProps, ed: seq<bool>, fp: FaceProps)

  /// How many elements an operation flags as deleted (the increments of the
  /// three deleted counters).
  datatype Deletions = Deletions(vertices: nat, edges: nat, faces: nat)

  /// The first halfedge of hs with no face in the face records.
  function FirstFree(face: seq<Face>, hs: seq<Halfedge>): Option<Halfedge>
  {
    if hs == [] then None
    else if !IsValid(Get(face, hs[0])) then Some(hs[0])
    else FirstFree(face, hs[1..])
  }

  lemma {:induction false} FirstFreeIsFirstBoundary(m: SurfaceMesh, hs: seq<Halfedge>)
    ensures FirstFree(m.hprops.face, hs) == m.FirstBoundary(hs)
  {
    if hs != [] {
      FirstFreeIsFirstBoundary(m, hs[1..]);
    }
  }

  /// The vertex anchors after `adjust_outgoing_halfedge(v)` on halfedge
  /// records hp: when the clockwise rotation from the anchor of v comes back
  /// to it and holds a boundary halfedge, v is anchored at the first one.
  function AdjustedConn(conn: seq<Halfedge>, hp: HalfedgeProps, v: Vertex): seq<Halfedge>
  {
    var a := Get(conn, v);
    if !IsValid(a) then conn
    else
      var w := Walked(hp, Cw, a, a, |hp.next| + 1);
      var b := FirstFree(hp.face, w);
      if |w| <= |hp.next| && b.Some? then Put(conn, v, b.value) else conn
  }

  /// The outgoing halfedges of v on the records, as `halfedges(v)` visits them.
  function OutgoingIn(conn: seq<Halfedge>, hp: HalfedgeProps, v: Vertex): seq<Halfedge>
  {
    var a := Get(conn, v);
    if IsValid(a) then Walked(hp, Ccw, a, a, |hp.next| + 1) else []
  }

  function Opposites(hs: seq<Halfedge>): (os: seq<Halfedge>)
    ensures |os| == |hs| && forall k :: 0 <= k < |hs| ==> os[k] == Opposite(hs[k])
  {
    seq(|hs|, k requires 0 <= k < |hs| => Opposite(hs[k]))
  }

  /// The halfedge records after `remove_edge_helper(h)`, hs being the
  /// outgoing halfedges of the start vertex vo: every halfedge that ended at
  /// vo now ends at the target vh of h, and both loops are linked past the
  /// edge, prev(h) to next(h) and prev(o) to next(o).
  function EdgeRemovedHalfedges(hp: HalfedgeProps, h: Halfedge, hs: seq<Halfedge>): HalfedgeProps
  {
    var o := Opposite(h);
    var hp1 := hp.(vertex := Relabelled(hp.vertex, Opposites(hs), TargetOf(hp, h)));
    Link(Link(hp1, PrevOf(hp, h), NextOf(hp, h)), PrevOf(hp, o), NextOf(hp, o))
  }

  /// The face anchors after `remove_edge_helper(h)`: the faces at the edge
  /// move onto the halfedges after it.
  function EdgeRemovedFaceConn(conn: seq<Halfedge>, hp: HalfedgeProps, h: Halfedge): seq<Halfedge>
  {
    var o := Opposite(h);
    var fh, fo := FaceOf(hp, h), FaceOf(hp, o);
    var c := if IsValid(fh) then Put(conn, fh, NextOf(hp, h)) else conn;
    if IsValid(fo) then Put(c, fo, NextOf(hp, o)) else c
  }

  /// The vertex anchors after `remove_edge_helper(h)`, hp' being the new
  /// halfedge records: vh takes next(h) if its anchor was o and is then
  /// adjusted, and vo loses its anchor.
  function EdgeRemovedVertexConn(conn: seq<Halfedge>, hp: HalfedgeProps, hp': HalfedgeProps, h: Halfedge): seq<Halfedge>
  {
    var o := Opposite(h);
    var vh, vo := TargetOf(hp, h), TargetOf(hp, o);
    var c := if Get(conn, vh) == o then Put(conn, vh, NextOf(hp, h)) else conn;
    Put(AdjustedConn(c, hp', vh), vo, Invalid)
  }

  /// All records after `remove_edge_helper(h)`, with vo and the edge flagged.
  function EdgeRemoved(r: Records, h: Halfedge): Records
  {
    var vo := TargetOf(r.hp, Opposite(h));
    var hp' := EdgeRemovedHalfedges(r.hp, h, OutgoingIn(r.vp.conn, r.hp, vo));
    Records(VertexProps(r.vp.point, EdgeRemovedVertexConn(r.vp.conn, r.hp, hp', h), Put(r.vp.deleted, vo, true)),
            hp', Put(r.ed, EdgeOf(h), true), FaceProps(EdgeRemovedFaceConn(r.fp.conn, r.hp, h), r.fp.deleted))
  }

  /// next(next(h)) is h: h and its next form a loop of two halfedges.
  predicate IsLoop(hp: HalfedgeProps, h: Halfedge)
  {
    NextOf(hp, NextOf(hp, h)) == h
  }

  /// The halfedge records after `remove_loop_helper(h)` for the loop h, h1:
  /// h1 takes the place of o0, the opposite of h, in the loop of o0 and
  /// takes its face.  prev(o0) is read after next(h1) has been written.
  function LoopRemovedHalfedges(hp: HalfedgeProps, h: Halfedge): HalfedgeProps
  {
    var h1 := NextOf(hp, h);
    var o0 := Opposite(h);
    var hp1 := Link(hp, h1, NextOf(hp, o0));
    Reown(Link(hp1, PrevOf(hp1, o0), h1), h1, FaceOf(hp, o0))
  }

  /// The vertex anchors after `remove_loop_helper(h)`, hp' being the new
  /// halfedge records: both ends of the loop are anchored on h1 and o1, each
  /// adjusted in turn.
  function LoopRemovedVertexConn(conn: seq<Halfedge>, hp: HalfedgeProps, hp': HalfedgeProps, h: Halfedge): seq<Halfedge>
  {
    var h1 := NextOf(hp, h);
    var v0, v1 := TargetOf(hp, h), TargetOf(hp, h1);
    AdjustedConn(Put(AdjustedConn(Put(conn, v0, h1), hp', v0), v1, Opposite(h1)), hp', v1)
  }

  /// The face records after `remove_loop_helper(h)`: the face of o0 moves its
  /// anchor off o0 onto h1, and the face of h, when there is one, is flagged.
  function LoopRemovedFaces(fp: FaceProps, hp: HalfedgeProps, h: Halfedge): FaceProps
  {
    var h1 := NextOf(hp, h);
    var o0 := Opposite(h);
    var fh, fo := FaceOf(hp, h), FaceOf(hp, o0);
    var fc := if IsValid(fo) && Get(fp.conn, fo) == o0 then Put(fp.conn, fo, h1) else fp.conn;
    FaceProps(fc, if IsValid(fh) then Put(fp.deleted, fh, true) else fp.deleted)
  }

  /// All records after `remove_loop_helper(h)`, with the edge of h flagged.
  function LoopRemoved(r: Records, h: Halfedge): Records
  {
    var hp' := LoopRemovedHalfedges(r.hp, h);
    Records(r.vp.(conn := LoopRemovedVertexConn(r.vp.conn, r.hp, hp', h)), hp', Put(r.ed, EdgeOf(h), true),
            LoopRemovedFaces(r.fp, r.hp, h))
  }

  /// What `collapse(h)` leaves and how much it deletes: the edge is removed,
  /// then the loop at h1 = prev(h) and the loop at o1 = next(opposite(h)) are
  /// removed where the halfedge records, as they are by then, show a loop.
  function Collapsed(r: Records, h: Halfedge): (Records, Deletions)
  {
    var h1, o1 := PrevOf(r.hp, h), NextOf(r.hp, Opposite(h));
    var r1 := EdgeRemoved(r, h);
    var left := IsLoop(r1.hp, h1);
    var r2 := if left then LoopRemoved(r1, h1) else r1;
    var right := IsLoop(r2.hp, o1);
    var r3 := if right then LoopRemoved(r2, o1) else r2;
    var d := Deletions(1, 1 + (if left then 1 else 0) + (if right then 1 else 0),
                       (if left && IsValid(FaceOf(r1.hp, h1)) then 1 else 0) +
                       (if right && IsValid(FaceOf(r2.hp, o1)) then 1 else 0));
    (r3, d)
  }

  // ---- the operations

  /// `adjust_outgoing_halfedge(v)`, stated on the records.
  method AdjustAt(m: SurfaceMesh, v: Vertex)
    requires m.Valid() && m.InRange()
    modifies m`vprops
    ensures m.Valid() && m.InRange()
    ensures m.vprops == old(m.vprops.(conn := AdjustedConn(m.vprops.conn, m.hprops, v)))
  {
    AdjustedConnIsAdjust(m, v);
    Adjust(m, v);
  }

  /// AdjustedConn is what `adjust_outgoing_halfedge(v)` leaves on the mesh.
  lemma AdjustedConnIsAdjust(m: SurfaceMesh, v: Vertex)
    ensures var b := m.FirstBoundary(m.ClockwiseHalfedges(v));
            AdjustedConn(m.vprops.conn, m.hprops, v) ==
              if m.RingCloses(Cw, v) && b.Some? then Put(m.vprops.conn, v, b.value) else m.vprops.conn
  {
    var a := m.VertexHalfedge(v);
    if IsValid(a) {
      m.WalkIsWalked(Cw, a, a, |m.hprops.next| + 1);
      FirstFreeIsFirstBoundary(m, m.Ring(Cw, a));
    }
  }

  /// The loop `for (auto hc : halfedges(vo)) set_vertex(opposite_halfedge(hc), vh)`.
  method SetTargets(m: SurfaceMesh, hs: seq<Halfedge>, v: Vertex)
    requires m.Valid() && m.InRange() && Ref(v, |m.vprops.conn|)
    modifies m`hprops
    ensures m.Valid() && m.InRange()
    ensures m.hprops == old(m.hprops).(vertex := Relabelled(old(m.hprops.vertex), Opposites(hs), v))
  {
    var i := 0;
    while i < |hs|
      invariant i <= |hs| && m.Valid() && m.InRange()
      invariant m.hprops == old(m.hprops).(vertex := Relabelled(old(m.hprops.vertex), Opposites(hs[..i]), v))
    {
      assert Opposites(hs[..i + 1])[..i] == Opposites(hs[..i]);
      PutRefs(m.hprops.vertex, Opposite(hs[i]), v, |m.vprops.conn|);
      m.hprops := m.hprops.(vertex := Put(m.hprops.vertex, Opposite(hs[i]), v));
      i := i + 1;
    }
    assert hs[..i] == hs;
  }

  /// `set_next_halfedge(h, nh)` on the records, keeping them in range.
  method LinkIn(m: SurfaceMesh, h: Halfedge, nh: Halfedge)
    requires m.Valid() && m.InRange() && Ref(h, |m.hprops.next|) && Ref(nh, |m.hprops.next|)
    modifies m`hprops
    ensures m.Valid() && m.InRange()
    ensures m.hprops == old(Link(m.hprops, h, nh))
  {
    LinkRefs(m.hprops, h, nh, |m.vprops.conn|, |m.fprops.conn|);
    m.hprops := Link(m.hprops, h, nh);
  }

  /// OutgoingIn is the counterclockwise rotation of the mesh.
  lemma OutgoingInIsRing(m: SurfaceMesh, v: Vertex)
    ensures OutgoingIn(m.vprops.conn, m.hprops, v) == m.OutgoingHalfedges(v)
  {
    var a := m.VertexHalfedge(v);
    if IsValid(a) {
      m.WalkIsWalked(Ccw, a, a, |m.hprops.next| + 1);
    }
  }

  /// `halfedges(v)` collected into a list.
  method OutgoingOf(m: SurfaceMesh, v: Vertex) returns (hs: seq<Halfedge>)
    ensures hs == OutgoingIn(m.vprops.conn, m.hprops, v)
  {
    OutgoingInIsRing(m, v);
    hs := [];
    var a := m.VertexHalfedge(v);
    if IsValid(a) {
      hs := m.Collect(Ccw, a);
    }
  }

  /// The halfedge writes of `remove_edge_helper(h)`: the targets of the
  /// halfedges into vo, then the two links past the edge.
  method BypassEdge(m: SurfaceMesh, h: Halfedge)
    requires m.Valid() && m.InRange()
    modifies m`hprops
    ensures m.Valid() && m.InRange()
    ensures m.hprops == old(EdgeRemovedHalfedges(m.hprops, h, OutgoingIn(m.vprops.conn, m.hprops, m.ToVertex(Opposite(h)))))
  {
    var hn, hq := m.Next(h), m.Prev(h);
    var o := Opposite(h);
    var on, oq := m.Next(o), m.Prev(o);
    var vh, vo := m.ToVertex(h), m.ToVertex(o);
    var hs := OutgoingOf(m, vo);
    SetTargets(m, hs, vh);
    LinkIn(m, hq, hn);
    LinkIn(m, oq, on);
  }

  /// The face-anchor writes of `remove_edge_helper(h)`.
  method MoveEdgeFaceAnchors(m: SurfaceMesh, h: Halfedge, hp: HalfedgeProps)
    requires m.Valid() && m.InRange() && RefsIn(hp.next, |m.hprops.next|)
    modifies m`fprops
    ensures m.Valid() && m.InRange()
    ensures m.fprops == old(m.fprops.(conn := EdgeRemovedFaceConn(m.fprops.conn, hp, h)))
  {
    var o := Opposite(h);
    var fh, fo := FaceOf(hp, h), FaceOf(hp, o);
    var hn, on := NextOf(hp, h), NextOf(hp, o);
    if IsValid(fh) {
      PutRefs(m.fprops.conn, fh, hn, |m.hprops.next|);
      m.fprops := m.fprops.(conn := Put(m.fprops.conn, fh, hn));
    }
    if IsValid(fo) {
      PutRefs(m.fprops.conn, fo, on, |m.hprops.next|);
      m.fprops := m.fprops.(conn := Put(m.fprops.conn, fo, on));
    }
  }

  /// The vertex-anchor writes of `remove_edge_helper(h)`, hp being the
  /// halfedge records before the helper.
  method MoveEdgeVertexAnchors(m: SurfaceMesh, h: Halfedge, hp: HalfedgeProps)
    requires m.Valid() && m.InRange() && RefsIn(hp.next, |m.hprops.next|)
    modifies m`vprops, m`deletedVertices
    ensures m.Valid() && m.InRange()
    ensures m.vprops == old(VertexProps(m.vprops.point, EdgeRemovedVertexConn(m.vprops.conn, hp, m.hprops, h),
                                        Put(m.vprops.deleted, TargetOf(hp, Opposite(h)), true)))
    ensures m.deletedVertices == old(m.deletedVertices) + 1
  {
    var o := Opposite(h);
    var vh, vo := TargetOf(hp, h), TargetOf(hp, o);
    var hn := NextOf(hp, h);
    if m.VertexHalfedge(vh) == o {
      PutRefs(m.vprops.conn, vh, hn, |m.hprops.next|);
      m.vprops := m.vprops.(conn := Put(m.vprops.conn, vh, hn));
    }
    AdjustAt(m, vh);
    PutRefs(m.vprops.conn, vo, Invalid, |m.hprops.next|);
    m.vprops := m.vprops.(conn := Put(m.vprops.conn, vo, Invalid));
    m.vprops := m.vprops.(deleted := Put(m.vprops.deleted, vo, true));
    m.deletedVertices := m.deletedVertices + 1;
  }

  /// `remove_edge_helper(h)`.  The counters are raised without looking at
  /// the flags, as in the source.
  method RemoveEdgeHelper(m: SurfaceMesh, h: Halfedge)
    requires m.Valid() && m.InRange()
    modifies m
    ensures m.Valid() && m.InRange()
    ensures Records(m.vprops, m.hprops, m.edeleted, m.fprops) == old(EdgeRemoved(Records(m.vprops, m.hprops, m.edeleted, m.fprops), h))
    ensures m.deletedVertices == old(m.deletedVertices) + 1 && m.deletedEdges == old(m.deletedEdges) + 1
    ensures m.deletedFaces == old(m.deletedFaces) && m.hasGarbage
  {
    ghost var dv, de, df := m.deletedVertices, m.deletedEdges, m.deletedFaces;
    ghost var r := Records(m.vprops, m.hprops, m.edeleted, m.fprops);
    ghost var r' := EdgeRemoved(r, h);
    var hp := m.hprops;
    BypassEdge(m, h);
    assert m.deletedVertices == dv && m.deletedEdges == de && m.deletedFaces == df;
    assert m.hprops == r'.hp && m.edeleted == r.ed && m.vprops == r.vp;
    MoveEdgeFaceAnchors(m, h, hp);
    assert m.deletedVertices == dv && m.deletedEdges == de && m.deletedFaces == df;
    assert m.hprops == r'.hp && m.edeleted == r.ed && m.vprops == r.vp && m.fprops == r'.fp;
    MoveEdgeVertexAnchors(m, h, hp);
    assert m.deletedVertices == dv + 1 && m.deletedEdges == de && m.deletedFaces == df;
    assert m.hprops == r'.hp && m.edeleted == r.ed && m.fprops == r'.fp && m.vprops == r'.vp;
    FlagEdge(m, EdgeOf(h));
  }

  /// The halfedge writes of `remove_loop_helper(h)`.
  method BypassLoop(m: SurfaceMesh, h: Halfedge)
    requires m.Valid() && m.InRange()
    modifies m`hprops
    ensures m.Valid() && m.InRange()
    ensures m.hprops == old(LoopRemovedHalfedges(m.hprops, h))
  {
    var h1 := m.Next(h);
    var o0 := Opposite(h);
    var fo := m.FaceOf(o0);
    LinkIn(m, h1, m.Next(o0));
    LinkIn(m, m.Prev(o0), h1);
    PutRefs(m.hprops.face, h1, fo, |m.fprops.conn|);
    m.hprops := Reown(m.hprops, h1, fo);
  }

  /// The vertex-anchor writes of `remove_loop_helper(h)`, hp being the
  /// halfedge records before the helper.
  method MoveLoopVertexAnchors(m: SurfaceMesh, h: Halfedge, hp: HalfedgeProps)
    requires m.Valid() && m.InRange() && NextOf(hp, h) < |m.hprops.next|
    modifies m`vprops
    ensures m.Valid() && m.InRange()
    ensures m.vprops == old(m.vprops.(conn := LoopRemovedVertexConn(m.vprops.conn, hp, m.hprops, h)))
  {
    var h1 := NextOf(hp, h);
    var v0, v1 := TargetOf(hp, h), TargetOf(hp, h1);
    PutRefs(m.vprops.conn, v0, h1, |m.hprops.next|);
    m.vprops := m.vprops.(conn := Put(m.vprops.conn, v0, h1));
    AdjustAt(m, v0);
    PutRefs(m.vprops.conn, v1, Opposite(h1), |m.hprops.next|);
    m.vprops := m.vprops.(conn := Put(m.vprops.conn, v1, Opposite(h1)));
    AdjustAt(m, v1);
  }

  /// The face writes and the deletion flags of `remove_loop_helper(h)`, hp
  /// being the halfedge records before the helper.
  method RetireLoop(m: SurfaceMesh, h: Halfedge, hp: HalfedgeProps)
    requires m.Valid() && m.InRange() && Ref(NextOf(hp, h), |m.hprops.next|)
    modifies m`fprops, m`edeleted, m`deletedEdges, m`deletedFaces, m`hasGarbage
    ensures m.Valid() && m.InRange()
    ensures m.fprops == old(LoopRemovedFaces(m.fprops, hp, h)) && m.edeleted == old(Put(m.edeleted, EdgeOf(h), true))
    ensures m.deletedFaces == old(m.deletedFaces) + (if IsValid(FaceOf(hp, h)) then 1 else 0)
    ensures m.deletedEdges == old(m.deletedEdges) + 1 && m.hasGarbage
  {
    var h1 := NextOf(hp, h);
    var o0 := Opposite(h);
    var fh, fo := FaceOf(hp, h), FaceOf(hp, o0);
    if IsValid(fo) && m.FaceHalfedge(fo) == o0 {
      PutRefs(m.fprops.conn, fo, h1, |m.hprops.next|);
      m.fprops := m.fprops.(conn := Put(m.fprops.conn, fo, h1));
    }
    if IsValid(fh) {
      m.fprops := m.fprops.(deleted := Put(m.fprops.deleted, fh, true));
      m.deletedFaces := m.deletedFaces + 1;
    }
    m.edeleted := Put(m.edeleted, EdgeOf(h), true);
    m.deletedEdges := m.deletedEdges + 1;
    m.hasGarbage := true;
  }

  /// `remove_loop_helper(h)` for a halfedge h of the mesh that starts a loop
  /// of two, as the source asserts.
  method RemoveLoopHelper(m: SurfaceMesh, h: Halfedge)
    requires m.Valid() && m.InRange() && h < |m.hprops.next| && IsLoop(m.hprops, h)
    modifies m
    ensures m.Valid() && m.InRange()
    ensures Records(m.vprops, m.hprops, m.edeleted, m.fprops) == old(LoopRemoved(Records(m.vprops, m.hprops, m.edeleted, m.fprops), h))
    ensures m.deletedVertices == old(m.deletedVertices) && m.deletedEdges == old(m.deletedEdges) + 1
    ensures m.deletedFaces == old(m.deletedFaces) + (if IsValid(old(m.FaceOf(h))) then 1 else 0) && m.hasGarbage
  {
    var hp := m.hprops;
    ghost var dv, de, df := m.deletedVertices, m.deletedEdges, m.deletedFaces;
    ghost var r := Records(m.vprops, m.hprops, m.edeleted, m.fprops);
    ghost var r' := LoopRemoved(r, h);
    assert m.Next(h) < |m.hprops.next|;
    BypassLoop(m, h);
    assert m.deletedVertices == dv && m.deletedEdges == de && m.deletedFaces == df;
    assert m.hprops == r'.hp && m.edeleted == r.ed && m.fprops == r.fp;
    MoveLoopVertexAnchors(m, h, hp);
    assert m.deletedVertices == dv && m.deletedEdges == de && m.deletedFaces == df;
    assert m.hprops == r'.hp && m.edeleted == r.ed && m.fprops == r.fp && m.vprops == r'.vp;
    RetireLoop(m, h, hp);
  }

  /// Flags edge e deleted and counts it.
  method FlagEdge(m: SurfaceMesh, e: Edge)
    requires m.Valid()
    modifies m`edeleted, m`deletedEdges, m`hasGarbage
    ensures m.Valid() && m.edeleted == old(Put(m.edeleted, e, true)) && m.deletedEdges == old(m.deletedEdges) + 1 && m.hasGarbage
  {
    m.edeleted := Put(m.edeleted, e, true);
    m.deletedEdges := m.deletedEdges + 1;
    m.hasGarbage := true;
  }

  /// `collapse(h)`: the start vertex of h goes into its target, then the
  /// loops left at prev(h) and at next(opposite(h)) are removed.
  method Collapse(m: SurfaceMesh, h: Halfedge)
    requires m.Valid() && m.InRange() && m.Prev(h) < |m.hprops.next| && m.Next(Opposite(h)) < |m.hprops.next|
    modifies m
    ensures m.Valid() && m.InRange() && m.hasGarbage
    ensures Records(m.vprops, m.hprops, m.edeleted, m.fprops) == old(Collapsed(Records(m.vprops, m.hprops, m.edeleted, m.fprops), h)).0
    ensures var d := old(Collapsed(Records(m.vprops, m.hprops, m.edeleted, m.fprops), h)).1;
            m.deletedVertices == old(m.deletedVertices) + d.vertices &&
            m.deletedEdges == old(m.deletedEdges) + d.edges && m.deletedFaces == old(m.deletedFaces) + d.faces
  {
    var h1 := m.Prev(h);
    var o1 := m.Next(Opposite(h));
    RemoveEdgeHelper(m, h);
    if m.Next(m.Next(h1)) == h1 {
      RemoveLoopHelper(m, h1);
    }
    if m.Next(m.Next(o1)) == o1 {
      RemoveLoopHelper(m, o1);
    }
  }


  // ---- what the collapse does to the halfedge records

  /// After `remove_edge_helper(h)` every halfedge into vo ends at vh and no
  /// other halfedge changes its target, no halfedge changes its face, and
  /// the loops at the edge skip it: prev(h) is followed by next(h) and
  /// prev(o) by next(o), with no other link changed.
  lemma EdgeRemovedSkips(hp: HalfedgeProps, h: Halfedge, hs: seq<Halfedge>)
    requires SameLength(hp)
    requires var o := Opposite(h);
             PrevOf(hp, h) < |hp.next| && NextOf(hp, h) < |hp.next| && PrevOf(hp, o) < |hp.next| &&
             NextOf(hp, o) < |hp.next| && PrevOf(hp, h) != PrevOf(hp, o) && NextOf(hp, h) != NextOf(hp, o)
    ensures var o := Opposite(h);
            var hq, hn, oq, on := PrevOf(hp, h), NextOf(hp, h), PrevOf(hp, o), NextOf(hp, o);
            var hp' := EdgeRemovedHalfedges(hp, h, hs);
            NextOf(hp', hq) == hn && PrevOf(hp', hn) == hq && NextOf(hp', oq) == on && PrevOf(hp', on) == oq &&
            hp'.face == hp.face && |hp'.next| == |hp.next| &&
            (forall g: Halfedge :: g != hq && g != oq ==> NextOf(hp', g) == NextOf(hp, g)) &&
            (forall g: Halfedge :: g != hn && g != on ==> PrevOf(hp', g) == PrevOf(hp, g)) &&
            forall g: Halfedge :: g < |hp.next| ==>
              TargetOf(hp', g) == if g in Opposites(hs) then TargetOf(hp, h) else TargetOf(hp, g)
  {
    RelabelledSpec(hp.vertex, Opposites(hs), TargetOf(hp, h));
  }

  /// After `remove_loop_helper(h)`, where h, h1 is a loop and the loop
  /// through o0 = opposite(h) is consistent at o0, h1 stands in the place of
  /// o0: prev(o0) is followed by h1, h1 by next(o0), and h1 has the face of
  /// o0.  No other halfedge changes its next or its face.
  lemma LoopReplaced(hp: HalfedgeProps, h: Halfedge)
    requires SameLength(hp)
    requires var h1, o0 := NextOf(hp, h), Opposite(h);
             h1 < |hp.next| && o0 < |hp.next| && PrevOf(hp, o0) < |hp.next| && NextOf(hp, o0) < |hp.next| &&
             h1 != o0 && h1 != PrevOf(hp, o0) && h1 != NextOf(hp, o0) && NextOf(hp, o0) != o0
    ensures var h1, o0 := NextOf(hp, h), Opposite(h);
            var hp' := LoopRemovedHalfedges(hp, h);
            NextOf(hp', PrevOf(hp, o0)) == h1 && PrevOf(hp', h1) == PrevOf(hp, o0) &&
            NextOf(hp', h1) == NextOf(hp, o0) && PrevOf(hp', NextOf(hp, o0)) == h1 &&
            FaceOf(hp', h1) == FaceOf(hp, o0) && hp'.vertex == hp.vertex && |hp'.next| == |hp.next| &&
            (forall g: Halfedge :: g != h1 && g != PrevOf(hp, o0) ==> NextOf(hp', g) == NextOf(hp, g)) &&
            forall g: Halfedge :: g != h1 ==> FaceOf(hp', g) == FaceOf(hp, g)
  {
    var h1, o0 := NextOf(hp, h), Opposite(h);
    var hp1 := Link(hp, h1, NextOf(hp, o0));
    assert PrevOf(hp1, o0) == PrevOf(hp, o0);
  }

  /// The link changes of `remove_loop_helper(h)` without any assumption on
  /// the mesh: only h1 and the halfedge p read as prev(o0) get a new next,
  /// where p is prev(o0) unless the first write made it h1, and only h1
  /// gets a new face.
  lemma LoopRemovedKeeps(hp: HalfedgeProps, h: Halfedge)
    ensures var h1, o0 := NextOf(hp, h), Opposite(h);
            var p := PrevOf(Link(hp, h1, NextOf(hp, o0)), o0);
            var hp' := LoopRemovedHalfedges(hp, h);
            (p == h1 || p == PrevOf(hp, o0)) &&
            (forall g: Halfedge :: g != h1 && g != p ==> NextOf(hp', g) == NextOf(hp, g)) &&
            forall g: Halfedge :: g != h1 ==> FaceOf(hp', g) == FaceOf(hp, g)
  {
  }

  /// After the edge of two triangles is removed, each of the triangles has
  /// become a loop of two halfedges.
  lemma TrianglesBecomeLoops(hp: HalfedgeProps, e: Edge, hs: seq<Halfedge>)
    requires SameLength(hp) && TrianglePair(hp, e)
    ensures var w := WingOf(hp, e);
            var hp' := EdgeRemovedHalfedges(hp, w.a0, hs);
            PrevOf(hp, w.a0) == w.a2 && NextOf(hp, Opposite(w.a0)) == w.b1 &&
            IsLoop(hp', w.a2) && IsLoop(hp', w.b1) && FaceOf(hp', w.a2) == FaceOf(hp, w.a0) &&
            FaceOf(hp', w.b1) == FaceOf(hp, w.b0)
  {
    var w := WingOf(hp, e);
    assert Opposite(w.a0) == w.b0;
    EdgeRemovedSkips(hp, w.a0, hs);
  }

  /// `collapse(h)` on the first halfedge of an edge between two triangles
  /// removes one vertex, three edges and two faces, as its documentation
  /// says, when the triangle of h meets the other only along the edge: the
  /// twin of the last halfedge a2 of the first triangle is not one of the
  /// six, and the halfedge before that twin is not in the second triangle.
  lemma CollapseTrianglePair(r: Records, e: Edge)
    requires SameLength(r.hp) && TrianglePair(r.hp, e)
    requires var w := WingOf(r.hp, e);
             !InWing(w, Opposite(w.a2)) && PrevOf(r.hp, Opposite(w.a2)) != w.b1 && PrevOf(r.hp, Opposite(w.a2)) != w.b2
    ensures Collapsed(r, HalfedgeOf(e, 0)).1 == Deletions(1, 3, 2)
  {
    var w := WingOf(r.hp, e);
    var h := HalfedgeOf(e, 0);
    assert h == w.a0;
    var vo := TargetOf(r.hp, Opposite(h));
    var hs := OutgoingIn(r.vp.conn, r.hp, vo);
    var r1 := EdgeRemoved(r, h);
    assert r1.hp == EdgeRemovedHalfedges(r.hp, h, hs);
    TrianglesBecomeLoops(r.hp, e, hs);
    EdgeRemovedSkips(r.hp, h, hs);
    var r2 := LoopRemoved(r1, w.a2);
    LoopRemovedKeeps(r1.hp, w.a2);
    assert r2.hp == LoopRemovedHalfedges(r1.hp, w.a2);
    assert NextOf(r1.hp, w.a2) == w.a1;
    assert IsLoop(r2.hp, w.b1) && IsValid(FaceOf(r2.hp, w.b1));
  }

  /// `collapse(h)` for a boundary halfedge h whose opposite lies in a
  /// triangle removes one vertex, two edges and one face, as its
  /// documentation says, when the boundary loop of h has more than three
  /// halfedges and runs apart from the triangle.
  lemma CollapseBoundaryEdge(r: Records, h: Halfedge)
    requires SameLength(r.hp) && !IsValid(FaceOf(r.hp, h)) && Triangle(r.hp, Opposite(h))
    requires var o := Opposite(h);
             var hq, hn, b1, b2 := PrevOf(r.hp, h), NextOf(r.hp, h), NextOf(r.hp, o), NextOf(r.hp, NextOf(r.hp, o));
             hq < |r.hp.next| && hn < |r.hp.next| && hq != hn && NextOf(r.hp, hn) != hq &&
             hq != o && hq != b1 && hq != b2 && hn != o && hn != b1 && hn != b2
    ensures Collapsed(r, h).1 == Deletions(1, 2, 1)
  {
    var o := Opposite(h);
    var vo := TargetOf(r.hp, o);
    var hs := OutgoingIn(r.vp.conn, r.hp, vo);
    var r1 := EdgeRemoved(r, h);
    assert r1.hp == EdgeRemovedHalfedges(r.hp, h, hs);
    EdgeRemovedSkips(r.hp, h, hs);
    assert !IsLoop(r1.hp, PrevOf(r.hp, h));
    assert IsLoop(r1.hp, NextOf(r.hp, o));
  }

  /// `collapse(h)` only sets deletion flags, and it flags the start vertex of
  /// h and the edge of h.
  lemma CollapseFlags(r: Records, h: Halfedge)
    ensures var vo := TargetOf(r.hp, Opposite(h));
            var r' := Collapsed(r, h).0;
            FlagsGrow(r.vp.deleted, r'.vp.deleted) && FlagsGrow(r.ed, r'.ed) && FlagsGrow(r.fp.deleted, r'.fp.deleted) &&
            (vo < |r.vp.deleted| ==> r'.vp.deleted[vo]) && (EdgeOf(h) < |r.ed| ==> r'.ed[EdgeOf(h)])
  {
    var vo := TargetOf(r.hp, Opposite(h));
    var h1, o1 := PrevOf(r.hp, h), NextOf(r.hp, Opposite(h));
    var r1 := EdgeRemoved(r, h);
    EdgeRemovedFlags(r, h);
    var r2 := if IsLoop(r1.hp, h1) then LoopRemoved(r1, h1) else r1;
    var r3 := if IsLoop(r2.hp, o1) then LoopRemoved(r2, o1) else r2;
    assert Collapsed(r, h).0 == r3;
    LoopFlags(r1, h1);
    LoopFlags(r2, o1);
  }

  /// Removing a loop only sets flags and keeps the vertex flags.
  lemma EdgeRemovedFlags(r: Records, h: Halfedge)
    ensures var vo := TargetOf(r.hp, Opposite(h));
            var r' := EdgeRemoved(r, h);
            FlagsGrow(r.vp.deleted, r'.vp.deleted) && FlagsGrow(r.ed, r'.ed) && r'.fp.deleted == r.fp.deleted &&
            (vo < |r.vp.deleted| ==> r'.vp.deleted[vo]) && (EdgeOf(h) < |r.ed| ==> r'.ed[EdgeOf(h)])
  {
    PutGrows(r.vp.deleted, TargetOf(r.hp, Opposite(h)));
    PutGrows(r.ed, EdgeOf(h));
  }

  lemma LoopFlags(r: Records, h: Halfedge)
    ensures var r' := LoopRemoved(r, h);
            r'.vp.deleted == r.vp.deleted && FlagsGrow(r.ed, r'.ed) && FlagsGrow(r.fp.deleted, r'.fp.deleted)
  {
    PutGrows(r.ed, EdgeOf(h));
    PutGrows(r.fp.deleted, FaceOf(r.hp, h));
  }
}
