// insert_edge, split(Face, Vertex) and split(Edge, Vertex) of
// surface_mesh.cpp: operations that cut faces by new edges.
module FaceSplitting {
  import opened Handles
  import opened Wrappers
  import opened HalfedgeMesh
  import opened EulerOperators
  import opened EdgeRemoval
  import FaceAddition

  /// A new edge between two vertices of the mesh keeps the records fitting
  /// the grown edge count.
  lemma AppendPairFits(vp: VertexProps, hp: HalfedgeProps, ed: seq<bool>, fp: FaceProps, start: Vertex, end: Vertex)
    requires RecordsFit(vp, hp, |ed|, fp) && Ref(start, |vp.conn|) && Ref(end, |vp.conn|) && |hp.next| != MaxIndex - 1
    ensures RecordsFit(vp, AppendPair(hp, start, end), |ed| + 1, fp)
  {
    var n := |hp.next|;
    AppendPairIn(hp, start, end, |vp.conn|, |fp.conn|);
    WidenRefs(vp.conn, n, n + 2);
    WidenRefs(fp.conn, n, n + 2);
  }

  // ---- insert_edge

  /// The link writes of `insert_edge(h0, h1)` once the new edge h4 and its
  /// opposite h5 exist: h0 runs into h4 and on to the old next of h1, h1 runs
  /// into h5 and on to the old next of h0, and h4 joins the face of h0.
  function InsertEdgeLinks(hp: HalfedgeProps, h0: Halfedge, h1: Halfedge, h4: Halfedge): HalfedgeProps
  {
    var h5 := Opposite(h4);
    var h2, h3 := NextOf(hp, h0), NextOf(hp, h1);
    HalfedgeProps(Put(hp.face, h4, FaceOf(hp, h0)), hp.vertex,
                  Put4(hp.next, h0, h4, h4, h3, h1, h5, h5, h2),
                  Put4(hp.prev, h4, h0, h3, h4, h5, h1, h2, h5))
  }

  /// The halfedge records `insert_edge(h0, h1)` leaves, f1 being the new
  /// face: the loop from the old next of h0, which now closes through h5,
  /// moves to f1.
  function InsertEdgeHalfedges(hp: HalfedgeProps, h0: Halfedge, h1: Halfedge, f1: Face): HalfedgeProps
  {
    var n := |hp.next|;
    var hp1 := InsertEdgeLinks(AppendPair(hp, TargetOf(hp, h0), TargetOf(hp, h1)), h0, h1, n);
    var h2 := NextOf(hp, h0);
    hp1.(face := Relabelled(hp1.face, Walked(hp1, NextStep, h2, h2, n + 3), f1))
  }

  /// The face records after `insert_edge`: the face f0 of h0 is anchored at
  /// h0, the new face at h1.
  function InsertEdgeFaces(fp: FaceProps, f0: Face, h0: Halfedge, h1: Halfedge): FaceProps
  {
    FaceProps(Put(Put(fp.conn + [Invalid], f0, h0), |fp.conn|, h1), fp.deleted + [false])
  }

  /// The records `insert_edge` stores before relabelling fit the grown mesh.
  lemma InsertEdgeFits(vp: VertexProps, hp: HalfedgeProps, ed: seq<bool>, fp: FaceProps, h0: Halfedge, h1: Halfedge)
    requires RecordsFit(vp, hp, |ed|, fp) && h0 < |hp.next| && h1 < |hp.next| && FaceOf(hp, h0) < |fp.conn|
    requires |hp.next| != MaxIndex - 1 && |fp.conn| != MaxIndex - 1
    ensures RecordsFit(vp, InsertEdgeLinks(AppendPair(hp, TargetOf(hp, h0), TargetOf(hp, h1)), h0, h1, |hp.next|), |ed| + 1,
                       InsertEdgeFaces(fp, FaceOf(hp, h0), h0, h1))
  {
    var n, nf := |hp.next|, |fp.conn|;
    var hp1 := AppendPair(hp, TargetOf(hp, h0), TargetOf(hp, h1));
    AppendPairFits(vp, hp, ed, fp, TargetOf(hp, h0), TargetOf(hp, h1));
    InsertEdgeLinksIn(hp1, h0, h1, n, |vp.conn|, nf);
    InsertEdgeFacesIn(fp, FaceOf(hp, h0), h0, h1, n + 2);
  }

  lemma InsertEdgeLinksIn(hp1: HalfedgeProps, h0: Halfedge, h1: Halfedge, n: nat, nv: nat, nf: nat)
    requires RecordsIn(hp1, nv, nf) && SameLength(hp1) && |hp1.next| == n + 2 && h0 < n && h1 < n && FaceOf(hp1, h0) < nf
    ensures var hp2 := InsertEdgeLinks(hp1, h0, h1, n); RecordsIn(hp2, nv, nf + 1) && SameLength(hp2) && |hp2.next| == n + 2
  {
    var h2, h3 := NextOf(hp1, h0), NextOf(hp1, h1);
    var h5 := Opposite(n);
    var hp2 := InsertEdgeLinks(hp1, h0, h1, n);
    assert hp2.next == Put4(hp1.next, h0, n, n, h3, h1, h5, h5, h2);
    assert hp2.prev == Put4(hp1.prev, n, h0, h3, n, h5, h1, h2, h5);
    WidenRefs(hp1.face, nf, nf + 1);
    PutRefs(hp1.face, n, FaceOf(hp1, h0), nf + 1);
    Put4Refs(hp1.next, h0, n, n, h3, h1, h5, h5, h2, n + 2);
    Put4Refs(hp1.prev, n, h0, h3, n, h5, h1, h2, h5, n + 2);
  }

  lemma InsertEdgeFacesIn(fp: FaceProps, f0: Face, h0: Halfedge, h1: Halfedge, nh: nat)
    requires RefsIn(fp.conn, nh) && |fp.deleted| == |fp.conn| && h0 < nh && h1 < nh
    ensures var fp2 := InsertEdgeFaces(fp, f0, h0, h1);
            RefsIn(fp2.conn, nh) && |fp2.conn| == |fp.conn| + 1 && |fp2.deleted| == |fp2.conn|
  {
    PutRefs(fp.conn + [Invalid], f0, h0, nh);
    PutRefs(Put(fp.conn + [Invalid], f0, h0), |fp.conn|, h1, nh);
  }

  /// The allocations and link writes of `insert_edge(h0, h1)`.  A failing
  /// `new_face` leaves the new edge behind, unlinked.
  method LinkNewEdge(m: SurfaceMesh, h0: Halfedge, h1: Halfedge) returns (r: Outcome<Halfedge>)
    requires m.Valid() && m.InRange() && h0 < |m.hprops.next| && h1 < |m.hprops.next|
    requires m.FaceOf(h0) == m.FaceOf(h1) && IsValid(m.FaceOf(h0)) && m.ToVertex(h0) != m.ToVertex(h1)
    modifies m`hprops, m`edeleted, m`fprops
    ensures m.Valid() && m.InRange()
    ensures old(|m.hprops.next|) == MaxIndex - 1 ==>
              r == Fail(AllocationError) && m.hprops == old(m.hprops) && m.edeleted == old(m.edeleted) && m.fprops == old(m.fprops)
    ensures old(|m.hprops.next|) != MaxIndex - 1 && old(|m.fprops.conn|) == MaxIndex - 1 ==>
              r == Fail(AllocationError) && m.hprops == old(AppendPair(m.hprops, m.ToVertex(h0), m.ToVertex(h1))) &&
              m.edeleted == old(m.edeleted) + [false] && m.fprops == old(m.fprops)
    ensures old(|m.hprops.next|) != MaxIndex - 1 && old(|m.fprops.conn|) != MaxIndex - 1 ==>
              r == Ok(old(|m.hprops.next|)) && m.edeleted == old(m.edeleted) + [false] &&
              m.hprops == old(InsertEdgeLinks(AppendPair(m.hprops, m.ToVertex(h0), m.ToVertex(h1)), h0, h1, |m.hprops.next|)) &&
              m.fprops == old(InsertEdgeFaces(m.fprops, m.FaceOf(h0), h0, h1))
  {
    var n, nf := |m.hprops.next|, |m.fprops.conn|;
    var v0, v1 := m.ToVertex(h0), m.ToVertex(h1);
    if n == MaxIndex - 1 {
      return Fail(AllocationError);
    }
    var hp1 := AppendPair(m.hprops, v0, v1);
    if nf == MaxIndex - 1 {
      AppendPairFits(m.vprops, m.hprops, m.edeleted, m.fprops, v0, v1);
      StoreEdges(m, hp1, m.edeleted + [false], m.fprops);
      return Fail(AllocationError);
    }
    var hp := InsertEdgeLinks(hp1, h0, h1, n);
    var fp := InsertEdgeFaces(m.fprops, m.FaceOf(h0), h0, h1);
    InsertEdgeFits(m.vprops, m.hprops, m.edeleted, m.fprops, h0, h1);
    StoreEdges(m, hp, m.edeleted + [false], fp);
    r := Ok(n);
  }

  /// `insert_edge(h0, h1)` for two halfedges of one face: the new edge from
  /// the target of h0 to the target of h1 cuts the face in two.  The face of
  /// h0 keeps h0 and h4, the new face takes the loop from the old next of h0
  /// round to h5.  The result is h4.
  method InsertEdge(m: SurfaceMesh, h0: Halfedge, h1: Halfedge) returns (r: Outcome<Halfedge>)
    requires m.Valid() && m.InRange() && h0 < |m.hprops.next| && h1 < |m.hprops.next|
    requires m.FaceOf(h0) == m.FaceOf(h1) && IsValid(m.FaceOf(h0)) && m.ToVertex(h0) != m.ToVertex(h1)
    modifies m`hprops, m`edeleted, m`fprops
    ensures m.Valid() && m.InRange()
    ensures old(|m.hprops.next|) == MaxIndex - 1 ==>
              r == Fail(AllocationError) && m.hprops == old(m.hprops) && m.edeleted == old(m.edeleted) && m.fprops == old(m.fprops)
    ensures old(|m.hprops.next|) != MaxIndex - 1 && old(|m.fprops.conn|) == MaxIndex - 1 ==>
              r == Fail(AllocationError) && m.hprops == old(AppendPair(m.hprops, m.ToVertex(h0), m.ToVertex(h1))) &&
              m.edeleted == old(m.edeleted) + [false] && m.fprops == old(m.fprops)
    ensures old(|m.hprops.next|) != MaxIndex - 1 && old(|m.fprops.conn|) != MaxIndex - 1 ==>
              r == Ok(old(|m.hprops.next|)) && m.edeleted == old(m.edeleted) + [false] &&
              m.hprops == old(InsertEdgeHalfedges(m.hprops, h0, h1, |m.fprops.conn|)) &&
              m.fprops == old(InsertEdgeFaces(m.fprops, m.FaceOf(h0), h0, h1))
  {
    var n, f1 := |m.hprops.next|, |m.fprops.conn|;
    var h2 := m.Next(h0);
    ghost var hp0 := m.hprops;
    r := LinkNewEdge(m, h0, h1);
    if r.Fail? {
      return;
    }
    InsertEdgeRelabels(hp0, h0, h1, f1, m.hprops);
    RelabelLoop(m, h2, f1);
  }

  /// The relabelling of `insert_edge` walks the records the link writes left.
  lemma InsertEdgeRelabels(hp: HalfedgeProps, h0: Halfedge, h1: Halfedge, f1: Face, hp1: HalfedgeProps)
    requires hp1 == InsertEdgeLinks(AppendPair(hp, TargetOf(hp, h0), TargetOf(hp, h1)), h0, h1, |hp.next|)
    ensures InsertEdgeHalfedges(hp, h0, h1, f1) ==
            hp1.(face := Relabelled(hp1.face, Walked(hp1, NextStep, NextOf(hp, h0), NextOf(hp, h0), |hp1.next| + 1), f1))
  {
  }

  /// The do-while loop of `insert_edge`: every halfedge met walking along
  /// next from a until it comes back gets face f.
  method RelabelLoop(m: SurfaceMesh, a: Halfedge, f: Face)
    requires m.Valid() && m.InRange() && Ref(f, |m.fprops.conn|)
    modifies m`hprops
    ensures m.Valid() && m.InRange()
    ensures m.hprops == old(m.hprops.(face := Relabelled(m.hprops.face, Walked(m.hprops, NextStep, a, a, |m.hprops.next| + 1), f)))
  {
    var hs := m.Collect(NextStep, a);
    m.WalkIsWalked(NextStep, a, a, |m.hprops.next| + 1);
    SetFaces(m, hs, f);
  }

  /// The next records after the link writes of `insert_edge(h0, h1)`, the
  /// new halfedges being n and n + 1.
  lemma InsertNextAt(next: seq<nat>, n: nat, h0: Halfedge, h1: Halfedge)
    requires |next| == n && h0 < n && h1 < n && h0 != h1
    ensures var r := Put4(next + NoHalfedges, h0, n, n, Get(next, h1), h1, n + 1, n + 1, Get(next, h0));
            |r| == n + 2 && Get(r, h0) == n && Get(r, n) == Get(next, h1) && Get(r, h1) == n + 1 && Get(r, n + 1) == Get(next, h0) &&
            forall h: nat :: h < n && h != h0 && h != h1 ==> Get(r, h) == Get(next, h)
  {
    Put4At(next + NoHalfedges, h0, n, n, Get(next, h1), h1, n + 1, n + 1, Get(next, h0));
  }

  /// The prev records after the link writes of `insert_edge(h0, h1)`, where
  /// h2 and h3 are the old nexts of h0 and h1.
  lemma InsertPrevAt(prev: seq<nat>, n: nat, h0: Halfedge, h1: Halfedge, h2: Halfedge, h3: Halfedge)
    requires |prev| == n && h2 < n && h3 < n && h2 != h3
    ensures var r := Put4(prev + NoHalfedges, n, h0, h3, n, n + 1, h1, h2, n + 1);
            |r| == n + 2 && Get(r, n) == h0 && Get(r, h3) == n && Get(r, n + 1) == h1 && Get(r, h2) == n + 1 &&
            forall h: nat :: h < n && h != h2 && h != h3 ==> Get(r, h) == Get(prev, h)
  {
    Put4At(prev + NoHalfedges, n, h0, h3, n, n + 1, h1, h2, n + 1);
  }

  /// The target and face records after the writes of `insert_edge(h0, h1)`.
  lemma InsertRecordsAt(vertex: seq<nat>, face: seq<nat>, n: nat, h0: Halfedge, h1: Halfedge)
    requires |vertex| == n && |face| == n && h0 < n && h1 < n
    ensures var vertex', face' := vertex + [Get(vertex, h1), Get(vertex, h0)], Put(face + NoHalfedges, n, Get(face, h0));
            |vertex'| == n + 2 && |face'| == n + 2 &&
            Get(vertex', n) == Get(vertex, h1) && Get(vertex', n + 1) == Get(vertex, h0) &&
            Get(face', n) == Get(face, h0) && Get(face', n + 1) == Invalid &&
            forall h: nat :: h < n ==> Get(vertex', h) == Get(vertex, h) && Get(face', h) == Get(face, h)
  {
  }

  /// The links and records after the writes of `insert_edge(h0, h1)`, with
  /// h4 = n and h5 = n + 1 the new halfedges.
  lemma InsertEdgeLinksAt(hp: HalfedgeProps, ne: nat, h0: Halfedge, h1: Halfedge, hp1: HalfedgeProps)
    requires SameLength(hp) && |hp.next| == 2 * ne && h0 < |hp.next| && h1 < |hp.next| && h0 != h1
    requires NextOf(hp, h0) < |hp.next| && NextOf(hp, h1) < |hp.next| && NextOf(hp, h0) != NextOf(hp, h1)
    requires hp1 == InsertEdgeLinks(AppendPair(hp, TargetOf(hp, h0), TargetOf(hp, h1)), h0, h1, |hp.next|)
    ensures SameLength(hp1) && |hp1.next| == |hp.next| + 2
    ensures var n, h2, h3 := |hp.next|, NextOf(hp, h0), NextOf(hp, h1);
            NextOf(hp1, h0) == n && NextOf(hp1, n) == h3 && NextOf(hp1, h1) == n + 1 && NextOf(hp1, n + 1) == h2 &&
            PrevOf(hp1, n) == h0 && PrevOf(hp1, h3) == n && PrevOf(hp1, n + 1) == h1 && PrevOf(hp1, h2) == n + 1
    ensures var n := |hp.next|;
            TargetOf(hp1, n) == TargetOf(hp, h1) && TargetOf(hp1, n + 1) == TargetOf(hp, h0) &&
            FaceOf(hp1, n) == FaceOf(hp, h0) && FaceOf(hp1, n + 1) == Invalid
    ensures forall h: nat :: h < |hp.next| ==> TargetOf(hp1, h) == TargetOf(hp, h) && FaceOf(hp1, h) == FaceOf(hp, h)
    ensures forall h: nat :: h < |hp.next| && h != h0 && h != h1 ==> NextOf(hp1, h) == NextOf(hp, h)
    ensures forall h: nat :: h < |hp.next| && h != NextOf(hp, h0) && h != NextOf(hp, h1) ==> PrevOf(hp1, h) == PrevOf(hp, h)
  {
    var n := |hp.next|;
    assert Opposite(n) == n + 1;
    assert hp1.next == Put4(hp.next + NoHalfedges, h0, n, n, Get(hp.next, h1), h1, n + 1, n + 1, Get(hp.next, h0));
    assert hp1.prev == Put4(hp.prev + NoHalfedges, n, h0, NextOf(hp, h1), n, n + 1, h1, NextOf(hp, h0), n + 1);
    InsertNextAt(hp.next, n, h0, h1);
    InsertPrevAt(hp.prev, n, h0, h1, NextOf(hp, h0), NextOf(hp, h1));
    InsertRecordsAt(hp.vertex, hp.face, n, h0, h1);
  }

  /// Removing the inserted edge again restores every link and target of the
  /// old halfedges: `remove_edge` undoes `insert_edge`, up to the face
  /// labels.
  lemma InsertThenRemove(hp: HalfedgeProps, ne: nat, h0: Halfedge, h1: Halfedge, f1: Face, hs: seq<Halfedge>)
    requires SameLength(hp) && |hp.next| == 2 * ne && h0 < |hp.next| && h1 < |hp.next| && h0 != h1
    requires NextOf(hp, h0) < |hp.next| && NextOf(hp, h1) < |hp.next|
    requires PrevOf(hp, NextOf(hp, h0)) == h0 && PrevOf(hp, NextOf(hp, h1)) == h1
    ensures var r := RemovedHalfedges(InsertEdgeHalfedges(hp, h0, h1, f1), ne, hs);
            |r.next| == |hp.next| + 2 &&
            forall h: nat :: h < |hp.next| ==>
              NextOf(r, h) == NextOf(hp, h) && PrevOf(r, h) == PrevOf(hp, h) && TargetOf(r, h) == TargetOf(hp, h)
  {
    var n, h2, h3 := |hp.next|, NextOf(hp, h0), NextOf(hp, h1);
    var hp1 := InsertEdgeLinks(AppendPair(hp, TargetOf(hp, h0), TargetOf(hp, h1)), h0, h1, n);
    InsertEdgeLinksAt(hp, ne, h0, h1, hp1);
    var hp' := InsertEdgeHalfedges(hp, h0, h1, f1);
    assert hp'.next == hp1.next && hp'.prev == hp1.prev && hp'.vertex == hp1.vertex;
    RemoveInserted(hp, ne, h0, h1, hp1, hp', hs);
  }

  /// The round trip on links alone: hp' links and targets as hp1 does,
  /// which is hp with the new edge n, n + 1 cut in after h0 and h1.
  lemma RemoveInserted(hp: HalfedgeProps, ne: nat, h0: Halfedge, h1: Halfedge, hp1: HalfedgeProps, hp': HalfedgeProps, hs: seq<Halfedge>)
    requires SameLength(hp) && |hp.next| == 2 * ne && h0 < |hp.next| && h1 < |hp.next| && h0 != h1
    requires NextOf(hp, h0) < |hp.next| && NextOf(hp, h1) < |hp.next| && NextOf(hp, h0) != NextOf(hp, h1)
    requires PrevOf(hp, NextOf(hp, h0)) == h0 && PrevOf(hp, NextOf(hp, h1)) == h1
    requires hp'.next == hp1.next && hp'.prev == hp1.prev && hp'.vertex == hp1.vertex
    requires SameLength(hp1) && |hp1.next| == |hp.next| + 2
    requires var n, h2, h3 := |hp.next|, NextOf(hp, h0), NextOf(hp, h1);
             NextOf(hp1, n) == h3 && NextOf(hp1, n + 1) == h2 && PrevOf(hp1, n) == h0 && PrevOf(hp1, n + 1) == h1
    requires forall h: nat :: h < |hp.next| ==> TargetOf(hp1, h) == TargetOf(hp, h)
    requires forall h: nat :: h < |hp.next| && h != h0 && h != h1 ==> NextOf(hp1, h) == NextOf(hp, h)
    requires forall h: nat :: h < |hp.next| && h != NextOf(hp, h0) && h != NextOf(hp, h1) ==> PrevOf(hp1, h) == PrevOf(hp, h)
    ensures var r := RemovedHalfedges(hp', ne, hs);
            |r.next| == |hp.next| + 2 &&
            forall h: nat :: h < |hp.next| ==>
              NextOf(r, h) == NextOf(hp, h) && PrevOf(r, h) == PrevOf(hp, h) && TargetOf(r, h) == TargetOf(hp, h)
  {
    var n, h2, h3 := |hp.next|, NextOf(hp, h0), NextOf(hp, h1);
    assert HalfedgeOf(ne, 0) == n && HalfedgeOf(ne, 1) == n + 1;
    var r := RemovedHalfedges(hp', ne, hs);
    assert r.next == Put(Put(hp1.next, h1, h3), h0, h2) && r.prev == Put(Put(hp1.prev, h3, h1), h2, h0);
    forall h: nat | h < n && h != h1 && h != h0 ensures Get(hp1.next, h) == Get(hp.next, h) {
      assert NextOf(hp1, h) == NextOf(hp, h);
    }
    forall h: nat | h < n && h != h3 && h != h2 ensures Get(hp1.prev, h) == Get(hp.prev, h) {
      assert PrevOf(hp1, h) == PrevOf(hp, h);
    }
    Restored(hp.next, hp1.next, n, h1, h0, h3, h2);
    Restored(hp.prev, hp1.prev, n, h3, h2, h1, h0);
  }

  /// Writing back the old values of two slots, after a change that touched
  /// only those two among the first n, restores the first n slots.
  lemma Restored(s: seq<nat>, s1: seq<nat>, n: nat, i: nat, j: nat, a: nat, b: nat)
    requires |s| == n && |s1| == n + 2 && i < n && j < n && i != j && Get(s, i) == a && Get(s, j) == b
    requires forall h: nat :: h < n && h != i && h != j ==> Get(s1, h) == Get(s, h)
    ensures var r := Put(Put(s1, i, a), j, b); |r| == n + 2 && forall h: nat :: h < n ==> Get(r, h) == Get(s, h)
  {
  }

  /// Cutting a quad h0, q1, q2, q3 from the target of h0 to the target of q2
  /// leaves two triangles: h0, h4, q3 in the old face and q1, q2, h5 in the
  /// new one.
  lemma InsertEdgeQuad(hp: HalfedgeProps, ne: nat, h0: Halfedge, f1: Face)
    requires SameLength(hp) && |hp.next| == 2 * ne && Quad(hp, h0) && IsValid(f1)
    requires var q1 := NextOf(hp, h0); h0 != NextOf(hp, q1) && q1 != NextOf(hp, NextOf(hp, q1))
    ensures var n, q1 := |hp.next|, NextOf(hp, h0);
            var q2 := NextOf(hp, q1);
            var hp' := InsertEdgeHalfedges(hp, h0, q2, f1);
            Triangle(hp', h0) && Triangle(hp', q1) && NextOf(hp', h0) == n && NextOf(hp', q2) == n + 1 &&
            FaceOf(hp', h0) == FaceOf(hp, h0) && FaceOf(hp', q1) == f1
  {
    var n, q1 := |hp.next|, NextOf(hp, h0);
    var q2 := NextOf(hp, q1);
    var q3 := NextOf(hp, q2);
    assert h0 != q1 && h0 != q3 && q1 != q2 && q2 != q3;
    var hp1 := InsertEdgeLinks(AppendPair(hp, TargetOf(hp, h0), TargetOf(hp, q2)), h0, q2, n);
    InsertEdgeLinksAt(hp, ne, h0, q2, hp1);
    CutQuadWalk(hp1, n, q1, q2);
    InsertEdgeRelabels(hp, h0, q2, f1, hp1);
    var w := Walked(hp1, NextStep, q1, q1, |hp1.next| + 1);
    CutQuad(hp1, n, h0, q1, q2, q3, FaceOf(hp, h0), f1, w, InsertEdgeHalfedges(hp, h0, q2, f1));
  }

  /// The walk from q1 after the cut of a quad: q1, q2 and the new h5.
  lemma CutQuadWalk(hp1: HalfedgeProps, n: nat, q1: Halfedge, q2: Halfedge)
    requires q1 < n && q2 < n && q1 != q2
    requires NextOf(hp1, q1) == q2 && NextOf(hp1, q2) == n + 1 && NextOf(hp1, n + 1) == q1
    ensures Walked(hp1, NextStep, q1, q1, n + 3) == [q1, q2, n + 1]
  {
    assert Walked(hp1, NextStep, q1, n + 1, n + 1) == [n + 1];
    assert Walked(hp1, NextStep, q1, q2, n + 2) == [q2, n + 1];
  }

  /// The faces after `insert_edge` on a quad, known only by their links:
  /// relabelling q1, q2, h5 leaves two triangles.
  lemma CutQuad(hp1: HalfedgeProps, n: nat, h0: Halfedge, q1: Halfedge, q2: Halfedge, q3: Halfedge, f0: Face, f1: Face,
                w: seq<Halfedge>, hp': HalfedgeProps)
    requires SameLength(hp1) && |hp1.next| == n + 2 && h0 < n && q1 < n && q2 < n && q3 < n
    requires h0 != q1 && h0 != q2 && h0 != q3 && q1 != q2 && q1 != q3 && q2 != q3
    requires NextOf(hp1, h0) == n && NextOf(hp1, n) == q3 && NextOf(hp1, q3) == h0
    requires PrevOf(hp1, n) == h0 && PrevOf(hp1, q3) == n && PrevOf(hp1, h0) == q3
    requires NextOf(hp1, q1) == q2 && NextOf(hp1, q2) == n + 1 && NextOf(hp1, n + 1) == q1
    requires PrevOf(hp1, q2) == q1 && PrevOf(hp1, n + 1) == q2 && PrevOf(hp1, q1) == n + 1
    requires FaceOf(hp1, h0) == f0 && FaceOf(hp1, n) == f0 && FaceOf(hp1, q3) == f0 && IsValid(f0) && IsValid(f1)
    requires w == [q1, q2, n + 1] && hp' == hp1.(face := Relabelled(hp1.face, w, f1))
    ensures Triangle(hp', h0) && Triangle(hp', q1) && FaceOf(hp', h0) == f0 && FaceOf(hp', q1) == f1
    ensures NextOf(hp', h0) == n && NextOf(hp', q2) == n + 1
  {
    RelabelledSpec(hp1.face, w, f1);
    assert h0 !in w && n !in w && q3 !in w;
    TriangleFrom(hp', h0, n, q3);
    TriangleFrom(hp', q1, q2, n + 1);
  }

  /// Three halfedges linked into a loop of one valid face form a triangle.
  lemma TriangleFrom(hp: HalfedgeProps, a: Halfedge, b: Halfedge, c: Halfedge)
    requires a < |hp.next| && b < |hp.next| && c < |hp.next|
    requires NextOf(hp, a) == b && NextOf(hp, b) == c && NextOf(hp, c) == a
    requires PrevOf(hp, b) == a && PrevOf(hp, c) == b && PrevOf(hp, a) == c
    requires IsValid(FaceOf(hp, a)) && FaceOf(hp, b) == FaceOf(hp, a) && FaceOf(hp, c) == FaceOf(hp, a)
    ensures Triangle(hp, a)
  {
  }

  // ---- split(Face, Vertex)

  /// Before the loop of `split(f, v)`: the first new edge, from the target of
  /// hend to v, follows hend and joins f.
  function SplitStart(hp: HalfedgeProps, hend: Halfedge, v: Vertex, f: Face): HalfedgeProps
  {
    var n := |hp.next|;
    var hp1 := Link(AppendPair(hp, TargetOf(hp, hend), v), hend, n);
    hp1.(face := Put(hp1.face, n, f))
  }

  /// One round of the loop of `split(f, v)`: h, the new edge hnew from the
  /// target of h to v and hold, coming back from v, close the triangle of the
  /// new face fnew.
  function SplitRound(hp: HalfedgeProps, h: Halfedge, hold: Halfedge, hnew: Halfedge, fnew: Face): HalfedgeProps
  {
    var hp1 := Link(Link(Link(hp, hnew, hold), hold, h), h, hnew);
    hp1.(face := Put(Put(Put(hp1.face, hnew, fnew), hold, fnew), h, fnew))
  }

  /// The records after the rounds for hs[1], ..., hs[i - 1], starting from
  /// the records base left before the loop; round j allocates face nf + j - 1.
  function SplitRounds(base: HalfedgeProps, hs: seq<Halfedge>, v: Vertex, nf: nat, i: nat): (r: HalfedgeProps)
    requires 1 <= i <= |hs| && SameLength(base) && |base.next| > 0
    ensures SameLength(r) && |r.next| == |base.next| + 2 * (i - 1)
    decreases i
  {
    if i == 1 then base
    else
      RoundAfter(SplitRounds(base, hs, v, nf, i - 1), hs[i - 1], v, nf + i - 2)
  }

  /// A round on records whose last halfedge is the pending hold: the new edge
  /// runs from the target of h to v.
  function RoundAfter(hp: HalfedgeProps, h: Halfedge, v: Vertex, fnew: Face): (r: HalfedgeProps)
    requires SameLength(hp) && |hp.next| > 0
    ensures SameLength(r) && |r.next| == |hp.next| + 2
  {
    var hnew := |hp.next|;
    SplitRound(AppendPair(hp, TargetOf(hp, h), v), h, hnew - 1, hnew, fnew)
  }

  /// After the loop: the last hold closes the triangle of f with hend and
  /// the halfedge after hend.
  function SplitEnd(hp: HalfedgeProps, hend: Halfedge, f: Face): HalfedgeProps
    requires |hp.next| > 0
  {
    var hold := |hp.next| - 1;
    var hp1 := Link(hp, hold, hend);
    var hp2 := Link(hp1, NextOf(hp1, hend), hold);
    hp2.(face := Put(hp2.face, hold, f))
  }

  /// The halfedge records `split(f, v)` leaves, where hs is the loop of f
  /// from its halfedge and nf the number of faces before the call.
  function SplitFaceHalfedges(hp: HalfedgeProps, hs: seq<Halfedge>, v: Vertex, f: Face, nf: nat): HalfedgeProps
    requires SameLength(hp) && |hs| > 0
  {
    SplitEnd(SplitRounds(SplitStart(hp, hs[0], v, f), hs, v, nf, |hs|), hs[0], f)
  }

  /// All records after `split(f, v)`, hs being the loop of f: v is anchored
  /// at the last new halfedge, which leaves v.
  function SplitFaceRecords(vp: VertexProps, hp: HalfedgeProps, ed: seq<bool>, fp: FaceProps, hs: seq<Halfedge>, v: Vertex, f: Face):
    (VertexProps, HalfedgeProps, seq<bool>, FaceProps)
    requires SameLength(hp) && |hs| > 0
  {
    (AnchoredAt(vp, v, |hp.next| + 2 * |hs| - 1), SplitFaceHalfedges(hp, hs, v, f, |fp.conn|),
     ed + FaceAddition.Falses(|hs|), SplitFaceFaces(fp, hs))
  }

  /// `set_halfedge(v, h)` on the vertex records.
  function AnchoredAt(vp: VertexProps, v: Vertex, h: Halfedge): VertexProps
  {
    vp.(conn := Put(vp.conn, v, h))
  }

  /// The face records after `split(f, v)`: one new face per halfedge of the
  /// loop after the first, anchored at that halfedge.
  function SplitFaceFaces(fp: FaceProps, hs: seq<Halfedge>): FaceProps
    requires |hs| > 0
  {
    FaceProps(fp.conn + hs[1..], fp.deleted + FaceAddition.Falses(|hs| - 1))
  }

  /// `split(f, v)`: v is joined to every corner of f, which becomes a fan of
  /// triangles around v; f stays the first of them.  The loop of f is taken
  /// before any write; when it does not come back to its start, the source
  /// would not return, and the model refuses.  Allocation is checked for the
  /// whole split before the first write.
  method SplitFace(m: SurfaceMesh, f: Face, v: Vertex) returns (r: Outcome<()>)
    requires m.Valid() && m.InRange() && f < |m.fprops.conn| && IsValid(m.FaceHalfedge(f)) && v < |m.vprops.conn|
    modifies m`vprops, m`hprops, m`edeleted, m`fprops
    ensures m.Valid() && m.InRange()
    ensures old(|m.FaceLoop(f)|) > 0
    ensures r == Fail(TopologyError) <==> old(|m.FaceLoop(f)| > |m.hprops.next|)
    ensures r == Fail(AllocationError) <==>
              old(|m.FaceLoop(f)| <= |m.hprops.next| &&
                  (|m.hprops.next| + 2 * |m.FaceLoop(f)| > MaxIndex - 1 || |m.fprops.conn| + |m.FaceLoop(f)| > MaxIndex))
    ensures r.Fail? ==> m.vprops == old(m.vprops) && m.hprops == old(m.hprops) && m.edeleted == old(m.edeleted) && m.fprops == old(m.fprops)
    ensures r.Ok? ==> (m.vprops, m.hprops, m.edeleted, m.fprops) == old(SplitFaceRecords(m.vprops, m.hprops, m.edeleted, m.fprops, m.FaceLoop(f), v, f))
  {
    var hend := m.FaceHalfedge(f);
    var hs := m.FaceLoop(f);
    var n, nf := |m.hprops.next|, |m.fprops.conn|;
    if |hs| > n {
      return Fail(TopologyError);
    }
    if n + 2 * |hs| > MaxIndex - 1 || nf + |hs| > MaxIndex {
      return Fail(AllocationError);
    }
    m.RingInRange(NextStep, hend);
    ApplySplit(m, hs, v, f);
    r := Ok(());
  }

  /// The writes of `split(f, v)` once the loop hs of f is known to fit.
  method ApplySplit(m: SurfaceMesh, hs: seq<Halfedge>, v: Vertex, f: Face)
    requires m.Valid() && m.InRange() && |hs| > 0 && v < |m.vprops.conn| && f < |m.fprops.conn|
    requires forall k :: 0 <= k < |hs| ==> hs[k] < |m.hprops.next|
    requires |m.hprops.next| + 2 * |hs| <= MaxIndex - 1 && |m.fprops.conn| + |hs| <= MaxIndex
    modifies m`vprops, m`hprops, m`edeleted, m`fprops
    ensures m.Valid() && m.InRange()
    ensures (m.vprops, m.hprops, m.edeleted, m.fprops) == old(SplitFaceRecords(m.vprops, m.hprops, m.edeleted, m.fprops, hs, v, f))
  {
    var hp := SplitLoop(m.hprops, hs, v, f, |m.fprops.conn|);
    SplitFaceFits(m.vprops, m.hprops, m.edeleted, m.fprops, hs, v, f);
    StoreAll(m, AnchoredAt(m.vprops, v, |m.hprops.next| + 2 * |hs| - 1), hp,
             m.edeleted + FaceAddition.Falses(|hs|), SplitFaceFaces(m.fprops, hs));
  }

  /// The link and face writes of `split(f, v)` on the halfedge records, in
  /// the order of the source: the first new edge, one round per further
  /// halfedge of the loop hs of f, and the closing links.
  method SplitLoop(hp0: HalfedgeProps, hs: seq<Halfedge>, v: Vertex, f: Face, nf: nat) returns (hp: HalfedgeProps)
    requires SameLength(hp0) && |hs| > 0
    ensures hp == SplitFaceHalfedges(hp0, hs, v, f, nf)
  {
    var hend := hs[0];
    var base := SplitStart(hp0, hend, v, f);
    hp := base;
    var i := 1;
    while i < |hs|
      invariant 1 <= i <= |hs| && hp == SplitRounds(base, hs, v, nf, i)
    {
      RoundsStep(base, hs, v, nf, i);
      hp := RoundAfter(hp, hs[i], v, nf + i - 1);
      i := i + 1;
    }
    hp := SplitEnd(hp, hend, f);
  }

  /// One more round of the loop.
  lemma RoundsStep(base: HalfedgeProps, hs: seq<Halfedge>, v: Vertex, nf: nat, i: nat)
    requires 1 <= i < |hs| && SameLength(base) && |base.next| > 0
    ensures SplitRounds(base, hs, v, nf, i + 1) == RoundAfter(SplitRounds(base, hs, v, nf, i), hs[i], v, nf + i - 1)
  {
  }

  /// The records `split(f, v)` stores fit the grown counts.
  lemma SplitFaceFits(vp: VertexProps, hp: HalfedgeProps, ed: seq<bool>, fp: FaceProps, hs: seq<Halfedge>, v: Vertex, f: Face)
    requires RecordsFit(vp, hp, |ed|, fp) && |hs| > 0 && v < |vp.conn| && f < |fp.conn|
    requires forall k :: 0 <= k < |hs| ==> hs[k] < |hp.next|
    requires |hp.next| + 2 * |hs| <= MaxIndex - 1 && |fp.conn| + |hs| <= MaxIndex
    ensures var n, k := |hp.next|, |hs|;
            RecordsFit(AnchoredAt(vp, v, n + 2 * k - 1), SplitFaceHalfedges(hp, hs, v, f, |fp.conn|),
                       |ed| + k, SplitFaceFaces(fp, hs))
  {
    var n, k, nv, nf := |hp.next|, |hs|, |vp.conn|, |fp.conn|;
    var nfe := nf + k - 1;
    var base := SplitStart(hp, hs[0], v, f);
    SplitStartIn(hp, hs[0], v, f, nv, nfe);
    SplitRoundsIn(base, hs, v, nf, k, nv, nfe);
    var r := SplitRounds(base, hs, v, nf, k);
    SplitEndIn(r, hs[0], f, nv, nfe);
    WidenRefs(vp.conn, n, n + 2 * k);
    PutRefs(vp.conn, v, n + 2 * k - 1, n + 2 * k);
    SplitFaceFacesIn(fp, hs, n, n + 2 * k);
  }

  lemma SplitStartIn(hp: HalfedgeProps, hend: Halfedge, v: Vertex, f: Face, nv: nat, nf: nat)
    requires SameLength(hp) && RecordsIn(hp, nv, nf) && hend < |hp.next| && v < nv && f < nf
    ensures RecordsIn(SplitStart(hp, hend, v, f), nv, nf)
  {
    var hp1 := AppendPair(hp, TargetOf(hp, hend), v);
    AppendPairIn(hp, TargetOf(hp, hend), v, nv, nf);
    PutRefs(hp1.next, hend, |hp.next|, |hp1.next|);
    PutRefs(hp1.prev, |hp.next|, hend, |hp1.next|);
    PutRefs(hp1.face, |hp.next|, f, nf);
  }

  lemma {:induction false} SplitRoundsIn(base: HalfedgeProps, hs: seq<Halfedge>, v: Vertex, nf: nat, i: nat, nv: nat, nfe: nat)
    requires 1 <= i <= |hs| && SameLength(base) && |base.next| > 0 && RecordsIn(base, nv, nfe)
    requires forall k :: 0 <= k < |hs| ==> hs[k] < |base.next|
    requires v < nv && nf + i - 1 <= nfe
    ensures RecordsIn(SplitRounds(base, hs, v, nf, i), nv, nfe)
    decreases i
  {
    if i > 1 {
      SplitRoundsIn(base, hs, v, nf, i - 1, nv, nfe);
      RoundsStep(base, hs, v, nf, i - 1);
      SplitRoundIn(SplitRounds(base, hs, v, nf, i - 1), hs[i - 1], v, nf + i - 2, nv, nfe);
    }
  }

  lemma SplitRoundIn(hp: HalfedgeProps, h: Halfedge, v: Vertex, fnew: Face, nv: nat, nf: nat)
    requires SameLength(hp) && |hp.next| > 0 && RecordsIn(hp, nv, nf) && h < |hp.next| && v < nv && fnew < nf
    ensures RecordsIn(RoundAfter(hp, h, v, fnew), nv, nf)
  {
    var hnew := |hp.next|;
    var hold := hnew - 1;
    var hp1 := AppendPair(hp, TargetOf(hp, h), v);
    AppendPairIn(hp, TargetOf(hp, h), v, nv, nf);
    var m := |hp1.next|;
    Put3Refs(hp1.next, hnew, hold, hold, h, h, hnew, m);
    Put3Refs(hp1.prev, hold, hnew, h, hold, hnew, h, m);
    Put3Refs(hp1.face, hnew, fnew, hold, fnew, h, fnew, nf);
    var r := SplitRound(hp1, h, hold, hnew, fnew);
    assert r.next == Put3(hp1.next, hnew, hold, hold, h, h, hnew);
    assert r.prev == Put3(hp1.prev, hold, hnew, h, hold, hnew, h);
    assert r.face == Put3(hp1.face, hnew, fnew, hold, fnew, h, fnew);
  }

  lemma SplitEndIn(hp: HalfedgeProps, hend: Halfedge, f: Face, nv: nat, nf: nat)
    requires SameLength(hp) && |hp.next| > 0 && RecordsIn(hp, nv, nf) && hend < |hp.next| && f < nf
    ensures RecordsIn(SplitEnd(hp, hend, f), nv, nf)
  {
    var hold := |hp.next| - 1;
    var hp1 := Link(hp, hold, hend);
    PutRefs(hp.next, hold, hend, |hp.next|);
    PutRefs(hp.prev, hend, hold, |hp.next|);
    var x := NextOf(hp1, hend);
    assert Ref(x, |hp.next|);
    var hp2 := Link(hp1, x, hold);
    PutRefs(hp1.next, x, hold, |hp.next|);
    PutRefs(hp1.prev, hold, x, |hp.next|);
    PutRefs(hp2.face, hold, f, nf);
  }

  lemma SplitFaceFacesIn(fp: FaceProps, hs: seq<Halfedge>, n: nat, n': nat)
    requires |hs| > 0 && RefsIn(fp.conn, n) && n <= n' && forall k :: 0 <= k < |hs| ==> hs[k] < n
    ensures RefsIn(SplitFaceFaces(fp, hs).conn, n')
  {
  }

  // ---- what split(Face, Vertex) leaves

  /// The triangle one round closes: h runs into hnew, hnew into hold and
  /// hold back into h, all three in face fnew, and hnew ends at v.
  ghost predicate RoundDone(hp: HalfedgeProps, h: Halfedge, hold: Halfedge, hnew: Halfedge, fnew: Face, v: Vertex)
  {
    NextOf(hp, h) == hnew && NextOf(hp, hnew) == hold && NextOf(hp, hold) == h &&
    PrevOf(hp, hnew) == h && PrevOf(hp, hold) == hnew && PrevOf(hp, h) == hold &&
    FaceOf(hp, h) == fnew && FaceOf(hp, hnew) == fnew && FaceOf(hp, hold) == fnew && TargetOf(hp, hnew) == v
  }

  /// The records after the rounds before hs[i]: the first new edge n follows
  /// hs[0], which keeps its face fe, and one triangle per round so far.
  ghost predicate Staged(r: HalfedgeProps, hs: seq<Halfedge>, n: nat, nf: nat, f: Face, fe: Face, v: Vertex, i: nat)
  {
    1 <= i <= |hs| && SameLength(r) && |r.next| == n + 2 * i &&
    NextOf(r, hs[0]) == n && PrevOf(r, n) == hs[0] && FaceOf(r, n) == f && TargetOf(r, n) == v && FaceOf(r, hs[0]) == fe &&
    forall j :: 1 <= j < i ==> RoundDone(r, hs[j], n + 2 * j - 1, n + 2 * j, nf + j - 1, v)
  }

  /// The writes of one round, slot by slot.
  lemma RoundAt(r: HalfedgeProps, h: Halfedge, v: Vertex, fnew: Face, r': HalfedgeProps)
    requires SameLength(r) && |r.next| > 0 && h < |r.next| - 1 && r' == RoundAfter(r, h, v, fnew)
    ensures SameLength(r') && |r'.next| == |r.next| + 2
    ensures RoundDone(r', h, |r.next| - 1, |r.next|, fnew, v)
    ensures forall x: nat :: x < |r.next| ==> TargetOf(r', x) == TargetOf(r, x)
    ensures forall x: nat :: x < |r.next| && x != h && x != |r.next| - 1 ==>
              NextOf(r', x) == NextOf(r, x) && PrevOf(r', x) == PrevOf(r, x) && FaceOf(r', x) == FaceOf(r, x)
  {
    var hold, hnew := |r.next| - 1, |r.next|;
    var hp1 := AppendPair(r, TargetOf(r, h), v);
    assert r'.next == Put3(hp1.next, hnew, hold, hold, h, h, hnew);
    assert r'.prev == Put3(hp1.prev, hold, hnew, h, hold, hnew, h);
    assert r'.face == Put3(hp1.face, hnew, fnew, hold, fnew, h, fnew);
    Put3At(hp1.next, hnew, hold, hold, h, h, hnew);
    Put3At(hp1.prev, hold, hnew, h, hold, hnew, h);
    Put3At(hp1.face, hnew, fnew, hold, fnew, h, fnew);
  }

  /// The writes before the loop.
  lemma StartAt(hp: HalfedgeProps, hend: Halfedge, v: Vertex, f: Face)
    requires SameLength(hp) && hend < |hp.next|
    ensures var r, n := SplitStart(hp, hend, v, f), |hp.next|;
            SameLength(r) && |r.next| == n + 2 &&
            NextOf(r, hend) == n && PrevOf(r, n) == hend && FaceOf(r, n) == f && TargetOf(r, n) == v &&
            FaceOf(r, hend) == FaceOf(hp, hend)
  {
  }

  /// The records after every round: Staged at each i.
  lemma {:induction false} RoundsStaged(hp: HalfedgeProps, hs: seq<Halfedge>, v: Vertex, f: Face, nf: nat, i: nat)
    requires SameLength(hp) && 1 <= i <= |hs|
    requires forall k :: 0 <= k < |hs| ==> hs[k] < |hp.next|
    requires forall k, l :: 0 <= k < l < |hs| ==> hs[k] != hs[l]
    ensures Staged(SplitRounds(SplitStart(hp, hs[0], v, f), hs, v, nf, i), hs, |hp.next|, nf, f, FaceOf(hp, hs[0]), v, i)
    decreases i
  {
    var n, base := |hp.next|, SplitStart(hp, hs[0], v, f);
    StartAt(hp, hs[0], v, f);
    if i > 1 {
      RoundsStaged(hp, hs, v, f, nf, i - 1);
      var r := SplitRounds(base, hs, v, nf, i - 1);
      RoundsStep(base, hs, v, nf, i - 1);
      StagedStep(r, hs, n, nf, f, FaceOf(hp, hs[0]), v, i);
    }
  }

  /// Staged carries over one round, whose writes touch only its own triangle.
  lemma StagedStep(r: HalfedgeProps, hs: seq<Halfedge>, n: nat, nf: nat, f: Face, fe: Face, v: Vertex, i: nat)
    requires 2 <= i <= |hs| && Staged(r, hs, n, nf, f, fe, v, i - 1)
    requires forall k :: 0 <= k < |hs| ==> hs[k] < n
    requires forall k, l :: 0 <= k < l < |hs| ==> hs[k] != hs[l]
    ensures Staged(RoundAfter(r, hs[i - 1], v, nf + i - 2), hs, n, nf, f, fe, v, i)
  {
    var r' := RoundAfter(r, hs[i - 1], v, nf + i - 2);
    RoundAt(r, hs[i - 1], v, nf + i - 2, r');
    StagedFrame(r, r', hs, n, nf, f, fe, v, i);
  }

  /// Staged carries over to records known only through the writes of one round.
  lemma StagedFrame(r: HalfedgeProps, r': HalfedgeProps, hs: seq<Halfedge>, n: nat, nf: nat, f: Face, fe: Face, v: Vertex, i: nat)
    requires 2 <= i <= |hs| && Staged(r, hs, n, nf, f, fe, v, i - 1)
    requires forall k :: 0 <= k < |hs| ==> hs[k] < n
    requires forall k, l :: 0 <= k < l < |hs| ==> hs[k] != hs[l]
    requires SameLength(r') && |r'.next| == |r.next| + 2
    requires RoundDone(r', hs[i - 1], |r.next| - 1, |r.next|, nf + i - 2, v)
    requires forall x: nat :: x < |r.next| ==> TargetOf(r', x) == TargetOf(r, x)
    requires forall x: nat :: x < |r.next| && x != hs[i - 1] && x != |r.next| - 1 ==>
               NextOf(r', x) == NextOf(r, x) && PrevOf(r', x) == PrevOf(r, x) && FaceOf(r', x) == FaceOf(r, x)
    ensures Staged(r', hs, n, nf, f, fe, v, i)
  {
    forall j | 1 <= j < i ensures RoundDone(r', hs[j], n + 2 * j - 1, n + 2 * j, nf + j - 1, v) {
      if j < i - 1 {
        assert RoundDone(r, hs[j], n + 2 * j - 1, n + 2 * j, nf + j - 1, v);
      }
    }
  }

  /// The closing writes after the loop.
  lemma EndAt(r: HalfedgeProps, hend: Halfedge, f: Face)
    requires SameLength(r) && |r.next| > 0 && hend < |r.next| - 1 && NextOf(r, hend) < |r.next| - 1 && NextOf(r, hend) != hend
    ensures var r', n0, hold := SplitEnd(r, hend, f), NextOf(r, hend), |r.next| - 1;
            SameLength(r') && |r'.next| == |r.next| &&
            NextOf(r', hend) == n0 && NextOf(r', n0) == hold && NextOf(r', hold) == hend &&
            PrevOf(r', n0) == PrevOf(r, n0) && PrevOf(r', hold) == n0 && PrevOf(r', hend) == hold && FaceOf(r', hold) == f &&
            (forall x: nat :: x != hold ==> FaceOf(r', x) == FaceOf(r, x)) &&
            (forall x: nat :: TargetOf(r', x) == TargetOf(r, x)) &&
            (forall x: nat :: x != hend && x != n0 && x != hold ==> NextOf(r', x) == NextOf(r, x) && PrevOf(r', x) == PrevOf(r, x))
  {
    var hold := |r.next| - 1;
    var hp1 := Link(r, hold, hend);
    assert NextOf(hp1, hend) == NextOf(r, hend);
  }

  /// `split(f, v)` on a face loop hs of distinct halfedges whose first entry
  /// lies in f turns every entry into a triangle with v as a corner: hs[0]
  /// stays in f, hs[j] lands in the new face nf + j - 1.
  lemma SplitFaceTriangles(hp: HalfedgeProps, hs: seq<Halfedge>, v: Vertex, f: Face, nf: nat)
    requires SameLength(hp) && |hs| > 0 && FaceOf(hp, hs[0]) == f && IsValid(f) && nf + |hs| <= MaxIndex
    requires forall k :: 0 <= k < |hs| ==> hs[k] < |hp.next|
    requires forall k, l :: 0 <= k < l < |hs| ==> hs[k] != hs[l]
    ensures var r := SplitFaceHalfedges(hp, hs, v, f, nf);
            Triangle(r, hs[0]) && FaceOf(r, hs[0]) == f && TargetOf(r, NextOf(r, hs[0])) == v &&
            forall j :: 1 <= j < |hs| ==> Triangle(r, hs[j]) && FaceOf(r, hs[j]) == nf + j - 1 && TargetOf(r, NextOf(r, hs[j])) == v
  {
    var n, k := |hp.next|, |hs|;
    var base := SplitStart(hp, hs[0], v, f);
    RoundsStaged(hp, hs, v, f, nf, k);
    var r := SplitRounds(base, hs, v, nf, k);
    EndAt(r, hs[0], f);
    EndTriangles(r, SplitEnd(r, hs[0], f), hs, n, nf, f, v);
  }

  /// The triangles after the closing writes, known only through EndAt.
  lemma EndTriangles(r: HalfedgeProps, r': HalfedgeProps, hs: seq<Halfedge>, n: nat, nf: nat, f: Face, v: Vertex)
    requires Staged(r, hs, n, nf, f, f, v, |hs|) && IsValid(f) && nf + |hs| <= MaxIndex
    requires forall k :: 0 <= k < |hs| ==> hs[k] < n
    requires forall k, l :: 0 <= k < l < |hs| ==> hs[k] != hs[l]
    requires var hold := |r.next| - 1;
             SameLength(r') && |r'.next| == |r.next| &&
             NextOf(r', hs[0]) == n && NextOf(r', n) == hold && NextOf(r', hold) == hs[0] &&
             PrevOf(r', n) == PrevOf(r, n) && PrevOf(r', hold) == n && PrevOf(r', hs[0]) == hold && FaceOf(r', hold) == f &&
             (forall x: nat :: x != hold ==> FaceOf(r', x) == FaceOf(r, x)) &&
             (forall x: nat :: TargetOf(r', x) == TargetOf(r, x)) &&
             (forall x: nat :: x != hs[0] && x != n && x != hold ==> NextOf(r', x) == NextOf(r, x) && PrevOf(r', x) == PrevOf(r, x))
    ensures Triangle(r', hs[0]) && FaceOf(r', hs[0]) == f && TargetOf(r', NextOf(r', hs[0])) == v
    ensures forall j :: 1 <= j < |hs| ==> Triangle(r', hs[j]) && FaceOf(r', hs[j]) == nf + j - 1 && TargetOf(r', NextOf(r', hs[j])) == v
  {
    forall j | 1 <= j < |hs| ensures Triangle(r', hs[j]) && FaceOf(r', hs[j]) == nf + j - 1 && TargetOf(r', NextOf(r', hs[j])) == v {
      assert RoundDone(r, hs[j], n + 2 * j - 1, n + 2 * j, nf + j - 1, v);
      assert RoundDone(r', hs[j], n + 2 * j - 1, n + 2 * j, nf + j - 1, v);
    }
  }
}
