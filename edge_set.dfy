/// `EdgeSet`: a one-dimensional halfedge graph (polylines) over a point set.
///
/// Every edge is a pair of halfedges; a halfedge stores its target vertex,
/// the next halfedge and the previous one, and a vertex stores one outgoing
/// halfedge.  At the end of a polyline the next halfedge of an incoming
/// halfedge is its own opposite.  Edges are deleted softly and removed by the
/// edge stage of garbage collection, which runs after the vertex stage of
/// the point set.
module EdgeSets {
  import opened Handles
  import opened Wrappers
  import opened Compaction
  import opened GeometryObjects
  import opened HalfedgeMesh
  import MeshGarbage
  import PointSets

  /// The keys under which `beginGarbage` leaves the new halfedge and edge counts.
  const HalfedgeCountKey := "nH"
  const EdgeCountKey := "nE"

  /// `h:connectivity`: per halfedge, the target vertex and the next and
  /// previous halfedge.
  datatype Links = Links(vertex: seq<Vertex>, next: seq<Halfedge>, prev: seq<Halfedge>)

  /// An edge set has no faces: seen as halfedge records of a mesh, every
  /// halfedge borders no face.
  function NoFaces(n: nat): (s: seq<Face>)
    ensures |s| == n
  {
    seq(n, _ => Invalid)
  }

  function Records(l: Links): HalfedgeProps
  {
    HalfedgeProps(NoFaces(|l.next|), l.vertex, l.next, l.prev)
  }

  function LinksOf(hp: HalfedgeProps): Links
  {
    Links(hp.vertex, hp.next, hp.prev)
  }

  /// `setNextHalfedge(h, nh)`: next of h and previous of nh.
  function SetNext(l: Links, h: Halfedge, nh: Halfedge): (r: Links)
    ensures |r.vertex| == |l.vertex| && |r.next| == |l.next| && |r.prev| == |l.prev|
  {
    l.(next := Put(l.next, h, nh), prev := Put(l.prev, nh, h))
  }

  /// `setPrevHalfedge(h, ph)`: previous of h and next of ph.
  function SetPrev(l: Links, h: Halfedge, ph: Halfedge): (r: Links)
    ensures |r.vertex| == |l.vertex| && |r.next| == |l.next| && |r.prev| == |l.prev|
  {
    l.(prev := Put(l.prev, h, ph), next := Put(l.next, ph, h))
  }

  /// `setVertex(h, v)`.
  function SetTarget(l: Links, h: Halfedge, v: Vertex): (r: Links)
    ensures |r.vertex| == |l.vertex| && |r.next| == |l.next| && |r.prev| == |l.prev|
  {
    l.(vertex := Put(l.vertex, h, v))
  }

  /// The records `newEdge(start, end)` leaves: two halfedges more, the first
  /// pointing to end and its opposite to start, neither linked.
  function Grown(l: Links, start: Vertex, end: Vertex): Links
  {
    Links(l.vertex + [end, start], l.next + NoHalfedges, l.prev + NoHalfedges)
  }

  /// The next halfedge of h starts where h ends.
  predicate Continues(l: Links, h: Halfedge)
  {
    Get(l.vertex, Opposite(Get(l.next, h))) == Get(l.vertex, h)
  }

  // ---- rotations around a vertex

  /// The halfedges met rotating around v from its outgoing halfedge,
  /// clockwise (`cwRotatedHalfedge`, as `findHalfedge` does) or
  /// counter-clockwise (`ccwRotatedHalfedge`, the circulators); nothing for
  /// an isolated vertex.
  function Rotation(conn: seq<Halfedge>, l: Links, step: Step, v: Vertex): seq<Halfedge>
  {
    var a := Get(conn, v);
    if IsValid(a) then Walked(Records(l), step, a, a, |l.next| + 1) else []
  }

  /// The rotation around v comes back to its outgoing halfedge, or v is isolated.
  predicate RotationCloses(conn: seq<Halfedge>, l: Links, step: Step, v: Vertex)
  {
    var a := Get(conn, v);
    IsValid(a) ==> |Walked(Records(l), step, a, a, |l.next| + 1)| <= |l.next|
  }

  /// `isSegmentBoundary(h)`: h has no next halfedge, or turns back along its edge.
  predicate HalfedgeEndsSegment(l: Links, h: Halfedge)
  {
    var nx := Get(l.next, h);
    !IsValid(nx) || Opposite(nx) == h
  }

  /// `isSegmentBoundary(v)`: v is isolated, or its incoming halfedge turns
  /// back into its outgoing one.
  predicate VertexEndsSegment(conn: seq<Halfedge>, l: Links, v: Vertex)
  {
    var h := Get(conn, v);
    !IsValid(h) || Get(l.next, Opposite(h)) == h
  }

  /// `isSegmentBoundary(e)`: one of its halfedges ends a segment.
  predicate EdgeEndsSegment(l: Links, e: Edge)
  {
    HalfedgeEndsSegment(l, HalfedgeOf(e, 0)) || HalfedgeEndsSegment(l, HalfedgeOf(e, 1))
  }

  /// Where next and previous undo each other around the target of h, h ends
  /// a segment exactly when one halfedge leaves its target.
  lemma HalfedgeEndMeaning(l: Links, h: Halfedge)
    requires h < |l.next| && IsValid(Get(l.next, h)) && Get(l.prev, Get(l.next, h)) == h
    requires Get(l.next, Get(l.prev, Opposite(h))) == Opposite(h)
    ensures HalfedgeEndsSegment(l, h) <==> |Walked(Records(l), Ccw, Opposite(h), Opposite(h), |l.next| + 1)| == 1
  {
    var o := Opposite(h);
    OppositeInvolution(h);
    OppositeInvolution(Get(l.prev, o));
    var w := Walked(Records(l), Ccw, o, o, |l.next| + 1);
    assert |w| == 1 <==> Stepped(Records(l), Ccw, o) == o;
  }

  /// Where next and previous undo each other at the outgoing halfedge of v,
  /// v ends a segment exactly when at most one halfedge leaves it.
  lemma VertexEndMeaning(conn: seq<Halfedge>, l: Links, v: Vertex)
    requires var h := Get(conn, v);
             IsValid(h) ==> Get(l.next, Get(l.prev, h)) == h && Get(l.prev, Get(l.next, Opposite(h))) == Opposite(h)
    ensures VertexEndsSegment(conn, l, v) <==> |Rotation(conn, l, Ccw, v)| <= 1
  {
    var h := Get(conn, v);
    if IsValid(h) {
      OppositeInvolution(h);
      OppositeInvolution(Get(l.prev, h));
      var w := Walked(Records(l), Ccw, h, h, |l.next| + 1);
      assert |w| == 1 <==> Stepped(Records(l), Ccw, h) == h;
    }
  }

  /// `isOneManifold(v)`: exactly two halfedges leave v.
  predicate OneManifold(conn: seq<Halfedge>, l: Links, v: Vertex)
  {
    |Rotation(conn, l, Ccw, v)| == 2
  }

  /// The first halfedge of a list that points to `end`, or invalid.
  function FirstTarget(vertex: seq<Vertex>, hs: seq<Halfedge>, end: Vertex): Halfedge
  {
    if hs == [] then Invalid
    else if Get(vertex, hs[0]) == end then hs[0]
    else FirstTarget(vertex, hs[1..], end)
  }

  /// FirstTarget finds the first halfedge of the list pointing to `end`,
  /// and is invalid exactly when there is none.
  lemma {:induction false} FirstTargetSpec(vertex: seq<Vertex>, hs: seq<Halfedge>, end: Vertex)
    requires end != Invalid && |vertex| < MaxIndex
    ensures var r := FirstTarget(vertex, hs, end);
            (!IsValid(r) <==> forall k :: 0 <= k < |hs| ==> Get(vertex, hs[k]) != end) &&
            (IsValid(r) ==> exists k :: 0 <= k < |hs| && hs[k] == r && Get(vertex, r) == end &&
                                        forall j :: 0 <= j < k ==> Get(vertex, hs[j]) != end)
  {
    if hs != [] && Get(vertex, hs[0]) != end {
      FirstTargetSpec(vertex, hs[1..], end);
      var r := FirstTarget(vertex, hs, end);
      if IsValid(r) {
        var k :| 0 <= k < |hs[1..]| && hs[1..][k] == r && Get(vertex, r) == end &&
                 forall j :: 0 <= j < k ==> Get(vertex, hs[1..][j]) != end;
        assert hs[k + 1] == r;
        forall j | 0 <= j < k + 1 ensures Get(vertex, hs[j]) != end {
          if j > 0 { assert hs[j] == hs[1..][j - 1]; }
        }
      } else {
        assert forall k :: 0 < k < |hs| ==> hs[k] == hs[1..][k - 1];
      }
    } else if hs != [] {
      assert IsValid(hs[0]) && Get(vertex, hs[0]) == end;
    }
  }

  // ---- handle arithmetic as written

  /// `edge(h)` as written: `Edge(h.idx() >> 1)`, an arithmetic shift of the
  /// signed index, stored back into the unsigned 32-bit index.
  function EdgeOfAsWritten(h: Halfedge): nat
    requires h <= MaxIndex
  {
    var s := SignedIdx(h) / 2;
    if s < 0 then s + 0x1_0000_0000 else s
  }

  /// Below 2^31 halfedges the shift is the halving of EdgeOf.
  lemma EdgeOfAsWrittenBelowHalfRange(h: Halfedge)
    requires h < 0x8000_0000
    ensures EdgeOfAsWritten(h) == EdgeOf(h)
  {
  }

  /// Halfedge 2^31, which exists once there are more than 2^30 edges, is
  /// sent to edge 0xC000_0000 instead of its own edge 0x4000_0000.
  lemma EdgeOfAsWrittenLeavesEdge()
    ensures EdgeOfAsWritten(0x8000_0000) == 0xC000_0000
    ensures EdgeOf(0x8000_0000) == 0x4000_0000 && HalfedgeOf(0x4000_0000, 0) == 0x8000_0000
  {
  }

  // ---- halfedge iteration

  /// The deletion flag of every halfedge, that of its edge (`isDeleted(h)`),
  /// as the halfedge iterator reads it.
  function HalfedgeFlags(ed: seq<bool>): (f: seq<bool>)
    ensures |f| == 2 * |ed| && forall h :: 0 <= h < |f| ==> f[h] == ed[EdgeOf(h)]
  {
    seq(2 * |ed|, h requires 0 <= h < 2 * |ed| => ed[h / 2])
  }

  /// Two halfedges are deleted per deleted edge.
  lemma {:induction false} HalfedgeFlagsCount(ed: seq<bool>)
    ensures Count(HalfedgeFlags(ed)) == 2 * Count(ed)
    decreases |ed|
  {
    if ed != [] {
      var init := ed[..|ed| - 1];
      var b := ed[|ed| - 1];
      HalfedgeFlagsCount(init);
      assert ed == init + [b];
      assert HalfedgeFlags(ed) == HalfedgeFlags(init) + [b, b];
      assert multiset(HalfedgeFlags(ed)) == multiset(HalfedgeFlags(init)) + multiset([b, b]);
      assert multiset(ed) == multiset(init) + multiset([b]);
    }
  }

  // ---- insertVertex

  /// The writes of `insertVertex(h0, v)` on records l that already hold the
  /// new edge h1 (from v to the target v2 of h0), with h2 as the halfedge
  /// after h0 and o2 as the one before its opposite o0: h0 now ends at v and
  /// h1 follows it; o1 (from v2 to v) goes before o0; v2 leaves by o1 and v by h1.
  function Spliced(conn: seq<Halfedge>, l: Links, h0: Halfedge, v: Vertex, h1: Halfedge, h2: Halfedge, o2: Halfedge):
    (r: (seq<Halfedge>, Links))
    ensures |r.0| == |conn| && |r.1.vertex| == |l.vertex| && |r.1.next| == |l.next| && |r.1.prev| == |l.prev|
  {
    var o0, o1, v2 := Opposite(h0), Opposite(h1), Get(l.vertex, h0);
    var l1 := SetNext(SetNext(l, h1, h2), h0, h1);
    var l2 := SetTarget(SetTarget(l1, h0, v), h1, v2);
    var l3 := SetTarget(SetNext(SetNext(l2, o1, o0), o2, o1), o1, v);
    (Put(Put(conn, v2, o1), v, h1), l3)
  }

  /// `insertVertex(h0, v)` as written: h2 is `nextHalfedge(h0)` and o2 is
  /// `prevHalfedge(o0)` whatever they are.
  function InsertedVertexAsWritten(conn: seq<Halfedge>, l: Links, h0: Halfedge, v: Vertex, h1: Halfedge):
    (r: (seq<Halfedge>, Links))
  {
    Spliced(conn, l, h0, v, h1, Get(l.next, h0), Get(l.prev, Opposite(h0)))
  }

  /// `insertVertex(h0, v)` with the end of a polyline handled: when h0 turns
  /// back at its target (h2 is o0), the new edge turns back there too, so h1
  /// is followed by o1.
  function InsertedVertex(conn: seq<Halfedge>, l: Links, h0: Halfedge, v: Vertex, h1: Halfedge):
    (r: (seq<Halfedge>, Links))
    ensures |r.0| == |conn| && |r.1.vertex| == |l.vertex| && |r.1.next| == |l.next| && |r.1.prev| == |l.prev|
  {
    var h2, o2 := Get(l.next, h0), Get(l.prev, Opposite(h0));
    if h2 == Opposite(h0) then Spliced(conn, l, h0, v, h1, Opposite(h1), h1)
    else Spliced(conn, l, h0, v, h1, h2, o2)
  }

  /// What the links promise around the old edge of h0 before the insertion:
  /// next and previous undo each other at h0 and at the opposite o0, the
  /// neighbours are in range, and the halfedge after h0 and the one before
  /// o0 meet h0's target.
  predicate SplicesAt(l: Links, ne: nat, h0: Halfedge)
  {
    var o0 := Opposite(h0);
    var h2, o2 := Get(l.next, h0), Get(l.prev, o0);
    |l.vertex| == |l.next| == |l.prev| == 2 * ne && h0 < 2 * ne &&
    h2 < 2 * ne && o2 < 2 * ne && Get(l.prev, h2) == h0 && Get(l.next, o2) == o0 &&
    Continues(l, h0) && Continues(l, o2)
  }

  /// The edge of h0 (from v0 to v2) split at v into v0 -h0-> v -h1-> v2 and
  /// back v2 -o1-> v -o0-> v0: next and previous undo each other at the new
  /// links, each next halfedge starts where its predecessor ends, v leaves
  /// by h1 and v2 by o1, and the chain goes on past v2 as before (from h2,
  /// the old next of h0, and into o2, the old predecessor of o0), or turns
  /// back at v2 when the edge ended there.
  predicate SplitAt(r: (seq<Halfedge>, Links), h0: Halfedge, h1: Halfedge, v: Vertex, v2: Vertex, v0: Vertex,
                    h2: Halfedge, o2: Halfedge)
  {
    var (conn', l') := (r.0, r.1);
    var o0, o1 := Opposite(h0), Opposite(h1);
    Get(l'.vertex, h0) == v && Get(l'.vertex, h1) == v2 && Get(l'.vertex, o1) == v && Get(l'.vertex, o0) == v0 &&
    Get(l'.next, h0) == h1 && Get(l'.prev, h1) == h0 && Get(l'.next, o1) == o0 && Get(l'.prev, o0) == o1 &&
    (h2 == o0 ==> Get(l'.next, h1) == o1 && Get(l'.prev, o1) == h1) &&
    (h2 != o0 ==> Get(l'.next, h1) == h2 && Get(l'.prev, h2) == h1 && Get(l'.next, o2) == o1 && Get(l'.prev, o1) == o2) &&
    Continues(l', h0) && Continues(l', h1) && Continues(l', o1) && (h2 != o0 ==> Continues(l', o2)) &&
    Get(conn', v) == h1 && Get(conn', v2) == o1
  }

  /// The corrected insertion splits the edge of h0 at v (see SplitAt).
  lemma InsertedVertexSplits(conn: seq<Halfedge>, l: Links, ne: nat, h0: Halfedge, v: Vertex)
    requires SplicesAt(l, ne, h0)
    requires v < |conn| && Get(l.vertex, h0) < |conn| && v != Get(l.vertex, h0)
    ensures var o0, v2 := Opposite(h0), Get(l.vertex, h0);
            SplitAt(InsertedVertex(conn, Grown(l, v, v2), h0, v, 2 * ne), h0, 2 * ne, v, v2, Get(l.vertex, o0),
                    Get(l.next, h0), Get(l.prev, o0))
  {
    var o0, v2 := Opposite(h0), Get(l.vertex, h0);
    var h2, o2 := Get(l.next, h0), Get(l.prev, o0);
    var h1 := 2 * ne;
    var g := Grown(l, v, v2);
    HalfedgeRange(h0, ne);
    OppositeInvolution(h0);
    OppositeInvolution(h2);
    assert Get(g.next, h0) == h2 && Get(g.prev, o0) == o2 && Get(g.vertex, o0) == Get(l.vertex, o0);
    if h2 == o0 {
      assert o2 == h0;
      SplicedEnd(conn, g, h0, v, h1, v2);
    } else {
      assert o2 != h0;
      assert Opposite(h2) != h0;
      assert Get(l.vertex, Opposite(h2)) == v2;
      assert Get(l.vertex, o2) == v2 by {
        assert Get(l.vertex, Opposite(Get(l.next, o2))) == Get(l.vertex, o2);
      }
      SplicedThrough(conn, g, ne, h0, v, h1, h2, o2, v2);
    }
  }

  /// The splice at the end of a polyline: h1 turns back into o1.
  lemma SplicedEnd(conn: seq<Halfedge>, g: Links, h0: Halfedge, v: Vertex, h1: Halfedge, v2: Vertex)
    requires |g.vertex| == |g.next| == |g.prev| == h1 + 2 && h0 < h1 && h1 % 2 == 0
    requires Get(g.vertex, h0) == v2 && Get(g.vertex, h1) == v2 && v < |conn| && v2 < |conn| && v != v2
    ensures SplitAt(Spliced(conn, g, h0, v, h1, h1 + 1, h1), h0, h1, v, v2, Get(g.vertex, Opposite(h0)), Opposite(h0), h0)
  {
    assert Opposite(h1) == h1 + 1 && Opposite(h1 + 1) == h1 && Opposite(h0) < h1;
    OppositeInvolution(h0);
  }

  /// The splice inside a polyline: h1 goes on to h2, and o2 now leads into o1.
  lemma SplicedThrough(conn: seq<Halfedge>, g: Links, ne: nat, h0: Halfedge, v: Vertex, h1: Halfedge,
                       h2: Halfedge, o2: Halfedge, v2: Vertex)
    requires |g.vertex| == |g.next| == |g.prev| == h1 + 2 && h1 == 2 * ne
    requires h0 < h1 && h2 < h1 && o2 < h1 && Opposite(h0) < h1
    requires h2 != Opposite(h0) && o2 != h0 && Opposite(h2) != h0
    requires Get(g.vertex, h0) == v2 && Get(g.vertex, h1) == v2 && Get(g.vertex, o2) == v2
    requires Get(g.vertex, Opposite(h2)) == v2
    requires v < |conn| && v2 < |conn| && v != v2
    ensures SplitAt(Spliced(conn, g, h0, v, h1, h2, o2), h0, h1, v, v2, Get(g.vertex, Opposite(h0)), h2, o2)
  {
    assert Opposite(h1) == h1 + 1 && Opposite(h1 + 1) == h1;
    OppositeInvolution(h0);
    OppositeInvolution(h2);
    var o0, o1 := Opposite(h0), h1 + 1;
    assert Opposite(h2) < h1 && o0 != h0;
    var l1 := SetNext(SetNext(g, h1, h2), h0, h1);
    var l2 := SetTarget(SetTarget(l1, h0, v), h1, v2);
    var l3 := SetTarget(SetNext(SetNext(l2, o1, o0), o2, o1), o1, v);
    assert l3.next == g.next[h1 := h2][h0 := h1][o1 := o0][o2 := o1];
    assert l3.prev == g.prev[h2 := h1][h1 := h0][o0 := o1][o1 := o2];
    assert l3.vertex == g.vertex[h0 := v][h1 := v2][o1 := v];
    assert Get(l3.next, h0) == h1 && Get(l3.next, h1) == h2 && Get(l3.next, o1) == o0 && Get(l3.next, o2) == o1;
    assert Get(l3.vertex, h0) == v && Get(l3.vertex, h1) == v2 && Get(l3.vertex, o1) == v;
    assert Get(l3.vertex, o0) == Get(g.vertex, o0) && Get(l3.vertex, Opposite(h2)) == v2;
  }

  /// A single edge from vertex 0 to vertex 1, as `insertEdge(0, 1)` leaves it.
  const Segment: Links := Links([1, 0], [1, 0], [1, 0])

  /// Inserting a vertex into the single edge as written: h0 ends at the end
  /// of the polyline, so o2 is h0 itself and the last `setNextHalfedge`
  /// overwrites the link from h0 to h1.  The new halfedge h1 is then
  /// followed by o0, which starts at the new vertex instead of at vertex 1,
  /// while the corrected insertion keeps every new link continuous.
  lemma InsertVertexAsWrittenBreaksEnd()
    ensures SplicesAt(Segment, 1, 0)
    ensures var r := InsertedVertexAsWritten([0, 1, Invalid], Grown(Segment, 2, 1), 0, 2, 2);
            Get(r.1.next, 0) == 3 && Get(r.1.next, 2) == 1 && !Continues(r.1, 2) && !Continues(r.1, 0)
    ensures var r := InsertedVertex([0, 1, Invalid], Grown(Segment, 2, 1), 0, 2, 2);
            Continues(r.1, 0) && Continues(r.1, 2) && Continues(r.1, 3)
  {
    var g := Grown(Segment, 2, 1);
    assert g == Links([1, 0, 1, 2], [1, 0, Invalid, Invalid], [1, 0, Invalid, Invalid]);
    var r := InsertedVertexAsWritten([0, 1, Invalid], g, 0, 2, 2);
    assert r.1 == Links([2, 0, 1, 2], [3, 0, 1, 1], [1, 3, 0, 0]);
    InsertedVertexSplits([0, 1, Invalid], Segment, 1, 0, 2);
  }

  // ---- insertEdge

  /// `insertEdge(v0, v1)` on records g that already hold the new edge h0
  /// (from v0 to v1, opposite h1): h0 leads into the outgoing halfedge of v1
  /// and h1 follows its predecessor, or h0 turns back into h1 at an isolated
  /// v1; h1 leads into the halfedge after the predecessor of v0's outgoing
  /// halfedge and h0 follows the opposite of that halfedge, or h1 turns back
  /// into h0 at an isolated v0; both ends leave by the new edge.
  function EdgeInserted(conn: seq<Halfedge>, g: Links, v0: Vertex, v1: Vertex, h0: Halfedge):
    (r: (seq<Halfedge>, Links))
    ensures |r.0| == |conn| && |r.1.vertex| == |g.vertex| && |r.1.next| == |g.next| && |r.1.prev| == |g.prev|
  {
    var h1 := Opposite(h0);
    var he0, he1 := Get(conn, v0), Get(conn, v1);
    var l1 := if IsValid(he1) then SetPrev(SetNext(g, h0, he1), h1, Get(g.prev, he1)) else SetNext(g, h0, h1);
    var l2 := if IsValid(he0) then SetPrev(SetNext(l1, h1, Opposite(Get(l1.prev, he0))), h0, Opposite(he0))
              else SetNext(l1, h1, h0);
    (Put(Put(conn, v0, h0), v1, h1), l2)
  }

  /// An edge between two isolated vertices is a segment of its own: each end
  /// leaves by its halfedge of the edge and has exactly one outgoing halfedge.
  lemma InsertedEdgeBetweenIsolated(conn: seq<Halfedge>, l: Links, ne: nat, v0: Vertex, v1: Vertex)
    requires |l.vertex| == |l.next| == |l.prev| == 2 * ne && 2 * ne + 1 < MaxIndex
    requires v0 < |conn| && v1 < |conn| && v0 != v1 && !IsValid(conn[v0]) && !IsValid(conn[v1])
    ensures var r := EdgeInserted(conn, Grown(l, v0, v1), v0, v1, 2 * ne);
            Get(r.0, v0) == 2 * ne && Get(r.0, v1) == 2 * ne + 1 &&
            Get(r.1.vertex, 2 * ne) == v1 && Get(r.1.vertex, 2 * ne + 1) == v0
    ensures var r := EdgeInserted(conn, Grown(l, v0, v1), v0, v1, 2 * ne);
            Rotation(r.0, r.1, Ccw, v0) == [2 * ne] && Rotation(r.0, r.1, Ccw, v1) == [2 * ne + 1]
    ensures var r := EdgeInserted(conn, Grown(l, v0, v1), v0, v1, 2 * ne);
            VertexEndsSegment(r.0, r.1, v0) && VertexEndsSegment(r.0, r.1, v1)
  {
    var h0, h1 := 2 * ne, 2 * ne + 1;
    var g := Grown(l, v0, v1);
    assert Opposite(h0) == h1 && Opposite(h1) == h0;
    assert Get(conn, v0) == conn[v0] && Get(conn, v1) == conn[v1];
    var l1 := SetNext(g, h0, h1);
    var l2 := SetNext(l1, h1, h0);
    var r := EdgeInserted(conn, g, v0, v1, h0);
    assert r.1 == l2;
    var conn' := r.0;
    assert Get(conn', v0) == h0 && Get(conn', v1) == h1;
    assert Get(l2.next, h0) == h1 && Get(l2.next, h1) == h0;
    assert Get(l2.prev, h0) == h1 && Get(l2.prev, h1) == h0;
    assert Stepped(Records(l2), Ccw, h0) == h0;
    assert Stepped(Records(l2), Ccw, h1) == h1;
    assert Walked(Records(l2), Ccw, h0, h0, |l2.next| + 1) == [h0];
    assert Walked(Records(l2), Ccw, h1, h1, |l2.next| + 1) == [h1];
  }

  /// Three vertices joined by `insertEdge(0, 1)` and `insertEdge(1, 2)` form
  /// a chain of two edges and four halfedges: vertex 1 has valence 2 and the
  /// two others valence 1.  Deleting the first edge then deletes vertex 0,
  /// whose only edge it was, and leaves the second edge as a segment of its own.
  lemma ChainOfTwoEdges()
    ensures var r1 := EdgeInserted([Invalid, Invalid, Invalid], Grown(Links([], [], []), 0, 1), 0, 1, 0);
            var r2 := EdgeInserted(r1.0, Grown(r1.1, 1, 2), 1, 2, 2);
            var (conn, l) := (r2.0, r2.1);
            |l.next| == 4 &&
            |Rotation(conn, l, Ccw, 1)| == 2 && OneManifold(conn, l, 1) &&
            |Rotation(conn, l, Ccw, 0)| == 1 && |Rotation(conn, l, Ccw, 2)| == 1 &&
            var vp := ReleaseEnds(VertexProps([Origin, Origin, Origin], conn, [false, false, false]), Records(l), 0);
            var l' := LinksOf(Bypassed(Records(l), 0));
            vp.deleted == [true, false, false] && vp.conn == conn &&
            Get(l'.next, 2) == 3 && Get(l'.next, 3) == 2 && Get(l'.prev, 2) == 3 && Get(l'.prev, 3) == 2
  {
    FirstEdgeOfChain();
    SecondEdgeOfChain();
    ChainRotations();
    ChainRelease();
  }

  /// `insertEdge(0, 1)` between isolated vertices.
  lemma FirstEdgeOfChain()
    ensures EdgeInserted([Invalid, Invalid, Invalid], Grown(Links([], [], []), 0, 1), 0, 1, 0) ==
            ([0, 1, Invalid], Links([1, 0], [1, 0], [1, 0]))
  {
    var g1 := Grown(Links([], [], []), 0, 1);
    assert g1 == Links([1, 0], [Invalid, Invalid], [Invalid, Invalid]);
    var a1 := SetNext(g1, 0, 1);
    assert a1 == Links([1, 0], [1, Invalid], [Invalid, 0]);
    var b1 := SetNext(a1, 1, 0);
    assert b1 == Links([1, 0], [1, 0], [1, 0]);
    var r1 := EdgeInserted([Invalid, Invalid, Invalid], g1, 0, 1, 0);
    assert r1.1 == b1;
    assert r1.0 == [0, 1, Invalid];
  }

  /// `insertEdge(1, 2)` from the end of that edge to an isolated vertex.
  lemma SecondEdgeOfChain()
    ensures EdgeInserted([0, 1, Invalid], Grown(Links([1, 0], [1, 0], [1, 0]), 1, 2), 1, 2, 2) ==
            ([0, 2, 3], Links([1, 0, 2, 1], [2, 0, 3, 1], [1, 3, 0, 2]))
  {
    var g2 := Grown(Links([1, 0], [1, 0], [1, 0]), 1, 2);
    assert g2 == Links([1, 0, 2, 1], [1, 0, Invalid, Invalid], [1, 0, Invalid, Invalid]);
    var a2 := SetNext(g2, 2, 3);
    assert a2 == Links([1, 0, 2, 1], [1, 0, 3, Invalid], [1, 0, Invalid, 2]);
    var b2 := SetNext(a2, 3, 1);
    assert b2 == Links([1, 0, 2, 1], [1, 0, 3, 1], [1, 3, Invalid, 2]);
    var c2 := SetPrev(b2, 2, 0);
    assert c2 == Links([1, 0, 2, 1], [2, 0, 3, 1], [1, 3, 0, 2]);
    var r2 := EdgeInserted([0, 1, Invalid], g2, 1, 2, 2);
    assert r2.1 == c2;
    assert r2.0 == [0, 2, 3];
  }

  lemma ChainRotations()
    ensures var conn, l := [0, 2, 3], Links([1, 0, 2, 1], [2, 0, 3, 1], [1, 3, 0, 2]);
            |Rotation(conn, l, Ccw, 1)| == 2 && OneManifold(conn, l, 1) &&
            |Rotation(conn, l, Ccw, 0)| == 1 && |Rotation(conn, l, Ccw, 2)| == 1
  {
    var hp := Records(Links([1, 0, 2, 1], [2, 0, 3, 1], [1, 3, 0, 2]));
    assert Stepped(hp, Ccw, 2) == 1 && Stepped(hp, Ccw, 1) == 2;
    assert Walked(hp, Ccw, 2, 1, 4) == [1];
    assert Walked(hp, Ccw, 2, 2, 5) == [2, 1];
    assert Stepped(hp, Ccw, 0) == 0 && Stepped(hp, Ccw, 3) == 3;
    assert Walked(hp, Ccw, 0, 0, 5) == [0];
    assert Walked(hp, Ccw, 3, 3, 5) == [3];
  }

  lemma ChainRelease()
    ensures var conn, l := [0, 2, 3], Links([1, 0, 2, 1], [2, 0, 3, 1], [1, 3, 0, 2]);
            var vp := ReleaseEnds(VertexProps([Origin, Origin, Origin], conn, [false, false, false]), Records(l), 0);
            var l' := LinksOf(Bypassed(Records(l), 0));
            vp.deleted == [true, false, false] && vp.conn == conn &&
            Get(l'.next, 2) == 3 && Get(l'.next, 3) == 2 && Get(l'.prev, 2) == 3 && Get(l'.prev, 3) == 2
  {
  }

  // ---- deleteEdge

  /// Deleting an edge flags its target end v when v left by the edge's other
  /// halfedge and the edge turned back there: it was the last edge at v.
  lemma LastEdgeDeletesEnd(vp: VertexProps, l: Links, e: Edge)
    requires |vp.conn| == |vp.deleted| && IsValid(HalfedgeOf(e, 1))
    requires var w := Get(l.vertex, HalfedgeOf(e, 0));
             Get(vp.conn, w) == HalfedgeOf(e, 1) && Get(l.next, HalfedgeOf(e, 0)) == HalfedgeOf(e, 1)
    ensures var w := Get(l.vertex, HalfedgeOf(e, 0));
            w < |vp.deleted| && ReleaseEnds(vp, Records(l), e).deleted[w]
  {
    var h0, h1 := HalfedgeOf(e, 0), HalfedgeOf(e, 1);
    var w := Get(l.vertex, h0);
    assert w < |vp.conn|;
    var vp1 := Release(vp, w, h1, Get(l.next, h0));
    assert vp1.deleted[w];
    ReleaseGrows(vp1, Get(l.vertex, h1), h0, Get(l.next, h1));
  }

  /// Each outgoing halfedge of w starts at w.
  predicate LeavesFrom(conn: seq<Halfedge>, l: Links, w: Vertex)
  {
    IsValid(Get(conn, w)) ==> Get(l.vertex, Opposite(Get(conn, w))) == w
  }

  /// The end of a deleted edge (between two different vertices, along
  /// continuous links) that survives no longer leaves by the edge: its
  /// outgoing halfedge has moved on to a halfedge of another edge.
  lemma KeptEndsLeaveEdge(vp: VertexProps, l: Links, e: Edge)
    requires |vp.conn| == |vp.deleted| && IsValid(HalfedgeOf(e, 1))
    requires var h0, h1 := HalfedgeOf(e, 0), HalfedgeOf(e, 1);
             Get(l.vertex, h0) != Get(l.vertex, h1) && Continues(l, h0) && Continues(l, h1) &&
             LeavesFrom(vp.conn, l, Get(l.vertex, h0)) && LeavesFrom(vp.conn, l, Get(l.vertex, h1))
    ensures var h0, h1 := HalfedgeOf(e, 0), HalfedgeOf(e, 1);
            var vp' := ReleaseEnds(vp, Records(l), e);
            forall w :: w == Get(l.vertex, h0) || w == Get(l.vertex, h1) ==>
              (Get(vp'.conn, w) != h0 && Get(vp'.conn, w) != h1) || (w < |vp'.deleted| && vp'.deleted[w])
  {
    var h0, h1 := HalfedgeOf(e, 0), HalfedgeOf(e, 1);
    var v0, v1 := Get(l.vertex, h0), Get(l.vertex, h1);
    assert Opposite(h0) == h1 && Opposite(h1) == h0;
    assert Get(vp.conn, v0) != h0 && Get(vp.conn, v1) != h1;
    assert Get(l.next, h0) != h0 && Get(l.next, h1) != h1;
    var vp1 := Release(vp, v0, h1, Get(l.next, h0));
    assert (Get(vp1.conn, v0) != h0 && Get(vp1.conn, v0) != h1) || (v0 < |vp1.deleted| && vp1.deleted[v0]);
    assert Get(vp1.conn, v1) == Get(vp.conn, v1);
    var vp2 := Release(vp1, v1, h0, Get(l.next, h1));
    ReleaseGrows(vp1, v1, h0, Get(l.next, h1));
    assert Get(vp2.conn, v0) == Get(vp1.conn, v0);
  }

  class EdgeSet {
    /// The `PointSet` part (the base class).
    const points: PointSets.PointSet
    /// `v:connectivity`: one outgoing halfedge per vertex.
    var vconn: seq<Halfedge>
    /// `h:connectivity`.
    var links: Links
    /// `e:deleted`.
    var edeleted: seq<bool>
    /// `m_deletedEdges`.
    var deletedEdges: nat
    /// `h:garbage-collection`, the old-to-new map between the two stages.
    var hmap: Option<seq<Halfedge>>

    /// Vertex arrays of one length, two halfedges per edge, no size reaching
    /// the invalid index, and the deleted count matching the flags.
    ghost predicate Valid()
      reads this, points`point, points`deleted, points`deletedVertices, points`vmap, points.base.oprops
    {
      points.Valid() && |vconn| == |points.point| &&
      |links.vertex| == |links.next| == |links.prev| == 2 * |edeleted| && |links.next| < MaxIndex &&
      deletedEdges == Count(edeleted) && (hmap.Some? ==> |hmap.value| == |links.next|)
    }

    /// The vertex arrays as records of a mesh.
    function Vp(): VertexProps
      reads this, points
    {
      VertexProps(points.point, vconn, points.deleted)
    }

    /// A new edge set has no vertex and no edge.
    constructor ()
      ensures Valid() && fresh(points) && fresh(points.base) && fresh(points.base.oprops)
      ensures points.point == [] && vconn == [] && links == Links([], [], []) && edeleted == [] && hmap == None
      ensures NVertices() == 0 && NEdges() == 0 && !points.base.garbage
    {
      points := new PointSets.PointSet();
      vconn, links, edeleted, deletedEdges, hmap := [], Links([], [], []), [], 0, None;
    }

    function NVertices(): int
      reads points
    {
      points.NVertices()
    }

    /// `nHalfedges()`.
    function NHalfedges(): int
      reads this
    {
      |links.next| - 2 * deletedEdges
    }

    /// `nEdges()`.
    function NEdges(): int
      reads this
    {
      |edeleted| - deletedEdges
    }

    /// `nEdges()` and `nHalfedges()` count what the garbage-aware edge and
    /// halfedge iterators visit.
    lemma CountsLive()
      requires Valid()
      ensures NEdges() == |Survivors(edeleted, 0)|
      ensures NHalfedges() == |Survivors(HalfedgeFlags(edeleted), 0)| == 2 * NEdges()
    {
      SurvivorsCount(edeleted, 0);
      SurvivorsCount(HalfedgeFlags(edeleted), 0);
      HalfedgeFlagsCount(edeleted);
    }

    /// `newEdge(start, end)`: at the index limit the invalid handle and no
    /// change; otherwise one edge and two halfedges more, the first pointing
    /// to end and its opposite to start.
    method NewEdge(start: Vertex, end: Vertex) returns (h: Halfedge)
      requires Valid() && start != end
      modifies this
      ensures Valid() && vconn == old(vconn) && deletedEdges == old(deletedEdges)
      ensures old(|links.next|) == MaxIndex - 1 ==> h == Invalid && unchanged(this)
      ensures old(|links.next|) != MaxIndex - 1 ==>
                h == old(|links.next|) && edeleted == old(edeleted) + [false] && links == Grown(old(links), start, end) &&
                hmap == (if old(hmap).Some? then Some(old(hmap).value + NoHalfedges) else None)
    {
      if |links.next| == MaxIndex - 1 {
        return Invalid;
      }
      h := |links.next|;
      links := Grown(links, start, end);
      assert multiset(edeleted + [false]) == multiset(edeleted) + multiset{false};
      edeleted := edeleted + [false];
      if hmap.Some? {
        hmap := Some(hmap.value + NoHalfedges);
      }
    }

    /// `findHalfedge(start, end)`: the clockwise rotation around start is
    /// searched for a halfedge pointing to end.
    method FindHalfedge(start: Vertex, end: Vertex) returns (r: Halfedge)
      requires Valid() && start < |vconn| && end < |vconn|
      requires RotationCloses(vconn, links, Cw, start)
      ensures r == FirstTarget(links.vertex, Rotation(vconn, links, Cw, start), end)
    {
      var h := Get(vconn, start);
      var hh := h;
      if IsValid(h) {
        ghost var w := Rotation(vconn, links, Cw, start);
        ghost var i := 0;
        WalkedRingStep(Records(links), Cw, hh, 0);
        while true
          invariant i < |w| && h == w[i]
          invariant FirstTarget(links.vertex, w, end) == FirstTarget(links.vertex, w[i..], end)
          decreases |w| - i
        {
          if Get(links.vertex, h) == end {
            return h;
          }
          WalkedRingStep(Records(links), Cw, hh, i);
          assert w[i..][1..] == w[i + 1..];
          h := Get(links.next, Opposite(h));
          if h == hh {
            assert w[i + 1..] == [];
            return Invalid;
          }
          i := i + 1;
        }
      }
      return Invalid;
    }

    /// The halfedge findHalfedge returns points to end and lies in the
    /// rotation of start; it is invalid exactly when none there points to end.
    lemma FindHalfedgeMeaning(start: Vertex, end: Vertex)
      requires Valid() && end < |vconn|
      ensures var hs := Rotation(vconn, links, Cw, start);
              var r := FirstTarget(links.vertex, hs, end);
              (!IsValid(r) <==> forall k :: 0 <= k < |hs| ==> Get(links.vertex, hs[k]) != end) &&
              (IsValid(r) ==> r in hs && Get(links.vertex, r) == end)
    {
      FirstTargetSpec(links.vertex, Rotation(vconn, links, Cw, start), end);
    }

    /// `findEdge(a, b)`: the edge of findHalfedge, or invalid.
    method FindEdge(a: Vertex, b: Vertex) returns (e: Edge)
      requires Valid() && a < |vconn| && b < |vconn|
      requires RotationCloses(vconn, links, Cw, a)
      ensures var h := FirstTarget(links.vertex, Rotation(vconn, links, Cw, a), b);
              e == if IsValid(h) then EdgeOf(h) else Invalid
    {
      var h := FindHalfedge(a, b);
      e := if IsValid(h) then EdgeOf(h) else Invalid;
    }

    /// `valence(v)`: the number of neighbours the counter-clockwise
    /// circulator visits.
    method Valence(v: Vertex) returns (n: nat)
      requires Valid() && RotationCloses(vconn, links, Ccw, v)
      ensures n == |Rotation(vconn, links, Ccw, v)|
    {
      var a := Get(vconn, v);
      n := 0;
      if IsValid(a) {
        ghost var w := Rotation(vconn, links, Ccw, v);
        var h := a;
        WalkedRingStep(Records(links), Ccw, a, 0);
        while true
          invariant n < |w| && h == w[n]
          decreases |w| - n
        {
          WalkedRingStep(Records(links), Ccw, a, n);
          h := Opposite(Get(links.prev, h));
          n := n + 1;
          if h == a {
            return;
          }
        }
      }
    }

    /// `isOneManifold(v)`: the valence is 2.
    method IsOneManifold(v: Vertex) returns (b: bool)
      requires Valid() && RotationCloses(vconn, links, Ccw, v)
      ensures b <==> OneManifold(vconn, links, v)
    {
      var n := Valence(v);
      b := n == 2;
    }

    /// The connectivity writes of an insertion, all at once: r holds the new
    /// outgoing halfedges and halfedge records, of the present sizes.
    method Relink(r: (seq<Halfedge>, Links))
      requires Valid() && |r.0| == |vconn|
      requires |r.1.vertex| == |links.vertex| && |r.1.next| == |links.next| && |r.1.prev| == |links.prev|
      modifies this
      ensures Valid() && vconn == r.0 && links == r.1
      ensures edeleted == old(edeleted) && deletedEdges == old(deletedEdges) && hmap == old(hmap)
    {
      vconn, links := r.0, r.1;
    }

    /// `insertVertex(h0, v)`: the edge of h0 is split at v by a new edge from
    /// v to the old target of h0, with the end of a polyline handled (see
    /// InsertedVertex).  At the index limit no edge is allocated and the
    /// writes go to the invalid handle.
    method InsertVertex(h0: Halfedge, v: Vertex) returns (o1: Halfedge)
      requires Valid() && h0 < |links.next| && v < |vconn| && v != Get(links.vertex, h0)
      modifies this
      ensures Valid() && deletedEdges == old(deletedEdges)
      ensures old(|links.next|) != MaxIndex - 1 ==> o1 == old(|links.next|) + 1
      ensures old(|links.next|) != MaxIndex - 1 ==> edeleted == old(edeleted) + [false]
      ensures old(|links.next|) != MaxIndex - 1 ==>
                (vconn, links) == old(InsertedVertex(vconn, Grown(links, v, Get(links.vertex, h0)), h0, v, |links.next|))
      ensures old(|links.next|) == MaxIndex - 1 ==>
                o1 == Opposite(Invalid) && edeleted == old(edeleted) &&
                (vconn, links) == old(InsertedVertex(vconn, links, h0, v, Invalid))
    {
      NewOpposite(|edeleted|);
      var v2 := Get(links.vertex, h0);
      var h1 := NewEdge(v, v2);
      o1 := Opposite(h1);
      Relink(InsertedVertex(vconn, links, h0, v, h1));
    }

    /// `insertEdge(v0, v1)`: a new edge from v0 to v1 linked into the
    /// rotations of both ends (see EdgeInserted).  At the index limit no edge
    /// is allocated and the writes go to the invalid handle.
    method InsertEdge(v0: Vertex, v1: Vertex) returns (h: Halfedge)
      requires Valid() && v0 < |vconn| && v1 < |vconn| && v0 != v1
      modifies this
      ensures Valid() && deletedEdges == old(deletedEdges)
      ensures old(|links.next|) != MaxIndex - 1 ==>
                h == old(|links.next|) && edeleted == old(edeleted) + [false] &&
                (vconn, links) == old(EdgeInserted(vconn, Grown(links, v0, v1), v0, v1, |links.next|))
      ensures old(|links.next|) == MaxIndex - 1 ==>
                h == Invalid && edeleted == old(edeleted) && (vconn, links) == old(EdgeInserted(vconn, links, v0, v1, Invalid))
    {
      h := NewEdge(v0, v1);
      Relink(EdgeInserted(vconn, links, v0, v1, h));
    }

    /// One endpoint update of `deleteEdge`: v, if it leaves by h, moves on
    /// to nxt, or is deleted when nxt is h itself.
    method ReleaseEnd(v: Vertex, h: Halfedge, nxt: Halfedge)
      requires Valid() && IsValid(h)
      modifies this, points, points.base
      ensures Valid() && links == old(links) && edeleted == old(edeleted) && deletedEdges == old(deletedEdges)
      ensures hmap == old(hmap) && points.vmap == old(points.vmap) && points.base.garbageProps == old(points.base.garbageProps)
      ensures Vp() == Release(old(Vp()), v, h, nxt)
    {
      if Get(vconn, v) == h {
        if nxt == h {
          ghost var d := points.deleted;
          points.DeleteVertex(v);
          assert points.deleted == Put(d, v, true);
        } else {
          vconn := Put(vconn, v, nxt);
        }
      }
    }

    /// `deleteEdge(e)`: an edge not yet deleted is linked past on both sides,
    /// each end leaving by it moves on or, if it was its last edge, is
    /// deleted; then the edge is flagged, counted once and the garbage flag
    /// raised.  Deleting it again changes nothing.
    method DeleteEdge(e: Edge)
      requires Valid() && e < |edeleted|
      modifies this, points, points.base
      ensures Valid() && points.point == old(points.point) && points.vmap == old(points.vmap) && hmap == old(hmap)
      ensures points.base.garbageProps == old(points.base.garbageProps)
      ensures edeleted == old(edeleted)[e := true] && FlagsGrow(old(points.deleted), points.deleted)
      ensures old(edeleted[e]) ==> unchanged(this, points, points.base)
      ensures !old(edeleted[e]) ==>
                Records(links) == old(Bypassed(Records(links), e)) &&
                Vp() == old(ReleaseEnds(Vp(), Records(links), e)) &&
                edeleted == old(edeleted)[e := true] && deletedEdges == old(deletedEdges) + 1 && points.base.garbage
    {
      if edeleted[e] {
        assert edeleted == edeleted[e := true];
        return;
      }
      ghost var hp := Records(links);
      ghost var vp := Vp();
      var h0, h1 := HalfedgeOf(e, 0), HalfedgeOf(e, 1);
      var v0, next0, prev0 := Get(links.vertex, h0), Get(links.next, h0), Get(links.prev, h0);
      var v1, next1, prev1 := Get(links.vertex, h1), Get(links.next, h1), Get(links.prev, h1);
      links := SetNext(SetNext(links, prev0, next1), prev1, next0);
      assert Records(links) == Bypassed(hp, e);
      ReleaseEnd(v0, h1, next0);
      ReleaseEnd(v1, h0, next1);
      assert Vp() == ReleaseEnds(vp, hp, e);
      ReleaseEndsGrows(vp, hp, e);
      CountMark(edeleted, e);
      edeleted := edeleted[e := true];
      deletedEdges := deletedEdges + 1;
      points.base.SetGarbage();
    }

    /// `deleteVertex(v)`: every edge met rotating around v is deleted, then
    /// v itself; a deleted vertex is left alone.  The rotation must come
    /// back to its start and stay inside the records, or the circulator of
    /// the source would not stop or would read past the arrays.
    method DeleteVertex(v: Vertex)
      requires Valid() && v < |points.deleted| && RotationCloses(vconn, links, Ccw, v)
      requires var hs := Rotation(vconn, links, Ccw, v); forall k :: 0 <= k < |hs| ==> hs[k] < |links.next|
      modifies this, points, points.base
      ensures Valid() && points.point == old(points.point) && hmap == old(hmap) && points.vmap == old(points.vmap)
      ensures old(points.deleted[v]) ==> unchanged(this, points, points.base)
      ensures !old(points.deleted[v]) ==>
                points.deleted[v] && FlagsGrow(old(edeleted), edeleted) && FlagsGrow(old(points.deleted), points.deleted)
      ensures var hs := old(Rotation(vconn, links, Ccw, v));
              !old(points.deleted[v]) ==> forall k :: 0 <= k < |hs| ==> EdgeOf(hs[k]) < |edeleted| && edeleted[EdgeOf(hs[k])]
    {
      if points.deleted[v] {
        return;
      }
      ghost var hs := Rotation(vconn, links, Ccw, v);
      var es := CollectEdges(v);
      DeleteEdges(es);
      ghost var d1, ed1 := points.deleted, edeleted;
      assert forall k :: 0 <= k < |hs| ==> EdgeOf(hs[k]) < |ed1| && ed1[EdgeOf(hs[k])] by {
        forall k | 0 <= k < |hs| ensures EdgeOf(hs[k]) < |ed1| && ed1[EdgeOf(hs[k])] {
          assert es[k] == EdgeOf(hs[k]);
        }
      }
      points.DeleteVertex(v);
      assert edeleted == ed1;
      assert points.deleted == d1[v := true];
      FlagsGrowTrans(old(points.deleted), d1, points.deleted);
    }

    /// The deleting loop of `deleteVertex`: `deleteEdge` on each collected edge.
    method DeleteEdges(es: seq<Edge>)
      requires Valid() && forall k :: 0 <= k < |es| ==> es[k] < |edeleted|
      modifies this, points, points.base
      ensures Valid() && points.point == old(points.point) && hmap == old(hmap) && points.vmap == old(points.vmap)
      ensures FlagsGrow(old(edeleted), edeleted) && FlagsGrow(old(points.deleted), points.deleted)
      ensures AllFlagged(edeleted, es, |es|)
    {
      var i := 0;
      while i < |es|
        invariant i <= |es| && Valid() && points.point == old(points.point)
        invariant hmap == old(hmap) && points.vmap == old(points.vmap)
        invariant FlagsGrow(old(edeleted), edeleted) && FlagsGrow(old(points.deleted), points.deleted)
        invariant forall k :: 0 <= k < |es| ==> es[k] < |edeleted|
        invariant AllFlagged(edeleted, es, i)
      {
        ghost var ed1, d1 := edeleted, points.deleted;
        DeleteEdge(es[i]);
        assert edeleted == ed1[es[i] := true];
        FlagMore(ed1, es, i);
        FlagsGrowTrans(old(edeleted), ed1, edeleted);
        FlagsGrowTrans(old(points.deleted), d1, points.deleted);
        i := i + 1;
      }
    }

    /// The collecting loop of `deleteVertex`: the edge of each valid
    /// halfedge met by the counter-clockwise circulator around v.
    method CollectEdges(v: Vertex) returns (es: seq<Edge>)
      requires Valid() && RotationCloses(vconn, links, Ccw, v)
      requires var hs := Rotation(vconn, links, Ccw, v); forall k :: 0 <= k < |hs| ==> hs[k] < |links.next|
      ensures var hs := Rotation(vconn, links, Ccw, v);
              |es| == |hs| && forall k :: 0 <= k < |hs| ==> es[k] == EdgeOf(hs[k]) && es[k] < |edeleted|
    {
      es := [];
      var a := Get(vconn, v);
      if IsValid(a) {
        ghost var w := Rotation(vconn, links, Ccw, v);
        var h := a;
        WalkedRingStep(Records(links), Ccw, a, 0);
        while true
          invariant |es| < |w| && h == w[|es|]
          invariant forall k :: 0 <= k < |es| ==> es[k] == EdgeOf(w[k]) && es[k] < |edeleted|
          decreases |w| - |es|
        {
          WalkedRingStep(Records(links), Ccw, a, |es|);
          if IsValid(h) {
            es := es + [EdgeOf(h)];
          }
          h := Opposite(Get(links.prev, h));
          if h == a {
            return;
          }
        }
      }
    }

    /// `beginGarbage()`: the point-set stage compacts the vertices (the
    /// vertex connectivity riding along); the two-pointer loop over the edges
    /// exchanges edge slots and both halfedge slots of each pair, the map
    /// included; the outgoing halfedges of the surviving vertices and the
    /// targets and next links of the surviving halfedges are sent through the
    /// maps; the new halfedge and edge counts are stored.
    method BeginGarbage() returns (ghost p: MeshGarbage.Plan)
      requires Valid() && points.vmap.None? && hmap.None?
      modifies this, points, points.base
      ensures Valid() && points.vmap.Some? && hmap.Some?
      ensures Begun(old(Vp()), old(links), old(edeleted), p, Vp(), links, edeleted, points.vmap.value, hmap.value)
      ensures points.base.garbageProps ==
                old(points.base.garbageProps)[PointSets.VertexCountKey := p.nv][HalfedgeCountKey := 2 * p.ne][EdgeCountKey := p.ne]
      ensures points.deletedVertices == old(points.deletedVertices) && deletedEdges == old(deletedEdges)
      ensures points.base.garbage == old(points.base.garbage)
    {
      var vp := Vp();
      var sv, nv := points.BeginGarbage();
      var ne;
      p, ne := EdgeStage(vp, sv, nv);
      StoreCounts(ne);
    }

    /// The edge part of `beginGarbage()`, once the point-set stage has
    /// exchanged the vertex slots of vp by sv.
    method EdgeStage(vp: VertexProps, sv: seq<Transposition>, nv: nat) returns (ghost p: MeshGarbage.Plan, ne: nat)
      requires points.Valid() && vp.conn == vconn && |vp.point| == |vp.conn| == |vp.deleted|
      requires |links.vertex| == |links.next| == |links.prev| == 2 * |edeleted| && |links.next| < MaxIndex
      requires deletedEdges == Count(edeleted) && hmap.None?
      requires MeshGarbage.Compacts(vp.deleted, sv, nv)
      requires points.point == ApplySwaps(vp.point, sv) && points.deleted == ApplySwaps(vp.deleted, sv)
      requires points.vmap == Some(ApplySwaps(Identity(|vp.deleted|), sv))
      modifies this
      ensures Valid() && points.vmap.Some? && hmap.Some?
      ensures Begun(vp, old(links), old(edeleted), p, Vp(), links, edeleted, points.vmap.value, hmap.value)
      ensures p.sv == sv && p.nv == nv && p.ne == ne
      ensures deletedEdges == old(deletedEdges)
    {
      var conn, l, ed, hm, se;
      conn, l, ed, hm, se, ne := CompactEdges(vp, links, edeleted, sv, nv, points.vmap.value);
      p := MeshGarbage.Plan(sv, se, [], nv, ne, 0);
      Install(conn, l, ed, hm);
    }

    /// The compacted arrays take the place of the old ones; the map of
    /// halfedges is kept for the layers above.
    method Install(conn: seq<Halfedge>, l: Links, ed: seq<bool>, hm: seq<Halfedge>)
      requires points.Valid() && |conn| == |points.point| && Count(ed) == deletedEdges
      requires |l.vertex| == |l.next| == |l.prev| == 2 * |ed| == |hm| && |l.next| < MaxIndex
      modifies this
      ensures Valid() && vconn == conn && links == l && edeleted == ed && hmap == Some(hm)
      ensures deletedEdges == old(deletedEdges)
    {
      vconn, links, edeleted, hmap := conn, l, ed, Some(hm);
    }

    /// The two counts the edge stage leaves in the scratch map.
    method StoreCounts(ne: nat)
      modifies points.base
      ensures points.base.garbageProps == old(points.base.garbageProps)[HalfedgeCountKey := 2 * ne][EdgeCountKey := ne]
      ensures points.base.garbage == old(points.base.garbage)
    {
      points.base.Store(HalfedgeCountKey, 2 * ne);
      points.base.Store(EdgeCountKey, ne);
    }

    /// `finalizeGarbage()`: the halfedge map is removed, the halfedge and
    /// edge arrays are cut to the stored counts, no deleted edge is left, and
    /// the point-set stage cuts the vertex arrays (the vertex connectivity
    /// among them).  It runs after BeginGarbage, whose counts leave only
    /// survivors below them.
    method FinalizeGarbage()
      requires Valid()
      requires var g := points.base.garbageProps;
               var nh, ne := Lookup(g, HalfedgeCountKey), Lookup(g, EdgeCountKey);
               0 <= ne <= |edeleted| && nh == 2 * ne && forall k :: 0 <= k < ne ==> !edeleted[k]
      requires var nv := Lookup(points.base.garbageProps, PointSets.VertexCountKey);
               0 <= nv <= |points.deleted| && forall k :: 0 <= k < nv ==> !points.deleted[k]
      modifies this, points, points.base
      ensures Valid() && hmap == None && points.vmap == None && !points.base.garbage
      ensures deletedEdges == 0 && points.deletedVertices == 0
      ensures var g := old(points.base.garbageProps);
              var nh, ne, nv := Lookup(g, HalfedgeCountKey), Lookup(g, EdgeCountKey), Lookup(g, PointSets.VertexCountKey);
              links == Links(old(links.vertex)[..nh], old(links.next)[..nh], old(links.prev)[..nh]) &&
              edeleted == old(edeleted)[..ne] && vconn == old(vconn)[..nv] &&
              points.point == old(points.point)[..nv] && points.deleted == old(points.deleted)[..nv]
    {
      var nh, ne := FetchCounts();
      var nv := Lookup(points.base.garbageProps, PointSets.VertexCountKey);
      CutEdges(nh, ne, nv);
      points.FinalizeGarbage();
    }

    /// The two counts the edge stage reads back from the scratch map; the
    /// vertex count stays where it is.
    method FetchCounts() returns (nh: int, ne: int)
      modifies points.base
      ensures var g := old(points.base.garbageProps);
              nh == Lookup(g, HalfedgeCountKey) && ne == Lookup(g, EdgeCountKey) &&
              points.base.garbageProps == g[HalfedgeCountKey := nh][EdgeCountKey := ne] &&
              Lookup(points.base.garbageProps, PointSets.VertexCountKey) == Lookup(g, PointSets.VertexCountKey)
      ensures points.base.garbage == old(points.base.garbage)
    {
      KeysDistinct();
      nh := points.base.Fetch(HalfedgeCountKey);
      ne := points.base.Fetch(EdgeCountKey);
    }

    /// The halfedge and edge arrays cut to the stored counts (only survivors
    /// lie below them) and the vertex connectivity cut to the vertex count.
    method CutEdges(nh: int, ne: int, nv: int)
      requires 0 <= ne <= |edeleted| && nh == 2 * ne && forall k :: 0 <= k < ne ==> !edeleted[k]
      requires |links.vertex| == |links.next| == |links.prev| == 2 * |edeleted| && 0 <= nv <= |vconn|
      modifies this
      ensures links == Links(old(links.vertex)[..nh], old(links.next)[..nh], old(links.prev)[..nh])
      ensures edeleted == old(edeleted)[..ne] && vconn == old(vconn)[..nv]
      ensures hmap == None && deletedEdges == 0 == Count(edeleted)
    {
      hmap := None;
      links := Links(links.vertex[..nh], links.next[..nh], links.prev[..nh]);
      edeleted := edeleted[..ne];
      MeshGarbage.AllClear(edeleted);
      deletedEdges := 0;
      vconn := vconn[..nv];
    }

    /// `garbageCollection()` on an edge set: the scratch map is emptied and
    /// the two stages run.  The vertex, halfedge and edge records become
    /// those of a surface-mesh collection without faces for the exchanges
    /// the loops choose; nothing is deleted any more and the counts of live
    /// vertices and edges are kept.
    method GarbageCollection() returns (ghost p: MeshGarbage.Plan)
      requires Valid() && points.vmap.None? && hmap.None?
      modifies this, points, points.base
      ensures Valid() && Collects(old(Vp()), old(links), old(edeleted), p, Vp(), links, edeleted)
      ensures NVertices() == old(NVertices()) && NEdges() == old(NEdges())
      ensures deletedEdges == 0 && points.deletedVertices == 0 && !points.base.garbage
      ensures hmap == None && points.vmap == None
    {
      ghost var vp, l, ed := Vp(), links, edeleted;
      points.base.ClearGarbageProps();
      p := BeginGarbage();
      BegunCollects(vp, l, ed, p, Vp(), links, edeleted, points.vmap.value, hmap.value);
      StoredCounts(p.nv, p.ne);
      FinalizeGarbage();
    }

    /// `clear()`: no vertex and no edge, no deleted count, no garbage.
    method Clear()
      requires Valid()
      modifies this, points, points.base, points.base.oprops
      ensures Valid() && vconn == [] && links == Links([], [], []) && edeleted == [] && points.point == []
      ensures NVertices() == 0 && NEdges() == 0 && !points.base.garbage
      ensures hmap == (if old(hmap).Some? then Some([]) else None)
    {
      links, edeleted, deletedEdges := Links([], [], []), [], 0;
      if hmap.Some? {
        hmap := Some([]);
      }
      vconn := [];
      points.Clear();
    }

    /// `operator=`: a deep copy of every array of rhs (the maps included)
    /// and of its counts; copying an edge set onto itself changes nothing.
    method CopyFrom(rhs: EdgeSet)
      requires Valid() && rhs.Valid() && (rhs != this ==> rhs.points != points && rhs.points.base != points.base)
      modifies this, points, points.base, points.base.oprops
      ensures Valid()
      ensures rhs != this ==>
                vconn == old(rhs.vconn) && links == old(rhs.links) && edeleted == old(rhs.edeleted) &&
                hmap == old(rhs.hmap) && deletedEdges == old(rhs.deletedEdges) &&
                points.point == old(rhs.points.point) && points.deleted == old(rhs.points.deleted) &&
                points.vmap == old(rhs.points.vmap) && points.base.garbage == old(rhs.points.base.garbage)
      ensures rhs == this ==>
                vconn == old(vconn) && links == old(links) && edeleted == old(edeleted) && hmap == old(hmap) &&
                points.point == old(points.point) && points.deleted == old(points.deleted)
    {
      points.CopyFrom(rhs.points);
      if rhs != this {
        vconn, links, edeleted, hmap, deletedEdges := rhs.vconn, rhs.links, rhs.edeleted, rhs.hmap, rhs.deletedEdges;
      }
    }

    /// `assign(rhs)`: the positions, flags and connectivity of rhs and its
    /// counts are copied; no other array and no map survives.  Assigning an
    /// edge set to itself changes nothing.
    method Assign(rhs: EdgeSet)
      requires Valid() && rhs.Valid() && (rhs != this ==> rhs.points != points && rhs.points.base != points.base)
      modifies this, points, points.base, points.base.oprops
      ensures Valid()
      ensures rhs != this ==>
                vconn == old(rhs.vconn) && links == old(rhs.links) && edeleted == old(rhs.edeleted) &&
                hmap == None && deletedEdges == old(rhs.deletedEdges) && points.vmap == None &&
                points.point == old(rhs.points.point) && points.deleted == old(rhs.points.deleted)
      ensures rhs == this ==>
                vconn == old(vconn) && links == old(links) && edeleted == old(edeleted) && hmap == old(hmap) &&
                points.point == old(points.point) && points.deleted == old(points.deleted)
    {
      points.Assign(rhs.points);
      if rhs != this {
        vconn, links, edeleted, hmap, deletedEdges := rhs.vconn, rhs.links, rhs.edeleted, None, rhs.deletedEdges;
      }
    }
  }

  /// The records `beginGarbage()` leaves for plan p, started from the
  /// vertex records vp, the links l and the edge flags ed: the vertex and
  /// edge slots exchanged as the plan says (both halfedges of an edge riding
  /// along), vm and hm the vertex and halfedge maps, the outgoing halfedges
  /// of the surviving vertices and the targets and next links of the
  /// surviving halfedges sent through the maps.  No face is involved.
  predicate Begun(vp: VertexProps, l: Links, ed: seq<bool>, p: MeshGarbage.Plan,
                  vp': VertexProps, l': Links, ed': seq<bool>, vm: seq<Vertex>, hm: seq<Halfedge>)
  {
    MeshGarbage.Planned(vp, Records(l), ed, FaceProps([], []), p) && p.sf == [] && p.nf == 0 &&
    (PairBounds(p.se, |ed|);
     vm == MeshGarbage.VertexMap(vp, p) && hm == MeshGarbage.HalfedgeMap(Records(l), p) &&
     vp' == VertexProps(ApplySwaps(vp.point, p.sv),
                        MeshGarbage.RemappedValid(ApplySwaps(vp.conn, p.sv), hm, p.nv),
                        ApplySwaps(vp.deleted, p.sv)) &&
     l' == LinksOf(MeshGarbage.RemappedHalfedges(MeshGarbage.SwappedHalfedges(Records(l), p.se), vm, hm, [], 2 * p.ne)) &&
     ed' == ApplySwaps(ed, p.se))
  }

  /// Once `beginGarbage()` has run, the survivors fill the slots below the
  /// stored counts, the counts are those of the live elements, and cutting
  /// the arrays there gives the records of a surface-mesh collection
  /// without faces.
  lemma BegunCollects(vp: VertexProps, l: Links, ed: seq<bool>, p: MeshGarbage.Plan,
                      vp': VertexProps, l': Links, ed': seq<bool>, vm: seq<Vertex>, hm: seq<Halfedge>)
    requires Begun(vp, l, ed, p, vp', l', ed', vm, hm)
    ensures p.nv == |vp.deleted| - Count(vp.deleted) && p.ne == |ed| - Count(ed)
    ensures p.nv <= |vp'.deleted| && p.ne <= |ed'|
    ensures forall k :: 0 <= k < p.nv ==> !vp'.deleted[k]
    ensures forall k :: 0 <= k < p.ne ==> !ed'[k]
    ensures 2 * p.ne <= |l'.vertex| == |l'.next| == |l'.prev| && p.nv <= |vp'.point| == |vp'.conn|
    ensures Collects(vp, l, ed, p, VertexProps(vp'.point[..p.nv], vp'.conn[..p.nv], vp'.deleted[..p.nv]),
                     Links(l'.vertex[..2 * p.ne], l'.next[..2 * p.ne], l'.prev[..2 * p.ne]), ed'[..p.ne])
  {
  }

  /// The records a garbage collection of an edge set leaves, from vertex
  /// records vp, links l and edge flags ed, for plan p: those of a
  /// surface-mesh collection without faces.
  predicate Collects(vp: VertexProps, l: Links, ed: seq<bool>, p: MeshGarbage.Plan,
                     vp': VertexProps, l': Links, ed': seq<bool>)
  {
    MeshGarbage.Planned(vp, Records(l), ed, FaceProps([], []), p) && p.sf == [] && p.nf == 0 &&
    var c := MeshGarbage.Collected(vp, Records(l), ed, FaceProps([], []), p);
    vp' == c.0 && l' == LinksOf(c.1) && ed' == c.2
  }

  /// The counts `beginGarbage()` stores are read back under their keys.
  lemma StoredCounts(nv: nat, ne: nat)
    ensures var g := map[][PointSets.VertexCountKey := nv][HalfedgeCountKey := 2 * ne][EdgeCountKey := ne];
            Lookup(g, PointSets.VertexCountKey) == nv && Lookup(g, HalfedgeCountKey) == 2 * ne && Lookup(g, EdgeCountKey) == ne
  {
    KeysDistinct();
  }

  /// The three keys of the scratch map differ.
  lemma KeysDistinct()
    ensures PointSets.VertexCountKey != HalfedgeCountKey && PointSets.VertexCountKey != EdgeCountKey
    ensures HalfedgeCountKey != EdgeCountKey
  {
    assert PointSets.VertexCountKey[1] != HalfedgeCountKey[1] && PointSets.VertexCountKey[1] != EdgeCountKey[1];
    assert HalfedgeCountKey[1] != EdgeCountKey[1];
  }

  /// The edge part of `beginGarbage()` on the records, once the vertex stage
  /// has chosen the vertex exchanges sv (nv survivors, vm the vertex map):
  /// the two-pointer loop over the edge flags, the halfedge pairs riding
  /// along, then the remapping of the vertex connectivity and of the
  /// surviving halfedges.
  method CompactEdges(vp: VertexProps, l: Links, ed: seq<bool>, sv: seq<Transposition>, nv: nat, vm: seq<Vertex>)
    returns (conn': seq<Halfedge>, l': Links, ed': seq<bool>, hm: seq<Halfedge>, se: seq<Transposition>, ne: nat)
    requires |vp.point| == |vp.conn| == |vp.deleted| < MaxIndex
    requires |l.vertex| == |l.next| == |l.prev| == 2 * |ed| && |l.next| < MaxIndex
    requires MeshGarbage.Compacts(vp.deleted, sv, nv) && vm == ApplySwaps(Identity(|vp.deleted|), sv)
    ensures Begun(vp, l, ed, MeshGarbage.Plan(sv, se, [], nv, ne, 0),
                  VertexProps(ApplySwaps(vp.point, sv), conn', ApplySwaps(vp.deleted, sv)), l', ed', vm, hm)
    ensures |conn'| == |vp.conn| && Count(ed') == Count(ed)
    ensures |l'.vertex| == |l'.next| == |l'.prev| == |l.next| && |hm| == |l.next|
  {
    se, ne := TwoPointer(ed);
    ApplyMultiset(ed, se);
    PairBounds(se, |ed|);
    hm := ApplyPairSwaps(Identity(|l.next|), se);
    ed' := ApplySwaps(ed, se);
    conn' := MeshGarbage.RemapValid(ApplySwaps(vp.conn, sv), hm, nv);
    var hr := MeshGarbage.RemapHalfedges(MeshGarbage.SwappedHalfedges(Records(l), se), vm, hm, [], 2 * ne);
    l' := LinksOf(hr);
    EdgesBegun(vp, l, ed, MeshGarbage.Plan(sv, se, [], nv, ne, 0), conn', l', ed', vm, hm);
  }

  /// The two compactions, the maps and the remapped records make up the
  /// state `beginGarbage()` leaves.
  lemma EdgesBegun(vp: VertexProps, l: Links, ed: seq<bool>, p: MeshGarbage.Plan,
                   conn': seq<Halfedge>, l': Links, ed': seq<bool>, vm: seq<Vertex>, hm: seq<Halfedge>)
    requires |vp.point| == |vp.conn| == |vp.deleted| < MaxIndex
    requires |l.vertex| == |l.next| == |l.prev| == 2 * |ed| && |l.next| < MaxIndex
    requires MeshGarbage.Compacts(vp.deleted, p.sv, p.nv) && MeshGarbage.Compacts(ed, p.se, p.ne)
    requires p.sf == [] && p.nf == 0 && InPairBounds(p.se, |l.next|)
    requires vm == ApplySwaps(Identity(|vp.deleted|), p.sv) && hm == ApplyPairSwaps(Identity(|l.next|), p.se)
    requires conn' == MeshGarbage.RemappedValid(ApplySwaps(vp.conn, p.sv), hm, p.nv)
    requires l' == LinksOf(MeshGarbage.RemappedHalfedges(MeshGarbage.SwappedHalfedges(Records(l), p.se), vm, hm, [], 2 * p.ne))
    requires ed' == ApplySwaps(ed, p.se)
    ensures Begun(vp, l, ed, p, VertexProps(ApplySwaps(vp.point, p.sv), conn', ApplySwaps(vp.deleted, p.sv)), l', ed', vm, hm)
  {
    assert Count([]) == 0;
  }

  /// The first n edges of es are flagged deleted.
  predicate AllFlagged(ed: seq<bool>, es: seq<Edge>, n: nat)
  {
    n <= |es| && forall k :: 0 <= k < n ==> es[k] < |ed| && ed[es[k]]
  }

  lemma FlagMore(ed: seq<bool>, es: seq<Edge>, n: nat)
    requires AllFlagged(ed, es, n) && n < |es| && es[n] < |ed|
    ensures AllFlagged(ed[es[n] := true], es, n + 1)
  {
  }

  /// The halfedges of a new edge n are 2n and 2n + 1.
  lemma NewOpposite(n: nat)
    ensures Opposite(2 * n) == 2 * n + 1
  {
  }

  lemma FlagsGrowTrans(a: seq<bool>, b: seq<bool>, c: seq<bool>)
    requires FlagsGrow(a, b) && FlagsGrow(b, c)
    ensures FlagsGrow(a, c)
  {
  }

  /// Deleting an edge releases its ends: flags only grow.
  lemma ReleaseEndsGrows(vp: VertexProps, hp: HalfedgeProps, e: Edge)
    ensures FlagsGrow(vp.deleted, ReleaseEnds(vp, hp, e).deleted)
  {
    var h0, h1 := HalfedgeOf(e, 0), HalfedgeOf(e, 1);
    var vp1 := Release(vp, Get(hp.vertex, h0), h1, Get(hp.next, h0));
    ReleaseGrows(vp, Get(hp.vertex, h0), h1, Get(hp.next, h0));
    ReleaseGrows(vp1, Get(hp.vertex, h1), h0, Get(hp.next, h1));
  }
}
