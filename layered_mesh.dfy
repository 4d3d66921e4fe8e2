/// The face layer of the earlier kernel (SurfaceMesh.cpp, the `SurfaceMesh`
/// built on `EdgeSet`): the records are those of the halfedge mesh, and the
/// operations here are the ones whose behaviour differs from surface_mesh.cpp:
/// `addFace` reporting a topological error as an invalid face, the fan
/// `triangulate(Face)`, `deleteFace` deleting its edges through
/// `EdgeSet::deleteEdge`, and `deleteEdge` falling back to the edge set for an
/// edge without faces.  `valence(Face)` and the garbage collection (the point
/// set, edge set and face stages one after the other) do what
/// `HalfedgeMesh.SurfaceMesh.FaceValence` and `MeshGarbage` model: each stage
/// only exchanges its own slots and remaps through maps fixed beforehand.
module LayeredSurfaceMesh {
  import opened Handles
  import opened Wrappers
  import opened Compaction
  import opened HalfedgeMesh
  import opened EulerOperators
  import opened EdgeSplitting
  import FaceAddition
  import MeshGarbage

  // ---- triangulate(Face): the fan from the start of the face's halfedge

  /// One round of the loop of `triangulate(f)`: a new face g owns base b, the
  /// halfedge x after it, and the new halfedge from the target of x back to
  /// the start vertex s, linked in this order.
  function FanRound(hp: HalfedgeProps, b: Halfedge, x: Halfedge, s: Vertex, g: Face): (r: HalfedgeProps)
    requires SameLength(hp) && b < |hp.next| && x < |hp.next|
    ensures SameLength(r) && |r.next| == |hp.next| + 2
  {
    var n := |hp.next|;
    HalfedgeProps((hp.face + [g, Invalid])[b := g][x := g],
                  hp.vertex + [s, TargetOf(hp, x)],
                  (hp.next + [b, Invalid])[b := x][x := n],
                  (hp.prev + [x, Invalid])[x := b][b := n])
  }

  /// The base of round k: the face's own halfedge a first, then the twin of
  /// the halfedge the round before created (n0 being the halfedge count
  /// before the first round).
  function FanBase(a: Halfedge, n0: nat, k: nat): Halfedge
  {
    if k == 0 then a else n0 + 2 * k - 1
  }

  /// The records after k rounds along the face loop w, the new faces
  /// numbered from nf.
  function FanRounds(hp: HalfedgeProps, w: seq<Halfedge>, s: Vertex, nf: nat, k: nat): (r: HalfedgeProps)
    requires SameLength(hp) && k < |w| && forall i :: 0 <= i < |w| ==> w[i] < |hp.next|
    ensures SameLength(r) && |r.next| == |hp.next| + 2 * k
  {
    if k == 0 then hp
    else FanRound(FanRounds(hp, w, s, nf, k - 1), FanBase(w[0], |hp.next|, k - 1), w[k], s, nf + k - 1)
  }

  /// The records `triangulate(f)` leaves after k rounds along the loop w:
  /// the last base b is linked to w[k + 1] and to the halfedge after it,
  /// and b is given back to f.
  function FanClosed(hp: HalfedgeProps, w: seq<Halfedge>, s: Vertex, nf: nat, f: Face, k: nat): (r: HalfedgeProps)
    requires SameLength(hp) && k + 2 < |w| && forall i :: 0 <= i < |w| ==> w[i] < |hp.next|
    ensures SameLength(r) && |r.next| == |hp.next| + 2 * k
  {
    FanClose(FanRounds(hp, w, s, nf, k), FanBase(w[0], |hp.next|, k), w[k + 1], f)
  }

  /// The statements after the loop: f takes base b, which is linked before x
  /// and after the halfedge x now leads to.
  function FanClose(hp: HalfedgeProps, b: Halfedge, x: Halfedge, f: Face): (r: HalfedgeProps)
    requires SameLength(hp)
    ensures SameLength(r) && |r.next| == |hp.next|
  {
    var r1 := Link(hp, b, x);
    Reown(Link(r1, NextOf(r1, x), b), b, f)
  }

  /// The faces' halfedges stored by k rounds, one per new face.
  function FanAnchors(a: Halfedge, n0: nat, k: nat): (s: seq<Halfedge>)
    ensures |s| == k && forall i :: 0 <= i < k ==> s[i] == FanBase(a, n0, i)
  {
    seq(k, (i: int) requires 0 <= i < k => FanBase(a, n0, i))
  }

  /// The face records after the fan: n - 3 new faces storing their bases,
  /// and f storing the last base.
  function FanFaces(fp: FaceProps, a: Halfedge, n0: nat, f: Face, k: nat): FaceProps
  {
    var r := FanFacesAt(fp, a, n0, k);
    r.(conn := Put(r.conn, f, FanBase(a, n0, k)))
  }

  /// w is the closed next-loop of a face f: distinct halfedges, each the next
  /// of the one before, each with f on its left.
  predicate FaceCycle(hp: HalfedgeProps, w: seq<Halfedge>, f: Face)
  {
    |w| > 0 &&
    (forall i :: 0 <= i < |w| ==> w[i] < |hp.next| && FaceOf(hp, w[i]) == f) &&
    (forall i, j :: 0 <= i < j < |w| ==> w[i] != w[j]) &&
    (forall i :: 0 <= i < |w| - 1 ==> NextOf(hp, w[i]) == w[i + 1] && PrevOf(hp, w[i + 1]) == w[i]) &&
    NextOf(hp, w[|w| - 1]) == w[0] && PrevOf(hp, w[0]) == w[|w| - 1]
  }

  /// A round writes the links and faces of b, x and the new halfedge only.
  lemma FanRoundKeeps(hp: HalfedgeProps, b: Halfedge, x: Halfedge, s: Vertex, g: Face, y: Halfedge)
    requires SameLength(hp) && b < |hp.next| && x < |hp.next| && y != b && y != x && y < |hp.next|
    ensures LinksKept(hp, FanRound(hp, b, x, s, g), y)
  {
  }

  /// A round appends the targets of the new pair: s, then the target of x.
  lemma FanRoundTargets(hp: HalfedgeProps, b: Halfedge, x: Halfedge, s: Vertex, g: Face)
    requires SameLength(hp) && b < |hp.next| && x < |hp.next|
    ensures FanRound(hp, b, x, s, g).vertex == hp.vertex + [s, TargetOf(hp, x)]
  {
  }

  /// Round k leaves the halfedges of w after w[k] and the old targets as
  /// they were.
  lemma RoundKeepsLinks(hp: HalfedgeProps, r0: HalfedgeProps, w: seq<Halfedge>, s: Vertex, nf: nat, k: nat)
    requires SameLength(r0) && 0 < k < |w| && |hp.vertex| == |hp.next| && |r0.next| == |hp.next| + 2 * (k - 1)
    requires forall t :: 0 <= t < |w| ==> w[t] < |hp.next|
    requires forall t, u :: 0 <= t < u < |w| ==> w[t] != w[u]
    requires r0.vertex[..|hp.next|] == hp.vertex
    requires forall j :: k - 1 < j < |w| ==> LinksKept(hp, r0, w[j])
    ensures var r := FanRound(r0, FanBase(w[0], |hp.next|, k - 1), w[k], s, nf + k - 1);
            r.vertex[..|hp.next|] == hp.vertex &&
            forall j :: k < j < |w| ==> LinksKept(hp, r, w[j])
  {
    var b := FanBase(w[0], |hp.next|, k - 1);
    var r := FanRound(r0, b, w[k], s, nf + k - 1);
    forall j | k < j < |w| ensures LinksKept(hp, r, w[j]) {
      assert w[j] != b && w[j] != w[k];
      FanRoundKeeps(r0, b, w[k], s, nf + k - 1, w[j]);
    }
    FanRoundTargets(r0, b, w[k], s, nf + k - 1);
    assert r.vertex[..|hp.next|] == r0.vertex[..|hp.next|];
  }

  /// After k rounds the halfedges of w from index k + 1 on are untouched and
  /// every old target is kept.
  lemma {:induction false} FanRoundsKeep(hp: HalfedgeProps, w: seq<Halfedge>, s: Vertex, nf: nat, k: nat)
    requires SameLength(hp) && k < |w|
    requires forall i :: 0 <= i < |w| ==> w[i] < |hp.next|
    requires forall i, j :: 0 <= i < j < |w| ==> w[i] != w[j]
    ensures var r := FanRounds(hp, w, s, nf, k);
            r.vertex[..|hp.next|] == hp.vertex &&
            forall j :: k < j < |w| ==> LinksKept(hp, r, w[j])
  {
    if k > 0 {
      FanRoundsKeep(hp, w, s, nf, k - 1);
      RoundKeepsLinks(hp, FanRounds(hp, w, s, nf, k - 1), w, s, nf, k);
    } else {
      assert hp.vertex[..|hp.next|] == hp.vertex;
    }
  }

  /// The closing writes touch b, x and the halfedge after x only.
  lemma FanCloseKeeps(hp: HalfedgeProps, b: Halfedge, x: Halfedge, f: Face, y: Halfedge)
    requires SameLength(hp) && y != b && y != x && y != NextOf(hp, x) && y < |hp.next| && b != x
    ensures LinksKept(hp, FanClose(hp, b, x, f), y)
  {
  }

  /// A round closes the triangle of b, x and the new halfedge for face g.
  lemma FanRoundTriangle(hp: HalfedgeProps, b: Halfedge, x: Halfedge, s: Vertex, g: Face)
    requires SameLength(hp) && b < |hp.next| && x < |hp.next| && b != x && IsValid(g)
    ensures TriangleOf(FanRound(hp, b, x, s, g), b, x, |hp.next|, g)
  {
    var n := |hp.next|;
    var r := FanRound(hp, b, x, s, g);
    assert NextOf(r, b) == x && NextOf(r, x) == n && NextOf(r, n) == b;
    assert PrevOf(r, x) == b && PrevOf(r, n) == x && PrevOf(r, b) == n;
    assert FaceOf(r, b) == g && FaceOf(r, x) == g && FaceOf(r, n) == g;
  }

  /// A triangle none of whose halfedges a round touches survives the round.
  lemma TriangleThroughRound(hp: HalfedgeProps, b: Halfedge, x: Halfedge, s: Vertex, g: Face,
                             p: Halfedge, q: Halfedge, t: Halfedge, h: Face)
    requires SameLength(hp) && b < |hp.next| && x < |hp.next| && TriangleOf(hp, p, q, t, h)
    requires p != b && p != x && q != b && q != x && t != b && t != x
    ensures TriangleOf(FanRound(hp, b, x, s, g), p, q, t, h)
  {
    var r := FanRound(hp, b, x, s, g);
    FanRoundKeeps(hp, b, x, s, g, p);
    FanRoundKeeps(hp, b, x, s, g, q);
    FanRoundKeeps(hp, b, x, s, g, t);
  }

  /// A triangle none of whose halfedges the closing writes touch survives them.
  lemma TriangleThroughClose(hp: HalfedgeProps, b: Halfedge, x: Halfedge, f: Face,
                             p: Halfedge, q: Halfedge, t: Halfedge, h: Face)
    requires SameLength(hp) && TriangleOf(hp, p, q, t, h) && b != x
    requires p != b && p != x && q != b && q != x && t != b && t != x
    requires p != NextOf(hp, x) && q != NextOf(hp, x) && t != NextOf(hp, x)
    ensures TriangleOf(FanClose(hp, b, x, f), p, q, t, h)
  {
    FanCloseKeeps(hp, b, x, f, p);
    FanCloseKeeps(hp, b, x, f, q);
    FanCloseKeeps(hp, b, x, f, t);
  }

  /// The halfedges of the triangle of round i differ from the base of any
  /// later round and from the halfedges of w after w[i + 1], when every
  /// halfedge of w is older than the fan.
  lemma FanDistinct(w: seq<Halfedge>, n0: nat, i: nat, j: nat)
    requires i < j && i + 1 < |w|
    requires forall t :: 0 <= t < |w| ==> w[t] < n0
    requires forall t, u :: 0 <= t < u < |w| ==> w[t] != w[u]
    ensures var p, q, c, b := FanBase(w[0], n0, i), w[i + 1], n0 + 2 * i, FanBase(w[0], n0, j);
            p != b && q != b && c != b &&
            forall t :: i + 1 < t < |w| ==> p != w[t] && q != w[t] && c != w[t]
  {
  }

  /// One more round keeps the triangles of the rounds before it.
  lemma RoundKeepsTriangles(r0: HalfedgeProps, w: seq<Halfedge>, s: Vertex, nf: nat, n0: nat, k: nat)
    requires SameLength(r0) && 0 < k < |w| && |r0.next| == n0 + 2 * (k - 1)
    requires forall t :: 0 <= t < |w| ==> w[t] < n0
    requires forall t, u :: 0 <= t < u < |w| ==> w[t] != w[u]
    requires forall i :: 0 <= i < k - 1 ==> TriangleOf(r0, FanBase(w[0], n0, i), w[i + 1], n0 + 2 * i, nf + i)
    ensures forall i :: 0 <= i < k - 1 ==>
              TriangleOf(FanRound(r0, FanBase(w[0], n0, k - 1), w[k], s, nf + k - 1), FanBase(w[0], n0, i), w[i + 1], n0 + 2 * i, nf + i)
  {
    forall i | 0 <= i < k - 1
      ensures TriangleOf(FanRound(r0, FanBase(w[0], n0, k - 1), w[k], s, nf + k - 1), FanBase(w[0], n0, i), w[i + 1], n0 + 2 * i, nf + i)
    {
      FanDistinct(w, n0, i, k - 1);
      TriangleThroughRound(r0, FanBase(w[0], n0, k - 1), w[k], s, nf + k - 1, FanBase(w[0], n0, i), w[i + 1], n0 + 2 * i, nf + i);
    }
  }

  /// One more round keeps the triangles of the rounds before and adds its own.
  lemma RoundTriangles(r0: HalfedgeProps, w: seq<Halfedge>, s: Vertex, nf: nat, n0: nat, k: nat)
    requires SameLength(r0) && 0 < k < |w| && |r0.next| == n0 + 2 * (k - 1) && nf + k < MaxIndex
    requires forall t :: 0 <= t < |w| ==> w[t] < n0
    requires forall t, u :: 0 <= t < u < |w| ==> w[t] != w[u]
    requires forall i :: 0 <= i < k - 1 ==> TriangleOf(r0, FanBase(w[0], n0, i), w[i + 1], n0 + 2 * i, nf + i)
    ensures forall i :: 0 <= i < k ==>
              TriangleOf(FanRound(r0, FanBase(w[0], n0, k - 1), w[k], s, nf + k - 1), FanBase(w[0], n0, i), w[i + 1], n0 + 2 * i, nf + i)
  {
    FanRoundTriangle(r0, FanBase(w[0], n0, k - 1), w[k], s, nf + k - 1);
    RoundKeepsTriangles(r0, w, s, nf, n0, k);
  }

  /// After k rounds, round i has left the triangle of its base, w[i + 1] and
  /// its new halfedge, for face nf + i.
  lemma {:induction false} FanRoundsTriangles(hp: HalfedgeProps, w: seq<Halfedge>, s: Vertex, nf: nat, k: nat)
    requires SameLength(hp) && k < |w| && nf + k < MaxIndex
    requires forall i :: 0 <= i < |w| ==> w[i] < |hp.next|
    requires forall i, j :: 0 <= i < j < |w| ==> w[i] != w[j]
    ensures forall i :: 0 <= i < k ==>
              TriangleOf(FanRounds(hp, w, s, nf, k), FanBase(w[0], |hp.next|, i), w[i + 1], |hp.next| + 2 * i, nf + i)
  {
    if k > 0 {
      FanRoundsTriangles(hp, w, s, nf, k - 1);
      RoundTriangles(FanRounds(hp, w, s, nf, k - 1), w, s, nf, |hp.next|, k);
    }
  }

  /// The closing writes keep the triangles of the rounds and make the last
  /// base, w[k + 1] and w[k + 2] the triangle of f.
  lemma CloseTriangles(r0: HalfedgeProps, w: seq<Halfedge>, nf: nat, n0: nat, f: Face, k: nat)
    requires SameLength(r0) && k + 2 < |w| && |r0.next| == n0 + 2 * k && IsValid(f)
    requires forall t :: 0 <= t < |w| ==> w[t] < n0
    requires forall t, u :: 0 <= t < u < |w| ==> w[t] != w[u]
    requires forall i :: 0 <= i < k ==> TriangleOf(r0, FanBase(w[0], n0, i), w[i + 1], n0 + 2 * i, nf + i)
    requires NextOf(r0, w[k + 1]) == w[k + 2] && PrevOf(r0, w[k + 2]) == w[k + 1] &&
             FaceOf(r0, w[k + 1]) == f && FaceOf(r0, w[k + 2]) == f
    ensures var r := FanClose(r0, FanBase(w[0], n0, k), w[k + 1], f);
            (forall i :: 0 <= i < k ==> TriangleOf(r, FanBase(w[0], n0, i), w[i + 1], n0 + 2 * i, nf + i)) &&
            TriangleOf(r, FanBase(w[0], n0, k), w[k + 1], w[k + 2], f)
  {
    var b := FanBase(w[0], n0, k);
    var r := FanClose(r0, b, w[k + 1], f);
    assert b < |r0.next| && b != w[k + 1] && b != w[k + 2];
    var r1 := Link(r0, b, w[k + 1]);
    assert NextOf(r1, w[k + 1]) == w[k + 2];
    assert NextOf(r, b) == w[k + 1] && NextOf(r, w[k + 1]) == w[k + 2] && NextOf(r, w[k + 2]) == b;
    assert PrevOf(r, w[k + 1]) == b && PrevOf(r, w[k + 2]) == w[k + 1] && PrevOf(r, b) == w[k + 2];
    assert FaceOf(r, b) == f && FaceOf(r, w[k + 1]) == f && FaceOf(r, w[k + 2]) == f;
    forall i | 0 <= i < k ensures TriangleOf(r, FanBase(w[0], n0, i), w[i + 1], n0 + 2 * i, nf + i) {
      FanDistinct(w, n0, i, k);
      TriangleThroughClose(r0, b, w[k + 1], f, FanBase(w[0], n0, i), w[i + 1], n0 + 2 * i, nf + i);
    }
  }

  /// Round i of a fan has left the triangle of its base, w[i + 1] and its
  /// new halfedge n0 + 2i, for face nf + i, for every i < k.
  predicate FanTriangles(hp: HalfedgeProps, w: seq<Halfedge>, n0: nat, nf: nat, k: nat)
    requires k < |w|
  {
    forall i :: 0 <= i < k ==> TriangleOf(hp, FanBase(w[0], n0, i), w[i + 1], n0 + 2 * i, nf + i)
  }

  /// The fan of k rounds on a face cycle w of f, closed: k new triangles,
  /// then f itself as the triangle of the last base, w[k + 1] and w[k + 2].
  lemma FanClosedTriangles(hp: HalfedgeProps, w: seq<Halfedge>, s: Vertex, nf: nat, f: Face, k: nat)
    requires SameLength(hp) && k + 2 < |w| && FaceCycle(hp, w, f) && IsValid(f) && nf + k < MaxIndex
    ensures var r, n0 := FanClosed(hp, w, s, nf, f, k), |hp.next|;
            FanTriangles(r, w, n0, nf, k) && TriangleOf(r, FanBase(w[0], n0, k), w[k + 1], w[k + 2], f)
  {
    var r0 := FanRounds(hp, w, s, nf, k);
    FanRoundsTriangles(hp, w, s, nf, k);
    FanRoundsKeep(hp, w, s, nf, k);
    assert LinksKept(hp, r0, w[k + 1]) && LinksKept(hp, r0, w[k + 2]);
    CloseTriangles(r0, w, nf, |hp.next|, f, k);
  }

  /// The face loop from a halfedge of a triangle is the triangle.
  lemma TriangleWalk(hp: HalfedgeProps, a: Halfedge, b: Halfedge, c: Halfedge, g: Face)
    requires TriangleOf(hp, a, b, c, g) && a != b && b != c && a != c
    ensures Walked(hp, NextStep, a, a, |hp.next| + 1) == [a, b, c]
  {
    var n := |hp.next|;
    assert n >= 3;
    assert Walked(hp, NextStep, a, c, n - 1) == [c];
    assert Walked(hp, NextStep, a, b, n) == [b, c];
  }

  /// The first index from j on at which the loop w comes back to s, or |w|.
  function FirstReturn(hp: HalfedgeProps, w: seq<Halfedge>, s: Vertex, j: nat): (e: nat)
    requires j <= |w|
    ensures j <= e <= |w|
    ensures e < |w| ==> TargetOf(hp, w[e]) == s
    ensures forall t :: j <= t < e ==> TargetOf(hp, w[t]) != s
    decreases |w| - j
  {
    if j == |w| then |w|
    else if TargetOf(hp, w[j]) == s then j
    else FirstReturn(hp, w, s, j + 1)
  }

  /// The body of the loop of `triangulate(f)`: a new face for base b, a new
  /// edge from the target of x back to s, and the triangle of the three.
  method FanStep(m: SurfaceMesh, b: Halfedge, x: Halfedge, s: Vertex) returns (newH: Halfedge)
    requires m.Valid() && b < |m.hprops.next| && x < |m.hprops.next| && m.ToVertex(x) != s
    requires |m.hprops.next| < MaxIndex - 2 && |m.fprops.conn| < MaxIndex - 1
    modifies m`hprops, m`fprops, m`edeleted
    ensures m.Valid() && newH == old(|m.hprops.next|) && Opposite(newH) == newH + 1
    ensures m.hprops == FanRound(old(m.hprops), b, x, s, old(|m.fprops.conn|))
    ensures m.fprops == FaceProps(old(m.fprops.conn) + [b], old(m.fprops.deleted) + [false])
    ensures m.edeleted == old(m.edeleted) + [false]
  {
    ghost var hp, n := m.hprops, |m.hprops.next|;
    var nf := m.NewFace();
    var g := nf.value;
    m.SetFaceHalfedge(g, b);
    var e := m.NewEdgeBetween(m.ToVertex(x), s);
    newH := e.value;
    assert m.hprops == AppendPair(hp, TargetOf(hp, x), s);
    m.SetNextHalfedge(b, x);
    m.SetNextHalfedge(x, newH);
    m.SetNextHalfedge(newH, b);
    m.SetFace(b, g);
    m.SetFace(x, g);
    m.SetFace(newH, g);
    assert m.hprops.next == (hp.next + [b, Invalid])[b := x][x := n];
    assert m.hprops.prev == (hp.prev + [x, Invalid])[x := b][b := n];
    assert m.hprops.face == (hp.face + [g, Invalid])[b := g][x := g];
  }

  /// The face records after k rounds: the old ones and one face per round
  /// storing the round's base.
  function FanFacesAt(fp: FaceProps, a: Halfedge, n0: nat, k: nat): FaceProps
  {
    FaceProps(fp.conn + FanAnchors(a, n0, k), fp.deleted + FaceAddition.Falses(k))
  }

  /// The face records gain one face per round.
  lemma FanFacesStep(fp: FaceProps, a: Halfedge, n0: nat, k: nat)
    ensures var r := FanFacesAt(fp, a, n0, k);
            FaceProps(r.conn + [FanBase(a, n0, k)], r.deleted + [false]) == FanFacesAt(fp, a, n0, k + 1)
  {
    assert FanAnchors(a, n0, k) + [FanBase(a, n0, k)] == FanAnchors(a, n0, k + 1);
    assert FaceAddition.Falses(k) + [false] == FaceAddition.Falses(k + 1);
  }

  /// The edge flags gain one unflagged edge per round.
  lemma FalsesStep(d: seq<bool>, k: nat)
    ensures (d + FaceAddition.Falses(k)) + [false] == d + FaceAddition.Falses(k + 1)
  {
    assert FaceAddition.Falses(k) + [false] == FaceAddition.Falses(k + 1);
  }

  /// What the loop reads after k rounds: the link out of w[k + 1] and the
  /// targets of w[k + 1] and w[k + 2] are the original ones.
  lemma FanRoundsRead(hp: HalfedgeProps, w: seq<Halfedge>, s: Vertex, nf: nat, k: nat)
    requires SameLength(hp) && k + 2 < |w|
    requires forall i :: 0 <= i < |w| ==> w[i] < |hp.next|
    requires forall i, j :: 0 <= i < j < |w| ==> w[i] != w[j]
    ensures var r := FanRounds(hp, w, s, nf, k);
            NextOf(r, w[k + 1]) == NextOf(hp, w[k + 1]) &&
            TargetOf(r, w[k + 1]) == TargetOf(hp, w[k + 1]) && TargetOf(r, w[k + 2]) == TargetOf(hp, w[k + 2])
  {
    FanRoundsKeep(hp, w, s, nf, k);
    var r := FanRounds(hp, w, s, nf, k);
    assert r.vertex[w[k + 1]] == r.vertex[..|hp.next|][w[k + 1]];
    assert r.vertex[w[k + 2]] == r.vertex[..|hp.next|][w[k + 2]];
  }

  /// The state of `triangulate(f)` after k rounds along w from records hp0,
  /// fp0 and flags ed0: base b, current halfedge x and the records.
  ghost predicate FanAt(hp: HalfedgeProps, fp: FaceProps, ed: seq<bool>, hp0: HalfedgeProps, fp0: FaceProps, ed0: seq<bool>,
                        w: seq<Halfedge>, s: Vertex, k: nat, b: Halfedge, x: Halfedge)
  {
    SameLength(hp0) && k + 1 < |w| && (forall i :: 0 <= i < |w| ==> w[i] < |hp0.next|) &&
    b == FanBase(w[0], |hp0.next|, k) && x == w[k + 1] &&
    hp == FanRounds(hp0, w, s, |fp0.conn|, k) && fp == FanFacesAt(fp0, w[0], |hp0.next|, k) &&
    ed == ed0 + FaceAddition.Falses(k)
  }

  /// The loop test after k rounds: when the halfedge after w[k + 1] does
  /// not end at s, round k is not the last one and w[k + 1] does not end at
  /// s either.
  lemma FanGuard(hp0: HalfedgeProps, w: seq<Halfedge>, s: Vertex, nf: nat, k: nat)
    requires SameLength(hp0) && |w| >= 3 && FaceCycle(hp0, w, FaceOf(hp0, w[0])) && TargetOf(hp0, w[1]) != s
    requires k + 2 <= FirstReturn(hp0, w, s, 2) < |w|
    requires var r := FanRounds(hp0, w, s, nf, k); TargetOf(r, NextOf(r, w[k + 1])) != s
    ensures k + 3 <= FirstReturn(hp0, w, s, 2)
    ensures var r := FanRounds(hp0, w, s, nf, k); TargetOf(r, w[k + 1]) != s && NextOf(r, w[k + 1]) == w[k + 2]
  {
    FanRoundsRead(hp0, w, s, nf, k);
    assert TargetOf(hp0, w[k + 2]) != s;
    assert k + 1 == 1 || TargetOf(hp0, w[k + 1]) != s;
  }

  /// One round of the loop, taken while the halfedge after x does not end
  /// at s.
  method FanRoundOn(m: SurfaceMesh, ghost w: seq<Halfedge>, ghost hp0: HalfedgeProps, ghost fp0: FaceProps, ghost ed0: seq<bool>,
                    s: Vertex, b: Halfedge, x: Halfedge, ghost k: nat) returns (b': Halfedge, x': Halfedge)
    requires m.Valid() && |w| >= 3 && FaceCycle(hp0, w, FaceOf(hp0, w[0])) && TargetOf(hp0, w[1]) != s
    requires k + 2 <= FirstReturn(hp0, w, s, 2) < |w|
    requires |hp0.next| + 2 * (FirstReturn(hp0, w, s, 2) - 2) < MaxIndex - 1
    requires |fp0.conn| + FirstReturn(hp0, w, s, 2) - 2 < MaxIndex - 1
    requires FanAt(m.hprops, m.fprops, m.edeleted, hp0, fp0, ed0, w, s, k, b, x)
    requires m.ToVertex(m.Next(x)) != s
    modifies m`hprops, m`fprops, m`edeleted
    ensures m.Valid() && k + 3 <= FirstReturn(hp0, w, s, 2)
    ensures FanAt(m.hprops, m.fprops, m.edeleted, hp0, fp0, ed0, w, s, k + 1, b', x')
  {
    ghost var n0, nf0 := |hp0.next|, |fp0.conn|;
    FanGuard(hp0, w, s, nf0, k);
    var nextNextH := m.Next(x);
    var newH := FanStep(m, b, x, s);
    assert m.hprops == FanRounds(hp0, w, s, nf0, k + 1);
    FanFacesStep(fp0, w[0], n0, k);
    FalsesStep(ed0, k);
    b' := Opposite(newH);
    x' := nextNextH;
  }

  /// The loop of `triangulate(f)` along the next-loop w of f, from base
  /// w[0] and start vertex s: it stops after k = K - 2 rounds, K being the
  /// first index from 2 on whose halfedge ends at s.
  method FanLoop(m: SurfaceMesh, ghost w: seq<Halfedge>, a: Halfedge, s: Vertex) returns (baseH: Halfedge, nextH: Halfedge, ghost k: nat)
    requires m.Valid() && |w| >= 3 && a == w[0] && FaceCycle(m.hprops, w, m.FaceOf(w[0]))
    requires m.ToVertex(w[|w| - 1]) == s && m.ToVertex(w[1]) != s
    requires var k := FirstReturn(m.hprops, w, s, 2) - 2;
             |m.hprops.next| + 2 * k < MaxIndex - 1 && |m.fprops.conn| + k < MaxIndex - 1
    modifies m`hprops, m`fprops, m`edeleted
    ensures m.Valid() && k == FirstReturn(old(m.hprops), w, s, 2) - 2
    ensures FanAt(m.hprops, m.fprops, m.edeleted, old(m.hprops), old(m.fprops), old(m.edeleted), w, s, k, baseH, nextH)
  {
    ghost var hp0, fp0, ed0 := m.hprops, m.fprops, m.edeleted;
    baseH := a;
    nextH := m.Next(a);
    ghost var K := FirstReturn(hp0, w, s, 2);
    k := 0;
    assert K < |w|;
    assert FanFacesAt(fp0, w[0], |hp0.next|, 0) == fp0;
    while m.ToVertex(m.Next(nextH)) != s
      invariant k + 2 <= K && m.Valid()
      invariant FanAt(m.hprops, m.fprops, m.edeleted, hp0, fp0, ed0, w, s, k, baseH, nextH)
      decreases K - k
    {
      baseH, nextH := FanRoundOn(m, w, hp0, fp0, ed0, s, baseH, nextH, k);
      k := k + 1;
    }
    FanRoundsRead(hp0, w, s, |fp0.conn|, k);
  }

  /// The statements after the loop: f stores the last base b, which is
  /// linked before x and after the halfedge x leads to, and b joins f.
  method FanCloseUp(m: SurfaceMesh, f: Face, b: Halfedge, x: Halfedge)
    requires SameLength(m.hprops)
    modifies m`hprops, m`fprops
    ensures m.hprops == FanClose(old(m.hprops), b, x, f)
    ensures m.fprops == old(m.fprops).(conn := Put(old(m.fprops.conn), f, b))
  {
    m.SetFaceHalfedge(f, b);
    m.SetNextHalfedge(b, x);
    m.SetNextHalfedge(m.Next(x), b);
    m.SetFace(b, f);
  }

  /// `triangulate(f)` along the next-loop w of f.
  method FanAlong(m: SurfaceMesh, f: Face, ghost w: seq<Halfedge>)
    requires m.Valid() && m.IsValidFace(f) && |w| >= 3 && w[0] == m.FaceHalfedge(f) && FaceCycle(m.hprops, w, f)
    requires m.ToVertex(w[|w| - 1]) == m.FromVertex(w[0]) && m.ToVertex(w[1]) != m.FromVertex(w[0])
    requires var k := FirstReturn(m.hprops, w, m.FromVertex(w[0]), 2) - 2;
             |m.hprops.next| + 2 * k < MaxIndex - 1 && |m.fprops.conn| + k < MaxIndex - 1
    modifies m`hprops, m`fprops, m`edeleted
    ensures m.Valid() && m.vprops == old(m.vprops)
    ensures var s, n0, nf := old(m.FromVertex(w[0])), old(|m.hprops.next|), old(|m.fprops.conn|);
            var k := FirstReturn(old(m.hprops), w, s, 2) - 2;
            m.hprops == FanClosed(old(m.hprops), w, s, nf, f, k) &&
            m.fprops == FanFaces(old(m.fprops), w[0], n0, f, k) &&
            m.edeleted == old(m.edeleted) + FaceAddition.Falses(k)
  {
    ghost var hp0, fp0 := m.hprops, m.fprops;
    var baseH := m.FaceHalfedge(f);
    var startV := m.FromVertex(baseH);
    var b, x, k := FanLoop(m, w, baseH, startV);
    assert m.hprops == FanRounds(hp0, w, startV, |fp0.conn|, k) && b == FanBase(w[0], |hp0.next|, k) && x == w[k + 1];
    FanCloseUp(m, f, b, x);
    assert m.hprops == FanClosed(hp0, w, startV, |fp0.conn|, f, k);
  }

  /// The face records of a fan of k rounds from a, over nf faces before it:
  /// k new live faces, round i's storing its base, and f storing the last.
  predicate FanStored(fp: FaceProps, a: Halfedge, n0: nat, nf: nat, f: Face, k: nat)
  {
    f < nf && |fp.conn| == nf + k && |fp.deleted| == nf + k &&
    (forall i :: 0 <= i < k ==> fp.conn[nf + i] == FanBase(a, n0, i) && !fp.deleted[nf + i]) &&
    fp.conn[f] == FanBase(a, n0, k)
  }

  /// The face records after the fan: k new faces, round i's storing its
  /// base, f storing the last base, every other face and every flag kept.
  lemma FanFacesStored(fp: FaceProps, a: Halfedge, n0: nat, f: Face, k: nat)
    requires f < |fp.conn| == |fp.deleted|
    ensures var r := FanFaces(fp, a, n0, f, k);
            FanStored(r, a, n0, |fp.conn|, f, k) && r.deleted == fp.deleted + FaceAddition.Falses(k) &&
            forall g :: 0 <= g < |fp.conn| && g != f ==> r.conn[g] == fp.conn[g]
  {
    var r := FanFaces(fp, a, n0, f, k);
    forall i | 0 <= i < k ensures r.conn[|fp.conn| + i] == FanBase(a, n0, i) && !r.deleted[|fp.conn| + i] {
      assert (fp.conn + FanAnchors(a, n0, k))[|fp.conn| + i] == FanAnchors(a, n0, k)[i];
      assert r.deleted[|fp.conn| + i] == FaceAddition.Falses(k)[i];
    }
  }

  /// A triangle of three distinct halfedges is the loop of next halfedges
  /// from its first one.
  lemma TriangleLoop(m: SurfaceMesh, a: Halfedge, b: Halfedge, c: Halfedge, g: Face)
    requires TriangleOf(m.hprops, a, b, c, g) && a != b && b != c && a != c
    ensures m.Ring(NextStep, a) == [a, b, c]
  {
    m.WalkIsWalked(NextStep, a, a, |m.hprops.next| + 1);
    TriangleWalk(m.hprops, a, b, c, g);
  }

  /// What the fan of k rounds over the face loop w of f leaves: k new live
  /// faces nf + i, each storing its base and being the triangle of that
  /// base, w[i + 1] and the new halfedge n0 + 2i; and f storing the last
  /// base and being the triangle of that base, w[k + 1] and w[k + 2].
  ghost predicate Fanned(hp: HalfedgeProps, fp: FaceProps, w: seq<Halfedge>, n0: nat, nf: nat, f: Face, k: nat)
  {
    k + 2 < |w| && FanStored(fp, w[0], n0, nf, f, k) && FanTriangles(hp, w, n0, nf, k) &&
    TriangleOf(hp, FanBase(w[0], n0, k), w[k + 1], w[k + 2], f)
  }

  /// The records the closed fan computes are Fanned.
  lemma FanClosedFanned(hp: HalfedgeProps, fp: FaceProps, w: seq<Halfedge>, s: Vertex, f: Face, k: nat)
    requires SameLength(hp) && k + 2 < |w| && FaceCycle(hp, w, f) && IsValid(f)
    requires f < |fp.conn| == |fp.deleted| && |fp.conn| + k < MaxIndex
    ensures Fanned(FanClosed(hp, w, s, |fp.conn|, f, k), FanFaces(fp, w[0], |hp.next|, f, k), w, |hp.next|, |fp.conn|, f, k)
  {
    var nf, n0 := |fp.conn|, |hp.next|;
    FanClosedTriangles(hp, w, s, nf, f, k);
    FanFacesStored(fp, w[0], n0, f, k);
  }

  /// The faces a fan leaves as three-halfedge next-loops: each new face
  /// nf + i the loop of its base, w[i + 1] and n0 + 2i, and f the loop of
  /// the last base, w[k + 1] and w[k + 2].
  ghost predicate FanLoops(m: SurfaceMesh, w: seq<Halfedge>, n0: nat, nf: nat, f: Face, k: nat)
    requires k + 2 < |w|
    reads m
  {
    (forall i :: 0 <= i < k ==> m.FaceLoop(nf + i) == [FanBase(w[0], n0, i), w[i + 1], n0 + 2 * i]) &&
    m.FaceLoop(f) == [FanBase(w[0], n0, k), w[k + 1], w[k + 2]]
  }

  /// The faces a fan leaves have three-halfedge next-loops.
  lemma FanFaceLoops(m: SurfaceMesh, w: seq<Halfedge>, n0: nat, nf: nat, f: Face, k: nat)
    requires Fanned(m.hprops, m.fprops, w, n0, nf, f, k)
    requires (forall t :: 0 <= t < |w| ==> w[t] < n0) && forall t, u :: 0 <= t < u < |w| ==> w[t] != w[u]
    ensures FanLoops(m, w, n0, nf, f, k)
  {
    forall i | 0 <= i < k
      ensures m.FaceLoop(nf + i) == [FanBase(w[0], n0, i), w[i + 1], n0 + 2 * i]
    {
      assert m.FaceHalfedge(nf + i) == FanBase(w[0], n0, i);
      TriangleLoop(m, FanBase(w[0], n0, i), w[i + 1], n0 + 2 * i, nf + i);
    }
    assert m.FaceHalfedge(f) == FanBase(w[0], n0, k);
    TriangleLoop(m, FanBase(w[0], n0, k), w[k + 1], w[k + 2], f);
  }

  /// `triangulate(f)` on a face whose next-loop w is consistent and whose
  /// second halfedge does not come back to the start vertex s: the fan runs
  /// until the halfedge after the current one ends at s, that is for k =
  /// K - 2 rounds where K is the first index from 2 on that ends at s.  Round
  /// i makes the triangle of its base, w[i + 1] and a new halfedge the new
  /// face nf + i, and f is left as the triangle of the last base, w[K - 1]
  /// and w[K].
  method Triangulate(m: SurfaceMesh, f: Face)
    requires m.Valid() && m.IsValidFace(f)
    requires var w := m.FaceLoop(f);
             |w| >= 3 && FaceCycle(m.hprops, w, f) &&
             m.ToVertex(w[|w| - 1]) == m.FromVertex(w[0]) && m.ToVertex(w[1]) != m.FromVertex(w[0])
    requires var w := m.FaceLoop(f);
             var k := FirstReturn(m.hprops, w, m.FromVertex(w[0]), 2) - 2;
             |m.hprops.next| + 2 * k < MaxIndex - 1 && |m.fprops.conn| + k < MaxIndex - 1
    modifies m`hprops, m`fprops, m`edeleted
    ensures m.Valid() && m.vprops == old(m.vprops)
    ensures var w, n0, nf := old(m.FaceLoop(f)), old(|m.hprops.next|), old(|m.fprops.conn|);
            var s := old(m.FromVertex(w[0]));
            var k := FirstReturn(old(m.hprops), w, s, 2) - 2;
            m.hprops == FanClosed(old(m.hprops), w, s, nf, f, k) &&
            m.fprops == FanFaces(old(m.fprops), w[0], n0, f, k) &&
            m.edeleted == old(m.edeleted) + FaceAddition.Falses(k)
    ensures var w, n0, nf := old(m.FaceLoop(f)), old(|m.hprops.next|), old(|m.fprops.conn|);
            var k := FirstReturn(old(m.hprops), w, old(m.FromVertex(w[0])), 2) - 2;
            Fanned(m.hprops, m.fprops, w, n0, nf, f, k)
    ensures var w, n0, nf := old(m.FaceLoop(f)), old(|m.hprops.next|), old(|m.fprops.conn|);
            var k := FirstReturn(old(m.hprops), w, old(m.FromVertex(w[0])), 2) - 2;
            FanLoops(m, w, n0, nf, f, k)
  {
    ghost var w, hp0, fp0 := m.FaceLoop(f), m.hprops, m.fprops;
    ghost var n0, nf := |m.hprops.next|, |m.fprops.conn|;
    ghost var s := m.FromVertex(w[0]);
    ghost var k := FirstReturn(hp0, w, s, 2) - 2;
    FanAlong(m, f, w);
    FanClosedFanned(hp0, fp0, w, s, f, k);
    FanFaceLoops(m, w, n0, nf, f, k);
  }

  // ---- addFace: a rejected face is the invalid face

  /// `addFace(vertices)`: the tests and the construction of add_face, with a
  /// topological error reported by returning the invalid face (the mesh is
  /// then unchanged) instead of by an exception.  At the index limit the
  /// earlier kernel's `newEdge` and `newFace` hand out invalid handles that
  /// the construction goes on writing through; the model stops there and
  /// returns the invalid face, leaving the edges already created.
  method AddFace(m: SurfaceMesh, vs: seq<Vertex>) returns (f: Face, ghost hs: seq<Halfedge>)
    requires m.Valid() && m.InRange() && m.Counted() && FaceAddition.Admissible(m, vs)
    modifies m`vprops, m`hprops, m`edeleted, m`fprops
    ensures m.Valid() && m.InRange() && m.Counted()
    ensures old(FaceAddition.Rejected(m, vs)) ==> f == Invalid && unchanged(m)
    ensures f == Invalid <==>
              old(FaceAddition.Rejected(m, vs)) ||
              old(|m.hprops.next|) + 2 * FaceAddition.Missing(old(FaceAddition.FoundAll(m, vs, |vs|)), |vs|) >= MaxIndex ||
              old(|m.fprops.conn|) == MaxIndex - 1
    ensures IsValid(f) ==> f == old(|m.fprops.conn|) && m.fprops.deleted == old(m.fprops.deleted) + [false] &&
                           |hs| == |vs| && m.FaceHalfedge(f) == hs[|hs| - 1]
    ensures IsValid(f) ==> forall i :: 0 <= i < |vs| ==> hs[i] < |m.hprops.next| && m.ToVertex(hs[i]) == vs[FaceAddition.Succ(i, |vs|)] &&
                                                         m.FaceOf(hs[i]) == f
    ensures IsValid(f) && FaceAddition.NoneFound(old(FaceAddition.FoundAll(m, vs, |vs|))) ==>
              FaceAddition.FreshFace(m, old(m.hprops), old(m.vprops.conn), vs, hs, f)
  {
    var r;
    ghost var found;
    r, found, hs := FaceAddition.AddFace(m, vs);
    f := if r.Ok? then r.value else Invalid;
  }

  // ---- deleteFace, deleteEdge: the edges go through EdgeSet::deleteEdge

  /// `EdgeSet::deleteEdge(e)` on the records of the surface mesh: an edge not
  /// yet deleted is linked past on both sides, its ends move on or, where it
  /// was their last edge, are deleted, and it is flagged with the garbage
  /// flag raised.  A deleted edge is left alone.
  method DeleteSetEdge(m: SurfaceMesh, e: Edge)
    requires m.Valid() && m.InRange() && m.Counted()
    modifies m`hprops, m`edeleted, m`deletedEdges, m`vprops, m`deletedVertices, m`hasGarbage
    ensures m.Valid() && m.InRange() && m.Counted() && (e < |m.edeleted| ==> m.edeleted[e])
    ensures old(m.IsDeletedEdge(e)) ==> unchanged(m)
    ensures !old(m.IsDeletedEdge(e)) ==>
              m.hprops == Bypassed(old(m.hprops), e) && m.edeleted == Put(old(m.edeleted), e, true) &&
              m.vprops == ReleaseEnds(old(m.vprops), old(m.hprops), e) && m.hasGarbage
    ensures FlagsGrow(old(m.edeleted), m.edeleted) && FlagsGrow(old(m.vprops.deleted), m.vprops.deleted)
    ensures m.hprops.face == old(m.hprops.face) && m.hprops.vertex == old(m.hprops.vertex)
    ensures m.vprops.point == old(m.vprops.point) && |m.vprops.conn| == old(|m.vprops.conn|)
    ensures old(m.hasGarbage) ==> m.hasGarbage
  {
    if m.IsDeletedEdge(e) {
      return;
    }
    m.UnlinkEdge(e);
    m.hasGarbage := true;
  }

  /// The deleting loop of `deleteFace`: `EdgeSet::deleteEdge` on each
  /// collected edge, so that every one of them ends up deleted.
  method DeleteSetEdges(m: SurfaceMesh, es: seq<Edge>)
    requires m.Valid() && m.InRange() && m.Counted()
    modifies m`hprops, m`edeleted, m`deletedEdges, m`vprops, m`deletedVertices, m`hasGarbage
    ensures m.Valid() && m.InRange() && m.Counted() && FlaggedWithin(m.edeleted, es)
    ensures FlagsGrow(old(m.edeleted), m.edeleted) && FlagsGrow(old(m.vprops.deleted), m.vprops.deleted)
    ensures m.hprops.face == old(m.hprops.face) && m.hprops.vertex == old(m.hprops.vertex)
    ensures m.vprops.point == old(m.vprops.point) && |m.vprops.conn| == old(|m.vprops.conn|)
    ensures old(m.hasGarbage) ==> m.hasGarbage
  {
    var i := 0;
    while i < |es|
      invariant i <= |es| && m.Valid() && m.InRange() && m.Counted() && FlaggedWithin(m.edeleted, es[..i])
      invariant FlagsGrow(old(m.edeleted), m.edeleted) && FlagsGrow(old(m.vprops.deleted), m.vprops.deleted)
      invariant m.hprops.face == old(m.hprops.face) && m.hprops.vertex == old(m.hprops.vertex)
      invariant m.vprops.point == old(m.vprops.point) && |m.vprops.conn| == old(|m.vprops.conn|)
      invariant old(m.hasGarbage) ==> m.hasGarbage
    {
      ghost var before := m.edeleted;
      DeleteSetEdge(m, es[i]);
      FlaggedStep(before, m.edeleted, es[..i], es[i]);
      assert es[..i + 1] == es[..i] + [es[i]];
      i := i + 1;
    }
    assert es[..i] == es;
  }

  /// The loops of `deleteFace` after the flag: the halfedges of hs lose
  /// their face, the edges left without a face are deleted through
  /// `EdgeSet::deleteEdge`, and the target vertices are adjusted.
  method ClearFace(m: SurfaceMesh, hs: seq<Halfedge>)
    requires m.Valid() && m.InRange() && m.Counted()
    modifies m`hprops, m`edeleted, m`deletedEdges, m`vprops, m`deletedVertices, m`hasGarbage
    ensures m.Valid() && m.InRange() && m.Counted()
    ensures FlagsGrow(old(m.vprops.deleted), m.vprops.deleted) && FlagsGrow(old(m.edeleted), m.edeleted)
    ensures m.vprops.point == old(m.vprops.point) && |m.vprops.conn| == old(|m.vprops.conn|)
    ensures m.hprops.face == Relabelled(old(m.hprops.face), hs, Invalid)
    ensures FlaggedWithin(m.edeleted, LoneEdges(old(m.hprops.face), hs))
    ensures old(m.hasGarbage) ==> m.hasGarbage
  {
    var edges, vs := m.DetachFace(hs);
    DeleteSetEdges(m, edges);
    m.AdjustAll(vs);
  }

  /// `deleteFace(f)`: a face not yet deleted is flagged and counted, its
  /// halfedges lose their face, every edge left without a face on either
  /// side is deleted through `EdgeSet::deleteEdge` (with the vertices it
  /// isolates), the outgoing halfedges of its vertices are adjusted, and the
  /// garbage flag is raised.  Deleting a deleted face changes nothing.
  method DeleteFace(m: SurfaceMesh, f: Face)
    requires m.Valid() && m.InRange() && m.Counted() && m.IsValidFace(f)
    modifies m
    ensures m.Valid() && m.InRange() && m.Counted()
    ensures FlagsGrow(old(m.vprops.deleted), m.vprops.deleted) && FlagsGrow(old(m.edeleted), m.edeleted)
    ensures FlagsGrow(old(m.fprops.deleted), m.fprops.deleted) && |m.fprops.conn| == old(|m.fprops.conn|)
    ensures m.vprops.point == old(m.vprops.point) && |m.vprops.conn| == old(|m.vprops.conn|)
    ensures old(m.fprops.deleted[f]) ==> unchanged(m)
    ensures !old(m.fprops.deleted[f]) ==>
              m.hasGarbage && m.fprops == old(m.fprops).(deleted := old(m.fprops.deleted)[f := true]) &&
              m.hprops.face == Relabelled(old(m.hprops.face), old(m.FaceLoop(f)), Invalid) &&
              FlaggedWithin(m.edeleted, old(LoneEdges(m.hprops.face, m.FaceLoop(f))))
  {
    if m.fprops.deleted[f] {
      return;
    }
    var hs := m.Collect(NextStep, m.FaceHalfedge(f));
    CountMark(m.fprops.deleted, f);
    m.fprops := m.fprops.(deleted := m.fprops.deleted[f := true]);
    m.deletedFaces := m.deletedFaces + 1;
    m.hasGarbage := true;
    ClearFace(m, hs);
  }

  /// `deleteEdge(e)`: the faces on both sides of an edge not yet deleted are
  /// deleted; an edge with no face on either side is deleted by
  /// `EdgeSet::deleteEdge` itself.  A deleted edge is left alone.
  method DeleteEdge(m: SurfaceMesh, e: Edge)
    requires m.Valid() && m.InRange() && m.Counted() && m.IsValidEdge(e)
    modifies m
    ensures m.Valid() && m.InRange() && m.Counted()
    ensures FlagsGrow(old(m.vprops.deleted), m.vprops.deleted) && FlagsGrow(old(m.edeleted), m.edeleted)
    ensures FlagsGrow(old(m.fprops.deleted), m.fprops.deleted) && |m.fprops.conn| == old(|m.fprops.conn|)
    ensures m.vprops.point == old(m.vprops.point) && |m.vprops.conn| == old(|m.vprops.conn|)
    ensures old(m.edeleted[e]) ==> unchanged(m)
    ensures !old(m.edeleted[e]) ==>
              (IsValid(old(m.EdgeFace(e, 0))) ==> m.fprops.deleted[old(m.EdgeFace(e, 0))]) &&
              (IsValid(old(m.EdgeFace(e, 1))) ==> m.fprops.deleted[old(m.EdgeFace(e, 1))])
    ensures !old(m.edeleted[e]) && old(!IsValid(m.EdgeFace(e, 0)) && !IsValid(m.EdgeFace(e, 1))) ==>
              m.hprops == Bypassed(old(m.hprops), e) && m.edeleted == old(m.edeleted)[e := true] &&
              m.vprops == ReleaseEnds(old(m.vprops), old(m.hprops), e) && m.fprops == old(m.fprops) && m.hasGarbage
  {
    if m.edeleted[e] {
      return;
    }
    var f0, f1 := m.EdgeFace(e, 0), m.EdgeFace(e, 1);
    if IsValid(f0) {
      DeleteFace(m, f0);
    }
    if IsValid(f1) {
      DeleteFace(m, f1);
    }
    if !IsValid(f0) && !IsValid(f1) {
      DeleteSetEdge(m, e);
    }
  }
}
