/// `add_face` of the surface mesh, with `add_triangle` and `add_quad`.
///
/// The source runs in phases: every corner is tested first (boundary vertex,
/// boundary halfedge where one exists), then the patches around vertices
/// whose two face halfedges exist are relinked, and only after both tests
/// passed are the missing edges and the face allocated.  The next links are
/// gathered in a cache and written at the end.  Each phase is a method here,
/// proved against a function that says what the phase computes.
module FaceAddition {
  import opened Handles
  import opened Wrappers
  import opened Compaction
  import opened HalfedgeMesh

  /// The corner after i in a polygon of n corners, `ii = (i + 1) % n`.
  function Succ(i: nat, n: nat): (j: nat)
    requires i < n
    ensures j < n
    ensures j == 0 <==> i == n - 1
  {
    if i + 1 == n then 0 else i + 1
  }

  /// What add_face demands of its vertex list: at least three vertices,
  /// existing ones, none followed by itself (`new_edge` asserts that), and
  /// rotations that come back to their start (find_halfedge loops otherwise).
  ghost predicate Admissible(m: SurfaceMesh, vs: seq<Vertex>)
    reads m`vprops, m`hprops
  {
    |vs| >= 3 &&
    (forall i :: 0 <= i < |vs| ==> vs[i] < |m.vprops.conn| && m.RingCloses(Cw, vs[i])) &&
    (forall i :: 0 <= i < |vs| ==> vs[i] != vs[Succ(i, |vs|)])
  }

  // ---- phase 1: the topological tests

  /// The halfedge from corner i to corner i+1 that `find_halfedge` finds, or
  /// invalid when the edge is missing.
  function Found(m: SurfaceMesh, vs: seq<Vertex>, i: nat): Halfedge
    requires i < |vs|
    reads m`vprops, m`hprops
  {
    m.FirstTo(m.ClockwiseHalfedges(vs[i]), vs[Succ(i, |vs|)])
  }

  /// Corner i passes the tests: its vertex is a boundary vertex and the
  /// halfedge to the next corner, if it exists, is a boundary halfedge.
  predicate CornerOk(m: SurfaceMesh, vs: seq<Vertex>, i: nat)
    requires i < |vs|
    reads m`vprops, m`hprops
  {
    m.IsBoundaryVertex(vs[i]) && (IsValid(Found(m, vs, i)) ==> m.IsBoundaryHalfedge(Found(m, vs, i)))
  }

  /// The halfedges find_halfedge finds for the first i corners.
  function FoundAll(m: SurfaceMesh, vs: seq<Vertex>, i: nat): (r: seq<Halfedge>)
    requires i <= |vs|
    reads m`vprops, m`hprops
    ensures |r| == i
  {
    if i == 0 then []
    else
      var prev := FoundAll(m, vs, i - 1);
      prev + [Found(m, vs, i - 1)]
  }

  /// Entry k of the list is what find_halfedge finds for corner k.
  lemma FoundAllAt(m: SurfaceMesh, vs: seq<Vertex>, i: nat)
    requires i <= |vs|
    ensures forall k {:trigger FoundAll(m, vs, i)[k]} :: 0 <= k < i ==> FoundAll(m, vs, i)[k] == Found(m, vs, k)
  {
    forall k | 0 <= k < i ensures FoundAll(m, vs, i)[k] == Found(m, vs, k) {
      FoundEntry(m, vs, i, k);
    }
  }

  lemma {:induction false} FoundEntry(m: SurfaceMesh, vs: seq<Vertex>, i: nat, k: nat)
    requires k < i <= |vs|
    ensures FoundAll(m, vs, i)[k] == Found(m, vs, k)
  {
    if k < i - 1 {
      FoundEntry(m, vs, i - 1, k);
    }
  }

  /// The first i corners pass their tests.
  predicate CornersOk(m: SurfaceMesh, vs: seq<Vertex>, i: nat)
    requires i <= |vs|
    reads m`vprops, m`hprops
  {
    i == 0 || (CornersOk(m, vs, i - 1) && CornerOk(m, vs, i - 1))
  }

  lemma {:induction false} CornersOkMeaning(m: SurfaceMesh, vs: seq<Vertex>, i: nat)
    requires i <= |vs|
    ensures CornersOk(m, vs, i) <==> forall k :: 0 <= k < i ==> CornerOk(m, vs, k)
  {
    if i > 0 {
      CornersOkMeaning(m, vs, i - 1);
      var last := CornerOk(m, vs, i - 1);
      assert CornersOk(m, vs, i) == (CornersOk(m, vs, i - 1) && last);
      if !last {
        assert !(forall k :: 0 <= k < i ==> CornerOk(m, vs, k));
      }
    }
  }

  /// One failing corner fails every longer prefix.
  lemma {:induction false} CornerFails(m: SurfaceMesh, vs: seq<Vertex>, i: nat, j: nat)
    requires i < j <= |vs| && !CornerOk(m, vs, i)
    ensures !CornersOk(m, vs, j)
  {
    if i < j - 1 {
      CornerFails(m, vs, i, j - 1);
    }
  }

  /// The first loop of `add_face`: a TopologyException ("complex vertex",
  /// "complex edge") exactly when some corner fails its tests, and otherwise
  /// the halfedges that already exist between consecutive corners.
  method CheckCorners(m: SurfaceMesh, vs: seq<Vertex>) returns (r: Outcome<seq<Halfedge>>)
    requires m.Valid() && Admissible(m, vs)
    ensures r.Fail? <==> !CornersOk(m, vs, |vs|)
    ensures r.Fail? ==> r.error == TopologyError
    ensures r.Ok? ==> r.value == FoundAll(m, vs, |vs|)
  {
    var hs: seq<Halfedge> := [];
    var i := 0;
    while i < |vs|
      invariant i <= |vs| && hs == FoundAll(m, vs, i) && CornersOk(m, vs, i)
    {
      // find_halfedge through the function FindHalfedge is proved to compute
      var h := Found(m, vs, i);
      var ok := m.IsBoundaryVertex(vs[i]) && (IsValid(h) ==> m.IsBoundaryHalfedge(h));
      if !ok {
        CornerFails(m, vs, i, |vs|);
        return Fail(TopologyError);
      }
      hs := hs + [h];
      i := i + 1;
    }
    return Ok(hs);
  }

  // ---- phase 2: relinking patches

  /// One step of the gap search, `opposite(next(h))`: the next incoming
  /// halfedge of the vertex h points to.
  function Turn(m: SurfaceMesh, h: Halfedge): Halfedge
    reads m`hprops
  {
    Opposite(m.Next(h))
  }

  /// A free gap for the patch: a boundary halfedge other than innerPrev.
  predicate FreeGap(m: SurfaceMesh, innerPrev: Halfedge, b: Halfedge)
    reads m`hprops
  {
    m.IsBoundaryHalfedge(b) && b != innerPrev
  }

  /// The halfedges the gap search visits from h: h turned once, twice, ...,
  /// fuel times, stopping where a turn leaves the halfedge range.
  function Turns(m: SurfaceMesh, h: Halfedge, fuel: nat): (w: seq<Halfedge>)
    reads m`hprops
    ensures |w| <= fuel
    decreases fuel
  {
    if fuel == 0 then []
    else
      var b := Turn(m, h);
      if b < |m.hprops.next| then [b] + Turns(m, b, fuel - 1) else []
  }

  /// The do-while search of the relinking step: from h, turn until a free
  /// gap is met.  The source searches without bound; here the search ends
  /// after fuel turns or where a turn leaves the halfedge range (an unlinked
  /// halfedge, which the source would follow out of its arrays).
  function GapFrom(m: SurfaceMesh, innerPrev: Halfedge, h: Halfedge, fuel: nat): (r: Option<Halfedge>)
    reads m`hprops
    ensures r.Some? ==> r.value < |m.hprops.next| && FreeGap(m, innerPrev, r.value)
    decreases fuel
  {
    if fuel == 0 then None
    else
      var b := Turn(m, h);
      if !(b < |m.hprops.next|) then None
      else if FreeGap(m, innerPrev, b) then Some(b)
      else GapFrom(m, innerPrev, b, fuel - 1)
  }

  /// None of the halfedges is a free gap.
  predicate NoGap(m: SurfaceMesh, innerPrev: Halfedge, w: seq<Halfedge>)
    reads m`hprops
  {
    forall k :: 0 <= k < |w| ==> !FreeGap(m, innerPrev, w[k])
  }

  /// g is the first free gap among the halfedges.
  predicate FirstGap(m: SurfaceMesh, innerPrev: Halfedge, w: seq<Halfedge>, g: Halfedge)
    reads m`hprops
  {
    exists k :: 0 <= k < |w| && w[k] == g && FreeGap(m, innerPrev, g) && NoGap(m, innerPrev, w[..k])
  }

  /// The search finds the first free gap among the visited halfedges, and
  /// finds nothing exactly when none of them is one.
  lemma {:induction false} GapFromSpec(m: SurfaceMesh, innerPrev: Halfedge, h: Halfedge, fuel: nat)
    ensures GapFrom(m, innerPrev, h, fuel).None? <==> NoGap(m, innerPrev, Turns(m, h, fuel))
    ensures GapFrom(m, innerPrev, h, fuel).Some? ==> FirstGap(m, innerPrev, Turns(m, h, fuel), GapFrom(m, innerPrev, h, fuel).value)
    decreases fuel
  {
    if fuel > 0 {
      var b := Turn(m, h);
      var w := Turns(m, h, fuel);
      if b < |m.hprops.next| && !FreeGap(m, innerPrev, b) {
        var rest := Turns(m, b, fuel - 1);
        GapFromSpec(m, innerPrev, b, fuel - 1);
        assert GapFrom(m, innerPrev, h, fuel) == GapFrom(m, innerPrev, b, fuel - 1);
        assert w == [b] + rest;
        assert forall k :: 0 < k < |w| ==> w[k] == rest[k - 1];
        if GapFrom(m, innerPrev, h, fuel).Some? {
          var g := GapFrom(m, innerPrev, h, fuel).value;
          var k :| 0 <= k < |rest| && rest[k] == g && FreeGap(m, innerPrev, g) && NoGap(m, innerPrev, rest[..k]);
          assert w[..k + 1] == [b] + rest[..k];
          assert w[k + 1] == g;
        }
      } else if b < |m.hprops.next| {
        assert w[0] == b && w[..0] == [];
      }
    }
  }

  /// The gap search as a loop.
  method FindGap(m: SurfaceMesh, innerPrev: Halfedge, start: Halfedge) returns (g: Option<Halfedge>)
    ensures g == GapFrom(m, innerPrev, start, |m.hprops.next|)
  {
    var b: Halfedge := start;
    var fuel: nat := |m.hprops.next|;
    while fuel > 0
      invariant GapFrom(m, innerPrev, b, fuel) == GapFrom(m, innerPrev, start, |m.hprops.next|)
    {
      b := Turn(m, b);
      if !(b < |m.hprops.next|) {
        return None;
      }
      if FreeGap(m, innerPrev, b) {
        return Some(b);
      }
      fuel := fuel - 1;
    }
    return None;
  }

  /// One `set_next_halfedge(first, second)` waiting in the next cache.
  datatype Link = Link(first: Halfedge, second: Halfedge)

  /// The relinking of one corner whose two halfedges exist: nothing when they
  /// already follow each other; otherwise the patch between them moves into a
  /// free gap, and the face cannot be added when there is no free gap or the
  /// gap is the one the face would close ("patch re-linking failed").
  function PatchLinks(m: SurfaceMesh, innerPrev: Halfedge, innerNext: Halfedge): Outcome<seq<Link>>
    reads m`hprops
  {
    if m.Next(innerPrev) == innerNext then Ok([])
    else
      match GapFrom(m, innerPrev, Opposite(innerNext), |m.hprops.next|)
      case None => Fail(TopologyError)
      case Some(boundaryPrev) =>
        var boundaryNext := m.Next(boundaryPrev);
        if boundaryNext == innerNext then Fail(TopologyError)
        else Ok([Link(boundaryPrev, m.Next(innerPrev)), Link(m.Prev(innerNext), boundaryNext), Link(innerPrev, innerNext)])
  }

  /// The second loop of `add_face` over the first i corners: the cached links,
  /// or the first failure.  A corner takes part when both of its halfedges exist.
  function Relinked(m: SurfaceMesh, hs: seq<Halfedge>, i: nat): Outcome<seq<Link>>
    requires i <= |hs|
    reads m`hprops
  {
    if i == 0 then Ok([])
    else
      match Relinked(m, hs, i - 1)
      case Fail(e) => Fail(e)
      case Ok(cache) =>
        var ip, inn := hs[i - 1], hs[Succ(i - 1, |hs|)];
        if IsValid(ip) && IsValid(inn) then
          match PatchLinks(m, ip, inn)
          case Fail(e) => Fail(e)
          case Ok(links) => Ok(cache + links)
        else Ok(cache)
  }

  /// Corner k takes part in the relinking and its patch cannot be moved.
  predicate PatchFails(m: SurfaceMesh, hs: seq<Halfedge>, k: nat)
    requires k < |hs|
    reads m`hprops
  {
    IsValid(hs[k]) && IsValid(hs[Succ(k, |hs|)]) && PatchLinks(m, hs[k], hs[Succ(k, |hs|)]).Fail?
  }

  /// The relinking fails, always with a TopologyException, exactly when the
  /// patch of some corner cannot be moved.
  lemma {:induction false} RelinkedFails(m: SurfaceMesh, hs: seq<Halfedge>, i: nat)
    requires i <= |hs|
    ensures Relinked(m, hs, i).Fail? <==> exists k :: 0 <= k < i && PatchFails(m, hs, k)
    ensures Relinked(m, hs, i).Fail? ==> Relinked(m, hs, i).error == TopologyError
  {
    if i > 0 {
      RelinkedFails(m, hs, i - 1);
      if Relinked(m, hs, i - 1).Ok? && !PatchFails(m, hs, i - 1) {
        assert Relinked(m, hs, i).Ok?;
        forall k | 0 <= k < i ensures !PatchFails(m, hs, k) {
        }
      }
    }
  }

  /// A failed relinking is a TopologyException.
  lemma {:induction false} RelinkedError(m: SurfaceMesh, hs: seq<Halfedge>, i: nat)
    requires i <= |hs|
    ensures Relinked(m, hs, i).Fail? ==> Relinked(m, hs, i).error == TopologyError
  {
    if i > 0 {
      RelinkedError(m, hs, i - 1);
    }
  }

  /// The relinking of one corner as a method.
  method CornerLinks(m: SurfaceMesh, ip: Halfedge, inn: Halfedge) returns (r: Outcome<seq<Link>>)
    ensures r == PatchLinks(m, ip, inn)
  {
    if m.Next(ip) == inn {
      return Ok([]);
    }
    var g := FindGap(m, ip, Opposite(inn));
    if g.None? {
      return Fail(TopologyError);
    }
    var boundaryNext := m.Next(g.value);
    if boundaryNext == inn {
      return Fail(TopologyError);
    }
    return Ok([Link(g.value, m.Next(ip)), Link(m.Prev(inn), boundaryNext), Link(ip, inn)]);
  }

  /// The relinking loop.
  method Relink(m: SurfaceMesh, hs: seq<Halfedge>) returns (r: Outcome<seq<Link>>)
    ensures r == Relinked(m, hs, |hs|)
  {
    var cache: seq<Link> := [];
    var i := 0;
    while i < |hs|
      invariant i <= |hs| && Relinked(m, hs, i) == Ok(cache)
    {
      var ip, inn := hs[i], hs[Succ(i, |hs|)];
      if IsValid(ip) && IsValid(inn) {
        var links := CornerLinks(m, ip, inn);
        if links.Fail? {
          assert PatchFails(m, hs, i);
          RelinkedFails(m, hs, |hs|);
          return Fail(TopologyError);
        }
        cache := cache + links.value;
      }
      i := i + 1;
    }
    return Ok(cache);
  }

  // ---- phase 3: the missing edges

  /// A halfedge CheckCorners found starts the edge from corner i and ends at
  /// corner i+1.
  lemma FoundMeaning(m: SurfaceMesh, vs: seq<Vertex>, i: nat)
    requires m.Valid() && Admissible(m, vs) && i < |vs|
    ensures IsValid(Found(m, vs, i)) ==>
              Found(m, vs, i) < |m.hprops.next| && m.ToVertex(Found(m, vs, i)) == vs[Succ(i, |vs|)]
  {
    m.FindHalfedgeMeaning(vs[i], vs[Succ(i, |vs|)]);
  }

  /// Each corner's halfedge, where there is one, lies in the mesh and runs
  /// from that corner to the next.
  predicate FoundFits(m: SurfaceMesh, vs: seq<Vertex>, found: seq<Halfedge>)
    reads m`hprops
  {
    |found| == |vs| && forall k :: 0 <= k < |vs| && IsValid(found[k]) ==> found[k] < |m.hprops.next| && m.ToVertex(found[k]) == vs[Succ(k, |vs|)]
  }

  /// Every halfedge found is one from its corner to the next.
  lemma FoundAllIn(m: SurfaceMesh, vs: seq<Vertex>)
    requires m.Valid() && Admissible(m, vs)
    ensures FoundFits(m, vs, FoundAll(m, vs, |vs|))
  {
    var found := FoundAll(m, vs, |vs|);
    FoundAllAt(m, vs, |vs|);
    forall i | 0 <= i < |vs| ensures IsValid(found[i]) ==> found[i] < |m.hprops.next| && m.ToVertex(found[i]) == vs[Succ(i, |vs|)] {
      FoundMeaning(m, vs, i);
    }
  }

  /// The number of missing edges among the first i corners.
  function Missing(hs: seq<Halfedge>, i: nat): (c: nat)
    requires i <= |hs|
    ensures c <= i
  {
    if i == 0 then 0 else Missing(hs, i - 1) + (if IsValid(hs[i - 1]) then 0 else 1)
  }

  /// A missing edge at corner i is counted by every later prefix.
  lemma {:induction false} MissingGrows(hs: seq<Halfedge>, i: nat, j: nat)
    requires i <= j <= |hs|
    ensures Missing(hs, i) + (if i < j && !IsValid(hs[i]) then 1 else 0) <= Missing(hs, j)
    decreases j - i
  {
    if i + 1 < j {
      MissingGrows(hs, i, j - 1);
    }
  }

  /// c unset deletion flags, as new elements get them.
  function Falses(c: nat): (s: seq<bool>)
    ensures |s| == c && forall k :: 0 <= k < c ==> !s[k]
  {
    seq(c, k => false)
  }

  /// Unset flags do not change the deleted count.
  lemma CountFalses(s: seq<bool>, c: nat)
    ensures Count(s + Falses(c)) == Count(s)
  {
    assert multiset(s + Falses(c)) == multiset(s) + multiset(Falses(c));
    assert true !in multiset(Falses(c));
  }

  /// The halfedge of corner i once the missing edges are created: the one
  /// found, or the first halfedge of the edge created for it, the edges being
  /// appended in corner order from the halfedge count base.
  function Filled(hs: seq<Halfedge>, base: nat, i: nat): Halfedge
    requires i < |hs|
  {
    if IsValid(hs[i]) then hs[i] else base + 2 * Missing(hs, i)
  }

  /// The halfedge records after the edge creation loop has passed the first
  /// i corners: each missing edge appends its two halfedges, from corner i
  /// to corner i+1 and back, without face and links.
  function Grown(hp: HalfedgeProps, vs: seq<Vertex>, hs: seq<Halfedge>, i: nat): (g: HalfedgeProps)
    requires i <= |hs| == |vs|
    ensures |g.face| == |hp.face| + 2 * Missing(hs, i) && |g.vertex| == |hp.vertex| + 2 * Missing(hs, i)
    ensures |g.next| == |hp.next| + 2 * Missing(hs, i) && |g.prev| == |hp.prev| + 2 * Missing(hs, i)
  {
    if i == 0 then hp
    else
      var g := Grown(hp, vs, hs, i - 1);
      if IsValid(hs[i - 1]) then g
      else HalfedgeProps(g.face + NoHalfedges, g.vertex + [vs[Succ(i - 1, |vs|)], vs[i - 1]],
                         g.next + NoHalfedges, g.prev + NoHalfedges)
  }

  /// Creating edges keeps the records of the existing halfedges.
  lemma {:induction false} GrownKeeps(hp: HalfedgeProps, vs: seq<Vertex>, hs: seq<Halfedge>, i: nat, x: nat)
    requires i <= |hs| == |vs| && x < |hp.vertex|
    ensures Grown(hp, vs, hs, i).vertex[x] == hp.vertex[x]
  {
    if i > 0 {
      GrownKeeps(hp, vs, hs, i - 1, x);
    }
  }

  /// The edge created for a missing corner k runs from corner k to corner
  /// k+1, its first halfedge at the index Filled gives.
  lemma {:induction false} GrownEnds(hp: HalfedgeProps, vs: seq<Vertex>, hs: seq<Halfedge>, i: nat, k: nat)
    requires i <= |hs| == |vs| && k < i && !IsValid(hs[k])
    ensures |hp.vertex| + 2 * Missing(hs, k) + 1 < |Grown(hp, vs, hs, i).vertex|
    ensures Grown(hp, vs, hs, i).vertex[|hp.vertex| + 2 * Missing(hs, k)] == vs[Succ(k, |vs|)]
    ensures Grown(hp, vs, hs, i).vertex[|hp.vertex| + 2 * Missing(hs, k) + 1] == vs[k]
  {
    MissingGrows(hs, k, i);
    if k < i - 1 {
      GrownEnds(hp, vs, hs, i - 1, k);
    }
  }

  /// Appending references in range keeps every reference in range.
  lemma AppendRefs(s: seq<nat>, t: seq<nat>, n: nat, n': nat)
    requires RefsIn(s, n) && RefsIn(t, n') && n <= n'
    ensures RefsIn(s + t, n')
  {
  }

  /// The created halfedges refer to existing vertices and to nothing else, so
  /// every reference stays in range.
  lemma {:induction false} GrownInRange(hp: HalfedgeProps, vs: seq<Vertex>, hs: seq<Halfedge>, i: nat, nv: nat, nf: nat)
    requires i <= |hs| == |vs| && forall k :: 0 <= k < |vs| ==> vs[k] < nv
    requires RefsIn(hp.face, nf) && RefsIn(hp.vertex, nv) && RefsIn(hp.next, |hp.next|) && RefsIn(hp.prev, |hp.next|)
    ensures var g := Grown(hp, vs, hs, i);
            RefsIn(g.face, nf) && RefsIn(g.vertex, nv) && RefsIn(g.next, |g.next|) && RefsIn(g.prev, |g.next|)
  {
    if i > 0 {
      GrownInRange(hp, vs, hs, i - 1, nv, nf);
      var g := Grown(hp, vs, hs, i - 1);
      var n' := |Grown(hp, vs, hs, i).next|;
      AppendRefs(g.face, NoHalfedges, nf, nf);
      AppendRefs(g.vertex, [vs[Succ(i - 1, |vs|)], vs[i - 1]], nv, nv);
      AppendRefs(g.next, NoHalfedges, |g.next|, n');
      AppendRefs(g.prev, NoHalfedges, |g.next|, n');
    }
  }

  /// The third loop of `add_face`: `new_edge(vertices[i], vertices[ii])` for
  /// every corner whose halfedge is missing.  It fails with an
  /// AllocationException exactly when the halfedge indices run out; the edges
  /// created before then stay, unused, as in the source.
  method GrowEdges(m: SurfaceMesh, vs: seq<Vertex>, hs: seq<Halfedge>) returns (r: Outcome<seq<Halfedge>>)
    requires m.Valid() && |hs| == |vs| >= 1
    requires forall i :: 0 <= i < |vs| ==> vs[i] != vs[Succ(i, |vs|)]
    modifies m`hprops, m`edeleted
    ensures m.Valid() && exists i :: 0 <= i <= |hs| && m.hprops == Grown(old(m.hprops), vs, hs, i) &&
                                     m.edeleted == old(m.edeleted) + Falses(Missing(hs, i))
    ensures r.Ok? <==> old(|m.hprops.next|) + 2 * Missing(hs, |hs|) < MaxIndex
    ensures r.Fail? ==> r.error == AllocationError
    ensures r.Ok? ==> m.hprops == Grown(old(m.hprops), vs, hs, |hs|) && m.edeleted == old(m.edeleted) + Falses(Missing(hs, |hs|))
    ensures r.Ok? ==> |r.value| == |hs| && forall i :: 0 <= i < |hs| ==> r.value[i] == Filled(hs, old(|m.hprops.next|), i)
  {
    ghost var hp0 := m.hprops;
    ghost var ed0 := m.edeleted;
    var base := |m.hprops.next|;
    var out: seq<Halfedge> := [];
    var i := 0;
    assert ed0 + Falses(0) == ed0;
    while i < |hs|
      invariant i <= |hs| && |out| == i && m.Valid()
      invariant m.hprops == Grown(hp0, vs, hs, i) && m.edeleted == ed0 + Falses(Missing(hs, i))
      invariant forall k :: 0 <= k < i ==> out[k] == Filled(hs, base, k)
    {
      var h := GrowOne(m, vs, hs, i, hp0, ed0);
      if h.Fail? {
        MissingGrows(hs, i, |hs|);
        return Fail(h.error);
      }
      out := out + [h.value];
      i := i + 1;
    }
    return Ok(out);
  }

  /// One pass of the third loop: corner i keeps its halfedge, or gets the
  /// first halfedge of a new edge to the next corner; only the allocation
  /// can fail, and then nothing changes.
  method GrowOne(m: SurfaceMesh, vs: seq<Vertex>, hs: seq<Halfedge>, i: nat, ghost hp0: HalfedgeProps, ghost ed0: seq<bool>)
    returns (r: Outcome<Halfedge>)
    requires m.Valid() && i < |hs| == |vs| && vs[i] != vs[Succ(i, |vs|)]
    requires m.hprops == Grown(hp0, vs, hs, i) && m.edeleted == ed0 + Falses(Missing(hs, i))
    modifies m`hprops, m`edeleted
    ensures m.Valid()
    ensures r.Fail? ==> r.error == AllocationError && !IsValid(hs[i]) && m.hprops == old(m.hprops) &&
                        m.edeleted == old(m.edeleted) && |hp0.next| + 2 * Missing(hs, i) == MaxIndex - 1
    ensures r.Ok? ==> m.hprops == Grown(hp0, vs, hs, i + 1) && m.edeleted == ed0 + Falses(Missing(hs, i + 1)) &&
                      r.value == Filled(hs, |hp0.next|, i)
  {
    if IsValid(hs[i]) {
      return Ok(hs[i]);
    }
    ghost var ed := m.edeleted;
    r := m.NewEdgeBetween(vs[i], vs[Succ(i, |vs|)]);
    if r.Ok? {
      assert Falses(Missing(hs, i)) + [false] == Falses(Missing(hs, i + 1));
      assert m.edeleted == ed + [false];
    }
  }

  /// The edge creation loop with what the rest of add_face relies on: the
  /// links of the existing halfedges are kept, and with no edge found the
  /// new halfedges are numbered from the old end.
  method MakeEdges(m: SurfaceMesh, vs: seq<Vertex>, hs: seq<Halfedge>) returns (r: Outcome<seq<Halfedge>>)
    requires m.Valid() && m.InRange() && |hs| == |vs| >= 1
    requires forall i :: 0 <= i < |vs| ==> vs[i] != vs[Succ(i, |vs|)]
    modifies m`hprops, m`edeleted
    ensures m.Valid() && exists i :: 0 <= i <= |hs| && m.hprops == Grown(old(m.hprops), vs, hs, i) &&
                                     m.edeleted == old(m.edeleted) + Falses(Missing(hs, i))
    ensures r.Ok? <==> old(|m.hprops.next|) + 2 * Missing(hs, |hs|) < MaxIndex
    ensures r.Fail? ==> r.error == AllocationError
    ensures r.Ok? ==> m.hprops == Grown(old(m.hprops), vs, hs, |hs|) && m.edeleted == old(m.edeleted) + Falses(Missing(hs, |hs|))
    ensures r.Ok? ==> |r.value| == |hs| && forall i :: 0 <= i < |hs| ==> r.value[i] == Filled(hs, old(|m.hprops.next|), i)
    ensures r.Ok? ==> FreshEdges(m.hprops, old(m.hprops), m.vprops.conn, hs, r.value)
  {
    ghost var hp0, ne := m.hprops, |m.edeleted|;
    r := GrowEdges(m, vs, hs);
    if r.Ok? {
      FreshEdgesHold(m.hprops, hp0, m.vprops.conn, vs, hs, r.value, ne);
    }
  }

  /// After the edge creation every corner has a halfedge, ending at the next
  /// corner, and every reference is still in range.
  lemma FilledMeaning(m: SurfaceMesh, hp0: HalfedgeProps, vs: seq<Vertex>, hs: seq<Halfedge>, i: nat)
    requires |hs| == |vs| && i < |vs| && m.hprops == Grown(hp0, vs, hs, |hs|) && |hp0.vertex| == |hp0.next|
    requires IsValid(hs[i]) ==> hs[i] < |hp0.next| && Get(hp0.vertex, hs[i]) == vs[Succ(i, |vs|)]
    ensures Filled(hs, |hp0.next|, i) < |m.hprops.next|
    ensures m.ToVertex(Filled(hs, |hp0.next|, i)) == vs[Succ(i, |vs|)]
  {
    if IsValid(hs[i]) {
      GrownKeeps(hp0, vs, hs, |hs|, hs[i]);
    } else {
      GrownEnds(hp0, vs, hs, |hs|, i);
    }
  }

  // ---- phase 5: the halfedges of the new face

  /// What the setup loop has written so far: the outgoing halfedges of the
  /// vertices, the faces of the halfedges, the next cache and the needs_adjust flags.
  datatype Setup = Setup(conn: seq<Halfedge>, face: seq<Face>, cache: seq<Link>, adjust: seq<bool>)

  predicate LinksIn(cache: seq<Link>, n: nat)
  {
    forall k :: 0 <= k < |cache| ==> Ref(cache[k].first, n) && Ref(cache[k].second, n)
  }

  /// One pass of the setup loop, at the vertex between the halfedge of
  /// corner i (inner_prev) and that of corner i+1 (inner_next).  Where one of
  /// the two edges is new, the outer boundary is closed around the vertex
  /// (the three cases of `id`) and the inner link cached; where both edges
  /// existed, the vertex is marked for adjustment when its outgoing halfedge
  /// is inner_next.  The face of inner_prev is always set.  `next` and `prev`
  /// are the link records, which this loop reads but does not write.
  function SetupCorner(st: Setup, next: seq<Halfedge>, prev: seq<Halfedge>, vs: seq<Vertex>,
                       found: seq<Halfedge>, hs: seq<Halfedge>, f: Face, i: nat): (r: Setup)
    requires |vs| == |found| == |hs| && i < |vs|
    ensures |r.conn| == |st.conn| && |r.adjust| == |st.adjust| && r.face == Put(st.face, hs[i], f)
  {
    var ii := Succ(i, |vs|);
    var v, ip, inn := vs[ii], hs[i], hs[ii];
    var prevNew, nextNew := !IsValid(found[i]), !IsValid(found[ii]);
    var face := Put(st.face, ip, f);
    var outerPrev, outerNext := Opposite(inn), Opposite(ip);
    if prevNew && !nextNew then
      Setup(Put(st.conn, v, outerNext), face, st.cache + [Link(Get(prev, inn), outerNext)] + [Link(ip, inn)], st.adjust)
    else if !prevNew && nextNew then
      var boundaryNext := Get(next, ip);
      Setup(Put(st.conn, v, boundaryNext), face, st.cache + [Link(outerPrev, boundaryNext)] + [Link(ip, inn)], st.adjust)
    else if prevNew && nextNew && !IsValid(Get(st.conn, v)) then
      Setup(Put(st.conn, v, outerNext), face, st.cache + [Link(outerPrev, outerNext)] + [Link(ip, inn)], st.adjust)
    else if prevNew && nextNew then
      var boundaryNext := Get(st.conn, v);
      Setup(st.conn, face, st.cache + [Link(Get(prev, boundaryNext), outerNext), Link(outerPrev, boundaryNext)] + [Link(ip, inn)], st.adjust)
    else
      Setup(st.conn, face, st.cache, Put(st.adjust, ii, Get(st.conn, v) == inn))
  }

  /// The setup loop over the first i corners.
  function SetupAll(st: Setup, next: seq<Halfedge>, prev: seq<Halfedge>, vs: seq<Vertex>,
                    found: seq<Halfedge>, hs: seq<Halfedge>, f: Face, i: nat): (r: Setup)
    requires |vs| == |found| == |hs| && i <= |vs|
    ensures |r.conn| == |st.conn| && |r.face| == |st.face| && |r.adjust| == |st.adjust|
  {
    if i == 0 then st else SetupCorner(SetupAll(st, next, prev, vs, found, hs, f, i - 1), next, prev, vs, found, hs, f, i - 1)
  }

  /// The whole setup loop, started from the halfedge records hp, the
  /// outgoing halfedges conn, the relinking's cache and no adjustment.
  function Placed(hp: HalfedgeProps, conn: seq<Halfedge>, vs: seq<Vertex>, found: seq<Halfedge>, hs: seq<Halfedge>,
                  f: Face, cache0: seq<Link>): Setup
    requires |vs| == |found| == |hs|
  {
    SetupAll(Setup(conn, hp.face, cache0, Falses(|vs|)), hp.next, hp.prev, vs, found, hs, f, |vs|)
  }

  /// The records of m are the ones phases 5 and 6 write on hp and conn: the
  /// setup loop's faces and outgoing halfedges, then its cached links.
  ghost predicate Assembled(m: SurfaceMesh, hp: HalfedgeProps, conn: seq<Halfedge>, vs: seq<Vertex>, found: seq<Halfedge>,
                            hs: seq<Halfedge>, f: Face, cache0: seq<Link>)
    requires |vs| == |found| == |hs|
    reads m`hprops, m`vprops
  {
    var st := Placed(hp, conn, vs, found, hs, f, cache0);
    m.hprops == LinkAll(hp.(face := st.face), st.cache) && m.vprops.conn == st.conn
  }

  /// With every edge new, no corner of the setup loop asks for adjustment.
  lemma {:induction false} SetupNoAdjust(st: Setup, next: seq<Halfedge>, prev: seq<Halfedge>, vs: seq<Vertex>,
                                         found: seq<Halfedge>, hs: seq<Halfedge>, f: Face, i: nat)
    requires |vs| == |found| == |hs| && i <= |vs| && NoneFound(found)
    ensures SetupAll(st, next, prev, vs, found, hs, f, i).adjust == st.adjust
  {
    if i > 0 {
      SetupNoAdjust(st, next, prev, vs, found, hs, f, i - 1);
      NoneFoundAt(found, i - 1);
    }
  }

  /// x is one of the first i halfedges.
  predicate Among(hs: seq<Halfedge>, i: nat, x: Halfedge)
  {
    exists k :: 0 <= k < i && k < |hs| && hs[k] == x
  }

  /// After the setup loop exactly the halfedges of the new face have it as
  /// their face; every other halfedge keeps its face.
  lemma {:induction false} SetupFaces(st: Setup, next: seq<Halfedge>, prev: seq<Halfedge>, vs: seq<Vertex>,
                                      found: seq<Halfedge>, hs: seq<Halfedge>, f: Face, i: nat, x: nat)
    requires |vs| == |found| == |hs| && i <= |vs| && x < |st.face|
    ensures SetupAll(st, next, prev, vs, found, hs, f, i).face[x] == if Among(hs, i, x) then f else st.face[x]
  {
    if i > 0 {
      SetupFaces(st, next, prev, vs, found, hs, f, i - 1, x);
      var before := SetupAll(st, next, prev, vs, found, hs, f, i - 1).face;
      var after := SetupAll(st, next, prev, vs, found, hs, f, i).face;
      assert after == Put(before, hs[i - 1], f);
      if x == hs[i - 1] {
        assert Among(hs, i, x) && after[x] == f;
      } else {
        assert after[x] == before[x];
        assert Among(hs, i, x) == Among(hs, i - 1, x);
      }
    }
  }

  /// Appending links in range keeps the cache in range.
  lemma AppendLinks(c: seq<Link>, d: seq<Link>, n: nat)
    requires LinksIn(c, n) && LinksIn(d, n)
    ensures LinksIn(c + d, n)
  {
  }

  /// Writing a reference in range keeps every reference in range.
  /// The setup state refers to halfedges below n and faces below nf.
  predicate SetupIn(st: Setup, n: nat, nf: nat)
  {
    RefsIn(st.conn, n) && RefsIn(st.face, nf) && LinksIn(st.cache, n)
  }

  /// The corners' halfedges and their opposites are below n.
  predicate CornersIn(hs: seq<Halfedge>, n: nat)
  {
    forall k :: 0 <= k < |hs| ==> hs[k] < n && Opposite(hs[k]) < n
  }

  /// One pass of the setup loop writes only handles in range.
  lemma CornerInRange(st: Setup, next: seq<Halfedge>, prev: seq<Halfedge>, vs: seq<Vertex>,
                      found: seq<Halfedge>, hs: seq<Halfedge>, f: Face, i: nat, n: nat, nf: nat)
    requires |vs| == |found| == |hs| && i < |vs| && f < nf
    requires SetupIn(st, n, nf) && RefsIn(next, n) && RefsIn(prev, n) && CornersIn(hs, n)
    ensures SetupIn(SetupCorner(st, next, prev, vs, found, hs, f, i), n, nf)
  {
    var ii := Succ(i, |vs|);
    var v, ip, inn := vs[ii], hs[i], hs[ii];
    var r := SetupCorner(st, next, prev, vs, found, hs, f, i);
    PutRefs(st.face, ip, f, nf);
    assert Ref(Get(prev, inn), n) && Ref(Get(next, ip), n) && Ref(Get(st.conn, v), n);
    assert Ref(Get(prev, Get(st.conn, v)), n);
    var d := r.cache[|st.cache|..];
    if r.cache != st.cache {
      assert r.cache == st.cache + d;
      AppendLinks(st.cache, d, n);
    }
    PutRefs(st.conn, v, Opposite(ip), n);
    PutRefs(st.conn, v, Get(next, ip), n);
  }

  /// The setup loop writes only handles in range: halfedges below n, faces
  /// below nf.
  lemma {:induction false} SetupInRange(st: Setup, next: seq<Halfedge>, prev: seq<Halfedge>, vs: seq<Vertex>,
                                        found: seq<Halfedge>, hs: seq<Halfedge>, f: Face, i: nat, n: nat, nf: nat)
    requires |vs| == |found| == |hs| && i <= |vs| && f < nf
    requires SetupIn(st, n, nf) && RefsIn(next, n) && RefsIn(prev, n) && CornersIn(hs, n)
    ensures SetupIn(SetupAll(st, next, prev, vs, found, hs, f, i), n, nf)
  {
    if i > 0 {
      SetupInRange(st, next, prev, vs, found, hs, f, i - 1, n, nf);
      var before := SetupAll(st, next, prev, vs, found, hs, f, i - 1);
      CornerInRange(before, next, prev, vs, found, hs, f, i - 1, n, nf);
      assert SetupAll(st, next, prev, vs, found, hs, f, i) == SetupCorner(before, next, prev, vs, found, hs, f, i - 1);
    }
  }

  /// One pass of the setup loop.
  method SetupStep(m: SurfaceMesh, vs: seq<Vertex>, found: seq<Halfedge>, hs: seq<Halfedge>, f: Face, i: nat,
                   cache: seq<Link>, adjust: seq<bool>) returns (cache': seq<Link>, adjust': seq<bool>)
    requires |vs| == |found| == |hs| && i < |vs|
    modifies m`vprops, m`hprops
    ensures var st := SetupCorner(Setup(old(m.vprops.conn), old(m.hprops.face), cache, adjust),
                                  old(m.hprops.next), old(m.hprops.prev), vs, found, hs, f, i);
            m.vprops == old(m.vprops).(conn := st.conn) && m.hprops == old(m.hprops).(face := st.face) &&
            cache' == st.cache && adjust' == st.adjust
  {
    var ii := Succ(i, |vs|);
    var v, ip, inn := vs[ii], hs[i], hs[ii];
    var prevNew, nextNew := !IsValid(found[i]), !IsValid(found[ii]);
    cache', adjust' := cache, adjust;
    if prevNew || nextNew {
      var outerPrev, outerNext := Opposite(inn), Opposite(ip);
      if prevNew && !nextNew {
        cache' := cache' + [Link(m.Prev(inn), outerNext)];
        m.SetVertexHalfedge(v, outerNext);
      } else if !prevNew && nextNew {
        var boundaryNext := m.Next(ip);
        cache' := cache' + [Link(outerPrev, boundaryNext)];
        m.SetVertexHalfedge(v, boundaryNext);
      } else if !IsValid(m.VertexHalfedge(v)) {
        m.SetVertexHalfedge(v, outerNext);
        cache' := cache' + [Link(outerPrev, outerNext)];
      } else {
        var boundaryNext := m.VertexHalfedge(v);
        var boundaryPrev := m.Prev(boundaryNext);
        cache' := cache' + [Link(boundaryPrev, outerNext), Link(outerPrev, boundaryNext)];
      }
      cache' := cache' + [Link(ip, inn)];
    } else {
      adjust' := Put(adjust', ii, m.VertexHalfedge(v) == inn);
    }
    m.SetFace(ip, f);
  }

  /// The setup loop, starting from the links cached by the relinking.
  method SetupCorners(m: SurfaceMesh, vs: seq<Vertex>, found: seq<Halfedge>, hs: seq<Halfedge>, f: Face,
                      cache0: seq<Link>) returns (cache: seq<Link>, adjust: seq<bool>)
    requires |vs| == |found| == |hs|
    modifies m`vprops, m`hprops
    ensures var st := SetupAll(Setup(old(m.vprops.conn), old(m.hprops.face), cache0, Falses(|vs|)),
                               old(m.hprops.next), old(m.hprops.prev), vs, found, hs, f, |vs|);
            m.vprops == old(m.vprops).(conn := st.conn) && m.hprops == old(m.hprops).(face := st.face) &&
            cache == st.cache && adjust == st.adjust
  {
    ghost var st0 := Setup(m.vprops.conn, m.hprops.face, cache0, Falses(|vs|));
    ghost var next0, prev0 := m.hprops.next, m.hprops.prev;
    cache, adjust := cache0, Falses(|vs|);
    var i := 0;
    while i < |vs|
      invariant i <= |vs|
      invariant var st := SetupAll(st0, next0, prev0, vs, found, hs, f, i);
                m.vprops == old(m.vprops).(conn := st.conn) && m.hprops == old(m.hprops).(face := st.face) &&
                cache == st.cache && adjust == st.adjust
    {
      cache, adjust := SetupStep(m, vs, found, hs, f, i, cache, adjust);
      i := i + 1;
    }
  }

  // ---- phase 6: the next cache and the adjustment

  /// The link records after `set_next_halfedge(first, second)` for every
  /// cached link in order.
  function LinkAll(hp: HalfedgeProps, cache: seq<Link>): (r: HalfedgeProps)
    ensures r.face == hp.face && r.vertex == hp.vertex && |r.next| == |hp.next| && |r.prev| == |hp.prev|
    decreases |cache|
  {
    if cache == [] then hp
    else
      var g := LinkAll(hp, cache[..|cache| - 1]);
      var l := cache[|cache| - 1];
      g.(next := Put(g.next, l.first, l.second), prev := Put(g.prev, l.second, l.first))
  }

  /// Links between halfedges in range keep the link records in range.
  lemma {:induction false} LinkAllInRange(hp: HalfedgeProps, cache: seq<Link>, n: nat)
    requires RefsIn(hp.next, n) && RefsIn(hp.prev, n) && LinksIn(cache, n)
    ensures RefsIn(LinkAll(hp, cache).next, n) && RefsIn(LinkAll(hp, cache).prev, n)
    decreases |cache|
  {
    if cache != [] {
      LinkAllInRange(hp, cache[..|cache| - 1], n);
    }
  }

  /// The loop over the next cache.
  method ApplyLinks(m: SurfaceMesh, cache: seq<Link>)
    modifies m`hprops
    ensures m.hprops == LinkAll(old(m.hprops), cache)
  {
    var i := 0;
    while i < |cache|
      invariant i <= |cache| && m.hprops == LinkAll(old(m.hprops), cache[..i])
    {
      assert cache[..i + 1][..i] == cache[..i];
      m.SetNextHalfedge(cache[i].first, cache[i].second);
      i := i + 1;
    }
    assert cache[..|cache|] == cache;
  }

  /// The last loop of `add_face`: `adjust_outgoing_halfedge` at every marked
  /// corner.  Only outgoing halfedges of marked corners change.
  method AdjustCorners(m: SurfaceMesh, vs: seq<Vertex>, adjust: seq<bool>)
    requires m.Valid() && m.InRange() && |adjust| == |vs|
    modifies m`vprops
    ensures m.Valid() && m.InRange()
    ensures m.vprops.point == old(m.vprops.point) && m.vprops.deleted == old(m.vprops.deleted)
    ensures |m.vprops.conn| == old(|m.vprops.conn|)
    ensures forall v :: 0 <= v < |m.vprops.conn| && (forall k :: 0 <= k < |vs| && adjust[k] ==> vs[k] != v) ==>
              m.vprops.conn[v] == old(m.vprops.conn[v])
  {
    var i := 0;
    while i < |vs|
      invariant i <= |vs| && m.Valid() && m.InRange()
      invariant m.vprops.point == old(m.vprops.point) && m.vprops.deleted == old(m.vprops.deleted)
      invariant |m.vprops.conn| == old(|m.vprops.conn|)
      invariant forall v :: 0 <= v < |m.vprops.conn| && (forall k :: 0 <= k < i && adjust[k] ==> vs[k] != v) ==>
                  m.vprops.conn[v] == old(m.vprops.conn[v])
    {
      if adjust[i] && m.RingCloses(Cw, vs[i]) {
        m.AdjustedInRange(vs[i]);
        m.AdjustOutgoingHalfedge(vs[i]);
      }
      i := i + 1;
    }
  }

  /// The relinking caches links between halfedges in range.
  lemma PatchLinksIn(m: SurfaceMesh, ip: Halfedge, inn: Halfedge)
    requires m.Valid() && m.InRange() && ip < |m.hprops.next| && inn < |m.hprops.next|
    ensures PatchLinks(m, ip, inn).Ok? ==> LinksIn(PatchLinks(m, ip, inn).value, |m.hprops.next|)
  {
    var g := GapFrom(m, ip, Opposite(inn), |m.hprops.next|);
    if g.Some? {
      assert Ref(m.Next(ip), |m.hprops.next|) && Ref(m.Prev(inn), |m.hprops.next|) && Ref(m.Next(g.value), |m.hprops.next|);
    }
  }

  lemma {:induction false} RelinkedIn(m: SurfaceMesh, hs: seq<Halfedge>, i: nat)
    requires m.Valid() && m.InRange() && i <= |hs|
    requires forall k :: 0 <= k < |hs| && IsValid(hs[k]) ==> hs[k] < |m.hprops.next|
    ensures Relinked(m, hs, i).Ok? ==> LinksIn(Relinked(m, hs, i).value, |m.hprops.next|)
  {
    if i > 0 {
      RelinkedIn(m, hs, i - 1);
      var ip, inn := hs[i - 1], hs[Succ(i - 1, |hs|)];
      if Relinked(m, hs, i - 1).Ok? && IsValid(ip) && IsValid(inn) {
        PatchLinksIn(m, ip, inn);
        if PatchLinks(m, ip, inn).Ok? {
          AppendLinks(Relinked(m, hs, i - 1).value, PatchLinks(m, ip, inn).value, |m.hprops.next|);
        }
      }
    }
  }

  /// References in range stay in range when the arrays grow.
  lemma WidenLinks(c: seq<Link>, n: nat, n': nat)
    requires LinksIn(c, n) && n <= n'
    ensures LinksIn(c, n')
  {
  }

  /// The mesh after the edge creation loop, stopped after j corners, refers
  /// only to existing elements.
  lemma GrownMeshInRange(m: SurfaceMesh, hp0: HalfedgeProps, vs: seq<Vertex>, hs: seq<Halfedge>, j: nat)
    requires m.Valid() && j <= |hs| == |vs| && m.hprops == Grown(hp0, vs, hs, j)
    requires forall k :: 0 <= k < |vs| ==> vs[k] < |m.vprops.conn|
    requires RefsIn(hp0.face, |m.fprops.conn|) && RefsIn(hp0.vertex, |m.vprops.conn|)
    requires RefsIn(hp0.next, |hp0.next|) && RefsIn(hp0.prev, |hp0.next|)
    requires RefsIn(m.vprops.conn, |hp0.next|) && RefsIn(m.fprops.conn, |hp0.next|)
    ensures m.InRange()
  {
    GrownInRange(hp0, vs, hs, j, |m.vprops.conn|, |m.fprops.conn|);
    WidenRefs(m.vprops.conn, |hp0.next|, |m.hprops.next|);
    WidenRefs(m.fprops.conn, |hp0.next|, |m.hprops.next|);
  }

  // ---- the face loop of a face whose edges are all new

  /// No corner's halfedge was found: every edge of the face is new.  It is
  /// stated as a count, every corner missing, and NoneFoundAt gives it
  /// corner by corner.
  predicate NoneFound(found: seq<Halfedge>)
  {
    Missing(found, |found|) == |found|
  }

  /// From corner i to corner j at most j - i edges are missing.
  lemma {:induction false} MissingAtMost(hs: seq<Halfedge>, i: nat, j: nat)
    requires i <= j <= |hs|
    ensures Missing(hs, j) <= Missing(hs, i) + (j - i)
    decreases j - i
  {
    if i < j {
      MissingAtMost(hs, i, j - 1);
    }
  }

  /// With no edge found, corner i has no halfedge, and neither has any
  /// corner before it.
  lemma NoneFoundAt(found: seq<Halfedge>, i: nat)
    requires NoneFound(found) && i < |found|
    ensures !IsValid(found[i]) && Missing(found, i) == i
  {
    MissingAtMost(found, i + 1, |found|);
  }

  /// With no edge found, corner i gets the first halfedge of the i-th new edge.
  lemma NoneFoundFilled(found: seq<Halfedge>, base: nat, i: nat)
    requires NoneFound(found) && i <= |found|
    ensures Missing(found, i) == i
    ensures i < |found| ==> Filled(found, base, i) == base + 2 * i
  {
    if i < |found| {
      NoneFoundAt(found, i);
    }
  }

  /// With no edge found, no corner takes part in the relinking.
  lemma {:induction false} RelinkedNone(m: SurfaceMesh, hs: seq<Halfedge>, i: nat)
    requires i <= |hs|
    ensures NoneFound(hs) ==> Relinked(m, hs, i) == Ok([])
  {
    if i > 0 {
      RelinkedNone(m, hs, i - 1);
      if NoneFound(hs) {
        NoneFoundAt(hs, i - 1);
      }
    }
  }

  /// x is none of the corners' halfedges.
  predicate NotCorner(hs: seq<Halfedge>, x: Halfedge)
  {
    forall j :: 0 <= j < |hs| ==> hs[j] != x
  }

  /// A link that pairs corner halfedges only as the face loop does: from a
  /// corner's halfedge it leads to the next corner's, and to a corner's
  /// halfedge it comes from the previous corner's.
  predicate LoopLink(l: Link, hs: seq<Halfedge>)
  {
    forall j :: 0 <= j < |hs| ==>
      (l.first == hs[j] ==> l.second == hs[Succ(j, |hs|)]) && (l.second == hs[Succ(j, |hs|)] ==> l.first == hs[j])
  }

  predicate LoopLinks(cache: seq<Link>, hs: seq<Halfedge>)
  {
    forall k :: 0 <= k < |cache| ==> LoopLink(cache[k], hs)
  }

  /// A link touches the halfedges below n0 only at the outgoing halfedge of
  /// a corner's vertex (as second) and at the halfedge before it (as first).
  predicate OldEnd(l: Link, conn0: seq<Halfedge>, prev: seq<Halfedge>, vs: seq<Vertex>, n0: nat)
  {
    (l.first < n0 ==> exists c :: 0 <= c < |vs| && l.first == Get(prev, Get(conn0, vs[c]))) &&
    (l.second < n0 ==> exists c :: 0 <= c < |vs| && l.second == Get(conn0, vs[c]))
  }

  predicate OldEnds(cache: seq<Link>, conn0: seq<Halfedge>, prev: seq<Halfedge>, vs: seq<Vertex>, n0: nat)
  {
    forall k :: 0 <= k < |cache| ==> OldEnd(cache[k], conn0, prev, vs, n0)
  }

  /// Every outgoing halfedge the setup has stored is the original one or the
  /// outer halfedge of a corner's new edge.
  predicate ConnFresh(conn: seq<Halfedge>, conn0: seq<Halfedge>, hs: seq<Halfedge>)
  {
    |conn| == |conn0| &&
    forall v :: 0 <= v < |conn| ==> conn[v] == conn0[v] || exists j :: 0 <= j < |hs| && conn[v] == Opposite(hs[j])
  }

  /// What the setup loop meets on a face whose edges are all new: the
  /// corners' halfedges are distinct halfedges from n0 on, their other halves
  /// are no corner's and have no prev link yet, and the stored outgoing
  /// halfedges and the prev links below n0 refer only to halfedges below n0.
  predicate FreshSetup(conn0: seq<Halfedge>, prev: seq<Halfedge>, found: seq<Halfedge>, hs: seq<Halfedge>, n0: nat)
  {
    NoneFound(found) && n0 <= |prev| < MaxIndex &&
    (forall j, k :: 0 <= j < k < |hs| ==> hs[j] != hs[k]) &&
    (forall j :: 0 <= j < |hs| ==> n0 <= hs[j] < MaxIndex && n0 <= Opposite(hs[j])) &&
    (forall j :: 0 <= j < |hs| ==> NotCorner(hs, Opposite(hs[j])) && Get(prev, Opposite(hs[j])) == Invalid) &&
    (forall v :: 0 <= v < |conn0| ==> Ref(conn0[v], n0)) &&
    (forall x :: 0 <= x < n0 ==> Ref(prev[x], n0))
  }

  /// A handle below n0 or invalid is no corner's, and its prev link is one too.
  lemma OldNotCorner(conn0: seq<Halfedge>, prev: seq<Halfedge>, found: seq<Halfedge>, hs: seq<Halfedge>, n0: nat, x: Halfedge)
    requires FreshSetup(conn0, prev, found, hs, n0) && Ref(x, n0)
    ensures NotCorner(hs, x) && Ref(Get(prev, x), n0) && NotCorner(hs, Get(prev, x))
  {
  }

  /// After the cached links are written, a corner's halfedge leads to the
  /// next corner's and comes after the previous one's, when its link is
  /// cached and no link breaks the loop: the last write wins.
  lemma {:induction false} LinkAllLoop(hp: HalfedgeProps, cache: seq<Link>, hs: seq<Halfedge>, j: nat)
    requires j < |hs| && LoopLinks(cache, hs) && Link(hs[j], hs[Succ(j, |hs|)]) in cache
    requires hs[j] < |hp.next| && hs[Succ(j, |hs|)] < |hp.prev|
    ensures LinkAll(hp, cache).next[hs[j]] == hs[Succ(j, |hs|)]
    ensures LinkAll(hp, cache).prev[hs[Succ(j, |hs|)]] == hs[j]
    decreases |cache|
  {
    var c := cache[..|cache| - 1];
    var l := cache[|cache| - 1];
    assert LoopLink(l, hs);
    if l != Link(hs[j], hs[Succ(j, |hs|)]) {
      var k :| 0 <= k < |cache| && cache[k] == Link(hs[j], hs[Succ(j, |hs|)]);
      assert c[k] == cache[k];
      assert forall t :: 0 <= t < |c| ==> c[t] == cache[t];
      LinkAllLoop(hp, c, hs, j);
    }
  }

  /// Writing the cached links leaves the next link of a halfedge no link
  /// starts from, and the prev link of one no link leads to.
  lemma {:induction false} LinkAllKeeps(hp: HalfedgeProps, cache: seq<Link>, x: Halfedge)
    requires x < |hp.next| && x < |hp.prev|
    ensures (forall k :: 0 <= k < |cache| ==> cache[k].first != x) ==> LinkAll(hp, cache).next[x] == hp.next[x]
    ensures (forall k :: 0 <= k < |cache| ==> cache[k].second != x) ==> LinkAll(hp, cache).prev[x] == hp.prev[x]
    decreases |cache|
  {
    if cache != [] {
      var c := cache[..|cache| - 1];
      assert forall t :: 0 <= t < |c| ==> c[t] == cache[t];
      LinkAllKeeps(hp, c, x);
    }
  }

  /// A list of distinct halfedges, each leading to the following one and the
  /// last back to the first, is the walk along next from its first entry.
  lemma {:induction false} CycleWalked(hp: HalfedgeProps, ws: seq<Halfedge>, k: nat, fuel: nat)
    requires k < |ws| && |ws| - k <= fuel
    requires forall t, u :: 0 <= t < u < |ws| ==> ws[t] != ws[u]
    requires forall t :: 0 <= t < |ws| - 1 ==> Get(hp.next, ws[t]) == ws[t + 1]
    requires Get(hp.next, ws[|ws| - 1]) == ws[0]
    ensures Walked(hp, NextStep, ws[0], ws[k], fuel) == ws[k..]
    decreases |ws| - k
  {
    if k < |ws| - 1 {
      CycleWalked(hp, ws, k + 1, fuel - 1);
      assert ws[k..] == [ws[k]] + ws[k + 1..];
    }
  }

  /// The setup state after the first i corners of a face whose edges are
  /// all new: the stored outgoing halfedges are the original ones or outer
  /// halfedges, no cached link breaks the loop or touches other old
  /// halfedges than those at the corners' vertices, and the links from each
  /// of the first i corners to the next are cached.
  predicate FreshState(st: Setup, conn0: seq<Halfedge>, prev: seq<Halfedge>, vs: seq<Vertex>, hs: seq<Halfedge>, n0: nat, i: nat)
    requires i <= |hs| == |vs|
  {
    ConnFresh(st.conn, conn0, hs) && LoopLinks(st.cache, hs) && OldEnds(st.cache, conn0, prev, vs, n0) &&
    InnerCached(st.cache, hs, i)
  }

  /// The links from each of the first i corners to the next are cached.
  predicate InnerCached(cache: seq<Link>, hs: seq<Halfedge>, i: nat)
    requires i <= |hs|
  {
    forall j :: 0 <= j < i ==> Link(hs[j], hs[Succ(j, |hs|)]) in cache
  }

  /// A link between two halfedges that are no corner's keeps the loop.
  lemma OuterLink(l: Link, hs: seq<Halfedge>)
    requires NotCorner(hs, l.first) && NotCorner(hs, l.second)
    ensures LoopLink(l, hs)
  {
  }

  /// The link from corner i to corner i + 1 keeps the loop when the corners'
  /// halfedges are distinct.
  lemma InnerLink(hs: seq<Halfedge>, i: nat)
    requires i < |hs| && forall j, k :: 0 <= j < k < |hs| ==> hs[j] != hs[k]
    ensures LoopLink(Link(hs[i], hs[Succ(i, |hs|)]), hs)
  {
    var ii := Succ(i, |hs|);
    forall j | 0 <= j < |hs|
      ensures (hs[i] == hs[j] ==> hs[ii] == hs[Succ(j, |hs|)]) && (hs[ii] == hs[Succ(j, |hs|)] ==> hs[i] == hs[j])
    {
      if hs[ii] == hs[Succ(j, |hs|)] {
        assert Succ(j, |hs|) == ii;
      }
    }
  }

  /// Appending links that keep the loop and the old ends keeps both.
  lemma AppendFresh(c: seq<Link>, d: seq<Link>, hs: seq<Halfedge>, conn0: seq<Halfedge>, prev: seq<Halfedge>, vs: seq<Vertex>, n0: nat)
    requires LoopLinks(c, hs) && OldEnds(c, conn0, prev, vs, n0)
    requires forall k :: 0 <= k < |d| ==> LoopLink(d[k], hs) && OldEnd(d[k], conn0, prev, vs, n0)
    ensures LoopLinks(c + d, hs) && OldEnds(c + d, conn0, prev, vs, n0)
    ensures forall l :: l in c ==> l in c + d
  {
    forall k | 0 <= k < |c + d| ensures LoopLink((c + d)[k], hs) && OldEnd((c + d)[k], conn0, prev, vs, n0) {
      if k >= |c| {
        assert (c + d)[k] == d[k - |c|];
      }
    }
  }

  /// The links one pass of the setup loop caches on a face whose edges are
  /// all new, where bn is the outgoing halfedge stored at the vertex.
  function FreshLinks(hs: seq<Halfedge>, prev: seq<Halfedge>, bn: Halfedge, i: nat): seq<Link>
    requires i < |hs|
  {
    var ii := Succ(i, |hs|);
    if !IsValid(bn) then [Link(Opposite(hs[ii]), Opposite(hs[i])), Link(hs[i], hs[ii])]
    else [Link(Get(prev, bn), Opposite(hs[i])), Link(Opposite(hs[ii]), bn), Link(hs[i], hs[ii])]
  }

  /// On a face whose edges are all new, the pass at corner i takes the last
  /// two branches of the setup: it caches FreshLinks and stores an outer
  /// halfedge only where the vertex had none.
  lemma FreshCornerCase(st: Setup, next: seq<Halfedge>, prev: seq<Halfedge>, vs: seq<Vertex>,
                        found: seq<Halfedge>, hs: seq<Halfedge>, f: Face, i: nat)
    requires |vs| == |found| == |hs| && i < |vs| && NoneFound(found)
    ensures var r, v := SetupCorner(st, next, prev, vs, found, hs, f, i), vs[Succ(i, |vs|)];
            r.cache == st.cache + FreshLinks(hs, prev, Get(st.conn, v), i) &&
            r.conn == if IsValid(Get(st.conn, v)) then st.conn else Put(st.conn, v, Opposite(hs[i]))
  {
    NoneFoundAt(found, i);
    NoneFoundAt(found, Succ(i, |vs|));
  }

  /// The two outer links FreshLinks caches when the vertex of corner i + 1
  /// already has an outgoing halfedge keep the loop and touch old halfedges
  /// only at that vertex.
  lemma BoundaryLinksFit(conn: seq<Halfedge>, conn0: seq<Halfedge>, prev: seq<Halfedge>, vs: seq<Vertex>,
                         found: seq<Halfedge>, hs: seq<Halfedge>, i: nat, n0: nat)
    requires |vs| == |hs| && i < |hs| && FreshSetup(conn0, prev, found, hs, n0) && ConnFresh(conn, conn0, hs)
    requires IsValid(Get(conn, vs[Succ(i, |hs|)]))
    ensures var bn := Get(conn, vs[Succ(i, |hs|)]);
            LoopLink(Link(Get(prev, bn), Opposite(hs[i])), hs) && OldEnd(Link(Get(prev, bn), Opposite(hs[i])), conn0, prev, vs, n0) &&
            LoopLink(Link(Opposite(hs[Succ(i, |hs|)]), bn), hs) && OldEnd(Link(Opposite(hs[Succ(i, |hs|)]), bn), conn0, prev, vs, n0)
  {
    var ii := Succ(i, |hs|);
    var v := vs[ii];
    var bn := Get(conn, v);
    var l0, l1 := Link(Get(prev, bn), Opposite(hs[i])), Link(Opposite(hs[ii]), bn);
    if bn == Get(conn0, v) {
      OldNotCorner(conn0, prev, found, hs, n0, bn);
      assert OldEnd(l0, conn0, prev, vs, n0) && OldEnd(l1, conn0, prev, vs, n0);
    } else {
      var j :| 0 <= j < |hs| && bn == Opposite(hs[j]);
      assert Get(prev, bn) == Invalid;
    }
    OuterLink(l0, hs);
    OuterLink(l1, hs);
  }

  /// The links of FreshLinks keep the loop and touch old halfedges only at
  /// the vertex of corner i + 1.
  lemma FreshLinksFit(conn: seq<Halfedge>, conn0: seq<Halfedge>, prev: seq<Halfedge>, vs: seq<Vertex>,
                      found: seq<Halfedge>, hs: seq<Halfedge>, i: nat, n0: nat)
    requires |vs| == |hs| && i < |hs| && FreshSetup(conn0, prev, found, hs, n0) && ConnFresh(conn, conn0, hs)
    ensures var d := FreshLinks(hs, prev, Get(conn, vs[Succ(i, |hs|)]), i);
            forall k :: 0 <= k < |d| ==> LoopLink(d[k], hs) && OldEnd(d[k], conn0, prev, vs, n0)
  {
    var ii := Succ(i, |hs|);
    var bn := Get(conn, vs[ii]);
    var d := FreshLinks(hs, prev, bn, i);
    var inner := Link(hs[i], hs[ii]);
    InnerLink(hs, i);
    assert OldEnd(inner, conn0, prev, vs, n0);
    if IsValid(bn) {
      BoundaryLinksFit(conn, conn0, prev, vs, found, hs, i, n0);
      assert d == [Link(Get(prev, bn), Opposite(hs[i])), Link(Opposite(hs[ii]), bn), inner];
    } else {
      var outer := Link(Opposite(hs[ii]), Opposite(hs[i]));
      OuterLink(outer, hs);
      assert d == [outer, inner];
    }
  }

  /// One pass of the setup loop on a face whose edges are all new keeps
  /// FreshState and adds the link from corner i to corner i + 1.
  lemma FreshCorner(st: Setup, conn0: seq<Halfedge>, next: seq<Halfedge>, prev: seq<Halfedge>, vs: seq<Vertex>,
                    found: seq<Halfedge>, hs: seq<Halfedge>, f: Face, j: nat, n0: nat)
    requires |vs| == |found| == |hs| && 0 < j <= |vs| && FreshSetup(conn0, prev, found, hs, n0)
    requires FreshState(st, conn0, prev, vs, hs, n0, j - 1)
    ensures FreshState(SetupCorner(st, next, prev, vs, found, hs, f, j - 1), conn0, prev, vs, hs, n0, j)
  {
    var i := j - 1;
    var r := SetupCorner(st, next, prev, vs, found, hs, f, i);
    var v := vs[Succ(i, |vs|)];
    var d := FreshLinks(hs, prev, Get(st.conn, v), i);
    FreshCornerCase(st, next, prev, vs, found, hs, f, i);
    FreshLinksFit(st.conn, conn0, prev, vs, found, hs, i, n0);
    AppendFresh(st.cache, d, hs, conn0, prev, vs, n0);
    assert r.cache[|r.cache| - 1] == Link(hs[i], hs[Succ(i, |vs|)]);
    FreshConn(st.conn, r.conn, conn0, hs, v, i);
  }

  /// Storing a corner's outer halfedge at a vertex keeps ConnFresh.
  lemma FreshConn(conn: seq<Halfedge>, conn': seq<Halfedge>, conn0: seq<Halfedge>, hs: seq<Halfedge>, v: Vertex, i: nat)
    requires i < |hs| && ConnFresh(conn, conn0, hs)
    requires conn' == if IsValid(Get(conn, v)) then conn else Put(conn, v, Opposite(hs[i]))
    ensures ConnFresh(conn', conn0, hs)
  {
    forall v' | 0 <= v' < |conn'|
      ensures conn'[v'] == conn0[v'] || exists j :: 0 <= j < |hs| && conn'[v'] == Opposite(hs[j])
    {
      if conn'[v'] != conn[v'] {
        assert conn'[v'] == Opposite(hs[i]);
      }
    }
  }

  /// The setup loop on a face whose edges are all new.
  lemma {:induction false} FreshSetupAll(st: Setup, next: seq<Halfedge>, prev: seq<Halfedge>, vs: seq<Vertex>,
                                         found: seq<Halfedge>, hs: seq<Halfedge>, f: Face, i: nat, n0: nat)
    requires |vs| == |found| == |hs| && i <= |vs| && FreshSetup(st.conn, prev, found, hs, n0)
    requires LoopLinks(st.cache, hs) && OldEnds(st.cache, st.conn, prev, vs, n0)
    ensures FreshState(SetupAll(st, next, prev, vs, found, hs, f, i), st.conn, prev, vs, hs, n0, i)
    decreases i
  {
    if i == 0 {
      assert ConnFresh(st.conn, st.conn, hs) && InnerCached(st.cache, hs, 0);
    } else {
      FreshSetupAll(st, next, prev, vs, found, hs, f, i - 1, n0);
      var s := SetupAll(st, next, prev, vs, found, hs, f, i - 1);
      FreshCorner(s, st.conn, next, prev, vs, found, hs, f, i, n0);
      assert SetupAll(st, next, prev, vs, found, hs, f, i) == SetupCorner(s, next, prev, vs, found, hs, f, i - 1);
    }
  }

  /// The link records hp that add_face leaves, against hp0 before the links
  /// were written: each corner's halfedge leads to the next corner's and
  /// comes after the previous one's; a halfedge below n0 keeps its next link
  /// unless it is the prev of the stored outgoing halfedge of a corner's
  /// vertex, and keeps its prev link unless it is that outgoing halfedge.
  ghost predicate FaceLinked(hp: HalfedgeProps, hp0: HalfedgeProps, conn0: seq<Halfedge>, vs: seq<Vertex>, hs: seq<Halfedge>, n0: nat)
  {
    (forall i :: 0 <= i < |hs| ==> Get(hp.next, hs[i]) == hs[Succ(i, |hs|)] && Get(hp.prev, hs[Succ(i, |hs|)]) == hs[i]) &&
    (forall x :: 0 <= x < n0 && (forall c :: 0 <= c < |vs| ==> x != Get(hp0.prev, Get(conn0, vs[c]))) ==>
       Get(hp.next, x) == Get(hp0.next, x)) &&
    (forall x :: 0 <= x < n0 && (forall c :: 0 <= c < |vs| ==> x != Get(conn0, vs[c])) ==>
       Get(hp.prev, x) == Get(hp0.prev, x))
  }

  /// The links the setup loop caches on a face whose edges are all new,
  /// written over records with the same links as hp0, leave FaceLinked.
  lemma FreshLinked(hp0: HalfedgeProps, hp1: HalfedgeProps, st: Setup, conn0: seq<Halfedge>, vs: seq<Vertex>, hs: seq<Halfedge>, n0: nat)
    requires |hs| == |vs| && FreshState(st, conn0, hp0.prev, vs, hs, n0, |vs|)
    requires hp1.next == hp0.next && hp1.prev == hp0.prev && |hp0.next| == |hp0.prev| && n0 <= |hp0.next|
    requires forall k :: 0 <= k < |hs| ==> hs[k] < |hp0.next|
    ensures FaceLinked(LinkAll(hp1, st.cache), hp0, conn0, vs, hs, n0)
  {
    var hp := LinkAll(hp1, st.cache);
    forall i | 0 <= i < |hs| ensures Get(hp.next, hs[i]) == hs[Succ(i, |hs|)] && Get(hp.prev, hs[Succ(i, |hs|)]) == hs[i] {
      LinkAllLoop(hp1, st.cache, hs, i);
    }
    forall x | 0 <= x < n0 && (forall c :: 0 <= c < |vs| ==> x != Get(hp0.prev, Get(conn0, vs[c])))
      ensures Get(hp.next, x) == Get(hp0.next, x)
    {
      forall k | 0 <= k < |st.cache| ensures st.cache[k].first != x {
        assert OldEnd(st.cache[k], conn0, hp0.prev, vs, n0);
      }
      LinkAllKeeps(hp1, st.cache, x);
    }
    forall x | 0 <= x < n0 && (forall c :: 0 <= c < |vs| ==> x != Get(conn0, vs[c]))
      ensures Get(hp.prev, x) == Get(hp0.prev, x)
    {
      forall k | 0 <= k < |st.cache| ensures st.cache[k].second != x {
        assert OldEnd(st.cache[k], conn0, hp0.prev, vs, n0);
      }
      LinkAllKeeps(hp1, st.cache, x);
    }
  }

  /// FaceLinked holds after the setup loop and the next cache whenever the
  /// face's edges are all new.
  lemma FreshFinish(st0: Setup, hp0: HalfedgeProps, hp1: HalfedgeProps, vs: seq<Vertex>, found: seq<Halfedge>,
                    hs: seq<Halfedge>, f: Face, n0: nat)
    requires |vs| == |found| == |hs| && hp1.next == hp0.next && hp1.prev == hp0.prev && |hp0.next| == |hp0.prev|
    requires forall k :: 0 <= k < |hs| ==> hs[k] < |hp0.next|
    ensures FreshSetup(st0.conn, hp0.prev, found, hs, n0) && LoopLinks(st0.cache, hs) &&
            OldEnds(st0.cache, st0.conn, hp0.prev, vs, n0) && n0 <= |hp0.next| ==>
              FaceLinked(LinkAll(hp1, SetupAll(st0, hp0.next, hp0.prev, vs, found, hs, f, |vs|).cache), hp0, st0.conn, vs, hs, n0)
  {
    if FreshSetup(st0.conn, hp0.prev, found, hs, n0) && LoopLinks(st0.cache, hs) &&
       OldEnds(st0.cache, st0.conn, hp0.prev, vs, n0) && n0 <= |hp0.next| {
      FreshSetupAll(st0, hp0.next, hp0.prev, vs, found, hs, f, |vs|, n0);
      var st := SetupAll(st0, hp0.next, hp0.prev, vs, found, hs, f, |vs|);
      FreshLinked(hp0, hp1, st, st0.conn, vs, hs, n0);
    }
  }

  /// Phases 4 and 5 once the face is allocated: its halfedge, the setup loop
  /// and the next cache.  The new face is the face of exactly the corners'
  /// halfedges, and only connectivity changes.
  method LinkCorners(m: SurfaceMesh, vs: seq<Vertex>, found: seq<Halfedge>, hs: seq<Halfedge>, f: Face, cache0: seq<Link>, ghost n0: nat)
    returns (adjust: seq<bool>)
    requires m.Valid() && m.InRange() && |vs| == |found| == |hs| >= 1 && f < |m.fprops.conn|
    requires forall k :: 0 <= k < |vs| ==> vs[k] < |m.vprops.conn| && hs[k] < |m.hprops.next|
    requires LinksIn(cache0, |m.hprops.next|)
    modifies m`vprops, m`hprops, m`fprops
    ensures m.Valid() && m.InRange() && |adjust| == |vs|
    ensures m.vprops.point == old(m.vprops.point) && m.vprops.deleted == old(m.vprops.deleted)
    ensures |m.vprops.conn| == old(|m.vprops.conn|) && m.hprops.vertex == old(m.hprops.vertex)
    ensures m.fprops.deleted == old(m.fprops.deleted) && |m.fprops.conn| == old(|m.fprops.conn|)
    ensures m.FaceHalfedge(f) == hs[|hs| - 1]
    ensures forall k :: 0 <= k < |hs| ==> m.FaceOf(hs[k]) == f
    ensures |m.hprops.face| == old(|m.hprops.face|)
    ensures forall x :: 0 <= x < |m.hprops.face| ==> m.hprops.face[x] == f || m.hprops.face[x] == old(m.hprops.face[x])
    ensures FreshSetup(old(m.vprops.conn), old(m.hprops.prev), found, hs, n0) && LoopLinks(cache0, hs) &&
            OldEnds(cache0, old(m.vprops.conn), old(m.hprops.prev), vs, n0) && n0 <= old(|m.hprops.next|) ==>
              FaceLinked(m.hprops, old(m.hprops), old(m.vprops.conn), vs, hs, n0)
    ensures Assembled(m, old(m.hprops), old(m.vprops.conn), vs, found, hs, f, cache0)
    ensures adjust == Placed(old(m.hprops), old(m.vprops.conn), vs, found, hs, f, cache0).adjust
  {
    var n := |m.hprops.next|;
    m.SetFaceHalfedge(f, hs[|hs| - 1]);
    PutRefs(old(m.fprops.conn), f, hs[|hs| - 1], n);
    ghost var st0 := Setup(m.vprops.conn, m.hprops.face, cache0, Falses(|vs|));
    ghost var hp0 := m.hprops;
    var cache;
    cache, adjust := SetupCorners(m, vs, found, hs, f, cache0);
    forall k | 0 <= k < |hs| ensures Opposite(hs[k]) < n {
      HalfedgeRange(hs[k], |m.edeleted|);
    }
    SetupInRange(st0, hp0.next, hp0.prev, vs, found, hs, f, |vs|, n, |m.fprops.conn|);
    forall x | 0 <= x < |m.hprops.face| ensures m.hprops.face[x] == f || m.hprops.face[x] == hp0.face[x] {
      SetupFaces(st0, hp0.next, hp0.prev, vs, found, hs, f, |vs|, x);
    }
    forall k | 0 <= k < |hs| ensures m.FaceOf(hs[k]) == f {
      SetupFaces(st0, hp0.next, hp0.prev, vs, found, hs, f, |vs|, hs[k]);
      assert Among(hs, |hs|, hs[k]);
    }
    ghost var hp1 := m.hprops;
    ApplyLinks(m, cache);
    LinkAllInRange(hp1, cache, n);
    FreshFinish(st0, hp0, hp1, vs, found, hs, f, n0);
  }

  /// Phases 4 to 6 once the face is allocated: phases 4 and 5, then the
  /// adjustment, which changes only outgoing halfedges.
  method FinishFace(m: SurfaceMesh, vs: seq<Vertex>, found: seq<Halfedge>, hs: seq<Halfedge>, f: Face, cache0: seq<Link>, ghost n0: nat)
    requires m.Valid() && m.InRange() && |vs| == |found| == |hs| >= 1 && f < |m.fprops.conn|
    requires forall k :: 0 <= k < |vs| ==> vs[k] < |m.vprops.conn| && hs[k] < |m.hprops.next|
    requires LinksIn(cache0, |m.hprops.next|)
    modifies m`vprops, m`hprops, m`fprops
    ensures m.Valid() && m.InRange()
    ensures m.vprops.point == old(m.vprops.point) && m.vprops.deleted == old(m.vprops.deleted)
    ensures |m.vprops.conn| == old(|m.vprops.conn|) && m.hprops.vertex == old(m.hprops.vertex)
    ensures m.fprops.deleted == old(m.fprops.deleted) && |m.fprops.conn| == old(|m.fprops.conn|)
    ensures m.FaceHalfedge(f) == hs[|hs| - 1]
    ensures forall k :: 0 <= k < |hs| ==> m.FaceOf(hs[k]) == f
    ensures |m.hprops.face| == old(|m.hprops.face|)
    ensures forall x :: 0 <= x < |m.hprops.face| ==> m.hprops.face[x] == f || m.hprops.face[x] == old(m.hprops.face[x])
    ensures FreshSetup(old(m.vprops.conn), old(m.hprops.prev), found, hs, n0) && LoopLinks(cache0, hs) &&
            OldEnds(cache0, old(m.vprops.conn), old(m.hprops.prev), vs, n0) && n0 <= old(|m.hprops.next|) ==>
              FaceLinked(m.hprops, old(m.hprops), old(m.vprops.conn), vs, hs, n0)
    ensures NoneFound(found) ==> Assembled(m, old(m.hprops), old(m.vprops.conn), vs, found, hs, f, cache0)
  {
    var adjust := LinkCorners(m, vs, found, hs, f, cache0, n0);
    ghost var conn1 := m.vprops.conn;
    AdjustCorners(m, vs, adjust);
    if NoneFound(found) {
      SetupNoAdjust(Setup(old(m.vprops.conn), old(m.hprops.face), cache0, Falses(|vs|)), old(m.hprops.next), old(m.hprops.prev),
                    vs, found, hs, f, |vs|);
      assert forall v :: 0 <= v < |conn1| ==> m.vprops.conn[v] == conn1[v];
    }
  }

  /// Adding elements with unset deletion flags keeps the counters right.
  lemma KeepCounted(m: SurfaceMesh, vd: seq<bool>, ed: seq<bool>, fd: seq<bool>, ce: nat, cf: nat)
    requires m.deletedVertices == Count(vd) && m.deletedEdges == Count(ed) && m.deletedFaces == Count(fd)
    requires m.deletedVertices + m.deletedEdges + m.deletedFaces > 0 ==> m.hasGarbage
    requires m.vprops.deleted == vd && m.edeleted == ed + Falses(ce) && m.fprops.deleted == fd + Falses(cf)
    ensures m.Counted()
  {
    CountFalses(ed, ce);
    CountFalses(fd, cf);
  }

  /// Phase 3 with its consequences: the counters and every reference stay
  /// right, also when the allocation fails, and each corner ends up with a
  /// halfedge to the next corner, the existing one where there was one.
  method CreateEdges(m: SurfaceMesh, vs: seq<Vertex>, found: seq<Halfedge>) returns (r: Outcome<seq<Halfedge>>)
    requires m.Valid() && m.InRange() && m.Counted() && |vs| == |found| >= 1
    requires forall k :: 0 <= k < |vs| ==> vs[k] < |m.vprops.conn| && vs[k] != vs[Succ(k, |vs|)]
    requires FoundFits(m, vs, found)
    modifies m`hprops, m`edeleted
    ensures m.Valid() && m.InRange() && m.Counted()
    ensures r.Ok? <==> old(|m.hprops.next|) + 2 * Missing(found, |vs|) < MaxIndex
    ensures r.Fail? ==> r.error == AllocationError
    ensures r.Ok? ==> m.edeleted == old(m.edeleted) + Falses(Missing(found, |vs|))
    ensures r.Ok? ==> |r.value| == |vs| &&
                      forall i :: 0 <= i < |vs| ==> r.value[i] < |m.hprops.next| && m.ToVertex(r.value[i]) == vs[Succ(i, |vs|)]
    ensures r.Ok? ==> forall i :: 0 <= i < |vs| && IsValid(found[i]) ==> r.value[i] == found[i]
    ensures r.Ok? ==> FreshEdges(m.hprops, old(m.hprops), m.vprops.conn, found, r.value)
    ensures r.Ok? ==> m.hprops == Grown(old(m.hprops), vs, found, |vs|)
  {
    ghost var hp0 := m.hprops;
    ghost var ed0 := m.edeleted;
    assert forall k :: 0 <= k < |vs| && IsValid(found[k]) ==> Get(hp0.vertex, found[k]) == vs[Succ(k, |vs|)];
    r := MakeEdges(m, vs, found);
    ghost var j :| 0 <= j <= |vs| && m.hprops == Grown(hp0, vs, found, j) && m.edeleted == ed0 + Falses(Missing(found, j));
    GrownMeshInRange(m, hp0, vs, found, j);
    assert m.fprops.deleted + Falses(0) == m.fprops.deleted;
    KeepCounted(m, m.vprops.deleted, ed0, m.fprops.deleted, Missing(found, j), 0);
    if r.Ok? {
      forall i | 0 <= i < |vs| ensures r.value[i] < |m.hprops.next| && m.ToVertex(r.value[i]) == vs[Succ(i, |vs|)] {
        FilledMeaning(m, hp0, vs, found, i);
      }
    }
  }

  /// Phases 4 to 6 with their consequences: `new_face()`, which fails and
  /// changes nothing when the face indices run out; otherwise the new face
  /// is the face of every corner's halfedge.
  method CreateFace(m: SurfaceMesh, vs: seq<Vertex>, found: seq<Halfedge>, hs: seq<Halfedge>, cache0: seq<Link>,
                    ghost hp0: HalfedgeProps, ghost conn0: seq<Halfedge>)
    returns (r: Outcome<Face>)
    requires m.Valid() && m.InRange() && m.Counted() && |vs| == |found| == |hs| >= 1
    requires forall k :: 0 <= k < |vs| ==> vs[k] < |m.vprops.conn| && hs[k] < |m.hprops.next|
    requires LinksIn(cache0, |m.hprops.next|)
    requires m.vprops.conn == conn0 && FreshEdges(m.hprops, hp0, conn0, found, hs)
    modifies m`vprops, m`hprops, m`fprops
    ensures m.Valid() && m.InRange() && m.Counted()
    ensures r.Fail? <==> old(|m.fprops.conn|) == MaxIndex - 1
    ensures r.Fail? ==> r.error == AllocationError
    ensures r.Ok? ==> r.value == old(|m.fprops.conn|) && m.fprops.deleted == old(m.fprops.deleted) + [false] &&
                      m.FaceHalfedge(r.value) == hs[|hs| - 1]
    ensures m.vprops.point == old(m.vprops.point) && m.vprops.deleted == old(m.vprops.deleted)
    ensures |m.vprops.conn| == old(|m.vprops.conn|) && m.hprops.vertex == old(m.hprops.vertex)
    ensures r.Ok? ==> forall i :: 0 <= i < |hs| ==> m.FaceOf(hs[i]) == r.value
    ensures r.Ok? && NoneFound(found) && cache0 == [] ==> FreshFace(m, hp0, conn0, vs, hs, r.value)
    ensures r.Ok? && NoneFound(found) ==> Assembled(m, old(m.hprops), old(m.vprops.conn), vs, found, hs, r.value, cache0)
  {
    ghost var fp0 := m.fprops;
    ghost var hpG := m.hprops;
    r := m.NewFace();
    if r.Fail? {
      return;
    }
    WidenRefs(m.hprops.face, |fp0.conn|, |m.fprops.conn|);
    AppendRefs(fp0.conn, [Invalid], |m.hprops.next|, |m.hprops.next|);
    assert Falses(1) == [false];
    assert m.edeleted + Falses(0) == m.edeleted;
    KeepCounted(m, m.vprops.deleted, m.edeleted, fp0.deleted, 0, 1);
    FinishFace(m, vs, found, hs, r.value, cache0, |hp0.next|);
    KeepCounted(m, m.vprops.deleted, m.edeleted, fp0.deleted, 0, 1);
    FaceLinkedGrown(m.hprops, hpG, hp0, old(m.vprops.conn), vs, hs);
    FreshFaceMade(m, r.value, hs, hp0, old(m.vprops.conn), vs);
  }

  /// Creating edges keeps the links of the existing halfedges.
  lemma {:induction false} GrownLinks(hp: HalfedgeProps, vs: seq<Vertex>, hs: seq<Halfedge>, i: nat, x: nat)
    requires i <= |hs| == |vs| && x < |hp.next| && x < |hp.prev|
    ensures Grown(hp, vs, hs, i).next[x] == hp.next[x] && Grown(hp, vs, hs, i).prev[x] == hp.prev[x]
  {
    if i > 0 {
      GrownLinks(hp, vs, hs, i - 1, x);
    }
  }

  /// The second halfedge of the edge created for a missing corner k has no
  /// prev link.
  lemma {:induction false} GrownUnlinked(hp: HalfedgeProps, vs: seq<Vertex>, hs: seq<Halfedge>, i: nat, k: nat)
    requires i <= |hs| == |vs| && k < i && !IsValid(hs[k])
    ensures |hp.prev| + 2 * Missing(hs, k) + 1 < |Grown(hp, vs, hs, i).prev|
    ensures Grown(hp, vs, hs, i).prev[|hp.prev| + 2 * Missing(hs, k) + 1] == Invalid
  {
    MissingGrows(hs, k, i);
    if k < i - 1 {
      GrownUnlinked(hp, vs, hs, i - 1, k);
    }
  }

  /// The halfedges come in pairs.
  lemma Even(n: nat, e: nat)
    requires n == 2 * e
    ensures n % 2 == 0
  {
  }

  /// Corner i has halfedge n0 + 2i.
  predicate Numbered(hs: seq<Halfedge>, n0: nat)
  {
    forall i :: 0 <= i < |hs| ==> hs[i] == n0 + 2 * i
  }

  /// hp has at least the halfedges of hp0, with the same links.
  predicate LinksKept(hp: HalfedgeProps, hp0: HalfedgeProps)
  {
    |hp0.next| <= |hp.next| && |hp0.prev| <= |hp.prev| &&
    (forall x :: 0 <= x < |hp0.next| ==> hp.next[x] == hp0.next[x]) &&
    (forall x :: 0 <= x < |hp0.prev| ==> hp.prev[x] == hp0.prev[x])
  }

  /// With no edge found, corner i has halfedge n0 + 2i, the first of the i-th
  /// new edge.
  lemma FreshIndices(found: seq<Halfedge>, hs: seq<Halfedge>, n0: nat)
    requires |found| == |hs| && NoneFound(found)
    requires forall i :: 0 <= i < |hs| ==> hs[i] == Filled(found, n0, i)
    ensures Numbered(hs, n0)
  {
    forall i | 0 <= i < |hs| ensures hs[i] == n0 + 2 * i {
      NoneFoundFilled(found, n0, i);
    }
  }

  /// The other halves of the new corners' halfedges are no corner's and have
  /// no prev link after the edge creation.
  lemma FreshOpposites(hp0: HalfedgeProps, vs: seq<Vertex>, found: seq<Halfedge>, hs: seq<Halfedge>)
    requires |vs| == |found| == |hs| && NoneFound(found) && |hp0.next| == |hp0.prev| && |hp0.next| % 2 == 0
    requires Numbered(hs, |hp0.next|)
    ensures forall j :: 0 <= j < |hs| ==>
              NotCorner(hs, Opposite(hs[j])) && Get(Grown(hp0, vs, found, |vs|).prev, Opposite(hs[j])) == Invalid
  {
    var n0, prev := |hp0.next|, Grown(hp0, vs, found, |vs|).prev;
    forall j | 0 <= j < |hs|
      ensures NotCorner(hs, Opposite(hs[j])) && Get(prev, Opposite(hs[j])) == Invalid
    {
      assert Opposite(hs[j]) == n0 + 2 * j + 1;
      NoneFoundAt(found, j);
      GrownUnlinked(hp0, vs, found, |vs|, j);
    }
  }

  /// After the edges of a face with no edge found are created, the setup
  /// meets what FreshSetup asks.
  lemma FreshBuild(hp0: HalfedgeProps, conn0: seq<Halfedge>, vs: seq<Vertex>, found: seq<Halfedge>, hs: seq<Halfedge>)
    requires |vs| == |found| == |hs| && NoneFound(found)
    requires |hp0.next| == |hp0.prev| && |hp0.next| % 2 == 0 && |Grown(hp0, vs, found, |vs|).prev| < MaxIndex
    requires Numbered(hs, |hp0.next|)
    requires RefsIn(conn0, |hp0.next|) && RefsIn(hp0.prev, |hp0.next|)
    ensures FreshSetup(conn0, Grown(hp0, vs, found, |vs|).prev, found, hs, |hp0.next|)
  {
    var n0, prev := |hp0.next|, Grown(hp0, vs, found, |vs|).prev;
    FreshOpposites(hp0, vs, found, hs);
    forall x | 0 <= x < n0 ensures Ref(prev[x], n0) {
      GrownLinks(hp0, vs, found, |vs|, x);
    }
    NoneFoundFilled(found, n0, |vs|);
    forall j | 0 <= j < |hs| ensures n0 <= hs[j] < MaxIndex && n0 <= Opposite(hs[j]) {
      assert Opposite(hs[j]) == n0 + 2 * j + 1;
    }
  }

  /// What the edge creation leaves: every link of the existing halfedges
  /// kept and, with no edge found, the corners' halfedges numbered from the
  /// old end and what FreshSetup asks of the setup loop.
  predicate FreshEdges(hp: HalfedgeProps, hp0: HalfedgeProps, conn0: seq<Halfedge>, found: seq<Halfedge>, hs: seq<Halfedge>)
  {
    LinksKept(hp, hp0) && |hp0.next| == |hp0.prev| && |hp.prev| < MaxIndex && RefsIn(conn0, |hp0.next|) &&
    (NoneFound(found) ==> Numbered(hs, |hp0.next|) && FreshSetup(conn0, hp.prev, found, hs, |hp0.next|))
  }

  /// The edge creation keeps every link of the existing halfedges and, with
  /// no edge found, numbers the corners' halfedges from the old end and
  /// meets what FreshSetup asks.
  lemma FreshEdgesHold(hp: HalfedgeProps, hp0: HalfedgeProps, conn0: seq<Halfedge>, vs: seq<Vertex>, found: seq<Halfedge>,
                        hs: seq<Halfedge>, edges: nat)
    requires |vs| == |found| == |hs| && hp == Grown(hp0, vs, found, |vs|)
    requires forall i :: 0 <= i < |hs| ==> hs[i] == Filled(found, |hp0.next|, i)
    requires |hp0.next| == |hp0.prev| == 2 * edges
    requires |hp.prev| < MaxIndex && RefsIn(conn0, |hp0.next|) && RefsIn(hp0.prev, |hp0.next|)
    ensures FreshEdges(hp, hp0, conn0, found, hs)
  {
    Even(|hp0.next|, edges);
    forall x | 0 <= x < |hp0.next| ensures Grown(hp0, vs, found, |vs|).next[x] == hp0.next[x] {
      GrownLinks(hp0, vs, found, |vs|, x);
    }
    forall x | 0 <= x < |hp0.prev| ensures Grown(hp0, vs, found, |vs|).prev[x] == hp0.prev[x] {
      GrownLinks(hp0, vs, found, |vs|, x);
    }
    if NoneFound(found) {
      FreshIndices(found, hs, |hp0.next|);
      FreshBuild(hp0, conn0, vs, found, hs);
    }
  }

  /// FaceLinked against the records after the edge creation is FaceLinked
  /// against the records before it: the two agree on the old halfedges.
  lemma FaceLinkedGrown(hp: HalfedgeProps, hpG: HalfedgeProps, hp0: HalfedgeProps, conn0: seq<Halfedge>,
                        vs: seq<Vertex>, hs: seq<Halfedge>)
    requires LinksKept(hpG, hp0) && |hp0.next| == |hp0.prev| && |hpG.prev| < MaxIndex && RefsIn(conn0, |hp0.next|)
    ensures FaceLinked(hp, hpG, conn0, vs, hs, |hp0.next|) ==> FaceLinked(hp, hp0, conn0, vs, hs, |hp0.next|)
  {
    var n0 := |hp0.next|;
    assert forall c :: 0 <= c < |vs| ==> Get(hpG.prev, Get(conn0, vs[c])) == Get(hp0.prev, Get(conn0, vs[c]));
    assert forall x :: 0 <= x < n0 ==> Get(hpG.next, x) == Get(hp0.next, x) && Get(hpG.prev, x) == Get(hp0.prev, x);
  }

  /// A face whose corners' halfedges are distinct and linked round in order
  /// has them as its loop, from its stored halfedge, the last corner's.
  lemma FreshFaceLoop(m: SurfaceMesh, f: Face, hs: seq<Halfedge>)
    requires 0 < |hs| <= |m.hprops.next| && forall j, k :: 0 <= j < k < |hs| ==> hs[j] != hs[k]
    requires forall i :: 0 <= i < |hs| ==> Get(m.hprops.next, hs[i]) == hs[Succ(i, |hs|)]
    requires m.FaceHalfedge(f) == hs[|hs| - 1]
    ensures m.FaceLoop(f) == [hs[|hs| - 1]] + hs[..|hs| - 1]
  {
    var n := |hs|;
    var ws := [hs[n - 1]] + hs[..n - 1];
    assert forall t :: 0 < t < n ==> ws[t] == hs[t - 1];
    forall t, u | 0 <= t < u < n ensures ws[t] != ws[u] {
      if t > 0 {
        assert ws[t] == hs[t - 1];
      }
    }
    forall t | 0 <= t < n - 1 ensures Get(m.hprops.next, ws[t]) == ws[t + 1] {
      if t == 0 {
        assert Succ(n - 1, n) == 0;
      } else {
        assert ws[t] == hs[t - 1] && Succ(t - 1, n) == t;
      }
    }
    assert Get(m.hprops.next, ws[n - 1]) == ws[0] by {
      if n > 1 {
        assert ws[n - 1] == hs[n - 2] && Succ(n - 2, n) == n - 1;
      }
    }
    m.WalkIsWalked(NextStep, ws[0], ws[0], |m.hprops.next| + 1);
    CycleWalked(m.hprops, ws, 0, |m.hprops.next| + 1);
  }

  /// The face add_face makes when the edges at its corners are all new: the
  /// corners' halfedges are numbered from the old end of hp0 and linked as
  /// FaceLinked says, and the face's loop is exactly them, from the last
  /// corner's on.
  ghost predicate FreshFace(m: SurfaceMesh, hp0: HalfedgeProps, conn0: seq<Halfedge>, vs: seq<Vertex>, hs: seq<Halfedge>, f: Face)
    reads m`hprops, m`fprops
  {
    |hs| >= 1 && Numbered(hs, |hp0.next|) && FaceLinked(m.hprops, hp0, conn0, vs, hs, |hp0.next|) &&
    m.FaceLoop(f) == [hs[|hs| - 1]] + hs[..|hs| - 1]
  }

  /// Numbered and linked corners make the face's loop.
  lemma FreshFaceMade(m: SurfaceMesh, f: Face, hs: seq<Halfedge>, hp0: HalfedgeProps, conn0: seq<Halfedge>, vs: seq<Vertex>)
    requires |hs| >= 1 && hs[|hs| - 1] < |m.hprops.next| && m.FaceHalfedge(f) == hs[|hs| - 1]
    ensures Numbered(hs, |hp0.next|) && FaceLinked(m.hprops, hp0, conn0, vs, hs, |hp0.next|) ==> FreshFace(m, hp0, conn0, vs, hs, f)
  {
    if Numbered(hs, |hp0.next|) && FaceLinked(m.hprops, hp0, conn0, vs, hs, |hp0.next|) {
      FreshFaceLoop(m, f, hs);
    }
  }

  /// Phases 3 to 6, once both tests passed: the missing edges, the face, and
  /// its halfedges.  Only the allocation can fail now.
  method Build(m: SurfaceMesh, vs: seq<Vertex>, found: seq<Halfedge>, cache0: seq<Link>,
               ghost hp0: HalfedgeProps, ghost vp0: VertexProps, ghost ed0: seq<bool>, ghost fp0: FaceProps)
    returns (r: Outcome<Face>, hs: seq<Halfedge>)
    requires m.Valid() && m.InRange() && m.Counted() && |vs| == |found| >= 1
    requires m.hprops == hp0 && m.vprops == vp0 && m.edeleted == ed0 && m.fprops == fp0
    requires forall k :: 0 <= k < |vs| ==> vs[k] < |m.vprops.conn| && vs[k] != vs[Succ(k, |vs|)]
    requires FoundFits(m, vs, found)
    requires LinksIn(cache0, |m.hprops.next|)
    modifies m`vprops, m`hprops, m`edeleted, m`fprops
    ensures m.Valid() && m.InRange() && m.Counted()
    ensures r.Fail? ==> r.error == AllocationError
    ensures r.Fail? <==> |hp0.next| + 2 * Missing(found, |vs|) >= MaxIndex || |fp0.conn| == MaxIndex - 1
    ensures r.Ok? ==> |hs| == |vs| && r.value == |fp0.conn| && m.fprops.deleted == fp0.deleted + [false] &&
                      m.FaceHalfedge(r.value) == hs[|hs| - 1]
    ensures r.Ok? ==> m.edeleted == ed0 + Falses(Missing(found, |vs|))
    ensures r.Ok? ==> m.vprops.point == vp0.point && m.vprops.deleted == vp0.deleted && |m.vprops.conn| == |vp0.conn|
    ensures r.Ok? ==> |hs| == |vs| &&
                      forall i :: 0 <= i < |vs| ==> hs[i] < |m.hprops.next| && m.ToVertex(hs[i]) == vs[Succ(i, |vs|)] &&
                                                    m.FaceOf(hs[i]) == r.value
    ensures r.Ok? ==> forall i :: 0 <= i < |vs| && IsValid(found[i]) ==> hs[i] == found[i]
    ensures r.Ok? && NoneFound(found) && cache0 == [] ==> FreshFace(m, hp0, vp0.conn, vs, hs, r.value)
    ensures r.Ok? && NoneFound(found) && cache0 == [] ==>
              Assembled(m, Grown(hp0, vs, found, |vs|), vp0.conn, vs, found, hs, r.value, [])
  {
    var e := CreateEdges(m, vs, found);
    if e.Fail? {
      return Fail(e.error), [];
    }
    hs := e.value;
    WidenLinks(cache0, old(|m.hprops.next|), |m.hprops.next|);
    r := FinishBuild(m, vs, found, hs, cache0, hp0, vp0, ed0, fp0);
  }

  /// Phases 4 to 6 of Build once the edges exist, against the records hp0,
  /// vp0, ed0 and fp0 Build started from.
  method FinishBuild(m: SurfaceMesh, vs: seq<Vertex>, found: seq<Halfedge>, hs: seq<Halfedge>, cache0: seq<Link>,
                     ghost hp0: HalfedgeProps, ghost vp0: VertexProps, ghost ed0: seq<bool>, ghost fp0: FaceProps)
    returns (r: Outcome<Face>)
    requires m.Valid() && m.InRange() && m.Counted() && |vs| == |found| == |hs| >= 1
    requires forall i :: 0 <= i < |vs| ==> vs[i] < |m.vprops.conn| && hs[i] < |m.hprops.next| && m.ToVertex(hs[i]) == vs[Succ(i, |vs|)]
    requires LinksIn(cache0, |m.hprops.next|)
    requires m.vprops == vp0 && m.fprops == fp0 && m.edeleted == ed0 + Falses(Missing(found, |vs|))
    requires FreshEdges(m.hprops, hp0, vp0.conn, found, hs) && m.hprops == Grown(hp0, vs, found, |vs|)
    modifies m`vprops, m`hprops, m`fprops
    ensures m.Valid() && m.InRange() && m.Counted()
    ensures r.Fail? <==> |fp0.conn| == MaxIndex - 1
    ensures r.Fail? ==> r.error == AllocationError
    ensures r.Ok? ==> r.value == |fp0.conn| && m.fprops.deleted == fp0.deleted + [false] && m.FaceHalfedge(r.value) == hs[|hs| - 1]
    ensures m.edeleted == ed0 + Falses(Missing(found, |vs|))
    ensures m.vprops.point == vp0.point && m.vprops.deleted == vp0.deleted && |m.vprops.conn| == |vp0.conn|
    ensures r.Ok? ==> forall i :: 0 <= i < |vs| ==> hs[i] < |m.hprops.next| && m.ToVertex(hs[i]) == vs[Succ(i, |vs|)] &&
                                                    m.FaceOf(hs[i]) == r.value
    ensures r.Ok? && NoneFound(found) && cache0 == [] ==> FreshFace(m, hp0, vp0.conn, vs, hs, r.value)
    ensures r.Ok? && NoneFound(found) && cache0 == [] ==>
              Assembled(m, Grown(hp0, vs, found, |vs|), vp0.conn, vs, found, hs, r.value, [])
  {
    r := CreateFace(m, vs, found, hs, cache0, hp0, vp0.conn);
  }

  /// add_face throws a TopologyException: a corner fails its tests, or the
  /// patch at some corner cannot be relinked.
  predicate Rejected(m: SurfaceMesh, vs: seq<Vertex>)
    reads m`vprops, m`hprops
  {
    !CornersOk(m, vs, |vs|) || Relinked(m, FoundAll(m, vs, |vs|), |vs|).Fail?
  }

  /// The relinking of the halfedges found at the corners: its links lie in
  /// the mesh, and a failure is a TopologyException.
  method RelinkFound(m: SurfaceMesh, vs: seq<Vertex>, found: seq<Halfedge>) returns (r: Outcome<seq<Link>>)
    requires m.Valid() && m.InRange() && Admissible(m, vs) && found == FoundAll(m, vs, |vs|)
    ensures r == Relinked(m, found, |vs|)
    ensures r.Fail? ==> r.error == TopologyError
    ensures r.Ok? ==> FoundFits(m, vs, found) && LinksIn(r.value, |m.hprops.next|)
    ensures NoneFound(found) ==> r == Ok([])
  {
    RelinkedNone(m, found, |vs|);
    FoundAllIn(m, vs);
    RelinkedError(m, found, |vs|);
    RelinkedIn(m, found, |vs|);
    r := Relink(m, found);
  }

  /// Phases 1 and 2, which only read the mesh: TopologyException exactly
  /// when add_face rejects the face; otherwise the halfedges found and the
  /// links the relinking cached.
  method Test(m: SurfaceMesh, vs: seq<Vertex>) returns (r: Outcome<seq<Link>>, found: seq<Halfedge>)
    requires m.Valid() && m.InRange() && Admissible(m, vs)
    ensures r.Fail? <==> Rejected(m, vs)
    ensures r.Fail? ==> r.error == TopologyError
    ensures r.Ok? ==> found == FoundAll(m, vs, |vs|) && FoundFits(m, vs, found) && LinksIn(r.value, |m.hprops.next|)
    ensures r.Ok? && NoneFound(found) ==> r.value == []
  {
    found := FoundAll(m, vs, |vs|);
    var c := CheckCorners(m, vs);
    if c.Fail? {
      r := Fail(TopologyError);
    } else {
      r := RelinkFound(m, vs, found);
    }
  }

  /// `add_face(vertices)`.  It throws a TopologyException exactly when the
  /// tests reject the face, and then changes nothing; it throws an
  /// AllocationException when the new edges or the face exhaust the index
  /// type.  Otherwise the new face is the last one, one edge is appended per
  /// missing corner, the existing halfedges between corners are reused, and
  /// the face's halfedges run from each corner to the next.
  method AddFace(m: SurfaceMesh, vs: seq<Vertex>) returns (r: Outcome<Face>, ghost found: seq<Halfedge>, ghost hs: seq<Halfedge>)
    requires m.Valid() && m.InRange() && m.Counted() && Admissible(m, vs)
    modifies m`vprops, m`hprops, m`edeleted, m`fprops
    ensures m.Valid() && m.InRange() && m.Counted()
    ensures found == old(FoundAll(m, vs, |vs|))
    ensures r.Fail? ==> r.error == TopologyError || r.error == AllocationError
    ensures r == Fail(TopologyError) <==> old(Rejected(m, vs))
    ensures r == Fail(TopologyError) ==> unchanged(m)
    ensures r == Fail(AllocationError) <==>
              !old(Rejected(m, vs)) &&
              (old(|m.hprops.next|) + 2 * Missing(found, |vs|) >= MaxIndex || old(|m.fprops.conn|) == MaxIndex - 1)
    ensures r.Ok? ==> |hs| == |vs| && r.value == old(|m.fprops.conn|) && m.fprops.deleted == old(m.fprops.deleted) + [false] &&
                      m.FaceHalfedge(r.value) == hs[|hs| - 1]
    ensures r.Ok? ==> m.edeleted == old(m.edeleted) + Falses(Missing(found, |vs|))
    ensures r.Ok? ==> m.vprops.point == old(m.vprops.point) && m.vprops.deleted == old(m.vprops.deleted) &&
                      |m.vprops.conn| == old(|m.vprops.conn|)
    ensures r.Ok? ==> |hs| == |vs| &&
                      forall i :: 0 <= i < |vs| ==> hs[i] < |m.hprops.next| && m.ToVertex(hs[i]) == vs[Succ(i, |vs|)] &&
                                                    m.FaceOf(hs[i]) == r.value
    ensures r.Ok? ==> forall i :: 0 <= i < |vs| && IsValid(found[i]) ==> hs[i] == found[i]
    ensures r.Ok? && NoneFound(found) ==> FreshFace(m, old(m.hprops), old(m.vprops.conn), vs, hs, r.value)
    ensures r.Ok? && NoneFound(found) ==>
              Assembled(m, Grown(old(m.hprops), vs, found, |vs|), old(m.vprops.conn), vs, found, hs, r.value, [])
  {
    ghost var rejected, found0 := Rejected(m, vs), FoundAll(m, vs, |vs|);
    var t, halfedges := Test(m, vs);
    assert unchanged(m);
    assert t.Fail? <==> rejected;
    assert t.Ok? ==> halfedges == found0;
    if t.Fail? {
      return Fail(TopologyError), FoundAll(m, vs, |vs|), [];
    }
    found := halfedges;
    r, hs := Build(m, vs, halfedges, t.value, old(m.hprops), old(m.vprops), old(m.edeleted), old(m.fprops));
  }

  /// A triangle made on an empty mesh: its halfedges are 0, 2 and 4, linked
  /// round, and its loop starts from the last corner's.
  lemma FreshTriangleLoop(m: SurfaceMesh, hp0: HalfedgeProps, conn0: seq<Halfedge>, vs: seq<Vertex>, hs: seq<Halfedge>, f: Face)
    requires |hs| == 3 && |hp0.next| == 0 && FreshFace(m, hp0, conn0, vs, hs, f)
    ensures m.Next(0) == 2 && m.Next(2) == 4 && m.Next(4) == 0 && m.Prev(0) == 4 && m.Prev(2) == 0 && m.Prev(4) == 2
    ensures m.FaceLoop(f) == [4, 0, 2] && hs == [0, 2, 4]
  {
    assert hs[0] == 0 && hs[1] == 2 && hs[2] == 4;
    assert Succ(0, 3) == 1 && Succ(1, 3) == 2 && Succ(2, 3) == 0;
    assert [hs[2]] + hs[..2] == [4, 0, 2];
  }

  /// A corner between two new edges at a vertex without an outgoing
  /// halfedge: the vertex leaves on the outer halfedge of corner i, and the
  /// outer and the inner link are cached.
  lemma NewCornerStep(st: Setup, next: seq<Halfedge>, prev: seq<Halfedge>, vs: seq<Vertex>,
                      found: seq<Halfedge>, hs: seq<Halfedge>, f: Face, i: nat)
    requires |vs| == |found| == |hs| && i < |vs|
    requires !IsValid(found[i]) && !IsValid(found[Succ(i, |vs|)]) && !IsValid(Get(st.conn, vs[Succ(i, |vs|)]))
    ensures var ii := Succ(i, |vs|);
            SetupCorner(st, next, prev, vs, found, hs, f, i) ==
              Setup(Put(st.conn, vs[ii], Opposite(hs[i])), Put(st.face, hs[i], f),
                    st.cache + [Link(Opposite(hs[ii]), Opposite(hs[i]))] + [Link(hs[i], hs[ii])], st.adjust)
  {
  }

  /// The halfedge records of a mesh without edges once the three edges of
  /// the triangle on vertices 0, 1 and 2 are created.
  lemma TriangleGrown(nil: HalfedgeProps, vs: seq<Vertex>, none: seq<Halfedge>)
    requires nil == HalfedgeProps([], [], [], []) && vs == [0, 1, 2] && none == [Invalid, Invalid, Invalid]
    ensures var six := [Invalid, Invalid, Invalid, Invalid, Invalid, Invalid];
            Grown(nil, vs, none, 3) == HalfedgeProps(six, [1, 0, 2, 1, 0, 2], six, six)
  {
    assert Succ(0, 3) == 1 && Succ(1, 3) == 2 && Succ(2, 3) == 0;
    var none2 := NoHalfedges;
    GrownStep(nil, vs, none, 0, nil);
    var g1 := HalfedgeProps(nil.face + none2, nil.vertex + [1, 0], nil.next + none2, nil.prev + none2);
    GrownStep(nil, vs, none, 1, g1);
    var g2 := HalfedgeProps(g1.face + none2, g1.vertex + [2, 1], g1.next + none2, g1.prev + none2);
    GrownStep(nil, vs, none, 2, g2);
    var g3 := HalfedgeProps(g2.face + none2, g2.vertex + [0, 2], g2.next + none2, g2.prev + none2);
    assert g3.vertex == [1, 0, 2, 1, 0, 2];
    assert g3.face == [Invalid, Invalid, Invalid, Invalid, Invalid, Invalid];
  }

  /// One more corner whose edge is new: two halfedges from the corner's
  /// successor and from the corner are appended, without face or links.
  lemma GrownStep(hp: HalfedgeProps, vs: seq<Vertex>, hs: seq<Halfedge>, i: nat, g: HalfedgeProps)
    requires i < |hs| == |vs| && !IsValid(hs[i]) && Grown(hp, vs, hs, i) == g
    ensures Grown(hp, vs, hs, i + 1) ==
              HalfedgeProps(g.face + NoHalfedges, g.vertex + [vs[Succ(i, |vs|)], vs[i]], g.next + NoHalfedges, g.prev + NoHalfedges)
  {
  }

  /// The setup loop on that triangle: each vertex gets the outer halfedge
  /// into its predecessor, the face goes on 0, 2 and 4, and the outer and
  /// inner links are cached corner by corner.
  lemma TriangleSetup(f: Face)
    ensures var six := [Invalid, Invalid, Invalid, Invalid, Invalid, Invalid];
            Placed(HalfedgeProps(six, [1, 0, 2, 1, 0, 2], six, six), [Invalid, Invalid, Invalid], [0, 1, 2],
                   [Invalid, Invalid, Invalid], [0, 2, 4], f, []) ==
              Setup([5, 1, 3], [f, Invalid, f, Invalid, f, Invalid],
                    [Link(3, 1), Link(0, 2), Link(5, 3), Link(2, 4), Link(1, 5), Link(4, 0)], Falses(3))
  {
    var six := [Invalid, Invalid, Invalid, Invalid, Invalid, Invalid];
    var vs, none, hs := [0, 1, 2], [Invalid, Invalid, Invalid], [0, 2, 4];
    assert Succ(0, 3) == 1 && Succ(1, 3) == 2 && Succ(2, 3) == 0;
    assert Opposite(0) == 1 && Opposite(2) == 3 && Opposite(4) == 5;
    var st0 := Setup([Invalid, Invalid, Invalid], six, [], Falses(3));
    assert SetupAll(st0, six, six, vs, none, hs, f, 0) == st0;
    NewCornerStep(st0, six, six, vs, none, hs, f, 0);
    var s1 := SetupAll(st0, six, six, vs, none, hs, f, 1);
    assert s1 == Setup([Invalid, 1, Invalid], six[0 := f], [Link(3, 1), Link(0, 2)], Falses(3));
    NewCornerStep(s1, six, six, vs, none, hs, f, 1);
    var s2 := SetupAll(st0, six, six, vs, none, hs, f, 2);
    assert s2 == Setup([Invalid, 1, 3], six[0 := f][2 := f], [Link(3, 1), Link(0, 2), Link(5, 3), Link(2, 4)], Falses(3));
    NewCornerStep(s2, six, six, vs, none, hs, f, 2);
  }

  /// One more cached link: its next and prev records are written last.
  lemma LinkAllStep(hp: HalfedgeProps, cache: seq<Link>, k: nat, next: seq<Halfedge>, prev: seq<Halfedge>)
    requires k < |cache| && LinkAll(hp, cache[..k]).next == next && LinkAll(hp, cache[..k]).prev == prev
    ensures LinkAll(hp, cache[..k + 1]).next == Put(next, cache[k].first, cache[k].second)
    ensures LinkAll(hp, cache[..k + 1]).prev == Put(prev, cache[k].second, cache[k].first)
  {
    assert cache[..k + 1][..k] == cache[..k];
  }

  /// The six cached links of the triangle written on records without links.
  lemma TriangleLinks(hp: HalfedgeProps, cache: seq<Link>)
    requires hp.next == hp.prev == [Invalid, Invalid, Invalid, Invalid, Invalid, Invalid]
    requires cache == [Link(3, 1), Link(0, 2), Link(5, 3), Link(2, 4), Link(1, 5), Link(4, 0)]
    ensures LinkAll(hp, cache).next == [2, 5, 4, 1, 0, 3] && LinkAll(hp, cache).prev == [4, 3, 0, 5, 2, 1]
  {
    var I := Invalid;
    assert cache[..0] == [];
    LinkAllStep(hp, cache, 0, hp.next, hp.prev);
    LinkAllStep(hp, cache, 1, [I, I, I, 1, I, I], [I, 3, I, I, I, I]);
    LinkAllStep(hp, cache, 2, [2, I, I, 1, I, I], [I, 3, 0, I, I, I]);
    LinkAllStep(hp, cache, 3, [2, I, I, 1, I, 3], [I, 3, 0, 5, I, I]);
    LinkAllStep(hp, cache, 4, [2, I, 4, 1, I, 3], [I, 3, 0, 5, 2, I]);
    LinkAllStep(hp, cache, 5, [2, 5, 4, 1, I, 3], [I, 3, 0, 5, 2, 1]);
    assert cache[..6] == cache;
  }

  /// The records add_face writes for a triangle on three isolated vertices of
  /// an empty mesh: the inner loop 0, 2, 4 carries the face, the outer loop
  /// 1, 5, 3 has none, and every vertex leaves on an outer halfedge.
  lemma TriangleAssembled(m: SurfaceMesh, f: Face)
    requires Assembled(m, Grown(HalfedgeProps([], [], [], []), [0, 1, 2], [Invalid, Invalid, Invalid], 3),
                       [Invalid, Invalid, Invalid], [0, 1, 2], [Invalid, Invalid, Invalid], [0, 2, 4], f, [])
    ensures m.hprops == HalfedgeProps([f, Invalid, f, Invalid, f, Invalid], [1, 0, 2, 1, 0, 2],
                                      [2, 5, 4, 1, 0, 3], [4, 3, 0, 5, 2, 1])
    ensures m.vprops.conn == [5, 1, 3]
  {
    var six := [Invalid, Invalid, Invalid, Invalid, Invalid, Invalid];
    TriangleGrown(HalfedgeProps([], [], [], []), [0, 1, 2], [Invalid, Invalid, Invalid]);
    TriangleSetup(f);
    TriangleLinks(HalfedgeProps([f, Invalid, f, Invalid, f, Invalid], [1, 0, 2, 1, 0, 2], six, six),
                  [Link(3, 1), Link(0, 2), Link(5, 3), Link(2, 4), Link(1, 5), Link(4, 0)]);
  }

  /// `add_triangle(v0, v1, v2)`: add_face on the three vertices.  A new face's
  /// halfedge is the one into v0, and the face owns it.
  method AddTriangle(m: SurfaceMesh, v0: Vertex, v1: Vertex, v2: Vertex) returns (r: Outcome<Face>)
    requires m.Valid() && m.InRange() && m.Counted() && Admissible(m, [v0, v1, v2])
    modifies m`vprops, m`hprops, m`edeleted, m`fprops
    ensures m.Valid() && m.InRange() && m.Counted()
    ensures r == Fail(TopologyError) <==> old(Rejected(m, [v0, v1, v2]))
    ensures r == Fail(TopologyError) ==> unchanged(m)
    ensures r.Ok? ==> r.value == old(|m.fprops.conn|) && m.fprops.deleted == old(m.fprops.deleted) + [false]
    ensures r.Ok? ==> m.ToVertex(m.FaceHalfedge(r.value)) == v0 && m.FaceOf(m.FaceHalfedge(r.value)) == r.value
    ensures r.Ok? ==> old(|m.edeleted|) <= |m.edeleted| <= old(|m.edeleted|) + 3
  {
    ghost var found, hs;
    r, found, hs := AddFace(m, [v0, v1, v2]);
  }

  /// `add_quad(v0, v1, v2, v3)`: add_face on the four vertices.
  method AddQuad(m: SurfaceMesh, v0: Vertex, v1: Vertex, v2: Vertex, v3: Vertex) returns (r: Outcome<Face>)
    requires m.Valid() && m.InRange() && m.Counted() && Admissible(m, [v0, v1, v2, v3])
    modifies m`vprops, m`hprops, m`edeleted, m`fprops
    ensures m.Valid() && m.InRange() && m.Counted()
    ensures r == Fail(TopologyError) <==> old(Rejected(m, [v0, v1, v2, v3]))
    ensures r == Fail(TopologyError) ==> unchanged(m)
    ensures r.Ok? ==> r.value == old(|m.fprops.conn|) && m.fprops.deleted == old(m.fprops.deleted) + [false]
    ensures r.Ok? ==> m.ToVertex(m.FaceHalfedge(r.value)) == v0 && m.FaceOf(m.FaceHalfedge(r.value)) == r.value
    ensures r.Ok? ==> old(|m.edeleted|) <= |m.edeleted| <= old(|m.edeleted|) + 4
  {
    ghost var found, hs;
    r, found, hs := AddFace(m, [v0, v1, v2, v3]);
  }

  /// Three isolated vertices in a mesh without edges pass every test of
  /// add_face, and no halfedge between them exists.
  lemma FreshCorners(m: SurfaceMesh)
    requires m.Valid() && m.vprops.conn == [Invalid, Invalid, Invalid] && m.hprops == HalfedgeProps([], [], [], [])
    ensures Admissible(m, [0, 1, 2]) && FoundAll(m, [0, 1, 2], 3) == [Invalid, Invalid, Invalid]
    ensures !Rejected(m, [0, 1, 2])
  {
    var vs := [0, 1, 2];
    FoundAllAt(m, vs, 3);
    assert FoundAll(m, vs, 3) == [Invalid, Invalid, Invalid];
    assert CornerOk(m, vs, 0) && CornerOk(m, vs, 1) && CornerOk(m, vs, 2);
    assert CornersOk(m, vs, 1);
    assert CornersOk(m, vs, 2);
    assert CornersOk(m, vs, 3);
    var none := [Invalid, Invalid, Invalid];
    assert Relinked(m, none, 1) == Ok([]);
    assert Relinked(m, none, 2) == Ok([]);
    assert Relinked(m, none, 3) == Ok([]);
  }

  /// add_triangle on the three vertices of a mesh that holds nothing else
  /// (the state three add_vertex calls leave in an empty mesh) succeeds with
  /// face 0 and leaves three vertices, three edges, one face and halfedges 0
  /// to 5.
  method FreshTriangle(m: SurfaceMesh) returns (r: Outcome<Face>)
    requires m.vprops == VertexProps([Origin, Origin, Origin], [Invalid, Invalid, Invalid], [false, false, false])
    requires m.hprops == HalfedgeProps([], [], [], []) && m.edeleted == [] && m.fprops == FaceProps([], [])
    requires m.deletedVertices == 0 && m.deletedEdges == 0 && m.deletedFaces == 0
    modifies m`vprops, m`hprops, m`edeleted, m`fprops
    ensures r == Ok(0)
    ensures m.NVertices() == 3 && m.NEdges() == 3 && m.NFaces() == 1 && m.HalfedgesSize() == 6
    ensures m.Next(0) == 2 && m.Next(2) == 4 && m.Next(4) == 0 && m.Prev(0) == 4 && m.Prev(2) == 0 && m.Prev(4) == 2
    ensures m.FaceLoop(0) == [4, 0, 2]
    ensures m.Valid() && m.InRange() && m.Counted()
    ensures m.hprops == HalfedgeProps([0, Invalid, 0, Invalid, 0, Invalid], [1, 0, 2, 1, 0, 2],
                                      [2, 5, 4, 1, 0, 3], [4, 3, 0, 5, 2, 1])
    ensures m.vprops == VertexProps([Origin, Origin, Origin], [5, 1, 3], [false, false, false])
    ensures m.edeleted == [false, false, false] && m.fprops == FaceProps([4], [false])
  {
    CountFalses([], 3);
    assert m.vprops.deleted == [] + Falses(3);
    FreshCorners(m);
    assert m.Counted();
    ghost var hp0, conn0 := m.hprops, m.vprops.conn;
    var vs: seq<Vertex> := [0, 1, 2];
    ghost var found, hs;
    r, found, hs := AddFace(m, vs);
    assert found == [Invalid, Invalid, Invalid];
    assert Missing(found, 1) == 1;
    assert Missing(found, 2) == 2;
    assert Missing(found, 3) == 3;
    assert NoneFound(found) && r.Ok?;
    TriangleMade(m, hp0, conn0, vs, found, hs, r);
  }

  /// The mesh add_face leaves on the triangle's corners, read off the
  /// records of a fresh face.
  lemma TriangleMade(m: SurfaceMesh, hp0: HalfedgeProps, conn0: seq<Halfedge>, vs: seq<Vertex>,
                      found: seq<Halfedge>, hs: seq<Halfedge>, r: Outcome<Face>)
    requires hp0 == HalfedgeProps([], [], [], []) && conn0 == [Invalid, Invalid, Invalid] && vs == [0, 1, 2]
    requires found == [Invalid, Invalid, Invalid] && r == Ok(0) && m.Valid() && m.Counted()
    requires m.vprops.point == [Origin, Origin, Origin] && m.vprops.deleted == [false, false, false]
    requires |hs| == |vs| && m.fprops.deleted == [] + [false] && m.FaceHalfedge(r.value) == hs[|hs| - 1]
    requires m.edeleted == [] + Falses(Missing(found, |vs|))
    requires FreshFace(m, hp0, conn0, vs, hs, r.value)
    requires Assembled(m, Grown(hp0, vs, found, |vs|), conn0, vs, found, hs, r.value, [])
    ensures m.NVertices() == 3 && m.NEdges() == 3 && m.NFaces() == 1 && m.HalfedgesSize() == 6
    ensures m.Next(0) == 2 && m.Next(2) == 4 && m.Next(4) == 0 && m.Prev(0) == 4 && m.Prev(2) == 0 && m.Prev(4) == 2
    ensures m.FaceLoop(0) == [4, 0, 2]
    ensures m.hprops == HalfedgeProps([0, Invalid, 0, Invalid, 0, Invalid], [1, 0, 2, 1, 0, 2],
                                      [2, 5, 4, 1, 0, 3], [4, 3, 0, 5, 2, 1])
    ensures m.vprops == VertexProps([Origin, Origin, Origin], [5, 1, 3], [false, false, false])
    ensures m.edeleted == [false, false, false] && m.fprops == FaceProps([4], [false])
  {
    assert Missing(found, 1) == 1;
    assert Missing(found, 2) == 2;
    assert Missing(found, 3) == 3;
    FreshTriangleLoop(m, hp0, conn0, vs, hs, 0);
    TriangleAssembled(m, 0);
    TriangleCounts(m);
  }

  lemma TriangleCounts(m: SurfaceMesh)
    requires m.Valid() && m.Counted() && |m.vprops.conn| == 3 && m.vprops.deleted == [false, false, false]
    requires m.edeleted == [] + Falses(3) && m.fprops.deleted == [] + [false]
    ensures m.NVertices() == 3 && m.NEdges() == 3 && m.NFaces() == 1 && m.HalfedgesSize() == 6
  {
    CountFalses([], 3);
    CountFalses([], 1);
    assert m.vprops.deleted == [] + Falses(3) && m.fprops.deleted == [] + Falses(1);
  }
}
