/// The discrete part of the incremental decimater (decimation.cpp): the
/// halfedges a collapse touches, the legality rules that do not depend on
/// geometry, the choice of each vertex's collapse target, and the loop that
/// pops the cheapest vertex and collapses it until the target vertex count
/// is reached.  Priorities are integers; geometry and the collapse itself are
/// inputs.
module Decimation {
  import opened Handles
  import opened HalfedgeMesh
  import opened EulerOperators
  import opened DecimationHeap

  // ---- the halfedges around a collapse

  /// The record `CollapseData` fills in for the collapse of v0v1, which moves
  /// v0 into v1.  fl is the face left of v0v1 with apex vl, fr the face right
  /// of it with apex vr.
  datatype CollapseData = CollapseData(
    v0v1: Halfedge, v1v0: Halfedge, v0: Vertex, v1: Vertex, fl: Face, fr: Face,
    v1vl: Halfedge, vlv0: Halfedge, vl: Vertex,
    v0vr: Halfedge, vrv1: Halfedge, vr: Vertex)

  /// `from_vertex(h)`: the target of the opposite halfedge.
  function FromOf(hp: HalfedgeProps, h: Halfedge): Vertex
  {
    TargetOf(hp, Opposite(h))
  }

  /// The record as the constructor computes it: the right wing takes
  /// vrv1 as the halfedge before v0vr and vr as its origin.
  function CollapseDataAsWritten(hp: HalfedgeProps, h: Halfedge): CollapseData
  {
    var v1v0 := Opposite(h);
    var fl := FaceOf(hp, h);
    var fr := FaceOf(hp, v1v0);
    var v1vl := if IsValid(fl) then NextOf(hp, h) else Invalid;
    var vlv0 := if IsValid(fl) then NextOf(hp, v1vl) else Invalid;
    var vl := if IsValid(fl) then TargetOf(hp, v1vl) else Invalid;
    var v0vr := if IsValid(fr) then NextOf(hp, v1v0) else Invalid;
    var vrv1 := if IsValid(fr) then PrevOf(hp, v0vr) else Invalid;
    var vr := if IsValid(fr) then FromOf(hp, vrv1) else Invalid;
    CollapseData(h, v1v0, TargetOf(hp, v1v0), TargetOf(hp, h), fl, fr, v1vl, vlv0, vl, v0vr, vrv1, vr)
  }

  /// Whenever the links are consistent at v1v0 (the halfedge after it has
  /// v1v0 as its predecessor), the as-written right wing collapses onto the
  /// edge itself: vrv1 is v1v0 and vr is v1 rather than the apex of fr.
  lemma AsWrittenRightWingDegenerates(hp: HalfedgeProps, h: Halfedge)
    requires IsValid(FaceOf(hp, Opposite(h)))
    requires PrevOf(hp, NextOf(hp, Opposite(h))) == Opposite(h)
    ensures CollapseDataAsWritten(hp, h).vrv1 == Opposite(h)
    ensures CollapseDataAsWritten(hp, h).vr == TargetOf(hp, h)
  {
    OppositeInvolution(h);
  }

  /// In a triangle fr whose three halfedges are distinct, the as-written vrv1
  /// is not the halfedge of fr that enters v1.
  lemma AsWrittenMissesRightWing(hp: HalfedgeProps, h: Halfedge)
    requires Triangle(hp, Opposite(h)) && PrevOf(hp, Opposite(h)) != Opposite(h)
    ensures CollapseDataAsWritten(hp, h).vrv1 != PrevOf(hp, Opposite(h))
  {
  }

  /// The record with the right wing as the rest of the decimater reads it:
  /// vrv1 follows v0vr, and vr is where v0vr ends.
  function CollapseDataOf(hp: HalfedgeProps, h: Halfedge): CollapseData
  {
    var v1v0 := Opposite(h);
    var fl := FaceOf(hp, h);
    var fr := FaceOf(hp, v1v0);
    var v1vl := if IsValid(fl) then NextOf(hp, h) else Invalid;
    var vlv0 := if IsValid(fl) then NextOf(hp, v1vl) else Invalid;
    var vl := if IsValid(fl) then TargetOf(hp, v1vl) else Invalid;
    var v0vr := if IsValid(fr) then NextOf(hp, v1v0) else Invalid;
    var vrv1 := if IsValid(fr) then NextOf(hp, v0vr) else Invalid;
    var vr := if IsValid(fr) then TargetOf(hp, v0vr) else Invalid;
    CollapseData(h, v1v0, TargetOf(hp, v1v0), TargetOf(hp, h), fl, fr, v1vl, vlv0, vl, v0vr, vrv1, vr)
  }

  /// When both faces at the edge are triangles, the record names the two
  /// triangles' halfedges: v0v1, v1vl, vlv0 close fl and v1v0, v0vr, vrv1
  /// close fr, each wing lies in its face, and the apexes are the targets
  /// of the middle halfedges.
  lemma CollapseDataWings(hp: HalfedgeProps, h: Halfedge)
    requires Triangle(hp, h) && Triangle(hp, Opposite(h))
    ensures var cd := CollapseDataOf(hp, h);
      cd.v1v0 == Opposite(h) && cd.fl == FaceOf(hp, h) && cd.fr == FaceOf(hp, Opposite(h)) &&
      NextOf(hp, cd.v0v1) == cd.v1vl && NextOf(hp, cd.v1vl) == cd.vlv0 && NextOf(hp, cd.vlv0) == cd.v0v1 &&
      NextOf(hp, cd.v1v0) == cd.v0vr && NextOf(hp, cd.v0vr) == cd.vrv1 && NextOf(hp, cd.vrv1) == cd.v1v0 &&
      cd.vrv1 == PrevOf(hp, cd.v1v0) && cd.vlv0 == PrevOf(hp, cd.v0v1) &&
      FaceOf(hp, cd.v1vl) == cd.fl && FaceOf(hp, cd.vlv0) == cd.fl &&
      FaceOf(hp, cd.v0vr) == cd.fr && FaceOf(hp, cd.vrv1) == cd.fr &&
      cd.vl == TargetOf(hp, cd.v1vl) && cd.vr == TargetOf(hp, cd.v0vr)
  {
  }

  // ---- legality of one collapse

  /// The options `initialize` stores that the discrete rules read.
  datatype Settings = Settings(hasSelection: bool, hasFeatures: bool, maxValence: nat)

  /// What `is_collapse_legal` asks the mesh about one candidate v0v1: the
  /// selection and feature marks, the boundary status of both ends, whether
  /// turning clockwise twice around v0 returns to v0v1, the topological and
  /// seam tests, the two valences, and the verdict of the geometric tests
  /// (edge length, normal deviation, cone, aspect ratio, Hausdorff error).
  datatype Site = Site(
    selected0: bool, feature0: bool, featureV0V1: bool,
    vlValid: bool, featureVlV0: bool, vrValid: bool, featureV0Vr: bool,
    boundary0: bool, boundary1: bool, cwTwiceReturns: bool,
    collapseOk: bool, seamsOk: bool,
    val0: nat, val1: nat, flValid: bool, frValid: bool,
    geometryOk: bool)

  const Unsigned: int := 0x1_0000_0000

  /// Valences are unsigned 32-bit values.
  predicate SiteInRange(c: Site)
  {
    c.val0 < Unsigned && c.val1 < Unsigned
  }

  function Bit(b: bool): nat
  {
    if b then 1 else 0
  }

  /// `val0 + val1 - 1`, less one for each face at the edge, in unsigned
  /// 32-bit arithmetic: a negative value wraps to the top of the range.
  function MergedValence(c: Site): (r: nat)
    requires SiteInRange(c)
    ensures r < Unsigned
    ensures 0 <= c.val0 + c.val1 - 1 - Bit(c.flValid) - Bit(c.frValid) < Unsigned ==>
      r == c.val0 + c.val1 - 1 - Bit(c.flValid) - Bit(c.frValid)
  {
    var x := c.val0 + c.val1 - 1 - Bit(c.flValid) - Bit(c.frValid);
    if x < 0 then x + Unsigned else if x >= Unsigned then x - Unsigned else x
  }

  /// Once the collapse of an edge between two vertices of valence 1 is
  /// counted with both faces present, the unsigned valence wraps around.
  lemma MergedValenceWraps(c: Site)
    requires SiteInRange(c) && c.val0 == 1 && c.val1 == 1 && c.flValid && c.frValid
    ensures MergedValence(c) == Unsigned - 1
  {
  }

  /// `max(val0, val1)`.
  function Larger(a: nat, b: nat): nat
  {
    if a < b then b else a
  }

  /// The reasons `is_collapse_legal` can give for refusing a collapse.
  datatype Reason =
    | NotSelected
    | FeatureVertexOffFeature
    | FeatureWingLeft
    | FeatureWingRight
    | BoundaryIntoInterior
    | FewerThanTwoFaces
    | Topology
    | TextureSeam
    | ValenceTooHigh
    | Geometry

  /// Every rule the candidate breaks, each stated on its own.
  function Rejections(s: Settings, c: Site): set<Reason>
    requires SiteInRange(c)
  {
    (if s.hasSelection && !c.selected0 then {NotSelected} else {}) +
    (if s.hasFeatures && c.feature0 && !c.featureV0V1 then {FeatureVertexOffFeature} else {}) +
    (if s.hasFeatures && c.vlValid && c.featureVlV0 then {FeatureWingLeft} else {}) +
    (if s.hasFeatures && c.vrValid && c.featureV0Vr then {FeatureWingRight} else {}) +
    (if c.boundary0 && !c.boundary1 then {BoundaryIntoInterior} else {}) +
    (if c.cwTwiceReturns then {FewerThanTwoFaces} else {}) +
    (if !c.collapseOk then {Topology} else {}) +
    (if !c.seamsOk then {TextureSeam} else {}) +
    (if s.maxValence > 0 && MergedValence(c) > s.maxValence &&
        !(MergedValence(c) < Larger(c.val0, c.val1)) then {ValenceTooHigh} else {}) +
    (if !c.geometryOk then {Geometry} else {})
  }

  /// `is_collapse_legal`: the tests in the order the source runs them, each
  /// returning at the first failure.
  function IsCollapseLegal(s: Settings, c: Site): bool
    requires SiteInRange(c)
  {
    if s.hasSelection && !c.selected0 then false
    else if s.hasFeatures && c.feature0 && !c.featureV0V1 then false
    else if s.hasFeatures && c.vlValid && c.featureVlV0 then false
    else if s.hasFeatures && c.vrValid && c.featureV0Vr then false
    else if c.boundary0 && !c.boundary1 then false
    else if c.cwTwiceReturns then false
    else if !c.collapseOk then false
    else if !c.seamsOk then false
    else if s.maxValence > 0 && MergedValence(c) > s.maxValence &&
        !(MergedValence(c) < Larger(c.val0, c.val1)) then false
    else c.geometryOk
  }

  /// The early-return chain accepts a collapse exactly when it breaks none
  /// of the rules.
  lemma LegalIffNoRejection(s: Settings, c: Site)
    requires SiteInRange(c)
    ensures IsCollapseLegal(s, c) <==> Rejections(s, c) == {}
  {
    var r := Rejections(s, c);
    if !IsCollapseLegal(s, c) {
      if s.hasSelection && !c.selected0 { assert NotSelected in r; }
      else if s.hasFeatures && c.feature0 && !c.featureV0V1 { assert FeatureVertexOffFeature in r; }
      else if s.hasFeatures && c.vlValid && c.featureVlV0 { assert FeatureWingLeft in r; }
      else if s.hasFeatures && c.vrValid && c.featureV0Vr { assert FeatureWingRight in r; }
      else if c.boundary0 && !c.boundary1 { assert BoundaryIntoInterior in r; }
      else if c.cwTwiceReturns { assert FewerThanTwoFaces in r; }
      else if !c.collapseOk { assert Topology in r; }
      else if !c.seamsOk { assert TextureSeam in r; }
      else if s.maxValence > 0 && MergedValence(c) > s.maxValence &&
          !(MergedValence(c) < Larger(c.val0, c.val1)) { assert ValenceTooHigh in r; }
      else { assert Geometry in r; }
    }
  }

  /// A boundary vertex is never collapsed into an interior one.
  lemma BoundaryNotIntoInterior(s: Settings, c: Site)
    requires SiteInRange(c) && c.boundary0 && !c.boundary1
    ensures !IsCollapseLegal(s, c)
  {
    LegalIffNoRejection(s, c);
    assert BoundaryIntoInterior in Rejections(s, c);
  }

  /// A vertex with fewer than two incident faces is never removed.
  lemma TwoFacesNeeded(s: Settings, c: Site)
    requires SiteInRange(c) && c.cwTwiceReturns
    ensures !IsCollapseLegal(s, c)
  {
    LegalIffNoRejection(s, c);
    assert FewerThanTwoFaces in Rejections(s, c);
  }

  /// With a valence bound in force, a collapse whose merged valence exceeds
  /// it is refused unless the merged valence is below the larger of the two
  /// valences.
  lemma ValenceBound(s: Settings, c: Site)
    requires SiteInRange(c) && s.maxValence > 0
    requires c.val0 + c.val1 >= 1 + Bit(c.flValid) + Bit(c.frValid)
    requires c.val0 + c.val1 - 1 - Bit(c.flValid) - Bit(c.frValid) > s.maxValence
    requires c.val0 + c.val1 - 1 - Bit(c.flValid) - Bit(c.frValid) < Unsigned
    requires c.val0 + c.val1 - 1 - Bit(c.flValid) - Bit(c.frValid) >= Larger(c.val0, c.val1)
    ensures !IsCollapseLegal(s, c)
  {
    LegalIffNoRejection(s, c);
    assert ValenceTooHigh in Rejections(s, c);
  }

  /// A legal collapse of a selected mesh always starts at a selected vertex.
  lemma SelectionRespected(s: Settings, c: Site)
    requires SiteInRange(c) && s.hasSelection && IsCollapseLegal(s, c)
    ensures c.selected0
  {
  }

  // ---- the collapse target of one vertex

  /// The largest finite float, the starting minimum of the scan.
  const FloatMax: int := 340282346638528859811704183484516925440

  /// The priority the source reserves for "no target".
  const NoPriority: int := -1

  /// One outgoing halfedge of a vertex, with what the rules say about it
  /// and the priority of collapsing along it.
  datatype Candidate = Candidate(h: Halfedge, site: Site, prio: int)

  predicate Admissible(s: Settings, c: Candidate)
  {
    SiteInRange(c.site) && IsCollapseLegal(s, c.site) && c.prio != NoPriority
  }

  /// Candidate i wins the scan: it is admissible, beats the starting
  /// minimum, is strictly cheaper than every admissible candidate before it
  /// and no dearer than any after it.
  predicate FirstMinimumAt(s: Settings, cs: seq<Candidate>, i: int)
  {
    0 <= i < |cs| && Admissible(s, cs[i]) && cs[i].prio < FloatMax &&
    (forall j :: 0 <= j < i && Admissible(s, cs[j]) ==> cs[i].prio < cs[j].prio) &&
    (forall j :: i < j < |cs| && Admissible(s, cs[j]) ==> cs[i].prio <= cs[j].prio)
  }

  /// At most one candidate wins.
  lemma FirstMinimumUnique(s: Settings, cs: seq<Candidate>, i: int, k: int)
    requires FirstMinimumAt(s, cs, i) && FirstMinimumAt(s, cs, k)
    ensures i == k
  {
  }

  /// The winner's priority is the least admissible priority.
  lemma FirstMinimumIsMinimum(s: Settings, cs: seq<Candidate>, i: int, j: int)
    requires FirstMinimumAt(s, cs, i) && 0 <= j < |cs| && Admissible(s, cs[j])
    ensures cs[i].prio <= cs[j].prio
  {
  }

  /// The loop of `enqueue_vertex` over the outgoing halfedges: the target is
  /// the first candidate of least priority among the admissible ones below
  /// the largest float; none is found when there is no such candidate.
  method ChooseTarget(s: Settings, cs: seq<Candidate>) returns (minH: Halfedge, minPrio: int)
    requires forall i :: 0 <= i < |cs| ==> IsValid(cs[i].h)
    ensures IsValid(minH) <==> exists i :: FirstMinimumAt(s, cs, i)
    ensures IsValid(minH) ==> exists i :: FirstMinimumAt(s, cs, i) && cs[i].h == minH && cs[i].prio == minPrio
    ensures !IsValid(minH) ==> minPrio == FloatMax
    ensures !IsValid(minH) ==> forall i :: 0 <= i < |cs| && Admissible(s, cs[i]) ==> cs[i].prio >= FloatMax
  {
    minH, minPrio := Invalid, FloatMax;
    ghost var best := -1;
    var k := 0;
    while k < |cs|
      invariant 0 <= k <= |cs|
      invariant !IsValid(minH) ==> best == -1 && minPrio == FloatMax
      invariant !IsValid(minH) ==> forall i :: 0 <= i < k && Admissible(s, cs[i]) ==> cs[i].prio >= FloatMax
      invariant IsValid(minH) ==> 0 <= best < k && cs[best].h == minH && cs[best].prio == minPrio
      invariant IsValid(minH) ==> Admissible(s, cs[best]) && minPrio < FloatMax
      invariant IsValid(minH) ==> forall j :: 0 <= j < best && Admissible(s, cs[j]) ==> minPrio < cs[j].prio
      invariant IsValid(minH) ==> forall j :: best < j < k && Admissible(s, cs[j]) ==> minPrio <= cs[j].prio
    {
      var c := cs[k];
      if SiteInRange(c.site) && IsCollapseLegal(s, c.site) && c.prio != NoPriority && c.prio < minPrio {
        minH, minPrio := c.h, c.prio;
        best := k;
      }
      k := k + 1;
    }
    if IsValid(minH) {
      assert FirstMinimumAt(s, cs, best);
    } else {
      forall i | FirstMinimumAt(s, cs, i)
        ensures false
      {
      }
    }
  }

  // ---- the decimater's queue bookkeeping

  /// Every stored vertex has a target halfedge and a real priority.
  predicate Targeted(es: seq<nat>, vpriority: seq<int>, vtarget: seq<Halfedge>)
  {
    forall i :: 0 <= i < |es| ==> es[i] < |vtarget| && IsValid(vtarget[es[i]]) && es[i] < |vpriority| && vpriority[es[i]] != NoPriority
  }

  /// The queue agrees with the slot property, is ordered by the priority
  /// property, holds only targeted vertices, and tracks every reset vertex.
  ghost predicate QueueState(es: seq<nat>, pos: seq<int>, prio: seq<int>, tgt: seq<Halfedge>, reset: set<nat>)
  {
    Positioned(es, pos) && |prio| == |tgt| == |pos| &&
    HeapOrdered(es, prio) && Targeted(es, prio, tgt) &&
    forall v :: v in reset ==> TrackedIn(es, pos, v)
  }

  /// Giving the reset vertex v a target and a priority, then updating or
  /// inserting it, keeps the queue state.
  lemma StoredKeepsState(es0: seq<nat>, pos0: seq<int>, q: seq<int>, t0: seq<Halfedge>,
                         es: seq<nat>, pos: seq<int>, prio: seq<int>, tgt: seq<Halfedge>,
                         v: nat, reset: set<nat>)
    requires QueueState(es0, pos0, q, t0, reset) && v in reset
    requires |prio| == |q| && |tgt| == |t0| && prio == q[v := prio[v]] && tgt == t0[v := tgt[v]]
    requires prio[v] != NoPriority && IsValid(tgt[v])
    requires Positioned(es, pos) && HeapOrdered(es, prio) && |pos| == |pos0| && v in es
    requires multiset(es) - multiset{v} == multiset(es0) - multiset{v}
    requires forall u :: 0 <= u < |pos| && u !in es ==> pos[u] == pos0[u]
    ensures QueueState(es, pos, prio, tgt, reset)
  {
    KeptMembers(es0, es, v);
    KeepTargeted(es, es0, q, t0, prio, tgt, v);
    ResetKept(es0, pos0, es, pos, v, reset);
  }

  /// Removing v if stored and marking it untargeted keeps the queue state.
  lemma DroppedKeepsState(es0: seq<nat>, pos0: seq<int>, q: seq<int>, t0: seq<Halfedge>,
                          es: seq<nat>, pos: seq<int>, v: nat, reset: set<nat>)
    requires QueueState(es0, pos0, q, t0, reset) && v < |q|
    requires Positioned(es, pos) && HeapOrdered(es, q) && |pos| == |pos0| && pos[v] == NotStored
    requires multiset(es) - multiset{v} == multiset(es0) - multiset{v}
    requires forall u :: 0 <= u < |pos| && u != v && u !in es ==> pos[u] == pos0[u]
    ensures v !in es
    ensures QueueState(es, pos, q[v := NoPriority], t0[v := Invalid], reset)
  {
    SlotOf(es, pos, v);
    KeptMembers(es0, es, v);
    OrderIgnoresUnstored(es, q, q[v := NoPriority]);
    UntargetedStaysAway(es, es0, q, t0, q[v := NoPriority], t0[v := Invalid], v);
    ResetKept(es0, pos0, es, pos, v, reset);
  }

  /// The per-vertex state `decimate` keeps in the "v:prio" and "v:target"
  /// vertex properties, over n vertices.
  class Decimater {
    var vpriority: seq<int>
    var vtarget: seq<Halfedge>
    /// The vertices whose heap slot has been reset; only these are ever
    /// queried.
    ghost var reset: set<nat>

    ghost predicate Valid(queue: Heap)
      reads this, queue
    {
      QueueState(queue.entries, queue.pos, vpriority, vtarget, reset)
    }

    /// The two properties, freshly added: priority 0 and an invalid target.
    constructor (n: nat)
      ensures vpriority == seq(n, _ => 0) && vtarget == seq(n, _ => Invalid) && reset == {}
    {
      vpriority := seq(n, _ => 0);
      vtarget := seq(n, _ => Invalid);
      reset := {};
    }

    /// `reset_heap_position(v)` for a vertex not yet stored, after which
    /// its slot is meaningful.
    method ResetVertex(queue: Heap, v: nat)
      requires Valid(queue) && v < |vpriority| && v !in queue.entries
      modifies this, queue
      ensures Valid(queue) && reset == old(reset) + {v}
      ensures queue.entries == old(queue.entries) && |queue.pos| == old(|queue.pos|)
      ensures vpriority == old(vpriority) && vtarget == old(vtarget)
    {
      ghost var pos0 := queue.pos;
      queue.ResetHeapPosition(v);
      reset := reset + {v};
      forall u | u in reset
        ensures queue.Tracked(u)
      {
        if u != v {
          assert TrackedIn(queue.entries, pos0, u);
        }
      }
    }

    /// `front()` then `pop_front()`: the stored vertex of least priority
    /// leaves the queue, and its target is returned.
    method PopCheapest(queue: Heap) returns (v: nat, h: Halfedge)
      requires Valid(queue) && |queue.entries| > 0
      modifies queue
      ensures Valid(queue)
      ensures v in old(queue.entries) && v !in queue.entries
      ensures forall i :: 0 <= i < |old(queue.entries)| ==> vpriority[v] <= vpriority[old(queue.entries)[i]]
      ensures multiset(queue.entries) == old(multiset(queue.entries)) - multiset{v}
      ensures |queue.entries| == old(|queue.entries|) - 1 && |queue.pos| == old(|queue.pos|)
      ensures h == vtarget[v] && IsValid(h)
    {
      ghost var es0, pos0 := queue.entries, queue.pos;
      assert forall u :: u in reset ==> TrackedIn(es0, pos0, u);
      v := queue.Front(vpriority);
      assert v == es0[0];
      queue.PopFront(vpriority);
      h := vtarget[v];
      SlotOf(queue.entries, queue.pos, v);
      KeptMembers(es0, queue.entries, v);
      ResetKept(es0, pos0, queue.entries, queue.pos, v, reset);
      SubsetTargeted(queue.entries, es0, vpriority, vtarget);
    }

    /// `enqueue_vertex(queue, v)`: store v with its best target, or take it
    /// off the queue and mark it as having none.
    method EnqueueVertex(queue: Heap, s: Settings, v: nat, cs: seq<Candidate>)
      requires Valid(queue) && v in reset && v < |vpriority|
      requires forall i :: 0 <= i < |cs| ==> IsValid(cs[i].h)
      modifies this, queue
      ensures Valid(queue) && reset == old(reset)
      ensures |queue.pos| == old(|queue.pos|)
      ensures (v in queue.entries) <==> exists i :: FirstMinimumAt(s, cs, i)
      ensures forall i :: FirstMinimumAt(s, cs, i) ==>
        vpriority == old(vpriority)[v := cs[i].prio] && vtarget == old(vtarget)[v := cs[i].h]
      ensures (forall i :: !FirstMinimumAt(s, cs, i)) ==>
        vpriority == old(vpriority)[v := NoPriority] && vtarget == old(vtarget)[v := Invalid]
      ensures multiset(queue.entries) - multiset{v} == old(multiset(queue.entries)) - multiset{v}
    {
      var minH, minPrio := ChooseTarget(s, cs);
      if IsValid(minH) {
        StoreTarget(queue, v, minH, minPrio);
        var i :| FirstMinimumAt(s, cs, i) && cs[i].h == minH && cs[i].prio == minPrio;
        forall k | FirstMinimumAt(s, cs, k)
          ensures k == i
        {
          FirstMinimumUnique(s, cs, i, k);
        }
      } else {
        DropTarget(queue, v);
      }
    }

    /// The branch of `enqueue_vertex` that found a target h of priority p:
    /// record both, then update v in the queue or insert it.
    method StoreTarget(queue: Heap, v: nat, h: Halfedge, p: int)
      requires Valid(queue) && v in reset && v < |vpriority|
      requires IsValid(h) && p != NoPriority
      modifies this, queue
      ensures Valid(queue) && reset == old(reset) && |queue.pos| == old(|queue.pos|)
      ensures v in queue.entries
      ensures vpriority == old(vpriority)[v := p] && vtarget == old(vtarget)[v := h]
      ensures multiset(queue.entries) - multiset{v} == old(multiset(queue.entries)) - multiset{v}
    {
      var stored := queue.IsStored(v);
      ghost var es0, pos0 := queue.entries, queue.pos;
      ghost var q, t0 := vpriority, vtarget;
      SlotOf(es0, pos0, v);
      vpriority := vpriority[v := p];
      vtarget := vtarget[v := h];
      if stored {
        queue.Update(v, vpriority, q);
      } else {
        OrderIgnoresUnstored(queue.entries, q, vpriority);
        queue.Insert(v, vpriority);
        assert v in multiset(queue.entries);
      }
      StoredKeepsState(es0, pos0, q, t0, queue.entries, queue.pos, vpriority, vtarget, v, reset);
    }

    /// The branch of `enqueue_vertex` that found no target: remove v if it
    /// is stored, then give it priority -1 and no target.
    method DropTarget(queue: Heap, v: nat)
      requires Valid(queue) && v in reset && v < |vpriority|
      modifies this, queue
      ensures Valid(queue) && reset == old(reset) && |queue.pos| == old(|queue.pos|)
      ensures v !in queue.entries
      ensures vpriority == old(vpriority)[v := NoPriority] && vtarget == old(vtarget)[v := Invalid]
      ensures multiset(queue.entries) - multiset{v} == old(multiset(queue.entries)) - multiset{v}
    {
      var stored := queue.IsStored(v);
      ghost var es0, pos0 := queue.entries, queue.pos;
      SlotOf(es0, pos0, v);
      if stored {
        queue.Remove(v, vpriority);
      }
      DroppedKeepsState(es0, pos0, vpriority, vtarget, queue.entries, queue.pos, v, reset);
      vpriority := vpriority[v := NoPriority];
      vtarget := vtarget[v := Invalid];
    }
  }

  /// After v is given a target and a priority, every stored vertex keeps
  /// one: v itself through the new values, the others through the old.
  lemma KeepTargeted(es: seq<nat>, es0: seq<nat>, q: seq<int>, t0: seq<Halfedge>,
                     prio: seq<int>, tgt: seq<Halfedge>, v: nat)
    requires Targeted(es0, q, t0) && |q| == |t0| == |prio| == |tgt| && v < |q|
    requires prio == q[v := prio[v]] && tgt == t0[v := tgt[v]]
    requires prio[v] != NoPriority && IsValid(tgt[v])
    requires forall u :: u != v ==> (u in es <==> u in es0)
    ensures Targeted(es, prio, tgt)
  {
    forall i | 0 <= i < |es|
      ensures es[i] < |tgt| && IsValid(tgt[es[i]]) && es[i] < |prio| && prio[es[i]] != NoPriority
    {
      if es[i] != v {
        assert es[i] in es0;
        var j :| 0 <= j < |es0| && es0[j] == es[i];
      }
    }
  }

  /// Two entry lists that agree up to v store the same vertices other than v.
  lemma KeptMembers(es0: seq<nat>, es: seq<nat>, v: nat)
    requires multiset(es) - multiset{v} == multiset(es0) - multiset{v}
    ensures forall u :: u != v ==> (u in es <==> u in es0)
  {
    forall u | u != v
      ensures u in es <==> u in es0
    {
      assert (multiset(es) - multiset{v})[u] == multiset(es)[u];
      assert (multiset(es0) - multiset{v})[u] == multiset(es0)[u];
    }
  }

  /// Every reset vertex stays tracked through an operation on v that keeps
  /// the other members and the other unstored slots.
  lemma ResetKept(es0: seq<nat>, pos0: seq<int>, es: seq<nat>, pos: seq<int>, v: nat, reset: set<nat>)
    requires Positioned(es, pos) && |pos| == |pos0|
    requires forall u :: u in reset ==> TrackedIn(es0, pos0, u)
    requires forall u :: u != v ==> (u in es <==> u in es0)
    requires forall u :: 0 <= u < |pos| && u !in es && u != v ==> pos[u] == pos0[u]
    requires v < |pos| && (v in es || pos[v] == NotStored)
    ensures forall u :: u in reset ==> TrackedIn(es, pos, u)
  {
    forall u | u in reset
      ensures TrackedIn(es, pos, u)
    {
      StillTracked(es0, pos0, es, pos, u);
    }
  }

  /// A sub-collection of targeted vertices is targeted.
  lemma SubsetTargeted(es: seq<nat>, es0: seq<nat>, prio: seq<int>, tgt: seq<Halfedge>)
    requires Targeted(es0, prio, tgt)
    requires forall u :: u in es ==> u in es0
    ensures Targeted(es, prio, tgt)
  {
    forall i | 0 <= i < |es|
      ensures es[i] < |tgt| && IsValid(tgt[es[i]]) && es[i] < |prio| && prio[es[i]] != NoPriority
    {
      assert es[i] in es0;
      var j :| 0 <= j < |es0| && es0[j] == es[i];
    }
  }

  /// Marking an unstored vertex as untargeted leaves every stored vertex
  /// targeted.
  lemma UntargetedStaysAway(es: seq<nat>, es0: seq<nat>, q: seq<int>, t0: seq<Halfedge>,
                            prio: seq<int>, tgt: seq<Halfedge>, v: nat)
    requires Targeted(es0, q, t0) && v !in es && v < |q| && |q| == |t0|
    requires forall u :: u != v ==> (u in es <==> u in es0)
    requires prio == q[v := NoPriority] && tgt == t0[v := Invalid]
    ensures Targeted(es, prio, tgt)
  {
    forall i | 0 <= i < |es|
      ensures es[i] < |tgt| && IsValid(tgt[es[i]]) && es[i] < |prio| && prio[es[i]] != NoPriority
    {
      assert es[i] in es0;
      var j :| 0 <= j < |es0| && es0[j] == es[i];
    }
  }

  // ---- the decimation loop

  /// `decimate(n_vertices)` on a mesh with slot count n whose live vertices
  /// are listed in `vertices`.  The mesh changes only through collapses, so
  /// the mesh-dependent inputs are indexed by the number of collapses done so
  /// far: `cands(c, v)` lists v's outgoing halfedges as candidates, `ok(c, h)`
  /// is the re-check of `is_collapse_ok` and the seam test before collapsing
  /// h, and `ring(c, v)` is the one-ring of v.  Each round either collapses
  /// (one vertex fewer) or drops the popped vertex without re-inserting
  /// anything, so the loop ends; it ends at the target count or with an
  /// empty queue.
  method Decimate(s: Settings, n: nat, vertices: seq<nat>, target: nat,
                  cands: (nat, nat) -> seq<Candidate>, ok: (nat, Halfedge) -> bool,
                  ring: (nat, nat) -> seq<nat>)
    returns (nv: nat, collapses: nat, left: nat)
    requires forall i :: 0 <= i < |vertices| ==> vertices[i] < n
    requires forall i, j :: 0 <= i < j < |vertices| ==> vertices[i] != vertices[j]
    requires forall c, v, i :: 0 <= i < |cands(c, v)| ==> IsValid(cands(c, v)[i].h)
    requires forall c, v, u :: u in ring(c, v) ==> u in vertices
    ensures nv + collapses == |vertices|
    ensures |vertices| <= target ==> nv == |vertices|
    ensures |vertices| > target ==> nv >= target
    ensures nv > target ==> left == 0
  {
    var d := new Decimater(n);
    var queue := new Heap(n);
    var i := 0;
    while i < |vertices|
      invariant 0 <= i <= |vertices|
      invariant d.Valid(queue) && |queue.pos| == |d.vpriority| == n
      invariant forall u :: u in queue.entries ==> u in vertices[..i]
      invariant forall j :: 0 <= j < i ==> vertices[j] in d.reset
      invariant fresh(d) && fresh(queue)
    {
      var v := vertices[i];
      assert v !in vertices[..i];
      d.ResetVertex(queue, v);
      ghost var es0 := queue.entries;
      d.EnqueueVertex(queue, s, v, cands(0, v));
      KeptMembers(es0, queue.entries, v);
      i := i + 1;
    }
    assert forall u :: u in vertices ==> u in d.reset;
    nv, collapses := |vertices|, 0;
    while nv > target && |queue.entries| > 0
      invariant d.Valid(queue) && |queue.pos| == |d.vpriority| == n
      invariant forall u :: u in vertices ==> u in d.reset
      invariant nv + collapses == |vertices|
      invariant |vertices| > target ==> nv >= target
      invariant |vertices| <= target ==> nv == |vertices|
      invariant fresh(d) && fresh(queue)
      decreases nv, |queue.entries|
    {
      var v, h := d.PopCheapest(queue);
      if !ok(collapses, h) {
        continue;
      }
      var oneRing := ring(collapses, v);
      nv, collapses := nv - 1, collapses + 1;
      var k := 0;
      while k < |oneRing|
        invariant 0 <= k <= |oneRing|
        invariant d.Valid(queue) && |queue.pos| == |d.vpriority| == n
        invariant forall u :: u in vertices ==> u in d.reset
        invariant fresh(d) && fresh(queue)
      {
        assert oneRing[k] in vertices;
        d.EnqueueVertex(queue, s, oneRing[k], cands(collapses, oneRing[k]));
        k := k + 1;
      }
    }
    left := |queue.entries|;
  }
}
