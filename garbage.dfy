/// `garbage_collection` of the surface mesh.
///
/// Three two-pointer loops (one per element kind, the halfedges riding on
/// their edges) exchange slots in every property array, the map arrays
/// included; then every stored handle is sent through the map arrays, and
/// the arrays are cut to the number of survivors.
module MeshGarbage {
  import opened Handles
  import opened Compaction
  import opened HalfedgeMesh

  /// The exchanges chosen by the three loops and the sizes they leave.
  datatype Plan = Plan(sv: seq<Transposition>, se: seq<Transposition>, sf: seq<Transposition>, nv: nat, ne: nat, nf: nat)

  /// What one two-pointer loop delivers (the contract of TwoPointer).
  predicate Compacts(deleted: seq<bool>, sw: seq<Transposition>, n: nat)
  {
    InBounds(sw, |deleted|) && Monotone(sw) && Partitioned(ApplySwaps(deleted, sw), n) &&
    n == |deleted| - Count(deleted)
  }

  predicate Sized(vp: VertexProps, hp: HalfedgeProps, ed: seq<bool>, fp: FaceProps)
  {
    |vp.point| == |vp.conn| == |vp.deleted| &&
    |hp.face| == |hp.vertex| == |hp.next| == |hp.prev| == 2 * |ed| &&
    |fp.conn| == |fp.deleted| &&
    |vp.conn| < MaxIndex && |hp.next| < MaxIndex && |fp.conn| < MaxIndex
  }

  predicate Planned(vp: VertexProps, hp: HalfedgeProps, ed: seq<bool>, fp: FaceProps, p: Plan)
  {
    Sized(vp, hp, ed, fp) &&
    Compacts(vp.deleted, p.sv, p.nv) && Compacts(ed, p.se, p.ne) && Compacts(fp.deleted, p.sf, p.nf)
  }

  /// The new index of old halfedge h: its side of the new slot of its edge.
  function NewHalfedge(se: seq<Transposition>, h: Halfedge): Halfedge
  {
    2 * Perm(se, EdgeOf(h)) + h % 2
  }

  // ---- the three stages

  /// `s[i] = map[s[i]]` for every slot below n (`set_vertex`, `set_next_halfedge`,
  /// the face anchors).
  function RemappedAll(s: seq<nat>, tbl: seq<nat>, n: nat): (r: seq<nat>)
    ensures |r| == |s|
  {
    seq(|s|, k requires 0 <= k < |s| => if k < n then Get(tbl, s[k]) else s[k])
  }

  /// The same, skipping invalid handles (`if (!is_isolated(v))`, `if (!is_boundary(h))`).
  function RemappedValid(s: seq<nat>, tbl: seq<nat>, n: nat): (r: seq<nat>)
    ensures |r| == |s|
  {
    seq(|s|, k requires 0 <= k < |s| => if k < n && IsValid(s[k]) then Get(tbl, s[k]) else s[k])
  }

  /// The previous-halfedge writes of the first n calls `set_next_halfedge(h, nx[h])`.
  function RelinkedPrev(prev: seq<nat>, nx: seq<nat>, n: nat): (r: seq<nat>)
    requires n <= |nx|
    ensures |r| == |prev|
  {
    if n == 0 then prev else Put(RelinkedPrev(prev, nx, n - 1), nx[n - 1], n - 1)
  }

  /// The halfedge remapping loop on the first n halfedges.
  function RemappedHalfedges(hp: HalfedgeProps, vtbl: seq<nat>, htbl: seq<nat>, ftbl: seq<nat>, n: nat): HalfedgeProps
    requires n <= |hp.next|
  {
    var nx := RemappedAll(hp.next, htbl, n);
    HalfedgeProps(RemappedValid(hp.face, ftbl, n), RemappedAll(hp.vertex, vtbl, n), nx, RelinkedPrev(hp.prev, nx, n))
  }

  /// The vertex, halfedge and face map arrays after the exchanges.
  function VertexMap(vp: VertexProps, p: Plan): seq<nat>
    requires InBounds(p.sv, |vp.conn|)
  {
    ApplySwaps(Identity(|vp.conn|), p.sv)
  }

  function HalfedgeMap(hp: HalfedgeProps, p: Plan): seq<nat>
    requires InPairBounds(p.se, |hp.next|)
  {
    ApplyPairSwaps(Identity(|hp.next|), p.se)
  }

  function FaceMap(fp: FaceProps, p: Plan): seq<nat>
    requires InBounds(p.sf, |fp.conn|)
  {
    ApplySwaps(Identity(|fp.conn|), p.sf)
  }

  /// Every halfedge array exchanged pairwise.
  function SwappedHalfedges(hp: HalfedgeProps, se: seq<Transposition>): (r: HalfedgeProps)
    requires |hp.face| == |hp.vertex| == |hp.next| == |hp.prev| && InPairBounds(se, |hp.next|)
  {
    HalfedgeProps(ApplyPairSwaps(hp.face, se), ApplyPairSwaps(hp.vertex, se),
                  ApplyPairSwaps(hp.next, se), ApplyPairSwaps(hp.prev, se))
  }

  /// The records `garbage_collection` leaves, for the exchanges of plan p.
  function CollectedVertices(vp: VertexProps, hp: HalfedgeProps, p: Plan): VertexProps
    requires |vp.point| == |vp.conn| == |vp.deleted| && InBounds(p.sv, |vp.conn|) && p.nv <= |vp.conn|
    requires InPairBounds(p.se, |hp.next|)
  {
    var conn := RemappedValid(ApplySwaps(vp.conn, p.sv), HalfedgeMap(hp, p), p.nv);
    VertexProps(ApplySwaps(vp.point, p.sv)[..p.nv], conn[..p.nv], ApplySwaps(vp.deleted, p.sv)[..p.nv])
  }

  /// The four halfedge arrays `garbage_collection` leaves: each exchanged
  /// pairwise, sent through the map arrays on the first 2 ne slots, and cut there.
  function CollectedTargets(vp: VertexProps, hp: HalfedgeProps, p: Plan): seq<Vertex>
    requires InPairBounds(p.se, |hp.vertex|) && InBounds(p.sv, |vp.conn|) && 2 * p.ne <= |hp.vertex|
  {
    RemappedAll(ApplyPairSwaps(hp.vertex, p.se), VertexMap(vp, p), 2 * p.ne)[..2 * p.ne]
  }

  function CollectedNext(hp: HalfedgeProps, p: Plan): seq<Halfedge>
    requires InPairBounds(p.se, |hp.next|) && 2 * p.ne <= |hp.next|
  {
    RemappedAll(ApplyPairSwaps(hp.next, p.se), HalfedgeMap(hp, p), 2 * p.ne)[..2 * p.ne]
  }

  function CollectedPrev(hp: HalfedgeProps, p: Plan): seq<Halfedge>
    requires InPairBounds(p.se, |hp.next|) && |hp.prev| == |hp.next| && 2 * p.ne <= |hp.next|
  {
    var nx := RemappedAll(ApplyPairSwaps(hp.next, p.se), HalfedgeMap(hp, p), 2 * p.ne);
    RelinkedPrev(ApplyPairSwaps(hp.prev, p.se), nx, 2 * p.ne)[..2 * p.ne]
  }

  function CollectedFaceRefs(hp: HalfedgeProps, fp: FaceProps, p: Plan): seq<Face>
    requires InPairBounds(p.se, |hp.face|) && InBounds(p.sf, |fp.conn|) && 2 * p.ne <= |hp.face|
  {
    RemappedValid(ApplyPairSwaps(hp.face, p.se), FaceMap(fp, p), 2 * p.ne)[..2 * p.ne]
  }

  function CollectedHalfedges(vp: VertexProps, hp: HalfedgeProps, fp: FaceProps, p: Plan): HalfedgeProps
    requires |hp.face| == |hp.vertex| == |hp.next| == |hp.prev| && InPairBounds(p.se, |hp.next|)
    requires InBounds(p.sv, |vp.conn|) && InBounds(p.sf, |fp.conn|) && 2 * p.ne <= |hp.next|
  {
    HalfedgeProps(CollectedFaceRefs(hp, fp, p), CollectedTargets(vp, hp, p), CollectedNext(hp, p), CollectedPrev(hp, p))
  }

  function CollectedFaces(hp: HalfedgeProps, fp: FaceProps, p: Plan): FaceProps
    requires |fp.conn| == |fp.deleted| && InBounds(p.sf, |fp.conn|) && p.nf <= |fp.conn|
    requires InPairBounds(p.se, |hp.next|)
  {
    var conn := RemappedAll(ApplySwaps(fp.conn, p.sf), HalfedgeMap(hp, p), p.nf);
    FaceProps(conn[..p.nf], ApplySwaps(fp.deleted, p.sf)[..p.nf])
  }

  function Collected(vp: VertexProps, hp: HalfedgeProps, ed: seq<bool>, fp: FaceProps, p: Plan):
    (VertexProps, HalfedgeProps, seq<bool>, FaceProps)
    requires Planned(vp, hp, ed, fp, p)
  {
    PairBounds(p.se, |ed|);
    (CollectedVertices(vp, hp, p), CollectedHalfedges(vp, hp, fp, p), ApplySwaps(ed, p.se)[..p.ne], CollectedFaces(hp, fp, p))
  }

  // ---- the loops

  /// `for (i < nv) if (!is_isolated(v)) set_halfedge(v, hmap[halfedge(v)])`.
  method RemapValid(s: seq<nat>, tbl: seq<nat>, n: nat) returns (r: seq<nat>)
    requires n <= |s|
    ensures r == RemappedValid(s, tbl, n)
  {
    r := s;
    var i := 0;
    while i < n
      invariant i <= n && |r| == |s|
      invariant forall k :: 0 <= k < |s| ==> r[k] == if k < i && IsValid(s[k]) then Get(tbl, s[k]) else s[k]
    {
      if IsValid(r[i]) {
        r := r[i := Get(tbl, r[i])];
      }
      i := i + 1;
    }
  }

  /// `for (i < nf) set_halfedge(f, hmap[halfedge(f)])`.
  method RemapAll(s: seq<nat>, tbl: seq<nat>, n: nat) returns (r: seq<nat>)
    requires n <= |s|
    ensures r == RemappedAll(s, tbl, n)
  {
    r := s;
    var i := 0;
    while i < n
      invariant i <= n && |r| == |s|
      invariant forall k :: 0 <= k < |s| ==> r[k] == if k < i then Get(tbl, s[k]) else s[k]
    {
      r := r[i := Get(tbl, r[i])];
      i := i + 1;
    }
  }

  /// The halfedge loop: target vertex, next halfedge (with the previous
  /// record of its target) and, off the boundary, the face of each halfedge.
  method RemapHalfedges(hp: HalfedgeProps, vtbl: seq<nat>, htbl: seq<nat>, ftbl: seq<nat>, n: nat) returns (r: HalfedgeProps)
    requires |hp.face| == |hp.vertex| == |hp.next| == |hp.prev| && n <= |hp.next|
    ensures r == RemappedHalfedges(hp, vtbl, htbl, ftbl, n)
  {
    ghost var nx := RemappedAll(hp.next, htbl, n);
    var face, vertex, next, prev := hp.face, hp.vertex, hp.next, hp.prev;
    var i := 0;
    while i < n
      invariant i <= n && |face| == |vertex| == |next| == |hp.next| && |prev| == |hp.prev|
      invariant forall k :: 0 <= k < |hp.next| ==> vertex[k] == if k < i then Get(vtbl, hp.vertex[k]) else hp.vertex[k]
      invariant forall k :: 0 <= k < |hp.next| ==> next[k] == if k < i then Get(htbl, hp.next[k]) else hp.next[k]
      invariant forall k :: 0 <= k < |hp.next| ==>
                  face[k] == if k < i && IsValid(hp.face[k]) then Get(ftbl, hp.face[k]) else hp.face[k]
      invariant prev == RelinkedPrev(hp.prev, nx, i)
    {
      vertex := vertex[i := Get(vtbl, vertex[i])];
      var nh := Get(htbl, next[i]);
      next := next[i := nh];
      prev := Put(prev, nh, i);
      if IsValid(face[i]) {
        face := face[i := Get(ftbl, face[i])];
      }
      i := i + 1;
    }
    r := HalfedgeProps(face, vertex, next, prev);
  }

  /// The work of `garbage_collection` on the records.
  method Compact(vp: VertexProps, hp: HalfedgeProps, ed: seq<bool>, fp: FaceProps)
    returns (vp': VertexProps, hp': HalfedgeProps, ed': seq<bool>, fp': FaceProps, ghost p: Plan)
    requires Sized(vp, hp, ed, fp)
    ensures Planned(vp, hp, ed, fp, p) && (vp', hp', ed', fp') == Collected(vp, hp, ed, fp, p)
    ensures Sized(vp', hp', ed', fp')
  {
    var sv, nv := TwoPointer(vp.deleted);
    var se, ne := TwoPointer(ed);
    var sf, nf := TwoPointer(fp.deleted);
    p := Plan(sv, se, sf, nv, ne, nf);
    PairBounds(se, |ed|);
    var hmap := ApplyPairSwaps(Identity(|hp.next|), se);
    var vconn := RemapValid(ApplySwaps(vp.conn, sv), hmap, nv);
    var hr := RemapHalfedges(SwappedHalfedges(hp, se), ApplySwaps(Identity(|vp.conn|), sv), hmap,
                             ApplySwaps(Identity(|fp.conn|), sf), 2 * ne);
    var fconn := RemapAll(ApplySwaps(fp.conn, sf), hmap, nf);
    vp' := VertexProps(ApplySwaps(vp.point, sv)[..nv], vconn[..nv], ApplySwaps(vp.deleted, sv)[..nv]);
    hp' := HalfedgeProps(hr.face[..2 * ne], hr.vertex[..2 * ne], hr.next[..2 * ne], hr.prev[..2 * ne]);
    ed' := ApplySwaps(ed, se)[..ne];
    fp' := FaceProps(fconn[..nf], ApplySwaps(fp.deleted, sf)[..nf]);
    CollectedSized(vp, hp, ed, fp, p, vp', hp', ed', fp');
  }

  /// `garbage_collection()`.  Nothing happens without garbage; otherwise the
  /// records become those of Collected for the exchanges the loops choose,
  /// and the counters and the garbage flag are reset.
  method GarbageCollection(m: SurfaceMesh) returns (ghost p: Plan)
    requires m.Valid()
    modifies m`vprops, m`hprops, m`edeleted, m`fprops, m`deletedVertices, m`deletedEdges, m`deletedFaces, m`hasGarbage
    ensures m.Valid()
    ensures !old(m.hasGarbage) ==> unchanged(m)
    ensures old(m.hasGarbage) ==> Planned(old(m.vprops), old(m.hprops), old(m.edeleted), old(m.fprops), p)
    ensures old(m.hasGarbage) ==>
              (m.vprops, m.hprops, m.edeleted, m.fprops) == old(Collected(m.vprops, m.hprops, m.edeleted, m.fprops, p))
    ensures old(m.hasGarbage) ==> m.deletedVertices == 0 && m.deletedEdges == 0 && m.deletedFaces == 0 && !m.hasGarbage
  {
    p := Plan([], [], [], 0, 0, 0);
    if !m.hasGarbage {
      return;
    }
    var vp, hp, ed, fp;
    vp, hp, ed, fp, p := Compact(m.vprops, m.hprops, m.edeleted, m.fprops);
    Install(m, vp, hp, ed, fp);
  }

  /// The final stores: the compacted arrays, zero deleted counts, no garbage.
  method Install(m: SurfaceMesh, vp: VertexProps, hp: HalfedgeProps, ed: seq<bool>, fp: FaceProps)
    requires Sized(vp, hp, ed, fp)
    modifies m`vprops, m`hprops, m`edeleted, m`fprops, m`deletedVertices, m`deletedEdges, m`deletedFaces, m`hasGarbage
    ensures m.Valid() && (m.vprops, m.hprops, m.edeleted, m.fprops) == (vp, hp, ed, fp)
    ensures m.deletedVertices == 0 && m.deletedEdges == 0 && m.deletedFaces == 0 && !m.hasGarbage
  {
    m.vprops, m.hprops, m.edeleted, m.fprops := vp, hp, ed, fp;
    m.deletedVertices, m.deletedEdges, m.deletedFaces := 0, 0, 0;
    m.hasGarbage := false;
  }

  // ---- what garbage collection achieves

  /// Each array shrinks to the old size minus the deleted count, with two
  /// halfedges per surviving edge.
  lemma CollectedSized(vp: VertexProps, hp: HalfedgeProps, ed: seq<bool>, fp: FaceProps, p: Plan,
                       vp': VertexProps, hp': HalfedgeProps, ed': seq<bool>, fp': FaceProps)
    requires Planned(vp, hp, ed, fp, p) && (vp', hp', ed', fp') == Collected(vp, hp, ed, fp, p)
    ensures Sized(vp', hp', ed', fp')
    ensures |vp'.conn| == |vp.conn| - Count(vp.deleted) && |ed'| == |ed| - Count(ed)
    ensures |hp'.next| == |hp.next| - 2 * Count(ed) && |fp'.conn| == |fp.conn| - Count(fp.deleted)
  {
  }

  lemma AllClear(flags: seq<bool>)
    requires forall k :: 0 <= k < |flags| ==> !flags[k]
    ensures Count(flags) == 0
  {
    assert true !in multiset(flags);
  }

  /// No deleted element remains.
  lemma CollectedNoneDeleted(vp: VertexProps, hp: HalfedgeProps, ed: seq<bool>, fp: FaceProps, p: Plan)
    requires Planned(vp, hp, ed, fp, p)
    ensures var (vp', hp', ed', fp') := Collected(vp, hp, ed, fp, p);
      Count(vp'.deleted) == 0 && Count(ed') == 0 && Count(fp'.deleted) == 0
  {
    var (vp', hp', ed', fp') := Collected(vp, hp, ed, fp, p);
    AllClear(vp'.deleted);
    AllClear(ed');
    AllClear(fp'.deleted);
  }

  /// The halfedge map array sends old halfedge h to its new index.
  lemma HalfedgeMapAt(hp: HalfedgeProps, p: Plan, h: Halfedge)
    requires InPairBounds(p.se, |hp.next|) && h < |hp.next|
    ensures Get(HalfedgeMap(hp, p), h) == NewHalfedge(p.se, h)
  {
    var i, q := Halve(h);
    NewPairMap(|hp.next|, p.se, i, q);
  }

  /// A surviving vertex w moves to slot Perm(sv, w) below the new size, with
  /// its position, and with its outgoing halfedge sent to that halfedge's new index.
  lemma VertexMoves(vp: VertexProps, hp: HalfedgeProps, ed: seq<bool>, fp: FaceProps, p: Plan, w: Vertex)
    requires Planned(vp, hp, ed, fp, p) && RefsIn(vp.conn, |hp.next|)
    requires w < |vp.conn| && !vp.deleted[w]
    ensures var vp' := CollectedVertices(vp, hp, p); var w' := Perm(p.sv, w);
      w' < |vp'.conn| && vp'.point[w'] == vp.point[w] && !vp'.deleted[w'] &&
      vp'.conn[w'] == if IsValid(vp.conn[w]) then NewHalfedge(p.se, vp.conn[w]) else Invalid
  {
    MonotoneDisjoint(p.sv);
    Compacted(vp.deleted, vp.point, p.sv, p.nv, w);
    Compacted(vp.deleted, vp.conn, p.sv, p.nv, w);
    PairBounds(p.se, |ed|);
    if IsValid(vp.conn[w]) {
      HalfedgeMapAt(hp, p, vp.conn[w]);
    }
  }

  /// A surviving halfedge h moves to its new index below the new size, and
  /// its target vertex, next halfedge and face are sent to their new indices
  /// (boundary halfedges keep the invalid face).
  lemma HalfedgeMoves(vp: VertexProps, hp: HalfedgeProps, ed: seq<bool>, fp: FaceProps, p: Plan, h: Halfedge)
    requires Planned(vp, hp, ed, fp, p)
    requires RefsIn(hp.vertex, |vp.conn|) && RefsIn(hp.next, |hp.next|) && RefsIn(hp.face, |fp.conn|)
    requires h < |hp.next| && !ed[EdgeOf(h)]
    ensures var h' := NewHalfedge(p.se, h);
      h' < 2 * p.ne && 2 * p.ne == |CollectedNext(hp, p)| &&
      CollectedTargets(vp, hp, p)[h'] == (if IsValid(hp.vertex[h]) then Perm(p.sv, hp.vertex[h]) else Invalid) &&
      CollectedNext(hp, p)[h'] == (if IsValid(hp.next[h]) then NewHalfedge(p.se, hp.next[h]) else Invalid) &&
      CollectedFaceRefs(hp, fp, p)[h'] == (if IsValid(hp.face[h]) then Perm(p.sf, hp.face[h]) else Invalid)
  {
    PairBounds(p.se, |ed|);
    var i, q := EdgeLands(ed, p.se, p.ne, h);
    TargetLands(vp, hp, fp, p, h, i, q);
    NextLands(vp, hp, fp, p, h, i, q);
    FaceLands(vp, hp, fp, p, h, i, q);
  }

  /// A surviving halfedge's edge moves below the new edge count.
  lemma EdgeLands(ed: seq<bool>, se: seq<Transposition>, ne: nat, h: Halfedge) returns (i: nat, q: nat)
    requires Compacts(ed, se, ne) && h < 2 * |ed| && !ed[EdgeOf(h)]
    ensures q <= 1 && h == 2 * i + q && EdgeOf(h) == i && h % 2 == q && 2 * Perm(se, i) + q < 2 * ne
    ensures NewHalfedge(se, h) == 2 * Perm(se, i) + q
  {
    MonotoneDisjoint(se);
    i, q := Halve(h);
    Compacted(ed, ed, se, ne, i);
  }

  /// The common assumptions of the three halfedge lemmas below.
  predicate Lands(vp: VertexProps, hp: HalfedgeProps, fp: FaceProps, p: Plan, h: Halfedge, i: nat, q: nat)
  {
    |hp.face| == |hp.vertex| == |hp.next| == |hp.prev| && InPairBounds(p.se, |hp.next|) &&
    InBounds(p.sv, |vp.conn|) && InBounds(p.sf, |fp.conn|) && 2 * p.ne <= |hp.next| &&
    Monotone(p.se) && q <= 1 && h == 2 * i + q && h < |hp.next| && 2 * Perm(p.se, i) + q < 2 * p.ne
  }

  /// A pairwise exchange followed by a remap of the first 2 ne slots, read at
  /// the new slot of old halfedge 2 i + q.
  lemma PairRemapAt(s: seq<nat>, se: seq<Transposition>, tbl: seq<nat>, ne: nat, i: nat, q: nat)
    requires InPairBounds(se, |s|) && Monotone(se) && q <= 1 && 2 * i + q < |s| && 2 * Perm(se, i) + q < 2 * ne <= |s|
    ensures RemappedAll(ApplyPairSwaps(s, se), tbl, 2 * ne)[2 * Perm(se, i) + q] == Get(tbl, s[2 * i + q])
    ensures RemappedValid(ApplyPairSwaps(s, se), tbl, 2 * ne)[2 * Perm(se, i) + q] ==
            if IsValid(s[2 * i + q]) then Get(tbl, s[2 * i + q]) else s[2 * i + q]
  {
    MonotoneDisjoint(se);
    NewPairSlot(s, se, i, q);
  }

  /// A map array read at a stored reference: the new index, or invalid.
  lemma MapGet(n: nat, sw: seq<Transposition>, w: nat)
    requires InBounds(sw, n) && Monotone(sw) && n < MaxIndex && Ref(w, n)
    ensures Get(ApplySwaps(Identity(n), sw), w) == if IsValid(w) then Perm(sw, w) else Invalid
  {
    if IsValid(w) {
      MonotoneDisjoint(sw);
      NewSlot(Identity(n), sw, w);
    }
  }

  lemma TargetLands(vp: VertexProps, hp: HalfedgeProps, fp: FaceProps, p: Plan, h: Halfedge, i: nat, q: nat)
    requires Lands(vp, hp, fp, p, h, i, q) && Monotone(p.sv) && |vp.conn| < MaxIndex && RefsIn(hp.vertex, |vp.conn|)
    ensures CollectedTargets(vp, hp, p)[2 * Perm(p.se, i) + q] ==
            if IsValid(hp.vertex[h]) then Perm(p.sv, hp.vertex[h]) else Invalid
  {
    var tbl := VertexMap(vp, p);
    PairRemapAt(hp.vertex, p.se, tbl, p.ne, i, q);
    MapGet(|vp.conn|, p.sv, hp.vertex[h]);
  }

  lemma NextLands(vp: VertexProps, hp: HalfedgeProps, fp: FaceProps, p: Plan, h: Halfedge, i: nat, q: nat)
    requires Lands(vp, hp, fp, p, h, i, q) && |hp.next| < MaxIndex && RefsIn(hp.next, |hp.next|)
    ensures CollectedNext(hp, p)[2 * Perm(p.se, i) + q] ==
            if IsValid(hp.next[h]) then NewHalfedge(p.se, hp.next[h]) else Invalid
  {
    var tbl := HalfedgeMap(hp, p);
    PairRemapAt(hp.next, p.se, tbl, p.ne, i, q);
    if IsValid(hp.next[h]) {
      HalfedgeMapAt(hp, p, hp.next[h]);
    }
  }

  lemma FaceLands(vp: VertexProps, hp: HalfedgeProps, fp: FaceProps, p: Plan, h: Halfedge, i: nat, q: nat)
    requires Lands(vp, hp, fp, p, h, i, q) && Monotone(p.sf) && |fp.conn| < MaxIndex && RefsIn(hp.face, |fp.conn|)
    ensures CollectedFaceRefs(hp, fp, p)[2 * Perm(p.se, i) + q] ==
            if IsValid(hp.face[h]) then Perm(p.sf, hp.face[h]) else Invalid
  {
    var tbl := FaceMap(fp, p);
    PairRemapAt(hp.face, p.se, tbl, p.ne, i, q);
    MapGet(|fp.conn|, p.sf, hp.face[h]);
  }

  /// A surviving face f moves to slot Perm(sf, f) below the new size, with its
  /// halfedge sent to that halfedge's new index.
  lemma FaceMoves(vp: VertexProps, hp: HalfedgeProps, ed: seq<bool>, fp: FaceProps, p: Plan, f: Face)
    requires Planned(vp, hp, ed, fp, p) && RefsIn(fp.conn, |hp.next|)
    requires f < |fp.conn| && !fp.deleted[f]
    ensures var fp' := CollectedFaces(hp, fp, p); var f' := Perm(p.sf, f);
      f' < |fp'.conn| && !fp'.deleted[f'] &&
      fp'.conn[f'] == if IsValid(fp.conn[f]) then NewHalfedge(p.se, fp.conn[f]) else Invalid
  {
    MonotoneDisjoint(p.sf);
    Compacted(fp.deleted, fp.conn, p.sf, p.nf, f);
    PairBounds(p.se, |ed|);
    if IsValid(fp.conn[f]) {
      HalfedgeMapAt(hp, p, fp.conn[f]);
    }
  }

  // ---- references after garbage collection

  predicate LiveHalfedge(ed: seq<bool>, h: nat) { h < 2 * |ed| && !ed[EdgeOf(h)] }
  predicate Live(deleted: seq<bool>, x: nat) { x < |deleted| && !deleted[x] }

  /// Live vertices leave on live halfedges (or are isolated).
  predicate AnchorsClosed(vp: VertexProps, ed: seq<bool>)
    requires |vp.conn| == |vp.deleted|
  {
    forall v :: 0 <= v < |vp.conn| && !vp.deleted[v] && IsValid(vp.conn[v]) ==> LiveHalfedge(ed, vp.conn[v])
  }

  /// Live halfedges point to live vertices, live halfedges and live faces (or none).
  predicate LinksClosed(vp: VertexProps, hp: HalfedgeProps, ed: seq<bool>, fp: FaceProps)
    requires |hp.face| == |hp.vertex| == |hp.next| == 2 * |ed|
  {
    forall h :: 0 <= h < |hp.next| && !ed[EdgeOf(h)] ==>
      Live(vp.deleted, hp.vertex[h]) && LiveHalfedge(ed, hp.next[h]) &&
      (IsValid(hp.face[h]) ==> Live(fp.deleted, hp.face[h]))
  }

  /// Every live halfedge is the next halfedge of its live previous halfedge.
  predicate PrevClosed(hp: HalfedgeProps, ed: seq<bool>)
    requires |hp.next| == |hp.prev| == 2 * |ed|
  {
    forall h :: 0 <= h < |hp.next| && !ed[EdgeOf(h)] ==> LiveHalfedge(ed, hp.prev[h]) && hp.next[hp.prev[h]] == h
  }

  /// Live faces name live halfedges.
  predicate FaceAnchorsClosed(ed: seq<bool>, fp: FaceProps)
    requires |fp.conn| == |fp.deleted|
  {
    forall f :: 0 <= f < |fp.conn| && !fp.deleted[f] ==> LiveHalfedge(ed, fp.conn[f])
  }

  /// A consistent mesh: live elements refer only to live elements.
  predicate Closed(vp: VertexProps, hp: HalfedgeProps, ed: seq<bool>, fp: FaceProps)
    requires Sized(vp, hp, ed, fp)
  {
    AnchorsClosed(vp, ed) && LinksClosed(vp, hp, ed, fp) && PrevClosed(hp, ed) && FaceAnchorsClosed(ed, fp)
  }

  /// The stored handles are in range (the mesh's InRange).
  predicate Referenced(vp: VertexProps, hp: HalfedgeProps, fp: FaceProps)
  {
    RefsIn(vp.conn, |hp.next|) && RefsIn(hp.face, |fp.conn|) && RefsIn(hp.vertex, |vp.conn|) &&
    RefsIn(hp.next, |hp.next|) && RefsIn(hp.prev, |hp.next|) && RefsIn(fp.conn, |hp.next|)
  }

  /// The old halfedge whose data ends up at new slot k.
  lemma HalfedgeOrigin(ed: seq<bool>, se: seq<Transposition>, ne: nat, k: nat) returns (h: Halfedge)
    requires Compacts(ed, se, ne) && k < 2 * ne
    ensures h < 2 * |ed| && !ed[EdgeOf(h)] && NewHalfedge(se, h) == k
  {
    MonotoneDisjoint(se);
    var i, q := Halve(k);
    Survivor(ed, se, ne, i);
    h := 2 * Perm(se, i) + q;
    assert EdgeOf(h) == Perm(se, i) && h % 2 == q;
  }

  /// A live halfedge gets a new index below the new halfedge count.
  lemma LiveHalfedgeLands(ed: seq<bool>, se: seq<Transposition>, ne: nat, h: Halfedge)
    requires Compacts(ed, se, ne) && LiveHalfedge(ed, h)
    ensures NewHalfedge(se, h) < 2 * ne
  {
    var i, q := EdgeLands(ed, se, ne, h);
  }

  /// A live element gets a new index below the new count.
  lemma LiveLands(deleted: seq<bool>, sw: seq<Transposition>, n: nat, x: nat)
    requires Compacts(deleted, sw, n) && Live(deleted, x)
    ensures Perm(sw, x) < n
  {
    MonotoneDisjoint(sw);
    Compacted(deleted, deleted, sw, n, x);
  }

  lemma AnchorLands(vp: VertexProps, hp: HalfedgeProps, ed: seq<bool>, fp: FaceProps, p: Plan, k: nat)
    requires Planned(vp, hp, ed, fp, p) && RefsIn(vp.conn, |hp.next|) && AnchorsClosed(vp, ed) && k < p.nv
    ensures Ref(CollectedVertices(vp, hp, p).conn[k], 2 * p.ne)
  {
    MonotoneDisjoint(p.sv);
    Survivor(vp.deleted, p.sv, p.nv, k);
    var w := Perm(p.sv, k);
    VertexMoves(vp, hp, ed, fp, p, w);
    if IsValid(vp.conn[w]) {
      LiveHalfedgeLands(ed, p.se, p.ne, vp.conn[w]);
    }
  }

  lemma FaceAnchorLands(vp: VertexProps, hp: HalfedgeProps, ed: seq<bool>, fp: FaceProps, p: Plan, k: nat)
    requires Planned(vp, hp, ed, fp, p) && RefsIn(fp.conn, |hp.next|) && FaceAnchorsClosed(ed, fp) && k < p.nf
    ensures Ref(CollectedFaces(hp, fp, p).conn[k], 2 * p.ne)
  {
    MonotoneDisjoint(p.sf);
    Survivor(fp.deleted, p.sf, p.nf, k);
    var f := Perm(p.sf, k);
    FaceMoves(vp, hp, ed, fp, p, f);
    LiveHalfedgeLands(ed, p.se, p.ne, fp.conn[f]);
  }

  /// New halfedge k holds the links of a live old halfedge, which point to
  /// live elements and so land below the new counts.
  lemma LinksLand(vp: VertexProps, hp: HalfedgeProps, ed: seq<bool>, fp: FaceProps, p: Plan, k: nat)
    requires Planned(vp, hp, ed, fp, p) && Referenced(vp, hp, fp) && LinksClosed(vp, hp, ed, fp) && k < 2 * p.ne
    ensures Ref(CollectedTargets(vp, hp, p)[k], p.nv)
    ensures Ref(CollectedNext(hp, p)[k], 2 * p.ne)
    ensures Ref(CollectedFaceRefs(hp, fp, p)[k], p.nf)
  {
    var h := HalfedgeOrigin(ed, p.se, p.ne, k);
    HalfedgeMoves(vp, hp, ed, fp, p, h);
    LiveLands(vp.deleted, p.sv, p.nv, hp.vertex[h]);
    LiveHalfedgeLands(ed, p.se, p.ne, hp.next[h]);
    if IsValid(hp.face[h]) {
      LiveLands(fp.deleted, p.sf, p.nf, hp.face[h]);
    }
  }

  /// When one of the first n calls `set_next_halfedge(z, x)` targets x, the
  /// previous record of x ends below n.
  lemma {:induction false} RelinkedPrevHit(prev: seq<nat>, nx: seq<nat>, n: nat, z: nat, x: nat)
    requires z < n <= |nx| && nx[z] == x && x < |prev|
    ensures RelinkedPrev(prev, nx, n)[x] < n
    decreases n
  {
    if z < n - 1 {
      RelinkedPrevHit(prev, nx, n - 1, z, x);
    }
  }

  /// New halfedge x is the next halfedge of the new index of its old
  /// previous halfedge, so its previous record is rewritten below the new count.
  lemma PrevLands(vp: VertexProps, hp: HalfedgeProps, ed: seq<bool>, fp: FaceProps, p: Plan, x: nat)
    requires Planned(vp, hp, ed, fp, p) && Referenced(vp, hp, fp)
    requires LinksClosed(vp, hp, ed, fp) && PrevClosed(hp, ed) && x < 2 * p.ne
    ensures CollectedPrev(hp, p)[x] < 2 * p.ne
  {
    var y := HalfedgeOrigin(ed, p.se, p.ne, x);
    var z := hp.prev[y];
    HalfedgeMoves(vp, hp, ed, fp, p, z);
    PairBounds(p.se, |ed|);
    PrevHit(hp, p, NewHalfedge(p.se, z), x);
  }

  lemma PrevHit(hp: HalfedgeProps, p: Plan, z: nat, x: nat)
    requires InPairBounds(p.se, |hp.next|) && |hp.prev| == |hp.next| && z < 2 * p.ne && x < 2 * p.ne <= |hp.next|
    requires CollectedNext(hp, p)[z] == x
    ensures CollectedPrev(hp, p)[x] < 2 * p.ne
  {
    var nx := RemappedAll(ApplyPairSwaps(hp.next, p.se), HalfedgeMap(hp, p), 2 * p.ne);
    assert nx[z] == x;
    RelinkedPrevHit(ApplyPairSwaps(hp.prev, p.se), nx, 2 * p.ne, z, x);
  }

  lemma AnchorsLand(vp: VertexProps, hp: HalfedgeProps, ed: seq<bool>, fp: FaceProps, p: Plan)
    requires Planned(vp, hp, ed, fp, p) && RefsIn(vp.conn, |hp.next|) && AnchorsClosed(vp, ed)
    ensures RefsIn(CollectedVertices(vp, hp, p).conn, 2 * p.ne)
  {
    forall k | 0 <= k < p.nv ensures Ref(CollectedVertices(vp, hp, p).conn[k], 2 * p.ne) {
      AnchorLands(vp, hp, ed, fp, p, k);
    }
  }

  lemma FaceAnchorsLand(vp: VertexProps, hp: HalfedgeProps, ed: seq<bool>, fp: FaceProps, p: Plan)
    requires Planned(vp, hp, ed, fp, p) && RefsIn(fp.conn, |hp.next|) && FaceAnchorsClosed(ed, fp)
    ensures RefsIn(CollectedFaces(hp, fp, p).conn, 2 * p.ne)
  {
    forall k | 0 <= k < p.nf ensures Ref(CollectedFaces(hp, fp, p).conn[k], 2 * p.ne) {
      FaceAnchorLands(vp, hp, ed, fp, p, k);
    }
  }

  lemma AllLinksLand(vp: VertexProps, hp: HalfedgeProps, ed: seq<bool>, fp: FaceProps, p: Plan)
    requires Planned(vp, hp, ed, fp, p) && Referenced(vp, hp, fp) && LinksClosed(vp, hp, ed, fp) && PrevClosed(hp, ed)
    ensures RefsIn(CollectedTargets(vp, hp, p), p.nv) && RefsIn(CollectedNext(hp, p), 2 * p.ne)
    ensures RefsIn(CollectedFaceRefs(hp, fp, p), p.nf) && RefsIn(CollectedPrev(hp, p), 2 * p.ne)
  {
    forall k | 0 <= k < 2 * p.ne
      ensures Ref(CollectedTargets(vp, hp, p)[k], p.nv) && Ref(CollectedNext(hp, p)[k], 2 * p.ne)
      ensures Ref(CollectedFaceRefs(hp, fp, p)[k], p.nf) && CollectedPrev(hp, p)[k] < 2 * p.ne
    {
      LinksLand(vp, hp, ed, fp, p, k);
      PrevLands(vp, hp, ed, fp, p, k);
    }
  }

  /// In a consistent mesh every handle stored after garbage collection names
  /// an element of the compacted mesh or is invalid.
  lemma CollectedInRange(vp: VertexProps, hp: HalfedgeProps, ed: seq<bool>, fp: FaceProps, p: Plan,
                         vp': VertexProps, hp': HalfedgeProps, ed': seq<bool>, fp': FaceProps)
    requires Planned(vp, hp, ed, fp, p) && Referenced(vp, hp, fp) && Closed(vp, hp, ed, fp)
    requires (vp', hp', ed', fp') == Collected(vp, hp, ed, fp, p)
    ensures Referenced(vp', hp', fp')
  {
    CollectedSized(vp, hp, ed, fp, p, vp', hp', ed', fp');
    AnchorsLand(vp, hp, ed, fp, p);
    FaceAnchorsLand(vp, hp, ed, fp, p);
    AllLinksLand(vp, hp, ed, fp, p);
  }
}
