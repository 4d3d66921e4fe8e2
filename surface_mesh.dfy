/// The halfedge surface mesh: connectivity arrays, soft deletion, element
/// allocation, traversal, face insertion, the Euler operators and garbage
/// collection.
///
/// The halfedge connectivity record (face, target vertex, next, previous) is
/// held as four parallel arrays, one per record field.  Reads through an
/// index outside an array, undefined behaviour in the library, give the
/// invalid handle here, and writes through such an index change nothing.
module HalfedgeMesh {
  import opened Handles
  import opened Wrappers
  import opened Compaction

  /// A vertex position.  The kernel only stores and moves points.
  datatype Point = Point(x: real, y: real, z: real)

  /// The value a freshly allocated position slot holds.
  const Origin := Point(0.0, 0.0, 0.0)

  /// Writing one slot of an array; an index outside the array writes nothing.
  function Put<T>(s: seq<T>, i: nat, x: T): (r: seq<T>)
    ensures |r| == |s|
  {
    if i < |s| then s[i := x] else s
  }

  /// Reading one slot of a handle array; outside the array: the invalid handle.
  function Get(s: seq<nat>, i: nat): nat
  {
    if i < |s| then s[i] else Invalid
  }

  /// Every entry names one of the first n elements or is the invalid handle.
  predicate RefsIn(s: seq<nat>, n: nat)
  {
    forall k :: 0 <= k < |s| ==> s[k] < n || s[k] == Invalid
  }

  /// A handle names one of the first n elements or is invalid.
  predicate Ref(x: nat, n: nat) { x < n || x == Invalid }

  lemma PutRefs(s: seq<nat>, i: nat, x: nat, n: nat)
    requires RefsIn(s, n) && Ref(x, n)
    ensures RefsIn(Put(s, i, x), n)
  {
  }

  /// References below n are below any larger bound.
  lemma WidenRefs(s: seq<nat>, n: nat, n': nat)
    requires RefsIn(s, n) && n <= n'
    ensures RefsIn(s, n')
  {
  }

  /// The three ways of moving from a halfedge to a neighbouring one.
  datatype Step = Cw | Ccw | NextStep

  /// Indices i, i+1, ..., n-1.
  function Range(i: nat, n: nat): (r: seq<nat>)
    ensures |r| == if i <= n then n - i else 0
    ensures forall k :: 0 <= k < |r| ==> r[k] == i + k
    decreases n - i
  {
    if i >= n then [] else [i] + Range(i + 1, n)
  }

  /// The indices in [i, |deleted|) whose flag is not set, in increasing order.
  function Survivors(deleted: seq<bool>, i: nat): seq<nat>
    decreases |deleted| - i
  {
    if i >= |deleted| then []
    else (if deleted[i] then [] else [i]) + Survivors(deleted, i + 1)
  }

  /// Survivors lists exactly the unflagged indices of [i, |deleted|), strictly increasing.
  lemma {:induction false} SurvivorsSpec(deleted: seq<bool>, i: nat)
    ensures forall x :: x in Survivors(deleted, i) <==> i <= x < |deleted| && !deleted[x]
    ensures forall a, b :: 0 <= a < b < |Survivors(deleted, i)| ==>
              Survivors(deleted, i)[a] < Survivors(deleted, i)[b]
    decreases |deleted| - i
  {
    if i < |deleted| {
      SurvivorsSpec(deleted, i + 1);
      var rest := Survivors(deleted, i + 1);
      var s := Survivors(deleted, i);
      if !deleted[i] {
        assert s == [i] + rest;
        forall a, b | 0 <= a < b < |s| ensures s[a] < s[b] {
          if a > 0 {
            assert s[a] == rest[a - 1] && s[b] == rest[b - 1];
          } else {
            assert s[b] in rest;
          }
        }
      } else {
        assert s == rest;
      }
    }
  }

  /// Without deletions, the survivors are all indices.
  lemma {:induction false} SurvivorsAll(deleted: seq<bool>, i: nat)
    requires forall k :: 0 <= k < |deleted| ==> !deleted[k]
    ensures Survivors(deleted, i) == Range(i, |deleted|)
    decreases |deleted| - i
  {
    if i < |deleted| {
      SurvivorsAll(deleted, i + 1);
    }
  }

  /// No flag set iff the deleted count is zero.
  lemma NoneDeleted(deleted: seq<bool>)
    requires Count(deleted) == 0
    ensures forall k :: 0 <= k < |deleted| ==> !deleted[k]
  {
    forall k | 0 <= k < |deleted| ensures !deleted[k] {
      assert deleted[k] in multiset(deleted);
    }
  }

  /// The linear iterator over one element kind (`VertexIterator`,
  /// `HalfedgeIterator`, `EdgeIterator`, `FaceIterator`).  It sees the mesh
  /// through the deletion flag of each index and the garbage flag; the
  /// iterated mesh does not change while the iterator is in use.
  class HandleIterator {
    const deleted: seq<bool>
    const garbage: bool
    var handle: nat

    /// The iterator rests on a visited element or at the end.
    predicate Parked()
      reads this
    {
      handle <= |deleted| && (handle < |deleted| ==> !(garbage && deleted[handle]))
    }

    /// The constructor skips deleted elements, but only when the mesh has
    /// garbage; what it visits from there is what remains from h.
    constructor (h: nat, deleted: seq<bool>, garbage: bool)
      requires |deleted| < MaxIndex && h <= |deleted|
      ensures this.deleted == deleted && this.garbage == garbage
      ensures Parked() && h <= handle
      ensures Remaining(deleted, garbage, h) == Remaining(deleted, garbage, handle)
    {
      this.deleted := deleted;
      this.garbage := garbage;
      handle := h;
      new;
      SkipForward();
      if garbage {
        SurvivorsSkip(deleted, h, handle);
      }
    }

    /// `operator++`: step up (the 32-bit index wraps), then skip deleted
    /// elements while the mesh has garbage.  From a visited element the
    /// iterator moves to the next one: the elements left are the current one
    /// followed by the ones left from the new position.
    method Increment()
      requires handle <= MaxIndex && |deleted| < MaxIndex
      modifies this
      ensures old(Parked()) && old(handle) < |deleted| ==>
                Parked() && old(handle) < handle &&
                Remaining(deleted, garbage, old(handle)) == [old(handle)] + Remaining(deleted, garbage, handle)
      ensures |deleted| <= old(handle) < MaxIndex ==> handle == old(handle) + 1
      ensures old(handle) == MaxIndex ==>
                Parked() && Remaining(deleted, garbage, 0) == Remaining(deleted, garbage, handle)
    {
      handle := (handle + 1) % (MaxIndex + 1);
      SkipForward();
      if old(handle) < |deleted| && !(garbage && deleted[old(handle)]) {
        SkipAhead(deleted, garbage, old(handle), handle);
      }
      if old(handle) == MaxIndex && garbage {
        SurvivorsSkip(deleted, 0, handle);
      }
    }

    /// The skip loop of the constructor and of `operator++`.
    method SkipForward()
      requires handle <= MaxIndex && |deleted| < MaxIndex
      modifies this
      ensures old(handle) <= handle <= MaxIndex
      ensures handle == old(handle) || handle <= |deleted|
      ensures handle != old(handle) ==> garbage
      ensures forall k :: old(handle) <= k < handle ==> deleted[k]
      ensures handle < |deleted| ==> !(garbage && deleted[handle])
    {
      while garbage && handle < |deleted| && deleted[handle]
        invariant old(handle) <= handle <= MaxIndex
        invariant handle == old(handle) || handle <= |deleted|
        invariant handle != old(handle) ==> garbage
        invariant forall k :: old(handle) <= k < handle ==> deleted[k]
      {
        handle := handle + 1;
      }
    }

    /// `operator--`: step down (from 0 the 32-bit index wraps to the invalid
    /// index), then skip deleted elements while the mesh has garbage.
    method Decrement()
      requires handle <= MaxIndex && |deleted| < MaxIndex
      modifies this
      ensures var h := if old(handle) == 0 then MaxIndex else old(handle) - 1;
              (handle <= h || handle == MaxIndex) &&
              (handle != h ==> h < |deleted| && garbage) &&
              (handle != MaxIndex ==> forall k :: handle < k <= h ==> deleted[k]) &&
              (handle == MaxIndex && h != MaxIndex ==> forall k :: 0 <= k <= h ==> deleted[k]) &&
              (handle < |deleted| ==> !(garbage && deleted[handle]))
    {
      handle := if handle == 0 then MaxIndex else handle - 1;
      SkipBackward();
    }

    /// The skip loop of `operator--`.
    method SkipBackward()
      requires handle <= MaxIndex && |deleted| < MaxIndex
      modifies this
      ensures handle <= old(handle) || handle == MaxIndex
      ensures handle != old(handle) ==> old(handle) < |deleted| && garbage
      ensures handle != MaxIndex ==> forall k :: handle < k <= old(handle) ==> deleted[k]
      ensures handle == MaxIndex && old(handle) != MaxIndex ==>
                forall k :: 0 <= k <= old(handle) ==> deleted[k]
      ensures handle < |deleted| ==> !(garbage && deleted[handle])
    {
      while garbage && handle < |deleted| && deleted[handle]
        invariant handle <= old(handle) || handle == MaxIndex
        invariant handle != old(handle) ==> old(handle) < |deleted| && garbage
        invariant handle != MaxIndex ==> forall k :: handle < k <= old(handle) ==> deleted[k]
        invariant handle == MaxIndex && old(handle) != MaxIndex ==>
                    forall k :: 0 <= k <= old(handle) ==> deleted[k]
        decreases if handle < |deleted| then handle + 1 else 0
      {
        if handle == 0 {
          handle := MaxIndex;
        } else {
          handle := handle - 1;
        }
      }
    }
  }

  /// The survivors from i and the flagged slots from i together fill [i, |deleted|).
  lemma {:induction false} SurvivorsCount(deleted: seq<bool>, i: nat)
    requires i <= |deleted|
    ensures |Survivors(deleted, i)| + Count(deleted[i..]) == |deleted| - i
    decreases |deleted| - i
  {
    if i < |deleted| {
      SurvivorsCount(deleted, i + 1);
      assert deleted[i..] == [deleted[i]] + deleted[i + 1..];
      assert multiset(deleted[i..]) == multiset([deleted[i]]) + multiset(deleted[i + 1..]);
    } else {
      assert deleted[i..] == [];
    }
  }

  /// Enumeration with a linear iterator, `for (auto x : mesh.vertices())`:
  /// from the first index to `size`, skipping deleted elements when the mesh
  /// has garbage.
  method Enumerate(deleted: seq<bool>, garbage: bool) returns (xs: seq<nat>)
    requires |deleted| < MaxIndex
    ensures xs == Remaining(deleted, garbage, 0)
  {
    ghost var all := Remaining(deleted, garbage, 0);
    var it := new HandleIterator(0, deleted, garbage);
    var h := it.handle;
    xs := [];
    while h != |deleted|
      invariant it.deleted == deleted && it.garbage == garbage && it.handle == h && it.Parked()
      invariant all == xs + Remaining(deleted, garbage, h)
      decreases |deleted| - h
    {
      it.Increment();
      ConcatAssoc(xs, [h], Remaining(deleted, garbage, it.handle));
      xs := xs + [h];
      h := it.handle;
    }
  }

  lemma ConcatAssoc<T>(a: seq<T>, b: seq<T>, c: seq<T>)
    ensures a + (b + c) == (a + b) + c
  {
  }

  /// What a linear iterator still visits from index i on.
  function Remaining(deleted: seq<bool>, garbage: bool, i: nat): seq<nat>
  {
    if garbage then Survivors(deleted, i) else Range(i, |deleted|)
  }

  /// A linear iterator visits index g: it exists and is not skipped.
  predicate Visits(deleted: seq<bool>, garbage: bool, g: nat)
  {
    g < |deleted| && !(garbage && deleted[g])
  }

  /// What remains from i are the visited indices from i on.
  lemma RemainingMembers(deleted: seq<bool>, garbage: bool, i: nat)
    ensures forall g :: g in Remaining(deleted, garbage, i) <==> i <= g && Visits(deleted, garbage, g)
  {
    if garbage {
      SurvivorsSpec(deleted, i);
    } else {
      var r := Range(i, |deleted|);
      forall g | i <= g < |deleted| ensures g in r {
        assert r[g - i] == g;
      }
    }
  }

  /// Between two consecutive positions of an iterator no index is visited.
  lemma VisitsBetween(deleted: seq<bool>, garbage: bool, f: nat, f': nat)
    requires Remaining(deleted, garbage, f) == [f] + Remaining(deleted, garbage, f')
    ensures forall g :: f < g < f' ==> !Visits(deleted, garbage, g)
  {
    RemainingMembers(deleted, garbage, f);
    RemainingMembers(deleted, garbage, f');
  }

  /// One iterator step passes over deleted slots only, so what remains from
  /// the old position is that position followed by what remains from the new one.
  lemma SkipAhead(deleted: seq<bool>, garbage: bool, h: nat, h': nat)
    requires h < |deleted| && h < h' <= |deleted|
    requires !(garbage && deleted[h])
    requires h' != h + 1 ==> garbage
    requires forall k :: h + 1 <= k < h' ==> deleted[k]
    ensures Remaining(deleted, garbage, h) == [h] + Remaining(deleted, garbage, h')
  {
    if garbage {
      SurvivorsSkip(deleted, h + 1, h');
    }
  }

  lemma {:induction false} SurvivorsSkip(deleted: seq<bool>, i: nat, j: nat)
    requires i <= j <= |deleted|
    requires forall k :: i <= k < j ==> deleted[k]
    ensures Survivors(deleted, i) == Survivors(deleted, j)
    decreases j - i
  {
    if i < j {
      SurvivorsSkip(deleted, i + 1, j);
    }
  }

  /// The halfedge connectivity fields of a freshly allocated halfedge pair.
  const NoHalfedges: seq<nat> := [Invalid, Invalid]

  /// The edges of a list of halfedges.
  function EdgesOf(hs: seq<Halfedge>): (es: seq<Edge>)
    ensures |es| == |hs| && forall k :: 0 <= k < |hs| ==> es[k] == EdgeOf(hs[k])
  {
    seq(|hs|, k requires 0 <= k < |hs| => EdgeOf(hs[k]))
  }

  /// The target vertices of a list of halfedges, read from the vertex records.
  function TargetsIn(vertex: seq<Vertex>, hs: seq<Halfedge>): (vs: seq<Vertex>)
    ensures |vs| == |hs| && forall k :: 0 <= k < |hs| ==> vs[k] == Get(vertex, hs[k])
  {
    seq(|hs|, k requires 0 <= k < |hs| => Get(vertex, hs[k]))
  }

  /// Every listed element exists and is flagged.
  predicate AllSet(flags: seq<bool>, xs: seq<nat>)
  {
    forall k :: 0 <= k < |xs| ==> xs[k] < |flags| && flags[xs[k]]
  }

  /// Flags that only grow keep every set flag set, and one more set flag
  /// extends the list.
  lemma AllSetStep(before: seq<bool>, after: seq<bool>, xs: seq<nat>, x: nat)
    requires AllSet(before, xs) && FlagsGrow(before, after) && x < |after| && after[x]
    ensures AllSet(after, xs + [x])
  {
  }

  /// Every edge of the list that lies in the flags is flagged.
  predicate FlaggedWithin(flags: seq<bool>, es: seq<Edge>)
  {
    forall k :: 0 <= k < |es| && es[k] < |flags| ==> flags[es[k]]
  }

  /// Flags that only grow keep the flagged edges, and one more is added.
  lemma FlaggedStep(before: seq<bool>, after: seq<bool>, es: seq<Edge>, e: Edge)
    requires FlaggedWithin(before, es) && FlagsGrow(before, after) && (e < |after| ==> after[e])
    ensures FlaggedWithin(after, es + [e])
  {
  }

  /// Flags are only ever set: a deleted element stays deleted.
  predicate FlagsGrow(before: seq<bool>, after: seq<bool>)
  {
    |after| == |before| && forall i :: 0 <= i < |before| && before[i] ==> after[i]
  }

  /// The face records after `set_face(h, f)` for each halfedge h of hs in
  /// turn; f is the invalid face where the halfedges lose their face.
  function Relabelled(face: seq<Face>, hs: seq<Halfedge>, f: Face): (r: seq<Face>)
    ensures |r| == |face|
    decreases |hs|
  {
    if hs == [] then face else Put(Relabelled(face, hs[..|hs| - 1], f), hs[|hs| - 1], f)
  }

  /// The edges `delete_face` collects along hs from the face records before
  /// its first loop: the edge of each halfedge whose opposite has no face
  /// once that halfedge and the ones before it have lost theirs.
  function LoneEdges(face: seq<Face>, hs: seq<Halfedge>): (es: seq<Edge>)
    ensures |es| <= |hs|
    decreases |hs|
  {
    if hs == [] then []
    else
      var h := hs[|hs| - 1];
      LoneEdges(face, hs[..|hs| - 1]) + (if IsValid(Get(Relabelled(face, hs, Invalid), Opposite(h))) then [] else [EdgeOf(h)])
  }

  /// No halfedge of hs is the opposite of one of hs.
  predicate NoTwins(hs: seq<Halfedge>)
  {
    forall i, j :: 0 <= i < |hs| && 0 <= j < |hs| ==> hs[i] != Opposite(hs[j])
  }

  /// The edge of hs[k] when the other side of hs[k] had no face.
  predicate LoneAt(face: seq<Face>, hs: seq<Halfedge>, k: nat, e: Edge)
  {
    k < |hs| && e == EdgeOf(hs[k]) && !IsValid(Get(face, Opposite(hs[k])))
  }

  /// A halfedge outside hs keeps its face.
  lemma RelabelledOutside(face: seq<Face>, hs: seq<Halfedge>, f: Face, x: Halfedge)
    requires x !in hs
    ensures Get(Relabelled(face, hs, f), x) == Get(face, x)
  {
    RelabelledSpec(face, hs, f);
  }

  /// Where no halfedge of hs is the opposite of one of hs, the collected
  /// edges are exactly those of the halfedges of hs whose other side had no
  /// face to begin with.
  lemma {:induction false} LoneEdgesMeaning(face: seq<Face>, hs: seq<Halfedge>)
    requires NoTwins(hs)
    ensures forall e :: e in LoneEdges(face, hs) <==> exists k :: LoneAt(face, hs, k, e)
    decreases |hs|
  {
    if hs != [] {
      var init, h := hs[..|hs| - 1], hs[|hs| - 1];
      assert NoTwins(init) by {
        forall i, j | 0 <= i < |init| && 0 <= j < |init| ensures init[i] != Opposite(init[j]) {
          assert init[i] == hs[i] && init[j] == hs[j];
        }
      }
      LoneEdgesMeaning(face, init);
      assert Opposite(h) !in hs by {
        forall i | 0 <= i < |hs| ensures hs[i] != Opposite(h) {
          assert hs[i] != Opposite(hs[|hs| - 1]);
        }
      }
      RelabelledOutside(face, hs, Invalid, Opposite(h));
      var tail := if IsValid(Get(face, Opposite(h))) then [] else [EdgeOf(h)];
      assert LoneEdges(face, hs) == LoneEdges(face, init) + tail;
      forall e ensures e in LoneEdges(face, hs) <==> exists k :: LoneAt(face, hs, k, e) {
        if e in LoneEdges(face, init) {
          var k: nat :| LoneAt(face, init, k, e);
          assert LoneAt(face, hs, k, e);
        } else if e in tail {
          assert LoneAt(face, hs, |hs| - 1, e);
        } else if k: nat :| LoneAt(face, hs, k, e) {
          if k < |init| {
            assert LoneAt(face, init, k, e);
          }
        }
      }
    }
  }

  /// Exactly the listed halfedges get face f; every other halfedge keeps its
  /// face.
  lemma {:induction false} RelabelledSpec(face: seq<Face>, hs: seq<Halfedge>, f: Face)
    ensures forall h: nat :: h < |face| ==> Relabelled(face, hs, f)[h] == if h in hs then f else face[h]
    decreases |hs|
  {
    if hs != [] {
      var init := hs[..|hs| - 1];
      RelabelledSpec(face, init, f);
      assert hs == init + [hs[|hs| - 1]];
      forall h: nat | h < |face| ensures Relabelled(face, hs, f)[h] == if h in hs then f else face[h] {
        assert h in hs <==> h in init || h == hs[|hs| - 1];
      }
    }
  }

  /// Setting a flag only sets flags.
  lemma PutGrows(flags: seq<bool>, i: nat)
    ensures FlagsGrow(flags, Put(flags, i, true))
  {
  }

  /// The per-vertex arrays of the kernel (`vprops_`): position, outgoing
  /// halfedge, deletion flag.
  datatype VertexProps = VertexProps(point: seq<Point>, conn: seq<Halfedge>, deleted: seq<bool>)

  /// The per-halfedge connectivity record (`hprops_`), one array per member.
  datatype HalfedgeProps = HalfedgeProps(face: seq<Face>, vertex: seq<Vertex>, next: seq<Halfedge>, prev: seq<Halfedge>)

  /// One step of a traversal on the halfedge records: clockwise or
  /// counter-clockwise around the start vertex of h, or along its face.
  function Stepped(hp: HalfedgeProps, step: Step, h: Halfedge): Halfedge
  {
    match step
    case Cw => Get(hp.next, Opposite(h))
    case Ccw => Opposite(Get(hp.prev, h))
    case NextStep => Get(hp.next, h)
  }

  /// The halfedges met stepping from h until the anchor comes back, at most
  /// fuel of them (the circulators' loop, which stops on the anchor).
  function Walked(hp: HalfedgeProps, step: Step, anchor: Halfedge, h: Halfedge, fuel: nat): (w: seq<Halfedge>)
    ensures |w| <= fuel
    ensures fuel > 0 ==> |w| > 0 && w[0] == h
    decreases fuel
  {
    if fuel == 0 then []
    else
      var n := Stepped(hp, step, h);
      [h] + (if n == anchor then [] else Walked(hp, step, anchor, n, fuel - 1))
  }

  /// Walks follow only the next and prev records.
  lemma {:induction false} WalkedLinksOnly(hp: HalfedgeProps, hp': HalfedgeProps, step: Step, anchor: Halfedge, h: Halfedge, fuel: nat)
    requires hp'.next == hp.next && hp'.prev == hp.prev
    ensures Walked(hp', step, anchor, h, fuel) == Walked(hp, step, anchor, h, fuel)
    decreases fuel
  {
    if fuel > 0 {
      WalkedLinksOnly(hp, hp', step, anchor, Stepped(hp, step, h), fuel - 1);
    }
  }

  /// Each entry of a walk is one step from the one before it, the anchor
  /// occurs only at its head, and a walk that stopped before running out of
  /// fuel steps from its last entry back to the anchor.
  lemma {:induction false} WalkedShape(hp: HalfedgeProps, step: Step, anchor: Halfedge, h: Halfedge, fuel: nat)
    ensures var w := Walked(hp, step, anchor, h, fuel);
            (forall k :: 0 < k < |w| ==> w[k] == Stepped(hp, step, w[k - 1]) && w[k] != anchor) &&
            (0 < |w| < fuel ==> Stepped(hp, step, w[|w| - 1]) == anchor)
    decreases fuel
  {
    if fuel > 0 && Stepped(hp, step, h) != anchor {
      var n := Stepped(hp, step, h);
      WalkedShape(hp, step, anchor, n, fuel - 1);
      var rest := Walked(hp, step, anchor, n, fuel - 1);
      var w := Walked(hp, step, anchor, h, fuel);
      assert w == [h] + rest;
      forall k | 0 < k < |w| ensures w[k] == Stepped(hp, step, w[k - 1]) && w[k] != anchor {
        assert w[k] == rest[k - 1];
        if k > 1 {
          assert w[k - 1] == rest[k - 2];
        }
      }
    }
  }

  /// One step along the walk from anchor a with a step per halfedge as fuel:
  /// it leads to the next entry, unless it comes back to a or the walk has
  /// used all its fuel.
  lemma WalkedRingStep(hp: HalfedgeProps, step: Step, a: Halfedge, i: nat)
    requires i < |Walked(hp, step, a, a, |hp.next| + 1)|
    ensures var w := Walked(hp, step, a, a, |hp.next| + 1);
            w[0] == a &&
            (i + 1 < |w| <==> Stepped(hp, step, w[i]) != a && i < |hp.next|) &&
            (i + 1 < |w| ==> w[i + 1] == Stepped(hp, step, w[i]))
  {
    WalkedShape(hp, step, a, a, |hp.next| + 1);
    var w := Walked(hp, step, a, a, |hp.next| + 1);
    if i + 1 < |w| {
      assert w[i + 1] == Stepped(hp, step, w[i + 1 - 1]);
    }
  }

  /// The per-face arrays (`fprops_`): one halfedge of the face, deletion flag.
  datatype FaceProps = FaceProps(conn: seq<Halfedge>, deleted: seq<bool>)

  /// How `delete_face` updates an endpoint v when its outgoing halfedge h
  /// goes away with an edge: v moves on to nxt, or, when nxt is h itself
  /// (the edge was the last one at v), v is flagged deleted.
  function Release(vp: VertexProps, v: Vertex, h: Halfedge, nxt: Halfedge): VertexProps
  {
    if Get(vp.conn, v) != h then vp
    else if nxt == h then vp.(deleted := Put(vp.deleted, v, true))
    else vp.(conn := Put(vp.conn, v, nxt))
  }

  /// Both endpoint updates of `delete_face` for edge e, on the halfedge
  /// records before the edge was unlinked.
  function ReleaseEnds(vp: VertexProps, hp: HalfedgeProps, e: Edge): VertexProps
  {
    var h0, h1 := HalfedgeOf(e, 0), HalfedgeOf(e, 1);
    Release(Release(vp, Get(hp.vertex, h0), h1, Get(hp.next, h0)), Get(hp.vertex, h1), h0, Get(hp.next, h1))
  }

  /// The next and previous records after the neighbours of both halfedges of
  /// e are linked past them: prev0 to next1 and prev1 to next0.
  function Bypassed(hp: HalfedgeProps, e: Edge): HalfedgeProps
  {
    var h0, h1 := HalfedgeOf(e, 0), HalfedgeOf(e, 1);
    var next0, prev0, next1, prev1 := Get(hp.next, h0), Get(hp.prev, h0), Get(hp.next, h1), Get(hp.prev, h1);
    hp.(next := Put(Put(hp.next, prev0, next1), prev1, next0),
        prev := Put(Put(hp.prev, next1, prev0), next0, prev1))
  }

  /// Releasing an endpoint keeps positions and array sizes and only sets flags.
  lemma ReleaseGrows(vp: VertexProps, v: Vertex, h: Halfedge, nxt: Halfedge)
    ensures Release(vp, v, h, nxt).point == vp.point && |Release(vp, v, h, nxt).conn| == |vp.conn|
    ensures FlagsGrow(vp.deleted, Release(vp, v, h, nxt).deleted)
  {
  }

  /// The records the second loop of `delete_face` works on: halfedges,
  /// vertices and edge flags.
  datatype Unlinking = Unlinking(hp: HalfedgeProps, vp: VertexProps, edeleted: seq<bool>)

  /// The records after the second loop of `delete_face` has unlinked each
  /// edge of es in turn: every edge of es within the flags ends flagged, and
  /// only links, outgoing halfedges and flags change.
  function Unlinked(s: Unlinking, es: seq<Edge>): (r: Unlinking)
    ensures FlaggedWithin(r.edeleted, es) && FlagsGrow(s.edeleted, r.edeleted)
    ensures FlagsGrow(s.vp.deleted, r.vp.deleted)
    ensures r.hp.face == s.hp.face && r.hp.vertex == s.hp.vertex
    ensures |r.hp.next| == |s.hp.next| && |r.hp.prev| == |s.hp.prev|
    ensures r.vp.point == s.vp.point && |r.vp.conn| == |s.vp.conn|
    decreases |es|
  {
    if es == [] then s
    else
      var t := Unlinked(s, es[..|es| - 1]);
      var e := es[|es| - 1];
      ReleaseGrows(t.vp, Get(t.hp.vertex, HalfedgeOf(e, 0)), HalfedgeOf(e, 1), Get(t.hp.next, HalfedgeOf(e, 0)));
      ReleaseGrows(Release(t.vp, Get(t.hp.vertex, HalfedgeOf(e, 0)), HalfedgeOf(e, 1), Get(t.hp.next, HalfedgeOf(e, 0))),
                   Get(t.hp.vertex, HalfedgeOf(e, 1)), HalfedgeOf(e, 0), Get(t.hp.next, HalfedgeOf(e, 1)));
      PutGrows(t.edeleted, e);
      FlaggedStep(t.edeleted, Put(t.edeleted, e, true), es[..|es| - 1], e);
      assert es == es[..|es| - 1] + [e];
      Unlinking(Bypassed(t.hp, e), ReleaseEnds(t.vp, t.hp, e), Put(t.edeleted, e, true))
  }

  /// A halfedge without a face in the face records.
  predicate Faceless(face: seq<Face>, h: Halfedge)
  {
    !IsValid(Get(face, h))
  }

  /// Stepping back from a halfedge without a face leads to one without a face.
  predicate BackFaceless(face: seq<Face>, prev: seq<Halfedge>)
  {
    forall x: Halfedge :: x < |prev| && Faceless(face, x) ==> Faceless(face, prev[x])
  }

  /// Where stepping back from a faceless halfedge stays faceless, unlinking
  /// edges without a face on either side rewrites links of faceless halfedges
  /// only: every halfedge with a face keeps its next halfedge.
  lemma {:induction false} UnlinkedKeepsFaced(s: Unlinking, es: seq<Edge>, face: seq<Face>)
    requires |face| <= Invalid && BackFaceless(face, s.hp.prev)
    requires forall k :: 0 <= k < |es| ==> Faceless(face, HalfedgeOf(es[k], 0)) && Faceless(face, HalfedgeOf(es[k], 1))
    ensures BackFaceless(face, Unlinked(s, es).hp.prev)
    ensures forall x :: !Faceless(face, x) ==> Get(Unlinked(s, es).hp.next, x) == Get(s.hp.next, x)
    decreases |es|
  {
    if es != [] {
      var init, e := es[..|es| - 1], es[|es| - 1];
      UnlinkedKeepsFaced(s, init, face);
      var t := Unlinked(s, init);
      BypassedKeepsFaced(t.hp, e, face);
      assert Unlinked(s, es).hp == Bypassed(t.hp, e);
    }
  }

  /// Linking past one edge without a face on either side, where stepping
  /// back from a faceless halfedge stays faceless.
  lemma BypassedKeepsFaced(hp: HalfedgeProps, e: Edge, face: seq<Face>)
    requires |face| <= Invalid && BackFaceless(face, hp.prev)
    requires Faceless(face, HalfedgeOf(e, 0)) && Faceless(face, HalfedgeOf(e, 1))
    ensures BackFaceless(face, Bypassed(hp, e).prev)
    ensures forall x :: !Faceless(face, x) ==> Get(Bypassed(hp, e).next, x) == Get(hp.next, x)
  {
    var h0, h1 := HalfedgeOf(e, 0), HalfedgeOf(e, 1);
    assert Faceless(face, Get(hp.prev, h0)) && Faceless(face, Get(hp.prev, h1));
  }

  /// A walk along next links that passes only halfedges whose next links
  /// agree in two sets of records is the same walk in both.
  lemma {:induction false} WalkedAgrees(hp: HalfedgeProps, hp': HalfedgeProps, anchor: Halfedge, h: Halfedge, fuel: nat)
    requires forall x :: x in Walked(hp, NextStep, anchor, h, fuel) ==> Get(hp'.next, x) == Get(hp.next, x)
    ensures Walked(hp', NextStep, anchor, h, fuel) == Walked(hp, NextStep, anchor, h, fuel)
    decreases fuel
  {
    if fuel > 0 {
      var n := Stepped(hp, NextStep, h);
      assert h in Walked(hp, NextStep, anchor, h, fuel);
      if n != anchor {
        assert Walked(hp, NextStep, anchor, h, fuel) == [h] + Walked(hp, NextStep, anchor, n, fuel - 1);
        WalkedAgrees(hp, hp', anchor, n, fuel - 1);
      }
    }
  }

  /// Once the loop L0 has lost its face and the edges it collected are
  /// unlinked from the records hp0, vp0, ed0, giving the halfedge records hp,
  /// a walk along next links from a through halfedges that all carried f1
  /// and lay outside L0 is the walk it was, where stepping back from a
  /// halfedge without a face led to one without a face.
  lemma WalkKept(hp0: HalfedgeProps, vp0: VertexProps, ed0: seq<bool>, L0: seq<Halfedge>, hp: HalfedgeProps, a: Halfedge, f1: Face)
    requires hp == Unlinked(Unlinking(hp0.(face := Relabelled(hp0.face, L0, Invalid)), vp0, ed0), LoneEdges(hp0.face, L0)).hp
    requires IsValid(f1) && |hp0.face| <= Invalid
    requires BackFaceless(Relabelled(hp0.face, L0, Invalid), hp0.prev)
    requires forall x :: x in Walked(hp0, NextStep, a, a, |hp0.next| + 1) ==> Get(hp0.face, x) == f1 && x !in L0
    ensures Walked(hp, NextStep, a, a, |hp.next| + 1) == Walked(hp0, NextStep, a, a, |hp0.next| + 1)
  {
    var face' := Relabelled(hp0.face, L0, Invalid);
    var s0 := Unlinking(hp0.(face := face'), vp0, ed0);
    LoneEdgesFaceless(hp0.face, L0);
    UnlinkedKeepsFaced(s0, LoneEdges(hp0.face, L0), face');
    forall x | x in Walked(hp0, NextStep, a, a, |hp0.next| + 1) ensures Get(hp.next, x) == Get(hp0.next, x) {
      RelabelledOutside(hp0.face, L0, Invalid, x);
      assert !Faceless(face', x);
    }
    WalkedAgrees(hp0, hp, a, a, |hp0.next| + 1);
  }

  /// A halfedge whose face is gone stays faceless when more halfedges lose
  /// theirs, and a halfedge that loses its face is faceless.
  lemma RelabelledFaceless(face: seq<Face>, hs: seq<Halfedge>, x: Halfedge)
    requires |face| <= Invalid
    ensures Faceless(face, x) || x in hs ==> Faceless(Relabelled(face, hs, Invalid), x)
  {
    RelabelledSpec(face, hs, Invalid);
  }

  /// Both halfedges of every collected edge are faceless once the loop has
  /// lost its face.
  lemma {:induction false} LoneEdgesFaceless(face: seq<Face>, hs: seq<Halfedge>)
    requires |face| <= Invalid
    ensures forall k :: 0 <= k < |LoneEdges(face, hs)| ==>
              Faceless(Relabelled(face, hs, Invalid), HalfedgeOf(LoneEdges(face, hs)[k], 0)) &&
              Faceless(Relabelled(face, hs, Invalid), HalfedgeOf(LoneEdges(face, hs)[k], 1))
    decreases |hs|
  {
    if hs != [] {
      var init, h := hs[..|hs| - 1], hs[|hs| - 1];
      LoneEdgesFaceless(face, init);
      var r := Relabelled(face, hs, Invalid);
      assert r == Put(Relabelled(face, init, Invalid), h, Invalid);
      assert Faceless(r, h);
      forall k | 0 <= k < |LoneEdges(face, hs)|
        ensures Faceless(r, HalfedgeOf(LoneEdges(face, hs)[k], 0)) && Faceless(r, HalfedgeOf(LoneEdges(face, hs)[k], 1))
      {
        if k >= |LoneEdges(face, init)| {
          assert LoneEdges(face, hs)[k] == EdgeOf(h);
          assert {HalfedgeOf(EdgeOf(h), 0), HalfedgeOf(EdgeOf(h), 1)} == {h, Opposite(h)};
        } else {
          assert LoneEdges(face, hs)[k] == LoneEdges(face, init)[k];
        }
      }
    }
  }

  /// The edge of a halfedge of hs is collected where its other side has no
  /// face once hs up to that halfedge has lost its face.
  lemma {:induction false} LoneEdgesHas(face: seq<Face>, hs: seq<Halfedge>, k: nat)
    requires k < |hs| && Faceless(Relabelled(face, hs[..k + 1], Invalid), Opposite(hs[k]))
    ensures EdgeOf(hs[k]) in LoneEdges(face, hs)
    decreases |hs|
  {
    var init := hs[..|hs| - 1];
    if k == |hs| - 1 {
      assert hs[..k + 1] == hs;
    } else {
      assert init[..k + 1] == hs[..k + 1] && init[k] == hs[k];
      LoneEdgesHas(face, init, k);
    }
  }

  /// A halfedge of hs whose opposite had no face or lies in hs as well
  /// leaves its edge among the collected ones.
  lemma LoneEdgeOf(face: seq<Face>, hs: seq<Halfedge>, h: Halfedge)
    requires |face| <= Invalid && h in hs && (Faceless(face, Opposite(h)) || Opposite(h) in hs)
    ensures EdgeOf(h) in LoneEdges(face, hs)
  {
    var k :| 0 <= k < |hs| && hs[k] == h;
    OppositeInvolution(h);
    if Faceless(face, Opposite(h)) {
      RelabelledFaceless(face, hs[..k + 1], Opposite(h));
      LoneEdgesHas(face, hs, k);
    } else {
      var j :| 0 <= j < |hs| && hs[j] == Opposite(h);
      if j < k {
        assert hs[j] in hs[..k + 1];
        RelabelledFaceless(face, hs[..k + 1], Opposite(h));
        LoneEdgesHas(face, hs, k);
      } else {
        assert hs[k] in hs[..j + 1];
        RelabelledFaceless(face, hs[..j + 1], h);
        LoneEdgesHas(face, hs, j);
      }
    }
  }

  class SurfaceMesh {
    var vprops: VertexProps   // vertex properties: v:point, v:connectivity, v:deleted
    var hprops: HalfedgeProps // halfedge properties: h:connectivity
    var edeleted: seq<bool>   // edge property e:deleted
    var fprops: FaceProps     // face properties: f:connectivity, f:deleted
    var deletedVertices: nat
    var deletedEdges: nat
    var deletedFaces: nat
    var hasGarbage: bool

    /// The property arrays of one element kind grow and shrink together, two
    /// halfedges per edge, and no size reaches the invalid index.
    ghost predicate Valid()
      reads this`vprops, this`hprops, this`edeleted, this`fprops
    {
      |vprops.point| == |vprops.conn| == |vprops.deleted| &&
      |hprops.face| == |hprops.vertex| == |hprops.next| == |hprops.prev| == 2 * |edeleted| &&
      |fprops.conn| == |fprops.deleted| &&
      |vprops.conn| < MaxIndex && |hprops.next| < MaxIndex && |fprops.conn| < MaxIndex
    }

    /// Every stored handle names an existing element or is invalid.
    ghost predicate InRange()
      reads this`vprops, this`hprops, this`fprops
    {
      RefsIn(vprops.conn, |hprops.next|) && RefsIn(hprops.face, |fprops.conn|) && RefsIn(hprops.vertex, |vprops.conn|) &&
      RefsIn(hprops.next, |hprops.next|) && RefsIn(hprops.prev, |hprops.next|) && RefsIn(fprops.conn, |hprops.next|)
    }

    /// The deleted counters agree with the flags.
    ghost predicate Tallied()
      reads this`vprops, this`edeleted, this`fprops, this`deletedVertices, this`deletedEdges, this`deletedFaces
    {
      deletedVertices == Count(vprops.deleted) && deletedEdges == Count(edeleted) &&
      deletedFaces == Count(fprops.deleted)
    }

    /// The counters agree with the flags, and a deletion raised the garbage flag.
    ghost predicate Counted()
      reads this`vprops, this`edeleted, this`fprops, this`deletedVertices, this`deletedEdges, this`deletedFaces, this`hasGarbage
    {
      Tallied() && (deletedVertices + deletedEdges + deletedFaces > 0 ==> hasGarbage)
    }

    /// `SurfaceMesh()`: no elements, no deletions, no garbage.
    constructor ()
      ensures Valid() && InRange() && Counted()
      ensures vprops == VertexProps([], [], []) && hprops == HalfedgeProps([], [], [], [])
      ensures edeleted == [] && fprops == FaceProps([], [])
      ensures deletedVertices == 0 && deletedEdges == 0 && deletedFaces == 0 && !hasGarbage
    {
      vprops := VertexProps([], [], []);
      hprops := HalfedgeProps([], [], [], []);
      edeleted := [];
      fprops := FaceProps([], []);
      deletedVertices, deletedEdges, deletedFaces := 0, 0, 0;
      hasGarbage := false;
    }

    // ---- sizes and counts

    function VerticesSize(): nat reads this`vprops { |vprops.conn| }
    function HalfedgesSize(): nat reads this`hprops { |hprops.next| }
    function EdgesSize(): nat reads this`edeleted { |edeleted| }
    function FacesSize(): nat reads this`fprops { |fprops.conn| }

    function NVertices(): int reads this`vprops, this`deletedVertices { |vprops.conn| - deletedVertices }
    function NHalfedges(): int reads this`hprops, this`deletedEdges { |hprops.next| - 2 * deletedEdges }
    function NEdges(): int reads this`edeleted, this`deletedEdges { |edeleted| - deletedEdges }
    function NFaces(): int reads this`fprops, this`deletedFaces { |fprops.conn| - deletedFaces }
    predicate IsEmpty() reads this`vprops, this`deletedVertices { NVertices() == 0 }

    /// With consistent counters the element counts are the numbers of
    /// unflagged elements, and there are two halfedges per edge.
    lemma CountsAreSurvivors()
      requires Valid() && Counted()
      ensures NVertices() == |Survivors(vprops.deleted, 0)|
      ensures NEdges() == |Survivors(edeleted, 0)|
      ensures NFaces() == |Survivors(fprops.deleted, 0)|
      ensures NHalfedges() == 2 * NEdges()
    {
      SurvivorsCount(vprops.deleted, 0);
      SurvivorsCount(edeleted, 0);
      SurvivorsCount(fprops.deleted, 0);
      assert vprops.deleted[0..] == vprops.deleted && edeleted[0..] == edeleted && fprops.deleted[0..] == fprops.deleted;
    }

    // ---- validity and deletion of handles

    predicate IsValidVertex(v: Vertex) reads this`vprops { v < |vprops.conn| }
    predicate IsValidHalfedge(h: Halfedge) reads this`hprops { h < |hprops.next| }
    predicate IsValidEdge(e: Edge) reads this`edeleted { e < |edeleted| }
    predicate IsValidFace(f: Face) reads this`fprops { f < |fprops.conn| }

    predicate IsDeletedVertex(v: Vertex) reads this`vprops { v < |vprops.deleted| && vprops.deleted[v] }
    predicate IsDeletedEdge(e: Edge) reads this`edeleted { e < |edeleted| && edeleted[e] }
    predicate IsDeletedHalfedge(h: Halfedge) reads this`edeleted { IsDeletedEdge(EdgeOf(h)) }
    predicate IsDeletedFace(f: Face) reads this`fprops { f < |fprops.deleted| && fprops.deleted[f] }

    // ---- low-level connectivity

    function VertexHalfedge(v: Vertex): Halfedge reads this`vprops { Get(vprops.conn, v) }
    function FaceHalfedge(f: Face): Halfedge reads this`fprops { Get(fprops.conn, f) }
    function ToVertex(h: Halfedge): Vertex reads this`hprops { Get(hprops.vertex, h) }
    function FromVertex(h: Halfedge): Vertex reads this`hprops { ToVertex(Opposite(h)) }
    function FaceOf(h: Halfedge): Face reads this`hprops { Get(hprops.face, h) }
    function Next(h: Halfedge): Halfedge reads this`hprops { Get(hprops.next, h) }
    function Prev(h: Halfedge): Halfedge reads this`hprops { Get(hprops.prev, h) }

    /// Counter-clockwise around the start vertex: the opposite of the previous halfedge.
    function CcwRotated(h: Halfedge): Halfedge reads this`hprops { Opposite(Prev(h)) }

    /// Clockwise around the start vertex: the next halfedge of the opposite one.
    function CwRotated(h: Halfedge): Halfedge reads this`hprops { Next(Opposite(h)) }

    predicate IsBoundaryHalfedge(h: Halfedge) reads this`hprops { !IsValid(FaceOf(h)) }

    predicate IsBoundaryVertex(v: Vertex)
      reads this`vprops, this`hprops
    {
      var h := VertexHalfedge(v);
      !(IsValid(h) && IsValid(FaceOf(h)))
    }

    predicate IsIsolated(v: Vertex) reads this`vprops { !IsValid(VertexHalfedge(v)) }

    predicate IsBoundaryEdge(e: Edge)
      reads this`hprops
    {
      IsBoundaryHalfedge(HalfedgeOf(e, 0)) || IsBoundaryHalfedge(HalfedgeOf(e, 1))
    }

    function EdgeVertex(e: Edge, i: nat): Vertex requires i <= 1 reads this`hprops { ToVertex(HalfedgeOf(e, i)) }
    function EdgeFace(e: Edge, i: nat): Face requires i <= 1 reads this`hprops { FaceOf(HalfedgeOf(e, i)) }

    /// Rotating back undoes rotating forth where next and previous are inverse.
    lemma RotationsInverse(h: Halfedge)
      ensures Next(Prev(h)) == h ==> CwRotated(CcwRotated(h)) == h
      ensures Prev(Next(Opposite(h))) == Opposite(h) ==> CcwRotated(CwRotated(h)) == h
    {
      OppositeInvolution(h);
      OppositeInvolution(Prev(h));
    }

    // ---- rotations and face loops

    function Advance(step: Step, h: Halfedge): Halfedge
      reads this`hprops
    {
      match step
      case Cw => CwRotated(h)
      case Ccw => CcwRotated(h)
      case NextStep => Next(h)
    }

    /// The halfedges met stepping from h until the anchor comes back, at most
    /// fuel of them.
    function Walk(step: Step, anchor: Halfedge, h: Halfedge, fuel: nat): (w: seq<Halfedge>)
      reads this`hprops
      ensures |w| <= fuel
      ensures fuel > 0 ==> |w| > 0 && w[0] == h
      decreases fuel
    {
      if fuel == 0 then []
      else
        var n := Advance(step, h);
        [h] + (if n == anchor then [] else Walk(step, anchor, n, fuel - 1))
    }

    /// The walk is the one on the current halfedge records.
    lemma {:induction false} WalkIsWalked(step: Step, anchor: Halfedge, h: Halfedge, fuel: nat)
      ensures Walk(step, anchor, h, fuel) == Walked(hprops, step, anchor, h, fuel)
      decreases fuel
    {
      if fuel > 0 {
        WalkIsWalked(step, anchor, Advance(step, h), fuel - 1);
      }
    }

    /// Each halfedge of the list is one step from the one before it.
    predicate Chained(step: Step, w: seq<Halfedge>)
      reads this`hprops
    {
      forall k :: 0 < k < |w| ==> w[k] == Advance(step, w[k - 1])
    }

    /// A walk steps from each halfedge to the following one.
    lemma {:induction false} WalkSteps(step: Step, anchor: Halfedge, h: Halfedge, fuel: nat)
      ensures Chained(step, Walk(step, anchor, h, fuel))
      decreases fuel
    {
      if fuel > 0 && Advance(step, h) != anchor {
        var rest := Walk(step, anchor, Advance(step, h), fuel - 1);
        WalkSteps(step, anchor, Advance(step, h), fuel - 1);
        var w := Walk(step, anchor, h, fuel);
        assert w == [h] + rest;
        forall k | 0 < k < |w| ensures w[k] == Advance(step, w[k - 1]) {
          if k > 1 {
            assert w[k] == rest[k - 1] && w[k - 1] == rest[k - 2];
          }
        }
      }
    }

    /// The anchor occurs in the list at most at its head.
    predicate AnchorOnlyFirst(anchor: Halfedge, w: seq<Halfedge>)
    {
      forall k :: 0 < k < |w| ==> w[k] != anchor
    }

    /// A walk meets the anchor only where it started, and when it stopped
    /// before running out of fuel its last step leads back to the anchor.
    lemma {:induction false} WalkEnds(step: Step, anchor: Halfedge, h: Halfedge, fuel: nat)
      ensures AnchorOnlyFirst(anchor, Walk(step, anchor, h, fuel))
      ensures 0 < |Walk(step, anchor, h, fuel)| < fuel ==>
                Advance(step, Walk(step, anchor, h, fuel)[|Walk(step, anchor, h, fuel)| - 1]) == anchor
      decreases fuel
    {
      if fuel > 0 && Advance(step, h) != anchor {
        var rest := Walk(step, anchor, Advance(step, h), fuel - 1);
        WalkEnds(step, anchor, Advance(step, h), fuel - 1);
        var w := Walk(step, anchor, h, fuel);
        assert w == [h] + rest;
        assert forall k :: 0 < k < |w| ==> w[k] == rest[k - 1];
      }
    }

    /// The loop of halfedges from a, given enough fuel that a loop of
    /// distinct halfedges always closes.
    function Ring(step: Step, a: Halfedge): seq<Halfedge>
      reads this`hprops
    {
      Walk(step, a, a, |hprops.next| + 1)
    }

    /// Stepping from a comes back to a: the mesh is consistent along this loop.
    predicate Closes(step: Step, a: Halfedge)
      reads this`hprops
    {
      |Ring(step, a)| <= |hprops.next|
    }

    /// The rotation around v closes, or v is isolated.
    predicate RingCloses(step: Step, v: Vertex)
      reads this`vprops, this`hprops
    {
      IsValid(VertexHalfedge(v)) ==> Closes(step, VertexHalfedge(v))
    }

    /// One step along a closed ring: it leads to the next entry, or back to the
    /// anchor exactly after the last entry.
    lemma RingStep(step: Step, a: Halfedge, i: nat)
      requires Closes(step, a) && i < |Ring(step, a)|
      ensures Advance(step, Ring(step, a)[i]) == a <==> i + 1 == |Ring(step, a)|
      ensures i + 1 < |Ring(step, a)| ==> Ring(step, a)[i + 1] == Advance(step, Ring(step, a)[i])
      ensures Ring(step, a)[0] == a
    {
      WalkSteps(step, a, a, |hprops.next| + 1);
      WalkEnds(step, a, a, |hprops.next| + 1);
      var w := Ring(step, a);
      assert AnchorOnlyFirst(a, w);
      if i + 1 < |w| {
        assert w[i + 1] == Advance(step, w[i - 1 + 1]);
        assert w[i + 1] != a;
      }
    }

    /// One step along the walk from a: it leads to the next entry unless it
    /// comes back to a or the walk has as many entries as there are halfedges.
    lemma RingNext(step: Step, a: Halfedge, i: nat)
      requires i < |Ring(step, a)|
      ensures Ring(step, a)[0] == a
      ensures i + 1 < |Ring(step, a)| <==> Advance(step, Ring(step, a)[i]) != a && i < |hprops.next|
      ensures i + 1 < |Ring(step, a)| ==> Ring(step, a)[i + 1] == Advance(step, Ring(step, a)[i])
    {
      WalkSteps(step, a, a, |hprops.next| + 1);
      WalkEnds(step, a, a, |hprops.next| + 1);
      var w := Ring(step, a);
      assert AnchorOnlyFirst(a, w);
      if i + 1 < |w| {
        assert w[i + 1] == Advance(step, w[i + 1 - 1]);
        assert w[i + 1] != a;
      }
    }

    /// `halfedges(v)`: the outgoing halfedges of v in counter-clockwise order,
    /// starting at its stored halfedge; nothing for an isolated vertex.
    function OutgoingHalfedges(v: Vertex): seq<Halfedge>
      reads this`vprops, this`hprops
    {
      var a := VertexHalfedge(v);
      if IsValid(a) then Ring(Ccw, a) else []
    }

    /// The same rotation taken clockwise, as `find_halfedge` and
    /// `adjust_outgoing_halfedge` do.
    function ClockwiseHalfedges(v: Vertex): seq<Halfedge>
      reads this`vprops, this`hprops
    {
      var a := VertexHalfedge(v);
      if IsValid(a) then Ring(Cw, a) else []
    }

    /// `halfedges(f)`: the loop of next halfedges from the face's halfedge.
    function FaceLoop(f: Face): seq<Halfedge>
      reads this`fprops, this`hprops
    {
      Ring(NextStep, FaceHalfedge(f))
    }

    /// `vertices(v)`: the one-ring, the targets of the outgoing halfedges.
    function Neighbours(v: Vertex): seq<Vertex>
      reads this`vprops, this`hprops
    {
      Targets(OutgoingHalfedges(v))
    }

    function Targets(hs: seq<Halfedge>): (vs: seq<Vertex>)
      reads this`hprops
      ensures |vs| == |hs| && forall k :: 0 <= k < |hs| ==> vs[k] == ToVertex(hs[k])
    {
      TargetsIn(hprops.vertex, hs)
    }

    /// `faces(v)`: the faces of the non-boundary outgoing halfedges.
    function FacesAround(v: Vertex): seq<Face>
      reads this`vprops, this`hprops
    {
      FacesOf(OutgoingHalfedges(v))
    }

    function FacesOf(hs: seq<Halfedge>): seq<Face>
      reads this`hprops
    {
      if hs == [] then []
      else (if IsBoundaryHalfedge(hs[0]) then [] else [FaceOf(hs[0])]) + FacesOf(hs[1..])
    }

    /// Number of boundary halfedges in a list.
    function BoundaryCount(hs: seq<Halfedge>): nat
      reads this`hprops
    {
      if hs == [] then 0
      else (if IsBoundaryHalfedge(hs[0]) then 1 else 0) + BoundaryCount(hs[1..])
    }

    /// The first halfedge of a list that points to `end`, or invalid.
    function FirstTo(hs: seq<Halfedge>, end: Vertex): Halfedge
      reads this`hprops
    {
      if hs == [] then Invalid
      else if ToVertex(hs[0]) == end then hs[0]
      else FirstTo(hs[1..], end)
    }

    /// FirstTo finds the first halfedge of the list pointing to `end`, and is
    /// invalid exactly when there is none.
    lemma {:induction false} FirstToSpec(hs: seq<Halfedge>, end: Vertex)
      requires Valid() && end != Invalid
      ensures var r := FirstTo(hs, end);
              (!IsValid(r) <==> forall k :: 0 <= k < |hs| ==> ToVertex(hs[k]) != end) &&
              (IsValid(r) ==> exists k :: 0 <= k < |hs| && hs[k] == r && ToVertex(r) == end &&
                                          forall j :: 0 <= j < k ==> ToVertex(hs[j]) != end)
    {
      if hs != [] && ToVertex(hs[0]) != end {
        FirstToSpec(hs[1..], end);
        var r := FirstTo(hs, end);
        if IsValid(r) {
          var k :| 0 <= k < |hs[1..]| && hs[1..][k] == r && ToVertex(r) == end &&
                   forall j :: 0 <= j < k ==> ToVertex(hs[1..][j]) != end;
          assert hs[k + 1] == r;
          assert forall j :: 0 <= j < k + 1 ==> ToVertex(hs[j]) != end by {
            forall j | 0 <= j < k + 1 ensures ToVertex(hs[j]) != end {
              if j > 0 { assert hs[j] == hs[1..][j - 1]; }
            }
          }
        } else {
          assert forall k :: 0 < k < |hs| ==> hs[k] == hs[1..][k - 1];
        }
      } else if hs != [] {
        assert ToVertex(hs[0]) == end;
      }
    }

    // ---- searching the rotation of a vertex

    /// `find_halfedge(start, end)`: the clockwise rotation around start, from
    /// its stored halfedge, is searched for a halfedge pointing to end.
    method FindHalfedge(start: Vertex, end: Vertex) returns (r: Halfedge)
      requires Valid() && IsValidVertex(start) && IsValidVertex(end)
      requires RingCloses(Cw, start)
      ensures r == FirstTo(ClockwiseHalfedges(start), end)
    {
      var h := VertexHalfedge(start);
      var hh := h;
      if IsValid(h) {
        ghost var w := Ring(Cw, hh);
        ghost var i := 0;
        RingStep(Cw, hh, 0);
        while true
          invariant i < |w| && h == w[i]
          invariant FirstTo(w, end) == FirstTo(w[i..], end)
          decreases |w| - i
        {
          if ToVertex(h) == end {
            return h;
          }
          RingStep(Cw, hh, i);
          assert w[i..][1..] == w[i + 1..];
          h := CwRotated(h);
          if h == hh {
            assert w[i + 1..] == [];
            return Invalid;
          }
          i := i + 1;
        }
      }
      return Invalid;
    }

    /// The halfedge find_halfedge returns starts at start and points to end, and
    /// it is invalid exactly when no halfedge of the rotation points to end.
    lemma FindHalfedgeMeaning(start: Vertex, end: Vertex)
      requires Valid() && IsValidVertex(start) && IsValidVertex(end)
      ensures var r := FirstTo(ClockwiseHalfedges(start), end);
              (!IsValid(r) <==> forall k :: 0 <= k < |ClockwiseHalfedges(start)| ==>
                                   ToVertex(ClockwiseHalfedges(start)[k]) != end) &&
              (IsValid(r) ==> r in ClockwiseHalfedges(start) && ToVertex(r) == end)
    {
      FirstToSpec(ClockwiseHalfedges(start), end);
    }

    /// `find_edge(a, b)`: the edge of find_halfedge, or invalid.
    method FindEdge(a: Vertex, b: Vertex) returns (e: Edge)
      requires Valid() && IsValidVertex(a) && IsValidVertex(b)
      requires RingCloses(Cw, a)
      ensures var h := FirstTo(ClockwiseHalfedges(a), b);
              e == if IsValid(h) then EdgeOf(h) else Invalid
    {
      var h := FindHalfedge(a, b);
      e := if IsValid(h) then EdgeOf(h) else Invalid;
    }

    /// The first boundary halfedge of a list, if any.
    function FirstBoundary(hs: seq<Halfedge>): Option<Halfedge>
      reads this`hprops
    {
      if hs == [] then None
      else if IsBoundaryHalfedge(hs[0]) then Some(hs[0])
      else FirstBoundary(hs[1..])
    }

    /// FirstBoundary finds a boundary halfedge of the list, the first one, and
    /// finds one exactly when the list has a boundary halfedge.
    lemma {:induction false} FirstBoundarySpec(hs: seq<Halfedge>)
      ensures FirstBoundary(hs).Some? <==> BoundaryCount(hs) > 0
      ensures FirstBoundary(hs).Some? ==>
                exists k :: 0 <= k < |hs| && hs[k] == FirstBoundary(hs).value &&
                            IsBoundaryHalfedge(hs[k]) &&
                            forall j :: 0 <= j < k ==> !IsBoundaryHalfedge(hs[j])
    {
      if hs != [] && !IsBoundaryHalfedge(hs[0]) {
        FirstBoundarySpec(hs[1..]);
        if FirstBoundary(hs).Some? {
          var k :| 0 <= k < |hs[1..]| && hs[1..][k] == FirstBoundary(hs).value &&
                   IsBoundaryHalfedge(hs[1..][k]) &&
                   forall j :: 0 <= j < k ==> !IsBoundaryHalfedge(hs[1..][j]);
          assert hs[k + 1] == hs[1..][k];
          forall j | 0 <= j < k + 1 ensures !IsBoundaryHalfedge(hs[j]) {
            if j > 0 { assert hs[j] == hs[1..][j - 1]; }
          }
        }
      } else if hs != [] {
        assert hs[0] == FirstBoundary(hs).value;
      }
    }

    /// The search loop of `adjust_outgoing_halfedge(v)`: clockwise from the
    /// stored halfedge of v to the first boundary halfedge.
    method FindBoundaryHalfedge(v: Vertex) returns (b: Option<Halfedge>)
      requires RingCloses(Cw, v)
      ensures b == FirstBoundary(ClockwiseHalfedges(v))
    {
      var h := VertexHalfedge(v);
      var hh := h;
      if IsValid(h) {
        ghost var w := Ring(Cw, hh);
        ghost var i := 0;
        RingStep(Cw, hh, 0);
        while true
          invariant i < |w| && h == w[i]
          invariant FirstBoundary(w) == FirstBoundary(w[i..])
          decreases |w| - i
        {
          if IsBoundaryHalfedge(h) {
            return Some(h);
          }
          RingStep(Cw, hh, i);
          assert w[i..][1..] == w[i + 1..];
          h := CwRotated(h);
          if h == hh {
            assert w[i + 1..] == [];
            return None;
          }
          i := i + 1;
        }
      }
      return None;
    }

    /// `adjust_outgoing_halfedge(v)`: a boundary vertex gets the first boundary
    /// halfedge of its clockwise rotation as outgoing halfedge; nothing else changes.
    method AdjustOutgoingHalfedge(v: Vertex)
      requires RingCloses(Cw, v)
      modifies this`vprops
      ensures var found := old(FirstBoundary(ClockwiseHalfedges(v)));
              vprops == if found.Some? then old(vprops).(conn := Put(old(vprops.conn), v, found.value)) else old(vprops)
    {
      var b := FindBoundaryHalfedge(v);
      if b.Some? {
        SetVertexHalfedge(v, b.value);
      }
    }

    /// After the adjustment a vertex whose clockwise rotation has a boundary
    /// halfedge stores the first one found.
    lemma AdjustedIsBoundary(v: Vertex)
      ensures var b := FirstBoundary(ClockwiseHalfedges(v));
              BoundaryCount(ClockwiseHalfedges(v)) > 0 ==> b.Some? && b.value in ClockwiseHalfedges(v) && IsBoundaryHalfedge(b.value)
    {
      FirstBoundarySpec(ClockwiseHalfedges(v));
    }

    /// The outgoing halfedge a vertex with outgoing halfedge a ends with after
    /// `adjust_outgoing_halfedge`: the first boundary halfedge of the closed
    /// clockwise rotation from a, if there is one, and a otherwise.
    function AdjustedFrom(a: Halfedge): Halfedge
      reads this`hprops
    {
      if IsValid(a) && Closes(Cw, a) && FirstBoundary(Ring(Cw, a)).Some? then FirstBoundary(Ring(Cw, a)).value else a
    }

    /// Adjusting twice is adjusting once: the halfedge found is a boundary
    /// halfedge, which its own rotation finds first.
    lemma AdjustedFromStable(a: Halfedge)
      ensures AdjustedFrom(AdjustedFrom(a)) == AdjustedFrom(a)
    {
      var b := AdjustedFrom(a);
      if b != a {
        FirstBoundarySpec(Ring(Cw, a));
        assert IsBoundaryHalfedge(b);
        if IsValid(b) && Closes(Cw, b) {
          RingStep(Cw, b, 0);
        }
      }
    }

    // ---- loops over rings and faces

    /// `valence(v)`: the number of one-ring neighbours counted by a circulator
    /// range, `std::distance(begin, end)`.
    method VertexValence(v: Vertex) returns (n: nat)
      requires RingCloses(Ccw, v)
      ensures n == |OutgoingHalfedges(v)|
    {
      var it := new VertexCirculator(this, v);
      var stop := new VertexCirculator(this, v);
      it.Begin();
      stop.End();
      var a := VertexHalfedge(v);
      ghost var w := OutgoingHalfedges(v);
      if IsValid(a) {
        RingStep(Ccw, a, 0);
      }
      n := 0;
      while !it.Equals(stop)
        invariant unchanged(this)
        invariant it.mesh == this && stop.mesh == this && stop.active && stop.halfedge == a
        invariant !IsValid(a) ==> n == 0 && it.active && it.halfedge == a
        invariant IsValid(a) ==> n <= |w| && it.active == (n > 0)
        invariant IsValid(a) && n < |w| ==> it.halfedge == w[n]
        invariant IsValid(a) && n == |w| ==> it.halfedge == a
        invariant IsValid(a) && 0 < n < |w| ==> it.halfedge != a
        decreases |w| - n
      {
        RingStep(Ccw, a, n);
        it.Increment();
        n := n + 1;
      }
    }

    /// `valence(f)`: the number of vertices of the face, counted by a circulator range.
    method FaceValence(f: Face) returns (n: nat)
      requires Closes(NextStep, FaceHalfedge(f))
      ensures n == |FaceLoop(f)|
    {
      var it := new FaceCirculator(this, f);
      var stop := new FaceCirculator(this, f);
      it.Begin();
      stop.End();
      var a := FaceHalfedge(f);
      ghost var w := FaceLoop(f);
      RingStep(NextStep, a, 0);
      n := 0;
      while !it.Equals(stop)
        invariant unchanged(this)
        invariant it.mesh == this && stop.mesh == this && stop.active && stop.halfedge == a
        invariant n <= |w| && it.active == (n > 0)
        invariant n < |w| ==> it.halfedge == w[n]
        invariant n == |w| ==> it.halfedge == a
        invariant 0 < n < |w| ==> it.halfedge != a
        decreases |w| - n
      {
        RingStep(NextStep, a, n);
        it.Increment();
        n := n + 1;
      }
    }

    /// `is_manifold(v)`: a do-while over the outgoing halfedges counting the
    /// boundary ones; the vertex is manifold iff there are fewer than two gaps.
    method IsManifold(v: Vertex) returns (r: bool)
      requires RingCloses(Ccw, v)
      ensures r <==> BoundaryCount(OutgoingHalfedges(v)) < 2
    {
      var n := 0;
      var hit := new VertexCirculator(this, v);
      var a := hit.halfedge;
      ghost var w := OutgoingHalfedges(v);
      if hit.NotIsolated() {
        RingStep(Ccw, a, 0);
        ghost var i := 0;
        while true
          invariant unchanged(this)
          invariant hit.mesh == this && i < |w| && hit.halfedge == w[i]
          invariant n + BoundaryCount(w[i..]) == BoundaryCount(w)
          decreases |w| - i
        {
          if IsBoundaryHalfedge(hit.halfedge) {
            n := n + 1;
          }
          RingStep(Ccw, a, i);
          assert w[i..][1..] == w[i + 1..];
          hit.Increment();
          if hit.halfedge == a {
            assert w[i + 1..] == [];
            break;
          }
          i := i + 1;
        }
      }
      r := n < 2;
    }

    /// `is_boundary(f)`: a do-while over the face loop looking for an edge
    /// whose other side is a boundary halfedge.
    method IsBoundaryFace(f: Face) returns (r: bool)
      requires Closes(NextStep, FaceHalfedge(f))
      ensures r <==> exists k :: 0 <= k < |FaceLoop(f)| && IsBoundaryHalfedge(Opposite(FaceLoop(f)[k]))
    {
      var h := FaceHalfedge(f);
      var hh := h;
      ghost var w := FaceLoop(f);
      ghost var i := 0;
      RingStep(NextStep, hh, 0);
      while true
        invariant i < |w| && h == w[i]
        invariant forall k :: 0 <= k < i ==> !IsBoundaryHalfedge(Opposite(w[k]))
        decreases |w| - i
      {
        if IsBoundaryHalfedge(Opposite(h)) {
          assert 0 <= i < |FaceLoop(f)| && IsBoundaryHalfedge(Opposite(FaceLoop(f)[i]));
          return true;
        }
        RingStep(NextStep, hh, i);
        h := Next(h);
        if h == hh {
          return false;
        }
        i := i + 1;
      }
    }

    /// Every face the face iterator visits closes its loop.
    ghost predicate FacesClose()
      reads this`fprops, this`hprops, this`hasGarbage
    {
      forall f :: Visits(fprops.deleted, hasGarbage, f) ==> Closes(NextStep, FaceHalfedge(f))
    }

    /// The loop of `is_triangle_mesh` and `is_quad_mesh`: every face visited by
    /// the face iterator has valence k.
    method AllFacesHaveValence(k: nat) returns (r: bool)
      requires Valid() && FacesClose()
      ensures r <==> forall f :: Visits(fprops.deleted, hasGarbage, f) ==> |FaceLoop(f)| == k
    {
      var it := new HandleIterator(0, fprops.deleted, hasGarbage);
      var f := it.handle;
      RemainingMembers(fprops.deleted, hasGarbage, 0);
      RemainingMembers(fprops.deleted, hasGarbage, f);
      while f != |fprops.deleted|
        invariant unchanged(this)
        invariant it.deleted == fprops.deleted && it.garbage == hasGarbage && it.handle == f && it.Parked()
        invariant forall g :: g < f && Visits(fprops.deleted, hasGarbage, g) ==> |FaceLoop(g)| == k
        decreases |fprops.deleted| - f
      {
        var n := FaceValence(f);
        if n != k {
          return false;
        }
        it.Increment();
        VisitsBetween(fprops.deleted, hasGarbage, f, it.handle);
        f := it.handle;
      }
      return true;
    }

    /// `is_triangle_mesh()`: every face is a triangle.
    method IsTriangleMesh() returns (r: bool)
      requires Valid() && FacesClose()
      ensures r <==> forall f :: Visits(fprops.deleted, hasGarbage, f) ==> |FaceLoop(f)| == 3
    {
      r := AllFacesHaveValence(3);
    }

    /// `is_quad_mesh()`: every face is a quad.
    method IsQuadMesh() returns (r: bool)
      requires Valid() && FacesClose()
      ensures r <==> forall f :: Visits(fprops.deleted, hasGarbage, f) ==> |FaceLoop(f)| == 4
    {
      r := AllFacesHaveValence(4);
    }

    // ---- allocation

    /// `new_vertex()`: fails at the largest index, otherwise appends one vertex
    /// with default properties (origin, no halfedge, not deleted).
    method NewVertex() returns (r: Outcome<Vertex>)
      requires Valid()
      modifies this`vprops
      ensures Valid()
      ensures old(|vprops.conn|) == MaxIndex - 1 ==> r == Fail(AllocationError) && vprops == old(vprops)
      ensures old(|vprops.conn|) != MaxIndex - 1 ==>
                r == Ok(old(|vprops.conn|)) &&
                vprops == VertexProps(old(vprops.point) + [Origin], old(vprops.conn) + [Invalid], old(vprops.deleted) + [false])
    {
      if |vprops.conn| == MaxIndex - 1 {
        return Fail(AllocationError);
      }
      r := Ok(|vprops.conn|);
      vprops := VertexProps(vprops.point + [Origin], vprops.conn + [Invalid], vprops.deleted + [false]);
    }

    /// `add_vertex(p)`: a new vertex at position p.
    method AddVertex(p: Point) returns (r: Outcome<Vertex>)
      requires Valid()
      modifies this`vprops
      ensures Valid()
      ensures old(|vprops.conn|) == MaxIndex - 1 ==> r == Fail(AllocationError) && vprops == old(vprops)
      ensures old(|vprops.conn|) != MaxIndex - 1 ==>
                r == Ok(old(|vprops.conn|)) &&
                vprops == VertexProps(old(vprops.point) + [p], old(vprops.conn) + [Invalid], old(vprops.deleted) + [false])
    {
      r := NewVertex();
      if r.Ok? {
        vprops := vprops.(point := vprops.point[r.value := p]);
      }
    }

    /// `new_edge()`: fails at the largest halfedge index, otherwise appends one
    /// edge and its two halfedges, unconnected, and returns the first halfedge.
    method NewEdge() returns (r: Outcome<Halfedge>)
      requires Valid()
      modifies this`hprops, this`edeleted
      ensures Valid()
      ensures old(|hprops.next|) == MaxIndex - 1 ==>
                r == Fail(AllocationError) && hprops == old(hprops) && edeleted == old(edeleted)
      ensures old(|hprops.next|) != MaxIndex - 1 ==>
                r == Ok(old(|hprops.next|)) && edeleted == old(edeleted) + [false] &&
                hprops == HalfedgeProps(old(hprops.face) + NoHalfedges, old(hprops.vertex) + NoHalfedges,
                                        old(hprops.next) + NoHalfedges, old(hprops.prev) + NoHalfedges)
    {
      if |hprops.next| == MaxIndex - 1 {
        return Fail(AllocationError);
      }
      r := Ok(|hprops.next|);
      hprops := HalfedgeProps(hprops.face + NoHalfedges, hprops.vertex + NoHalfedges,
                              hprops.next + NoHalfedges, hprops.prev + NoHalfedges);
      edeleted := edeleted + [false];
    }

    /// `new_edge(start, end)`: as `new_edge()`, with the first halfedge
    /// pointing to end and its opposite to start.
    method NewEdgeBetween(start: Vertex, end: Vertex) returns (r: Outcome<Halfedge>)
      requires Valid() && start != end
      modifies this`hprops, this`edeleted
      ensures Valid()
      ensures old(|hprops.next|) == MaxIndex - 1 ==>
                r == Fail(AllocationError) && hprops == old(hprops) && edeleted == old(edeleted)
      ensures old(|hprops.next|) != MaxIndex - 1 ==>
                r == Ok(old(|hprops.next|)) && edeleted == old(edeleted) + [false] &&
                hprops == HalfedgeProps(old(hprops.face) + NoHalfedges, old(hprops.vertex) + [end, start],
                                        old(hprops.next) + NoHalfedges, old(hprops.prev) + NoHalfedges)
      ensures r.Ok? ==> ToVertex(r.value) == end && FromVertex(r.value) == start && EdgeOf(r.value) == old(|edeleted|)
    {
      r := NewEdge();
      if r.Ok? {
        hprops := hprops.(vertex := hprops.vertex[r.value := end][r.value + 1 := start]);
      }
    }

    /// `new_face()`: fails at the largest index, otherwise appends one face
    /// without a halfedge.
    method NewFace() returns (r: Outcome<Face>)
      requires Valid()
      modifies this`fprops
      ensures Valid()
      ensures old(|fprops.conn|) == MaxIndex - 1 ==> r == Fail(AllocationError) && fprops == old(fprops)
      ensures old(|fprops.conn|) != MaxIndex - 1 ==>
                r == Ok(old(|fprops.conn|)) && fprops == FaceProps(old(fprops.conn) + [Invalid], old(fprops.deleted) + [false])
    {
      if |fprops.conn| == MaxIndex - 1 {
        return Fail(AllocationError);
      }
      r := Ok(|fprops.conn|);
      fprops := FaceProps(fprops.conn + [Invalid], fprops.deleted + [false]);
    }

    // ---- setters

    /// `set_halfedge(v, h)`.
    method SetVertexHalfedge(v: Vertex, h: Halfedge)
      modifies this`vprops
      ensures vprops == old(vprops).(conn := Put(old(vprops.conn), v, h))
    {
      vprops := vprops.(conn := Put(vprops.conn, v, h));
    }

    /// `set_halfedge(f, h)`.
    method SetFaceHalfedge(f: Face, h: Halfedge)
      modifies this`fprops
      ensures fprops == old(fprops).(conn := Put(old(fprops.conn), f, h))
    {
      fprops := fprops.(conn := Put(fprops.conn, f, h));
    }

    /// `set_vertex(h, v)`.
    method SetVertex(h: Halfedge, v: Vertex)
      modifies this`hprops
      ensures hprops == old(hprops).(vertex := Put(old(hprops.vertex), h, v))
    {
      hprops := hprops.(vertex := Put(hprops.vertex, h, v));
    }

    /// `set_face(h, f)`.
    method SetFace(h: Halfedge, f: Face)
      modifies this`hprops
      ensures hprops == old(hprops).(face := Put(old(hprops.face), h, f))
    {
      hprops := hprops.(face := Put(hprops.face, h, f));
    }

    /// `set_next_halfedge(h, nh)`: writes the next record of h and the previous
    /// record of nh, and no other.
    method SetNextHalfedge(h: Halfedge, nh: Halfedge)
      modifies this`hprops
      ensures hprops == old(hprops).(next := Put(old(hprops.next), h, nh), prev := Put(old(hprops.prev), nh, h))
    {
      hprops := hprops.(next := Put(hprops.next, h, nh), prev := Put(hprops.prev, nh, h));
    }

    /// `set_prev_halfedge(h, ph)`: the same link written from the other end.
    method SetPrevHalfedge(h: Halfedge, ph: Halfedge)
      modifies this`hprops
      ensures hprops == old(hprops).(prev := Put(old(hprops.prev), h, ph), next := Put(old(hprops.next), ph, h))
    {
      hprops := hprops.(prev := Put(hprops.prev, h, ph), next := Put(hprops.next, ph, h));
    }

    /// `clear()`: no elements, no deletions, no garbage, as after construction.
    method Clear()
      modifies this
      ensures Valid() && InRange() && Counted()
      ensures vprops == VertexProps([], [], []) && hprops == HalfedgeProps([], [], [], [])
      ensures edeleted == [] && fprops == FaceProps([], [])
      ensures deletedVertices == 0 && deletedEdges == 0 && deletedFaces == 0 && !hasGarbage
    {
      vprops := VertexProps([], [], []);
      hprops := HalfedgeProps([], [], [], []);
      edeleted := [];
      fprops := FaceProps([], []);
      deletedVertices, deletedEdges, deletedFaces := 0, 0, 0;
      hasGarbage := false;
    }

    // ---- soft deletion

    /// The halfedges met walking from a: the loop a circulator range visits,
    /// bounded by the number of halfedges.
    method Collect(step: Step, a: Halfedge) returns (hs: seq<Halfedge>)
      ensures hs == Ring(step, a)
    {
      ghost var w := Ring(step, a);
      var h := a;
      var i: nat := 0;
      hs := [];
      RingNext(step, a, 0);
      while true
        invariant i < |w| && h == w[i] && hs == w[..i]
        decreases |w| - i
      {
        RingNext(step, a, i);
        assert w[..i + 1] == hs + [h];
        hs := hs + [h];
        var n := Advance(step, h);
        if n == a || i == |hprops.next| {
          assert w[..i + 1] == w;
          return;
        }
        h, i := n, i + 1;
      }
    }

    /// `for (auto f : faces(v))`: the faces of the non-boundary outgoing halfedges of v.
    method IncidentFaces(v: Vertex) returns (fs: seq<Face>)
      ensures fs == FacesAround(v)
    {
      var hs: seq<Halfedge> := [];
      if IsValid(VertexHalfedge(v)) {
        hs := Collect(Ccw, VertexHalfedge(v));
      }
      fs := [];
      var i := |hs|;
      while i > 0
        invariant 0 <= i <= |hs| && fs == FacesOf(hs[i..])
      {
        i := i - 1;
        assert hs[i..][1..] == hs[i + 1..];
        if !IsBoundaryHalfedge(hs[i]) {
          fs := [FaceOf(hs[i])] + fs;
        }
      }
      assert hs[0..] == hs;
    }

    /// The faces listed after a boundary check are real faces.
    lemma FacesOfInRange(hs: seq<Halfedge>)
      requires InRange()
      ensures forall k :: 0 <= k < |FacesOf(hs)| ==> FacesOf(hs)[k] < |fprops.conn|
    {
      if hs != [] {
        FacesOfInRange(hs[1..]);
      }
    }

    /// Stepping from a halfedge outside the arrays stays outside them.
    lemma AdvanceOutside(step: Step, h: Halfedge)
      requires Valid() && h >= |hprops.next|
      ensures Advance(step, h) >= |hprops.next|
    {
      HalfedgeRange(h, |edeleted|);
      HalfedgeRange(Invalid, |edeleted|);
    }

    /// A closed loop from a halfedge of the arrays stays in the arrays.
    lemma RingInRange(step: Step, a: Halfedge)
      requires Valid() && a < |hprops.next| && Closes(step, a)
      ensures forall k :: 0 <= k < |Ring(step, a)| ==> Ring(step, a)[k] < |hprops.next|
    {
      var w := Ring(step, a);
      WalkSteps(step, a, a, |hprops.next| + 1);
      WalkEnds(step, a, a, |hprops.next| + 1);
      forall k | 0 <= k < |w| ensures w[k] < |hprops.next| {
        if w[k] >= |hprops.next| {
          var j := k;
          while j < |w| - 1
            invariant k <= j < |w| && w[j] >= |hprops.next|
            decreases |w| - j
          {
            AdvanceOutside(step, w[j]);
            j := j + 1;
          }
          AdvanceOutside(step, w[j]);
          assert false;
        }
      }
    }

    /// A loop that comes back to its start meets no halfedge twice.
    lemma RingDistinct(step: Step, a: Halfedge)
      requires Closes(step, a)
      ensures forall i, j :: 0 <= i < j < |Ring(step, a)| ==> Ring(step, a)[i] != Ring(step, a)[j]
    {
      var w := Ring(step, a);
      WalkSteps(step, a, a, |hprops.next| + 1);
      WalkEnds(step, a, a, |hprops.next| + 1);
      ChainDistinct(step, w);
    }

    /// A chain that meets its head only at the start and whose last step leads
    /// back to the head has no repeated entry.
    lemma ChainDistinct(step: Step, w: seq<Halfedge>)
      requires |w| > 0 && Chained(step, w) && AnchorOnlyFirst(w[0], w) && Advance(step, w[|w| - 1]) == w[0]
      ensures forall i, j :: 0 <= i < j < |w| ==> w[i] != w[j]
    {
      forall i, j | 0 <= i < j < |w| ensures w[i] != w[j] {
        if w[i] == w[j] {
          ChainRepeats(step, w, i, j);
          assert false;
        }
      }
    }

    /// In a chain whose last step leads back to its head, a repeated entry
    /// brings the head back before the end.
    lemma ChainRepeats(step: Step, w: seq<Halfedge>, i: nat, j: nat)
      requires Chained(step, w) && i < j < |w| && Advance(step, w[|w| - 1]) == w[0] && w[i] == w[j]
      ensures w[i + |w| - j] == w[0]
    {
      var s := 0;
      while j + s < |w| - 1
        invariant j + s < |w| && w[i + s] == w[j + s]
        decreases |w| - j - s
      {
        s := s + 1;
      }
    }

    /// The outgoing halfedge `adjust_outgoing_halfedge` stores is one of the arrays.
    lemma AdjustedInRange(v: Vertex)
      requires Valid() && InRange() && RingCloses(Cw, v)
      ensures FirstBoundary(ClockwiseHalfedges(v)).Some? ==> FirstBoundary(ClockwiseHalfedges(v)).value < |hprops.next|
    {
      FirstBoundarySpec(ClockwiseHalfedges(v));
      if IsValid(VertexHalfedge(v)) {
        RingInRange(Cw, VertexHalfedge(v));
      }
    }

    /// The first loop of `delete_face`: each halfedge of the list loses its
    /// face; the edges whose other side is then a boundary halfedge, and the
    /// target vertices, are collected on the way.
    method DetachFace(hs: seq<Halfedge>) returns (edges: seq<Edge>, vs: seq<Vertex>)
      requires Valid() && InRange()
      modifies this`hprops
      ensures Valid() && InRange()
      ensures hprops == old(hprops).(face := Relabelled(old(hprops.face), hs, Invalid))
      ensures vs == Targets(hs)
      ensures edges == LoneEdges(old(hprops.face), hs)
      ensures forall k :: 0 <= k < |edges| ==> edges[k] in EdgesOf(hs)
    {
      edges, vs := [], [];
      var i := 0;
      while i < |hs|
        invariant i <= |hs| && Valid() && InRange()
        invariant hprops == old(hprops).(face := Relabelled(old(hprops.face), hs[..i], Invalid))
        invariant vs == Targets(hs[..i])
        invariant edges == LoneEdges(old(hprops.face), hs[..i])
        invariant forall k :: 0 <= k < |edges| ==> edges[k] in EdgesOf(hs[..i])
      {
        assert hs[..i + 1][..i] == hs[..i];
        assert EdgesOf(hs[..i + 1]) == EdgesOf(hs[..i]) + [EdgeOf(hs[i])];
        assert Targets(hs[..i + 1]) == Targets(hs[..i]) + [ToVertex(hs[i])];
        SetFace(hs[i], Invalid);
        if IsBoundaryHalfedge(Opposite(hs[i])) {
          edges := edges + [EdgeOf(hs[i])];
        }
        vs := vs + [ToVertex(hs[i])];
        i := i + 1;
      }
      assert hs[..i] == hs;
    }

    /// The two `set_next_halfedge` calls of `delete_face` that link the
    /// neighbours of the halfedges of e past them.
    method Bypass(e: Edge)
      requires Valid() && InRange()
      modifies this`hprops
      ensures Valid() && InRange()
      ensures hprops == Bypassed(old(hprops), e)
    {
      var h0, h1 := HalfedgeOf(e, 0), HalfedgeOf(e, 1);
      var next0, prev0, next1, prev1 := Next(h0), Prev(h0), Next(h1), Prev(h1);
      SetNextHalfedge(prev0, next1);
      SetNextHalfedge(prev1, next0);
    }

    /// The body of the second loop of `delete_face` for one edge: the
    /// neighbours of both halfedges are linked past them, the edge is flagged
    /// (and counted once), and each endpoint whose outgoing halfedge leaves
    /// with the edge is released.
    method UnlinkEdge(e: Edge)
      requires Valid() && InRange() && Tallied()
      modifies this`hprops, this`edeleted, this`deletedEdges, this`vprops, this`deletedVertices
      ensures Valid() && InRange() && Tallied()
      ensures hprops == Bypassed(old(hprops), e)
      ensures edeleted == Put(old(edeleted), e, true)
      ensures vprops == ReleaseEnds(old(vprops), old(hprops), e)
      ensures FlagsGrow(old(edeleted), edeleted) && FlagsGrow(old(vprops.deleted), vprops.deleted)
      ensures vprops.point == old(vprops.point) && |vprops.conn| == old(|vprops.conn|)
    {
      var h0, h1 := HalfedgeOf(e, 0), HalfedgeOf(e, 1);
      var v0, next0 := ToVertex(h0), Next(h0);
      var v1, next1 := ToVertex(h1), Next(h1);
      Bypass(e);
      FlagEdge(e);
      ReleaseBoth(v0, h1, next0, v1, h0, next1);
    }

    /// `if (!edeleted_[e]) { edeleted_[e] = true; deleted_edges_++; }`
    method FlagEdge(e: Edge)
      requires Valid() && deletedEdges == Count(edeleted)
      modifies this`edeleted, this`deletedEdges
      ensures Valid() && deletedEdges == Count(edeleted)
      ensures edeleted == Put(old(edeleted), e, true) && FlagsGrow(old(edeleted), edeleted)
    {
      PutGrows(edeleted, e);
      if e < |edeleted| && !edeleted[e] {
        CountMark(edeleted, e);
        edeleted := edeleted[e := true];
        deletedEdges := deletedEdges + 1;
      }
    }

    /// The two endpoint updates of `delete_face`, one after the other.
    method ReleaseBoth(v0: Vertex, h1: Halfedge, next0: Halfedge, v1: Vertex, h0: Halfedge, next1: Halfedge)
      requires Valid() && InRange() && deletedVertices == Count(vprops.deleted)
      requires next0 < |hprops.next| || next0 == Invalid
      requires next1 < |hprops.next| || next1 == Invalid
      modifies this`vprops, this`deletedVertices
      ensures Valid() && InRange() && deletedVertices == Count(vprops.deleted)
      ensures vprops == Release(Release(old(vprops), v0, h1, next0), v1, h0, next1)
      ensures FlagsGrow(old(vprops.deleted), vprops.deleted)
      ensures vprops.point == old(vprops.point) && |vprops.conn| == old(|vprops.conn|)
    {
      ReleaseVertex(v0, h1, next0);
      ReleaseGrows(old(vprops), v0, h1, next0);
      ghost var vp := vprops;
      ReleaseVertex(v1, h0, next1);
      ReleaseGrows(vp, v1, h0, next1);
    }

    /// One endpoint update of `delete_face`: a vertex whose outgoing halfedge
    /// h goes away takes nxt instead, or is flagged (once) when nxt is h
    /// itself, that is, when the edge was its last one.
    method ReleaseVertex(v: Vertex, h: Halfedge, nxt: Halfedge)
      requires Valid() && InRange() && deletedVertices == Count(vprops.deleted)
      requires nxt < |hprops.next| || nxt == Invalid
      modifies this`vprops, this`deletedVertices
      ensures Valid() && InRange() && deletedVertices == Count(vprops.deleted)
      ensures vprops == Release(old(vprops), v, h, nxt)
    {
      if VertexHalfedge(v) == h {
        if nxt == h {
          if v < |vprops.deleted| && !vprops.deleted[v] {
            CountMark(vprops.deleted, v);
            vprops := vprops.(deleted := vprops.deleted[v := true]);
            deletedVertices := deletedVertices + 1;
          }
        } else {
          SetVertexHalfedge(v, nxt);
        }
      }
    }

    /// The second loop of `delete_face`, over the collected edges.
    method UnlinkEdges(edges: seq<Edge>)
      requires Valid() && InRange() && Tallied()
      modifies this`hprops, this`edeleted, this`deletedEdges, this`vprops, this`deletedVertices
      ensures Valid() && InRange() && Tallied()
      ensures hprops.face == old(hprops.face) && hprops.vertex == old(hprops.vertex)
      ensures FlagsGrow(old(edeleted), edeleted) && FlagsGrow(old(vprops.deleted), vprops.deleted)
      ensures vprops.point == old(vprops.point) && |vprops.conn| == old(|vprops.conn|)
      ensures Unlinking(hprops, vprops, edeleted) == Unlinked(Unlinking(old(hprops), old(vprops), old(edeleted)), edges)
      ensures FlaggedWithin(edeleted, edges)
    {
      ghost var s0 := Unlinking(hprops, vprops, edeleted);
      var i := 0;
      while i < |edges|
        invariant i <= |edges| && Valid() && InRange() && Tallied()
        invariant Unlinking(hprops, vprops, edeleted) == Unlinked(s0, edges[..i])
      {
        assert edges[..i + 1][..i] == edges[..i];
        UnlinkEdge(edges[i]);
        i := i + 1;
      }
      assert edges[..i] == edges;
    }

    /// The last loop of `delete_face`: each collected vertex gets a boundary
    /// outgoing halfedge, where its rotation closes.
    method AdjustAll(vs: seq<Vertex>)
      requires Valid() && InRange()
      modifies this`vprops
      ensures Valid() && InRange()
      ensures vprops.point == old(vprops.point) && vprops.deleted == old(vprops.deleted)
      ensures |vprops.conn| == old(|vprops.conn|)
      ensures forall v: Vertex :: v < |vprops.conn| ==>
                vprops.conn[v] == if v in vs then AdjustedFrom(old(vprops.conn)[v]) else old(vprops.conn)[v]
    {
      ghost var c0 := vprops.conn;
      var i := 0;
      while i < |vs|
        invariant i <= |vs| && Valid() && InRange()
        invariant vprops.point == old(vprops.point) && vprops.deleted == old(vprops.deleted)
        invariant |vprops.conn| == |c0|
        invariant forall v: Vertex :: v < |vprops.conn| ==> vprops.conn[v] == if v in vs[..i] then AdjustedFrom(c0[v]) else c0[v]
      {
        ghost var cur := vprops.conn;
        if RingCloses(Cw, vs[i]) {
          AdjustedInRange(vs[i]);
          AdjustOutgoingHalfedge(vs[i]);
        }
        assert vs[..i + 1] == vs[..i] + [vs[i]];
        if vs[i] < |c0| {
          AdjustedFromStable(c0[vs[i]]);
          assert vprops.conn[vs[i]] == AdjustedFrom(cur[vs[i]]);
        }
        i := i + 1;
      }
      assert vs[..i] == vs;
    }

    /// The records the three loops of `delete_face` leave for the loop hs,
    /// from the halfedge, vertex and edge records hp0, vp0, ed0 before them:
    /// hs has lost its face, the collected edges are unlinked in turn with the
    /// vertices they leave without edges, and every target of hs has been
    /// adjusted.
    ghost predicate LoopDeleted(hp0: HalfedgeProps, vp0: VertexProps, ed0: seq<bool>, hs: seq<Halfedge>)
      reads this`hprops, this`vprops, this`edeleted
    {
      var s := Unlinked(Unlinking(hp0.(face := Relabelled(hp0.face, hs, Invalid)), vp0, ed0), LoneEdges(hp0.face, hs));
      hprops == s.hp && edeleted == s.edeleted && vprops.deleted == s.vp.deleted && |vprops.conn| == |s.vp.conn| &&
      forall v: Vertex :: v < |vprops.conn| ==>
        vprops.conn[v] == if v in TargetsIn(hp0.vertex, hs) then AdjustedFrom(s.vp.conn[v]) else s.vp.conn[v]
    }

    /// `fdeleted_[f] = true; ++deleted_faces_;` for a face not yet deleted.
    method FlagFace(f: Face)
      requires Valid() && InRange() && Tallied() && IsValidFace(f) && !fprops.deleted[f]
      modifies this`fprops, this`deletedFaces
      ensures Valid() && InRange() && Tallied() && deletedFaces > 0
      ensures fprops == old(fprops).(deleted := old(fprops.deleted)[f := true])
    {
      CountMark(fprops.deleted, f);
      fprops := fprops.(deleted := fprops.deleted[f := true]);
      deletedFaces := deletedFaces + 1;
    }

    /// The three loops of `delete_face` over the loop hs of the face.
    method DeleteLoop(hs: seq<Halfedge>)
      requires Valid() && InRange() && Tallied()
      modifies this`hprops, this`edeleted, this`deletedEdges, this`vprops, this`deletedVertices
      ensures Valid() && InRange() && Tallied()
      ensures FlagsGrow(old(vprops.deleted), vprops.deleted) && FlagsGrow(old(edeleted), edeleted)
      ensures vprops.point == old(vprops.point) && |vprops.conn| == old(|vprops.conn|)
      ensures hprops.face == Relabelled(old(hprops.face), hs, Invalid)
      ensures FlaggedWithin(edeleted, LoneEdges(old(hprops.face), hs))
      ensures LoopDeleted(old(hprops), old(vprops), old(edeleted), hs)
    {
      var edges, vs := DetachFace(hs);
      UnlinkEdges(edges);
      AdjustAll(vs);
    }

    /// `delete_face(f)`: a face not yet deleted is flagged and counted, its
    /// halfedges lose their face, the edges left without any face are
    /// unlinked and deleted with the vertices they isolate, and the garbage
    /// flag is raised.  Deleting a deleted face changes nothing.
    method DeleteFace(f: Face)
      requires Valid() && InRange() && Counted() && IsValidFace(f)
      modifies this
      ensures Valid() && InRange() && Counted()
      ensures FlagsGrow(old(vprops.deleted), vprops.deleted) && FlagsGrow(old(edeleted), edeleted)
      ensures FlagsGrow(old(fprops.deleted), fprops.deleted) && |fprops.conn| == old(|fprops.conn|)
      ensures vprops.point == old(vprops.point) && |vprops.conn| == old(|vprops.conn|)
      ensures old(fprops.deleted[f]) ==> unchanged(this)
      ensures !old(fprops.deleted[f]) ==>
                hasGarbage && fprops == old(fprops).(deleted := old(fprops.deleted)[f := true]) &&
                hprops.face == Relabelled(old(hprops.face), old(FaceLoop(f)), Invalid)
      ensures !old(fprops.deleted[f]) ==> FlaggedWithin(edeleted, old(LoneEdges(hprops.face, FaceLoop(f))))
      ensures !old(fprops.deleted[f]) ==> LoopDeleted(old(hprops), old(vprops), old(edeleted), old(FaceLoop(f)))
    {
      if !fprops.deleted[f] {
        DeleteLiveFace(f);
      }
    }

    /// `delete_face(f)` for a face not yet deleted.
    method DeleteLiveFace(f: Face)
      requires Valid() && InRange() && Counted() && IsValidFace(f) && !fprops.deleted[f]
      modifies this`vprops, this`hprops, this`edeleted, this`fprops, this`deletedVertices, this`deletedEdges, this`deletedFaces, this`hasGarbage
      ensures Valid() && InRange() && Counted() && hasGarbage
      ensures FlagsGrow(old(vprops.deleted), vprops.deleted) && FlagsGrow(old(edeleted), edeleted)
      ensures vprops.point == old(vprops.point) && |vprops.conn| == old(|vprops.conn|)
      ensures fprops == old(fprops).(deleted := old(fprops.deleted)[f := true])
      ensures hprops.face == Relabelled(old(hprops.face), old(FaceLoop(f)), Invalid)
      ensures FlaggedWithin(edeleted, old(LoneEdges(hprops.face, FaceLoop(f))))
      ensures LoopDeleted(old(hprops), old(vprops), old(edeleted), old(FaceLoop(f)))
    {
      var hs := Collect(NextStep, FaceHalfedge(f));
      FlagFace(f);
      hasGarbage := true;
      DeleteLoop(hs);
    }

    /// The loop of `delete_vertex` over the collected faces.
    method DeleteFaces(fs: seq<Face>)
      requires Valid() && InRange() && Counted()
      requires forall k :: 0 <= k < |fs| ==> fs[k] < |fprops.conn|
      modifies this
      ensures Valid() && InRange() && Counted()
      ensures FlagsGrow(old(vprops.deleted), vprops.deleted) && FlagsGrow(old(edeleted), edeleted)
      ensures FlagsGrow(old(fprops.deleted), fprops.deleted) && |fprops.conn| == old(|fprops.conn|)
      ensures vprops.point == old(vprops.point) && |vprops.conn| == old(|vprops.conn|)
      ensures AllSet(fprops.deleted, fs)
      ensures fs != [] ==> hasGarbage
    {
      var i := 0;
      while i < |fs|
        invariant i <= |fs| && Valid() && InRange() && Counted()
        invariant FlagsGrow(old(vprops.deleted), vprops.deleted) && FlagsGrow(old(edeleted), edeleted)
        invariant FlagsGrow(old(fprops.deleted), fprops.deleted) && |fprops.conn| == old(|fprops.conn|)
        invariant vprops.point == old(vprops.point) && |vprops.conn| == old(|vprops.conn|)
        invariant AllSet(fprops.deleted, fs[..i])
        invariant i > 0 ==> hasGarbage
      {
        ghost var before := fprops.deleted;
        DeleteFace(fs[i]);
        AllSetStep(before, fprops.deleted, fs[..i], fs[i]);
        assert fs[..i + 1] == fs[..i] + [fs[i]];
        i := i + 1;
      }
      assert fs[..i] == fs;
    }

    /// `delete_vertex(v)`: every face around a vertex not yet deleted is
    /// deleted, then the vertex is flagged if that did not already happen.
    /// Deleting a deleted vertex changes nothing.
    method DeleteVertex(v: Vertex)
      requires Valid() && InRange() && Counted() && IsValidVertex(v)
      modifies this
      ensures Valid() && InRange() && Counted()
      ensures FlagsGrow(old(vprops.deleted), vprops.deleted) && FlagsGrow(old(edeleted), edeleted)
      ensures FlagsGrow(old(fprops.deleted), fprops.deleted) && |fprops.conn| == old(|fprops.conn|)
      ensures vprops.point == old(vprops.point) && |vprops.conn| == old(|vprops.conn|)
      ensures old(vprops.deleted[v]) ==> unchanged(this)
      ensures !old(vprops.deleted[v]) ==>
                hasGarbage && vprops.deleted[v] && AllSet(fprops.deleted, old(FacesAround(v)))
    {
      if vprops.deleted[v] {
        return;
      }
      var fs := IncidentFaces(v);
      FacesOfInRange(OutgoingHalfedges(v));
      DeleteFaces(fs);
      if !vprops.deleted[v] {
        CountMark(vprops.deleted, v);
        vprops := vprops.(deleted := vprops.deleted[v := true]);
        deletedVertices := deletedVertices + 1;
        hasGarbage := true;
      }
    }

    /// `delete_edge(e)`: the faces on both sides of an edge not yet deleted
    /// are deleted, which deletes the edge with the second of them.  An edge
    /// with no face on either side is left as it is.
    method DeleteEdge(e: Edge)
      requires Valid() && InRange() && Counted() && IsValidEdge(e)
      modifies this
      ensures Valid() && InRange() && Counted()
      ensures FlagsGrow(old(vprops.deleted), vprops.deleted) && FlagsGrow(old(edeleted), edeleted)
      ensures FlagsGrow(old(fprops.deleted), fprops.deleted) && |fprops.conn| == old(|fprops.conn|)
      ensures vprops.point == old(vprops.point) && |vprops.conn| == old(|vprops.conn|)
      ensures old(edeleted[e]) ==> unchanged(this)
      ensures !old(edeleted[e]) && old(!IsValid(EdgeFace(e, 0)) && !IsValid(EdgeFace(e, 1))) ==> unchanged(this)
      ensures !old(edeleted[e]) ==>
                (IsValid(old(EdgeFace(e, 0))) ==> fprops.deleted[old(EdgeFace(e, 0))]) &&
                (IsValid(old(EdgeFace(e, 1))) ==> fprops.deleted[old(EdgeFace(e, 1))])
      ensures !old(edeleted[e]) && old(EdgeInLoops(e)) ==> edeleted[e]
    {
      if edeleted[e] {
        return;
      }
      var f0, f1 := EdgeFace(e, 0), EdgeFace(e, 1);
      ghost var ok := EdgeInLoops(e);
      if IsValid(f0) {
        DeleteFirstFace(e, f0, f1);
      }
      if IsValid(f1) {
        ghost var ready := ok && (!IsValid(f0) || f0 != f1);
        ghost var es1 := LoneEdges(hprops.face, FaceLoop(f1));
        if ready {
          SecondSide(e, f1);
        }
        DeleteFace(f1);
        if ready {
          assert e in es1 && e < |edeleted|;
        }
      }
    }

    /// The face f on the second side of e is ready for `delete_face` to
    /// delete e: f is not deleted, its loop runs through the second halfedge
    /// of e, and the first halfedge of e has no face.
    predicate SecondReady(e: Edge, f: Face)
      reads this`hprops, this`fprops
    {
      !IsDeletedFace(f) && HalfedgeOf(e, 1) in FaceLoop(f) && Faceless(hprops.face, HalfedgeOf(e, 0))
    }

    /// The first `delete_face` of `delete_edge`, on the face f0 of the first
    /// side of e: where the faces of e are as deleting them needs, e is
    /// deleted unless a different face f1 lies on its second side, which is
    /// then ready to delete e.
    method DeleteFirstFace(e: Edge, f0: Face, f1: Face)
      requires Valid() && InRange() && Counted() && IsValidEdge(e)
      requires f0 == EdgeFace(e, 0) && f1 == EdgeFace(e, 1) && IsValid(f0)
      modifies this
      ensures Valid() && InRange() && Counted()
      ensures FlagsGrow(old(vprops.deleted), vprops.deleted) && FlagsGrow(old(edeleted), edeleted)
      ensures FlagsGrow(old(fprops.deleted), fprops.deleted) && |fprops.conn| == old(|fprops.conn|)
      ensures vprops.point == old(vprops.point) && |vprops.conn| == old(|vprops.conn|)
      ensures fprops.deleted[f0]
      ensures old(EdgeInLoops(e)) ==> if IsValid(f1) && f1 != f0 then SecondReady(e, f1) else edeleted[e]
    {
      ghost var ok := EdgeInLoops(e);
      ghost var hp0, vp0, ed0, L0 := hprops, vprops, edeleted, FaceLoop(f0);
      ghost var es0 := LoneEdges(hprops.face, L0);
      ghost var L1 := FaceLoop(f1);
      if ok {
        FirstSide(e);
        WalkIsWalked(NextStep, FaceHalfedge(f1), FaceHalfedge(f1), |hprops.next| + 1);
      }
      DeleteFace(f0);
      if ok {
        if IsValid(f1) && f1 != f0 {
          LoopKept(hp0, vp0, ed0, L0, f1);
          assert L1 == FaceLoop(f1) && HalfedgeOf(e, 1) in L1;
          RelabelledFaceless(hp0.face, L0, HalfedgeOf(e, 0));
          assert Faceless(hprops.face, HalfedgeOf(e, 0));
        } else {
          assert e in es0 && FlaggedWithin(edeleted, es0);
          assert edeleted[e];
        }
      }
    }

    /// Before the first deletion of `delete_edge`: where e has a face f0 on
    /// its first side and no other face, e is among the edges deleting f0
    /// collects; where it has a different face f1 on the other side, the loop
    /// of f1 carries f1 and lies outside the loop of f0.
    lemma FirstSide(e: Edge)
      requires Valid() && EdgeInLoops(e) && IsValid(EdgeFace(e, 0))
      ensures var f0, f1 := EdgeFace(e, 0), EdgeFace(e, 1);
              (!IsValid(f1) || f1 == f0 ==> e in LoneEdges(hprops.face, FaceLoop(f0))) &&
              (IsValid(f1) && f1 != f0 ==>
                 var a := FaceHalfedge(f1);
                 forall x :: x in Walked(hprops, NextStep, a, a, |hprops.next| + 1) ==>
                   Get(hprops.face, x) == f1 && x !in FaceLoop(f0))
    {
      var f0, f1 := EdgeFace(e, 0), EdgeFace(e, 1);
      if !IsValid(f1) || f1 == f0 {
        EdgeCollected(e, 0, f0);
      } else {
        var a := FaceHalfedge(f1);
        WalkIsWalked(NextStep, a, a, |hprops.next| + 1);
        forall x | x in Walked(hprops, NextStep, a, a, |hprops.next| + 1) ensures Get(hprops.face, x) == f1 && x !in FaceLoop(f0) {
          assert x in FaceLoop(f1);
          assert FaceOf(x) == f1;
        }
      }
    }

    /// Before the second deletion of `delete_edge`: where the face f is ready
    /// to delete e, e is among the edges deleting f collects.
    lemma SecondSide(e: Edge, f: Face)
      requires Valid() && SecondReady(e, f)
      ensures e in LoneEdges(hprops.face, FaceLoop(f)) && !IsDeletedFace(f)
    {
      EdgeCollected(e, 1, f);
    }

    /// Every halfedge of the loop of f has face f.
    predicate LoopCarries(f: Face)
      reads this`hprops, this`fprops
    {
      forall x :: x in FaceLoop(f) ==> FaceOf(x) == f
    }

    /// The faces on both sides of e as deleting them deletes e: e has a face
    /// on at least one side; each such face is not deleted, its loop runs
    /// through the halfedge of e on that side and carries the face
    /// throughout; and where the two faces differ, once the first one has
    /// lost its loop, stepping back from a halfedge without a face never
    /// reaches a halfedge with a face.
    predicate EdgeInLoops(e: Edge)
      reads this`hprops, this`fprops
    {
      var f0, f1 := EdgeFace(e, 0), EdgeFace(e, 1);
      (IsValid(f0) || IsValid(f1)) &&
      (IsValid(f0) ==> !IsDeletedFace(f0) && HalfedgeOf(e, 0) in FaceLoop(f0) && LoopCarries(f0)) &&
      (IsValid(f1) ==> !IsDeletedFace(f1) && HalfedgeOf(e, 1) in FaceLoop(f1) && LoopCarries(f1)) &&
      (IsValid(f0) && IsValid(f1) && f0 != f1 ==> BackFaceless(Relabelled(hprops.face, FaceLoop(f0), Invalid), hprops.prev))
    }

    /// An edge with a halfedge in the loop of f whose other halfedge has no
    /// face or lies in that loop as well is among the edges `delete_face(f)`
    /// collects.
    lemma EdgeCollected(e: Edge, i: nat, f: Face)
      requires Valid() && i <= 1 && HalfedgeOf(e, i) in FaceLoop(f)
      requires Faceless(hprops.face, HalfedgeOf(e, 1 - i)) || HalfedgeOf(e, 1 - i) in FaceLoop(f)
      ensures e in LoneEdges(hprops.face, FaceLoop(f))
    {
      EdgeHalfedgeRoundTrip(e, HalfedgeOf(e, i));
      OppositeInvolution(HalfedgeOf(e, 0));
      LoneEdgeOf(hprops.face, FaceLoop(f), HalfedgeOf(e, i));
    }

    /// Once `delete_face` has taken the loop L0 from the records hp0, vp0,
    /// ed0, the loop of a face f1 whose halfedges all carried f1 and lay
    /// outside L0 is the loop it was, where stepping back from a halfedge
    /// without a face led to one without a face.
    lemma LoopKept(hp0: HalfedgeProps, vp0: VertexProps, ed0: seq<bool>, L0: seq<Halfedge>, f1: Face)
      requires Valid() && LoopDeleted(hp0, vp0, ed0, L0) && IsValid(f1) && |hp0.face| <= Invalid
      requires BackFaceless(Relabelled(hp0.face, L0, Invalid), hp0.prev)
      requires var a := FaceHalfedge(f1);
               forall x :: x in Walked(hp0, NextStep, a, a, |hp0.next| + 1) ==> Get(hp0.face, x) == f1 && x !in L0
      ensures FaceLoop(f1) == Walked(hp0, NextStep, FaceHalfedge(f1), FaceHalfedge(f1), |hp0.next| + 1)
    {
      var a := FaceHalfedge(f1);
      WalkIsWalked(NextStep, a, a, |hprops.next| + 1);
      WalkKept(hp0, vp0, ed0, L0, hprops, a, f1);
    }
  }

  /// The circulators `HalfedgeAroundVertexCirculator` and
  /// `VertexAroundVertexCirculator`: counter-clockwise around a vertex, with the
  /// activity flag that lets a range-for start on its own end.
  class VertexCirculator {
    const mesh: SurfaceMesh
    var halfedge: Halfedge
    var active: bool

    constructor (mesh: SurfaceMesh, v: Vertex)
      ensures this.mesh == mesh && halfedge == mesh.VertexHalfedge(v) && active
    {
      this.mesh := mesh;
      halfedge := mesh.VertexHalfedge(v);
      active := true;
    }

    /// `operator==`: equal only once the circulator has moved.
    predicate Equals(other: VertexCirculator)
      reads this, other
    {
      active && halfedge == other.halfedge
    }

    /// `operator bool`: the vertex is not isolated.
    predicate NotIsolated()
      reads this
    {
      IsValid(halfedge)
    }

    /// `operator*` of the vertex circulator: the neighbour reached.
    function Target(): Vertex
      reads this, mesh
    {
      mesh.ToVertex(halfedge)
    }

    /// `begin()`: an isolated vertex starts at its own end.
    method Begin()
      modifies this
      ensures halfedge == old(halfedge) && active == !IsValid(halfedge)
    {
      active := !IsValid(halfedge);
    }

    /// `end()`.
    method End()
      modifies this
      ensures halfedge == old(halfedge) && active
    {
      active := true;
    }

    /// `operator++`: rotate counter-clockwise.
    method Increment()
      modifies this
      ensures halfedge == mesh.CcwRotated(old(halfedge)) && active
    {
      halfedge := mesh.CcwRotated(halfedge);
      active := true;
    }

    /// `operator--`: rotate clockwise.
    method Decrement()
      modifies this
      ensures halfedge == mesh.CwRotated(old(halfedge)) && active == old(active)
    {
      halfedge := mesh.CwRotated(halfedge);
    }
  }

  /// The circulators `HalfedgeAroundFaceCirculator` and
  /// `VertexAroundFaceCirculator`: along the next halfedges of a face.
  class FaceCirculator {
    const mesh: SurfaceMesh
    var halfedge: Halfedge
    var active: bool

    constructor (mesh: SurfaceMesh, f: Face)
      ensures this.mesh == mesh && halfedge == mesh.FaceHalfedge(f) && active
    {
      this.mesh := mesh;
      halfedge := mesh.FaceHalfedge(f);
      active := true;
    }

    predicate Equals(other: FaceCirculator)
      reads this, other
    {
      active && halfedge == other.halfedge
    }

    /// `operator*` of the vertex circulator: the vertex reached.
    function Target(): Vertex
      reads this, mesh
    {
      mesh.ToVertex(halfedge)
    }

    /// `begin()`: a face always has a first halfedge to visit.
    method Begin()
      modifies this
      ensures halfedge == old(halfedge) && !active
    {
      active := false;
    }

    method End()
      modifies this
      ensures halfedge == old(halfedge) && active
    {
      active := true;
    }

    /// `operator++`: the next halfedge.
    method Increment()
      modifies this
      ensures halfedge == mesh.Next(old(halfedge)) && active
    {
      halfedge := mesh.Next(halfedge);
      active := true;
    }

    /// `operator--`: the previous halfedge.
    method Decrement()
      modifies this
      ensures halfedge == mesh.Prev(old(halfedge)) && active == old(active)
    {
      halfedge := mesh.Prev(halfedge);
    }
  }
}
