/// `PointSet`: vertices with a position and a deletion flag, soft deletion,
/// and the vertex stage of the two-stage garbage collection of the layered
/// kernel.
///
/// A `PointSet` is a `GeometryObject`; the base part is the `base` it
/// holds.  Derived layers add arrays to the same vertex container (the
/// edge set adds `v:connectivity`); `BeginGarbage` returns the exchanges it
/// made so that those layers apply them to their arrays too.
module PointSets {
  import opened Handles
  import opened Wrappers
  import opened Compaction
  import opened GeometryObjects
  import opened HalfedgeMesh
  import MeshGarbage

  /// The key under which `beginGarbage` leaves the new vertex count.
  const VertexCountKey := "nV"

  /// `isValid(v)` as written: `0 <= v.idx() && v.idx() < (int)verticesSize()`,
  /// both sides read as signed 32-bit integers.
  predicate IsValidAsWritten(v: Vertex, size: nat)
    requires v <= MaxIndex && size <= MaxIndex
  {
    0 <= SignedIdx(v) && SignedIdx(v) < SignedIdx(size)
  }

  /// Below 2^31 vertices the written test is the bounds check.
  lemma AsWrittenBelowHalfRange(v: Vertex, size: nat)
    requires v <= MaxIndex && size < 0x8000_0000
    ensures IsValidAsWritten(v, size) <==> v < size
  {
  }

  /// With 2^31 + 1 vertices, `(int)verticesSize()` is negative and vertex 0,
  /// which exists, is reported invalid.
  lemma AsWrittenRejectsExistingVertex()
    ensures 0 < 0x8000_0001 && !IsValidAsWritten(0, 0x8000_0001)
  {
  }

  /// What compaction of the vertex container delivers: each vertex not
  /// flagged deleted keeps its position at its new slot below nv, and each
  /// slot below nv holds such a vertex.
  lemma {:induction false} VerticesCollected(deleted: seq<bool>, point: seq<Point>, sv: seq<Transposition>, nv: nat)
    requires |point| == |deleted| && MeshGarbage.Compacts(deleted, sv, nv)
    ensures nv == |deleted| - Count(deleted) && nv <= |deleted|
    ensures forall w :: 0 <= w < |deleted| && !deleted[w] ==>
              Perm(sv, w) < nv && ApplySwaps(point, sv)[Perm(sv, w)] == point[w] &&
              ApplySwaps(Identity(|deleted|), sv)[w] == Perm(sv, w)
    ensures forall k :: 0 <= k < nv ==>
              Perm(sv, k) < |deleted| && !deleted[Perm(sv, k)] && ApplySwaps(point, sv)[k] == point[Perm(sv, k)]
  {
    MonotoneDisjoint(sv);
    forall w | 0 <= w < |deleted| && !deleted[w]
      ensures Perm(sv, w) < nv && ApplySwaps(point, sv)[Perm(sv, w)] == point[w] &&
              ApplySwaps(Identity(|deleted|), sv)[w] == Perm(sv, w)
    {
      Compacted(deleted, point, sv, nv, w);
    }
    forall k | 0 <= k < nv
      ensures Perm(sv, k) < |deleted| && !deleted[Perm(sv, k)] && ApplySwaps(point, sv)[k] == point[Perm(sv, k)]
    {
      Survivor(deleted, sv, nv, k);
      Compacted(deleted, point, sv, nv, Perm(sv, k));
    }
  }

  /// The value work of `beginGarbage()` on the vertex arrays: the
  /// two-pointer exchanges, applied to the positions, the flags and the
  /// identity map; the number of deleted flags is unchanged.
  method CompactVertices(point: seq<Point>, deleted: seq<bool>)
      returns (point': seq<Point>, deleted': seq<bool>, vm: seq<Vertex>, sv: seq<Transposition>, nv: nat)
    requires |point| == |deleted|
    ensures MeshGarbage.Compacts(deleted, sv, nv)
    ensures point' == ApplySwaps(point, sv) && deleted' == ApplySwaps(deleted, sv)
    ensures vm == ApplySwaps(Identity(|deleted|), sv)
    ensures |point'| == |deleted'| == |vm| == |deleted| && Count(deleted') == Count(deleted)
  {
    sv, nv := TwoPointer(deleted);
    ApplyMultiset(deleted, sv);
    vm := ApplySwaps(Identity(|deleted|), sv);
    point', deleted' := ApplySwaps(point, sv), ApplySwaps(deleted, sv);
  }

  class PointSet {
    /// The `GeometryObject` part (the base class).
    const base: GeometryObject
    /// `v:point`.
    var point: seq<Point>
    /// `v:deleted`.
    var deleted: seq<bool>
    /// `m_deletedVertices`.
    var deletedVertices: nat
    /// `v:garbage-collection`, the old-to-new map that exists between the
    /// two stages of a garbage collection.
    var vmap: Option<seq<Vertex>>

    ghost predicate Valid()
      reads this`point, this`deleted, this`deletedVertices, this`vmap, base.oprops
    {
      base.Valid() && |point| == |deleted| < MaxIndex && deletedVertices == Count(deleted) &&
      (vmap.Some? ==> |vmap.value| == |deleted|)
    }

    /// A new point set has no vertex and no garbage.
    constructor ()
      ensures Valid() && fresh(base) && fresh(base.oprops)
      ensures point == [] && deleted == [] && vmap == None && NVertices() == 0
      ensures !base.garbage && base.garbageProps == map[] && base.oprops.size == 1
    {
      base := new GeometryObject();
      point, deleted, deletedVertices, vmap := [], [], 0, None;
      new;
      base.garbage := false;
    }

    /// `verticesSize()`: deleted vertices included.
    function VerticesSize(): nat
      reads this
    {
      |point|
    }

    /// `nVertices()`.
    function NVertices(): int
      reads this
    {
      |point| - deletedVertices
    }

    /// `nVertices()` counts the vertices a garbage-aware iteration visits.
    lemma NVerticesCountsLive()
      requires Valid()
      ensures NVertices() == |Survivors(deleted, 0)|
    {
      SurvivorsCount(deleted, 0);
    }

    /// `isEmpty()`.
    predicate IsEmpty()
      reads this
    {
      NVertices() == 0
    }

    /// `isDeleted(v)`.
    predicate IsDeleted(v: Vertex)
      requires v < |deleted|
      reads this
    {
      deleted[v]
    }

    /// `isValid(v)` with the unsigned comparison the bound intends: the
    /// handle indexes an allocated vertex.
    predicate IsValid(v: Vertex)
      reads this
    {
      v < |point|
    }

    /// The default handle is never a vertex, and every valid handle passes
    /// the written test when the set has fewer than 2^31 vertices.
    lemma IsValidMeaning(v: Vertex)
      requires Valid() && v <= MaxIndex
      ensures !IsValid(Invalid)
      ensures |point| < 0x8000_0000 ==> (IsValid(v) <==> IsValidAsWritten(v, |point|))
    {
      if |point| < 0x8000_0000 {
        AsWrittenBelowHalfRange(v, |point|);
      }
    }

    /// `newVertex()`: at the index limit the invalid handle and no change;
    /// otherwise one slot more in every vertex array, and its index.
    method NewVertex() returns (v: Vertex)
      requires Valid()
      modifies this
      ensures Valid() && deletedVertices == old(deletedVertices)
      ensures old(|point|) == MaxIndex - 1 ==> v == Invalid && unchanged(this)
      ensures old(|point|) < MaxIndex - 1 ==>
                v == old(|point|) && point == old(point) + [Origin] && deleted == old(deleted) + [false] &&
                vmap == (if old(vmap).Some? then Some(old(vmap).value + [Invalid]) else None)
    {
      if |point| == MaxIndex - 1 {
        return Invalid;
      }
      CountAppendClear(deleted);
      point, deleted := point + [Origin], deleted + [false];
      if vmap.Some? {
        vmap := Some(vmap.value + [Invalid]);
      }
      v := |point| - 1;
    }

    /// `addVertex(p)`: a new vertex at p, or the invalid handle at the limit.
    method AddVertex(p: Point) returns (v: Vertex)
      requires Valid()
      modifies this
      ensures Valid() && deletedVertices == old(deletedVertices) && vmap.Some? == old(vmap).Some?
      ensures old(|point|) == MaxIndex - 1 ==> v == Invalid && unchanged(this)
      ensures old(|point|) < MaxIndex - 1 ==>
                v == old(|point|) && point == old(point) + [p] && deleted == old(deleted) + [false] &&
                VerticesSize() == old(VerticesSize()) + 1 && point[v] == p
    {
      v := NewVertex();
      if IsValid(v) {
        point := point[v := p];
      }
    }

    /// `deleteVertex(v)`: a vertex not yet deleted is flagged, counted once
    /// and raises the garbage flag; deleting it again changes nothing.
    method DeleteVertex(v: Vertex)
      requires Valid() && v < |deleted|
      modifies this, base
      ensures Valid() && point == old(point) && vmap == old(vmap)
      ensures base.garbageProps == old(base.garbageProps)
      ensures old(deleted[v]) ==> unchanged(this, base)
      ensures !old(deleted[v]) ==>
                deleted == old(deleted)[v := true] && deletedVertices == old(deletedVertices) + 1 && base.garbage
    {
      if deleted[v] {
        return;
      }
      CountMark(deleted, v);
      deleted := deleted[v := true];
      deletedVertices := deletedVertices + 1;
      base.SetGarbage();
    }

    /// `beginGarbage()` of the point set: the survivors are moved to the
    /// front by the two-pointer exchanges, applied to every vertex array and
    /// to the identity map, and the number of survivors is stored under "nV".
    /// The exchanges are returned for the arrays of derived layers.
    method BeginGarbage() returns (sv: seq<Transposition>, nv: nat)
      requires Valid() && vmap.None?
      modifies this, base
      ensures Valid() && MeshGarbage.Compacts(old(deleted), sv, nv)
      ensures point == ApplySwaps(old(point), sv) && deleted == ApplySwaps(old(deleted), sv)
      ensures vmap == Some(ApplySwaps(Identity(|deleted|), sv))
      ensures deletedVertices == old(deletedVertices) && base.garbage == old(base.garbage)
      ensures base.garbageProps == old(base.garbageProps)[VertexCountKey := nv]
    {
      var p, d, vm;
      p, d, vm, sv, nv := CompactVertices(point, deleted);
      point, deleted, vmap := p, d, Some(vm);
      base.Store(VertexCountKey, nv);
    }

    /// `finalizeGarbage()` of the point set: the map is removed, every vertex
    /// array is cut to the count stored under "nV", no deleted vertex is left,
    /// and the base stage clears the garbage flag.  It runs after
    /// `BeginGarbage`, whose count leaves only survivors below it.
    method FinalizeGarbage()
      requires Valid()
      requires 0 <= Lookup(base.garbageProps, VertexCountKey) <= |deleted|
      requires forall k :: 0 <= k < Lookup(base.garbageProps, VertexCountKey) ==> !deleted[k]
      modifies this, base
      ensures Valid() && vmap == None && !base.garbage && deletedVertices == 0
      ensures var n := Lookup(old(base.garbageProps), VertexCountKey);
              point == old(point)[..n] && deleted == old(deleted)[..n] &&
              base.garbageProps == old(base.garbageProps)[VertexCountKey := n]
    {
      vmap := None;
      var n := base.Fetch(VertexCountKey);
      point, deleted := point[..n], deleted[..n];
      MeshGarbage.AllClear(deleted);
      deletedVertices := 0;
      base.FinalizeGarbage();
    }

    /// `garbageCollection()` on a point set: the scratch map is emptied, then
    /// the two stages run.  Afterwards the vertices are the survivors, each
    /// at its new slot with its position, none is deleted, and there is no
    /// garbage.
    method GarbageCollection() returns (ghost sv: seq<Transposition>, ghost nv: nat)
      requires Valid() && vmap.None?
      modifies this, base
      ensures Valid() && MeshGarbage.Compacts(old(deleted), sv, nv)
      ensures point == ApplySwaps(old(point), sv)[..nv] && |deleted| == nv
      ensures forall k :: 0 <= k < nv ==> !deleted[k]
      ensures NVertices() == old(NVertices()) && deletedVertices == 0
      ensures !base.garbage && vmap == None && base.garbageProps == map[VertexCountKey := nv]
    {
      base.ClearGarbageProps();
      sv, nv := BeginGarbage();
      FinalizeGarbage();
    }

    /// `clear()`: no vertex, no deleted count, no garbage, and the base
    /// part reset to its single empty slot.
    method Clear()
      requires Valid()
      modifies this, base, base.oprops
      ensures Valid() && point == [] && deleted == [] && deletedVertices == 0 && NVertices() == 0
      ensures !base.garbage && base.oprops.size == 1 && base.oprops.parrays == []
      ensures vmap == (if old(vmap).Some? then Some([]) else None)
      ensures base.garbageProps == old(base.garbageProps)
    {
      point, deleted := [], [];
      if vmap.Some? {
        vmap := Some([]);
      }
      deletedVertices := 0;
      base.garbage := false;
      base.Clear();
    }

    /// `operator=`: a deep copy of rhs, every vertex array (the map
    /// included), the deleted count and the garbage flag, with the base part
    /// copied as well; copying a point set onto itself changes nothing.
    method CopyFrom(rhs: PointSet)
      requires Valid() && rhs.Valid() && (rhs != this ==> rhs.base != base)
      modifies this, base, base.oprops
      ensures Valid() && base.garbageProps == old(base.garbageProps)
      ensures rhs != this ==>
                point == old(rhs.point) && deleted == old(rhs.deleted) && vmap == old(rhs.vmap) &&
                deletedVertices == old(rhs.deletedVertices) && base.garbage == old(rhs.base.garbage)
      ensures rhs == this ==>
                point == old(point) && deleted == old(deleted) && vmap == old(vmap) &&
                deletedVertices == old(deletedVertices) && base.garbage == old(base.garbage)
    {
      base.CopyFrom(rhs.base);
      if rhs != this {
        point, deleted, deletedVertices, vmap := rhs.point, rhs.deleted, rhs.deletedVertices, rhs.vmap;
        base.garbage := rhs.base.garbage;
      }
    }

    /// `assign(rhs)`: the positions, flags, deleted count and garbage flag of
    /// rhs are copied, with a deep copy of its base part; no other vertex
    /// array survives.  Assigning a point set to itself changes nothing.
    method Assign(rhs: PointSet)
      requires Valid() && rhs.Valid() && (rhs != this ==> rhs.base != base)
      modifies this, base, base.oprops
      ensures Valid() && base.garbageProps == old(base.garbageProps)
      ensures rhs != this ==>
                point == old(rhs.point) && deleted == old(rhs.deleted) && vmap == None &&
                deletedVertices == old(rhs.deletedVertices) && base.garbage == old(rhs.base.garbage)
      ensures rhs == this ==>
                point == old(point) && deleted == old(deleted) && vmap == old(vmap) && deletedVertices == old(deletedVertices)
    {
      base.CopyFrom(rhs.base);
      if rhs != this {
        point, deleted, deletedVertices, vmap := rhs.point, rhs.deleted, rhs.deletedVertices, None;
        base.garbage := rhs.base.garbage;
      }
    }
  }

  /// A new clear flag leaves the deleted count as it was.
  lemma CountAppendClear(flags: seq<bool>)
    ensures Count(flags + [false]) == Count(flags)
  {
    assert multiset(flags + [false]) == multiset(flags) + multiset{false};
  }
}
