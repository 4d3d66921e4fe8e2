/// The root of the layered kernel (`GeometryObject`, base of `PointSet`,
/// `EdgeSet` and the layered `SurfaceMesh`): the object-property container,
/// the garbage flag, the scratch map that the two stages of a garbage
/// collection share, and the index view of a handle.
module GeometryObjects {
  import opened Handles
  import Properties

  /// `BaseHandle::idx()`: the stored 32-bit unsigned index returned as an
  /// `int`, that is, taken into the signed 32-bit range modulo 2^32.
  function SignedIdx(h: nat): (i: int)
    requires h <= MaxIndex
    ensures -0x8000_0000 <= i < 0x8000_0000
    ensures (h - i) % 0x1_0000_0000 == 0
    ensures h < 0x8000_0000 ==> i == h
  {
    if h < 0x8000_0000 then h else h - 0x1_0000_0000
  }

  /// The default handle reads as -1.
  lemma InvalidReadsNegative()
    ensures SignedIdx(Invalid) == -1
  {
  }

  /// `std::map<std::string, int>::operator[]` on read: the stored value, or
  /// the 0 it inserts for a missing key.
  function Lookup(m: map<string, int>, key: string): (v: int)
    ensures key in m ==> v == m[key]
    ensures key !in m ==> v == 0
  {
    if key in m then m[key] else 0
  }

  class GeometryObject {
    /// `m_oprops`: the object properties, one slot per array.
    const oprops: Properties.PropertyContainer<int>
    /// `m_garbage`: some element is flagged deleted and not yet collected.
    var garbage: bool
    /// `m_garbageprops`: counts passed from `beginGarbage` to `finalizeGarbage`.
    var garbageProps: map<string, int>

    ghost predicate Valid()
      reads oprops
    {
      oprops.Valid()
    }

    /// The constructor makes the single slot of the object properties.  It
    /// does not set the garbage flag; every derived constructor does.
    constructor ()
      ensures Valid() && fresh(oprops)
      ensures oprops.size == 1 && oprops.parrays == [] && garbageProps == map[]
    {
      oprops := new Properties.PropertyContainer<int>();
      garbageProps := map[];
      new;
      oprops.PushBack();
    }

    /// `clear()`: the object properties are dropped and one slot remains,
    /// the state of a new object.
    method Clear()
      requires Valid()
      modifies oprops
      ensures Valid() && oprops.size == 1 && oprops.parrays == []
    {
      oprops.Clear();
      oprops.Resize(1);
    }

    /// `operator=`: a deep copy of the object properties and the flag; each
    /// copied array holds the source array's name and values under a new id.
    method CopyFrom(rhs: GeometryObject)
      requires Valid() && rhs.Valid()
      modifies this, oprops
      ensures Valid() && garbageProps == old(garbageProps)
      ensures rhs == this ==> garbage == old(garbage) && oprops.parrays == old(oprops.parrays) && oprops.size == old(oprops.size)
      ensures rhs != this ==> garbage == old(rhs.garbage) && oprops.size == old(rhs.oprops.size) &&
                              |oprops.parrays| == old(|rhs.oprops.parrays|)
      ensures rhs != this ==> forall k :: 0 <= k < |oprops.parrays| ==>
                                oprops.parrays[k] == old(rhs.oprops.parrays[k]).(id := oprops.parrays[k].id)
    {
      if rhs != this {
        var g := rhs.garbage;
        if rhs.oprops != oprops {
          oprops.Assign(rhs.oprops);
        }
        garbage := g;
      }
    }

    /// `assign(rhs)`: no object property is copied; one empty slot remains.
    method Assign(rhs: GeometryObject)
      requires Valid()
      modifies oprops
      ensures Valid()
      ensures rhs == this ==> oprops.parrays == old(oprops.parrays) && oprops.size == old(oprops.size)
      ensures rhs != this ==> oprops.size == 1 && oprops.parrays == []
    {
      if rhs != this {
        Clear();
      }
    }

    /// `setGarbage()`.
    method SetGarbage()
      modifies this
      ensures garbage && garbageProps == old(garbageProps)
    {
      garbage := true;
    }

    /// The first statement of `garbageCollection()`: the scratch map is emptied.
    method ClearGarbageProps()
      modifies this
      ensures garbageProps == map[] && garbage == old(garbage)
    {
      garbageProps := map[];
    }

    /// The base `finalizeGarbage()`: no garbage is left.
    method FinalizeGarbage()
      modifies this
      ensures !garbage && garbageProps == old(garbageProps)
    {
      garbage := false;
    }

    /// `m_garbageprops[key] = value`.
    method Store(key: string, value: int)
      modifies this
      ensures garbageProps == old(garbageProps)[key := value] && garbage == old(garbage)
    {
      garbageProps := garbageProps[key := value];
    }

    /// `m_garbageprops[key]` on read; a missing key is inserted with 0.
    method Fetch(key: string) returns (v: int)
      modifies this
      ensures v == Lookup(old(garbageProps), key)
      ensures garbageProps == old(garbageProps)[key := v] && garbage == old(garbage)
    {
      v := Lookup(garbageProps, key);
      garbageProps := garbageProps[key := v];
    }
  }
}
