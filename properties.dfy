/// The property store: a container of named, typed, dense arrays that are
/// resized, extended and permuted in lockstep.  Every element kind of a mesh
/// (vertices, halfedges, edges, faces) owns one such container; the
/// connectivity records and deletion flags are ordinary entries of it.
module Properties {
  import opened Wrappers
  import Compaction

  /// Stands for the `std::type_info` of an array's element type.
  type TypeTag = nat

  /// `typeid(void)`, which `get_type` reports for an absent name.
  const VoidType: TypeTag := 0

  /// One `PropertyArray<T>`: its identity (the heap address the container
  /// holds), its name, its element type, its default value and its data.
  /// All arrays of one container store values of one carrier type T; the
  /// element type proper is the tag `ty`.
  datatype PropertyArray<T> = PropertyArray(id: nat, name: string, ty: TypeTag, default: T, data: seq<T>)

  /// A `Property<T>` handle: a pointer to an array, or null.
  datatype Property = Null | Property(id: nat)

  /// `std::vector::resize(n, value)`: truncate, or extend with copies of value.
  function Resized<T>(data: seq<T>, n: nat, value: T): (r: seq<T>)
    ensures |r| == n
    ensures forall i :: 0 <= i < n ==> r[i] == (if i < |data| then data[i] else value)
  {
    if n <= |data| then data[..n] else data + seq(n - |data|, _ => value)
  }

  /// Position of the first array called name, or |arrays| when there is none:
  /// the result of the name scans in `add`, `exists`, `get` and `get_type`.
  function IndexOf<T>(arrays: seq<PropertyArray<T>>, name: string): (r: nat)
    ensures r <= |arrays|
    ensures r < |arrays| ==> arrays[r].name == name
    ensures forall j :: 0 <= j < r ==> arrays[j].name != name
    decreases |arrays|
  {
    if arrays == [] then 0
    else if arrays[0].name == name then 0
    else 1 + IndexOf(arrays[1..], name)
  }

  /// What `get<T>(name)` returns: the array called name when its element type
  /// is T (the `dynamic_cast` succeeds), null otherwise.
  function Lookup<T>(arrays: seq<PropertyArray<T>>, name: string, ty: TypeTag): (p: Property)
    ensures p.Property? <==> exists k :: 0 <= k < |arrays| && k == IndexOf(arrays, name) && arrays[k].ty == ty
    ensures p.Property? ==> p.id == arrays[IndexOf(arrays, name)].id
  {
    var k := IndexOf(arrays, name);
    if k < |arrays| && arrays[k].ty == ty then Property(arrays[k].id) else Null
  }

  class PropertyContainer<T> {
    var parrays: seq<PropertyArray<T>>
    var size: nat
    /// Identities handed out so far; a new array receives a fresh one.
    var nextId: nat

    ghost predicate Valid()
      reads this
    {
      (forall k :: 0 <= k < |parrays| ==>
         |parrays[k].data| == size && parrays[k].id < nextId && parrays[k].ty != VoidType) &&
      (forall j, k :: 0 <= j < k < |parrays| ==>
         parrays[j].name != parrays[k].name && parrays[j].id != parrays[k].id)
    }

    constructor ()
      ensures Valid() && parrays == [] && size == 0
    {
      parrays, size, nextId := [], 0, 0;
    }

    /// `properties()`: the names of all arrays, in order.
    method Properties() returns (names: seq<string>)
      ensures |names| == |parrays|
      ensures forall k :: 0 <= k < |parrays| ==> names[k] == parrays[k].name
    {
      names := [];
      for k := 0 to |parrays|
        invariant |names| == k
        invariant forall j :: 0 <= j < k ==> names[j] == parrays[j].name
      {
        names := names + [parrays[k].name];
      }
    }

    /// The scan shared by `add`, `exists`, `get` and `get_type`.
    method Find(name: string) returns (k: nat)
      ensures k == IndexOf(parrays, name)
    {
      k := 0;
      while k < |parrays| && parrays[k].name != name
        invariant k <= |parrays|
        invariant forall j :: 0 <= j < k ==> parrays[j].name != name
      {
        k := k + 1;
      }
      IndexOfIsFirst(parrays, name, k);
    }

    /// `add(name, t)`: refuse an existing name, whatever its type; otherwise
    /// append an array of the current size filled with the default value.
    method Add(name: string, ty: TypeTag, default: T) returns (p: Property)
      requires Valid() && ty != VoidType
      modifies this
      ensures Valid() && size == old(size)
      ensures old(IndexOf(parrays, name)) < old(|parrays|) ==>
        p == Null && parrays == old(parrays) && nextId == old(nextId)
      ensures old(IndexOf(parrays, name)) == old(|parrays|) ==>
        p == Property(old(nextId)) && nextId == old(nextId) + 1 &&
        parrays == old(parrays) + [PropertyArray(old(nextId), name, ty, default, seq(size, _ => default))]
    {
      var k := Find(name);
      if k < |parrays| {
        return Null;
      }
      var a := PropertyArray(nextId, name, ty, default, seq(size, _ => default));
      parrays := parrays + [a];
      p := Property(nextId);
      nextId := nextId + 1;
    }

    /// `exists(name)`.
    method Exists(name: string) returns (b: bool)
      ensures b <==> exists k :: 0 <= k < |parrays| && parrays[k].name == name
    {
      var k := Find(name);
      b := k < |parrays|;
    }

    /// `get<T>(name)`.
    method Get(name: string, ty: TypeTag) returns (p: Property)
      ensures p == Lookup(parrays, name, ty)
    {
      var k := Find(name);
      if k < |parrays| && parrays[k].ty == ty {
        p := Property(parrays[k].id);
      } else {
        p := Null;
      }
    }

    /// `get_or_add<T>(name, t)`.
    method GetOrAdd(name: string, ty: TypeTag, default: T) returns (p: Property)
      requires Valid() && ty != VoidType
      modifies this
      ensures Valid() && size == old(size)
      ensures old(Lookup(parrays, name, ty)).Property? ==>
        p == old(Lookup(parrays, name, ty)) && parrays == old(parrays)
      ensures old(IndexOf(parrays, name)) < old(|parrays|) && old(Lookup(parrays, name, ty)) == Null ==>
        p == Null && parrays == old(parrays)
      ensures old(IndexOf(parrays, name)) == old(|parrays|) ==>
        p == Property(old(nextId)) &&
        parrays == old(parrays) + [PropertyArray(old(nextId), name, ty, default, seq(size, _ => default))]
    {
      p := Get(name, ty);
      if p == Null {
        p := Add(name, ty, default);
      }
    }

    /// `get_type(name)`.
    method GetType(name: string) returns (t: TypeTag)
      requires Valid()
      ensures t == VoidType <==> forall k :: 0 <= k < |parrays| ==> parrays[k].name != name
      ensures t != VoidType ==> t == parrays[IndexOf(parrays, name)].ty
    {
      var k := Find(name);
      t := if k < |parrays| then parrays[k].ty else VoidType;
    }

    /// `remove(h)`: delete the array h points to, if any, and reset h.
    method Remove(h: Property) returns (h': Property)
      requires Valid()
      modifies this
      ensures Valid() && size == old(size) && nextId == old(nextId)
      ensures (h.Property? && exists k :: 0 <= k < old(|parrays|) && old(parrays[k].id) == h.id) ==>
        h' == Null && |parrays| == old(|parrays|) - 1 &&
        exists k :: 0 <= k < old(|parrays|) && old(parrays[k].id) == h.id &&
          parrays == old(parrays[..k]) + old(parrays[k + 1..])
      ensures !(h.Property? && exists k :: 0 <= k < old(|parrays|) && old(parrays[k].id) == h.id) ==>
        h' == h && parrays == old(parrays)
    {
      h' := h;
      if h.Null? {
        return;
      }
      var k := 0;
      while k < |parrays| && parrays[k].id != h.id
        invariant k <= |parrays|
        invariant forall j :: 0 <= j < k ==> parrays[j].id != h.id
      {
        k := k + 1;
      }
      if k < |parrays| {
        ghost var was := parrays;
        parrays := parrays[..k] + parrays[k + 1..];
        h' := Null;
        assert forall j :: 0 <= j < |parrays| ==> parrays[j] == (if j < k then was[j] else was[j + 1]);
      }
    }

    /// `clear()`: delete every array and set the size to 0.
    method Clear()
      modifies this
      ensures Valid() && parrays == [] && size == 0 && nextId == old(nextId)
    {
      parrays := [];
      size := 0;
    }

    /// `resize(n)` on every array.
    method Resize(n: nat)
      requires Valid()
      modifies this
      ensures Valid() && size == n && nextId == old(nextId) && |parrays| == old(|parrays|)
      ensures forall k :: 0 <= k < |parrays| ==>
        parrays[k] == old(parrays[k]).(data := Resized(old(parrays[k].data), n, old(parrays[k].default)))
    {
      for k := 0 to |parrays|
        invariant |parrays| == old(|parrays|) && size == old(size) && nextId == old(nextId)
        invariant forall j :: 0 <= j < k ==>
          parrays[j] == old(parrays[j]).(data := Resized(old(parrays[j].data), n, old(parrays[j].default)))
        invariant forall j :: k <= j < |parrays| ==> parrays[j] == old(parrays[j])
      {
        var a := parrays[k];
        parrays := parrays[k := a.(data := Resized(a.data, n, a.default))];
      }
      size := n;
    }

    /// `push_back()`: one more slot holding the default in every array.
    method PushBack()
      requires Valid()
      modifies this
      ensures Valid() && size == old(size) + 1 && nextId == old(nextId) && |parrays| == old(|parrays|)
      ensures forall k :: 0 <= k < |parrays| ==>
        parrays[k] == old(parrays[k]).(data := old(parrays[k].data) + [old(parrays[k].default)])
    {
      for k := 0 to |parrays|
        invariant |parrays| == old(|parrays|) && size == old(size) && nextId == old(nextId)
        invariant forall j :: 0 <= j < k ==>
          parrays[j] == old(parrays[j]).(data := old(parrays[j].data) + [old(parrays[j].default)])
        invariant forall j :: k <= j < |parrays| ==> parrays[j] == old(parrays[j])
      {
        var a := parrays[k];
        parrays := parrays[k := a.(data := a.data + [a.default])];
      }
      size := size + 1;
    }

    /// `swap(i0, i1)` in every array, and nothing else.
    method Swap(i0: nat, i1: nat)
      requires Valid() && i0 < size && i1 < size
      modifies this
      ensures Valid() && size == old(size) && nextId == old(nextId) && |parrays| == old(|parrays|)
      ensures forall k :: 0 <= k < |parrays| ==>
        parrays[k] == old(parrays[k]).(data := Compaction.Swap(old(parrays[k].data), i0, i1))
    {
      for k := 0 to |parrays|
        invariant |parrays| == old(|parrays|) && size == old(size) && nextId == old(nextId)
        invariant forall j :: 0 <= j < k ==>
          parrays[j] == old(parrays[j]).(data := Compaction.Swap(old(parrays[j].data), i0, i1))
        invariant forall j :: k <= j < |parrays| ==> parrays[j] == old(parrays[j])
      {
        var a := parrays[k];
        parrays := parrays[k := a.(data := Compaction.Swap(a.data, i0, i1))];
      }
    }

    /// `operator=`: a deep copy; every array is cloned into a fresh one.
    method Assign(rhs: PropertyContainer<T>)
      requires Valid() && rhs.Valid()
      modifies this
      ensures Valid()
      ensures size == rhs.size && |parrays| == |rhs.parrays|
      ensures forall k :: 0 <= k < |parrays| ==>
        parrays[k] == rhs.parrays[k].(id := parrays[k].id)
      ensures rhs != this ==> forall k :: 0 <= k < |parrays| ==> parrays[k].id >= old(nextId)
    {
      if rhs == this {
        return;
      }
      var src := rhs.parrays;
      var copy: seq<PropertyArray<T>> := [];
      for k := 0 to |src|
        invariant |copy| == k
        invariant forall j :: 0 <= j < k ==> copy[j] == src[j].(id := nextId + j)
      {
        copy := copy + [src[k].(id := nextId + k)];
      }
      parrays, size, nextId := copy, rhs.size, nextId + |src|;
    }
  }

  lemma IndexOfIsFirst<T>(arrays: seq<PropertyArray<T>>, name: string, k: nat)
    requires k <= |arrays|
    requires k < |arrays| ==> arrays[k].name == name
    requires forall j :: 0 <= j < k ==> arrays[j].name != name
    ensures k == IndexOf(arrays, name)
  {
  }

  /// With distinct names, a lookup finds exactly the array of that name and
  /// type: `get` after a successful `add` returns the added array.
  lemma LookupUnique<T>(arrays: seq<PropertyArray<T>>, k: nat, ty: TypeTag)
    requires k < |arrays|
    requires forall i, j :: 0 <= i < j < |arrays| ==> arrays[i].name != arrays[j].name
    ensures IndexOf(arrays, arrays[k].name) == k
    ensures Lookup(arrays, arrays[k].name, ty) == if arrays[k].ty == ty then Property(arrays[k].id) else Null
  {
    IndexOfIsFirst(arrays, arrays[k].name, k);
  }

  /// A name that is absent before `add` is found, with its new array, after it.
  lemma LookupAfterAdd<T>(arrays: seq<PropertyArray<T>>, a: PropertyArray<T>)
    requires IndexOf(arrays, a.name) == |arrays|
    ensures IndexOf(arrays + [a], a.name) == |arrays|
    ensures Lookup(arrays + [a], a.name, a.ty) == Property(a.id)
  {
    IndexOfIsFirst(arrays + [a], a.name, |arrays|);
  }

  /// Exchanging the same two slots twice restores every array.
  lemma SwapTwice<T>(s: seq<T>, i: nat, j: nat)
    requires i < |s| && j < |s|
    ensures Compaction.Swap(Compaction.Swap(s, i, j), i, j) == s
  {
    var r := Compaction.Swap(Compaction.Swap(s, i, j), i, j);
    assert forall k :: 0 <= k < |s| ==> r[k] == s[k];
  }

  /// Resizing back to the old size after a push_back restores every array.
  lemma ResizeUndoesPushBack<T>(data: seq<T>, value: T)
    ensures Resized(data + [value], |data|, value) == data
    ensures Resized(data, |data| + 1, value) == data + [value]
  {
    assert (data + [value])[..|data|] == data;
  }
}
