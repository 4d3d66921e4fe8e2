/// The indexed binary min-heap that orders the decimation candidates
/// (class `Heap` of decimation.cpp).  Entries are vertex handles.  The heap
/// compares them by a priority it reads from a vertex property, and it keeps
/// every stored vertex's slot in a second vertex property, -1 for a vertex
/// that is not stored.  Upheap and downheap carry the moving entry in a hole
/// and write it back once, as the source does.
module DecimationHeap {
  import Compaction

  /// The slot value of a vertex that is not in the heap.
  const NotStored: int := -1

  // ---- slot arithmetic of the implicit tree

  function Parent(i: nat): nat
    requires i > 0
  {
    (i - 1) / 2
  }

  function Left(i: nat): nat { 2 * i + 1 }

  function Right(i: nat): nat { 2 * i + 2 }

  /// `parent(left(i)) == i` and `parent(right(i)) == i`, and conversely every
  /// slot but the root is the left or the right child of its parent.
  lemma ParentIs(j: nat, i: nat)
    requires j > 0
    ensures Parent(j) == i <==> j == Left(i) || j == Right(i)
    ensures Parent(j) < j
  {
  }

  // ---- the heap condition on a sequence of entries

  /// Every entry has a priority.
  predicate Keyed(es: seq<nat>, prio: seq<int>)
  {
    forall i :: 0 <= i < |es| ==> es[i] < |prio|
  }

  /// No child has a smaller priority than its parent, except possibly the
  /// entry at slot k against its parent.
  predicate OrderedBut(es: seq<nat>, prio: seq<int>, k: nat)
  {
    Keyed(es, prio) &&
    forall j :: 0 < j < |es| && j != k ==> prio[es[Parent(j)]] <= prio[es[j]]
  }

  /// The heap condition itself, which `check()` tests.
  predicate HeapOrdered(es: seq<nat>, prio: seq<int>)
  {
    OrderedBut(es, prio, 0)
  }

  /// The heap condition on every pair of slots that does not involve slot k.
  predicate OrderedAround(es: seq<nat>, prio: seq<int>, k: nat)
  {
    Keyed(es, prio) &&
    forall j :: 0 < j < |es| && j != k && Parent(j) != k ==> prio[es[Parent(j)]] <= prio[es[j]]
  }

  /// The parent of slot k is no larger than the children of slot k: what
  /// lets the entry at k move either way.
  predicate Bridge(es: seq<nat>, prio: seq<int>, k: nat)
    requires Keyed(es, prio)
  {
    k > 0 ==>
      (Left(k) < |es| ==> prio[es[Parent(k)]] <= prio[es[Left(k)]]) &&
      (Right(k) < |es| ==> prio[es[Parent(k)]] <= prio[es[Right(k)]])
  }

  /// The downheap hole at slot idx, started from slot k: the pairs around
  /// the hole are ordered, and once the entry has moved it is no smaller
  /// than its new parent.
  predicate Sinking(es: seq<nat>, prio: seq<int>, k: nat, idx: nat)
  {
    idx < |es| && OrderedAround(es, prio, idx) && Bridge(es, prio, idx) &&
    (idx != k ==> idx > 0 && prio[es[Parent(idx)]] <= prio[es[idx]])
  }

  /// The root of an ordered heap has the smallest priority.
  lemma {:induction false} RootIsMinimum(es: seq<nat>, prio: seq<int>, i: nat)
    requires HeapOrdered(es, prio) && i < |es|
    ensures prio[es[0]] <= prio[es[i]]
    decreases i
  {
    if i > 0 {
      RootIsMinimum(es, prio, Parent(i));
    }
  }

  /// One upheap step: moving the parent down into the hole and the hole up
  /// keeps the upheap invariant one level higher.
  lemma UpStep(es: seq<nat>, prio: seq<int>, idx: nat)
    requires idx > 0 && idx < |es| && OrderedBut(es, prio, idx) && Bridge(es, prio, idx)
    requires prio[es[idx]] < prio[es[Parent(idx)]]
    ensures OrderedBut(Compaction.Swap(es, idx, Parent(idx)), prio, Parent(idx))
    ensures Bridge(Compaction.Swap(es, idx, Parent(idx)), prio, Parent(idx))
  {
    var p := Parent(idx);
    var es' := Compaction.Swap(es, idx, p);
    forall j | 0 < j < |es'| && j != p
      ensures prio[es'[Parent(j)]] <= prio[es'[j]]
    {
      ParentIs(j, p);
      ParentIs(j, idx);
      if Parent(j) == p {
        if j != idx {
          // the sibling of idx: h < old parent <= sibling
          assert es'[j] == es[j];
        }
      } else if Parent(j) == idx {
        ParentIs(j, idx);
      }
    }
    if p > 0 {
      ParentIs(idx, p);
      ParentIs(p, Parent(p));
      ParentIs(Left(p), p);
      ParentIs(Right(p), p);
      if Left(p) < |es'| && Left(p) != idx {
        assert prio[es[Parent(p)]] <= prio[es[p]] <= prio[es[Left(p)]];
      }
      if Right(p) < |es'| && Right(p) != idx {
        assert prio[es[Parent(p)]] <= prio[es[p]] <= prio[es[Right(p)]];
      }
    }
  }

  /// One downheap step: moving the smaller child up into the hole and the
  /// hole down keeps the downheap invariant one level lower.
  lemma DownStep(es: seq<nat>, prio: seq<int>, k: nat, idx: nat, c: nat)
    requires Sinking(es, prio, k, idx) && k <= idx
    requires c < |es| && (c == Left(idx) || c == Right(idx))
    requires Left(idx) < |es| && Left(idx) != c ==> prio[es[c]] <= prio[es[Left(idx)]]
    requires Right(idx) < |es| && Right(idx) != c ==> prio[es[c]] <= prio[es[Right(idx)]]
    requires prio[es[c]] <= prio[es[idx]]
    ensures Sinking(Compaction.Swap(es, idx, c), prio, k, c)
  {
    var es' := Compaction.Swap(es, idx, c);
    ParentIs(c, idx);
    forall j | 0 < j < |es'| && j != c && Parent(j) != c
      ensures prio[es'[Parent(j)]] <= prio[es'[j]]
    {
      ParentIs(j, idx);
      if j == idx {
        ParentIs(idx, Parent(idx));
      }
    }
    if Left(c) < |es'| {
      ParentIs(Left(c), c);
    }
    if Right(c) < |es'| {
      ParentIs(Right(c), c);
    }
  }

  /// Where downheap stops, the entry is no larger than its children, so the
  /// sequence is ordered but for slot k, with the bridge at k.
  lemma DownDone(es: seq<nat>, prio: seq<int>, k: nat, idx: nat)
    requires Sinking(es, prio, k, idx) && k <= idx
    requires Left(idx) < |es| ==> prio[es[idx]] <= prio[es[Left(idx)]]
    requires Right(idx) < |es| ==> prio[es[idx]] <= prio[es[Right(idx)]]
    ensures OrderedBut(es, prio, k) && Bridge(es, prio, k)
  {
    forall j | 0 < j < |es| && j != k
      ensures prio[es[Parent(j)]] <= prio[es[j]]
    {
      ParentIs(j, idx);
    }
    if idx != k && k > 0 {
      ParentIs(k, Parent(k));
      if Left(k) < |es| {
        ParentIs(Left(k), k);
        assert prio[es[Parent(k)]] <= prio[es[k]] <= prio[es[Left(k)]];
      }
      if Right(k) < |es| {
        ParentIs(Right(k), k);
        assert prio[es[Parent(k)]] <= prio[es[k]] <= prio[es[Right(k)]];
      }
    }
  }

  /// Moving the last entry into slot p and dropping the last slot removes
  /// exactly the entry that was at p.
  lemma DropSlot(s: seq<nat>, p: nat)
    requires p < |s|
    ensures multiset(s[p := s[|s| - 1]][..|s| - 1]) == multiset(s) - multiset{s[p]}
  {
    var n := |s| - 1;
    assert s == s[..n] + [s[n]];
    if p < n {
      assert s[p := s[n]][..n] == s[..n][p := s[n]];
    } else {
      assert s[p := s[n]][..n] == s[..n];
    }
  }

  /// In a positioned vector, the entry dropped from slot p occurs nowhere
  /// in what remains.
  lemma DroppedAbsent(es: seq<nat>, pos: seq<int>, p: nat)
    requires Positioned(es, pos) && p < |es|
    ensures es[p] !in es[p := es[|es| - 1]][..|es| - 1]
  {
  }

  /// Sequences with the same multiset have the same members.
  lemma SameMembers(s: seq<nat>, t: seq<nat>)
    requires multiset(s) == multiset(t)
    ensures forall v :: v in s <==> v in t
  {
    forall v
      ensures v in s <==> v in t
    {
      if v in s {
        assert v in multiset(s);
      }
      if v in t {
        assert v in multiset(t);
      }
    }
  }

  /// Each stored vertex records its own slot.
  predicate Positioned(es: seq<nat>, pos: seq<int>)
  {
    forall i :: 0 <= i < |es| ==> es[i] < |pos| && pos[es[i]] == i
  }

  /// The parent-child pairs whose parent slot is below i are ordered: what
  /// the loop of `check()` has established after i rounds.
  predicate CheckedBelow(es: seq<nat>, prio: seq<int>, i: nat)
    requires Keyed(es, prio)
  {
    forall j :: 0 < j < |es| && Parent(j) < i ==> prio[es[Parent(j)]] <= prio[es[j]]
  }

  /// The sift loops' picture: view is the entry vector with the moving
  /// entry h written into the hole idx; every other slot of view is recorded
  /// in pos, and only entries of es0 have had their slot changed.
  ghost predicate Hole(es0: seq<nat>, pos0: seq<int>, view: seq<nat>, es: seq<nat>, pos: seq<int>, idx: nat, h: nat)
  {
    |es| == |view| == |es0| && idx < |view| && |pos| == |pos0| && h < |pos| && h in es0 &&
    view == es[idx := h] && multiset(view) == multiset(es0) &&
    (forall i :: 0 <= i < |es| ==> es[i] < |pos|) &&
    (forall v :: v in view <==> v in es0) &&
    (forall i :: 0 <= i < |view| ==> view[i] < |pos|) &&
    (forall i :: 0 <= i < |view| && i != idx ==> pos[view[i]] == i && view[i] != h) &&
    (forall v :: 0 <= v < |pos| && v !in es0 ==> pos[v] == pos0[v])
  }

  /// Moving the entry at slot c into the hole idx (and its slot record with
  /// it) moves the hole to c.
  lemma HoleMove(es0: seq<nat>, pos0: seq<int>, view: seq<nat>, es: seq<nat>, pos: seq<int>, idx: nat, h: nat, c: nat)
    requires Hole(es0, pos0, view, es, pos, idx, h) && c < |es| && c != idx
    ensures Hole(es0, pos0, Compaction.Swap(view, idx, c), es[idx := es[c]], pos[es[c] := idx], c, h)
  {
    Compaction.SwapMultiset(view, idx, c);
    SameMembers(view, Compaction.Swap(view, idx, c));
    assert es[c] == view[c];
  }

  /// Writing h back into the hole leaves a positioned vector.
  lemma HoleClose(es0: seq<nat>, pos0: seq<int>, view: seq<nat>, es: seq<nat>, pos: seq<int>, idx: nat, h: nat)
    requires Hole(es0, pos0, view, es, pos, idx, h)
    ensures es[idx := h] == view && Positioned(view, pos[h := idx])
    ensures forall v :: 0 <= v < |pos0| && v !in es0 ==> pos[h := idx][v] == pos0[v]
  {
  }

  /// `upheap(k)` on the entry vector es0 and the slot property pos0: the
  /// entry at k rises while it is smaller than its parent.  Its own slot is
  /// written once, at the end; until then it is -1 (a new entry) or k.
  method Upheap(es0: seq<nat>, pos0: seq<int>, k: nat, prio: seq<int>) returns (es: seq<nat>, pos: seq<int>)
    requires k < |es0| && |prio| == |pos0|
    requires forall i :: 0 <= i < |es0| ==> es0[i] < |pos0|
    requires forall i :: 0 <= i < |es0| && i != k ==> pos0[es0[i]] == i
    requires pos0[es0[k]] == NotStored || pos0[es0[k]] == k
    requires OrderedBut(es0, prio, k) && Bridge(es0, prio, k)
    ensures Positioned(es, pos) && HeapOrdered(es, prio)
    ensures |es| == |es0| && multiset(es) == multiset(es0) && |pos| == |pos0|
    ensures forall v :: 0 <= v < |pos0| && v !in es0 ==> pos[v] == pos0[v]
  {
    var h := es0[k];
    var idx := k;
    es, pos := es0, pos0;
    ghost var view := es0;
    assert es0[k := h] == es0;
    while idx > 0 && prio[h] < prio[es[Parent(idx)]]
      invariant idx <= k && Hole(es0, pos0, view, es, pos, idx, h)
      invariant OrderedBut(view, prio, idx) && Bridge(view, prio, idx)
    {
      var p := Parent(idx);
      UpStep(view, prio, idx);
      HoleMove(es0, pos0, view, es, pos, idx, h, p);
      view := Compaction.Swap(view, idx, p);
      var moved := es[p];
      es := es[idx := moved];
      pos := pos[moved := idx];
      idx := p;
    }
    HoleClose(es0, pos0, view, es, pos, idx, h);
    es := es[idx := h];
    pos := pos[h := idx];
  }

  /// `downheap(k)`: the entry at k sinks below its smaller child while it is
  /// not smaller than that child.
  method Downheap(es0: seq<nat>, pos0: seq<int>, k: nat, prio: seq<int>) returns (es: seq<nat>, pos: seq<int>)
    requires k < |es0| && Positioned(es0, pos0) && |prio| == |pos0|
    requires OrderedAround(es0, prio, k) && Bridge(es0, prio, k)
    ensures Positioned(es, pos) && OrderedBut(es, prio, k) && Bridge(es, prio, k)
    ensures |es| == |es0| && multiset(es) == multiset(es0) && |pos| == |pos0|
    ensures forall v :: 0 <= v < |pos0| && v !in es0 ==> pos[v] == pos0[v]
  {
    var h := es0[k];
    var idx := k;
    var s := |es0|;
    es, pos := es0, pos0;
    ghost var view := es0;
    assert es0[k := h] == es0;
    while idx < s
      invariant k <= idx && s == |es| && Hole(es0, pos0, view, es, pos, idx, h)
      invariant Sinking(view, prio, k, idx)
      decreases s - idx
    {
      var childIdx := Left(idx);
      if childIdx >= s {
        break;
      }
      if childIdx + 1 < s && prio[es[childIdx + 1]] < prio[es[childIdx]] {
        childIdx := childIdx + 1;
      }
      if prio[h] < prio[es[childIdx]] {
        break;
      }
      DownStep(view, prio, k, idx, childIdx);
      HoleMove(es0, pos0, view, es, pos, idx, h, childIdx);
      view := Compaction.Swap(view, idx, childIdx);
      var moved := es[childIdx];
      es := es[idx := moved];
      pos := pos[moved := idx];
      idx := childIdx;
    }
    DownDone(view, prio, k, idx);
    HoleClose(es0, pos0, view, es, pos, idx, h);
    es := es[idx := h];
    pos := pos[h := idx];
  }

  /// `downheap(p)` then `upheap(p)`, the repair of `remove` and `update`.
  method Resift(es0: seq<nat>, pos0: seq<int>, p: nat, prio: seq<int>) returns (es: seq<nat>, pos: seq<int>)
    requires p < |es0| && Positioned(es0, pos0) && |prio| == |pos0|
    requires OrderedAround(es0, prio, p) && Bridge(es0, prio, p)
    ensures Positioned(es, pos) && HeapOrdered(es, prio)
    ensures |es| == |es0| && multiset(es) == multiset(es0) && |pos| == |pos0|
    ensures forall v :: 0 <= v < |pos0| && v !in es0 ==> pos[v] == pos0[v]
  {
    var es1, pos1 := Downheap(es0, pos0, p, prio);
    SameMembers(es0, es1);
    es, pos := Upheap(es1, pos1, p, prio);
  }

  /// The body of `remove`: unrecord the entry at slot p, move the last
  /// entry into p and let it sink, then rise.
  method Unstore(es0: seq<nat>, pos0: seq<int>, p: nat, prio: seq<int>) returns (es: seq<nat>, pos: seq<int>)
    requires Positioned(es0, pos0) && HeapOrdered(es0, prio) && |prio| == |pos0| && p < |es0|
    ensures Positioned(es, pos) && HeapOrdered(es, prio)
    ensures multiset(es) == multiset(es0) - multiset{es0[p]}
    ensures |es| == |es0| - 1 && |pos| == |pos0|
    ensures pos[es0[p]] == NotStored
    ensures forall v :: 0 <= v < |pos0| && v != es0[p] && v !in es ==> pos[v] == pos0[v]
  {
    var h := es0[p];
    var n := |es0|;
    DropSlot(es0, p);
    DroppedAbsent(es0, pos0, p);
    var slots := pos0[h := NotStored];
    if p == n - 1 {
      es, pos := es0[..n - 1], slots;
    } else {
      var last := es0[n - 1];
      var rest := es0[p := last][..n - 1];
      slots := slots[last := p];
      assert rest[p] == last;
      BridgeOfOrdered(es0, prio, p);
      es, pos := Resift(rest, slots, p, prio);
      SameMembers(rest, es);
    }
  }

  /// The body of `pop_front()`: unrecord the root, move the last entry
  /// into slot 0 and let it sink.
  method PopRoot(es0: seq<nat>, pos0: seq<int>, prio: seq<int>) returns (es: seq<nat>, pos: seq<int>)
    requires Positioned(es0, pos0) && HeapOrdered(es0, prio) && |prio| == |pos0| && |es0| > 0
    ensures Positioned(es, pos) && HeapOrdered(es, prio)
    ensures multiset(es) == multiset(es0) - multiset{es0[0]}
    ensures |es| == |es0| - 1 && |pos| == |pos0|
    ensures pos[es0[0]] == NotStored
    ensures forall v :: 0 <= v < |pos0| && v != es0[0] && v !in es ==> pos[v] == pos0[v]
  {
    var front := es0[0];
    var n := |es0|;
    DropSlot(es0, 0);
    var slots := pos0[front := NotStored];
    if n > 1 {
      var last := es0[n - 1];
      var rest := es0[0 := last][..n - 1];
      slots := slots[last := 0];
      assert rest[0] == last;
      BridgeOfOrdered(es0, prio, 0);
      es, pos := Downheap(rest, slots, 0, prio);
      SameMembers(rest, es);
    } else {
      es, pos := es0[..n - 1], slots;
    }
  }

  /// The recorded slot of v agrees with the entries: -1 exactly when v is not
  /// stored.
  predicate TrackedIn(es: seq<nat>, pos: seq<int>, v: nat)
  {
    v < |pos| && (pos[v] == NotStored || (0 <= pos[v] < |es| && es[pos[v]] == v))
  }

  /// A vertex stays tracked across a heap operation when it is stored
  /// afterwards, when its slot was cleared, or when it was not stored before
  /// and its slot was left alone.
  lemma StillTracked(es0: seq<nat>, pos0: seq<int>, es: seq<nat>, pos: seq<int>, v: nat)
    requires TrackedIn(es0, pos0, v) && Positioned(es, pos) && |pos| == |pos0|
    requires v in es || pos[v] == NotStored || (v !in es0 && pos[v] == pos0[v])
    ensures TrackedIn(es, pos, v)
  {
    if v in es {
      var i :| 0 <= i < |es| && es[i] == v;
      assert pos[es[i]] == i;
    }
  }

  /// A stored vertex's slot holds it; a vertex with slot -1 is not stored.
  lemma SlotOf(es: seq<nat>, pos: seq<int>, v: nat)
    requires Positioned(es, pos) && v < |pos|
    ensures v in es ==> 0 <= pos[v] < |es| && es[pos[v]] == v
    ensures pos[v] == NotStored ==> v !in es
  {
    if v in es {
      var i :| 0 <= i < |es| && es[i] == v;
      assert pos[es[i]] == i;
    }
  }

  /// The order of the heap reads only the priorities of stored entries.
  lemma OrderIgnoresUnstored(es: seq<nat>, q: seq<int>, prio: seq<int>)
    requires HeapOrdered(es, q) && |q| == |prio|
    requires forall i :: 0 <= i < |es| ==> q[es[i]] == prio[es[i]]
    ensures HeapOrdered(es, prio)
  {
    forall j | 0 < j < |es|
      ensures prio[es[Parent(j)]] <= prio[es[j]]
    {
      assert q[es[Parent(j)]] <= q[es[j]];
    }
  }

  class Heap {
    var entries: seq<nat>
    /// The "v:heap" vertex property: each vertex's slot, or -1.
    var pos: seq<int>

    ghost predicate Valid()
      reads this
    {
      Positioned(entries, pos)
    }

    /// The recorded slot of v agrees with the heap: -1 exactly when v is not
    /// stored.  Slots of vertices never reset keep the property's default.
    ghost predicate Tracked(v: nat)
      reads this
    {
      TrackedIn(entries, pos, v)
    }

    /// A heap over n vertices whose slot property was just added, so every
    /// slot holds the default 0.
    constructor (n: nat)
      ensures Valid() && entries == [] && pos == seq(n, _ => 0)
    {
      entries := [];
      pos := seq(n, _ => 0);
    }

    /// `clear()`: drops the entries; the slot property is left as it is.
    method Clear()
      modifies this
      ensures entries == [] && pos == old(pos)
    {
      entries := [];
    }

    /// `reset_heap_position(h)`.
    method ResetHeapPosition(h: nat)
      requires h < |pos|
      modifies this
      ensures entries == old(entries) && pos == old(pos)[h := NotStored]
    {
      pos := pos[h := NotStored];
    }

    /// `is_stored(h)`: the recorded slot is not -1.
    method IsStored(h: nat) returns (r: bool)
      requires Valid() && Tracked(h)
      ensures r <==> h in entries
    {
      r := pos[h] != NotStored;
    }

    /// `front()`: an entry of smallest priority.
    method Front(ghost prio: seq<int>) returns (h: nat)
      requires |entries| > 0 && HeapOrdered(entries, prio)
      ensures h == entries[0]
      ensures forall i :: 0 <= i < |entries| ==> prio[h] <= prio[entries[i]]
    {
      h := entries[0];
      forall i | 0 <= i < |entries|
        ensures prio[h] <= prio[entries[i]]
      {
        RootIsMinimum(entries, prio, i);
      }
    }

    /// `insert(h)`: append h and let it rise.
    method Insert(h: nat, prio: seq<int>)
      requires Valid() && HeapOrdered(entries, prio) && |prio| == |pos|
      requires h < |pos| && pos[h] == NotStored
      modifies this
      ensures Valid() && HeapOrdered(entries, prio)
      ensures multiset(entries) == old(multiset(entries)) + multiset{h}
      ensures |entries| == old(|entries|) + 1 && |pos| == old(|pos|)
      ensures forall v :: 0 <= v < |pos| && v !in entries ==> pos[v] == old(pos[v])
    {
      var grown := entries + [h];
      entries, pos := Upheap(grown, pos, |grown| - 1, prio);
      SameMembers(grown, entries);
    }

    /// `pop_front()`: unrecord the front entry, move the last entry to the
    /// root and let it sink.
    method PopFront(prio: seq<int>)
      requires Valid() && HeapOrdered(entries, prio) && |prio| == |pos| && |entries| > 0
      modifies this
      ensures Valid() && HeapOrdered(entries, prio)
      ensures multiset(entries) == old(multiset(entries)) - multiset{old(entries[0])}
      ensures |entries| == old(|entries|) - 1 && |pos| == old(|pos|)
      ensures pos[old(entries[0])] == NotStored
      ensures forall v :: 0 <= v < |pos| && v != old(entries[0]) && v !in entries ==> pos[v] == old(pos[v])
    {
      entries, pos := PopRoot(entries, pos, prio);
    }

    /// `remove(h)`: unrecord the stored h, move the last entry into its slot
    /// and let that entry sink, then rise.
    method Remove(h: nat, prio: seq<int>)
      requires Valid() && HeapOrdered(entries, prio) && |prio| == |pos|
      requires Tracked(h) && pos[h] != NotStored
      modifies this
      ensures Valid() && HeapOrdered(entries, prio)
      ensures multiset(entries) == old(multiset(entries)) - multiset{h}
      ensures |entries| == old(|entries|) - 1 && |pos| == old(|pos|)
      ensures pos[h] == NotStored
      ensures forall v :: 0 <= v < |pos| && v != h && v !in entries ==> pos[v] == old(pos[v])
    {
      entries, pos := Unstore(entries, pos, pos[h], prio);
    }

    /// `update(h)`: after the priority of the stored h changed (from the
    /// order q to prio), let it sink, then rise.
    method Update(h: nat, prio: seq<int>, ghost q: seq<int>)
      requires Valid() && HeapOrdered(entries, q) && |prio| == |pos| == |q|
      requires forall v :: 0 <= v < |q| && v != h ==> q[v] == prio[v]
      requires Tracked(h) && pos[h] != NotStored
      modifies this
      ensures Valid() && HeapOrdered(entries, prio)
      ensures multiset(entries) == old(multiset(entries))
      ensures |entries| == old(|entries|) && |pos| == old(|pos|)
      ensures forall v :: 0 <= v < |pos| && v !in entries ==> pos[v] == old(pos[v])
    {
      var p: nat := pos[h];
      var before := entries;
      BridgeOfOrdered(entries, q, p);
      Reweighed(entries, q, prio, p);
      entries, pos := Resift(entries, pos, p, prio);
      SameMembers(before, entries);
    }

    /// `check()`: every parent is no larger than each of its children.
    method Check(prio: seq<int>) returns (ok: bool)
      requires Valid() && |prio| == |pos|
      ensures ok <==> HeapOrdered(entries, prio)
    {
      ok := true;
      var i := 0;
      while i < |entries|
        invariant 0 <= i <= |entries|
        invariant ok <==> CheckedBelow(entries, prio, i)
      {
        ParentIs(Left(i), i);
        ParentIs(Right(i), i);
        var j := Left(i);
        if j < |entries| && prio[entries[i]] > prio[entries[j]] {
          ok := false;
        }
        j := Right(i);
        if j < |entries| && prio[entries[i]] > prio[entries[j]] {
          ok := false;
        }
        forall j | 0 < j < |entries| {
          ParentIs(j, i);
        }
        i := i + 1;
      }
    }
  }

  /// In an ordered sequence, the slot p may receive any entry: the pairs not
  /// involving p stay ordered and p's parent is no larger than p's children.
  lemma BridgeOfOrdered(es: seq<nat>, prio: seq<int>, p: nat)
    requires HeapOrdered(es, prio) && p < |es|
    ensures OrderedAround(es[p := es[|es| - 1]][..|es| - 1], prio, p)
    ensures Bridge(es[p := es[|es| - 1]][..|es| - 1], prio, p)
    ensures OrderedAround(es, prio, p) && Bridge(es, prio, p)
  {
    if p > 0 {
      ParentIs(p, Parent(p));
      if Left(p) < |es| {
        ParentIs(Left(p), p);
      }
      if Right(p) < |es| {
        ParentIs(Right(p), p);
      }
    }
  }

  /// Changing the priority of the entry at p only can break the pairs that
  /// involve p.
  lemma Reweighed(es: seq<nat>, q: seq<int>, prio: seq<int>, p: nat)
    requires p < |es| && |q| == |prio| && OrderedAround(es, q, p) && Bridge(es, q, p)
    requires forall v :: 0 <= v < |q| && v != es[p] ==> q[v] == prio[v]
    requires forall i :: 0 <= i < |es| && i != p ==> es[i] != es[p]
    ensures OrderedAround(es, prio, p) && Bridge(es, prio, p)
  {
  }
}
