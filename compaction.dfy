/// Two-pointer compaction of soft-deleted elements.
///
/// Every garbage collection in the kernel (vertices, edges with their
/// halfedge pairs, faces; in both the layered and the flat mesh) runs the
/// same loop: a front pointer stops at the first deleted slot, a back pointer
/// stops at the last surviving slot, and the two slots are exchanged in every
/// property array.  This module computes that list of exchanges once and
/// proves what applying it to an array does.  Because the map arrays
/// (initially the identity) are exchanged with everything else, and the
/// exchanges are disjoint transpositions, the map sends every old index to
/// the slot that now holds its data.
module Compaction {

  /// Number of set flags (the deleted count).
  function Count(flags: seq<bool>): nat
  {
    multiset(flags)[true]
  }

  /// Setting one flag raises the count by one, unless it was set already.
  lemma CountMark(flags: seq<bool>, i: nat)
    requires i < |flags|
    ensures Count(flags[i := true]) == Count(flags) + (if flags[i] then 0 else 1)
  {
  }

  /// One exchange of two slots.
  datatype Transposition = Transposition(lo: nat, hi: nat)

  predicate InBounds(sw: seq<Transposition>, n: nat)
  {
    forall k :: 0 <= k < |sw| ==> sw[k].lo < n && sw[k].hi < n
  }

  /// Exchange slots i and j, the `swap(i0, i1)` of one property array.
  function Swap<T>(s: seq<T>, i: nat, j: nat): (r: seq<T>)
    requires i < |s| && j < |s|
    ensures |r| == |s| && r[i] == s[j] && r[j] == s[i]
    ensures forall k :: 0 <= k < |s| && k != i && k != j ==> r[k] == s[k]
  {
    s[i := s[j]][j := s[i]]
  }

  lemma SwapMultiset<T>(s: seq<T>, i: nat, j: nat)
    requires i < |s| && j < |s|
    ensures multiset(Swap(s, i, j)) == multiset(s)
  {
    assert multiset(s[i := s[j]]) == multiset(s) - multiset{s[i]} + multiset{s[j]};
  }

  /// Applies the exchanges in order, first to last.
  function ApplySwaps<T>(s: seq<T>, sw: seq<Transposition>): (r: seq<T>)
    requires InBounds(sw, |s|)
    ensures |r| == |s|
    decreases |sw|
  {
    if sw == [] then s
    else
      var t := sw[|sw| - 1];
      Swap(ApplySwaps(s, sw[..|sw| - 1]), t.lo, t.hi)
  }

  lemma {:induction false} ApplyMultiset<T>(s: seq<T>, sw: seq<Transposition>)
    requires InBounds(sw, |s|)
    ensures multiset(ApplySwaps(s, sw)) == multiset(s)
    decreases |sw|
  {
    if sw != [] {
      var t := sw[|sw| - 1];
      ApplyMultiset(s, sw[..|sw| - 1]);
      SwapMultiset(ApplySwaps(s, sw[..|sw| - 1]), t.lo, t.hi);
    }
  }

  /// The image of p under one transposition.
  function Tau(t: Transposition, p: nat): nat
  {
    if p == t.lo then t.hi else if p == t.hi then t.lo else p
  }

  /// The slot whose old content ends up in slot p: the composed permutation.
  function Perm(sw: seq<Transposition>, p: nat): nat
    decreases |sw|
  {
    if sw == [] then p else Perm(sw[..|sw| - 1], Tau(sw[|sw| - 1], p))
  }

  predicate Touches(t: Transposition, p: nat)
  {
    t.lo == p || t.hi == p
  }

  /// No slot takes part in two exchanges, and no exchange is trivial.
  predicate Disjoint(sw: seq<Transposition>)
  {
    (forall a :: 0 <= a < |sw| ==> sw[a].lo != sw[a].hi) &&
    (forall a, b :: 0 <= a < b < |sw| ==>
       !Touches(sw[a], sw[b].lo) && !Touches(sw[a], sw[b].hi))
  }

  /// The shape produced by the two-pointer loop: the front slots increase,
  /// the back slots decrease, and each front slot lies before its back slot.
  predicate Monotone(sw: seq<Transposition>)
  {
    (forall a :: 0 <= a < |sw| ==> sw[a].lo < sw[a].hi) &&
    (forall a, b :: 0 <= a < b < |sw| ==> sw[a].lo < sw[b].lo && sw[b].hi < sw[a].hi)
  }

  lemma MonotoneDisjoint(sw: seq<Transposition>)
    requires Monotone(sw)
    ensures Disjoint(sw)
  {
  }

  lemma {:induction false} ApplyAt<T>(s: seq<T>, sw: seq<Transposition>, p: nat)
    requires InBounds(sw, |s|) && p < |s|
    ensures Perm(sw, p) < |s|
    ensures ApplySwaps(s, sw)[p] == s[Perm(sw, p)]
    decreases |sw|
  {
    if sw != [] {
      var t := sw[|sw| - 1];
      ApplyAt(s, sw[..|sw| - 1], Tau(t, p));
    }
  }

  lemma {:induction false} PermFixed(sw: seq<Transposition>, p: nat)
    requires forall k :: 0 <= k < |sw| ==> !Touches(sw[k], p)
    ensures Perm(sw, p) == p
    decreases |sw|
  {
    if sw != [] {
      PermFixed(sw[..|sw| - 1], p);
    }
  }

  /// Disjoint transpositions compose to an involution.
  lemma {:induction false} PermInvolution(sw: seq<Transposition>, p: nat)
    requires Disjoint(sw)
    ensures Perm(sw, Perm(sw, p)) == p
    decreases |sw|
  {
    if sw != [] {
      var init, t := sw[..|sw| - 1], sw[|sw| - 1];
      assert Disjoint(init);
      assert forall k :: 0 <= k < |init| ==> !Touches(init[k], t.lo) && !Touches(init[k], t.hi) by {
        forall k | 0 <= k < |init| ensures !Touches(init[k], t.lo) && !Touches(init[k], t.hi) {
          assert init[k] == sw[k];
        }
      }
      if Touches(t, p) {
        PermFixed(init, Tau(t, p));
        PermFixed(init, p);
      } else {
        var q := Perm(init, p);
        PermInvolution(init, p);
        if Touches(t, q) {
          PermFixed(init, q);
          assert false;
        }
      }
    }
  }

  /// The identity map of length n, the initial content of a map array.
  function Identity(n: nat): (r: seq<nat>)
    ensures |r| == n && forall k :: 0 <= k < n ==> r[k] == k
  {
    seq(n, k => k)
  }

  /// After the exchanges, slot Perm(sw, w) holds what slot w held, and the
  /// exchanged map array holds Perm(sw, w) at w: it maps old to new indices.
  lemma NewSlot<T>(s: seq<T>, sw: seq<Transposition>, w: nat)
    requires InBounds(sw, |s|) && Disjoint(sw) && w < |s|
    ensures Perm(sw, w) < |s|
    ensures ApplySwaps(s, sw)[Perm(sw, w)] == s[w]
    ensures ApplySwaps(Identity(|s|), sw)[w] == Perm(sw, w)
  {
    ApplyAt(s, sw, w);
    ApplyAt(s, sw, Perm(sw, w));
    PermInvolution(sw, w);
    ApplyAt(Identity(|s|), sw, w);
  }

  /// The permutation is a bijection of [0, n): distinct old slots get
  /// distinct new slots.
  lemma PermInjective(sw: seq<Transposition>, p: nat, q: nat)
    requires Disjoint(sw) && Perm(sw, p) == Perm(sw, q)
    ensures p == q
  {
    PermInvolution(sw, p);
    PermInvolution(sw, q);
  }

  /// Flags arranged as all survivors first, all deleted after.
  predicate Partitioned(flags: seq<bool>, n: nat)
  {
    n <= |flags| && forall k :: 0 <= k < |flags| ==> (flags[k] <==> n <= k)
  }

  lemma {:induction false} PartitionedCount(flags: seq<bool>, n: nat)
    requires Partitioned(flags, n)
    ensures Count(flags) == |flags| - n
    decreases |flags|
  {
    if |flags| > 0 {
      var init := flags[..|flags| - 1];
      assert flags == init + [flags[|flags| - 1]];
      if |flags| - 1 >= n {
        PartitionedCount(init, n);
      } else {
        assert n == |flags|;
        PartitionedCount(init, n - 1);
      }
    }
  }

  lemma AppendSwap<T>(s: seq<T>, sw: seq<Transposition>, t: Transposition)
    requires InBounds(sw, |s|) && t.lo < |s| && t.hi < |s|
    ensures InBounds(sw + [t], |s|)
    ensures ApplySwaps(s, sw + [t]) == Swap(ApplySwaps(s, sw), t.lo, t.hi)
  {
    assert (sw + [t])[..|sw|] == sw;
  }

  lemma AppendMonotone(sw: seq<Transposition>, t: Transposition)
    requires Monotone(sw) && t.lo < t.hi
    requires sw != [] ==> sw[|sw| - 1].lo < t.lo && t.hi < sw[|sw| - 1].hi
    ensures Monotone(sw + [t])
  {
  }

  /// The two-pointer loop.  It returns the exchanges it performs on the
  /// deletion flags (and, in the mesh, on every other array) and the new size.
  method TwoPointer(deleted: seq<bool>) returns (sw: seq<Transposition>, n: nat)
    ensures InBounds(sw, |deleted|) && Monotone(sw)
    ensures Partitioned(ApplySwaps(deleted, sw), n)
    ensures n == |deleted| - Count(deleted)
  {
    sw, n := [], 0;
    if |deleted| == 0 {
      return;
    }
    var flags := deleted;
    var i0: nat, i1: nat := 0, |deleted| - 1;
    while true
      invariant LoopInv(deleted, sw, flags, i0, i1)
      decreases 2 * (i1 - i0) + (if flags[i0] then 1 else 0)
    {
      ghost var start0, start1 := i0, i1;
      i0 := SkipSurvivors(flags, i0, i1);
      i1 := SkipDeleted(flags, i0, i1);
      if i0 >= i1 {
        n := if flags[i0] then i0 else i0 + 1;
        Finish(deleted, sw, flags, start0, start1, i0, n);
        return;
      }
      SwapStep(deleted, sw, flags, start0, start1, i0, i1);
      flags := Swap(flags, i0, i1);
      sw := sw + [Transposition(i0, i1)];
    }
  }

  /// The invariant of the outer loop: a window [i0, i1] whose left part holds
  /// survivors and whose right part holds deleted slots, reached by the
  /// recorded exchanges.
  ghost predicate LoopInv(deleted: seq<bool>, sw: seq<Transposition>, flags: seq<bool>, i0: nat, i1: nat)
  {
    i0 <= i1 < |deleted| &&
    InBounds(sw, |deleted|) && Monotone(sw) &&
    flags == ApplySwaps(deleted, sw) &&
    (forall k :: 0 <= k < i0 ==> !flags[k]) &&
    (forall k :: i1 < k < |deleted| ==> flags[k]) &&
    (sw != [] ==> LastBefore(sw, i0, i1, flags))
  }

  /// Both pointers have met: the flags are partitioned at the new size.
  lemma Finish(deleted: seq<bool>, sw: seq<Transposition>, flags: seq<bool>,
               start0: nat, start1: nat, i: nat, n: nat)
    requires LoopInv(deleted, sw, flags, start0, start1)
    requires start0 <= i <= start1
    requires forall k :: start0 <= k < i ==> !flags[k]
    requires forall k :: i < k <= start1 ==> flags[k]
    requires n == if flags[i] then i else i + 1
    ensures InBounds(sw, |deleted|) && Monotone(sw)
    ensures Partitioned(ApplySwaps(deleted, sw), n)
    ensures n == |deleted| - Count(deleted)
  {
    assert Partitioned(flags, n);
    PartitionedCount(flags, n);
    ApplyMultiset(deleted, sw);
  }

  /// One exchange of the two-pointer loop keeps its invariant.
  lemma SwapStep(deleted: seq<bool>, sw: seq<Transposition>, flags: seq<bool>,
                 start0: nat, start1: nat, i0: nat, i1: nat)
    requires LoopInv(deleted, sw, flags, start0, start1)
    requires start0 <= i0 < i1 <= start1
    requires forall k :: start0 <= k < i0 ==> !flags[k]
    requires forall k :: i1 < k <= start1 ==> flags[k]
    requires flags[i0] && !flags[i1]
    ensures LoopInv(deleted, sw + [Transposition(i0, i1)], Swap(flags, i0, i1), i0, i1)
  {
    var t := Transposition(i0, i1);
    if sw != [] {
      assert start0 < i0 || sw[|sw| - 1].lo < start0;
      assert i1 < start1 || start1 < sw[|sw| - 1].hi;
    }
    AppendSwap(deleted, sw, t);
    AppendMonotone(sw, t);
  }

  /// `while (!deleted[i0] && i0 < i1) ++i0;`
  method SkipSurvivors(flags: seq<bool>, i0: nat, i1: nat) returns (j0: nat)
    requires i0 <= i1 < |flags|
    ensures i0 <= j0 <= i1
    ensures forall k :: i0 <= k < j0 ==> !flags[k]
    ensures j0 < i1 ==> flags[j0]
  {
    j0 := i0;
    while !flags[j0] && j0 < i1
      invariant i0 <= j0 <= i1
      invariant forall k :: i0 <= k < j0 ==> !flags[k]
    {
      j0 := j0 + 1;
    }
  }

  /// `while (deleted[i1] && i0 < i1) --i1;`
  method SkipDeleted(flags: seq<bool>, i0: nat, i1: nat) returns (j1: nat)
    requires i0 <= i1 < |flags|
    ensures i0 <= j1 <= i1
    ensures forall k :: j1 < k <= i1 ==> flags[k]
    ensures i0 < j1 ==> !flags[j1]
  {
    j1 := i1;
    while flags[j1] && i0 < j1
      invariant i0 <= j1 <= i1
      invariant forall k :: j1 < k <= i1 ==> flags[k]
    {
      j1 := j1 - 1;
    }
  }

  /// The last exchange lies strictly outside the current window, or is the
  /// window itself (the loop has just exchanged those two slots).
  predicate LastBefore(sw: seq<Transposition>, i0: nat, i1: nat, flags: seq<bool>)
    requires sw != []
  {
    var t := sw[|sw| - 1];
    (t.lo < i0 && i1 < t.hi) ||
    (t.lo == i0 && t.hi == i1 && i0 < i1 && i1 < |flags| && !flags[i0] && flags[i1])
  }

  /// What compaction achieves for an element that was at old slot w: it
  /// survives iff it lands below the new size, its data moves with it, and
  /// the map array records its new slot.
  lemma Compacted<T>(deleted: seq<bool>, s: seq<T>, sw: seq<Transposition>, n: nat, w: nat)
    requires |s| == |deleted| && InBounds(sw, |deleted|) && Disjoint(sw)
    requires Partitioned(ApplySwaps(deleted, sw), n)
    requires w < |deleted|
    ensures Perm(sw, w) < |deleted|
    ensures (Perm(sw, w) < n) <==> !deleted[w]
    ensures ApplySwaps(s, sw)[Perm(sw, w)] == s[w]
    ensures ApplySwaps(Identity(|s|), sw)[w] == Perm(sw, w)
  {
    NewSlot(s, sw, w);
    NewSlot(deleted, sw, w);
  }

  /// Every slot below the new size holds a survivor: the old slot it came from.
  lemma Survivor(deleted: seq<bool>, sw: seq<Transposition>, n: nat, k: nat)
    requires InBounds(sw, |deleted|) && Disjoint(sw)
    requires Partitioned(ApplySwaps(deleted, sw), n) && k < n
    ensures Perm(sw, k) < |deleted| && !deleted[Perm(sw, k)]
    ensures Perm(sw, Perm(sw, k)) == k
  {
    ApplyAt(deleted, sw, k);
    PermInvolution(sw, k);
  }

  /// Halfedge exchanges ride on the edge exchanges: exchanging edges i and j
  /// also exchanges halfedges 2i, 2j and then 2i+1, 2j+1.
  predicate InPairBounds(sw: seq<Transposition>, m: nat)
  {
    forall k :: 0 <= k < |sw| ==> 2 * sw[k].lo + 1 < m && 2 * sw[k].hi + 1 < m
  }

  lemma PairBounds(sw: seq<Transposition>, n: nat)
    requires InBounds(sw, n)
    ensures InPairBounds(sw, 2 * n)
  {
  }

  lemma PairBoundsInit(sw: seq<Transposition>, m: nat)
    requires InPairBounds(sw, m) && sw != []
    ensures InPairBounds(sw[..|sw| - 1], m)
    ensures 2 * sw[|sw| - 1].lo + 1 < m && 2 * sw[|sw| - 1].hi + 1 < m
  {
    var init := sw[..|sw| - 1];
    assert forall k :: 0 <= k < |init| ==> init[k] == sw[k];
  }

  /// Exchange the halfedge pairs of edges i and j.
  function SwapPair<T>(s: seq<T>, i: nat, j: nat): (r: seq<T>)
    requires 2 * i + 1 < |s| && 2 * j + 1 < |s|
    ensures |r| == |s|
  {
    Swap(Swap(s, 2 * i, 2 * j), 2 * i + 1, 2 * j + 1)
  }

  /// Halfedge p of edge w ends up holding halfedge p of the edge exchanged with w.
  lemma SwapPairAt<T>(s: seq<T>, t: Transposition, w: nat, p: nat)
    requires 2 * t.lo + 1 < |s| && 2 * t.hi + 1 < |s| && p <= 1 && 2 * w + p < |s|
    ensures 2 * Tau(t, w) + p < |s|
    ensures SwapPair(s, t.lo, t.hi)[2 * w + p] == s[2 * Tau(t, w) + p]
  {
    var s1 := Swap(s, 2 * t.lo, 2 * t.hi);
    var k, k' := 2 * w + p, 2 * Tau(t, w) + p;
    if p == 0 {
      assert s1[k] == s[k'];
      assert k != 2 * t.lo + 1 && k != 2 * t.hi + 1;
    } else {
      assert s1[k] == s[k];
      assert s1[k'] == s[k'];
    }
  }

  /// Applies the halfedge-pair exchanges in order, first to last.
  function ApplyPairSwaps<T>(s: seq<T>, sw: seq<Transposition>): (r: seq<T>)
    requires InPairBounds(sw, |s|)
    ensures |r| == |s|
    decreases |sw|
  {
    if sw == [] then s
    else
      var t := sw[|sw| - 1];
      SwapPair(ApplyPairSwaps(s, sw[..|sw| - 1]), t.lo, t.hi)
  }

  lemma {:induction false} PairAt<T>(s: seq<T>, sw: seq<Transposition>, w: nat, p: nat)
    requires InPairBounds(sw, |s|) && p <= 1 && 2 * w + p < |s|
    ensures 2 * Perm(sw, w) + p < |s|
    ensures ApplyPairSwaps(s, sw)[2 * w + p] == s[2 * Perm(sw, w) + p]
    decreases |sw|
  {
    if sw != [] {
      var init, t := sw[..|sw| - 1], sw[|sw| - 1];
      PairBoundsInit(sw, |s|);
      var before := ApplyPairSwaps(s, init);
      var w' := Tau(t, w);
      SwapPairAt(before, t, w, p);
      PairAt(s, init, w', p);
      assert ApplyPairSwaps(s, sw)[2 * w + p] == before[2 * w' + p];
    }
  }

  /// The halfedge version of NewSlot: halfedge p of old edge w lands at
  /// halfedge p of its new edge ...
  lemma NewPairSlot<T>(s: seq<T>, sw: seq<Transposition>, w: nat, p: nat)
    requires InPairBounds(sw, |s|) && Disjoint(sw) && p <= 1 && 2 * w + p < |s|
    ensures 2 * Perm(sw, w) + p < |s|
    ensures ApplyPairSwaps(s, sw)[2 * Perm(sw, w) + p] == s[2 * w + p]
  {
    var q := Perm(sw, w);
    PairAt(s, sw, w, p);
    PairAt(s, sw, q, p);
    PermInvolution(sw, w);
  }

  /// ... and the exchanged halfedge map records that slot.
  lemma NewPairMap(n: nat, sw: seq<Transposition>, w: nat, p: nat)
    requires InPairBounds(sw, n) && p <= 1 && 2 * w + p < n
    ensures ApplyPairSwaps(Identity(n), sw)[2 * w + p] == 2 * Perm(sw, w) + p
  {
    PairAt(Identity(n), sw, w, p);
  }

  /// A halfedge index as its edge and its side.
  lemma Halve(a: nat) returns (i: nat, p: nat)
    ensures p <= 1 && a == 2 * i + p
  {
    i := a / 2;
    p := a - 2 * i;
  }
}
