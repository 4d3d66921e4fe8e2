/// Minimum-weight triangulation of one polygonal face (triangulation.cpp).
/// The corners of the face are numbered 0..n-1 along its halfedge loop.  A
/// dynamic program over the intervals [i, k] of corners finds, for each
/// interval, the split corner m that minimises the weight of the triangle
/// (i, m, k) plus the weights of the two sub-intervals; a stack then replays
/// the chosen splits and inserts an edge for each side of each triangle.
///
/// Triangle weights (squared areas) are an input; a triangle whose three
/// sides are all existing mesh edges is vetoed with the largest float, which
/// the model writes as `Infinite`.  The mesh is represented by the set of
/// corner pairs that are joined by an edge.
module Triangulation {
  import opened Wrappers

  // ---- weights

  /// A float weight: a finite value, or the saturated largest float that
  /// stands for "impossible".
  datatype Weight = Finite(w: int) | Infinite

  /// Float addition as the program relies on it: anything added to the
  /// saturated value stays saturated.
  function Plus(a: Weight, b: Weight): (r: Weight)
    ensures r.Finite? <==> a.Finite? && b.Finite?
    ensures r.Finite? ==> r.w == a.w + b.w
  {
    if a.Finite? && b.Finite? then Finite(a.w + b.w) else Infinite
  }

  /// `w < wmin`: nothing is below the saturated value except a finite one.
  predicate Below(a: Weight, b: Weight)
  {
    a.Finite? && (b.Infinite? || a.w < b.w)
  }

  /// A pair of corners (i, j) with i < j.
  type Pair = (int, int)

  /// The face to triangulate: n corners, the squared area of the triangle on
  /// any three corners, and the corner pairs already joined by a mesh edge.
  datatype Polygon = Polygon(n: nat, area: (int, int, int) -> nat, edges: set<Pair>)

  /// `is_edge`: an edge joins corners i and j, in either direction.
  predicate Joined(edges: set<Pair>, i: int, j: int)
  {
    (if i < j then (i, j) else (j, i)) in edges
  }

  /// `compute_weight(i, j, k)`: the squared area, unless all three sides
  /// already exist, which would make the triangle a duplicate.
  function ComputeWeight(p: Polygon, i: int, j: int, k: int): Weight
  {
    if Joined(p.edges, i, j) && Joined(p.edges, j, k) && Joined(p.edges, k, i) then Infinite
    else Finite(p.area(i, j, k))
  }

  // ---- the dynamic program as recursive definitions

  /// The optimal weight of the interval [i, k]: 0 for a single side,
  /// otherwise the result of scanning the splits.
  function Opt(p: Polygon, i: int, k: int): Weight
    requires 0 <= i < k
    decreases k - i, 1, 0
  {
    if k == i + 1 then Finite(0) else Scan(p, i, k, k).0
  }

  /// The split chosen for [i, k], or -1 for a single side or when every
  /// split is impossible.
  function OptIndex(p: Polygon, i: int, k: int): int
    requires 0 <= i < k
  {
    if k == i + 1 then -1 else Scan(p, i, k, k).1
  }

  /// The weight of splitting [i, k] at m.
  function SplitWeight(p: Polygon, i: int, m: int, k: int): Weight
    requires 0 <= i < m < k
    decreases k - i, 0, 0
  {
    Plus(Plus(Opt(p, i, m), ComputeWeight(p, i, m, k)), Opt(p, m, k))
  }

  /// The running minimum and its split after trying the splits i+1 .. m-1,
  /// keeping the first of equal weights.
  function Scan(p: Polygon, i: int, k: int, m: int): (Weight, int)
    requires 0 <= i && i + 1 <= m <= k
    decreases k - i, 0, m
  {
    if m == i + 1 then (Infinite, -1)
    else
      var prev := Scan(p, i, k, m - 1);
      var w := SplitWeight(p, i, m - 1, k);
      if Below(w, prev.0) then (w, m - 1) else prev
  }

  /// What the scan establishes: the split is -1 exactly when the minimum is
  /// impossible; otherwise it is a tried split carrying the minimum weight,
  /// strictly cheaper than every earlier one; and no tried split is below
  /// the minimum.
  lemma {:induction false} ScanSpec(p: Polygon, i: int, k: int, m: int)
    requires 0 <= i && i + 1 <= m <= k
    ensures var r := Scan(p, i, k, m);
      (r.1 == -1 <==> r.0.Infinite?) &&
      (r.1 != -1 ==> i < r.1 < m && r.0 == SplitWeight(p, i, r.1, k)) &&
      (r.1 != -1 ==> forall j :: i < j < r.1 ==> Below(r.0, SplitWeight(p, i, j, k))) &&
      (forall j :: i < j < m ==> !Below(SplitWeight(p, i, j, k), r.0))
    decreases m
  {
    if m > i + 1 {
      ScanSpec(p, i, k, m - 1);
    }
  }

  /// The optimum of an interval of two or more sides is no heavier than any
  /// split of it.
  lemma OptIsMinimal(p: Polygon, i: int, m: int, k: int)
    requires 0 <= i < m < k
    ensures !Below(SplitWeight(p, i, m, k), Opt(p, i, k))
  {
    ScanSpec(p, i, k, k);
  }

  /// When the optimum of [i, k] is possible, the chosen split lies strictly
  /// inside, attains the optimum, and both halves are possible.
  lemma OptAttained(p: Polygon, i: int, k: int)
    requires 0 <= i && i + 2 <= k && Opt(p, i, k).Finite?
    ensures i < OptIndex(p, i, k) < k
    ensures Opt(p, i, k) == SplitWeight(p, i, OptIndex(p, i, k), k)
    ensures Opt(p, i, OptIndex(p, i, k)).Finite? && Opt(p, OptIndex(p, i, k), k).Finite?
  {
    ScanSpec(p, i, k, k);
  }

  /// The split is -1 exactly when every split is impossible.
  lemma NoSplitIffImpossible(p: Polygon, i: int, k: int)
    requires 0 <= i && i + 2 <= k
    ensures OptIndex(p, i, k) == -1 <==> Opt(p, i, k).Infinite?
    ensures Opt(p, i, k).Infinite? <==> forall m :: i < m < k ==> SplitWeight(p, i, m, k).Infinite?
  {
    ScanSpec(p, i, k, k);
    if Opt(p, i, k).Infinite? {
      forall m | i < m < k
        ensures SplitWeight(p, i, m, k).Infinite?
      {
        assert !Below(SplitWeight(p, i, m, k), Infinite);
      }
    }
  }

  // ---- filling the tables

  /// The table entries of every interval shorter than j, and of the
  /// intervals of length j starting before i, hold their optimum and split.
  ghost predicate Filled(p: Polygon, weight: array2<Weight>, index: array2<int>, j: int, i: int)
    reads weight, index
    requires weight.Length0 == weight.Length1 == index.Length0 == index.Length1 == p.n
  {
    forall a, b :: 0 <= a < b < p.n && (b - a < j || (b - a == j && a < i)) ==>
      weight[a, b] == Opt(p, a, b) && index[a, b] == OptIndex(p, a, b)
  }

  /// The innermost loop for the interval [i, k]: try every split corner,
  /// reading the finished entries of the shorter intervals.
  method BestSplit(p: Polygon, weight: array2<Weight>, i: int, k: int) returns (wmin: Weight, imin: int)
    requires weight.Length0 == weight.Length1 == p.n
    requires 0 <= i && i + 2 <= k < p.n
    requires forall a, b :: i <= a < b <= k && b - a < k - i ==> weight[a, b] == Opt(p, a, b)
    ensures (wmin, imin) == Scan(p, i, k, k)
  {
    wmin, imin := Infinite, -1;
    for m := i + 1 to k
      invariant (wmin, imin) == Scan(p, i, k, m)
    {
      var w := Plus(Plus(weight[i, m], ComputeWeight(p, i, m, k)), weight[m, k]);
      if Below(w, wmin) {
        wmin, imin := w, m;
      }
    }
  }

  /// One round of the loop over lengths: fill every interval of j sides.
  method FillLength(p: Polygon, weight: array2<Weight>, index: array2<int>, j: int)
    requires weight.Length0 == weight.Length1 == index.Length0 == index.Length1 == p.n
    requires 2 <= j < p.n && Filled(p, weight, index, j, 0)
    modifies weight, index
    ensures Filled(p, weight, index, j + 1, 0)
  {
    for i := 0 to p.n - j
      invariant Filled(p, weight, index, j, i)
    {
      var wmin, imin := BestSplit(p, weight, i, i + j);
      weight[i, i + j] := wmin;
      index[i, i + j] := imin;
    }
  }

  /// The two loops over interval lengths and starts, with the innermost
  /// scan over split corners.
  method FillTables(p: Polygon) returns (weight: array2<Weight>, index: array2<int>)
    requires p.n >= 1
    ensures weight.Length0 == weight.Length1 == index.Length0 == index.Length1 == p.n
    ensures forall i, k :: 0 <= i < k < p.n ==> weight[i, k] == Opt(p, i, k) && index[i, k] == OptIndex(p, i, k)
  {
    var n := p.n;
    weight := new Weight[n, n]((_, _) => Infinite);
    index := new int[n, n]((_, _) => 0);
    for i := 0 to n - 1
      invariant Filled(p, weight, index, 1, i)
    {
      weight[i, i + 1] := Finite(0);
      index[i, i + 1] := -1;
    }
    var j := 2;
    while j < n
      invariant 2 <= j && (n >= 2 ==> j <= n)
      invariant Filled(p, weight, index, j, 0)
    {
      FillLength(p, weight, index, j);
      j := j + 1;
    }
  }

  // ---- replaying the splits

  /// The triangulation's effect on the mesh: the joined corner pairs and
  /// the number of faces added so far.
  datatype Run = Run(edges: set<Pair>, added: nat)

  function Norm(i: int, j: int): Pair
  {
    if i < j then (i, j) else (j, i)
  }

  /// `insert_edge(i, j)`: nothing when the corners are already joined;
  /// otherwise the new edge cuts one more face off the polygon.
  function InsertEdge(r: Run, i: int, j: int): Run
  {
    if Joined(r.edges, i, j) then r else Run(r.edges + {Norm(i, j)}, r.added + 1)
  }

  /// The calls of `insert_edge`, in order.
  function InsertAll(r: Run, calls: seq<Pair>): Run
  {
    if |calls| == 0 then r
    else
      var last := calls[|calls| - 1];
      InsertEdge(InsertAll(r, calls[..|calls| - 1]), last.0, last.1)
  }

  lemma {:induction false} InsertAllConcat(r: Run, a: seq<Pair>, b: seq<Pair>)
    ensures InsertAll(r, a + b) == InsertAll(InsertAll(r, a), b)
    decreases |b|
  {
    if |b| > 0 {
      assert (a + b)[..|a + b| - 1] == a + b[..|b| - 1];
      InsertAllConcat(r, a, b[..|b| - 1]);
    } else {
      assert a + b == a;
    }
  }

  lemma InsertTwo(r: Run, x: Pair, y: Pair)
    ensures InsertAll(r, [x, y]) == InsertEdge(InsertEdge(r, x.0, x.1), y.0, y.1)
  {
    assert [x, y][..1] == [x];
    assert [x][..0] == [];
    assert InsertAll(r, [x]) == InsertEdge(InsertAll(r, []), x.0, x.1);
    assert InsertAll(r, [x, y]) == InsertEdge(InsertAll(r, [x]), y.0, y.1);
  }

  /// An interval is fine to replay when it is a single side or has a
  /// possible optimum.
  predicate Possible(p: Polygon, t: Pair)
  {
    0 <= t.0 < t.1 && (t.1 - t.0 >= 2 ==> Opt(p, t.0, t.1).Finite?)
  }

  /// The calls replaying [s, e]: the two inner sides of the triangle on the
  /// chosen split m, then the part above m, then the part below it, as the
  /// stack pops them.
  function Calls(p: Polygon, s: int, e: int): seq<Pair>
    requires Possible(p, (s, e))
    decreases e - s
  {
    if e - s < 2 then []
    else
      var m := OptIndex(p, s, e);
      OptAttained(p, s, e);
      [(s, m), (m, e)] + Calls(p, m, e) + Calls(p, s, m)
  }

  /// Replaying an interval of L sides makes 2(L-1) calls, one triangle for
  /// every two: a polygon of n corners, whose last interval has n-1 sides,
  /// becomes n-2 triangles.
  lemma {:induction false} CallCount(p: Polygon, s: int, e: int)
    requires Possible(p, (s, e))
    ensures |Calls(p, s, e)| == 2 * (e - s - 1)
    decreases e - s
  {
    if e - s >= 2 {
      var m := OptIndex(p, s, e);
      OptAttained(p, s, e);
      CallCount(p, m, e);
      CallCount(p, s, m);
    }
  }

  predicate AllPossible(p: Polygon, todo: seq<Pair>)
  {
    forall x :: 0 <= x < |todo| ==> Possible(p, todo[x])
  }

  /// The calls still owed by a stack of intervals, the top one first.
  function StackCalls(p: Polygon, todo: seq<Pair>): seq<Pair>
    requires AllPossible(p, todo)
  {
    if |todo| == 0 then []
    else
      var t := todo[|todo| - 1];
      assert Possible(p, todo[|todo| - 1]);
      Calls(p, t.0, t.1) + StackCalls(p, todo[..|todo| - 1])
  }

  /// A bound on the rounds a stack still needs: 2L-1 per interval of L sides.
  function Work(todo: seq<Pair>): nat
  {
    if |todo| == 0 then 0
    else
      var t := todo[|todo| - 1];
      Work(todo[..|todo| - 1]) + (if t.1 > t.0 then 2 * (t.1 - t.0) - 1 else 0)
  }

  lemma StackPush(p: Polygon, rest: seq<Pair>, a: Pair, b: Pair)
    requires AllPossible(p, rest) && Possible(p, a) && Possible(p, b)
    ensures AllPossible(p, rest + [a, b])
    ensures StackCalls(p, rest + [a, b]) == Calls(p, b.0, b.1) + Calls(p, a.0, a.1) + StackCalls(p, rest)
    ensures Work(rest + [a, b]) == Work(rest) + (if a.1 > a.0 then 2 * (a.1 - a.0) - 1 else 0) +
                                   (if b.1 > b.0 then 2 * (b.1 - b.0) - 1 else 0)
  {
    var t := rest + [a, b];
    assert t[..|t| - 1] == rest + [a];
    assert (rest + [a])[..|rest|] == rest;
    assert AllPossible(p, rest + [a]);
  }

  /// Popping a single side owes no calls.
  lemma PopSide(p: Polygon, before: seq<Pair>)
    requires |before| > 0 && AllPossible(p, before)
    requires before[|before| - 1].1 - before[|before| - 1].0 < 2
    ensures AllPossible(p, before[..|before| - 1])
    ensures StackCalls(p, before) == StackCalls(p, before[..|before| - 1])
  {
    var t := before[|before| - 1];
    assert Possible(p, t);
    assert Calls(p, t.0, t.1) == [];
  }

  /// Popping an interval of two or more sides and pushing its two parts
  /// moves exactly its first two calls from the owed stack to the calls made.
  lemma PopSplit(p: Polygon, calls: seq<Pair>, before: seq<Pair>)
    requires |before| > 0 && AllPossible(p, before)
    requires before[|before| - 1].1 - before[|before| - 1].0 >= 2
    ensures var t := before[|before| - 1];
      var m := OptIndex(p, t.0, t.1);
      var rest := before[..|before| - 1];
      t.0 < m < t.1 && AllPossible(p, rest + [(t.0, m), (m, t.1)]) &&
      (calls + [(t.0, m), (m, t.1)]) + StackCalls(p, rest + [(t.0, m), (m, t.1)]) == calls + StackCalls(p, before) &&
      Work(rest + [(t.0, m), (m, t.1)]) < Work(before)
  {
    var t := before[|before| - 1];
    var rest := before[..|before| - 1];
    assert Possible(p, t);
    var m := OptIndex(p, t.0, t.1);
    OptAttained(p, t.0, t.1);
    assert Possible(p, (t.0, m)) && Possible(p, (m, t.1));
    assert AllPossible(p, rest) by {
      forall x | 0 <= x < |rest|
        ensures Possible(p, rest[x])
      {
        assert rest[x] == before[x];
      }
    }
    StackPush(p, rest, (t.0, m), (m, t.1));
    var a := [(t.0, m), (m, t.1)];
    var ca, cb, owed := Calls(p, t.0, m), Calls(p, m, t.1), StackCalls(p, rest);
    assert Calls(p, t.0, t.1) == a + cb + ca;
    assert StackCalls(p, before) == Calls(p, t.0, t.1) + owed;
    assert StackCalls(p, rest + a) == cb + ca + owed;
    SeqRegroup(calls, a, cb, ca, owed);
  }

  lemma SeqRegroup<T>(c: seq<T>, a: seq<T>, x: seq<T>, y: seq<T>, z: seq<T>)
    ensures (c + a) + (x + y + z) == c + ((a + x + y) + z)
  {
  }

  /// The reconstruction loop: pop an interval, skip a single side, otherwise
  /// insert the two inner sides of its triangle and push both parts.  An
  /// impossible polygon makes the first split -1, which the program would
  /// use as an index below its corner arrays; the model stops there with
  /// `None`.
  method Reconstruct(p: Polygon, index: array2<int>) returns (r: Option<Run>)
    requires p.n >= 2
    requires index.Length0 == index.Length1 == p.n
    requires forall i, k :: 0 <= i < k < p.n ==> index[i, k] == OptIndex(p, i, k)
    ensures r.None? <==> Opt(p, 0, p.n - 1).Infinite?
    ensures r.Some? ==> r.value == InsertAll(Run(p.edges, 0), Calls(p, 0, p.n - 1))
  {
    var n := p.n;
    if n >= 3 {
      NoSplitIffImpossible(p, 0, n - 1);
    }
    var todo: seq<Pair> := [(0, n - 1)];
    var run := Run(p.edges, 0);
    ghost var calls: seq<Pair> := [];
    ghost var goal: seq<Pair> := [];
    if Opt(p, 0, n - 1).Finite? {
      goal := Calls(p, 0, n - 1);
      assert todo[..0] == [];
      assert StackCalls(p, todo) == goal + [];
    }
    while |todo| > 0
      invariant forall x :: 0 <= x < |todo| ==> 0 <= todo[x].0 < todo[x].1 < n
      invariant Opt(p, 0, n - 1).Infinite? ==> todo == [(0, n - 1)] && calls == []
      invariant Opt(p, 0, n - 1).Finite? ==> goal == Calls(p, 0, n - 1)
      invariant Opt(p, 0, n - 1).Finite? ==> AllPossible(p, todo) && calls + StackCalls(p, todo) == goal
      invariant run == InsertAll(Run(p.edges, 0), calls)
      decreases Work(todo)
    {
      ghost var before := todo;
      var tri := todo[|todo| - 1];
      todo := todo[..|todo| - 1];
      var start, end := tri.0, tri.1;
      if end - start < 2 {
        if Opt(p, 0, n - 1).Finite? {
          PopSide(p, before);
        }
        continue;
      }
      var split := index[start, end];
      if split < 0 {
        assert Opt(p, 0, n - 1).Infinite? by {
          if Opt(p, 0, n - 1).Finite? {
            assert Possible(p, before[|before| - 1]);
            OptAttained(p, start, end);
          }
        }
        return None;
      }
      assert Opt(p, 0, n - 1).Finite?;
      PopSplit(p, calls, before);
      run := InsertEdge(run, start, split);
      run := InsertEdge(run, split, end);
      InsertTwo(InsertAll(Run(p.edges, 0), calls), (start, split), (split, end));
      InsertAllConcat(Run(p.edges, 0), calls, [(start, split), (split, end)]);
      calls := calls + [(start, split), (split, end)];
      todo := todo + [(start, split), (split, end)];
    }
    assert StackCalls(p, todo) == [] && calls + [] == calls;
    r := Some(run);
  }

  // ---- how many faces the replay adds

  /// Every side (i, i+1) inside [s, e] is an edge.
  predicate Sides(edges: set<Pair>, s: int, e: int)
  {
    forall i :: s <= i < e ==> Side(i) in edges
  }

  function Side(i: int): Pair
  {
    (i, i + 1)
  }

  /// No chord strictly inside [s, e] is an edge yet: the only joined pair
  /// of corners two or more apart within it is (s, e) itself.
  predicate Clear(edges: set<Pair>, s: int, e: int)
  {
    forall q :: q in edges && s <= q.0 && q.1 <= e && q.1 - q.0 >= 2 ==> q == (s, e)
  }

  /// The pairs a replay of [s, e] may add: chords strictly inside it.
  predicate Inside(q: Pair, s: int, e: int)
  {
    s <= q.0 && q.1 <= e && q.1 - q.0 >= 2 && q != (s, e)
  }

  /// The first two calls for [s, e] with split m insert each inner side
  /// that is a chord and find each one that is a side.
  lemma FirstTwo(r: Run, s: int, m: int, e: int)
    requires s < m < e && Sides(r.edges, s, e) && Clear(r.edges, s, e)
    ensures var r1 := InsertAll(r, [(s, m), (m, e)]);
      r1.added == r.added + (if m - s >= 2 then 1 else 0) + (if e - m >= 2 then 1 else 0) &&
      r1.edges == r.edges + (if m - s >= 2 then {(s, m)} else {}) + (if e - m >= 2 then {(m, e)} else {})
  {
    InsertTwo(r, (s, m), (m, e));
    if m - s >= 2 {
      assert (s, m) !in r.edges;
    } else {
      assert Side(s) in r.edges;
    }
    var r0 := InsertEdge(r, s, m);
    if e - m >= 2 {
      assert (m, e) !in r.edges;
      assert (m, e) !in r0.edges;
    } else {
      assert Side(m) in r.edges;
    }
  }

  /// After the first two calls the part above the split is ready: its
  /// sides are there and no chord inside it is.
  lemma AboveReady(e0: set<Pair>, e1: set<Pair>, s: int, m: int, e: int)
    requires s < m < e && Sides(e0, s, e) && Clear(e0, s, e)
    requires e1 == e0 + (if m - s >= 2 then {(s, m)} else {}) + (if e - m >= 2 then {(m, e)} else {})
    ensures Sides(e1, m, e) && Clear(e1, m, e)
  {
  }

  /// After the part above the split, the part below it is ready.
  lemma BelowReady(e0: set<Pair>, e1: set<Pair>, e2: set<Pair>, s: int, m: int, e: int)
    requires s < m < e && Sides(e0, s, e) && Clear(e0, s, e)
    requires e1 == e0 + (if m - s >= 2 then {(s, m)} else {}) + (if e - m >= 2 then {(m, e)} else {})
    requires e1 <= e2 && forall q :: q in e2 && q !in e1 ==> Inside(q, m, e)
    ensures Sides(e2, s, m) && Clear(e2, s, m)
  {
    forall q | q in e2 && s <= q.0 && q.1 <= m && q.1 - q.0 >= 2
      ensures q == (s, m)
    {
      assert q in e1;
    }
  }

  /// Everything the three stages add lies strictly inside [s, e].
  lemma AddedInside(e0: set<Pair>, e1: set<Pair>, e2: set<Pair>, e3: set<Pair>, s: int, m: int, e: int)
    requires s < m < e
    requires e1 == e0 + (if m - s >= 2 then {(s, m)} else {}) + (if e - m >= 2 then {(m, e)} else {})
    requires e1 <= e2 && forall q :: q in e2 && q !in e1 ==> Inside(q, m, e)
    requires e2 <= e3 && forall q :: q in e3 && q !in e2 ==> Inside(q, s, m)
    ensures e0 <= e3 && forall q :: q in e3 && q !in e0 ==> Inside(q, s, e)
  {
    forall q | q in e3 && q !in e0
      ensures Inside(q, s, e)
    {
      if q !in e2 {
        assert Inside(q, s, m);
      } else if q !in e1 {
        assert Inside(q, m, e);
      }
    }
  }

  /// Replaying [s, e] over a mesh that has its sides but none of its chords
  /// adds one face per chord, e-s-2 in all, and adds only chords inside it.
  lemma {:induction false} ReplayAddsChords(p: Polygon, r: Run, s: int, e: int)
    requires Possible(p, (s, e)) && Sides(r.edges, s, e) && Clear(r.edges, s, e)
    ensures var r' := InsertAll(r, Calls(p, s, e));
      r'.added == r.added + (if e - s >= 2 then e - s - 2 else 0) &&
      r.edges <= r'.edges &&
      forall q :: q in r'.edges && q !in r.edges ==> Inside(q, s, e)
    decreases e - s
  {
    if e - s >= 2 {
      var m := OptIndex(p, s, e);
      OptAttained(p, s, e);
      var a := [(s, m), (m, e)];
      var above, below := Calls(p, m, e), Calls(p, s, m);
      assert Calls(p, s, e) == a + above + below;
      InsertAllConcat(r, a + above, below);
      InsertAllConcat(r, a, above);
      var r1 := InsertAll(r, a);
      FirstTwo(r, s, m, e);
      AboveReady(r.edges, r1.edges, s, m, e);
      ReplayAddsChords(p, r1, m, e);
      var r2 := InsertAll(r1, above);
      BelowReady(r.edges, r1.edges, r2.edges, s, m, e);
      ReplayAddsChords(p, r2, s, m);
      var r3 := InsertAll(r2, below);
      AddedInside(r.edges, r1.edges, r2.edges, r3.edges, s, m, e);
    }
  }

  /// A polygon none of whose chords is an edge has no vetoed triangle once
  /// it has four corners or more, so every interval has a possible optimum.
  lemma {:induction false} ChordlessIsPossible(p: Polygon, s: int, e: int)
    requires p.n >= 4 && Clear(p.edges, 0, p.n - 1)
    requires 0 <= s < e <= p.n - 1
    ensures Possible(p, (s, e))
    decreases e - s
  {
    if e - s >= 2 {
      ChordlessIsPossible(p, s + 1, e);
      assert ComputeWeight(p, s, s + 1, e).Finite?;
      assert SplitWeight(p, s, s + 1, e).Finite?;
      OptIsMinimal(p, s, s + 1, e);
    }
  }

  /// A polygon whose sides are edges and whose chords are not is split into
  /// n-2 triangles: the replay inserts n-3 new edges, each cutting one face
  /// off the polygon (a quad becomes two triangles).
  lemma FaceCount(p: Polygon)
    requires p.n >= 4 && Sides(p.edges, 0, p.n - 1) && Clear(p.edges, 0, p.n - 1)
    ensures Opt(p, 0, p.n - 1).Finite?
    ensures var r := InsertAll(Run(p.edges, 0), Calls(p, 0, p.n - 1));
      1 + r.added == p.n - 2 &&
      p.edges <= r.edges &&
      forall q :: q in r.edges && q !in p.edges ==> Inside(q, 0, p.n - 1)
  {
    ChordlessIsPossible(p, 0, p.n - 1);
    ReplayAddsChords(p, Run(p.edges, 0), 0, p.n - 1);
  }

  // ---- the whole operation

  /// The corner walk of `triangulate`: it raises at the first corner whose
  /// vertex is not manifold.
  method CornersManifold(manifold: seq<bool>) returns (ok: bool)
    ensures ok <==> forall i :: 0 <= i < |manifold| ==> manifold[i]
  {
    var i := 0;
    while i < |manifold|
      invariant 0 <= i <= |manifold|
      invariant forall j :: 0 <= j < i ==> manifold[j]
    {
      if !manifold[i] {
        return false;
      }
      i := i + 1;
    }
    return true;
  }

  /// `triangulate(f)` as written, with `manifold[i]` telling whether the
  /// vertex of corner i is manifold.  A face of three corners or fewer is
  /// left alone.  When every triangulation of the face is impossible the
  /// replay reads split -1 as a corner index, outside the corner arrays;
  /// the model stops there with `None`.
  method TriangulateAsWritten(p: Polygon, manifold: seq<bool>) returns (r: Outcome<Option<Run>>)
    requires |manifold| == p.n
    ensures r.Fail? <==> exists i :: 0 <= i < p.n && !manifold[i]
    ensures r.Fail? ==> r.error == InvalidInputError
    ensures r.Ok? && p.n <= 3 ==> r.value == Some(Run(p.edges, 0))
    ensures r.Ok? && p.n >= 4 ==> (r.value.None? <==> Opt(p, 0, p.n - 1).Infinite?)
    ensures r.Ok? && p.n >= 4 && r.value.Some? ==> r.value.value == InsertAll(Run(p.edges, 0), Calls(p, 0, p.n - 1))
  {
    var ok := CornersManifold(manifold);
    if !ok {
      return Fail(InvalidInputError);
    }
    if p.n <= 3 {
      return Ok(Some(Run(p.edges, 0)));
    }
    var weight, index := FillTables(p);
    var run := Reconstruct(p, index);
    return Ok(run);
  }

  /// `triangulate(f)` with the impossible case guarded: a face none of whose
  /// triangulations is possible is left as it is.
  method Triangulate(p: Polygon, manifold: seq<bool>) returns (r: Outcome<Run>)
    requires |manifold| == p.n
    ensures r.Fail? <==> exists i :: 0 <= i < p.n && !manifold[i]
    ensures r.Fail? ==> r.error == InvalidInputError
    ensures r.Ok? && (p.n <= 3 || Opt(p, 0, p.n - 1).Infinite?) ==> r.value == Run(p.edges, 0)
    ensures r.Ok? && p.n >= 4 && Opt(p, 0, p.n - 1).Finite? ==> r.value == InsertAll(Run(p.edges, 0), Calls(p, 0, p.n - 1))
  {
    var ok := CornersManifold(manifold);
    if !ok {
      return Fail(InvalidInputError);
    }
    if p.n <= 3 {
      return Ok(Run(p.edges, 0));
    }
    var weight, index := FillTables(p);
    if weight[0, p.n - 1].Infinite? {
      return Ok(Run(p.edges, 0));
    }
    var run := Reconstruct(p, index);
    return Ok(run.value);
  }

  /// A quad both of whose diagonals are already mesh edges: each of its two
  /// triangulations contains a triangle with three existing sides, so the
  /// optimum is impossible and the as-written replay reaches split -1.
  lemma DoubleDiagonalQuad()
    ensures var p := Polygon(4, (a, b, c) => 1, {(0, 1), (1, 2), (2, 3), (0, 3), (0, 2), (1, 3)});
      Opt(p, 0, 3).Infinite? && OptIndex(p, 0, 3) == -1
  {
    var p := Polygon(4, (a, b, c) => 1, {(0, 1), (1, 2), (2, 3), (0, 3), (0, 2), (1, 3)});
    assert ComputeWeight(p, 0, 1, 3).Infinite?;
    assert ComputeWeight(p, 0, 2, 3).Infinite?;
    NoSplitIffImpossible(p, 0, 3);
  }
}
