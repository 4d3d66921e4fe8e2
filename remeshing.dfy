/// The discrete passes of the isotropic remesher (remeshing.cpp): vertex and
/// edge locking, the fixed-point loops of edge splitting, edge collapsing and
/// valence-equalising edge flips, and the rules that pick each collapse's
/// direction.  Lengths, geometry and every mesh query a pass makes are
/// inputs: a pass sees the mesh after its k-th change through a function of
/// k, so the model follows the passes' bookkeeping without re-deriving the
/// mesh operations they call.
module Remeshing {
  import opened Wrappers

  /// The largest number of passes `split_long_edges`, `collapse_short_edges`
  /// and `flip_edges` run.
  const MaxPasses: nat := 10

  // ---- the valence objective of flip_edges

  /// The ideal valence of a vertex: 4 on the boundary, 6 inside.
  function OptimalValence(boundary: bool): int
  {
    if boundary then 4 else 6
  }

  /// The two ends v0, v1 of an edge and the apexes v2, v3 of its two
  /// triangles.
  datatype Quad = Quad(v0: nat, v1: nat, v2: nat, v3: nat)

  /// The cached valences of the four vertices of a quad and whether each
  /// is on the boundary.
  datatype Corners = Corners(val0: int, val1: int, val2: int, val3: int,
                             b0: bool, b1: bool, b2: bool, b3: bool)

  function Square(x: int): int
  {
    x * x
  }

  /// The sum of squared deviations from the ideal valences.
  function DeviationBefore(c: Corners): int
  {
    Square(c.val0 - OptimalValence(c.b0)) + Square(c.val1 - OptimalValence(c.b1)) +
    Square(c.val2 - OptimalValence(c.b2)) + Square(c.val3 - OptimalValence(c.b3))
  }

  /// The same sum once the flip has taken one neighbour from v0 and v1 and
  /// given one to v2 and v3.
  function DeviationAfter(c: Corners): int
  {
    Square(c.val0 - 1 - OptimalValence(c.b0)) + Square(c.val1 - 1 - OptimalValence(c.b1)) +
    Square(c.val2 + 1 - OptimalValence(c.b2)) + Square(c.val3 + 1 - OptimalValence(c.b3))
  }

  /// `ve_before > ve_after`: the flip strictly lowers the deviation.
  predicate FlipImproves(c: Corners)
  {
    DeviationBefore(c) > DeviationAfter(c)
  }

  lemma SquareShift(d: int)
    ensures Square(d - 1) == Square(d) - 2 * d + 1
    ensures Square(d + 1) == Square(d) + 2 * d + 1
  {
  }

  /// With di the deviation of vertex i from its ideal valence, a flip
  /// improves exactly when d0 + d1 - d2 - d3 > 2.
  lemma FlipImprovesIff(c: Corners)
    ensures var d0, d1 := c.val0 - OptimalValence(c.b0), c.val1 - OptimalValence(c.b1);
      var d2, d3 := c.val2 - OptimalValence(c.b2), c.val3 - OptimalValence(c.b3);
      DeviationBefore(c) - DeviationAfter(c) == 2 * (d0 + d1 - d2 - d3) - 4 &&
      (FlipImproves(c) <==> d0 + d1 - d2 - d3 > 2)
  {
    SquareShift(c.val0 - OptimalValence(c.b0));
    SquareShift(c.val1 - OptimalValence(c.b1));
    SquareShift(c.val2 - OptimalValence(c.b2));
    SquareShift(c.val3 - OptimalValence(c.b3));
  }

  /// A regular interior quad (all valences 6) is never flipped.
  lemma RegularQuadStays(c: Corners)
    requires !c.b0 && !c.b1 && !c.b2 && !c.b3
    requires c.val0 == c.val1 == c.val2 == c.val3 == 6
    ensures !FlipImproves(c)
  {
    FlipImprovesIff(c);
  }

  // ---- the valence cache

  function Hit(v: nat, w: nat): int
  {
    if v == w then 1 else 0
  }

  predicate QuadIn(q: Quad, n: nat)
  {
    q.v0 < n && q.v1 < n && q.v2 < n && q.v3 < n
  }

  /// One entry moved by d; outside the sequence nothing moves.
  function Moved(s: seq<int>, v: nat, d: int): (r: seq<int>)
    ensures |r| == |s|
  {
    if v < |s| then s[v := s[v] + d] else s
  }

  /// The cache after a flip of q: `--valence[v0]; --valence[v1];
  /// ++valence[v2]; ++valence[v3];`.
  function Bumped(s: seq<int>, q: Quad): (r: seq<int>)
    ensures |r| == |s|
  {
    Moved(Moved(Moved(Moved(s, q.v0, -1), q.v1, -1), q.v2, 1), q.v3, 1)
  }

  /// Each vertex moves by one for every time it is named: down for v0 and
  /// v1, up for v2 and v3.
  lemma BumpedAt(s: seq<int>, q: Quad, v: nat)
    requires v < |s|
    ensures Bumped(s, q)[v] == s[v] - Hit(v, q.v0) - Hit(v, q.v1) + Hit(v, q.v2) + Hit(v, q.v3)
  {
  }

  function Sum(s: seq<int>): int
  {
    if |s| == 0 then 0 else Sum(s[..|s| - 1]) + s[|s| - 1]
  }

  /// Moving one entry by d moves the sum by d.
  lemma {:induction false} SumMoved(s: seq<int>, v: nat, d: int)
    requires v < |s|
    ensures Sum(Moved(s, v, d)) == Sum(s) + d
    decreases |s|
  {
    var n := |s| - 1;
    var t := Moved(s, v, d);
    if v < n {
      assert t[..n] == Moved(s[..n], v, d);
      SumMoved(s[..n], v, d);
    } else {
      assert t[..n] == s[..n];
    }
  }

  /// A flip neither adds nor removes edges, so the valence total, twice the
  /// edge count, is what it was.
  lemma BumpedKeepsSum(s: seq<int>, q: Quad)
    requires QuadIn(q, |s|)
    ensures Sum(Bumped(s, q)) == Sum(s)
  {
    var s1 := Moved(s, q.v0, -1);
    var s2 := Moved(s1, q.v1, -1);
    var s3 := Moved(s2, q.v2, 1);
    SumMoved(s, q.v0, -1);
    SumMoved(s1, q.v1, -1);
    SumMoved(s2, q.v2, 1);
    SumMoved(s3, q.v3, 1);
  }

  /// `--valence[v0]; --valence[v1]; ++valence[v2]; ++valence[v3];`
  method BumpValences(valence: array<int>, q: Quad)
    requires QuadIn(q, valence.Length)
    modifies valence
    ensures valence[..] == Bumped(old(valence[..]), q)
  {
    valence[q.v0] := valence[q.v0] - 1;
    valence[q.v1] := valence[q.v1] - 1;
    valence[q.v2] := valence[q.v2] + 1;
    valence[q.v3] := valence[q.v3] + 1;
  }

  // ---- flip_edges

  /// What `flip_edges` reads at an edge of the current mesh: its quad, the
  /// boundary flag of each of the four vertices, and `is_flip_ok`.
  datatype FlipSite = FlipSite(q: Quad, b0: bool, b1: bool, b2: bool, b3: bool, flipOk: bool)

  function CornersOf(valence: seq<int>, st: FlipSite): Corners
    requires QuadIn(st.q, |valence|)
  {
    Corners(valence[st.q.v0], valence[st.q.v1], valence[st.q.v2], valence[st.q.v3],
            st.b0, st.b1, st.b2, st.b3)
  }

  /// Neither the edge nor any of the four vertices is locked, and the edge
  /// is not a feature.
  predicate FlipFree(vlocked: seq<bool>, elocked: seq<bool>, efeature: seq<bool>, e: int, q: Quad)
  {
    0 <= e < |elocked| && e < |efeature| && QuadIn(q, |vlocked|) &&
    !elocked[e] && !efeature[e] && !vlocked[q.v0] && !vlocked[q.v1] && !vlocked[q.v2] && !vlocked[q.v3]
  }

  /// The pass flips edge e when it is free, the flip improves the cached
  /// valences and `is_flip_ok` holds.
  predicate WouldFlip(vlocked: seq<bool>, elocked: seq<bool>, efeature: seq<bool>, valence: seq<int>, e: int, st: FlipSite)
  {
    FlipFree(vlocked, elocked, efeature, e, st.q) && QuadIn(st.q, |valence|) &&
    FlipImproves(CornersOf(valence, st)) && st.flipOk
  }

  /// The sites of a pass stay inside the vertex range.
  ghost predicate SitesIn(site: (int, int) -> FlipSite, nE: nat, nV: nat)
  {
    forall k: int, e: int :: 0 <= e < nE ==> QuadIn(site(k, e).q, nV)
  }

  /// The valence cache after the flips of `log` (edge indices, in order).
  function Cache(valence0: seq<int>, site: (int, int) -> FlipSite, log: seq<int>): (r: seq<int>)
    ensures |r| == |valence0|
  {
    if |log| == 0 then valence0
    else
      var k := |log| - 1;
      Bumped(Cache(valence0, site, log[..k]), site(k, log[k]).q)
  }

  /// The k-th flip of the log was one the pass was allowed to make against
  /// the cache of its time.
  ghost predicate FlipAllowed(vlocked: seq<bool>, elocked: seq<bool>, efeature: seq<bool>, valence0: seq<int>,
                              site: (int, int) -> FlipSite, log: seq<int>, k: int)
    requires 0 <= k < |log|
  {
    WouldFlip(vlocked, elocked, efeature, Cache(valence0, site, log[..k]), log[k], site(k, log[k]))
  }

  /// Every flip in the log was allowed.
  ghost predicate FlipsAllowed(vlocked: seq<bool>, elocked: seq<bool>, efeature: seq<bool>, valence0: seq<int>,
                               site: (int, int) -> FlipSite, log: seq<int>)
  {
    |log| == 0 ||
    (FlipsAllowed(vlocked, elocked, efeature, valence0, site, log[..|log| - 1]) &&
     FlipAllowed(vlocked, elocked, efeature, valence0, site, log, |log| - 1))
  }

  /// The k-th flip of an allowed log was allowed.
  lemma {:induction false} FlipAllowedAt(vlocked: seq<bool>, elocked: seq<bool>, efeature: seq<bool>, valence0: seq<int>,
                                         site: (int, int) -> FlipSite, log: seq<int>, k: nat)
    requires FlipsAllowed(vlocked, elocked, efeature, valence0, site, log) && k < |log|
    ensures FlipAllowed(vlocked, elocked, efeature, valence0, site, log, k)
    decreases |log|
  {
    var n := |log| - 1;
    if k < n {
      FlipAllowedAt(vlocked, elocked, efeature, valence0, site, log[..n], k);
      assert log[..n][..k] == log[..k] && log[..n][k] == log[k];
    }
  }

  /// No edge below `upto` would be flipped in the mesh after k flips.
  ghost predicate FlipsSettled(vlocked: seq<bool>, elocked: seq<bool>, efeature: seq<bool>, valence: seq<int>,
                               site: (int, int) -> FlipSite, k: int, upto: nat)
  {
    upto == 0 ||
    (FlipsSettled(vlocked, elocked, efeature, valence, site, k, upto - 1) &&
     !WouldFlip(vlocked, elocked, efeature, valence, upto - 1, site(k, upto - 1)))
  }

  /// Settled means: no edge below `upto` would be flipped.
  lemma {:induction false} SettledAt(vlocked: seq<bool>, elocked: seq<bool>, efeature: seq<bool>, valence: seq<int>,
                                     site: (int, int) -> FlipSite, k: int, upto: nat, e: nat)
    requires FlipsSettled(vlocked, elocked, efeature, valence, site, k, upto) && e < upto
    ensures !WouldFlip(vlocked, elocked, efeature, valence, e, site(k, e))
    decreases upto
  {
    if e < upto - 1 {
      SettledAt(vlocked, elocked, efeature, valence, site, k, upto - 1, e);
    }
  }

  /// Flipping an allowed edge extends the log of allowed flips and bumps
  /// the cache.
  lemma FlipStep(vlocked: seq<bool>, elocked: seq<bool>, efeature: seq<bool>, valence0: seq<int>,
                 site: (int, int) -> FlipSite, log: seq<int>, e: int)
    requires FlipsAllowed(vlocked, elocked, efeature, valence0, site, log)
    requires WouldFlip(vlocked, elocked, efeature, Cache(valence0, site, log), e, site(|log|, e))
    ensures FlipsAllowed(vlocked, elocked, efeature, valence0, site, log + [e])
    ensures Cache(valence0, site, log + [e]) == Bumped(Cache(valence0, site, log), site(|log|, e).q)
  {
    assert (log + [e])[..|log|] == log;
  }

  /// The flips of an allowed log keep the total of the cached valences.
  lemma {:induction false} CacheKeepsSum(vlocked: seq<bool>, elocked: seq<bool>, efeature: seq<bool>, valence0: seq<int>,
                                         site: (int, int) -> FlipSite, log: seq<int>)
    requires FlipsAllowed(vlocked, elocked, efeature, valence0, site, log)
    ensures Sum(Cache(valence0, site, log)) == Sum(valence0)
    decreases |log|
  {
    if |log| > 0 {
      var k := |log| - 1;
      CacheKeepsSum(vlocked, elocked, efeature, valence0, site, log[..k]);
      BumpedKeepsSum(Cache(valence0, site, log[..k]), site(k, log[k]).q);
    }
  }

  /// The tests `flip_edges` makes at one edge: the locks, the feature flag,
  /// the valence objective on the cached valences, and `is_flip_ok`.
  method FlipDecision(vlocked: seq<bool>, elocked: seq<bool>, efeature: seq<bool>, valence: array<int>,
                      e: int, st: FlipSite) returns (flip: bool)
    requires 0 <= e < |elocked| == |efeature| && QuadIn(st.q, |vlocked|) && QuadIn(st.q, valence.Length)
    ensures flip == WouldFlip(vlocked, elocked, efeature, valence[..], e, st)
  {
    var q := st.q;
    flip := false;
    if !elocked[e] && !efeature[e] && !vlocked[q.v0] && !vlocked[q.v1] && !vlocked[q.v2] && !vlocked[q.v3] {
      var c := Corners(valence[q.v0], valence[q.v1], valence[q.v2], valence[q.v3], st.b0, st.b1, st.b2, st.b3);
      assert c == CornersOf(valence[..], st);
      flip := DeviationBefore(c) > DeviationAfter(c) && st.flipOk;
    }
  }

  /// `flip_edges`: cache every valence, then run passes over all edges,
  /// flipping each free edge whose flip improves the cached valences and is
  /// allowed by `is_flip_ok`, until a pass flips nothing or ten passes have
  /// run.  `site(k, e)` is edge e of the mesh after the k-th flip.  The pass
  /// returns the edges it flipped, in order, and the final cache, which the
  /// program then drops.
  method FlipEdges(vlocked: seq<bool>, elocked: seq<bool>, efeature: seq<bool>, valences: seq<int>,
                   site: (int, int) -> FlipSite)
      returns (log: seq<int>, cache: seq<int>, passes: nat)
    requires |elocked| == |efeature| && |vlocked| == |valences|
    requires SitesIn(site, |elocked|, |vlocked|)
    ensures 1 <= passes <= MaxPasses
    ensures FlipsAllowed(vlocked, elocked, efeature, valences, site, log)
    ensures cache == Cache(valences, site, log)
    ensures Sum(cache) == Sum(valences)
    ensures passes < MaxPasses ==> FlipsSettled(vlocked, elocked, efeature, cache, site, |log|, |elocked|)
  {
    var nE := |elocked|;
    var valence := new int[|valences|](i requires 0 <= i < |valences| => valences[i]);
    assert valence[..] == valences;
    log := [];
    passes := 0;
    var ok := false;
    while !ok && passes < MaxPasses
      invariant passes <= MaxPasses && (passes == 0 ==> !ok)
      invariant valence.Length == |valences|
      invariant FlipsAllowed(vlocked, elocked, efeature, valences, site, log)
      invariant valence[..] == Cache(valences, site, log)
      invariant ok ==> FlipsSettled(vlocked, elocked, efeature, valence[..], site, |log|, nE)
      decreases MaxPasses - passes
    {
      ok := true;
      for e := 0 to nE
        invariant valence.Length == |valences|
        invariant FlipsAllowed(vlocked, elocked, efeature, valences, site, log)
        invariant valence[..] == Cache(valences, site, log)
          invariant ok ==> FlipsSettled(vlocked, elocked, efeature, valence[..], site, |log|, e)
      {
        var st := site(|log|, e);
        var flip := FlipDecision(vlocked, elocked, efeature, valence, e, st);
        if flip {
          FlipStep(vlocked, elocked, efeature, valences, site, log, e);
          BumpValences(valence, st.q);
          log := log + [e];
          ok := false;
        }
      }
      passes := passes + 1;
    }
    cache := valence[..];
    CacheKeepsSum(vlocked, elocked, efeature, valences, site, log);
  }

  /// No locked or feature edge, and no edge with a locked vertex among its
  /// four, is ever flipped; each flip strictly improved the cached valences
  /// and passed `is_flip_ok`.
  lemma FlippedEdgesFree(vlocked: seq<bool>, elocked: seq<bool>, efeature: seq<bool>, valence0: seq<int>,
                         site: (int, int) -> FlipSite, log: seq<int>, k: nat)
    requires FlipsAllowed(vlocked, elocked, efeature, valence0, site, log) && k < |log|
    ensures var e, q := log[k], site(k, log[k]).q;
      0 <= e < |elocked| && !elocked[e] && e < |efeature| && !efeature[e] && QuadIn(q, |vlocked|) &&
      !vlocked[q.v0] && !vlocked[q.v1] && !vlocked[q.v2] && !vlocked[q.v3]
    ensures QuadIn(site(k, log[k]).q, |valence0|) &&
      FlipImproves(CornersOf(Cache(valence0, site, log[..k]), site(k, log[k]))) && site(k, log[k]).flipOk
  {
    FlipAllowedAt(vlocked, elocked, efeature, valence0, site, log, k);
    assert FlipAllowed(vlocked, elocked, efeature, valence0, site, log, k);
  }

  // ---- the direction rules of collapse_short_edges

  /// What `collapse_short_edges` reads at an edge of the current mesh:
  /// whether it is deleted and too short; its ends v0 = to_vertex(h10) and
  /// v1 = to_vertex(h01) for h10, h01 its two halfedges; whether each end
  /// and the edge are on the boundary; `wing01`, the edges of prev(h01) and
  /// next(h10) that collapsing h01 removes, and `wing10`, those of prev(h10)
  /// and next(h01); `is_collapse_ok(h01)`; the two valences; and
  /// `is_too_long(v0, vv)` for each neighbour vv of v1 (`long10`) and
  /// `is_too_long(v1, vv)` for each neighbour vv of v0 (`long01`).
  datatype CollapseSite = CollapseSite(
    deleted: bool, tooShort: bool, v0: nat, v1: nat, b0: bool, b1: bool, boundaryEdge: bool,
    wing01: (nat, nat), wing10: (nat, nat), collapseOk: bool, val0: nat, val1: nat,
    long10: seq<bool>, long01: seq<bool>)

  /// Collapsing h01 merges v0 into v1 and removes v0; collapsing h10 merges
  /// v1 into v0 and removes v1.
  datatype Choice = Keep | IntoV1 | IntoV0

  /// The lock and feature arrays cover every index the site names.
  predicate SiteIn(vlocked: seq<bool>, vfeature: seq<bool>, efeature: seq<bool>, e: int, c: CollapseSite)
  {
    0 <= e < |efeature| && c.v0 < |vlocked| && c.v1 < |vlocked| && c.v0 < |vfeature| && c.v1 < |vfeature| &&
    c.wing01.0 < |efeature| && c.wing01.1 < |efeature| && c.wing10.0 < |efeature| && c.wing10.1 < |efeature|
  }

  /// The rules that skip the edge outright: two boundary ends on an interior
  /// edge, two locked ends, or two feature ends on a non-feature edge.
  predicate Skipped(vlocked: seq<bool>, vfeature: seq<bool>, efeature: seq<bool>, e: int, c: CollapseSite)
    requires SiteIn(vlocked, vfeature, efeature, e, c)
  {
    (c.b0 && c.b1 && !c.boundaryEdge) || (vlocked[c.v0] && vlocked[c.v1]) ||
    (vfeature[c.v0] && vfeature[c.v1] && !efeature[e])
  }

  /// Removing v0 is allowed: it is not a boundary vertex pulled into an
  /// interior one, not locked, not a feature vertex pulled into a
  /// non-feature one, the edges this collapse removes are not features when
  /// both ends are, and `is_collapse_ok` holds.
  predicate MayRemoveV0(vlocked: seq<bool>, vfeature: seq<bool>, efeature: seq<bool>, e: int, c: CollapseSite)
    requires SiteIn(vlocked, vfeature, efeature, e, c)
  {
    !Skipped(vlocked, vfeature, efeature, e, c) &&
    !(c.b0 && !c.b1) && !vlocked[c.v0] && !(vfeature[c.v0] && !vfeature[c.v1]) &&
    !(vfeature[c.v0] && vfeature[c.v1] && (efeature[c.wing01.0] || efeature[c.wing01.1])) &&
    c.collapseOk
  }

  /// Removing v1 is allowed, by the mirror-image rules.
  predicate MayRemoveV1(vlocked: seq<bool>, vfeature: seq<bool>, efeature: seq<bool>, e: int, c: CollapseSite)
    requires SiteIn(vlocked, vfeature, efeature, e, c)
  {
    !Skipped(vlocked, vfeature, efeature, e, c) &&
    !(c.b1 && !c.b0) && !vlocked[c.v1] && !(vfeature[c.v1] && !vfeature[c.v0]) &&
    !(vfeature[c.v0] && vfeature[c.v1] && (efeature[c.wing10.0] || efeature[c.wing10.1])) &&
    c.collapseOk
  }

  /// The collapse the pass makes at a short, live, unlocked edge: when both
  /// directions are allowed the end with the smaller valence goes (v1 on a
  /// tie); the chosen collapse is then dropped if it would leave a too long
  /// edge, without trying the other direction.
  function ChoiceAt(vlocked: seq<bool>, vfeature: seq<bool>, efeature: seq<bool>, e: int, c: CollapseSite): Choice
    requires SiteIn(vlocked, vfeature, efeature, e, c)
  {
    var may0, may1 := MayRemoveV0(vlocked, vfeature, efeature, e, c), MayRemoveV1(vlocked, vfeature, efeature, e, c);
    if may1 && (may0 ==> c.val0 >= c.val1) then
      (if true in c.long10 then Keep else IntoV0)
    else if may0 then
      (if true in c.long01 then Keep else IntoV1)
    else Keep
  }

  /// `for (auto vv : mesh_.vertices(v)) if (is_too_long(..., vv)) break;`
  method AnyTooLong(tooLong: seq<bool>) returns (r: bool)
    ensures r <==> true in tooLong
  {
    for i := 0 to |tooLong|
      invariant true !in tooLong[..i]
    {
      if tooLong[i] {
        assert tooLong[i] in tooLong;
        return true;
      }
    }
    assert tooLong[..|tooLong|] == tooLong;
    return false;
  }

  /// The rule chain of `collapse_short_edges` for one short, live, unlocked
  /// edge, in the program's order: boundary rules, locked rules, feature
  /// rules, the topological test, the valence tie-break, and the scan for
  /// too long edges.
  method CollapseDecision(vlocked: seq<bool>, vfeature: seq<bool>, efeature: seq<bool>, e: int, c: CollapseSite)
      returns (choice: Choice)
    requires SiteIn(vlocked, vfeature, efeature, e, c)
    ensures choice == ChoiceAt(vlocked, vfeature, efeature, e, c)
  {
    var b0, b1 := c.b0, c.b1;
    var l0, l1 := vlocked[c.v0], vlocked[c.v1];
    var f0, f1 := vfeature[c.v0], vfeature[c.v1];
    var hcol01, hcol10 := true, true;
    if b0 && b1 {
      if !c.boundaryEdge {
        return Keep;
      }
    } else if b0 {
      hcol01 := false;
    } else if b1 {
      hcol10 := false;
    }
    if l0 && l1 {
      return Keep;
    } else if l0 {
      hcol01 := false;
    } else if l1 {
      hcol10 := false;
    }
    if f0 && f1 {
      if !efeature[e] {
        return Keep;
      }
      if efeature[c.wing01.0] || efeature[c.wing01.1] {
        hcol01 := false;
      }
      if efeature[c.wing10.0] || efeature[c.wing10.1] {
        hcol10 := false;
      }
    } else if f0 {
      hcol01 := false;
    } else if f1 {
      hcol10 := false;
    }
    if hcol01 {
      hcol01 := c.collapseOk;
    }
    if hcol10 {
      hcol10 := c.collapseOk;
    }
    assert hcol01 == MayRemoveV0(vlocked, vfeature, efeature, e, c);
    assert hcol10 == MayRemoveV1(vlocked, vfeature, efeature, e, c);
    if hcol01 && hcol10 {
      if c.val0 < c.val1 {
        hcol10 := false;
      } else {
        hcol01 := false;
      }
    }
    if hcol10 {
      var long := AnyTooLong(c.long10);
      return if long then Keep else IntoV0;
    } else if hcol01 {
      var long := AnyTooLong(c.long01);
      return if long then Keep else IntoV1;
    }
    return Keep;
  }

  /// A boundary vertex is never merged into an interior one, a locked vertex
  /// is never removed, and a feature vertex is never merged into a
  /// non-feature one.
  lemma CollapseKeepsProtected(vlocked: seq<bool>, vfeature: seq<bool>, efeature: seq<bool>, e: int, c: CollapseSite)
    requires SiteIn(vlocked, vfeature, efeature, e, c)
    ensures ChoiceAt(vlocked, vfeature, efeature, e, c) == IntoV1 ==>
      !(c.b0 && !c.b1) && !vlocked[c.v0] && !(vfeature[c.v0] && !vfeature[c.v1]) && c.collapseOk
    ensures ChoiceAt(vlocked, vfeature, efeature, e, c) == IntoV0 ==>
      !(c.b1 && !c.b0) && !vlocked[c.v1] && !(vfeature[c.v1] && !vfeature[c.v0]) && c.collapseOk
  {
  }

  /// Two locked ends, two boundary ends on an interior edge, or two feature
  /// ends on a non-feature edge skip the edge.
  lemma SkippedEdgesStay(vlocked: seq<bool>, vfeature: seq<bool>, efeature: seq<bool>, e: int, c: CollapseSite)
    requires SiteIn(vlocked, vfeature, efeature, e, c)
    requires (vlocked[c.v0] && vlocked[c.v1]) || (c.b0 && c.b1 && !c.boundaryEdge) ||
             (vfeature[c.v0] && vfeature[c.v1] && !efeature[e])
    ensures ChoiceAt(vlocked, vfeature, efeature, e, c) == Keep
  {
  }

  /// When both directions are allowed and neither leaves a too long edge,
  /// the end of smaller valence is the one removed, v1 on a tie.
  lemma SmallerValenceRemoved(vlocked: seq<bool>, vfeature: seq<bool>, efeature: seq<bool>, e: int, c: CollapseSite)
    requires SiteIn(vlocked, vfeature, efeature, e, c)
    requires MayRemoveV0(vlocked, vfeature, efeature, e, c) && MayRemoveV1(vlocked, vfeature, efeature, e, c)
    requires true !in c.long01 && true !in c.long10
    ensures ChoiceAt(vlocked, vfeature, efeature, e, c) == (if c.val0 < c.val1 then IntoV1 else IntoV0)
  {
  }

  /// A collapse is made in a direction exactly when that direction is
  /// allowed, wins the valence tie-break if both are, and leaves no too
  /// long edge.
  lemma ChoiceIff(vlocked: seq<bool>, vfeature: seq<bool>, efeature: seq<bool>, e: int, c: CollapseSite)
    requires SiteIn(vlocked, vfeature, efeature, e, c)
    ensures var may0, may1 := MayRemoveV0(vlocked, vfeature, efeature, e, c), MayRemoveV1(vlocked, vfeature, efeature, e, c);
      (ChoiceAt(vlocked, vfeature, efeature, e, c) == IntoV0 <==>
        may1 && (may0 ==> c.val0 >= c.val1) && true !in c.long10) &&
      (ChoiceAt(vlocked, vfeature, efeature, e, c) == IntoV1 <==>
        may0 && (may1 ==> c.val0 < c.val1) && true !in c.long01)
  {
  }

  // ---- collapse_short_edges

  /// The pass collapses edge e of the current mesh: it is live, unlocked and
  /// too short, and the rules choose a direction.
  predicate WouldCollapse(vlocked: seq<bool>, vfeature: seq<bool>, elocked: seq<bool>, efeature: seq<bool>,
                          e: int, c: CollapseSite)
  {
    SiteIn(vlocked, vfeature, efeature, e, c) && e < |elocked| &&
    !c.deleted && !elocked[e] && c.tooShort && ChoiceAt(vlocked, vfeature, efeature, e, c) != Keep
  }

  /// Every site a pass can see names indices inside the lock and feature
  /// arrays.
  ghost predicate CollapseSitesIn(vlocked: seq<bool>, vfeature: seq<bool>, efeature: seq<bool>,
                                  site: (int, int) -> CollapseSite)
  {
    forall k: int, e: int :: 0 <= e < |efeature| ==> SiteIn(vlocked, vfeature, efeature, e, site(k, e))
  }

  /// Every entry of the log is a collapse the pass was allowed to make in
  /// the mesh of its time, in the direction the rules chose.
  ghost predicate CollapsesMade(vlocked: seq<bool>, vfeature: seq<bool>, elocked: seq<bool>, efeature: seq<bool>,
                                site: (int, int) -> CollapseSite, log: seq<(int, Choice)>)
  {
    |log| == 0 ||
    var k := |log| - 1;
    var e := log[k].0;
    CollapsesMade(vlocked, vfeature, elocked, efeature, site, log[..k]) &&
    WouldCollapse(vlocked, vfeature, elocked, efeature, e, site(k, e)) &&
    log[k].1 == ChoiceAt(vlocked, vfeature, efeature, e, site(k, e))
  }

  /// No edge below `upto` would be collapsed in the mesh after k collapses.
  ghost predicate CollapsesSettled(vlocked: seq<bool>, vfeature: seq<bool>, elocked: seq<bool>, efeature: seq<bool>,
                                   site: (int, int) -> CollapseSite, k: int, upto: nat)
  {
    upto == 0 ||
    (CollapsesSettled(vlocked, vfeature, elocked, efeature, site, k, upto - 1) &&
     !WouldCollapse(vlocked, vfeature, elocked, efeature, upto - 1, site(k, upto - 1)))
  }

  /// The k-th entry of a log of allowed collapses was allowed.
  lemma {:induction false} CollapseMadeAt(vlocked: seq<bool>, vfeature: seq<bool>, elocked: seq<bool>, efeature: seq<bool>,
                                          site: (int, int) -> CollapseSite, log: seq<(int, Choice)>, k: nat)
    requires CollapsesMade(vlocked, vfeature, elocked, efeature, site, log) && k < |log|
    ensures WouldCollapse(vlocked, vfeature, elocked, efeature, log[k].0, site(k, log[k].0))
    ensures log[k].1 == ChoiceAt(vlocked, vfeature, efeature, log[k].0, site(k, log[k].0))
    decreases |log|
  {
    var n := |log| - 1;
    if k < n {
      assert log[..n][k] == log[k];
      CollapseMadeAt(vlocked, vfeature, elocked, efeature, site, log[..n], k);
    }
  }

  /// `collapse_short_edges`: passes over all edges, collapsing each live,
  /// unlocked, too short edge in the direction the rules choose, until a
  /// pass collapses nothing or ten passes have run.  `site(k, e)` is edge e
  /// of the mesh after the k-th collapse.  The garbage collection that
  /// follows the passes is the mesh's own.
  method CollapseShortEdges(vlocked: seq<bool>, vfeature: seq<bool>, elocked: seq<bool>, efeature: seq<bool>,
                            site: (int, int) -> CollapseSite)
      returns (log: seq<(int, Choice)>, passes: nat)
    requires |elocked| == |efeature|
    requires CollapseSitesIn(vlocked, vfeature, efeature, site)
    ensures 1 <= passes <= MaxPasses
    ensures CollapsesMade(vlocked, vfeature, elocked, efeature, site, log)
    ensures passes < MaxPasses ==> CollapsesSettled(vlocked, vfeature, elocked, efeature, site, |log|, |elocked|)
  {
    var nE := |elocked|;
    log := [];
    passes := 0;
    var ok := false;
    while !ok && passes < MaxPasses
      invariant passes <= MaxPasses && (passes == 0 ==> !ok)
      invariant CollapsesMade(vlocked, vfeature, elocked, efeature, site, log)
      invariant ok ==> CollapsesSettled(vlocked, vfeature, elocked, efeature, site, |log|, nE)
      decreases MaxPasses - passes
    {
      ok := true;
      for e := 0 to nE
        invariant CollapsesMade(vlocked, vfeature, elocked, efeature, site, log)
        invariant ok ==> CollapsesSettled(vlocked, vfeature, elocked, efeature, site, |log|, e)
      {
        var c := site(|log|, e);
        if !c.deleted && !elocked[e] && c.tooShort {
          var choice := CollapseDecision(vlocked, vfeature, efeature, e, c);
          if choice != Keep {
            assert (log + [(e, choice)])[..|log|] == log;
            log := log + [(e, choice)];
            ok := false;
          }
        }
      }
      passes := passes + 1;
    }
  }

  /// Every collapse made removes an unlocked vertex, never merges a
  /// boundary vertex into an interior one, and never touches a locked edge.
  lemma CollapsesKeepLocks(vlocked: seq<bool>, vfeature: seq<bool>, elocked: seq<bool>, efeature: seq<bool>,
                           site: (int, int) -> CollapseSite, log: seq<(int, Choice)>, k: nat)
    requires CollapsesMade(vlocked, vfeature, elocked, efeature, site, log) && k < |log|
    ensures var e := log[k].0;
      var c := site(k, e);
      0 <= e < |elocked| && !elocked[e] && c.v0 < |vlocked| && c.v1 < |vlocked| &&
      (log[k].1 == IntoV1 ==> !vlocked[c.v0] && !(c.b0 && !c.b1)) &&
      (log[k].1 == IntoV0 ==> !vlocked[c.v1] && !(c.b1 && !c.b0)) &&
      log[k].1 != Keep
  {
    CollapseMadeAt(vlocked, vfeature, elocked, efeature, site, log, k);
    CollapseKeepsProtected(vlocked, vfeature, efeature, log[k].0, site(k, log[k].0));
  }

  // ---- split_long_edges

  /// What `split_long_edges` reads at an edge of the current mesh:
  /// `is_too_long` of its ends and whether it is on the boundary.
  datatype SplitSite = SplitSite(tooLong: bool, boundary: bool)

  /// The flags the remesher keeps per edge (locked, feature) and per vertex
  /// (feature), as the split pass grows them.
  datatype Flags = Flags(elocked: seq<bool>, efeature: seq<bool>, vfeature: seq<bool>)

  /// Splitting an edge of a triangle mesh adds two edges when one side is
  /// the boundary and three otherwise.
  function NewEdges(boundary: bool): nat
  {
    if boundary then 2 else 3
  }

  /// The flags after splitting edge e: every new edge and the new vertex
  /// start unlocked and without feature; if e was a feature, the first new
  /// edge, which continues e beyond the new vertex, and the new vertex
  /// become features.
  function SplitFlags(f: Flags, e: int, st: SplitSite): (r: Flags)
    requires 0 <= e < |f.efeature|
  {
    var feature := f.efeature[e];
    var n := NewEdges(st.boundary);
    Flags(f.elocked + seq(n, i => false),
          f.efeature + seq(n, i => feature && i == 0),
          f.vfeature + [feature])
  }

  /// The flags after the splits of `log`, in order.
  ghost function SplitReplay(f0: Flags, site: (int, int) -> SplitSite, log: seq<int>): Flags
  {
    if |log| == 0 then f0
    else
      var k := |log| - 1;
      var f := SplitReplay(f0, site, log[..k]);
      if 0 <= log[k] < |f.efeature| then SplitFlags(f, log[k], site(k, log[k])) else f
  }

  /// The pass splits edge e when it is unlocked and too long.
  predicate WouldSplit(f: Flags, e: int, st: SplitSite)
  {
    0 <= e < |f.elocked| && e < |f.efeature| && !f.elocked[e] && st.tooLong
  }

  /// Every split of the log was made at an unlocked, too long edge of the
  /// mesh of its time.
  ghost predicate SplitsMade(f0: Flags, site: (int, int) -> SplitSite, log: seq<int>)
  {
    |log| == 0 ||
    var k := |log| - 1;
    SplitsMade(f0, site, log[..k]) && WouldSplit(SplitReplay(f0, site, log[..k]), log[k], site(k, log[k]))
  }

  /// No edge below `upto` would be split in the mesh after k splits.
  ghost predicate SplitsSettled(f: Flags, site: (int, int) -> SplitSite, k: int, upto: nat)
  {
    upto == 0 || (SplitsSettled(f, site, k, upto - 1) && !WouldSplit(f, upto - 1, site(k, upto - 1)))
  }

  /// One split, as the pass performs it: `split(e, vnew)` pushes a slot for
  /// every new edge and for the new vertex into each property, then the two
  /// feature flags are set when e is a feature.  The new feature edge is
  /// `Edge(n_edges() - 2)` after a boundary split and `Edge(n_edges() - 3)`
  /// otherwise, with `n_edges()` the edge count after the split.
  method SplitOne(f: Flags, e: int, st: SplitSite) returns (r: Flags)
    requires 0 <= e < |f.efeature| && |f.elocked| == |f.efeature|
    ensures r == SplitFlags(f, e, st)
  {
    var isFeature := f.efeature[e];
    var elocked, efeature, vfeature := f.elocked, f.efeature, f.vfeature;
    var n := if st.boundary then 2 else 3;
    for i := 0 to n
      invariant |elocked| == |efeature| == |f.efeature| + i
      invariant elocked == f.elocked + seq(i, j => false)
      invariant efeature == f.efeature + seq(i, j => false)
    {
      elocked := elocked + [false];
      efeature := efeature + [false];
    }
    var vnew := |vfeature|;
    vfeature := vfeature + [false];
    if isFeature {
      var enew := |efeature| - n;
      efeature := efeature[enew := true];
      vfeature := vfeature[vnew := true];
    }
    r := Flags(elocked, efeature, vfeature);
  }

  /// `split_long_edges`: passes over the edges that exist when the pass
  /// starts, splitting each unlocked, too long one at its midpoint, until a
  /// pass splits nothing or ten passes have run.  `site(k, e)` is edge e of
  /// the mesh after the k-th split.
  method SplitLongEdges(f0: Flags, site: (int, int) -> SplitSite) returns (f: Flags, log: seq<int>, passes: nat)
    requires |f0.elocked| == |f0.efeature|
    ensures 1 <= passes <= MaxPasses
    ensures SplitsMade(f0, site, log)
    ensures f == SplitReplay(f0, site, log)
    ensures passes < MaxPasses ==> SplitsSettled(f, site, |log|, |f.elocked|)
  {
    f := f0;
    log := [];
    passes := 0;
    var ok := false;
    while !ok && passes < MaxPasses
      invariant passes <= MaxPasses && (passes == 0 ==> !ok)
      invariant |f.elocked| == |f.efeature|
      invariant SplitsMade(f0, site, log) && f == SplitReplay(f0, site, log)
      invariant ok ==> SplitsSettled(f, site, |log|, |f.elocked|)
      decreases MaxPasses - passes
    {
      ok := true;
      var nE := |f.elocked|;
      for e := 0 to nE
        invariant |f.elocked| == |f.efeature| >= nE
        invariant SplitsMade(f0, site, log) && f == SplitReplay(f0, site, log)
        invariant ok ==> |f.elocked| == nE && SplitsSettled(f, site, |log|, e)
      {
        var st := site(|log|, e);
        if !f.elocked[e] && st.tooLong {
          assert (log + [e])[..|log|] == log;
          f := SplitOne(f, e, st);
          log := log + [e];
          ok := false;
        }
      }
      passes := passes + 1;
    }
  }

  /// The split pass only appends: the flags of the edges and vertices that
  /// were there are kept, every new edge is unlocked, the new vertices are
  /// one per split, and the two edge arrays stay the same length.
  lemma {:induction false} SplitReplayGrows(f0: Flags, site: (int, int) -> SplitSite, log: seq<int>)
    requires |f0.elocked| == |f0.efeature| && SplitsMade(f0, site, log)
    ensures var f := SplitReplay(f0, site, log);
      |f.elocked| == |f.efeature| >= |f0.elocked| &&
      f.elocked[..|f0.elocked|] == f0.elocked && f.efeature[..|f0.efeature|] == f0.efeature &&
      (forall i :: |f0.elocked| <= i < |f.elocked| ==> !f.elocked[i]) &&
      |f.vfeature| == |f0.vfeature| + |log| && f.vfeature[..|f0.vfeature|] == f0.vfeature
    decreases |log|
  {
    if |log| > 0 {
      var k := |log| - 1;
      SplitReplayGrows(f0, site, log[..k]);
      var f := SplitReplay(f0, site, log[..k]);
      var g := SplitFlags(f, log[k], site(k, log[k]));
      assert g.elocked[..|f0.elocked|] == f.elocked[..|f0.elocked|];
      assert g.efeature[..|f0.efeature|] == f.efeature[..|f0.efeature|];
      assert g.vfeature[..|f0.vfeature|] == f.vfeature[..|f0.vfeature|];
    }
  }

  /// Locked edges are never split: an edge of the input that the pass
  /// split was unlocked there.
  lemma {:induction false} LockedEdgesNotSplit(f0: Flags, site: (int, int) -> SplitSite, log: seq<int>, k: nat)
    requires |f0.elocked| == |f0.efeature| && SplitsMade(f0, site, log) && k < |log|
    ensures 0 <= log[k] && (log[k] < |f0.elocked| ==> !f0.elocked[log[k]])
    ensures site(k, log[k]).tooLong
    decreases |log|
  {
    var n := |log| - 1;
    if k < n {
      assert log[..n][k] == log[k];
      LockedEdgesNotSplit(f0, site, log[..n], k);
    } else {
      SplitReplayGrows(f0, site, log[..n]);
      var f := SplitReplay(f0, site, log[..n]);
      if log[k] < |f0.elocked| {
        assert f.elocked[..|f0.elocked|][log[k]] == f.elocked[log[k]];
      }
    }
  }

  /// Splitting a feature edge makes the new vertex a feature, and the new
  /// vertex is a feature only then.
  lemma SplitMarksFeature(f: Flags, e: int, st: SplitSite)
    requires 0 <= e < |f.efeature|
    ensures var r := SplitFlags(f, e, st);
      r.vfeature[|f.vfeature|] == f.efeature[e] &&
      |r.efeature| == |f.efeature| + NewEdges(st.boundary) &&
      r.efeature[|f.efeature|] == f.efeature[e] &&
      forall i :: |f.efeature| < i < |r.efeature| ==> !r.efeature[i]
  {
  }

  // ---- locking in preprocessing

  /// Some vertex is selected: the mesh has a `v:selected` property and it
  /// holds somewhere.
  predicate HasSelection(selected: Option<seq<bool>>)
  {
    selected.Some? && true in selected.value
  }

  /// The number of feature edges among `edges`.
  function FeatureCount(edges: seq<nat>, efeature: seq<bool>): nat
  {
    if |edges| == 0 then 0
    else
      var n := |edges| - 1;
      FeatureCount(edges[..n], efeature) + (if edges[n] < |efeature| && efeature[edges[n]] then 1 else 0)
  }

  /// The mesh facts `preprocessing` reads: the optional `v:selected`
  /// property, the two vertices of every edge, the feature flags, and for
  /// each vertex the edges of its outgoing halfedges.
  predicate LockInput(selected: Option<seq<bool>>, ends: seq<(nat, nat)>, vfeature: seq<bool>,
                      efeature: seq<bool>, around: seq<seq<nat>>)
  {
    |around| == |vfeature| && |ends| == |efeature| &&
    (selected.Some? ==> |selected.value| == |vfeature|) &&
    (forall e :: 0 <= e < |ends| ==> ends[e].0 < |vfeature| && ends[e].1 < |vfeature|)
  }

  /// A vertex is locked when a selection exists and it is not selected, or
  /// when it is a feature vertex on other than exactly two feature edges.
  predicate VertexLocked(selected: Option<seq<bool>>, vfeature: seq<bool>, efeature: seq<bool>,
                         around: seq<seq<nat>>, v: int)
    requires 0 <= v < |vfeature| == |around| && (selected.Some? ==> |selected.value| == |vfeature|)
  {
    (HasSelection(selected) && !selected.value[v]) || (vfeature[v] && FeatureCount(around[v], efeature) != 2)
  }

  /// An edge is locked when a selection exists and one of its ends is not
  /// selected; locking a feature corner does not lock its edges.
  predicate EdgeLocked(selected: Option<seq<bool>>, ends: seq<(nat, nat)>, e: int)
    requires 0 <= e < |ends|
    requires selected.Some? ==> ends[e].0 < |selected.value| && ends[e].1 < |selected.value|
  {
    HasSelection(selected) && (!selected.value[ends[e].0] || !selected.value[ends[e].1])
  }

  /// The scan for a selected vertex, stopping at the first.
  method AnySelected(selected: seq<bool>) returns (r: bool)
    ensures r <==> true in selected
  {
    for i := 0 to |selected|
      invariant true !in selected[..i]
    {
      if selected[i] {
        assert selected[i] in selected;
        return true;
      }
    }
    assert selected[..|selected|] == selected;
    return false;
  }

  /// Counting the feature edges around one vertex.
  method CountFeatures(edges: seq<nat>, efeature: seq<bool>) returns (c: nat)
    ensures c == FeatureCount(edges, efeature)
  {
    c := 0;
    for i := 0 to |edges|
      invariant c == FeatureCount(edges[..i], efeature)
    {
      assert edges[..i + 1][..i] == edges[..i];
      if edges[i] < |efeature| && efeature[edges[i]] {
        c := c + 1;
      }
    }
    assert edges[..|edges|] == edges;
  }

  /// The locking part of `preprocessing`: both lock properties start all
  /// false; with a selection, unselected vertices and the edges touching
  /// them are locked; then every feature vertex with other than two feature
  /// edges is locked.
  method Lock(selected: Option<seq<bool>>, ends: seq<(nat, nat)>, vfeature: seq<bool>,
              efeature: seq<bool>, around: seq<seq<nat>>)
      returns (vlocked: seq<bool>, elocked: seq<bool>)
    requires LockInput(selected, ends, vfeature, efeature, around)
    ensures |vlocked| == |vfeature| && |elocked| == |ends|
    ensures forall v :: 0 <= v < |vlocked| ==> vlocked[v] == VertexLocked(selected, vfeature, efeature, around, v)
    ensures forall e :: 0 <= e < |elocked| ==> elocked[e] == EdgeLocked(selected, ends, e)
  {
    var nV, nE := |vfeature|, |ends|;
    vlocked := seq(nV, v => false);
    elocked := seq(nE, e => false);
    var hasSelection := false;
    if selected.Some? {
      hasSelection := AnySelected(selected.value);
    }
    assert hasSelection == HasSelection(selected);
    if hasSelection {
      var sel := selected.value;
      for v := 0 to nV
        invariant |vlocked| == nV
        invariant forall w :: 0 <= w < v ==> vlocked[w] == !sel[w]
        invariant forall w :: v <= w < nV ==> !vlocked[w]
      {
        vlocked := vlocked[v := !sel[v]];
      }
      for e := 0 to nE
        invariant |elocked| == nE
        invariant forall d :: 0 <= d < e ==> elocked[d] == EdgeLocked(selected, ends, d)
        invariant forall d :: e <= d < nE ==> !elocked[d]
      {
        elocked := elocked[e := vlocked[ends[e].0] || vlocked[ends[e].1]];
      }
    }
    for v := 0 to nV
      invariant |vlocked| == nV
      invariant forall w :: 0 <= w < v ==> vlocked[w] == VertexLocked(selected, vfeature, efeature, around, w)
      invariant forall w :: v <= w < nV ==> vlocked[w] == (hasSelection && !selected.value[w])
    {
      if vfeature[v] {
        var c := CountFeatures(around[v], efeature);
        if c != 2 {
          vlocked := vlocked[v := true];
        }
      }
    }
  }

  // ---- setup and clean-up

  /// The names of the mesh's vertex and edge properties.
  datatype PropertyNames = PropertyNames(vertex: set<string>, edge: set<string>)

  /// The remesher's constructor refuses a mesh that is not all triangles;
  /// otherwise it notes whether the feature properties already exist.
  function Setup(isTriangleMesh: bool, names: PropertyNames): (r: Outcome<(bool, bool)>)
    ensures r.Fail? <==> !isTriangleMesh
    ensures r.Fail? ==> r.error == InvalidInputError
    ensures r.Ok? ==> r.value == ("v:feature" in names.vertex, "e:feature" in names.edge)
  {
    if !isTriangleMesh then Fail(InvalidInputError)
    else Ok(("v:feature" in names.vertex, "e:feature" in names.edge))
  }

  /// `preprocessing` gets or adds the feature properties and adds the lock
  /// and sizing properties.
  function Preprocessed(names: PropertyNames): PropertyNames
  {
    PropertyNames(names.vertex + {"v:feature", "v:locked", "v:sizing"}, names.edge + {"e:feature", "e:locked"})
  }

  /// `postprocessing` removes the lock and sizing properties, and the
  /// feature properties unless they existed when the remesher was made.
  function Postprocessed(names: PropertyNames, hadVertexFeatures: bool, hadEdgeFeatures: bool): PropertyNames
  {
    PropertyNames(names.vertex - {"v:locked", "v:sizing"} - (if hadVertexFeatures then {} else {"v:feature"}),
                  names.edge - {"e:locked"} - (if hadEdgeFeatures then {} else {"e:feature"}))
  }

  /// The properties a remeshing run leaves are the ones the mesh had: the
  /// temporary ones are gone and the feature ones survive only if they were
  /// there before.  (The lock and sizing names must be free: `add` refuses
  /// a used name, and the passes would then write through an invalid
  /// property.)
  lemma PropertiesRestored(isTriangleMesh: bool, names: PropertyNames)
    requires Setup(isTriangleMesh, names).Ok?
    requires "v:locked" !in names.vertex && "v:sizing" !in names.vertex && "e:locked" !in names.edge
    ensures var had := Setup(isTriangleMesh, names).value;
      Postprocessed(Preprocessed(names), had.0, had.1) == names
  {
    var had := Setup(isTriangleMesh, names).value;
    var after := Postprocessed(Preprocessed(names), had.0, had.1);
    assert after.vertex == names.vertex;
    assert after.edge == names.edge;
  }
}
