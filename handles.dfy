/// Handle types and the index arithmetic of the halfedge data structure.
///
/// A handle is a plain index into the per-element arrays.  The invalid handle
/// holds the largest value of the 32-bit index type, and the two halfedges of
/// edge e are stored next to each other at 2e and 2e+1.
module Handles {

  /// Largest value of the default 32-bit index type; used as the invalid index.
  const MaxIndex: nat := 0xFFFF_FFFF

  /// The index held by a default-constructed handle.
  const Invalid: nat := MaxIndex

  type Vertex = nat
  type Halfedge = nat
  type Edge = nat
  type Face = nat

  /// A handle is valid iff its index is not the sentinel.
  predicate IsValid(idx: nat) { idx != Invalid }

  /// `reset()` turns any handle into the default one.
  function Reset(idx: nat): (r: nat)
    ensures !IsValid(r)
  { Invalid }

  /// The other halfedge of the same edge: odd indices step down, even ones up.
  function Opposite(h: Halfedge): (o: Halfedge)
    ensures o != h
  {
    if h % 2 == 1 then h - 1 else h + 1
  }

  /// The edge of a halfedge, `h >> 1`.
  function EdgeOf(h: Halfedge): (e: Edge)
    ensures 2 * e <= h <= 2 * e + 1
  {
    h / 2
  }

  /// The i-th halfedge of edge e, `(e << 1) + i`.
  function HalfedgeOf(e: Edge, i: nat): (h: Halfedge)
    requires i <= 1
    ensures h / 2 == e && h % 2 == i
  {
    2 * e + i
  }

  lemma OppositeInvolution(h: Halfedge)
    ensures Opposite(Opposite(h)) == h
    ensures Opposite(h) != h
    ensures EdgeOf(Opposite(h)) == EdgeOf(h)
  {
  }

  /// The two halfedges of an edge differ in their lowest bit only.
  lemma OppositeParity(h: Halfedge)
    ensures Opposite(h) / 2 == h / 2 && Opposite(h) % 2 == 1 - h % 2
  {
  }

  lemma EdgeHalfedgeRoundTrip(e: Edge, h: Halfedge)
    ensures EdgeOf(HalfedgeOf(e, 0)) == e && EdgeOf(HalfedgeOf(e, 1)) == e
    ensures HalfedgeOf(EdgeOf(h), h % 2) == h
    ensures Opposite(HalfedgeOf(e, 0)) == HalfedgeOf(e, 1)
  {
  }

  /// Halfedge indices below 2n are exactly the halfedges of edges below n.
  lemma HalfedgeRange(h: Halfedge, n: nat)
    ensures h < 2 * n <==> EdgeOf(h) < n
    ensures h < 2 * n <==> Opposite(h) < 2 * n
  {
  }
}
