/** The exact building blocks of the one-dimensional finite-element heat
    solver: the linear Lagrange shape functions on the reference element
    [-1, 1], the affine map from the reference element onto [x1, x2], and the
    in-place scatter of a 2×2 element matrix into a global matrix. */
module FeFunctions {

  /** `lagrange1`: the shape function that is 1 at ξ = -1 and 0 at ξ = 1. */
  function Lagrange1(x: real): real {
    (1.0 - x) / 2.0
  }

  /** `lagrange2`: the shape function that is 0 at ξ = -1 and 1 at ξ = 1. */
  function Lagrange2(x: real): real {
    (1.0 + x) / 2.0
  }

  /** The two shape functions sum to one everywhere on the reference line. */
  lemma PartitionOfUnity(x: real)
    ensures Lagrange1(x) + Lagrange2(x) == 1.0
  {
  }

  /** Each shape function is 1 at its own node and 0 at the other one. */
  lemma NodalValues()
    ensures Lagrange1(-1.0) == 1.0 && Lagrange1(1.0) == 0.0
    ensures Lagrange2(-1.0) == 0.0 && Lagrange2(1.0) == 1.0
  {
  }

  /** The affine map of `mappedForcingFunction` from ξ in [-1, 1] onto [x1, x2]. */
  function ReferenceMap(x1: real, x2: real, x: real): real {
    ((x2 - x1) / 2.0) * (x + 1.0) + x1
  }

  /** The map sends the reference end points to the element's end points. */
  lemma ReferenceMapEndpoints(x1: real, x2: real)
    ensures ReferenceMap(x1, x2, -1.0) == x1
    ensures ReferenceMap(x1, x2, 1.0) == x2
  {
  }

  /** The map is the linear interpolation of the two end points through the
      shape functions, so it is affine: x1·N1(ξ) + x2·N2(ξ). */
  lemma ReferenceMapInterpolates(x1: real, x2: real, x: real)
    ensures ReferenceMap(x1, x2, x) == x1 * Lagrange1(x) + x2 * Lagrange2(x)
  {
  }

  /** Equal steps along the reference line give equal steps along the element. */
  lemma ReferenceMapAffine(x1: real, x2: real, x: real, y: real)
    ensures ReferenceMap(x1, x2, y) - ReferenceMap(x1, x2, x) == ((x2 - x1) / 2.0) * (y - x)
  {
  }

  /** `mappedForcingFunction`: the forcing term, a parameter here, evaluated at
      the image of ξ on [x1, x2]. */
  function MappedForcing(forcing: (real, real) -> real, x1: real, x2: real, x: real, t: real): real {
    forcing(ReferenceMap(x1, x2, x), t)
  }

  /** A 2×2 element matrix `[[a00, a01], [a10, a11]]`. */
  datatype Local = Local(a00: real, a01: real, a10: real, a11: real)

  predicate Symmetric(l: Local) {
    l.a01 == l.a10
  }

  /** What element `i` adds to entry (r, c) of the global matrix: its local
      entry when r and c both lie in {i, i+1}, nothing otherwise. */
  function Contribution(l: Local, i: nat, r: nat, c: nat): real {
    if r == i && c == i then l.a00
    else if r == i && c == i + 1 then l.a01
    else if r == i + 1 && c == i then l.a10
    else if r == i + 1 && c == i + 1 then l.a11
    else 0.0
  }

  /** `globalAssemble`: adds the four local entries into rows and columns i and
      i+1 of G, in place, and returns that same matrix. */
  method GlobalAssemble(G: array2<real>, l: Local, i: nat) returns (H: array2<real>)
    requires i + 1 < G.Length0 && i + 1 < G.Length1
    modifies G
    ensures H == G
    ensures forall r, c :: 0 <= r < G.Length0 && 0 <= c < G.Length1 ==>
      G[r, c] == old(G[r, c]) + Contribution(l, i, r, c)
  {
    G[i, i] := G[i, i] + l.a00;
    G[i, i + 1] := G[i, i + 1] + l.a01;
    G[i + 1, i] := G[i + 1, i] + l.a10;
    G[i + 1, i + 1] := G[i + 1, i + 1] + l.a11;
    H := G;
  }

  /** An element only touches the 2×2 block at (i, i); outside it nothing is
      added, and a symmetric local matrix makes a symmetric contribution. */
  lemma ContributionShape(l: Local, i: nat, r: nat, c: nat)
    ensures (r != i && r != i + 1) || (c != i && c != i + 1) ==> Contribution(l, i, r, c) == 0.0
    ensures Symmetric(l) ==> Contribution(l, i, r, c) == Contribution(l, i, c, r)
  {
  }
}
