/** Cuts of a byte string into pieces. */
module Tiling {
  /** A cut with one length for each offset. Pieces may overlap. */
  type Pieces = map<nat, nat>

  ghost predicate Covered(pieces: Pieces, x: nat) {
    exists o :: o in pieces && o <= x < o + pieces[o]
  }

  /** The pieces cover the stream without overlap. */
  ghost predicate IsTiling(pieces: Pieces, n: nat) {
    && (forall o :: o in pieces ==> pieces[o] > 0 && o + pieces[o] <= n)
    && (forall o, p :: o in pieces && p in pieces && o < p ==> o + pieces[o] <= p)
    && (forall x: nat :: x < n ==> Covered(pieces, x))
  }

  /** `x` is not inside a piece. */
  ghost predicate AtBoundary(pieces: Pieces, x: nat) {
    forall o :: o in pieces && o < x ==> o + pieces[o] <= x
  }

  lemma BoundaryStartsTile(pieces: Pieces, n: nat, x: nat)
    requires IsTiling(pieces, n) && AtBoundary(pieces, x) && x < n
    ensures x in pieces && AtBoundary(pieces, x + pieces[x])
  {
    assert Covered(pieces, x);
  }
}
