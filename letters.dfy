/**
 * Single-site Pauli letters with the global phase ignored: the four kinds of
 * factor a sparse Pauli operator can carry on one qubit, the textbook rules
 * for multiplying them, and the textbook images of each letter under
 * conjugation by a Hadamard or a CNOT gate.
 *
 * Nothing here looks at sets of labels. These tables are the independent
 * reference against which the set-based operations of the Pauli class are
 * proved, site by site.
 */
module Letters {

  datatype Letter = I | X | Y | Z

  /** Phaseless product: every letter squares to I, I is neutral, and two
      distinct non-identity letters multiply to the third one. */
  function Product(l: Letter, m: Letter): Letter
  {
    if l == I then m
    else if m == I then l
    else if l == m then I
    else if l != X && m != X then X
    else if l != Y && m != Y then Y
    else Z
  }

  /** Two single-qubit Paulis anticommute exactly when both are non-identity
      and they differ. */
  predicate Anticommute(l: Letter, m: Letter)
  {
    l != I && m != I && l != m
  }

  /** Conjugation by a Hadamard: X and Z are exchanged, I and Y stay
      (Y picks up a sign, which a phaseless letter does not record). */
  function HadamardImage(l: Letter): Letter
  {
    match l
    case X => Z
    case Z => X
    case I => I
    case Y => Y
  }

  /** Conjugation by a CNOT, as (control letter, target letter). Generated by
      X⊗I -> X⊗X, I⊗X -> I⊗X, Z⊗I -> Z⊗I, I⊗Z -> Z⊗Z; signs are dropped. */
  function CnotImage(c: Letter, t: Letter): (Letter, Letter)
  {
    match (c, t)
    case (I, I) => (I, I)
    case (I, X) => (I, X)
    case (I, Y) => (Z, Y)
    case (I, Z) => (Z, Z)
    case (X, I) => (X, X)
    case (X, X) => (X, I)
    case (X, Y) => (Y, Z)
    case (X, Z) => (Y, Y)
    case (Y, I) => (Y, X)
    case (Y, X) => (Y, I)
    case (Y, Y) => (X, Z)
    case (Y, Z) => (X, Y)
    case (Z, I) => (Z, I)
    case (Z, X) => (Z, X)
    case (Z, Y) => (I, Y)
    case (Z, Z) => (I, Z)
  }

  /** Number of anticommuting sites in a two-site pair of operators. */
  function PairAnticommutations(ac: Letter, at: Letter, bc: Letter, bt: Letter): nat
  {
    (if Anticommute(ac, bc) then 1 else 0) + (if Anticommute(at, bt) then 1 else 0)
  }

  lemma HadamardImageInvolutive(l: Letter)
    ensures HadamardImage(HadamardImage(l)) == l
  {
  }

  lemma CnotImageInvolutive(c: Letter, t: Letter)
    ensures CnotImage(CnotImage(c, t).0, CnotImage(c, t).1) == (c, t)
  {
  }

  lemma HadamardImageKeepsAnticommute(l: Letter, m: Letter)
    ensures Anticommute(HadamardImage(l), HadamardImage(m)) == Anticommute(l, m)
  {
  }

  /** CNOT conjugation may change which of the two sites anticommute, but never
      the parity of their number. */
  lemma CnotImageKeepsParity(ac: Letter, at: Letter, bc: Letter, bt: Letter)
    ensures PairAnticommutations(CnotImage(ac, at).0, CnotImage(ac, at).1,
                                 CnotImage(bc, bt).0, CnotImage(bc, bt).1) % 2
            == PairAnticommutations(ac, at, bc, bt) % 2
  {
  }
}
