/**
 * The Pauli class: a phaseless sparse Pauli operator stored as two mutable
 * sets of qubit labels. Multiplication, commutation and equality leave the
 * object alone; the Hadamard and CNOT gates conjugate it in place.
 *
 * Each member is specified by the value-level function of module
 * PauliAlgebra (or Rendering) that gives its meaning; the laws are proved
 * about those functions.
 */
module SparsePauli {
  import opened Letters
  import opened PauliAlgebra
  import opened Rendering

  /** The text is "I" for an empty support and otherwise the tokens of the
      sorted support. The tokens are stated for `support[..|support|]`, the
      prefix the loop of `ToString` has covered when it exits. */
  lemma RenderFromSorted(p: PauliValue, support: seq<int>)
    requires support == Sorted(p.xs + p.zs)
    ensures Render(p) == if |support| == 0 then "I" else Tokens(p, support[..|support|])
  {
    assert support[..|support|] == support;
    if |support| == 0 {
      assert Support(p) == {};
    }
  }

  /** One round of the loop in `__str__` appends the token of the next label,
      whose letter is Y in both sets, X in `x_set` only and Z otherwise. */
  lemma AppendToken(p: PauliValue, support: seq<int>, i: nat, c: char)
    requires support == Sorted(p.xs + p.zs) && i < |support|
    requires c == if support[i] in p.xs then (if support[i] in p.zs then 'Y' else 'X') else 'Z'
    ensures Tokens(p, support[..i + 1]) == Tokens(p, support[..i]) + Format(c, support[i])
  {
    assert support[i] in support;
    TokenOfSupportLabel(p, support[i], c);
    TokensPrefix(p, support, i);
  }

  /** The letter chosen by the loop is the letter of the label. */
  lemma TokenOfSupportLabel(p: PauliValue, q: int, c: char)
    requires q in p.xs + p.zs
    requires c == if q in p.xs then (if q in p.zs then 'Y' else 'X') else 'Z'
    ensures Token(LetterAt(p, q), q) == Format(c, q)
  {
  }

  class Pauli {
    var xSet: set<int>
    var zSet: set<int>

    /** `Pauli(x_set, z_set)`: the object owns its own copies of both sets. */
    constructor (xs: set<int>, zs: set<int>)
      ensures xSet == xs && zSet == zs
    {
      xSet := xs;
      zSet := zs;
    }

    /** The operator the object holds now. */
    function Value(): PauliValue
      reads this
    {
      PauliValue(xSet, zSet)
    }

    /** `__str__`: the sorted support, one token per label, built up in a loop. */
    method ToString() returns (s: string)
      ensures s == Render(Value())
    {
      ghost var p := Value();
      var support := Sorted(xSet + zSet);
      RenderFromSorted(p, support);
      if |support| == 0 {
        return "I";
      }
      s := "";
      for i := 0 to |support|
        invariant s == Tokens(p, support[..i])
      {
        var q := support[i];
        var c := if q in xSet then (if q in zSet then 'Y' else 'X') else 'Z';
        AppendToken(p, support, i, c);
        s := s + Format(c, q);
      }
    }

    /** `__eq__`: structural equality of both sets. */
    function Equals(other: Pauli): (r: bool)
      reads this, other
      ensures r <==> Value() == other.Value()
    {
      if xSet == other.xSet then zSet == other.zSet else false
    }

    /** `__mul__`: a new object; neither operand changes (no modifies clause). */
    method Multiply(other: Pauli) returns (r: Pauli)
      ensures fresh(r)
      ensures r.Value() == Mul(Value(), other.Value())
    {
      r := new Pauli(SymDiff(xSet, other.xSet), SymDiff(zSet, other.zSet));
    }

    /** `com`: 1 exactly when the two operators anticommute, that is when they
        anticommute on an odd number of sites. */
    function Com(other: Pauli): (r: nat)
      reads this, other
      ensures r < 2
      ensures r == 1 <==> |AnticommutingSites(Value(), other.Value())| % 2 == 1
    {
      ComCountsAnticommutingSites(Value(), other.Value());
      PauliAlgebra.Com(Value(), other.Value())
    }

    /** `cnot(ctrl_targs)`: the pairs are applied in sequence order, each
        toggling the two sets in place. */
    method Cnot(pairs: seq<(int, int)>)
      modifies this
      ensures Value() == CnotAll(old(Value()), pairs)
    {
      for i := 0 to |pairs|
        invariant CnotAll(Value(), pairs[i..]) == CnotAll(old(Value()), pairs)
      {
        var (ctrl, targ) := pairs[i];
        ghost var before := Value();
        if ctrl in xSet {
          xSet := SymDiff(xSet, {targ});
        }
        if targ in zSet {
          zSet := SymDiff(zSet, {ctrl});
        }
        assert Value() == CnotStep(before, ctrl, targ);
        assert pairs[i..][1..] == pairs[i + 1..];
      }
    }

    /** `h(qs)`: the labels of qs in exactly one of the sets switch sets. */
    method H(qs: set<int>)
      modifies this
      ensures Value() == Hadamard(old(Value()), qs)
    {
      var switches := SymDiff(xSet, zSet) * qs;
      xSet := SymDiff(xSet, switches);
      zSet := SymDiff(zSet, switches);
    }
  }
}
