/**
 * The value view of a phaseless sparse Pauli operator: two finite sets of
 * integer qubit labels. A label in `xs` only is an X site, in `zs` only a Z
 * site, in both a Y site, in neither an identity site.
 *
 * Every operation of the Pauli class is given here as a function on values;
 * its contract says what it does site by site, in terms of the single-qubit
 * tables of module Letters. The lemmas state the algebraic laws.
 */
module PauliAlgebra {
  import opened Letters

  datatype PauliValue = PauliValue(xs: set<int>, zs: set<int>)

  /** The operator with no non-identity site, `Pauli({}, {})`. */
  const Identity: PauliValue := PauliValue({}, {})

  /** Python's `^` on sets. */
  function SymDiff(a: set<int>, b: set<int>): (r: set<int>)
    ensures forall q :: q in r <==> (q in a) != (q in b)
  {
    (a - b) + (b - a)
  }

  /** The single-qubit letter an operator carries at label q. */
  function LetterAt(p: PauliValue, q: int): (l: Letter)
    ensures (l == X || l == Y) <==> q in p.xs
    ensures (l == Z || l == Y) <==> q in p.zs
  {
    if q in p.xs then (if q in p.zs then Y else X)
    else if q in p.zs then Z
    else I
  }

  /** The labels on which p acts non-trivially. */
  function Support(p: PauliValue): (s: set<int>)
    ensures forall q :: q in s <==> LetterAt(p, q) != I
  {
    p.xs + p.zs
  }

  /** An operator is determined by its letters. */
  lemma SameLetters(a: PauliValue, b: PauliValue)
    requires forall q :: LetterAt(a, q) == LetterAt(b, q)
    ensures a == b
  {
    forall q ensures q in a.xs <==> q in b.xs {
      assert LetterAt(a, q) == LetterAt(b, q);
    }
    forall q ensures q in a.zs <==> q in b.zs {
      assert LetterAt(a, q) == LetterAt(b, q);
    }
  }

  // ---------------------------------------------------------------------------
  // Multiplication
  // ---------------------------------------------------------------------------

  /** `a * b`: symmetric difference of the X sets and of the Z sets; on every
      site the result is the phaseless product of the two letters. */
  function Mul(a: PauliValue, b: PauliValue): (r: PauliValue)
    ensures forall q :: (q in r.xs <==> (q in a.xs) != (q in b.xs))
                     && (q in r.zs <==> (q in a.zs) != (q in b.zs))
  {
    PauliValue(SymDiff(a.xs, b.xs), SymDiff(a.zs, b.zs))
  }

  /** On every site the product carries the phaseless product of the two letters. */
  lemma MulLetters(a: PauliValue, b: PauliValue, q: int)
    ensures LetterAt(Mul(a, b), q) == Product(LetterAt(a, q), LetterAt(b, q))
  {
  }

  lemma MulCommutative(a: PauliValue, b: PauliValue)
    ensures Mul(a, b) == Mul(b, a)
  {
    assert Mul(a, b).xs == Mul(b, a).xs;
    assert Mul(a, b).zs == Mul(b, a).zs;
  }

  lemma MulAssociative(a: PauliValue, b: PauliValue, c: PauliValue)
    ensures Mul(Mul(a, b), c) == Mul(a, Mul(b, c))
  {
    assert Mul(Mul(a, b), c).xs == Mul(a, Mul(b, c)).xs;
    assert Mul(Mul(a, b), c).zs == Mul(a, Mul(b, c)).zs;
  }

  lemma MulIdentity(a: PauliValue)
    ensures Mul(a, Identity) == a && Mul(Identity, a) == a
  {
    assert Mul(a, Identity).xs == a.xs && Mul(a, Identity).zs == a.zs;
    assert Mul(Identity, a).xs == a.xs && Mul(Identity, a).zs == a.zs;
  }

  lemma MulSelfInverse(a: PauliValue)
    ensures Mul(a, a) == Identity
  {
    assert Mul(a, a).xs == {};
    assert Mul(a, a).zs == {};
  }

  // ---------------------------------------------------------------------------
  // Commutation parity
  // ---------------------------------------------------------------------------

  /** `com`: 1 when the operators anticommute, 0 when they commute. */
  function Com(a: PauliValue, b: PauliValue): (r: nat)
    ensures r < 2
  {
    (|a.xs * b.zs| + |a.zs * b.xs|) % 2
  }

  /** The sites on which the letters of a and b anticommute. */
  function AnticommutingSites(a: PauliValue, b: PauliValue): set<int>
  {
    set q | q in Support(a) && Anticommute(LetterAt(a, q), LetterAt(b, q))
  }

  lemma CardSymDiff(s: set<int>, t: set<int>)
    ensures |SymDiff(s, t)| + 2 * |s * t| == |s| + |t|
  {
    assert s == (s - t) + (s * t);
    assert t == (t - s) + (s * t);
    assert (s - t) !! (s * t) && (t - s) !! (s * t) && (s - t) !! (t - s);
    assert |s| == |s - t| + |s * t|;
    assert |t| == |t - s| + |s * t|;
  }

  lemma SymDiffParity(s: set<int>, t: set<int>)
    ensures |SymDiff(s, t)| % 2 == (|s| + |t|) % 2
  {
    CardSymDiff(s, t);
  }

  /** The set formula computes the parity of the number of anticommuting
      sites, which is what decides whether two tensor products commute. */
  lemma ComCountsAnticommutingSites(a: PauliValue, b: PauliValue)
    ensures Com(a, b) == |AnticommutingSites(a, b)| % 2
  {
    var sites := AnticommutingSites(a, b);
    forall q ensures q in sites <==> (q in a.xs * b.zs) != (q in a.zs * b.xs) {
      assert q in sites <==> q in Support(a) && Anticommute(LetterAt(a, q), LetterAt(b, q));
    }
    assert sites == SymDiff(a.xs * b.zs, a.zs * b.xs);
    SymDiffParity(a.xs * b.zs, a.zs * b.xs);
  }

  lemma ComSymmetric(a: PauliValue, b: PauliValue)
    ensures Com(a, b) == Com(b, a)
  {
    assert a.xs * b.zs == b.zs * a.xs;
    assert a.zs * b.xs == b.xs * a.zs;
  }

  lemma ComSelf(a: PauliValue)
    ensures Com(a, a) == 0
  {
    assert a.zs * a.xs == a.xs * a.zs;
  }

  /** Commutation parity is additive in the first argument: a product
      anticommutes with c exactly when one of its factors does. */
  lemma ComMulLeft(a: PauliValue, b: PauliValue, c: PauliValue)
    ensures Com(Mul(a, b), c) == (Com(a, c) + Com(b, c)) % 2
  {
    var m := Mul(a, b);
    assert m.xs == SymDiff(a.xs, b.xs) && m.zs == SymDiff(a.zs, b.zs);
    SymDiffMeetParity(a.xs, b.xs, c.zs);
    SymDiffMeetParity(a.zs, b.zs, c.xs);
    ParityOfSums(|a.xs * c.zs|, |b.xs * c.zs|, |a.zs * c.xs|, |b.zs * c.xs|, |m.xs * c.zs|, |m.zs * c.xs|);
  }

  lemma SymDiffMeetParity(s: set<int>, t: set<int>, u: set<int>)
    ensures |SymDiff(s, t) * u| % 2 == (|s * u| + |t * u|) % 2
  {
    IntersectSymDiff(s, t, u);
    SymDiffParity(s * u, t * u);
  }

  lemma ParityOfSums(u: nat, v: nat, w: nat, z: nat, s: nat, t: nat)
    requires s % 2 == (u + v) % 2 && t % 2 == (w + z) % 2
    ensures (s + t) % 2 == ((u + w) % 2 + (v + z) % 2) % 2
  {
  }

  lemma IntersectSymDiff(s: set<int>, t: set<int>, u: set<int>)
    ensures SymDiff(s, t) * u == SymDiff(s * u, t * u)
  {
  }

  // ---------------------------------------------------------------------------
  // Hadamard
  // ---------------------------------------------------------------------------

  /** `h(qs)`: the labels of qs that lie in exactly one set switch sets. */
  function Hadamard(p: PauliValue, qs: set<int>): (r: PauliValue)
    ensures forall q :: LetterAt(r, q) == if q in qs then HadamardImage(LetterAt(p, q)) else LetterAt(p, q)
    ensures Support(r) == Support(p)
  {
    var switches := SymDiff(p.xs, p.zs) * qs;
    PauliValue(SymDiff(p.xs, switches), SymDiff(p.zs, switches))
  }

  lemma HadamardInvolution(p: PauliValue, qs: set<int>)
    ensures Hadamard(Hadamard(p, qs), qs) == p
  {
    forall q ensures LetterAt(Hadamard(Hadamard(p, qs), qs), q) == LetterAt(p, q) {
      HadamardImageInvolutive(LetterAt(p, q));
    }
    SameLetters(Hadamard(Hadamard(p, qs), qs), p);
  }

  /** Conjugation by Hadamards is a group homomorphism of the phaseless Pauli group. */
  lemma HadamardDistributesOverMul(a: PauliValue, b: PauliValue, qs: set<int>)
    ensures Hadamard(Mul(a, b), qs) == Mul(Hadamard(a, qs), Hadamard(b, qs))
  {
    var l, r := Hadamard(Mul(a, b), qs), Mul(Hadamard(a, qs), Hadamard(b, qs));
    assert l.xs == r.xs;
    assert l.zs == r.zs;
  }

  /** Conjugation by Hadamards keeps every commutation relation. */
  lemma HadamardKeepsCom(a: PauliValue, b: PauliValue, qs: set<int>)
    ensures Com(Hadamard(a, qs), Hadamard(b, qs)) == Com(a, b)
  {
    var ha, hb := Hadamard(a, qs), Hadamard(b, qs);
    forall q ensures Anticommute(LetterAt(ha, q), LetterAt(hb, q)) == Anticommute(LetterAt(a, q), LetterAt(b, q)) {
      HadamardImageKeepsAnticommute(LetterAt(a, q), LetterAt(b, q));
    }
    assert AnticommutingSites(ha, hb) == AnticommutingSites(a, b);
    ComCountsAnticommutingSites(a, b);
    ComCountsAnticommutingSites(ha, hb);
  }

  // ---------------------------------------------------------------------------
  // CNOT
  // ---------------------------------------------------------------------------

  /** One `(ctrl, targ)` pair of `cnot`: targ is toggled in the X set when ctrl
      is in it, then ctrl is toggled in the Z set when targ is in it. For
      distinct labels this is CNOT conjugation on the two sites; a pair with
      ctrl == targ clears that site. No other site changes. */
  function CnotStep(p: PauliValue, c: int, t: int): (r: PauliValue)
    ensures c != t ==> (LetterAt(r, c), LetterAt(r, t)) == CnotImage(LetterAt(p, c), LetterAt(p, t))
    ensures c == t ==> LetterAt(r, c) == I
    ensures forall q :: q != c && q != t ==> LetterAt(r, q) == LetterAt(p, q)
  {
    var xs := if c in p.xs then SymDiff(p.xs, {t}) else p.xs;
    var zs := if t in p.zs then SymDiff(p.zs, {c}) else p.zs;
    PauliValue(xs, zs)
  }

  /** `cnot(pairs)` with the pairs applied from left to right. Afterwards a
      label carries a letter only if it did before or some pair names it. */
  function CnotAll(p: PauliValue, pairs: seq<(int, int)>): (r: PauliValue)
    ensures forall q :: q in Support(r) ==>
              q in Support(p) || exists i :: 0 <= i < |pairs| && Touches(pairs[i], q)
    decreases |pairs|
  {
    if pairs == [] then p
    else CnotAll(CnotStep(p, pairs[0].0, pairs[0].1), pairs[1..])
  }

  predicate Touches(pair: (int, int), q: int)
  {
    q == pair.0 || q == pair.1
  }

  /** The two pairs share no label. */
  predicate Apart(u: (int, int), v: (int, int))
  {
    u.0 != v.0 && u.0 != v.1 && u.1 != v.0 && u.1 != v.1
  }

  /** No label occurs twice among the pairs (so no pair has ctrl == targ). */
  predicate DisjointPairs(pairs: seq<(int, int)>)
  {
    && (forall i :: 0 <= i < |pairs| ==> pairs[i].0 != pairs[i].1)
    && (forall i, j :: 0 <= i < j < |pairs| ==> Apart(pairs[i], pairs[j]))
  }

  lemma {:induction false} CnotAllUntouched(p: PauliValue, pairs: seq<(int, int)>, q: int)
    requires forall i :: 0 <= i < |pairs| ==> !Touches(pairs[i], q)
    ensures LetterAt(CnotAll(p, pairs), q) == LetterAt(p, q)
    decreases |pairs|
  {
    if pairs != [] {
      assert !Touches(pairs[0], q);
      CnotAllUntouched(CnotStep(p, pairs[0].0, pairs[0].1), pairs[1..], q);
    }
  }

  lemma CnotStepInvolution(p: PauliValue, c: int, t: int)
    requires c != t
    ensures CnotStep(CnotStep(p, c, t), c, t) == p
  {
    var r := CnotStep(CnotStep(p, c, t), c, t);
    CnotImageInvolutive(LetterAt(p, c), LetterAt(p, t));
    assert LetterAt(r, c) == LetterAt(p, c) && LetterAt(r, t) == LetterAt(p, t);
    SameLetters(r, p);
  }

  lemma DisjointPairsRest(pairs: seq<(int, int)>)
    requires pairs != [] && DisjointPairs(pairs)
    ensures DisjointPairs(pairs[1..])
  {
    var rest := pairs[1..];
    forall i | 0 <= i < |rest| ensures rest[i].0 != rest[i].1 {
      assert rest[i] == pairs[i + 1];
    }
    forall i, j | 0 <= i < j < |rest| ensures Apart(rest[i], rest[j]) {
      assert rest[i] == pairs[i + 1] && rest[j] == pairs[j + 1];
    }
  }

  /** For disjoint pairs, every pair acts as CNOT conjugation on its own two
      sites, whatever the other pairs do (labels outside all pairs are covered
      by CnotAllUntouched). */
  lemma {:induction false} CnotAllAtPair(p: PauliValue, pairs: seq<(int, int)>, i: int)
    requires DisjointPairs(pairs) && 0 <= i < |pairs|
    ensures (LetterAt(CnotAll(p, pairs), pairs[i].0), LetterAt(CnotAll(p, pairs), pairs[i].1))
            == CnotImage(LetterAt(p, pairs[i].0), LetterAt(p, pairs[i].1))
    decreases |pairs|
  {
    var (c, t) := pairs[0];
    var s := CnotStep(p, c, t);
    var rest := pairs[1..];
    if i == 0 {
      forall k | 0 <= k < |rest| ensures !Touches(rest[k], c) && !Touches(rest[k], t) {
        assert rest[k] == pairs[k + 1];
        assert Apart(pairs[0], pairs[k + 1]);
      }
      CnotAllUntouched(s, rest, c);
      CnotAllUntouched(s, rest, t);
    } else {
      DisjointPairsRest(pairs);
      CnotAllAtPair(s, rest, i - 1);
      assert pairs[i] == rest[i - 1];
      assert Apart(pairs[0], pairs[i]);
    }
  }

  /** `cnot` twice with the same disjoint pairs restores the operator. */
  lemma CnotAllInvolution(p: PauliValue, pairs: seq<(int, int)>)
    requires DisjointPairs(pairs)
    ensures CnotAll(CnotAll(p, pairs), pairs) == p
  {
    var once := CnotAll(p, pairs);
    var twice := CnotAll(once, pairs);
    forall q ensures LetterAt(twice, q) == LetterAt(p, q) {
      if i :| 0 <= i < |pairs| && Touches(pairs[i], q) {
        CnotAllAtPair(p, pairs, i);
        CnotAllAtPair(once, pairs, i);
        CnotImageInvolutive(LetterAt(p, pairs[i].0), LetterAt(p, pairs[i].1));
      } else {
        CnotAllUntouched(p, pairs, q);
        CnotAllUntouched(once, pairs, q);
      }
    }
    SameLetters(twice, p);
  }

  /** For disjoint pairs the order of the pairs does not matter: any two
      listings of the same pairs give the same operator. */
  lemma CnotAllOrderIndependent(p: PauliValue, pairs: seq<(int, int)>, others: seq<(int, int)>)
    requires DisjointPairs(pairs) && DisjointPairs(others)
    requires forall pair :: pair in pairs <==> pair in others
    ensures CnotAll(p, pairs) == CnotAll(p, others)
  {
    var r, s := CnotAll(p, pairs), CnotAll(p, others);
    forall q ensures LetterAt(r, q) == LetterAt(s, q) {
      if i :| 0 <= i < |pairs| && Touches(pairs[i], q) {
        assert pairs[i] in others;
        var j :| 0 <= j < |others| && others[j] == pairs[i];
        CnotAllAtPair(p, pairs, i);
        CnotAllAtPair(p, others, j);
      } else {
        forall j | 0 <= j < |others| ensures !Touches(others[j], q) {
          assert others[j] in pairs;
        }
        CnotAllUntouched(p, pairs, q);
        CnotAllUntouched(p, others, q);
      }
    }
    SameLetters(r, s);
  }

  /** Conjugation by one CNOT is a group homomorphism of the phaseless Pauli
      group (for any pair, including ctrl == targ). */
  lemma CnotStepDistributesOverMul(a: PauliValue, b: PauliValue, c: int, t: int)
    ensures CnotStep(Mul(a, b), c, t) == Mul(CnotStep(a, c, t), CnotStep(b, c, t))
  {
    var l, r := CnotStep(Mul(a, b), c, t), Mul(CnotStep(a, c, t), CnotStep(b, c, t));
    assert l.xs == r.xs;
    assert l.zs == r.zs;
  }

  lemma {:induction false} CnotAllDistributesOverMul(a: PauliValue, b: PauliValue, pairs: seq<(int, int)>)
    ensures CnotAll(Mul(a, b), pairs) == Mul(CnotAll(a, pairs), CnotAll(b, pairs))
    decreases |pairs|
  {
    if pairs != [] {
      var (c, t) := pairs[0];
      CnotStepDistributesOverMul(a, b, c, t);
      CnotAllDistributesOverMul(CnotStep(a, c, t), CnotStep(b, c, t), pairs[1..]);
    }
  }

  /** One CNOT on distinct labels keeps every commutation relation. */
  lemma CnotStepKeepsCom(a: PauliValue, b: PauliValue, c: int, t: int)
    requires c != t
    ensures Com(CnotStep(a, c, t), CnotStep(b, c, t)) == Com(a, b)
  {
    var a', b' := CnotStep(a, c, t), CnotStep(b, c, t);
    var before, after := AnticommutingSites(a, b), AnticommutingSites(a', b');
    CnotStepKeepsOtherSites(a, b, c, t);
    PairCount(a, b, c, t);
    PairCount(a', b', c, t);
    CnotImageKeepsParity(LetterAt(a, c), LetterAt(a, t), LetterAt(b, c), LetterAt(b, t));
    ComCountsAnticommutingSites(a, b);
    ComCountsAnticommutingSites(a', b');
    SameParityOutsidePair(before, after, c, t);
  }

  /** How many of the two labels c, t are in s. */
  function InPair(s: set<int>, c: int, t: int): nat
  {
    (if c in s then 1 else 0) + (if t in s then 1 else 0)
  }

  /** Two sets that agree outside {c, t} and have equally many elements in it
      modulo 2 have sizes of the same parity. */
  lemma SameParityOutsidePair(s: set<int>, s': set<int>, c: int, t: int)
    requires c != t
    requires s - {c, t} == s' - {c, t}
    requires InPair(s, c, t) % 2 == InPair(s', c, t) % 2
    ensures |s| % 2 == |s'| % 2
  {
    SplitCount(s, c, t);
    SplitCount(s', c, t);
    var n, k, k' := |s - {c, t}|, InPair(s, c, t), InPair(s', c, t);
    assert |s| == n + k && |s'| == n + k';
    assert k == k' || (k == 0 && k' == 2) || (k == 2 && k' == 0);
  }

  lemma CnotStepKeepsOtherSites(a: PauliValue, b: PauliValue, c: int, t: int)
    ensures AnticommutingSites(a, b) - {c, t}
         == AnticommutingSites(CnotStep(a, c, t), CnotStep(b, c, t)) - {c, t}
  {
    var a', b' := CnotStep(a, c, t), CnotStep(b, c, t);
    forall q ensures q in AnticommutingSites(a, b) - {c, t} <==> q in AnticommutingSites(a', b') - {c, t} {
      InAnticommutingSites(a, b, q);
      InAnticommutingSites(a', b', q);
    }
  }

  lemma PairCount(a: PauliValue, b: PauliValue, c: int, t: int)
    requires c != t
    ensures InPair(AnticommutingSites(a, b), c, t)
         == PairAnticommutations(LetterAt(a, c), LetterAt(a, t), LetterAt(b, c), LetterAt(b, t))
  {
    InAnticommutingSites(a, b, c);
    InAnticommutingSites(a, b, t);
  }

  lemma InAnticommutingSites(a: PauliValue, b: PauliValue, q: int)
    ensures q in AnticommutingSites(a, b) <==> Anticommute(LetterAt(a, q), LetterAt(b, q))
  {
  }

  lemma SplitCount(s: set<int>, c: int, t: int)
    requires c != t
    ensures |s| == |s - {c, t}| + InPair(s, c, t)
  {
    assert s == (s - {c, t}) + (s * {c, t});
    assert (s - {c, t}) !! (s * {c, t});
    if c in s && t in s {
      assert s * {c, t} == {c, t};
    } else if c in s {
      assert s * {c, t} == {c};
    } else if t in s {
      assert s * {c, t} == {t};
    } else {
      assert s * {c, t} == {};
    }
  }

  lemma {:induction false} CnotAllKeepsCom(a: PauliValue, b: PauliValue, pairs: seq<(int, int)>)
    requires forall i :: 0 <= i < |pairs| ==> pairs[i].0 != pairs[i].1
    ensures Com(CnotAll(a, pairs), CnotAll(b, pairs)) == Com(a, b)
    decreases |pairs|
  {
    if pairs != [] {
      var (c, t) := pairs[0];
      CnotStepKeepsCom(a, b, c, t);
      CnotAllKeepsCom(CnotStep(a, c, t), CnotStep(b, c, t), pairs[1..]);
    }
  }
}
