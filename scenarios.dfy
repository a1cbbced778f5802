/**
 * The scenarios of the repository's test file, stated as lemmas about the
 * value-level functions and as client methods that drive the class, plus
 * small examples that pin down the text form and the order dependence of
 * overlapping CNOT pairs.
 */
module Scenarios {
  import opened Letters
  import opened PauliAlgebra
  import opened Rendering
  import opened SparsePauli

  // The single-qubit operators of the tests: X, Z on qubit 0 and on qubit 1.
  const X0: PauliValue := PauliValue({0}, {})
  const Z0: PauliValue := PauliValue({}, {0})
  const X1: PauliValue := PauliValue({1}, {})
  const Z1: PauliValue := PauliValue({}, {1})

  lemma ComOfSingleQubits()
    ensures Com(Z0, Z0) == 0 && Com(X0, X0) == 0
    ensures Com(X0, Z0) == 1 && Com(Z0, X0) == 1
  {
    assert X0.xs * Z0.zs == {0};
    assert Z0.zs * X0.xs == {0};
  }

  lemma MulOfFourFactors()
    ensures Mul(Mul(Mul(X0, Z0), X1), Z1) == PauliValue({0, 1}, {0, 1})
  {
    var r := Mul(Mul(Mul(X0, Z0), X1), Z1);
    assert r.xs == {0, 1};
    assert r.zs == {0, 1};
  }

  lemma HadamardOnTwoOfFour()
    ensures Hadamard(PauliValue({0, 1, 2, 3}, {}), {0, 2}) == PauliValue({1, 3}, {0, 2})
  {
    var r := Hadamard(PauliValue({0, 1, 2, 3}, {}), {0, 2});
    assert r.xs == {1, 3};
    assert r.zs == {0, 2};
  }

  lemma CnotOnThreePairs()
    ensures CnotAll(PauliValue({0, 1, 2, 3, 4, 5}, {0, 1, 2, 3, 4, 5}), [(0, 1), (2, 3), (4, 5)])
         == PauliValue({0, 2, 4}, {1, 3, 5})
  {
    var p0 := PauliValue({0, 1, 2, 3, 4, 5}, {0, 1, 2, 3, 4, 5});
    var p1 := CnotStep(p0, 0, 1);
    assert p1 == PauliValue({0, 2, 3, 4, 5}, {1, 2, 3, 4, 5});
    var p2 := CnotStep(p1, 2, 3);
    assert p2 == PauliValue({0, 2, 4, 5}, {1, 3, 4, 5});
    var p3 := CnotStep(p2, 4, 5);
    assert p3 == PauliValue({0, 2, 4}, {1, 3, 5});
    assert [(0, 1), (2, 3), (4, 5)][1..] == [(2, 3), (4, 5)];
    assert [(2, 3), (4, 5)][1..] == [(4, 5)];
  }

  /** Overlapping pairs do depend on the order in which they are applied. */
  lemma CnotOverlappingPairsOrderMatters()
    ensures CnotAll(X0, [(0, 1), (1, 2)]) == PauliValue({0, 1, 2}, {})
    ensures CnotAll(X0, [(1, 2), (0, 1)]) == PauliValue({0, 1}, {})
  {
    assert CnotStep(X0, 0, 1) == PauliValue({0, 1}, {});
    assert CnotStep(PauliValue({0, 1}, {}), 1, 2) == PauliValue({0, 1, 2}, {});
    assert [(0, 1), (1, 2)][1..] == [(1, 2)];
    assert CnotStep(X0, 1, 2) == X0;
    assert [(1, 2), (0, 1)][1..] == [(0, 1)];
  }

  lemma RenderExample()
    ensures Render(PauliValue({0, 1}, {0, 3})) == "Y[0] X[1] Z[3] "
    ensures Render(Identity) == "I"
  {
    var p := PauliValue({0, 1}, {0, 3});
    assert Support(p) == {0, 1, 3};
    ExampleSorted();
    ExampleTokens();
  }

  lemma ExampleSorted()
    ensures Sorted({0, 1, 3}) == [0, 1, 3]
  {
    assert forall q :: q in [0, 1, 3] <==> q in {0, 1, 3};
    SortedUnique([0, 1, 3], {0, 1, 3});
  }

  lemma ExampleTokens()
    ensures Tokens(PauliValue({0, 1}, {0, 3}), [0, 1, 3]) == "Y[0] X[1] Z[3] "
  {
    var p := PauliValue({0, 1}, {0, 3});
    SingleDigitToken(p, 3, Z, "Z[3] ");
    assert [3][1..] == [];
    assert Tokens(p, [3]) == "Z[3] ";
    SingleDigitToken(p, 1, X, "X[1] ");
    assert [1, 3][1..] == [3];
    assert Tokens(p, [1, 3]) == "X[1] Z[3] ";
    SingleDigitToken(p, 0, Y, "Y[0] ");
    assert [0, 1, 3][1..] == [1, 3];
  }

  lemma SingleDigitToken(p: PauliValue, q: int, l: Letter, text: string)
    requires 0 <= q < 10 && LetterAt(p, q) == l
    requires text == [LetterChar(l), '[', (48 + q) as char, ']', ' ']
    ensures Token(LetterAt(p, q), q) == text
  {
  }

  /** `h_test`, driving the class. */
  method HadamardTest() returns (ok: bool)
    ensures ok
  {
    var big := new Pauli({0, 1, 2, 3}, {});
    big.H({0, 2});
    var expected := new Pauli({1, 3}, {0, 2});
    HadamardOnTwoOfFour();
    ok := big.Equals(expected);
  }

  /** `cnot_test`, driving the class. */
  method CnotTest() returns (ok: bool)
    ensures ok
  {
    var big := new Pauli({0, 1, 2, 3, 4, 5}, {0, 1, 2, 3, 4, 5});
    big.Cnot([(0, 1), (2, 3), (4, 5)]);
    var expected := new Pauli({0, 2, 4}, {1, 3, 5});
    CnotOnThreePairs();
    ok := big.Equals(expected);
  }

  /** `mul_test_yy`, driving the class; the operands are left as they were. */
  method MulTest() returns (ok: bool)
    ensures ok
  {
    var x := new Pauli({0}, {});
    var z := new Pauli({}, {0});
    var ix := new Pauli({1}, {});
    var iz := new Pauli({}, {1});
    var xz := x.Multiply(z);
    var xzix := xz.Multiply(ix);
    var product := xzix.Multiply(iz);
    var expected := new Pauli({0, 1}, {0, 1});
    MulOfFourFactors();
    ok := product.Equals(expected) && x.Value() == X0;
  }
}
