# sparse_pauli in Dafny

A model of the `Pauli` class of `sparse_pauli`. The class represents a
phaseless sparse multi-qubit Pauli operator as two finite sets of qubit
labels. `x_set` holds the labels carrying an X factor and `z_set` the labels
carrying a Z factor. A label in both sets is a Y site, and a label in neither
is an identity site. The class supports multiplication (symmetric difference
of each set), the commutation parity `com`, structural equality, a text form,
and two gates that conjugate the operator in place: Hadamard `h` and `cnot`.

Files:

- `letters.dfy` (module `Letters`): the four single-qubit letters I, X, Y, Z.
  It holds the textbook phaseless product table, the anticommutation rule,
  and the images of each letter under a Hadamard and under a CNOT. This
  module is the independent reference: the set operations are proved
  against it site by site.
- `pauli_algebra.dfy` (module `PauliAlgebra`): the value view `PauliValue(xs, zs)`.
  It defines the functions `Mul`, `Com`, `Hadamard`, `CnotStep` and `CnotAll`,
  which give each operation's meaning, and proves the algebraic laws about them.
- `rendering.dfy` (module `Rendering`): `__str__` as the recursive function
  `Render` over the sorted support, with integer labels written in decimal.
  It also holds a parser that reads the text back. The parser exists only to
  prove that the text form determines the operator.
- `pauli.dfy` (module `SparsePauli`): `class Pauli` with the two mutable set
  fields `xSet` and `zSet`. `Cnot` and `H` update the fields in place; `Cnot`
  does so in a loop over the pairs. `ToString` builds the text in a loop, as
  the source does. Every member is specified by the value-level function above.
- `scenarios.dfy` (module `Scenarios`): the scenarios of `test.py` as lemmas
  and as client methods that drive the class.

Modelling choices:

- Labels are `int`, so `sorted` in `__str__` is well defined. The text of a
  label is its decimal form, with a leading `-` for a negative label, as
  Python's `str` writes an `int`.
- `cnot` takes a `seq<(int, int)>` applied left to right. The source iterates a
  Python `set` of tuples, whose order is unspecified. The model proves that the
  order does not matter when no label occurs twice among the pairs. It also
  shows, with a concrete example, that the order does matter for overlapping
  pairs.
- A `cnot` pair whose control equals its target is modelled as written. It
  clears that site: the label leaves both sets.

## Model

| member | source | states |
|---|---|---|
| `SparsePauli.Pauli.constructor` | src/sparse_pauli/pauli.py:10-12 | the new object holds exactly the two given label sets |
| `SparsePauli.Pauli.Value` | src/sparse_pauli/pauli.py:5-6 | the abstraction function: the operator the object holds is the value made of its two current sets; every contract of the class is stated through it |
| `SparsePauli.Pauli.ToString` | src/sparse_pauli/pauli.py:15-30 | the loop over the sorted support builds exactly `Render` of the current operator |
| `SparsePauli.RenderFromSorted` | src/sparse_pauli/pauli.py:18-21 | with `support` the sorted `x_set \| z_set`, the text is `"I"` when `support` is empty and otherwise the tokens of `support` |
| `SparsePauli.AppendToken` | src/sparse_pauli/pauli.py:23-29 | one loop round appends `"c[q] "` for the next sorted label q, where c is Y (both sets), X (x only) or Z |
| `SparsePauli.TokenOfSupportLabel` | src/sparse_pauli/pauli.py:24-27 | for a label of the support, the character chosen by the loop is the letter of that label |
| `SparsePauli.Pauli.Equals` | src/sparse_pauli/pauli.py:32-36 | `__eq__` is true exactly when both sets are equal |
| `SparsePauli.Pauli.Multiply` | src/sparse_pauli/pauli.py:39-41 | returns a fresh object holding `Mul` of the operands; neither operand is modified |
| `SparsePauli.Pauli.Com` | src/sparse_pauli/pauli.py:43-45 | the result is 0 or 1, and it is 1 exactly when the operators anticommute on an odd number of sites |
| `SparsePauli.Pauli.Cnot` | src/sparse_pauli/pauli.py:47-57 | after the loop the object holds `CnotAll` of its old value over the pairs in order |
| `SparsePauli.Pauli.H` | src/sparse_pauli/pauli.py:59-65 | after the call the object holds `Hadamard` of its old value |
| `PauliAlgebra.SymDiff` | src/sparse_pauli/pauli.py:40-41 | a label is in `a ^ b` exactly when it is in one of a, b but not both |
| `PauliAlgebra.LetterAt` | src/sparse_pauli/pauli.py:24-27 | a label carries an X part (X or Y) exactly when it is in `x_set`, and a Z part (Z or Y) exactly when it is in `z_set` |
| `PauliAlgebra.Support` | src/sparse_pauli/pauli.py:18 | `x_set \| z_set` holds exactly the labels whose letter is not I |
| `PauliAlgebra.SameLetters` | src/sparse_pauli/pauli.py:5-6 | two operators with the same letter on every label are equal |
| `PauliAlgebra.Mul` | src/sparse_pauli/pauli.py:39-41 | a label is in a set of the product exactly when it is in that set of one operand but not of the other |
| `PauliAlgebra.MulLetters` | src/sparse_pauli/pauli.py:39-41 | on every site the letter of the product is the phaseless product of the two letters, as in the single-qubit table |
| `PauliAlgebra.MulCommutative` | src/sparse_pauli/pauli.py:39-41 | `a * b == b * a` |
| `PauliAlgebra.MulAssociative` | src/sparse_pauli/pauli.py:39-41 | `(a * b) * c == a * (b * c)` |
| `PauliAlgebra.MulIdentity` | src/sparse_pauli/pauli.py:39-41 | `Pauli({}, {})` is neutral on both sides |
| `PauliAlgebra.MulSelfInverse` | src/sparse_pauli/pauli.py:39-41 | `a * a` is the identity |
| `PauliAlgebra.Com` | src/sparse_pauli/pauli.py:43-45 | `com` is always 0 or 1 |
| `PauliAlgebra.ComCountsAnticommutingSites` | src/sparse_pauli/pauli.py:43-45 | `com` equals the parity of the number of sites whose letters anticommute |
| `PauliAlgebra.ComSymmetric` | src/sparse_pauli/pauli.py:43-45 | `com(a, b) == com(b, a)` |
| `PauliAlgebra.ComSelf` | src/sparse_pauli/pauli.py:43-45 | `com(a, a) == 0` |
| `PauliAlgebra.ComMulLeft` | src/sparse_pauli/pauli.py:39-45 | `com(a * b, c)` is the sum of `com(a, c)` and `com(b, c)` modulo 2 |
| `PauliAlgebra.SymDiffParity` | src/sparse_pauli/pauli.py:43-45 | the size of a symmetric difference has the parity of the sum of the two sizes |
| `PauliAlgebra.Hadamard` | src/sparse_pauli/pauli.py:63-65 | labels in qs get the Hadamard image of their letter (X and Z swap, I and Y stay), the others keep theirs, and `x_set \| z_set` is unchanged |
| `PauliAlgebra.HadamardInvolution` | src/sparse_pauli/pauli.py:63-65 | `h(qs)` twice restores both sets |
| `PauliAlgebra.HadamardDistributesOverMul` | src/sparse_pauli/pauli.py:39-41 | `h(qs)` applied to `a * b` equals the product of `h(qs)` applied to each factor |
| `PauliAlgebra.HadamardKeepsCom` | src/sparse_pauli/pauli.py:43-45 | `h(qs)` applied to both operands keeps `com` unchanged |
| `PauliAlgebra.CnotStep` | src/sparse_pauli/pauli.py:52-56 | for distinct labels, the control and target letters become their CNOT image; a pair with ctrl == targ clears that site; every other label keeps its letter |
| `PauliAlgebra.CnotAll` | src/sparse_pauli/pauli.py:52-56 | the pairs are applied one after another from left to right; afterwards a label carries a letter only if it did before or some pair names it |
| `PauliAlgebra.CnotAllUntouched` | src/sparse_pauli/pauli.py:52-56 | a label named in no pair keeps its letter |
| `PauliAlgebra.CnotStepInvolution` | src/sparse_pauli/pauli.py:52-56 | the same pair (c, t) with c != t applied twice restores the operator |
| `PauliAlgebra.DisjointPairsRest` | src/sparse_pauli/pauli.py:52 | dropping the first pair of a list of disjoint pairs leaves disjoint pairs |
| `PauliAlgebra.CnotAllAtPair` | src/sparse_pauli/pauli.py:52-56 | with disjoint pairs, each pair's two sites end up as the CNOT image of their original letters |
| `PauliAlgebra.CnotAllInvolution` | src/sparse_pauli/pauli.py:52-56 | `cnot` twice with the same disjoint pairs restores the operator |
| `PauliAlgebra.CnotAllOrderIndependent` | src/sparse_pauli/pauli.py:52 | with disjoint pairs, any two listings of the same pairs give the same operator |
| `PauliAlgebra.CnotStepDistributesOverMul` | src/sparse_pauli/pauli.py:39-41 | one pair applied to `a * b` equals the product of that pair applied to each factor |
| `PauliAlgebra.CnotAllDistributesOverMul` | src/sparse_pauli/pauli.py:52-56 | the same holds for a whole list of pairs |
| `PauliAlgebra.CnotStepKeepsCom` | src/sparse_pauli/pauli.py:43-56 | one pair with ctrl != targ applied to both operands keeps `com` unchanged |
| `PauliAlgebra.CnotAllKeepsCom` | src/sparse_pauli/pauli.py:43-56 | the same holds for a list of such pairs |
| `Rendering.Sorted` | src/sparse_pauli/pauli.py:18 | `sorted(list(x_set \| z_set))` lists every label of the set exactly once, in strictly ascending order |
| `Rendering.SortedUnique` | src/sparse_pauli/pauli.py:18 | a strictly ascending listing of a set is unique, so it is the sorted support |
| `Rendering.Render` | src/sparse_pauli/pauli.py:18-21 | the text is `"I"` exactly when `x_set \| z_set` is empty |
| `Rendering.Format` | src/sparse_pauli/pauli.py:29 | `'{}[{}] '.format(char, elem)` is the character, `[`, the label text, `]` and a space, and no `]` occurs before the closing one |
| `Rendering.Token` | src/sparse_pauli/pauli.py:24-29 | the token of a site is at least five characters long and starts with the character of its letter |
| `Rendering.Tokens` | src/sparse_pauli/pauli.py:23-29 | the text of a list of labels is the concatenation of their tokens in order, at least five characters per label |
| `Rendering.TokensSnoc` | src/sparse_pauli/pauli.py:23-29 | appending a label to the list appends its `"L[q] "` token to the text |
| `Rendering.TokensPrefix` | src/sparse_pauli/pauli.py:23-29 | the text of the first i + 1 labels is the text of the first i labels followed by the token of label i |
| `Rendering.ParseRender` | src/sparse_pauli/pauli.py:15-30 | reading the text back gives the operator |
| `Rendering.RenderInjective` | src/sparse_pauli/pauli.py:15-30 | two operators with the same text are equal |
| `Rendering.IntText` | src/sparse_pauli/pauli.py:29 | the label's decimal text is never empty and contains no `]` |
| `Rendering.ParseIntText` | src/sparse_pauli/pauli.py:29 | the decimal text of a label reads back as that label |
| `Rendering.ParseNegativeText` | src/sparse_pauli/pauli.py:29 | a `-` followed by the decimal text of n > 0 reads back as -n |
| `Scenarios.ComOfSingleQubits` | test.py:13-23 | `com` is 0 for (Z, Z) and (X, X) and 1 for (X, Z) and (Z, X) |
| `Scenarios.MulOfFourFactors` | test.py:25-26 | `x * z * ix * iz == Pauli({0, 1}, {0, 1})` |
| `Scenarios.HadamardOnTwoOfFour` | test.py:28-32 | `Pauli({0, 1, 2, 3}, {})` after `h({0, 2})` is `Pauli({1, 3}, {0, 2})` |
| `Scenarios.CnotOnThreePairs` | test.py:34-37 | `Pauli(range(6), range(6))` after `cnot` on (0,1), (2,3), (4,5) is `Pauli({0, 2, 4}, {1, 3, 5})` |
| `Scenarios.CnotOverlappingPairsOrderMatters` | src/sparse_pauli/pauli.py:52-56 | overlapping pairs (0,1), (1,2) give different operators in the two orders |
| `Scenarios.RenderExample` | src/sparse_pauli/pauli.py:15-30 | `Pauli({0, 1}, {0, 3})` renders as `"Y[0] X[1] Z[3] "`, and the identity as `"I"` |
| `Scenarios.HadamardTest` | test.py:28-32 | `h_test` on the class yields an object equal to the expected one |
| `Scenarios.CnotTest` | test.py:34-37 | `cnot_test` on the class yields an object equal to the expected one |
| `Scenarios.MulTest` | test.py:25-26 | `mul_test_yy` on the class yields the expected product, and the first operand is left as it was |

## Left out

- Arbitrary hashable labels: labels are integers only. `str.format` of a general object is therefore modelled only as the decimal text of an integer.
- Arbitrary iterables as arguments: the constructor and `h` take sets, and `cnot` takes a sequence of pairs.
- Python `set` iteration order in `cnot`: the model fixes left-to-right order. Order independence is proved only for pairs that share no label.
- `__eq__` against an object that is not a `Pauli` (Python would raise `AttributeError`) is not modelled, and neither is the `!=` operator, which the class does not define.
- The `cz_test` scenario in `test.py` calls a `cz` method that the class does not have. No `cz` is modelled.
- Phase, scalar multiplication, negation, phase gate, measure/prepare, string parsing and group enumeration are not part of this version of the class. They are not modelled.
- `setup.py` is packaging metadata and is not part of this model.
