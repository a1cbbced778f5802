/**
 * The text form of a Pauli operator (the class's `__str__`): the literal "I"
 * for the identity, otherwise one token "L[q] " per non-identity label q in
 * ascending order, L being the letter on that site.
 *
 * The parser at the end of the module is not part of the class; it is the
 * inverse used to state that the text form loses nothing: two operators with
 * the same text are equal.
 */
module Rendering {
  import opened Letters
  import opened PauliAlgebra

  datatype Option<T> = None | Some(value: T)

  // ---------------------------------------------------------------------------
  // Sorting the support
  // ---------------------------------------------------------------------------

  predicate Increasing(r: seq<int>)
  {
    forall i, j :: 0 <= i < j < |r| ==> r[i] < r[j]
  }

  lemma {:induction false} MinExists(s: set<int>)
    requires s != {}
    ensures exists m :: m in s && forall y :: y in s ==> m <= y
    decreases |s|
  {
    var x := PickElement(s);
    if s != {x} {
      MinExists(s - {x});
      var m :| m in s - {x} && forall y :: y in s - {x} ==> m <= y;
      var least := if x < m then x else m;
      forall y | y in s ensures least <= y {
        if y != x {
          assert y in s - {x};
        }
      }
    } else {
      forall y | y in s ensures x <= y {
        assert y in {x};
      }
    }
  }

  lemma PickElement(s: set<int>) returns (x: int)
    requires s != {}
    ensures x in s
  {
    // a set with no element would be the empty set
    if forall y :: y !in s {
      assert false;
    }
    x :| x in s;
  }

  function SetMin(s: set<int>): (m: int)
    requires s != {}
    ensures m in s && forall y :: y in s ==> m <= y
  {
    MinExists(s);
    var m :| m in s && forall y :: y in s ==> m <= y;
    m
  }

  /** Python's `sorted` on a set of integers: its elements, each once, in
      ascending order. */
  function Sorted(s: set<int>): (r: seq<int>)
    ensures Increasing(r)
    ensures forall q :: q in r <==> q in s
    ensures |r| == |s|
    decreases |s|
  {
    if s == {} then []
    else
      var m := SetMin(s);
      [m] + Sorted(s - {m})
  }

  /** An increasing listing of a set is unique, so `Sorted` is well defined. */
  lemma {:induction false} SortedUnique(r: seq<int>, s: set<int>)
    requires Increasing(r)
    requires forall q :: q in r <==> q in s
    ensures r == Sorted(s)
    decreases |r|
  {
    if r == [] {
      assert s == {};
    } else {
      assert r[0] in r;
      var m := SetMin(s);
      assert r[0] == m by {
        assert m in r;
      }
      assert r == [m] + r[1..];
      assert Increasing(r[1..]) by {
        forall i, j | 0 <= i < j < |r[1..]| ensures r[1..][i] < r[1..][j] {
          assert r[1..][i] == r[i + 1] && r[1..][j] == r[j + 1];
        }
      }
      forall q ensures q in r[1..] <==> q in s - {m} {
        if q in r[1..] {
          var k :| 0 <= k < |r[1..]| && r[1..][k] == q;
          assert r[k + 1] == q && r[0] < r[k + 1];
        }
      }
      SortedUnique(r[1..], s - {m});
    }
  }

  // ---------------------------------------------------------------------------
  // Decimal text of a label, as Python's str() writes an int
  // ---------------------------------------------------------------------------

  function DigitChar(d: nat): (c: char)
    requires d < 10
    ensures '0' <= c <= '9'
  {
    (48 + d) as char
  }

  function NatText(n: nat): (s: string)
    ensures |s| >= 1
    ensures forall k :: 0 <= k < |s| ==> '0' <= s[k] <= '9'
  {
    if n < 10 then [DigitChar(n)] else NatText(n / 10) + [DigitChar(n % 10)]
  }

  /** Negative labels get a leading minus sign. */
  function IntText(q: int): (s: string)
    ensures |s| >= 1
    ensures forall k :: 0 <= k < |s| ==> s[k] != ']'
  {
    if q < 0 then "-" + NatText(-q) else NatText(q)
  }

  // ---------------------------------------------------------------------------
  // Rendering
  // ---------------------------------------------------------------------------

  function LetterChar(l: Letter): char
  {
    match l
    case I => 'I'
    case X => 'X'
    case Y => 'Y'
    case Z => 'Z'
  }

  /** `'{}[{}] '.format(char, elem)`: the character, the label in brackets and
      a trailing space. The label text holds no `]`, so the first `]` after
      the opening bracket is the closing one. */
  function Format(c: char, q: int): (s: string)
    ensures |s| == |IntText(q)| + 4
    ensures s[0] == c && s[1] == '[' && s[|s| - 2] == ']' && s[|s| - 1] == ' '
    ensures forall k :: 2 <= k < |s| - 2 ==> s[k] != ']'
  {
    var s := [c, '['] + IntText(q) + "] ";
    assert forall k :: 2 <= k < |s| - 2 ==> s[k] == IntText(q)[k - 2];
    s
  }

  /** One site: the token of letter l at label q. */
  function Token(l: Letter, q: int): (s: string)
    ensures |s| >= 5 && s[0] == LetterChar(l)
  {
    Format(LetterChar(l), q)
  }

  /** The tokens of the labels qs of p, in the order given. */
  function Tokens(p: PauliValue, qs: seq<int>): (r: string)
    ensures |r| >= 5 * |qs|
    decreases |qs|
  {
    if qs == [] then "" else Token(LetterAt(p, qs[0]), qs[0]) + Tokens(p, qs[1..])
  }

  /** `str(p)`. */
  function Render(p: PauliValue): (r: string)
    ensures r == "I" <==> Support(p) == {}
  {
    if Support(p) == {} then "I" else Tokens(p, Sorted(Support(p)))
  }

  /** Appending one label appends its token: the form in which a loop that
      accumulates the text meets the recursive definition. */
  lemma {:induction false} TokensSnoc(p: PauliValue, qs: seq<int>, q: int)
    ensures Tokens(p, qs + [q]) == Tokens(p, qs) + Token(LetterAt(p, q), q)
    decreases |qs|
  {
    if qs == [] {
      assert qs + [q] == [q];
      assert [q][1..] == [];
    } else {
      assert (qs + [q])[0] == qs[0];
      assert (qs + [q])[1..] == qs[1..] + [q];
      TokensSnoc(p, qs[1..], q);
    }
  }

  /** Extending a prefix of the labels by one label appends its token. */
  lemma TokensPrefix(p: PauliValue, qs: seq<int>, i: nat)
    requires i < |qs|
    ensures Tokens(p, qs[..i + 1]) == Tokens(p, qs[..i]) + Token(LetterAt(p, qs[i]), qs[i])
  {
    TokensSnoc(p, qs[..i], qs[i]);
    assert qs[..i + 1] == qs[..i] + [qs[i]];
  }

  // ---------------------------------------------------------------------------
  // Reading the text back
  // ---------------------------------------------------------------------------

  function LetterOfChar(c: char): Option<Letter>
  {
    if c == 'X' then Some(X) else if c == 'Y' then Some(Y) else if c == 'Z' then Some(Z) else None
  }

  function DigitValue(c: char): nat
    requires '0' <= c <= '9'
  {
    c as int - 48
  }

  function ParseNat(s: string): Option<nat>
    decreases |s|
  {
    if s == [] || !('0' <= s[|s| - 1] <= '9') then None
    else if |s| == 1 then Some(DigitValue(s[0]))
    else match ParseNat(s[..|s| - 1])
      case None => None
      case Some(n) => Some(10 * n + DigitValue(s[|s| - 1]))
  }

  function ParseInt(s: string): Option<int>
  {
    if s != [] && s[0] == '-' then
      match ParseNat(s[1..])
      case None => None
      case Some(n) => Some(-(n as int))
    else
      match ParseNat(s)
      case None => None
      case Some(n) => Some(n)
  }

  lemma {:induction false} ParseNatText(n: nat)
    ensures ParseNat(NatText(n)) == Some(n)
  {
    if n >= 10 {
      var s := NatText(n);
      assert s[..|s| - 1] == NatText(n / 10);
      ParseNatText(n / 10);
    }
  }

  lemma ParseIntText(q: int)
    ensures ParseInt(IntText(q)) == Some(q)
  {
    if q < 0 {
      ParseNegativeText(-q);
    } else {
      ParseNatText(q);
      assert IntText(q) == NatText(q);
      assert NatText(q)[0] != '-';
    }
  }

  lemma ParseNegativeText(n: nat)
    requires n > 0
    ensures ParseInt("-" + NatText(n)) == Some(-(n as int))
  {
    var s := "-" + NatText(n);
    assert s[0] == '-' && s[1..] == NatText(n);
    ParseNatText(n);
  }

  /** The first index from i on that holds ']', or |s| when there is none. */
  function CloseIndex(s: string, i: nat): (j: nat)
    requires i <= |s|
    ensures i <= j <= |s|
    ensures j < |s| ==> s[j] == ']'
    decreases |s| - i
  {
    if i == |s| || s[i] == ']' then i else CloseIndex(s, i + 1)
  }

  lemma {:induction false} CloseIndexAt(s: string, i: nat, k: nat)
    requires i <= k < |s| && s[k] == ']'
    requires forall m :: i <= m < k ==> s[m] != ']'
    ensures CloseIndex(s, i) == k
    decreases k - i
  {
    if i < k {
      CloseIndexAt(s, i + 1, k);
    }
  }

  /** Adds one site with letter l at label q. */
  function AddSite(p: PauliValue, l: Letter, q: int): PauliValue
  {
    PauliValue(if l == X || l == Y then p.xs + {q} else p.xs,
               if l == Y || l == Z then p.zs + {q} else p.zs)
  }

  function ParseTokens(s: string): Option<PauliValue>
    decreases |s|
  {
    if s == [] then Some(Identity)
    else if |s| < 2 || s[1] != '[' then None
    else match LetterOfChar(s[0])
      case None => None
      case Some(l) =>
        var j := CloseIndex(s, 2);
        if j + 1 >= |s| || s[j + 1] != ' ' then None
        else match (ParseInt(s[2..j]), ParseTokens(s[j + 2..]))
          case (Some(q), Some(rest)) => Some(AddSite(rest, l, q))
          case _ => None
  }

  /** The inverse of Render. */
  function ParseText(s: string): Option<PauliValue>
  {
    if s == "I" then Some(Identity) else ParseTokens(s)
  }

  /** p restricted to the labels in qs. */
  function Restrict(p: PauliValue, qs: set<int>): PauliValue
  {
    PauliValue(p.xs * qs, p.zs * qs)
  }

  lemma ParseToken(l: Letter, q: int, rest: string)
    requires l != I
    ensures var s := Token(l, q) + rest;
            var j := 2 + |IntText(q)|;
            && LetterOfChar(s[0]) == Some(l) && s[1] == '['
            && CloseIndex(s, 2) == j && j + 1 < |s| && s[j + 1] == ' '
            && s[2..j] == IntText(q) && s[j + 2..] == rest
  {
    var s := Token(l, q) + rest;
    var j := 2 + |IntText(q)|;
    assert s[j] == ']';
    forall m | 2 <= m < j ensures s[m] != ']' {
      assert s[m] == IntText(q)[m - 2];
    }
    CloseIndexAt(s, 2, j);
    assert s[2..j] == IntText(q);
    assert s[j + 2..] == rest;
  }

  /** The labels listed in qs. */
  function Labels(qs: seq<int>): (r: set<int>)
    ensures forall q :: q in r <==> q in qs
    decreases |qs|
  {
    if qs == [] then {} else {qs[0]} + Labels(qs[1..])
  }

  lemma AddSiteRestrict(p: PauliValue, labels: set<int>, q: int)
    ensures AddSite(Restrict(p, labels), LetterAt(p, q), q) == Restrict(p, labels + {q})
  {
    var l, r := AddSite(Restrict(p, labels), LetterAt(p, q), q), Restrict(p, labels + {q});
    assert l.xs == r.xs;
    assert l.zs == r.zs;
  }

  lemma ParseTokensStep(l: Letter, q: int, rest: string, v: PauliValue)
    requires l != I
    requires ParseTokens(rest) == Some(v)
    ensures ParseTokens(Token(l, q) + rest) == Some(AddSite(v, l, q))
  {
    ParseToken(l, q, rest);
    ParseIntText(q);
  }

  lemma {:induction false} ParseTokensOf(p: PauliValue, qs: seq<int>)
    requires forall i :: 0 <= i < |qs| ==> qs[i] in Support(p)
    ensures ParseTokens(Tokens(p, qs)) == Some(Restrict(p, Labels(qs)))
    decreases |qs|
  {
    if qs == [] {
      assert Restrict(p, Labels(qs)) == Identity;
    } else {
      var q0, tail := qs[0], qs[1..];
      var l := LetterAt(p, q0);
      assert l != I;
      assert Tokens(p, qs) == Token(l, q0) + Tokens(p, tail);
      forall i | 0 <= i < |tail| ensures tail[i] in Support(p) {
        assert tail[i] == qs[i + 1];
      }
      ParseTokensOf(p, tail);
      ParseTokensStep(l, q0, Tokens(p, tail), Restrict(p, Labels(tail)));
      AddSiteRestrict(p, Labels(tail), q0);
      assert Labels(qs) == Labels(tail) + {q0};
    }
  }

  /** Reading the text back gives the operator. */
  lemma ParseRender(p: PauliValue)
    ensures ParseText(Render(p)) == Some(p)
  {
    if Support(p) == {} {
      assert Render(p) == "I";
      assert p.xs == {} && p.zs == {};
    } else {
      var qs := Sorted(Support(p));
      assert Render(p) == Tokens(p, qs) && Render(p) != "I";
      SortedLabels(p, qs);
      ParseTokensOf(p, qs);
    }
  }

  /** The sorted support lists labels of the support and restricts p to itself. */
  lemma SortedLabels(p: PauliValue, qs: seq<int>)
    requires qs == Sorted(Support(p))
    ensures forall i :: 0 <= i < |qs| ==> qs[i] in Support(p)
    ensures Restrict(p, Labels(qs)) == p
  {
    forall i | 0 <= i < |qs| ensures qs[i] in Support(p) {
      assert qs[i] in qs;
    }
    LabelsOfSorted(Support(p));
    RestrictToSupport(p, Labels(qs));
  }

  lemma LabelsOfSorted(s: set<int>)
    ensures Labels(Sorted(s)) == s
  {
    var l := Labels(Sorted(s));
    assert forall q :: q in l <==> q in s;
  }

  lemma RestrictToSupport(p: PauliValue, labels: set<int>)
    requires labels == p.xs + p.zs
    ensures Restrict(p, labels) == p
  {
    var r := Restrict(p, labels);
    assert r.xs == p.xs;
    assert r.zs == p.zs;
  }

  /** The text form determines the operator. */
  lemma RenderInjective(a: PauliValue, b: PauliValue)
    requires Render(a) == Render(b)
    ensures a == b
  {
    ParseRender(a);
    ParseRender(b);
  }
}
