/**
 * `ft::pair` and its operators (utility.hpp).
 *
 * A pair is a value with two components.  Its comparisons use the
 * components' own `<` and `==`; here `<` is passed in as a function, and
 * equality of components is Dafny's equality.
 */
module Utility {

  datatype Pair<A, B> = Pair(first: A, second: B)

  /** `lt` is a strict total order: irreflexive, transitive, and any two
      different values are ordered one way or the other. */
  ghost predicate StrictTotal<A(!new)>(lt: (A, A) -> bool) {
    && (forall a :: !lt(a, a))
    && (forall a, b, c :: lt(a, b) && lt(b, c) ==> lt(a, c))
    && (forall a, b :: a != b ==> lt(a, b) || lt(b, a))
  }

  /** `make_pair(t, u)`. */
  function MakePair<A, B>(t: A, u: B): (p: Pair<A, B>)
    ensures p.first == t && p.second == u
  {
    Pair(t, u)
  }

  /** The converting constructor and converting assignment: each component
      goes through the conversion to the new component type. */
  function Convert<U1, U2, A, B>(p: Pair<U1, U2>, f1: U1 -> A, f2: U2 -> B): (r: Pair<A, B>)
    ensures r.first == f1(p.first) && r.second == f2(p.second)
  {
    Pair(f1(p.first), f2(p.second))
  }

  /** `operator==`: both components equal. */
  function Equal<A(==), B(==)>(l: Pair<A, B>, r: Pair<A, B>): (b: bool)
    ensures b <==> l == r
  {
    l.first == r.first && l.second == r.second
  }

  /** `operator!=`. */
  function NotEqual<A(==), B(==)>(l: Pair<A, B>, r: Pair<A, B>): (b: bool)
    ensures b <==> l != r
  {
    !Equal(l, r)
  }

  /** `operator<`: `first` decides, and equal `first`s defer to `second`. */
  function Less<A(==), B>(l: Pair<A, B>, r: Pair<A, B>, ltA: (A, A) -> bool, ltB: (B, B) -> bool): bool {
    if ltA(l.first, r.first) then true
    else if l.first == r.first then ltB(l.second, r.second)
    else false
  }

  /** `operator>`: `<` with the arguments swapped. */
  function Greater<A(==), B>(l: Pair<A, B>, r: Pair<A, B>, ltA: (A, A) -> bool, ltB: (B, B) -> bool): bool {
    Less(r, l, ltA, ltB)
  }

  /** `operator>=`: not `<`. */
  function GreaterEq<A(==), B>(l: Pair<A, B>, r: Pair<A, B>, ltA: (A, A) -> bool, ltB: (B, B) -> bool): bool {
    !Less(l, r, ltA, ltB)
  }

  /** `operator<=`: not `>`. */
  function LessEq<A(==), B>(l: Pair<A, B>, r: Pair<A, B>, ltA: (A, A) -> bool, ltB: (B, B) -> bool): bool {
    !Greater(l, r, ltA, ltB)
  }

  // ---------------------------------------------------------------------

  /** With strict total orders on the components, `<` on pairs is the
      lexicographic strict total order. */
  lemma LessIsStrictTotal<A(!new), B(!new)>(ltA: (A, A) -> bool, ltB: (B, B) -> bool)
    requires StrictTotal(ltA) && StrictTotal(ltB)
    ensures StrictTotal((l: Pair<A, B>, r: Pair<A, B>) => Less(l, r, ltA, ltB))
  {
    var lt := (l: Pair<A, B>, r: Pair<A, B>) => Less(l, r, ltA, ltB);
    forall p, q, s | lt(p, q) && lt(q, s) ensures lt(p, s) {
      LessTrans(p, q, s, ltA, ltB);
    }
    forall p: Pair<A, B>, q: Pair<A, B> | p != q ensures lt(p, q) || lt(q, p) {
      LessTotal(p, q, ltA, ltB);
    }
  }

  lemma LessTrans<A(!new), B(!new)>(p: Pair<A, B>, q: Pair<A, B>, s: Pair<A, B>, ltA: (A, A) -> bool, ltB: (B, B) -> bool)
    requires StrictTotal(ltA) && StrictTotal(ltB)
    requires Less(p, q, ltA, ltB) && Less(q, s, ltA, ltB)
    ensures Less(p, s, ltA, ltB)
  {
    if p.first == q.first {
      if q.first != s.first {
        assert ltA(q.first, s.first);
      }
    } else if q.first == s.first {
      assert ltA(p.first, q.first);
    } else {
      assert ltA(p.first, q.first) && ltA(q.first, s.first);
    }
  }

  lemma LessTotal<A(!new), B(!new)>(p: Pair<A, B>, q: Pair<A, B>, ltA: (A, A) -> bool, ltB: (B, B) -> bool)
    requires StrictTotal(ltA) && StrictTotal(ltB) && p != q
    ensures Less(p, q, ltA, ltB) || Less(q, p, ltA, ltB)
  {
    if p.first == q.first {
      assert p.second != q.second;
    }
  }

  /** Under strict total component orders the six operators agree with
      each other the way their names promise: exactly one of `<`, `==`, `>`
      holds, `<=` is `<` or `==`, and `>=` is `>` or `==`. */
  lemma ComparisonsAgree<A(!new), B(!new)>(l: Pair<A, B>, r: Pair<A, B>, ltA: (A, A) -> bool, ltB: (B, B) -> bool)
    requires StrictTotal(ltA) && StrictTotal(ltB)
    ensures Less(l, r, ltA, ltB) || Equal(l, r) || Greater(l, r, ltA, ltB)
    ensures !(Less(l, r, ltA, ltB) && Greater(l, r, ltA, ltB))
    ensures !(Equal(l, r) && Less(l, r, ltA, ltB))
    ensures LessEq(l, r, ltA, ltB) <==> Less(l, r, ltA, ltB) || Equal(l, r)
    ensures GreaterEq(l, r, ltA, ltB) <==> Greater(l, r, ltA, ltB) || Equal(l, r)
  {
    if l != r {
      LessTotal(l, r, ltA, ltB);
    }
    if Less(l, r, ltA, ltB) && Less(r, l, ltA, ltB) {
      LessTrans(l, r, l, ltA, ltB);
    }
  }
}
