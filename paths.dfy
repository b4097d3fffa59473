/**
 * Index paths of catalogue nodes and the order Python puts on lists of
 * integers: lexicographic, a proper prefix before its extensions. The two
 * comparisons `is_greater` and `is_ancestor_or_self` of the decision engine
 * (navigator_logic.py:120-128) are defined here.
 */
module Paths {

  type Path = seq<nat>

  /** Python's `a < b` on two lists of integers. */
  predicate Less(a: Path, b: Path)
  {
    if a == [] then b != []
    else if b == [] then false
    else a[0] < b[0] || (a[0] == b[0] && Less(a[1..], b[1..]))
  }

  /** `r` is a prefix of `q` (possibly `q` itself). */
  predicate Extends(q: Path, r: Path)
  {
    |r| <= |q| && q[..|r|] == r
  }

  /** `is_greater(a, b)`: true when `b` is empty, otherwise Python's `a > b`. */
  predicate IsGreater(a: Path, b: Path)
  {
    b == [] || Less(b, a)
  }

  /** `is_ancestor_or_self(a, b)`: `b` is non-empty and `a` is a prefix of `b`. */
  predicate IsAncestorOrSelf(a: Path, b: Path)
  {
    if b == [] then false
    else if |a| <= |b| then a == b[..|a|]
    else false
  }

  lemma {:induction false} LessIrreflexive(a: Path)
    ensures !Less(a, a)
  {
    if a != [] {
      LessIrreflexive(a[1..]);
    }
  }

  lemma {:induction false} LessTransitive(a: Path, b: Path, c: Path)
    requires Less(a, b) && Less(b, c)
    ensures Less(a, c)
  {
    if a != [] && a[0] == b[0] && b[0] == c[0] {
      LessTransitive(a[1..], b[1..], c[1..]);
    }
  }

  /** Any two distinct paths are ordered one way or the other, and never both. */
  lemma {:induction false} LessTotal(a: Path, b: Path)
    ensures a == b || Less(a, b) || Less(b, a)
    ensures !(Less(a, b) && Less(b, a))
  {
    if a != [] && b != [] && a[0] == b[0] {
      LessTotal(a[1..], b[1..]);
      if a[1..] == b[1..] {
        assert a == [a[0]] + a[1..] && b == [b[0]] + b[1..];
      }
    }
  }

  /** The rule `is_greater` depends on: a proper prefix is smaller than its extensions. */
  lemma {:induction false} PrefixLess(a: Path, b: Path)
    requires Extends(b, a) && |a| < |b|
    ensures Less(a, b)
  {
    if a != [] {
      assert a[1..] == b[1..][..|a| - 1];
      PrefixLess(a[1..], b[1..]);
    }
  }

  /** Two paths that agree up to position `m` and differ there are ordered by that position. */
  lemma {:induction false} BranchLess(a: Path, b: Path, m: nat)
    requires m < |a| && m < |b| && a[..m] == b[..m] && a[m] < b[m]
    ensures Less(a, b)
  {
    if m > 0 {
      assert a[0] == a[..m][0] && b[0] == b[..m][0];
      assert a[1..][..m - 1] == a[..m][1..] && b[1..][..m - 1] == b[..m][1..];
      BranchLess(a[1..], b[1..], m - 1);
    }
  }

  /** Every descendant of a node comes after it: `is_greater` holds of the anchor's subtree. */
  lemma DescendantIsGreater(anchor: Path, q: Path)
    requires Extends(q, anchor) && |q| > |anchor|
    ensures IsGreater(q, anchor)
  {
    PrefixLess(anchor, q);
  }

  /** `is_ancestor_or_self(a, b)` is "`a` is a prefix of the non-empty `b`". */
  lemma AncestorOrSelfIsPrefix(a: Path, b: Path)
    ensures IsAncestorOrSelf(a, b) <==> b != [] && Extends(b, a)
  {
  }
}
