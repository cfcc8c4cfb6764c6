/**
 * Python's `sorted` over strings: the code-point lexicographic order on `str`
 * and a stable sort by it (insertion sort, which yields the same list as
 * Python's Timsort since the sorted permutation of a list is unique up to
 * equal elements).
 */
module Ordering {

  /** `a < b` on Python strings: code-point lexicographic, a proper prefix first. */
  predicate Less(a: string, b: string)
    decreases |a|
  {
    if a == [] then b != []
    else if b == [] then false
    else if a[0] != b[0] then a[0] < b[0]
    else Less(a[1..], b[1..])
  }

  lemma {:induction false} LessIrreflexive(a: string)
    ensures !Less(a, a)
    decreases |a|
  {
    if a != [] {
      LessIrreflexive(a[1..]);
    }
  }

  lemma {:induction false} LessTransitive(a: string, b: string, c: string)
    requires Less(a, b) && Less(b, c)
    ensures Less(a, c)
    decreases |a|
  {
    if a != [] && b != [] && c != [] && a[0] == b[0] == c[0] {
      LessTransitive(a[1..], b[1..], c[1..]);
    }
  }

  /** Any two distinct strings are ordered one way or the other. */
  lemma {:induction false} LessTotal(a: string, b: string)
    ensures a == b || Less(a, b) || Less(b, a)
    decreases |a|
  {
    if a != [] && b != [] && a[0] == b[0] {
      LessTotal(a[1..], b[1..]);
      if a[1..] == b[1..] {
        assert a == [a[0]] + a[1..] && b == [b[0]] + b[1..];
      }
    }
  }

  lemma {:induction false} LessAsymmetric(a: string, b: string)
    requires Less(a, b)
    ensures !Less(b, a)
  {
    if Less(b, a) {
      LessTransitive(a, b, a);
      LessIrreflexive(a);
    }
  }

  predicate LessEq(a: string, b: string) {
    a == b || Less(a, b)
  }

  /** `s` is in non-decreasing order. */
  ghost predicate Sorted(s: seq<string>) {
    forall i, j :: 0 <= i < j < |s| ==> LessEq(s[i], s[j])
  }

  /** Strings that agree up to position `k` are ordered by their characters there. */
  lemma {:induction false} LessAt(a: string, b: string, k: nat)
    requires k < |a| && k < |b| && a[..k] == b[..k] && a[k] < b[k]
    ensures Less(a, b)
  {
    if k > 0 {
      assert a[0] == a[..k][0] == b[..k][0] == b[0];
      assert a[1..][..k - 1] == a[1..k] == a[..k][1..];
      assert b[1..][..k - 1] == b[1..k] == b[..k][1..];
      LessAt(a[1..], b[1..], k - 1);
    }
  }

  /** A proper prefix comes first. */
  lemma {:induction false} LessPrefix(a: string, b: string)
    requires |a| < |b| && a == b[..|a|]
    ensures Less(a, b)
  {
    if a != [] {
      assert b[1..][..|a| - 1] == a[1..];
      LessPrefix(a[1..], b[1..]);
    }
  }

  /** Strictly ascending neighbours make a sorted list. */
  lemma {:induction false} SortedChain(s: seq<string>)
    requires forall i :: 0 < i < |s| ==> Less(s[i - 1], s[i])
    ensures Sorted(s)
  {
    if |s| > 1 {
      var t := s[1..];
      assert forall i :: 0 < i < |t| ==> t[i - 1] == s[i] && t[i] == s[i + 1];
      SortedChain(t);
      forall j | 0 < j < |s| ensures LessEq(s[0], s[j]) {
        assert LessEq(t[0], t[j - 1]);
        if s[1] != s[j] {
          LessTransitive(s[0], s[1], s[j]);
        }
      }
    }
  }

  /** Every element of `s` is at least `x`. */
  ghost predicate AllAtLeast(x: string, s: seq<string>) {
    forall j :: 0 <= j < |s| ==> LessEq(x, s[j])
  }

  /** Puts `x` into the sorted list `s` after every element not above it. */
  function Insert(x: string, s: seq<string>): (r: seq<string>)
    requires Sorted(s)
    ensures Sorted(r)
    ensures multiset(r) == multiset(s) + multiset{x}
  {
    if s == [] then [x]
    else if LessEq(x, s[0]) then
      assert AllAtLeast(x, s) by {
        forall j | 0 <= j < |s| ensures LessEq(x, s[j]) {
          if x != s[0] && s[0] != s[j] { LessTransitive(x, s[0], s[j]); }
        }
      }
      [x] + s
    else
      LessTotal(x, s[0]);
      var t := Insert(x, s[1..]);
      assert s == [s[0]] + s[1..];
      assert AllAtLeast(s[0], t) by {
        forall j | 0 <= j < |t| ensures LessEq(s[0], t[j]) {
          assert t[j] in multiset(t);
          assert t[j] == x || t[j] in s[1..];
        }
      }
      [s[0]] + t
  }

  /** `sorted(s)`: the elements of `s` in non-decreasing order. */
  function Sort(s: seq<string>): (r: seq<string>)
    ensures Sorted(r)
    ensures multiset(r) == multiset(s)
  {
    if s == [] then []
    else
      assert s == [s[0]] + s[1..];
      Insert(s[0], Sort(s[1..]))
  }

  /** Two sorted lists with the same elements are the same list: the result
      of `Sort` does not depend on the algorithm that computes it. */
  lemma {:induction false} SortedUnique(a: seq<string>, b: seq<string>)
    requires Sorted(a) && Sorted(b) && multiset(a) == multiset(b)
    ensures a == b
  {
    if a != [] {
      SortedHeads(a, b);
      TailElements(a);
      TailElements(b);
      SortedTail(a);
      SortedTail(b);
      SortedUnique(a[1..], b[1..]);
      assert a == [a[0]] + a[1..] && b == [b[0]] + b[1..];
    }
  }

  /** Two sorted lists with the same elements start with the same element. */
  lemma SortedHeads(a: seq<string>, b: seq<string>)
    requires Sorted(a) && Sorted(b) && multiset(a) == multiset(b) && a != []
    ensures b != [] && a[0] == b[0]
  {
    assert a[0] in multiset(b);
    assert b != [];
    assert b[0] in multiset(a);
    var i :| 0 <= i < |b| && b[i] == a[0];
    var j :| 0 <= j < |a| && a[j] == b[0];
    if a[0] != b[0] {
      assert LessEq(b[0], a[0]) && LessEq(a[0], b[0]);
      LessAsymmetric(a[0], b[0]);
    }
  }

  /** The tail holds the elements of the list but its head. */
  lemma TailElements(a: seq<string>)
    requires a != []
    ensures multiset(a[1..]) == multiset(a) - multiset{a[0]}
  {
    assert a == [a[0]] + a[1..];
  }

  /** The tail of a sorted list is sorted. */
  lemma SortedTail(a: seq<string>)
    requires Sorted(a) && a != []
    ensures Sorted(a[1..])
  {
    var t := a[1..];
    forall i, j | 0 <= i < j < |t| ensures LessEq(t[i], t[j]) {
      assert t[i] == a[i + 1] && t[j] == a[j + 1];
    }
  }
}
