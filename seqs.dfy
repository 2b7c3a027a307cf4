/** Generic sequence operations that the task table is built from: boolean
    row selection, order-preserving sub-sequences, sorting by an integer key
    and first-match search. */
module Seqs {

  datatype Option<+T> = None | Some(value: T)

  /** `r` can be obtained from `s` by deleting elements, keeping the order. */
  predicate IsSubsequence<T(==)>(r: seq<T>, s: seq<T>)
    decreases |s|
  {
    r == [] ||
    (s != [] &&
     ((r[0] == s[0] && IsSubsequence(r[1..], s[1..])) || IsSubsequence(r, s[1..])))
  }

  /** The elements of `s` that satisfy `p`, in their order in `s`. */
  function Where<T(==,!new)>(s: seq<T>, p: T -> bool): (r: seq<T>)
    ensures |r| <= |s|
    ensures forall x :: x in r <==> x in s && p(x)
    ensures forall x :: multiset(r)[x] == if p(x) then multiset(s)[x] else 0
    ensures IsSubsequence(r, s)
  {
    if s == [] then []
    else
      var rest := Where(s[1..], p);
      assert s == [s[0]] + s[1..];
      if p(s[0]) then [s[0]] + rest else rest
  }

  /** Boolean indexing: the elements of `s` whose position holds `true` in `mask`. */
  function ApplyMask<T(!new)>(s: seq<T>, mask: seq<bool>): (r: seq<T>)
    requires |mask| == |s|
    ensures |r| <= |s|
    ensures forall x :: x in r <==> exists i :: 0 <= i < |s| && mask[i] && s[i] == x
  {
    if s == [] then []
    else
      var rest := ApplyMask(s[1..], mask[1..]);
      assert forall i :: 1 <= i < |s| ==> s[i] == s[1..][i - 1] && mask[i] == mask[1..][i - 1];
      (if mask[0] then [s[0]] else []) + rest
  }

  /** A mask computed position by position from `p` selects what `Where` selects. */
  lemma {:induction false} ApplyMaskIsWhere<T(!new)>(s: seq<T>, mask: seq<bool>, p: T -> bool)
    requires |mask| == |s|
    requires forall i :: 0 <= i < |s| ==> mask[i] == p(s[i])
    ensures ApplyMask(s, mask) == Where(s, p)
  {
    if s != [] {
      assert forall i :: 0 <= i < |s| - 1 ==> mask[1..][i] == p(s[1..][i]) by {
        forall i | 0 <= i < |s| - 1 ensures mask[1..][i] == p(s[1..][i]) {
          assert mask[1..][i] == mask[i + 1] && s[1..][i] == s[i + 1];
        }
      }
      ApplyMaskIsWhere(s[1..], mask[1..], p);
    }
  }

  /** Element-wise conjunction and disjunction of two masks of the same length. */
  function And(m1: seq<bool>, m2: seq<bool>): (r: seq<bool>)
    requires |m1| == |m2|
    ensures |r| == |m1| && forall i :: 0 <= i < |r| ==> (r[i] <==> m1[i] && m2[i])
  {
    seq(|m1|, i requires 0 <= i < |m1| => m1[i] && m2[i])
  }

  function Or(m1: seq<bool>, m2: seq<bool>): (r: seq<bool>)
    requires |m1| == |m2|
    ensures |r| == |m1| && forall i :: 0 <= i < |r| ==> (r[i] <==> m1[i] || m2[i])
  {
    seq(|m1|, i requires 0 <= i < |m1| => m1[i] || m2[i])
  }

  predicate SortedBy<T>(s: seq<T>, key: T -> int)
  {
    forall i, j :: 0 <= i < j < |s| ==> key(s[i]) <= key(s[j])
  }

  /** Prepending an element no greater than the rest keeps a sequence sorted. */
  lemma ConsSorted<T>(h: T, t: seq<T>, key: T -> int)
    requires SortedBy(t, key)
    requires forall y :: y in t ==> key(h) <= key(y)
    ensures SortedBy([h] + t, key)
  {
    var r := [h] + t;
    forall i, j | 0 <= i < j < |r| ensures key(r[i]) <= key(r[j]) {
      assert r[j] == t[j - 1];
      if i > 0 { assert r[i] == t[i - 1]; }
    }
  }

  /** Inserts `x` in front of the first element whose key is at least its own. */
  function Insert<T(==)>(x: T, s: seq<T>, key: T -> int): (r: seq<T>)
    requires SortedBy(s, key)
    ensures multiset(r) == multiset(s) + multiset{x}
    ensures forall y :: y in r ==> y == x || y in s
    ensures SortedBy(r, key)
  {
    if s == [] then [x]
    else if key(x) <= key(s[0]) then
      ConsSorted(x, s, key);
      [x] + s
    else
      assert SortedBy(s[1..], key);
      var rest := Insert(x, s[1..], key);
      InsertBehind(x, s, key, rest);
      [s[0]] + rest
  }

  /** The recursive step of `Insert`: `x` goes after the head of `s`. */
  lemma InsertBehind<T>(x: T, s: seq<T>, key: T -> int, rest: seq<T>)
    requires s != [] && SortedBy(s, key) && key(s[0]) < key(x)
    requires multiset(rest) == multiset(s[1..]) + multiset{x}
    requires forall y :: y in rest ==> y == x || y in s[1..]
    requires SortedBy(rest, key)
    ensures multiset([s[0]] + rest) == multiset(s) + multiset{x}
    ensures forall y :: y in [s[0]] + rest ==> y == x || y in s
    ensures SortedBy([s[0]] + rest, key)
  {
    assert s == [s[0]] + s[1..];
    forall y | y in rest ensures key(s[0]) <= key(y) {
      if y != x {
        var j :| 0 <= j < |s[1..]| && s[1..][j] == y;
        assert s[j + 1] == y;
      }
    }
    ConsSorted(s[0], rest, key);
  }

  /** Sorts ascending by `key`; nothing is promised about the order of equal keys. */
  function SortBy<T(==)>(s: seq<T>, key: T -> int): (r: seq<T>)
    ensures multiset(r) == multiset(s)
    ensures SortedBy(r, key)
  {
    if s == [] then []
    else
      assert s == [s[0]] + s[1..];
      Insert(s[0], SortBy(s[1..], key), key)
  }

  /** A permutation has the same length and the same elements. */
  lemma PermutationFacts<T>(r: seq<T>, s: seq<T>)
    requires multiset(r) == multiset(s)
    ensures |r| == |s|
    ensures forall x :: x in r <==> x in s
  {
    assert |multiset(r)| == |multiset(s)|;
    forall x ensures x in r <==> x in s {
      assert x in r <==> x in multiset(r);
      assert x in s <==> x in multiset(s);
    }
  }

  /** A sub-sequence of a sorted sequence is sorted: selections keep the order. */
  lemma {:induction false} SubsequenceKeepsOrder<T>(r: seq<T>, s: seq<T>, key: T -> int)
    requires IsSubsequence(r, s)
    requires SortedBy(s, key)
    ensures SortedBy(r, key)
    ensures forall x :: x in r ==> x in s
    decreases |s|
  {
    if r != [] {
      assert s != [];
      if r[0] == s[0] && IsSubsequence(r[1..], s[1..]) {
        SubsequenceKeepsOrder(r[1..], s[1..], key);
        forall i, j | 0 <= i < j < |r| ensures key(r[i]) <= key(r[j]) {
          if i > 0 {
            assert r[i] == r[1..][i - 1] && r[j] == r[1..][j - 1];
          } else {
            assert r[j] == r[1..][j - 1];
            assert r[j] in s[1..];
          }
        }
        forall x | x in r ensures x in s {
          if x != r[0] { assert x in r[1..]; }
        }
      } else {
        SubsequenceKeepsOrder(r, s[1..], key);
      }
    }
  }

  /** The first element of `s` satisfying `p`, or `None` when there is none. */
  function FindFirst<T>(s: seq<T>, p: T -> bool): (r: Option<T>)
    ensures r.None? <==> forall i :: 0 <= i < |s| ==> !p(s[i])
    ensures r.Some? ==>
      exists i :: 0 <= i < |s| && s[i] == r.value && p(s[i]) &&
                  forall j :: 0 <= j < i ==> !p(s[j])
  {
    if s == [] then None
    else if p(s[0]) then Some(s[0])
    else
      var rest := FindFirst(s[1..], p);
      assert forall i :: 1 <= i < |s| ==> s[i] == s[1..][i - 1];
      rest
  }

  /** Selecting with a predicate that always holds keeps everything. */
  lemma {:induction false} WhereTrue<T(!new)>(s: seq<T>, p: T -> bool)
    requires forall x :: p(x)
    ensures Where(s, p) == s
  {
    if s != [] { WhereTrue(s[1..], p); }
  }

  /** Selections with predicates that agree everywhere are equal. */
  lemma {:induction false} WhereSamePredicate<T(!new)>(s: seq<T>, p: T -> bool, q: T -> bool)
    requires forall x :: p(x) == q(x)
    ensures Where(s, p) == Where(s, q)
  {
    if s != [] { WhereSamePredicate(s[1..], p, q); }
  }
}
