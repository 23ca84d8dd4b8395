/** Sequence vocabulary shared by the scanner model: order-preserving
    selection, sortedness and a reference sort for port lists. */
module Seqs {

  /** `sub` can be obtained from `s` by deleting elements, so it keeps the
      relative order of `s`. */
  ghost predicate IsSubseq<T>(sub: seq<T>, s: seq<T>)
    decreases |s|
  {
    if |sub| == 0 then true
    else if |s| == 0 then false
    else if sub[0] == s[0] then IsSubseq(sub[1..], s[1..])
    else IsSubseq(sub, s[1..])
  }

  /** A subsequence is no longer than the sequence it is taken from. */
  lemma {:induction false} SubseqLength<T>(sub: seq<T>, s: seq<T>)
    requires IsSubseq(sub, s)
    ensures |sub| <= |s|
    decreases |s|
  {
    if |sub| > 0 {
      if sub[0] == s[0] {
        SubseqLength(sub[1..], s[1..]);
      } else {
        SubseqLength(sub, s[1..]);
      }
    }
  }

  /** The elements `x` of `s` with `f(x) == keep`, in the order of `s`
      (a Python list comprehension with an `if` filter). */
  function Select<T(==,!new)>(s: seq<T>, f: T -> bool, keep: bool): (r: seq<T>)
    ensures forall x :: x in r <==> x in s && f(x) == keep
    ensures forall i :: 0 <= i < |r| ==> f(r[i]) == keep
    ensures IsSubseq(r, s)
    ensures |r| <= |s|
  {
    if |s| == 0 then []
    else if f(s[0]) == keep then [s[0]] + Select(s[1..], f, keep)
    else Select(s[1..], f, keep)
  }

  /** Selecting from a sequence grown at the end extends the selection at the end. */
  lemma {:induction false} SelectSnoc<T(!new)>(s: seq<T>, x: T, f: T -> bool, keep: bool)
    ensures Select(s + [x], f, keep) == Select(s, f, keep) + (if f(x) == keep then [x] else [])
    decreases |s|
  {
    if |s| == 0 {
      assert s + [x] == [x];
    } else {
      assert (s + [x])[0] == s[0];
      assert (s + [x])[1..] == s[1..] + [x];
      SelectSnoc(s[1..], x, f, keep);
    }
  }

  /** Selecting from one more element of a prefix. */
  lemma SelectPrefixStep<T(!new)>(s: seq<T>, i: nat, f: T -> bool, keep: bool)
    requires i < |s|
    ensures Select(s[..i + 1], f, keep) == Select(s[..i], f, keep) + (if f(s[i]) == keep then [s[i]] else [])
  {
    assert s[..i + 1] == s[..i] + [s[i]];
    SelectSnoc(s[..i], s[i], f, keep);
  }

  /** How often a value occurs in a selection. */
  lemma {:induction false} SelectCount<T(!new)>(s: seq<T>, f: T -> bool, keep: bool, x: T)
    ensures multiset(Select(s, f, keep))[x] == if f(x) == keep then multiset(s)[x] else 0
    decreases |s|
  {
    if |s| > 0 {
      assert s == [s[0]] + s[1..];
      SelectCount(s[1..], f, keep, x);
    }
  }

  /** The selection depends on the multiset of its input only up to order. */
  lemma SelectRespectsPermutation<T(!new)>(a: seq<T>, b: seq<T>, f: T -> bool, keep: bool)
    requires multiset(a) == multiset(b)
    ensures multiset(Select(a, f, keep)) == multiset(Select(b, f, keep))
  {
    forall x
      ensures multiset(Select(a, f, keep))[x] == multiset(Select(b, f, keep))[x]
    {
      SelectCount(a, f, keep, x);
      SelectCount(b, f, keep, x);
    }
  }

  /** Selecting with `true` and with `false` splits a sequence in two. */
  lemma SelectSplits<T(!new)>(s: seq<T>, f: T -> bool)
    ensures multiset(Select(s, f, true)) + multiset(Select(s, f, false)) == multiset(s)
  {
    forall x
      ensures (multiset(Select(s, f, true)) + multiset(Select(s, f, false)))[x] == multiset(s)[x]
    {
      SelectCount(s, f, true, x);
      SelectCount(s, f, false, x);
    }
  }

  /** Non-decreasing order. */
  predicate Sorted(s: seq<int>) {
    forall i, j :: 0 <= i < j < |s| ==> s[i] <= s[j]
  }

  /** Strictly increasing order: sorted and without repeats. */
  predicate Ascending(s: seq<int>) {
    forall i, j :: 0 <= i < j < |s| ==> s[i] < s[j]
  }

  /** No value occurs twice. */
  predicate Distinct<T(==)>(s: seq<T>) {
    forall i, j :: 0 <= i < j < |s| ==> s[i] != s[j]
  }

  /** Inserts `x` into a sorted sequence, keeping it sorted. */
  function Insert(x: int, s: seq<int>): (r: seq<int>)
    requires Sorted(s)
    ensures Sorted(r)
    ensures multiset(r) == multiset(s) + multiset{x}
  {
    if |s| == 0 then [x]
    else if x <= s[0] then [x] + s
    else
      var rest := Insert(x, s[1..]);
      InsertAfterHead(x, s, rest);
      [s[0]] + rest
  }

  /** The step of `Insert` that puts the head of `s` in front of the insertion
      into the tail. */
  lemma InsertAfterHead(x: int, s: seq<int>, rest: seq<int>)
    requires Sorted(s) && |s| > 0 && s[0] < x
    requires Sorted(rest)
    requires multiset(rest) == multiset(s[1..]) + multiset{x}
    ensures Sorted([s[0]] + rest)
    ensures multiset([s[0]] + rest) == multiset(s) + multiset{x}
  {
    assert s == [s[0]] + s[1..];
    forall k | 0 <= k < |rest|
      ensures s[0] <= rest[k]
    {
      assert rest[k] in multiset(rest);
      assert rest[k] == x || rest[k] in multiset(s[1..]);
    }
  }

  /** Reference sort (insertion sort); by `SortedUnique` any sort agrees with it. */
  function Sort(s: seq<int>): (r: seq<int>)
    ensures Sorted(r)
    ensures multiset(r) == multiset(s)
  {
    if |s| == 0 then []
    else
      assert s == [s[0]] + s[1..];
      Insert(s[0], Sort(s[1..]))
  }

  /** Sorting neither adds nor drops values. */
  lemma SortKeepsMembers(s: seq<int>)
    ensures forall x :: x in Sort(s) <==> x in s
  {
    forall x
      ensures x in Sort(s) <==> x in s
    {
      assert x in Sort(s) <==> x in multiset(Sort(s));
      assert x in s <==> x in multiset(s);
    }
  }

  /** A sorted arrangement of a multiset is unique. */
  lemma {:induction false} SortedUnique(a: seq<int>, b: seq<int>)
    requires Sorted(a) && Sorted(b)
    requires multiset(a) == multiset(b)
    ensures a == b
    decreases |a|
  {
    assert |a| == |multiset(a)| == |multiset(b)| == |b|;
    if |a| > 0 {
      assert a[0] in multiset(b);
      assert b[0] in multiset(a);
      assert a[0] == b[0];
      assert a == [a[0]] + a[1..];
      assert b == [b[0]] + b[1..];
      assert multiset(a) == multiset{a[0]} + multiset(a[1..]);
      assert multiset(b) == multiset{b[0]} + multiset(b[1..]);
      assert multiset(a[1..]) == multiset(a) - multiset{a[0]};
      assert multiset(b[1..]) == multiset(b) - multiset{b[0]};
      SortedUnique(a[1..], b[1..]);
    }
  }

  /** A strictly increasing sequence is determined by its set of members. */
  lemma {:induction false} AscendingByMembers(a: seq<int>, b: seq<int>)
    requires Ascending(a) && Ascending(b)
    requires forall x :: x in a <==> x in b
    ensures a == b
    decreases |a|
  {
    assert |a| > 0 ==> a[0] in a;
    assert |b| > 0 ==> b[0] in b;
    if |a| > 0 {
      assert a[0] == b[0];
      forall x
        ensures x in a[1..] <==> x in b[1..]
      {
        assert x in a[1..] <==> x in a && x != a[0];
        assert x in b[1..] <==> x in b && x != b[0];
      }
      AscendingByMembers(a[1..], b[1..]);
    }
  }

  /** Without repeats every value occurs at most once. */
  lemma {:induction false} DistinctCount<T>(s: seq<T>, x: T)
    requires Distinct(s)
    ensures multiset(s)[x] <= 1
    decreases |s|
  {
    if |s| > 0 {
      assert s == [s[0]] + s[1..];
      DistinctCount(s[1..], x);
      assert s[0] !in s[1..];
    }
  }

  /** A sorted sequence in which no value occurs twice is strictly increasing. */
  lemma SortedSingletonsAscending(s: seq<int>)
    requires Sorted(s)
    requires forall x :: multiset(s)[x] <= 1
    ensures Ascending(s)
  {
    forall i, j | 0 <= i < j < |s|
      ensures s[i] < s[j]
    {
      RepeatCounted(s, i, j);
    }
  }

  /** A value found at two positions occurs at least twice. */
  lemma RepeatCounted<T>(s: seq<T>, i: int, j: int)
    requires 0 <= i < j < |s|
    ensures s[i] == s[j] ==> multiset(s)[s[i]] >= 2
  {
    assert s == s[..i] + [s[i]] + s[i + 1..j] + [s[j]] + s[j + 1..];
  }

  /** Sorting a selection from a sequence without repeats gives a strictly
      increasing sequence. */
  lemma SortedSelectionAscending(s: seq<int>, f: int -> bool, keep: bool)
    requires Distinct(s)
    ensures Ascending(Sort(Select(s, f, keep)))
  {
    forall x
      ensures multiset(Sort(Select(s, f, keep)))[x] <= 1
    {
      SelectCount(s, f, keep, x);
      DistinctCount(s, x);
    }
    SortedSingletonsAscending(Sort(Select(s, f, keep)));
  }
}
