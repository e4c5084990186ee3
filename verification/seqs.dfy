/** Sequence utilities shared by the model: an order-preserving filter (the
    shape of Ruby's `select`-while-enumerating), the `Array#join` of strings,
    and Ruby's byte-wise `String#<=>` order with the sort built on it. */
module Seqs {

  /** Keeps the elements satisfying `f`, in their original order. */
  function Filter<T>(s: seq<T>, f: T -> bool): (r: seq<T>)
    ensures |r| <= |s|
    decreases |s|
  {
    if |s| == 0 then []
    else Filter(s[..|s| - 1], f) + (if f(s[|s| - 1]) then [s[|s| - 1]] else [])
  }

  /** The positions of `s` that `Filter` keeps. */
  function FilterIndices<T>(s: seq<T>, f: T -> bool): seq<nat>
    decreases |s|
  {
    if |s| == 0 then []
    else FilterIndices(s[..|s| - 1], f) + (if f(s[|s| - 1]) then [|s| - 1] else [])
  }

  /** Extending the input by one position extends the kept positions by that
      position exactly when its element is kept. */
  lemma FilterIndicesSnoc<T>(s: seq<T>, i: nat, f: T -> bool)
    requires i < |s|
    ensures FilterIndices(s[..i + 1], f) == FilterIndices(s[..i], f) + (if f(s[i]) then [i] else [])
  {
    assert s[..i + 1][..i] == s[..i];
  }

  predicate StrictlyIncreasing(idx: seq<nat>) {
    forall i, j :: 0 <= i < j < |idx| ==> idx[i] < idx[j]
  }

  /** The kept positions are in range, increasing, and carry `Filter`'s elements. */
  lemma {:induction false} FilterIndicesAlign<T>(s: seq<T>, f: T -> bool)
    ensures var idx := FilterIndices(s, f);
      && |idx| == |Filter(s, f)|
      && StrictlyIncreasing(idx)
      && (forall k :: 0 <= k < |idx| ==> idx[k] < |s| && Filter(s, f)[k] == s[idx[k]])
    decreases |s|
  {
    if |s| > 0 {
      var n := |s| - 1;
      var s' := s[..n];
      FilterIndicesAlign(s', f);
      var idx' := FilterIndices(s', f);
      var r' := Filter(s', f);
      var idx := FilterIndices(s, f);
      var r := Filter(s, f);
      assert idx[..|idx'|] == idx';
      assert r[..|r'|] == r';
      assert |idx| > |idx'| ==> |idx| == |idx'| + 1 && idx[|idx'|] == n && r[|r'|] == s[n];
      forall k | 0 <= k < |idx|
        ensures idx[k] < |s| && r[k] == s[idx[k]]
      {
        if k < |idx'| {
          assert idx[k] == idx'[k] && r[k] == r'[k] && s'[idx'[k]] == s[idx'[k]];
        }
      }
    }
  }

  /** A position is kept exactly when its element satisfies `f`. */
  lemma {:induction false} FilterIndicesComplete<T>(s: seq<T>, f: T -> bool)
    ensures forall i :: 0 <= i < |s| ==> (f(s[i]) <==> i in FilterIndices(s, f))
    decreases |s|
  {
    if |s| > 0 {
      var n := |s| - 1;
      var s' := s[..n];
      FilterIndicesComplete(s', f);
      FilterIndicesAlign(s', f);
      var idx' := FilterIndices(s', f);
      forall i | 0 <= i < |s|
        ensures f(s[i]) <==> i in FilterIndices(s, f)
      {
        if i < n {
          assert s'[i] == s[i];
        } else {
          assert i !in idx';
        }
      }
    }
  }

  /** `Filter(s, f)` is exactly the subsequence of `s` at the positions whose
      element satisfies `f`: in input order, each position at most once. */
  lemma FilterIsSubsequence<T>(s: seq<T>, f: T -> bool)
    ensures var idx := FilterIndices(s, f);
      && |idx| == |Filter(s, f)|
      && StrictlyIncreasing(idx)
      && (forall k :: 0 <= k < |idx| ==> idx[k] < |s| && Filter(s, f)[k] == s[idx[k]])
      && (forall i :: 0 <= i < |s| ==> (f(s[i]) <==> i in idx))
  {
    FilterIndicesAlign(s, f);
    FilterIndicesComplete(s, f);
  }

  /** Membership in a filter result, both directions. */
  lemma {:induction false} FilterMembership<T>(s: seq<T>, f: T -> bool, x: T)
    ensures x in Filter(s, f) <==> x in s && f(x)
    decreases |s|
  {
    if |s| > 0 {
      var s' := s[..|s| - 1];
      FilterMembership(s', f, x);
      assert s == s' + [s[|s| - 1]];
    }
  }

  /** Membership in a filter result, for every element at once. */
  lemma FilterMembershipAll<T>(s: seq<T>, f: T -> bool)
    ensures forall x :: x in Filter(s, f) <==> x in s && f(x)
  {
    forall x
      ensures x in Filter(s, f) <==> x in s && f(x)
    {
      FilterMembership(s, f, x);
    }
  }

  /** Filtering distributes over concatenation. */
  lemma {:induction false} FilterAppend<T>(a: seq<T>, b: seq<T>, f: T -> bool)
    ensures Filter(a + b, f) == Filter(a, f) + Filter(b, f)
    decreases |b|
  {
    if |b| == 0 {
      assert a + b == a;
    } else {
      var b' := b[..|b| - 1];
      FilterAppend(a, b', f);
      assert (a + b)[..|a + b| - 1] == a + b';
    }
  }

  /** Ruby's `Array#join(sep)` on strings. */
  function JoinWith(parts: seq<string>, sep: string): string
    decreases |parts|
  {
    if |parts| == 0 then ""
    else if |parts| == 1 then parts[0]
    else parts[0] + sep + JoinWith(parts[1..], sep)
  }

  /** Ruby's `String#<=>` as a "less than or equal": byte-wise lexicographic
      comparison, a proper prefix sorting first. */
  predicate LexLe(a: string, b: string)
    decreases |a|
  {
    |a| == 0 || (|b| > 0 && (a[0] < b[0] || (a[0] == b[0] && LexLe(a[1..], b[1..]))))
  }

  lemma {:induction false} LexLeTotal(a: string, b: string)
    ensures LexLe(a, b) || LexLe(b, a)
    decreases |a|
  {
    if |a| > 0 && |b| > 0 && a[0] == b[0] {
      LexLeTotal(a[1..], b[1..]);
    }
  }

  lemma {:induction false} LexLeTransitive(a: string, b: string, c: string)
    requires LexLe(a, b) && LexLe(b, c)
    ensures LexLe(a, c)
    decreases |a|
  {
    if |a| > 0 && a[0] == b[0] && b[0] == c[0] {
      LexLeTransitive(a[1..], b[1..], c[1..]);
    }
  }

  predicate SortedStrings(s: seq<string>) {
    forall i, j :: 0 <= i < j < |s| ==> LexLe(s[i], s[j])
  }

  function InsertString(x: string, s: seq<string>): (r: seq<string>)
    requires SortedStrings(s)
    ensures SortedStrings(r)
    ensures multiset(r) == multiset(s) + multiset{x}
    decreases |s|
  {
    if |s| == 0 then [x]
    else if LexLe(x, s[0]) then
      LexLeAllAfterHead(x, s);
      [x] + s
    else
      LexLeTotal(x, s[0]);
      var rest := InsertString(x, s[1..]);
      assert s == [s[0]] + s[1..];
      HeadBelowRest(s[0], x, s[1..], rest);
      [s[0]] + rest
  }

  /** Helper for `InsertString`: x below the head of a sorted sequence is below all of it. */
  lemma LexLeAllAfterHead(x: string, s: seq<string>)
    requires SortedStrings(s) && |s| > 0 && LexLe(x, s[0])
    ensures SortedStrings([x] + s)
  {
    forall j | 0 < j < |s|
      ensures LexLe(x, s[j])
    {
      LexLeTransitive(x, s[0], s[j]);
    }
  }

  /** Helper for `InsertString`: the head stays first after inserting above it. */
  lemma HeadBelowRest(h: string, x: string, tail: seq<string>, rest: seq<string>)
    requires SortedStrings([h] + tail) && LexLe(h, x)
    requires SortedStrings(rest) && multiset(rest) == multiset(tail) + multiset{x}
    ensures SortedStrings([h] + rest)
  {
    forall j | 0 <= j < |rest|
      ensures LexLe(h, rest[j])
    {
      assert rest[j] in multiset(rest);
      assert ([h] + tail)[0] == h;
      if rest[j] != x {
        assert rest[j] in multiset(tail);
        var k :| 0 <= k < |tail| && tail[k] == rest[j];
        assert ([h] + tail)[k + 1] == tail[k];
      }
    }
  }

  /** Ruby's `Array#sort` on strings (insertion sort; only the result matters). */
  function SortStrings(s: seq<string>): (r: seq<string>)
    ensures SortedStrings(r)
    ensures multiset(r) == multiset(s)
    decreases |s|
  {
    if |s| == 0 then []
    else
      assert s == [s[0]] + s[1..];
      InsertString(s[0], SortStrings(s[1..]))
  }
}
