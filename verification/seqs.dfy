/** Order-preserving filtering and projection of sequences: LINQ's `Where`
    and `Select` over an in-order enumeration. */
module Seqs {

  /** The elements of `s` that satisfy `p`, in their original order. */
  function Filter<T>(p: T -> bool, s: seq<T>): (r: seq<T>)
    ensures |r| <= |s|
    ensures forall i :: 0 <= i < |r| ==> r[i] in s && p(r[i])
    ensures forall i :: 0 <= i < |s| && p(s[i]) ==> s[i] in r
  {
    if s == [] then []
    else if p(s[0]) then [s[0]] + Filter(p, s[1..])
    else Filter(p, s[1..])
  }

  /** `f` applied to every element of `s`, in order. */
  function Map<A, B>(f: A -> B, s: seq<A>): seq<B>
  {
    seq(|s|, i requires 0 <= i < |s| => f(s[i]))
  }

  /** The conjunction of two predicates. */
  function And<T>(p: T -> bool, q: T -> bool): T -> bool
  {
    x => p(x) && q(x)
  }

  /** `idx` lists, in strictly increasing order, positions of `b` whose
      elements spell out `a`. */
  ghost predicate Embeds<T>(idx: seq<nat>, a: seq<T>, b: seq<T>)
  {
    && |idx| == |a|
    && (forall k :: 0 <= k < |idx| ==> idx[k] < |b| && a[k] == b[idx[k]])
    && (forall k, l :: 0 <= k < l < |idx| ==> idx[k] < idx[l])
  }

  /** `a` is an order-preserving subsequence of `b`. */
  ghost predicate IsSubsequence<T>(a: seq<T>, b: seq<T>)
  {
    exists idx :: Embeds(idx, a, b)
  }

  /** Filtering distributes over concatenation. */
  lemma {:induction false} FilterAppend<T>(p: T -> bool, a: seq<T>, b: seq<T>)
    ensures Filter(p, a + b) == Filter(p, a) + Filter(p, b)
  {
    if a == [] {
      assert a + b == b;
    } else {
      assert (a + b)[1..] == a[1..] + b;
      FilterAppend(p, a[1..], b);
    }
  }

  /** A filter that every element passes keeps the whole sequence. */
  lemma {:induction false} FilterKeepsAll<T>(p: T -> bool, s: seq<T>)
    requires forall i :: 0 <= i < |s| ==> p(s[i])
    ensures Filter(p, s) == s
  {
    if s != [] {
      FilterKeepsAll(p, s[1..]);
    }
  }

  /** A filter that no element passes keeps nothing. */
  lemma {:induction false} FilterKeepsNone<T>(p: T -> bool, s: seq<T>)
    requires forall i :: 0 <= i < |s| ==> !p(s[i])
    ensures Filter(p, s) == []
  {
    if s != [] {
      FilterKeepsNone(p, s[1..]);
    }
  }

  /** Two predicates that agree on the elements of `s` filter it alike. */
  lemma {:induction false} FilterAgree<T>(p: T -> bool, q: T -> bool, s: seq<T>)
    requires forall x :: x in s ==> p(x) == q(x)
    ensures Filter(p, s) == Filter(q, s)
  {
    if s != [] {
      FilterAgree(p, q, s[1..]);
    }
  }

  /** Filtering by `p` and then by `q` is filtering once by any predicate
      that is their conjunction on `s`. */
  lemma {:induction false} FilterFilter<T>(p: T -> bool, q: T -> bool, both: T -> bool, s: seq<T>)
    requires forall x :: x in s ==> both(x) == (p(x) && q(x))
    ensures Filter(q, Filter(p, s)) == Filter(both, s)
  {
    if s != [] {
      FilterFilter(p, q, both, s[1..]);
    }
  }

  /** When exactly one position satisfies `p`, the filter is that element. */
  lemma {:induction false} FilterSingle<T>(p: T -> bool, s: seq<T>, i: nat)
    requires i < |s| && p(s[i])
    requires forall j :: 0 <= j < |s| && j != i ==> !p(s[j])
    ensures Filter(p, s) == [s[i]]
  {
    assert s == s[..i] + [s[i]] + s[i + 1..];
    FilterAppend(p, s[..i] + [s[i]], s[i + 1..]);
    FilterAppend(p, s[..i], [s[i]]);
    FilterKeepsNone(p, s[..i]);
    FilterKeepsNone(p, s[i + 1..]);
  }

  /** A filter that rejects one element and keeps all around it drops
      exactly that element. */
  lemma FilterDropsOne<T>(p: T -> bool, before: seq<T>, x: T, after: seq<T>)
    requires forall i :: 0 <= i < |before| ==> p(before[i])
    requires !p(x)
    requires forall i :: 0 <= i < |after| ==> p(after[i])
    ensures Filter(p, before + [x] + after) == before + after
  {
    var left := before + [x];
    FilterAppend(p, left, after);
    FilterAppend(p, before, [x]);
    FilterKeepsAll(p, before);
    FilterKeepsAll(p, after);
    assert Filter(p, [x]) == [];
    assert Filter(p, left) == before;
  }

  /** Two distinct positions satisfying `p` leave at least two elements. */
  lemma {:induction false} FilterTwo<T>(p: T -> bool, s: seq<T>, i: nat, j: nat)
    requires i < j < |s| && p(s[i]) && p(s[j])
    ensures |Filter(p, s)| >= 2
  {
    if i == 0 {
      assert s[1..][j - 1] == s[j];
      FilterAtLeastOne(p, s[1..], j - 1);
    } else {
      assert s[1..][i - 1] == s[i] && s[1..][j - 1] == s[j];
      FilterTwo(p, s[1..], i - 1, j - 1);
    }
  }

  /** One position satisfying `p` leaves at least one element. */
  lemma FilterAtLeastOne<T>(p: T -> bool, s: seq<T>, i: nat)
    requires i < |s| && p(s[i])
    ensures |Filter(p, s)| >= 1
  {
    assert s[i] in Filter(p, s);
  }

  /** Filtering keeps an order-preserving subsequence. */
  lemma {:induction false} FilterIsSubsequence<T>(p: T -> bool, s: seq<T>)
    ensures IsSubsequence(Filter(p, s), s)
  {
    var idx := FilterEmbedding(p, s);
  }

  /** The positions of `s` that the filter keeps. */
  lemma {:induction false} FilterEmbedding<T>(p: T -> bool, s: seq<T>) returns (idx: seq<nat>)
    ensures Embeds(idx, Filter(p, s), s)
  {
    if s == [] {
      idx := [];
    } else {
      var rest := FilterEmbedding(p, s[1..]);
      assert s == [s[0]] + s[1..];
      var shifted := Shift(rest);
      ShiftEmbeds(rest, Filter(p, s[1..]), s[0], s[1..]);
      if p(s[0]) {
        idx := [0] + shifted;
        ConsEmbeds(shifted, Filter(p, s[1..]), s[0], s[1..]);
      } else {
        idx := shifted;
      }
    }
  }

  /** Every position moved one place right. */
  function Shift(idx: seq<nat>): (r: seq<nat>)
    ensures |r| == |idx| && forall k :: 0 <= k < |idx| ==> r[k] == idx[k] + 1
  {
    seq(|idx|, k requires 0 <= k < |idx| => idx[k] + 1)
  }

  /** An embedding into `b` shifts to one into `[x] + b`. */
  lemma ShiftEmbeds<T>(idx: seq<nat>, a: seq<T>, x: T, b: seq<T>)
    requires Embeds(idx, a, b)
    ensures Embeds(Shift(idx), a, [x] + b)
  {
    var c := [x] + b;
    assert forall k :: 0 <= k < |b| ==> c[k + 1] == b[k];
  }

  /** Position 0 then the shifted embedding embeds `[x] + a` into `[x] + b`. */
  lemma ConsEmbeds<T>(shifted: seq<nat>, a: seq<T>, x: T, b: seq<T>)
    requires Embeds(shifted, a, [x] + b)
    requires forall k :: 0 <= k < |shifted| ==> shifted[k] > 0
    ensures Embeds([0] + shifted, [x] + a, [x] + b)
  {
  }

  /** Projection preserves an embedding, so it preserves subsequences. */
  lemma MapPreservesSubsequence<A, B>(f: A -> B, a: seq<A>, b: seq<A>)
    requires IsSubsequence(a, b)
    ensures IsSubsequence(Map(f, a), Map(f, b))
  {
    var idx :| Embeds(idx, a, b);
    assert Embeds(idx, Map(f, a), Map(f, b));
  }
}
