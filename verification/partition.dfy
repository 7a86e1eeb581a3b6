/** The in-place partition of mipmesh.js (`partition`), over a sequence that
    is threaded through instead of an array mutated in place. */
module Partitions {

  /** Every element of `s[lo..hi)` satisfies `p`. */
  ghost predicate AllIn<T>(s: seq<T>, lo: int, hi: int, p: T -> bool)
    requires 0 <= lo <= hi <= |s|
  {
    forall k :: lo <= k < hi ==> p(s[k])
  }

  /** No element of `s[lo..hi)` satisfies `p`. */
  ghost predicate NoneIn<T>(s: seq<T>, lo: int, hi: int, p: T -> bool)
    requires 0 <= lo <= hi <= |s|
  {
    forall k :: lo <= k < hi ==> !p(s[k])
  }

  /** `b` is `a` with only the elements of `[lo, hi)` rearranged. */
  ghost predicate PermutesRange<T>(a: seq<T>, b: seq<T>, lo: int, hi: int)
  {
    && 0 <= lo <= hi <= |a| == |b|
    && a[..lo] == b[..lo]
    && a[hi..] == b[hi..]
    && multiset(a[lo..hi]) == multiset(b[lo..hi])
  }

  lemma PermutesRangeWhole<T>(a: seq<T>, b: seq<T>, lo: int, hi: int)
    requires PermutesRange(a, b, lo, hi)
    ensures multiset(a) == multiset(b)
  {
    assert a == a[..lo] + a[lo..hi] + a[hi..];
    assert b == b[..lo] + b[lo..hi] + b[hi..];
  }

  lemma PermutesRangeRefl<T>(a: seq<T>, lo: int, hi: int)
    requires 0 <= lo <= hi <= |a|
    ensures PermutesRange(a, a, lo, hi)
  {
  }

  /** Rearranging a sub-range of a rearranged range is again a rearrangement
      of the outer range. */
  lemma {:induction false} PermutesRangeCompose<T>(a: seq<T>, b: seq<T>, c: seq<T>, lo: int, hi: int, lo': int, hi': int)
    requires PermutesRange(a, b, lo, hi)
    requires PermutesRange(b, c, lo', hi')
    requires lo <= lo' <= hi' <= hi
    ensures PermutesRange(a, c, lo, hi)
  {
    assert c[..lo] == b[..lo] by {
      assert c[..lo] == c[..lo'][..lo];
      assert b[..lo] == b[..lo'][..lo];
    }
    assert c[hi..] == b[hi..] by {
      assert c[hi..] == c[hi'..][hi - hi'..];
      assert b[hi..] == b[hi'..][hi - hi'..];
    }
    assert b[lo..hi] == b[lo..lo'] + b[lo'..hi'] + b[hi'..hi];
    assert c[lo..hi] == c[lo..lo'] + c[lo'..hi'] + c[hi'..hi];
    assert b[lo..lo'] == b[..lo'][lo..];
    assert c[lo..lo'] == c[..lo'][lo..];
    assert b[hi'..hi] == b[hi'..][..hi - hi'];
    assert c[hi'..hi] == c[hi'..][..hi - hi'];
  }

  /** A property held by every element of a range survives any rearrangement
      of that range. */
  lemma AllInPermuted<T>(a: seq<T>, b: seq<T>, lo: int, hi: int, lo': int, hi': int, p: T -> bool)
    requires 0 <= lo <= hi <= |a| && 0 <= lo' <= hi' <= |b|
    requires multiset(a[lo..hi]) == multiset(b[lo'..hi'])
    requires AllIn(a, lo, hi, p)
    ensures AllIn(b, lo', hi', p)
  {
    forall k | lo' <= k < hi'
      ensures p(b[k])
    {
      assert b[k] == b[lo'..hi'][k - lo'];
      assert b[k] in multiset(b[lo'..hi']);
      assert b[k] in multiset(a[lo..hi]);
      var m :| lo <= m < hi && a[m] == b[k] by {
        assert b[k] in a[lo..hi];
      }
    }
  }

  lemma NoneInPermuted<T>(a: seq<T>, b: seq<T>, lo: int, hi: int, lo': int, hi': int, p: T -> bool)
    requires 0 <= lo <= hi <= |a| && 0 <= lo' <= hi' <= |b|
    requires multiset(a[lo..hi]) == multiset(b[lo'..hi'])
    requires NoneIn(a, lo, hi, p)
    ensures NoneIn(b, lo', hi', p)
  {
    AllInPermuted(a, b, lo, hi, lo', hi', x => !p(x));
  }

  /** Equal whole multisets and equal outer parts give equal middle parts. */
  lemma RangeFromWhole<T>(a: seq<T>, b: seq<T>, lo: int, hi: int)
    requires 0 <= lo <= hi <= |a| == |b|
    requires multiset(a) == multiset(b)
    requires a[..lo] == b[..lo] && a[hi..] == b[hi..]
    ensures PermutesRange(a, b, lo, hi)
  {
    assert a == a[..lo] + a[lo..hi] + a[hi..];
    assert b == b[..lo] + b[lo..hi] + b[hi..];
    assert multiset(a) == multiset(a[..lo]) + multiset(a[lo..hi]) + multiset(a[hi..]);
    assert multiset(b) == multiset(b[..lo]) + multiset(b[lo..hi]) + multiset(b[hi..]);
    assert multiset(a[lo..hi]) == multiset(a) - multiset(a[..lo]) - multiset(a[hi..]);
    assert multiset(b[lo..hi]) == multiset(b) - multiset(b[..lo]) - multiset(b[hi..]);
  }

  /** Exchanging two positions keeps the multiset. */
  lemma SwapMultiset<T>(b: seq<T>, p: int, q: int)
    requires 0 <= p < |b| && 0 <= q < |b|
    ensures multiset(b[p := b[q]][q := b[p]]) == multiset(b)
  {
  }

  /** Lomuto partition of `a[start..end)` by `pred` (mipmesh.js `partition`):
      the elements satisfying `pred` end up in `[start, ptr)`, the others in
      `[ptr, end)`, and nothing outside the range moves. */
  method Partition<T>(a: seq<T>, start: nat, end: nat, pred: T -> bool) returns (b: seq<T>, ptr: nat)
    requires start <= end <= |a|
    ensures start <= ptr <= end
    ensures PermutesRange(a, b, start, end)
    ensures AllIn(b, start, ptr, pred)
    ensures NoneIn(b, ptr, end, pred)
    ensures NoneIn(a, start, end, pred) ==> ptr == start
    ensures AllIn(a, start, end, pred) ==> ptr == end
  {
    b := a;
    ptr := start;
    var i := start;
    while i < end
      invariant start <= ptr <= i <= end
      invariant |b| == |a|
      invariant multiset(b) == multiset(a)
      invariant b[..start] == a[..start]
      invariant b[end..] == a[end..]
      invariant AllIn(b, start, ptr, pred)
      invariant NoneIn(b, ptr, i, pred)
    {
      var x := b[i];
      if pred(x) {
        var tmp := b[ptr];
        SwapMultiset(b, ptr, i);
        b := b[ptr := x][i := tmp];
        ptr := ptr + 1;
      }
      i := i + 1;
    }
    RangeFromWhole(a, b, start, end);
    assert start < ptr ==> pred(b[start]);
    assert ptr < end ==> !pred(b[ptr]);
    if NoneIn(a, start, end, pred) {
      NoneInPermuted(a, b, start, end, start, end, pred);
    }
    if AllIn(a, start, end, pred) {
      AllInPermuted(a, b, start, end, start, end, pred);
    }
  }
}
