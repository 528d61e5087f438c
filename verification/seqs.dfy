/** Generic sequence helpers: first match (a document `find`/`findOne`) and order-preserving filter. */
module Seqs {
  import opened Wrappers

  /** Index of the first element satisfying `p`, as `Array.prototype.find` and `findOne` pick it. */
  function FirstIndex<T>(s: seq<T>, p: T -> bool): (r: Option<nat>)
    ensures r.Some? ==> r.value < |s| && p(s[r.value])
    ensures r.Some? ==> forall k :: 0 <= k < r.value ==> !p(s[k])
    ensures r.None? <==> forall k :: 0 <= k < |s| ==> !p(s[k])
  {
    if |s| == 0 then None
    else if p(s[0]) then Some(0)
    else match FirstIndex(s[1..], p)
      case None => None
      case Some(i) => Some(i + 1)
  }

  /** The elements of `s` satisfying `p`, in their original order (`Array.prototype.filter`). */
  function Filter<T>(s: seq<T>, p: T -> bool): (r: seq<T>)
    ensures |r| <= |s|
    ensures forall k :: 0 <= k < |r| ==> p(r[k])
  {
    if |s| == 0 then []
    else if p(s[0]) then [s[0]] + Filter(s[1..], p)
    else Filter(s[1..], p)
  }

  /** The survivors of a filter come from the input, and every input element satisfying the
      predicate survives. */
  lemma {:induction false} FilterMembers<T>(s: seq<T>, p: T -> bool)
    ensures forall k :: 0 <= k < |Filter(s, p)| ==> Filter(s, p)[k] in s
    ensures forall k :: 0 <= k < |s| && p(s[k]) ==> s[k] in Filter(s, p)
  {
    if |s| > 0 {
      FilterMembers(s[1..], p);
      var rest := Filter(s[1..], p);
      forall k | 0 <= k < |rest| ensures rest[k] in s {
        assert rest[k] in s[1..];
      }
      forall k | 1 <= k < |s| && p(s[k]) ensures s[k] in Filter(s, p) {
        assert s[k] == s[1..][k - 1];
      }
    }
  }

  /** An index holding the predicate, with none before it, is the first index. */
  lemma FirstIndexIs<T>(s: seq<T>, p: T -> bool, k: nat)
    requires k < |s| && p(s[k])
    requires forall j :: 0 <= j < k ==> !p(s[j])
    ensures FirstIndex(s, p) == Some(k)
  {
  }

  /** Filtering distributes over concatenation: it keeps the relative order of the survivors. */
  lemma {:induction false} FilterConcat<T>(a: seq<T>, b: seq<T>, p: T -> bool)
    ensures Filter(a + b, p) == Filter(a, p) + Filter(b, p)
  {
    if |a| == 0 {
      assert a + b == b;
    } else {
      assert (a + b)[1..] == a[1..] + b;
      FilterConcat(a[1..], b, p);
    }
  }

  /** Filtering with a predicate every element satisfies returns the input. */
  lemma {:induction false} FilterAll<T>(s: seq<T>, p: T -> bool)
    requires forall k :: 0 <= k < |s| ==> p(s[k])
    ensures Filter(s, p) == s
  {
    if |s| > 0 {
      FilterAll(s[1..], p);
    }
  }

  /** Filtering out the one element that fails the predicate removes exactly it. */
  lemma {:induction false} FilterDropsOnly<T>(s: seq<T>, p: T -> bool, j: nat)
    requires j < |s| && !p(s[j])
    requires forall k :: 0 <= k < |s| && k != j ==> p(s[k])
    ensures Filter(s, p) == s[..j] + s[j + 1..]
  {
    var before, after := s[..j], s[j + 1..];
    assert s == before + ([s[j]] + after);
    FilterConcat(before, [s[j]] + after, p);
    FilterConcat([s[j]], after, p);
    assert Filter([s[j]], p) == [] by {
      assert [s[j]][1..] == [];
    }
    FilterAllSlice(s, p, 0, j);
    FilterAllSlice(s, p, j + 1, |s|);
    assert s[0..j] == before && s[j + 1..|s|] == after;
  }

  /** A slice whose every element satisfies the predicate is its own filter. */
  lemma FilterAllSlice<T>(s: seq<T>, p: T -> bool, lo: nat, hi: nat)
    requires lo <= hi <= |s|
    requires forall k :: lo <= k < hi ==> p(s[k])
    ensures Filter(s[lo..hi], p) == s[lo..hi]
  {
    var t := s[lo..hi];
    forall k | 0 <= k < |t| ensures p(t[k]) {
      assert t[k] == s[lo + k];
    }
    FilterAll(t, p);
  }

  /** A filter that rejects some element is strictly shorter than its input. */
  lemma {:induction false} FilterDropsOne<T>(s: seq<T>, p: T -> bool, k: nat)
    requires k < |s| && !p(s[k])
    ensures |Filter(s, p)| < |s|
  {
    if k > 0 {
      FilterDropsOne(s[1..], p, k - 1);
    }
  }

  /** The first survivor of a filter is the element at the first index satisfying the predicate. */
  lemma {:induction false} FilterHeadIsFirst<T>(s: seq<T>, p: T -> bool)
    requires |Filter(s, p)| > 0
    ensures FirstIndex(s, p).Some?
    ensures Filter(s, p)[0] == s[FirstIndex(s, p).value]
  {
    if p(s[0]) {
    } else {
      FilterHeadIsFirst(s[1..], p);
    }
  }

  /** The sequence in reverse order. */
  function Reverse<T>(s: seq<T>): (r: seq<T>)
    ensures |r| == |s|
    ensures forall k :: 0 <= k < |s| ==> r[k] == s[|s| - 1 - k]
  {
    if s == [] then [] else Reverse(s[1..]) + [s[0]]
  }

  /** Taking a window of the reversed sequence and reversing it back gives the mirrored window
      of the original, in original order. */
  lemma {:induction false} ReverseWindow<T>(s: seq<T>, lo: nat, hi: nat)
    requires lo <= hi <= |s|
    ensures Reverse(Reverse(s)[lo..hi]) == s[|s| - hi..|s| - lo]
  {
    var rs := Reverse(s);
    var w := rs[lo..hi];
    var rw := Reverse(w);
    var t := s[|s| - hi..|s| - lo];
    assert |rw| == |t|;
    forall k | 0 <= k < |t|
      ensures rw[k] == t[k]
    {
      var j := lo + |w| - 1 - k;
      assert rw[k] == w[|w| - 1 - k];
      assert w[|w| - 1 - k] == rs[j];
      assert rs[j] == s[|s| - 1 - j];
    }
  }

  function Min(a: int, b: int): (r: int)
    ensures r <= a && r <= b && (r == a || r == b)
  {
    if a <= b then a else b
  }

  function Max(a: int, b: int): (r: int)
    ensures r >= a && r >= b && (r == a || r == b)
  {
    if a >= b then a else b
  }
}
