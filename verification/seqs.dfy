/** Sequence vocabulary: subsequences, filtering and JavaScript's `Array.prototype.slice`. */
module Seqs {

  /** `a` can be obtained from `b` by deleting elements, keeping the order of the rest. */
  ghost predicate IsSubsequence<T>(a: seq<T>, b: seq<T>)
    decreases |b|
  {
    a == [] || (b != [] && ((a[0] == b[0] && IsSubsequence(a[1..], b[1..])) || IsSubsequence(a, b[1..])))
  }

  lemma {:induction false} SubsequenceOfSelf<T>(s: seq<T>)
    ensures IsSubsequence(s, s)
    decreases |s|
  {
    if s != [] {
      SubsequenceOfSelf(s[1..]);
    }
  }

  /** A subsequence is never longer than the sequence it is taken from. */
  lemma {:induction false} SubsequenceLength<T>(a: seq<T>, b: seq<T>)
    requires IsSubsequence(a, b)
    ensures |a| <= |b|
    decreases |b|
  {
    if a != [] {
      if a[0] == b[0] && IsSubsequence(a[1..], b[1..]) {
        SubsequenceLength(a[1..], b[1..]);
      } else {
        SubsequenceLength(a, b[1..]);
      }
    }
  }

  /** Every element of a subsequence occurs in the sequence it is taken from. */
  lemma {:induction false} SubsequenceElements<T>(a: seq<T>, b: seq<T>)
    requires IsSubsequence(a, b)
    ensures forall x :: x in a ==> x in b
    decreases |b|
  {
    if a != [] {
      if a[0] == b[0] && IsSubsequence(a[1..], b[1..]) {
        SubsequenceElements(a[1..], b[1..]);
        assert forall x :: x in a ==> x == a[0] || x in a[1..];
      } else {
        SubsequenceElements(a, b[1..]);
      }
    }
  }

  /** Appending the same element to both sides keeps the subsequence relation. */
  lemma {:induction false} SubsequenceAppend<T>(a: seq<T>, b: seq<T>, x: T)
    requires IsSubsequence(a, b)
    ensures IsSubsequence(a + [x], b + [x])
    ensures IsSubsequence(a, b + [x])
    decreases |b|
  {
    if a == [] {
      SubsequenceAppendEmpty(b, x);
      assert a + [x] == [x];
    } else if a[0] == b[0] && IsSubsequence(a[1..], b[1..]) {
      SubsequenceAppend(a[1..], b[1..], x);
      assert (a + [x])[1..] == a[1..] + [x];
      assert (b + [x])[1..] == b[1..] + [x];
    } else {
      SubsequenceAppend(a, b[1..], x);
      assert (b + [x])[1..] == b[1..] + [x];
    }
  }

  lemma {:induction false} SubsequenceAppendEmpty<T>(b: seq<T>, x: T)
    ensures IsSubsequence([x], b + [x])
    decreases |b|
  {
    if b == [] {
      SubsequenceOfSelf([x]);
    } else {
      SubsequenceAppendEmpty(b[1..], x);
      assert (b + [x])[1..] == b[1..] + [x];
    }
  }

  /** The subsequence relation is transitive. */
  lemma {:induction false} SubsequenceTransitive<T>(a: seq<T>, b: seq<T>, c: seq<T>)
    requires IsSubsequence(a, b) && IsSubsequence(b, c)
    ensures IsSubsequence(a, c)
    decreases |c|
  {
    if a != [] {
      assert b != [] && c != [];
      if b[0] == c[0] && IsSubsequence(b[1..], c[1..]) {
        if a[0] == b[0] && IsSubsequence(a[1..], b[1..]) {
          SubsequenceTransitive(a[1..], b[1..], c[1..]);
        } else {
          SubsequenceTransitive(a, b[1..], c[1..]);
        }
      } else {
        SubsequenceTransitive(a, b, c[1..]);
      }
    }
  }

  /** Concatenation is associative. */
  lemma AppendAssoc<T>(a: seq<T>, b: seq<T>, c: seq<T>)
    ensures (a + b) + c == a + (b + c)
  {
  }

  /** The empty sequence is a subsequence of every sequence. */
  lemma SubsequenceOfEmpty<T>(b: seq<T>)
    ensures IsSubsequence([], b)
  {
  }

  /** A subsequence as long as the sequence is the sequence itself. */
  lemma {:induction false} SubsequenceSameLength<T>(a: seq<T>, b: seq<T>)
    requires IsSubsequence(a, b) && |a| == |b|
    ensures a == b
    decreases |b|
  {
    if a != [] {
      if a[0] == b[0] && IsSubsequence(a[1..], b[1..]) {
        SubsequenceSameLength(a[1..], b[1..]);
        assert a == [a[0]] + a[1..];
        assert b == [b[0]] + b[1..];
      } else {
        SubsequenceLength(a, b[1..]);
      }
    }
  }

  /** A sequence is a subsequence of itself extended. */
  lemma {:induction false} PrefixIsSubsequence<T>(a: seq<T>, b: seq<T>)
    ensures IsSubsequence(a, a + b)
    decreases |a|
  {
    if a != [] {
      assert (a + b)[1..] == a[1..] + b;
      PrefixIsSubsequence(a[1..], b);
    }
  }

  /**
   * `Array.prototype.filter`: the elements satisfying `keep`, in their original order,
   * each with its original multiplicity.
   */
  function Filter<T(!new)>(s: seq<T>, keep: T -> bool): (r: seq<T>)
    ensures forall x :: x in r ==> x in s && keep(x)
    ensures forall k :: 0 <= k < |r| ==> keep(r[k])
    ensures forall x :: multiset(r)[x] == if keep(x) then multiset(s)[x] else 0
    ensures IsSubsequence(r, s)
    decreases |s|
  {
    if s == [] then []
    else
      var rest := Filter(s[1..], keep);
      assert s == [s[0]] + s[1..];
      if keep(s[0]) then [s[0]] + rest else rest
  }

  /** Filtering a sequence whose every element is kept changes nothing. */
  lemma {:induction false} FilterAllKept<T(!new)>(s: seq<T>, keep: T -> bool)
    requires forall i :: 0 <= i < |s| ==> keep(s[i])
    ensures Filter(s, keep) == s
    decreases |s|
  {
    if s != [] {
      FilterAllKept(s[1..], keep);
    }
  }

  /** The smaller of two integers. */
  function Min(a: int, b: int): int {
    if a < b then a else b
  }

  /** The index JavaScript's `slice` resolves a (possibly negative) bound `n` to, for length `len`. */
  function SliceIndex(n: int, len: nat): (k: nat)
    ensures k <= len
    ensures n >= 0 ==> k == if n < len then n else len
    ensures n < 0 ==> k == if len + n > 0 then len + n else 0
  {
    if n < 0 then (if len + n > 0 then len + n else 0)
    else if n < len then n else len
  }

  /** `s.slice(0, n)`: the first `n` elements, where a negative `n` counts back from the end. */
  function SliceTo<T>(s: seq<T>, n: int): (r: seq<T>)
    ensures r == s[..SliceIndex(n, |s|)]
  {
    s[..SliceIndex(n, |s|)]
  }

  /** `s.slice(-n)` for `n >= 1`: the last `n` elements, or all of `s` when it is shorter. */
  function SliceLast<T>(s: seq<T>, n: nat): (r: seq<T>)
    requires n >= 1
    ensures |r| == if |s| < n then |s| else n
    ensures r == s[|s| - |r|..]
  {
    s[SliceIndex(-(n as int), |s|)..]
  }

  /** Keeping only the last `n` before appending more does not change the last `n` of the whole. */
  lemma SliceLastAppend<T>(s: seq<T>, rest: seq<T>, n: nat)
    requires n >= 1
    ensures SliceLast(SliceLast(s, n) + rest, n) == SliceLast(s + rest, n)
  {
    var t := SliceLast(s, n);
    var lhs := SliceLast(t + rest, n);
    var rhs := SliceLast(s + rest, n);
    assert |lhs| == |rhs|;
    assert t == s[|s| - |t|..];
    assert lhs == (t + rest)[|t| + |rest| - |lhs|..];
    assert rhs == (s + rest)[|s| + |rest| - |rhs|..];
    forall k | 0 <= k < |lhs| ensures lhs[k] == rhs[k] {
      var j := |t| + |rest| - |lhs| + k;
      if j >= |t| {
        assert lhs[k] == rest[j - |t|];
        assert rhs[k] == rest[j - |t|];
      } else {
        assert lhs[k] == t[j];
        assert rhs[k] == s[|s| - |t| + j];
      }
    }
  }

  /** Pushing each of `es` in turn, keeping only the last `n` after every push. */
  function PushAll<T>(s: seq<T>, es: seq<T>, n: nat): seq<T>
    requires n >= 1
    decreases |es|
  {
    if es == [] then s else PushAll(SliceLast(s + [es[0]], n), es[1..], n)
  }

  /** Pushing one at a time keeps the last `n` of everything, however the pushes were split. */
  lemma {:induction false} PushAllKeepsLast<T>(s: seq<T>, es: seq<T>, n: nat)
    requires n >= 1 && es != []
    ensures PushAll(s, es, n) == SliceLast(s + es, n)
    decreases |es|
  {
    var e := es[0];
    var rest := es[1..];
    var once := SliceLast(s + [e], n);
    assert es == [e] + rest;
    if rest == [] {
      assert s + es == s + [e];
    } else {
      calc {
        PushAll(s, es, n);
        PushAll(once, rest, n);
        { PushAllKeepsLast(once, rest, n); }
        SliceLast(once + rest, n);
        { SliceLastAppend(s + [e], rest, n); }
        SliceLast((s + [e]) + rest, n);
        { assert (s + [e]) + rest == s + es; }
        SliceLast(s + es, n);
      }
    }
  }

  /** What holds of every element of `s` and of `e` holds of every element of the last `n` of `s + [e]`. */
  lemma SliceLastSnocKeeps<T>(s: seq<T>, e: T, n: nat, p: T -> bool)
    requires n >= 1
    requires forall k :: 0 <= k < |s| ==> p(s[k])
    requires p(e)
    ensures forall k :: 0 <= k < |SliceLast(s + [e], n)| ==> p(SliceLast(s + [e], n)[k])
  {
    var all := s + [e];
    var r := SliceLast(all, n);
    forall k | 0 <= k < |r| ensures p(r[k]) {
      var j := |all| - |r| + k;
      assert r[k] == all[j];
      if j < |s| {
        assert all[j] == s[j];
      }
    }
  }
}
