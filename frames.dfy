/** Row selection on a DataFrame by a boolean mask (`df[mask]`, `df.dropna(subset=...)`):
    an order-preserving filter that never alters a row. */
module Frames {

  /** `r` is `s` with some rows deleted and the rest in their original order. */
  predicate IsSubsequence<T(==)>(r: seq<T>, s: seq<T>)
    decreases |s|
  {
    r == [] || (s != [] && ((r[0] == s[0] && IsSubsequence(r[1..], s[1..])) || IsSubsequence(r, s[1..])))
  }

  /** `r` consists of exactly the rows of `s` that satisfy `keep`, each as often as in `s`,
      in the order of `s`. */
  ghost predicate ExactlyWhere<T(!new)>(r: seq<T>, s: seq<T>, keep: T -> bool) {
    && IsSubsequence(r, s)
    && forall x :: multiset(r)[x] == if keep(x) then multiset(s)[x] else 0
  }

  /** `df[mask]` where the mask of a row is `keep(row)`. */
  function Select<T(!new)>(s: seq<T>, keep: T -> bool): (r: seq<T>)
    ensures forall i :: 0 <= i < |r| ==> keep(r[i])
    ensures forall i :: 0 <= i < |s| && keep(s[i]) ==> s[i] in r
    ensures ExactlyWhere(r, s, keep)
  {
    if s == [] then []
    else
      assert s == [s[0]] + s[1..];
      if keep(s[0]) then [s[0]] + Select(s[1..], keep) else Select(s[1..], keep)
  }

  lemma {:induction false} SubsequenceLength<T>(r: seq<T>, s: seq<T>)
    requires IsSubsequence(r, s)
    ensures |r| <= |s|
    decreases |s|
  {
    if r != [] {
      if r[0] == s[0] && IsSubsequence(r[1..], s[1..]) {
        SubsequenceLength(r[1..], s[1..]);
      } else {
        SubsequenceLength(r, s[1..]);
      }
    }
  }

  lemma {:induction false} SubsequenceReflexive<T>(s: seq<T>)
    ensures IsSubsequence(s, s)
    decreases |s|
  {
    if s != [] {
      SubsequenceReflexive(s[1..]);
    }
  }

  lemma {:induction false} SubsequenceTransitive<T>(a: seq<T>, b: seq<T>, c: seq<T>)
    requires IsSubsequence(a, b) && IsSubsequence(b, c)
    ensures IsSubsequence(a, c)
    decreases |c|
  {
    if a != [] {
      if b[0] == c[0] && IsSubsequence(b[1..], c[1..]) {
        if a[0] == b[0] && IsSubsequence(a[1..], b[1..]) {
          SubsequenceTransitive(a[1..], b[1..], c[1..]);
        } else {
          SubsequenceTransitive(a, b[1..], c[1..]);
        }
      } else {
        SubsequenceTransitive(a, b, c[1..]);
      }
    }
  }

  /** A subsequence as long as the whole is the whole. */
  lemma {:induction false} SubsequenceOfSameLength<T>(r: seq<T>, s: seq<T>)
    requires IsSubsequence(r, s) && |r| == |s|
    ensures r == s
    decreases |s|
  {
    if r != [] {
      if r[0] == s[0] && IsSubsequence(r[1..], s[1..]) {
        SubsequenceOfSameLength(r[1..], s[1..]);
        assert r == [r[0]] + r[1..] && s == [s[0]] + s[1..];
      } else {
        SubsequenceLength(r, s[1..]);
      }
    }
  }

  /** A subsequence whose rows all pass the mask is a subsequence of the masked frame. */
  lemma {:induction false} SubsequenceOfSelect<T(!new)>(r: seq<T>, s: seq<T>, keep: T -> bool)
    requires IsSubsequence(r, s)
    requires forall i :: 0 <= i < |r| ==> keep(r[i])
    ensures IsSubsequence(r, Select(s, keep))
    decreases |s|
  {
    if r != [] {
      if r[0] == s[0] && IsSubsequence(r[1..], s[1..]) {
        SubsequenceOfSelect(r[1..], s[1..], keep);
      } else {
        SubsequenceOfSelect(r, s[1..], keep);
        if keep(s[0]) {
          var t := Select(s[1..], keep);
          assert Select(s, keep) == [s[0]] + t;
          assert ([s[0]] + t)[1..] == t;
        }
      }
    }
  }

  /** `ExactlyWhere` pins down its first argument: it is the masked frame and nothing else. */
  lemma ExactlyWhereIsSelect<T(!new)>(r: seq<T>, s: seq<T>, keep: T -> bool)
    requires ExactlyWhere(r, s, keep)
    ensures r == Select(s, keep)
  {
    var t := Select(s, keep);
    forall i | 0 <= i < |r|
      ensures keep(r[i])
    {
      assert multiset(r)[r[i]] > 0;
    }
    SubsequenceOfSelect(r, s, keep);
    assert multiset(r) == multiset(t);
    assert |r| == |multiset(r)| == |multiset(t)| == |t|;
    SubsequenceOfSameLength(r, t);
  }

  /** A mask that every row passes selects the whole frame. */
  lemma {:induction false} SelectAll<T(!new)>(s: seq<T>, keep: T -> bool)
    requires forall i :: 0 <= i < |s| ==> keep(s[i])
    ensures Select(s, keep) == s
    decreases |s|
  {
    if s != [] {
      SelectAll(s[1..], keep);
      assert s == [s[0]] + s[1..];
    }
  }

  /** Two masks that agree on every row of the frame select the same rows. */
  lemma {:induction false} SelectAgree<T(!new)>(s: seq<T>, p: T -> bool, q: T -> bool)
    requires forall i :: 0 <= i < |s| ==> p(s[i]) == q(s[i])
    ensures Select(s, p) == Select(s, q)
    decreases |s|
  {
    if s != [] {
      SelectAgree(s[1..], p, q);
    }
  }

  /** Selecting twice in a row is selecting once by both masks. */
  lemma ExactlyWhereCompose<T(!new)>(a: seq<T>, b: seq<T>, c: seq<T>, p: T -> bool, q: T -> bool)
    requires ExactlyWhere(a, b, p) && ExactlyWhere(b, c, q)
    ensures ExactlyWhere(a, c, x => q(x) && p(x))
  {
    SubsequenceTransitive(a, b, c);
  }

  lemma ExactlyWhereEverything<T(!new)>(s: seq<T>, keep: T -> bool)
    requires forall x :: keep(x)
    ensures ExactlyWhere(s, s, keep)
  {
    SubsequenceReflexive(s);
  }
}
