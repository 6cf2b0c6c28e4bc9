/** Python's ordering of `str` values and the `sorted` builtin on a list of strings. */
module StringOrder {

  /** `a < b` on Python strings: lexicographic by code point, a proper prefix being smaller. */
  predicate Less(a: string, b: string)
    decreases |a|
  {
    if a == [] then b != []
    else if b == [] then false
    else if a[0] != b[0] then a[0] < b[0]
    else Less(a[1..], b[1..])
  }

  lemma {:induction false} LessIrreflexive(a: string)
    ensures !Less(a, a)
    decreases |a|
  {
    if a != [] {
      LessIrreflexive(a[1..]);
    }
  }

  lemma {:induction false} LessTransitive(a: string, b: string, c: string)
    requires Less(a, b) && Less(b, c)
    ensures Less(a, c)
    decreases |a|
  {
    if a != [] && a[0] == b[0] && b[0] == c[0] {
      LessTransitive(a[1..], b[1..], c[1..]);
    }
  }

  lemma {:induction false} LessTotal(a: string, b: string)
    requires a != b
    ensures Less(a, b) || Less(b, a)
    decreases |a|
  {
    if a != [] && b != [] && a[0] == b[0] {
      assert a == [a[0]] + a[1..] && b == [b[0]] + b[1..];
      LessTotal(a[1..], b[1..]);
    }
  }

  lemma LessAsymmetric(a: string, b: string)
    requires Less(a, b)
    ensures !Less(b, a)
  {
    if Less(b, a) {
      LessTransitive(a, b, a);
      LessIrreflexive(a);
    }
  }

  /** `not b < a` is transitive, because `<` is a strict total order. */
  lemma NotLessTransitive(a: string, b: string, c: string)
    requires !Less(b, a) && !Less(c, b)
    ensures !Less(c, a)
  {
    if Less(c, a) {
      if a == b {
      } else {
        LessTotal(a, b);
        LessTransitive(c, a, b);
      }
    }
  }

  /** No element occurs twice. */
  predicate NoRepeats<T(==)>(s: seq<T>) {
    forall i, j :: 0 <= i < j < |s| ==> s[i] != s[j]
  }

  /** Ascending order as `sorted` leaves it: no element is smaller than one before it. */
  predicate IsSorted(s: seq<string>) {
    forall i, j :: 0 <= i < j < |s| ==> !Less(s[j], s[i])
  }

  predicate StrictlyIncreasing(s: seq<string>) {
    forall i, j :: 0 <= i < j < |s| ==> Less(s[i], s[j])
  }

  /** Places `x` into the sorted list `s` before the first element that is not smaller than it. */
  function Insert(x: string, s: seq<string>): (r: seq<string>)
    requires IsSorted(s)
    ensures IsSorted(r)
    ensures multiset(r) == multiset(s) + multiset{x}
  {
    if s == [] then [x]
    else if Less(s[0], x) then
      var t := Insert(x, s[1..]);
      assert s == [s[0]] + s[1..];
      assert forall j :: 0 <= j < |t| ==> !Less(t[j], s[0]) by {
        forall j | 0 <= j < |t|
          ensures !Less(t[j], s[0])
        {
          assert t[j] in multiset(t);
          if t[j] == x {
            LessAsymmetric(s[0], x);
          } else {
            assert t[j] in s[1..];
          }
        }
      }
      [s[0]] + t
    else
      assert forall j :: 0 <= j < |s| ==> !Less(s[j], x) by {
        forall j | 0 <= j < |s|
          ensures !Less(s[j], x)
        {
          if j > 0 {
            NotLessTransitive(x, s[0], s[j]);
          }
        }
      }
      [x] + s
  }

  /** Python's `sorted` on a list of strings (an insertion sort; all sorts agree on a total order). */
  function Sort(s: seq<string>): (r: seq<string>)
    ensures IsSorted(r)
    ensures multiset(r) == multiset(s)
  {
    if s == [] then []
    else
      assert s == [s[0]] + s[1..];
      Insert(s[0], Sort(s[1..]))
  }

  /** A sorted list without repeated elements is strictly increasing. */
  lemma SortedWithoutRepeatsIsStrict(s: seq<string>)
    requires IsSorted(s)
    requires NoRepeats(s)
    ensures StrictlyIncreasing(s)
  {
    forall i, j | 0 <= i < j < |s|
      ensures Less(s[i], s[j])
    {
      LessTotal(s[i], s[j]);
    }
  }

  /** A strictly increasing list repeats nothing. */
  lemma StrictlyIncreasingHasNoRepeats(s: seq<string>)
    requires StrictlyIncreasing(s)
    ensures NoRepeats(s)
  {
    forall i, j | 0 <= i < j < |s|
      ensures s[i] != s[j]
    {
      LessIrreflexive(s[i]);
    }
  }
}
