/** Element-wise operations of a pandas Series whose missing entries (NaN) are `None`,
    and the `dropna` / `unique` / `sorted` chain that derives an option list from a column. */
module Series {
  import opened Wrappers
  import opened StringOrder

  /** `x <= bound` on one cell: NaN compares false. */
  predicate AtMost(x: Option<int>, bound: int) {
    x.Some? && x.value <= bound
  }

  /** `x >= bound` on one cell: NaN compares false. */
  predicate AtLeast(x: Option<int>, bound: int) {
    x.Some? && x.value >= bound
  }

  /** `x == v` on one cell: NaN equals nothing. */
  predicate Equals(x: Option<string>, v: string) {
    x.Some? && x.value == v
  }

  /** `isin(vs)` on one cell: NaN is never a member. */
  predicate IsIn(x: Option<string>, vs: seq<string>) {
    x.Some? && x.value in vs
  }

  /** `notna()` on one cell. */
  predicate NotNa<T>(x: Option<T>) {
    x.Some?
  }

  /** A missing cell fails every comparison, equality and membership test, and `notna`. */
  lemma MissingFailsEveryTest(bound: int, v: string, vs: seq<string>)
    ensures !AtMost(None, bound) && !AtLeast(None, bound)
    ensures !Equals(None, v) && !IsIn(None, vs) && !NotNa<int>(None) && !NotNa<string>(None)
  {
  }

  /** `dropna()` on a column: the present values, in column order. */
  function DropNa<T(!new)>(col: seq<Option<T>>): (r: seq<T>)
    ensures |r| <= |col|
    ensures forall v :: v in r <==> Some(v) in col
  {
    if col == [] then []
    else
      assert col == [col[0]] + col[1..];
      (if col[0].Some? then [col[0].value] else []) + DropNa(col[1..])
  }

  /** `unique()`: each distinct value once, in order of first occurrence. */
  function Unique<T(==, !new)>(s: seq<T>): (r: seq<T>)
    ensures forall x :: x in r <==> x in s
    ensures forall x :: multiset(r)[x] <= 1
  {
    if s == [] then []
    else
      var u := Unique(s[..|s| - 1]);
      assert s == s[..|s| - 1] + [s[|s| - 1]];
      if s[|s| - 1] in u then u else u + [s[|s| - 1]]
  }

  /** A sequence in which no value is counted twice has no repeated positions. */
  lemma {:induction false} CountedOnceHasNoRepeats<T>(s: seq<T>)
    requires forall x :: multiset(s)[x] <= 1
    ensures NoRepeats(s)
  {
    forall i, j | 0 <= i < j < |s|
      ensures s[i] != s[j]
    {
      assert s == s[..i] + [s[i]] + s[i + 1..j] + [s[j]] + s[j + 1..];
      assert multiset(s) == multiset(s[..i]) + multiset{s[i]} + multiset(s[i + 1..j]) + multiset{s[j]} + multiset(s[j + 1..]);
      assert multiset(s)[s[i]] >= 1 + (if s[j] == s[i] then 1 else 0);
    }
  }

  /** `sorted(col.dropna().unique())`: the option list a selector offers for a column. */
  function SortedUnique(col: seq<Option<string>>): (r: seq<string>)
    ensures StrictlyIncreasing(r)
    ensures forall v :: v in r <==> Some(v) in col
  {
    var u := Unique(DropNa(col));
    var r := Sort(u);
    assert forall v :: v in r <==> v in u by {
      forall v
        ensures v in r <==> v in u
      {
        assert v in r <==> v in multiset(r);
        assert v in u <==> v in multiset(u);
      }
    }
    CountedOnceHasNoRepeats(r);
    SortedWithoutRepeatsIsStrict(r);
    r
  }
}
