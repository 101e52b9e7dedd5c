/** Python's ordering of strings and of pairs of strings, and the sort that
    `sorted` performs with them. Dafny's own `<` on sequences means "proper
    prefix", so the lexicographic order is defined here. */
module Order {

  /** Python's `a < b` on `str`: compare code point by code point; a proper
      prefix is smaller than the longer string. */
  predicate StrLess(a: string, b: string)
    decreases |a|
  {
    b != [] && (a == [] || a[0] < b[0] || (a[0] == b[0] && StrLess(a[1..], b[1..])))
  }

  lemma {:induction false} StrLessIrreflexive(a: string)
    ensures !StrLess(a, a)
    decreases |a|
  {
    if a != [] {
      StrLessIrreflexive(a[1..]);
    }
  }

  lemma {:induction false} StrLessTransitive(a: string, b: string, c: string)
    requires StrLess(a, b) && StrLess(b, c)
    ensures StrLess(a, c)
    decreases |a|
  {
    if a != [] && a[0] == b[0] && b[0] == c[0] {
      StrLessTransitive(a[1..], b[1..], c[1..]);
    }
  }

  /** Any two strings are equal or ordered one way (trichotomy). */
  lemma {:induction false} StrLessTotal(a: string, b: string)
    ensures a == b || StrLess(a, b) || StrLess(b, a)
    decreases |a|
  {
    if a != [] && b != [] && a[0] == b[0] {
      StrLessTotal(a[1..], b[1..]);
      if a[1..] == b[1..] {
        assert a == [a[0]] + a[1..] && b == [b[0]] + b[1..];
      }
    }
  }

  /** Python's `<` on a pair of strings: by the first component, then by the
      second. */
  predicate PairLess(a: (string, string), b: (string, string)) {
    StrLess(a.0, b.0) || (a.0 == b.0 && StrLess(a.1, b.1))
  }

  lemma PairLessTransitive(a: (string, string), b: (string, string), c: (string, string))
    requires PairLess(a, b) && PairLess(b, c)
    ensures PairLess(a, c)
  {
    if StrLess(a.0, b.0) && StrLess(b.0, c.0) {
      StrLessTransitive(a.0, b.0, c.0);
    } else if a.0 == b.0 && b.0 == c.0 {
      StrLessTransitive(a.1, b.1, c.1);
    }
  }

  /** Two different pairs are ordered one way. */
  lemma PairLessTotal(a: (string, string), b: (string, string))
    ensures a == b || PairLess(a, b) || PairLess(b, a)
  {
    StrLessTotal(a.0, b.0);
    StrLessTotal(a.1, b.1);
  }

  /** Irreflexive and transitive, as Python's `<` on strings and on tuples
      of strings. */
  ghost predicate StrictOrder<T(!new)>(less: (T, T) -> bool) {
    && (forall a :: !less(a, a))
    && (forall a, b, c :: less(a, b) && less(b, c) ==> less(a, c))
  }

  /** Ascending: no element is smaller than one before it. */
  ghost predicate Sorted<T>(xs: seq<T>, less: (T, T) -> bool) {
    forall i, j :: 0 <= i < j < |xs| ==> !less(xs[j], xs[i])
  }

  /** Puts `x` in front of the first element of `ys` that is greater. */
  function Insert<T(!new)>(x: T, ys: seq<T>, less: (T, T) -> bool): (r: seq<T>)
    requires StrictOrder(less)
    requires Sorted(ys, less)
    ensures Sorted(r, less)
    ensures multiset(r) == multiset(ys) + multiset{x}
  {
    if ys == [] || less(x, ys[0]) then
      InsertInFront(x, ys, less);
      [x] + ys
    else
      var rest := Insert(x, ys[1..], less);
      InsertBehind(x, ys, rest, less);
      [ys[0]] + rest
  }

  lemma InsertInFront<T(!new)>(x: T, ys: seq<T>, less: (T, T) -> bool)
    requires StrictOrder(less) && Sorted(ys, less)
    requires ys == [] || less(x, ys[0])
    ensures Sorted([x] + ys, less)
  {
    var r := [x] + ys;
    forall j | 0 < j < |r| ensures !less(r[j], x) {
      if less(ys[j - 1], x) {
        assert less(ys[j - 1], ys[0]);
      }
    }
  }

  lemma InsertBehind<T(!new)>(x: T, ys: seq<T>, rest: seq<T>, less: (T, T) -> bool)
    requires StrictOrder(less) && Sorted(ys, less)
    requires ys != [] && !less(x, ys[0])
    requires Sorted(rest, less) && multiset(rest) == multiset(ys[1..]) + multiset{x}
    ensures Sorted([ys[0]] + rest, less)
    ensures multiset([ys[0]] + rest) == multiset(ys) + multiset{x}
  {
    forall k | 0 <= k < |rest| ensures !less(rest[k], ys[0]) {
      assert rest[k] in multiset(rest);
      if rest[k] != x {
        assert rest[k] in multiset(ys[1..]);
        var j :| 0 <= j < |ys[1..]| && ys[1..][j] == rest[k];
        assert ys[j + 1] == rest[k];
      }
    }
    assert ys == [ys[0]] + ys[1..];
  }

  /** The model of `sorted(xs, key=...)`: ascending, and a permutation of
      `xs`. */
  function Sort<T(!new)>(xs: seq<T>, less: (T, T) -> bool): (r: seq<T>)
    requires StrictOrder(less)
    ensures Sorted(r, less)
    ensures multiset(r) == multiset(xs)
    ensures |r| == |xs|
  {
    if xs == [] then []
    else
      assert xs == [xs[0]] + xs[1..];
      Insert(xs[0], Sort(xs[1..], less), less)
  }

  /** Any two different elements of `xs` are ordered one way. */
  ghost predicate Comparable<T>(xs: seq<T>, less: (T, T) -> bool) {
    forall i, j :: 0 <= i < |xs| && 0 <= j < |xs| && xs[i] != xs[j] ==> less(xs[i], xs[j]) || less(xs[j], xs[i])
  }

  /** Two ascending arrangements of the same elements, any two of which
      are ordered one way, start alike. */
  lemma HeadsAgree<T(!new)>(xs: seq<T>, ys: seq<T>, less: (T, T) -> bool)
    requires StrictOrder(less) && Sorted(xs, less) && Sorted(ys, less)
    requires multiset(xs) == multiset(ys) && Comparable(xs, less)
    requires xs != []
    ensures ys != [] && xs[0] == ys[0]
  {
    assert |ys| == |multiset(ys)| == |multiset(xs)| == |xs|;
    assert ys[0] in multiset(xs) && xs[0] in multiset(ys);
    var j :| 0 <= j < |xs| && xs[j] == ys[0];
    var k :| 0 <= k < |ys| && ys[k] == xs[0];
    assert !less(xs[j], xs[0]);
    assert !less(ys[k], ys[0]);
  }

  /** Such an arrangement is unique: whatever tie-breaking a sort uses, its
      output is determined when any two different elements are ordered. */
  lemma {:induction false} SortedUnique<T(!new)>(xs: seq<T>, ys: seq<T>, less: (T, T) -> bool)
    requires StrictOrder(less) && Sorted(xs, less) && Sorted(ys, less)
    requires multiset(xs) == multiset(ys) && Comparable(xs, less)
    ensures xs == ys
    decreases |xs|
  {
    if xs == [] {
      assert |ys| == |multiset(ys)| == 0;
    } else {
      HeadsAgree(xs, ys, less);
      TailMultiset(xs, ys);
      ComparableTail(xs, less);
      SortedUnique(xs[1..], ys[1..], less);
      assert xs == [xs[0]] + xs[1..] && ys == [ys[0]] + ys[1..];
    }
  }

  lemma TailMultiset<T>(xs: seq<T>, ys: seq<T>)
    requires xs != [] && ys != [] && xs[0] == ys[0] && multiset(xs) == multiset(ys)
    ensures multiset(xs[1..]) == multiset(ys[1..])
  {
    var h := multiset{xs[0]};
    assert xs == [xs[0]] + xs[1..];
    assert ys == [ys[0]] + ys[1..];
    assert multiset(xs) == h + multiset(xs[1..]);
    assert multiset(ys) == h + multiset(ys[1..]);
    assert (h + multiset(xs[1..])) - h == multiset(xs[1..]);
    assert (h + multiset(ys[1..])) - h == multiset(ys[1..]);
  }

  lemma ComparableTail<T>(xs: seq<T>, less: (T, T) -> bool)
    requires xs != [] && Comparable(xs, less)
    ensures Comparable(xs[1..], less)
  {
    var t := xs[1..];
    forall i, j | 0 <= i < |t| && 0 <= j < |t| && t[i] != t[j] ensures less(t[i], t[j]) || less(t[j], t[i]) {
      assert t[i] == xs[i + 1] && t[j] == xs[j + 1];
    }
  }
}
