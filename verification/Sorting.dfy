/** Stable sorting and lexicographic orders, shared by the restore transaction (which sorts its
    targets), by the snapshot listing (which sorts by timestamp), and by the listing and the
    permutation check of the boot entries. */
module Sorting {

  ghost predicate Asymmetric<T(!new)>(less: (T, T) -> bool) {
    forall x, y :: less(x, y) ==> !less(y, x)
  }

  /** Whatever is compared with both is on one side: with asymmetry, a strict weak order. */
  ghost predicate Splits<T(!new)>(less: (T, T) -> bool) {
    forall x, y, z :: less(x, y) ==> less(x, z) || less(z, y)
  }

  ghost predicate Connected<T(!new)>(less: (T, T) -> bool) {
    forall x, y :: x == y || less(x, y) || less(y, x)
  }

  predicate Lex<T(==)>(less: (T, T) -> bool, a: seq<T>, b: seq<T>)
    decreases |a|
  {
    b != [] && (a == [] || less(a[0], b[0]) || (a[0] == b[0] && Lex(less, a[1..], b[1..])))
  }

  lemma {:induction false} LexAsymmetric<T(!new)>(less: (T, T) -> bool, a: seq<T>, b: seq<T>)
    requires Asymmetric(less) && Lex(less, a, b)
    ensures !Lex(less, b, a)
    decreases |a|
  {
    if a != [] && a[0] == b[0] { LexAsymmetric(less, a[1..], b[1..]); }
  }

  lemma {:induction false} LexConnected<T(!new)>(less: (T, T) -> bool, a: seq<T>, b: seq<T>)
    requires Connected(less)
    ensures a == b || Lex(less, a, b) || Lex(less, b, a)
    decreases |a|
  {
    if a != [] && b != [] && a[0] == b[0] {
      LexConnected(less, a[1..], b[1..]);
      assert a == [a[0]] + a[1..] && b == [b[0]] + b[1..];
    }
  }

  lemma {:induction false} LexSplits<T(!new)>(less: (T, T) -> bool, a: seq<T>, b: seq<T>, c: seq<T>)
    requires Asymmetric(less) && Splits(less) && Connected(less)
    requires Lex(less, a, b)
    ensures Lex(less, a, c) || Lex(less, c, b)
    decreases |a|
  {
    if a != [] && c != [] {
      if a[0] == b[0] == c[0] { LexSplits(less, a[1..], b[1..], c[1..]); }
    }
  }

  function Insert<T>(less: (T, T) -> bool, x: T, xs: seq<T>): seq<T>
  {
    if xs == [] || !less(xs[0], x) then [x] + xs else [xs[0]] + Insert(less, x, xs[1..])
  }

  /** The stable sort of `xs`, smallest first. */
  function Sort<T>(less: (T, T) -> bool, xs: seq<T>): seq<T>
  {
    if xs == [] then [] else Insert(less, xs[0], Sort(less, xs[1..]))
  }

  lemma {:induction false} InsertMembers<T>(less: (T, T) -> bool, x: T, xs: seq<T>, y: T)
    ensures y in Insert(less, x, xs) <==> y == x || y in xs
  {
    if xs != [] && less(xs[0], x) { InsertMembers(less, x, xs[1..], y); }
  }

  lemma {:induction false} SortMembers<T>(less: (T, T) -> bool, xs: seq<T>, y: T)
    ensures y in Sort(less, xs) <==> y in xs
  {
    if xs != [] {
      SortMembers(less, xs[1..], y);
      InsertMembers(less, xs[0], Sort(less, xs[1..]), y);
    }
  }

  predicate SortedBy<T>(less: (T, T) -> bool, xs: seq<T>) {
    forall i, j | 0 <= i < j < |xs| :: !less(xs[j], xs[i])
  }

  lemma {:induction false} InsertKeepsSorted<T(!new)>(less: (T, T) -> bool, x: T, xs: seq<T>)
    requires Asymmetric(less) && Splits(less) && SortedBy(less, xs)
    ensures SortedBy(less, Insert(less, x, xs))
    ensures |Insert(less, x, xs)| == |xs| + 1
  {
    if xs == [] {
    } else if !less(xs[0], x) {
      assert forall j | 0 < j < |xs| :: !less(xs[j], xs[0]);
    } else {
      InsertKeepsSorted(less, x, xs[1..]);
      var rest := Insert(less, x, xs[1..]);
      assert !less(x, xs[0]);
      forall j | 0 <= j < |rest| ensures !less(rest[j], xs[0]) {
        assert rest[j] in rest;
        InsertMembers(less, x, xs[1..], rest[j]);
        if rest[j] != x {
          var i :| 0 <= i < |xs[1..]| && xs[1..][i] == rest[j];
        }
      }
    }
  }

  lemma {:induction false} SortIsSorted<T(!new)>(less: (T, T) -> bool, xs: seq<T>)
    requires Asymmetric(less) && Splits(less)
    ensures SortedBy(less, Sort(less, xs)) && |Sort(less, xs)| == |xs|
  {
    if xs != [] {
      SortIsSorted(less, xs[1..]);
      InsertKeepsSorted(less, xs[0], Sort(less, xs[1..]));
    }
  }

  lemma {:induction false} SortHolds<T(!new)>(less: (T, T) -> bool, xs: seq<T>)
    ensures multiset(Sort(less, xs)) == multiset(xs)
  {
    if xs != [] {
      SortHolds(less, xs[1..]);
      InsertHolds(less, xs[0], Sort(less, xs[1..]));
      assert xs == [xs[0]] + xs[1..];
    }
  }

  lemma {:induction false} InsertHolds<T(!new)>(less: (T, T) -> bool, x: T, xs: seq<T>)
    ensures multiset(Insert(less, x, xs)) == multiset(xs) + multiset{x}
  {
    if xs != [] && less(xs[0], x) {
      InsertHolds(less, x, xs[1..]);
      assert xs == [xs[0]] + xs[1..];
    }
  }

  lemma SmallestFirst<T(!new)>(less: (T, T) -> bool, a: seq<T>, b: seq<T>)
    requires Asymmetric(less) && SortedBy(less, a) && b != [] && multiset(a) == multiset(b)
    ensures a != [] && !less(b[0], a[0])
  {
    assert b[0] in multiset(b);
    assert b[0] in a;
  }

  /** A multiset has one sorted arrangement. */
  lemma {:induction false} SortedIsUnique<T(!new)>(less: (T, T) -> bool, a: seq<T>, b: seq<T>)
    requires Asymmetric(less) && Connected(less)
    requires SortedBy(less, a) && SortedBy(less, b) && multiset(a) == multiset(b)
    ensures a == b
  {
    if a == [] || b == [] {
      assert |multiset(a)| == |a| && |multiset(b)| == |b|;
    } else {
      SmallestFirst(less, a, b);
      SmallestFirst(less, b, a);
      assert a == [a[0]] + a[1..] && b == [b[0]] + b[1..];
      assert multiset(a[1..]) == multiset(a) - multiset{a[0]};
      assert multiset(b[1..]) == multiset(b) - multiset{b[0]};
      SortedIsUnique(less, a[1..], b[1..]);
    }
  }

  // ---------------------------------------------------------------------------
  // Duplicates
  // ---------------------------------------------------------------------------

  predicate NoDuplicates<T(==)>(xs: seq<T>) {
    forall i, j | 0 <= i < j < |xs| :: xs[i] != xs[j]
  }

  predicate NoNeighbours<T(==)>(xs: seq<T>) {
    forall i | 0 <= i < |xs| - 1 :: xs[i] != xs[i + 1]
  }

  lemma NoDuplicatesCons<T>(x: T, xs: seq<T>)
    ensures NoDuplicates([x] + xs) <==> x !in xs && NoDuplicates(xs)
  {
    var ys := [x] + xs;
    if NoDuplicates(ys) {
      forall i | 0 <= i < |xs| ensures xs[i] != x { assert ys[0] != ys[i + 1]; }
      forall i, j | 0 <= i < j < |xs| ensures xs[i] != xs[j] { assert ys[i + 1] != ys[j + 1]; }
    }
  }

  lemma {:induction false} InsertDuplicates<T(!new)>(less: (T, T) -> bool, x: T, xs: seq<T>)
    ensures NoDuplicates(Insert(less, x, xs)) <==> x !in xs && NoDuplicates(xs)
  {
    NoDuplicatesCons(x, xs);
    if xs != [] && less(xs[0], x) {
      InsertDuplicates(less, x, xs[1..]);
      InsertMembers(less, x, xs[1..], xs[0]);
      assert xs == [xs[0]] + xs[1..];
      NoDuplicatesCons(xs[0], xs[1..]);
      NoDuplicatesCons(xs[0], Insert(less, x, xs[1..]));
    }
  }

  lemma {:induction false} SortDuplicates<T(!new)>(less: (T, T) -> bool, xs: seq<T>)
    ensures NoDuplicates(Sort(less, xs)) <==> NoDuplicates(xs)
  {
    if xs != [] {
      SortDuplicates(less, xs[1..]);
      InsertDuplicates(less, xs[0], Sort(less, xs[1..]));
      SortMembers(less, xs[1..], xs[0]);
      assert xs == [xs[0]] + xs[1..];
      NoDuplicatesCons(xs[0], xs[1..]);
    }
  }

  /** Comparing neighbours after sorting finds exactly the repetitions. */
  lemma NeighboursFindDuplicates<T(!new)>(less: (T, T) -> bool, xs: seq<T>)
    requires Asymmetric(less) && Splits(less) && Connected(less)
    ensures NoNeighbours(Sort(less, xs)) <==> NoDuplicates(xs)
  {
    var ys := Sort(less, xs);
    SortIsSorted(less, xs);
    SortDuplicates(less, xs);
    if NoNeighbours(ys) {
      forall i, j | 0 <= i < j < |ys| ensures ys[i] != ys[j] {
        assert !less(ys[i + 1], ys[i]) && ys[i] != ys[i + 1];
        assert less(ys[i], ys[i + 1]);
        if j != i + 1 { assert !less(ys[j], ys[i + 1]); }
      }
    }
  }

  // ---------------------------------------------------------------------------
  // Filtering
  // ---------------------------------------------------------------------------

  function Filter<T>(keep: T -> bool, xs: seq<T>): seq<T>
  {
    if xs == [] then []
    else if keep(xs[0]) then [xs[0]] + Filter(keep, xs[1..])
    else Filter(keep, xs[1..])
  }

  lemma {:induction false} FilterMembers<T>(keep: T -> bool, xs: seq<T>, y: T)
    ensures y in Filter(keep, xs) <==> y in xs && keep(y)
  {
    if xs != [] { FilterMembers(keep, xs[1..], y); }
  }

  lemma FilterCons<T(!new)>(keep: T -> bool, x: T, xs: seq<T>)
    ensures Filter(keep, [x] + xs) == if keep(x) then [x] + Filter(keep, xs) else Filter(keep, xs)
  {
    assert ([x] + xs)[1..] == xs;
  }

  lemma InsertCons<T(!new)>(less: (T, T) -> bool, x: T, y: T, ys: seq<T>)
    ensures Insert(less, x, [y] + ys) == if less(y, x) then [y] + Insert(less, x, ys) else [x] + ([y] + ys)
  {
    assert ([y] + ys)[1..] == ys;
  }

  lemma InsertAtFront<T(!new)>(less: (T, T) -> bool, x: T, xs: seq<T>)
    requires forall y | y in xs :: !less(y, x)
    ensures Insert(less, x, xs) == [x] + xs
  {
    if xs != [] { assert xs[0] in xs; }
  }

  lemma {:induction false} InsertFilter<T(!new)>(less: (T, T) -> bool, keep: T -> bool, x: T, xs: seq<T>)
    requires Asymmetric(less) && Splits(less) && SortedBy(less, xs)
    ensures Filter(keep, Insert(less, x, xs))
      == if keep(x) then Insert(less, x, Filter(keep, xs)) else Filter(keep, xs)
  {
    if xs == [] {
      FilterCons(keep, x, xs);
    } else if !less(xs[0], x) {
      FilterCons(keep, x, xs);
      forall y | y in xs ensures !less(y, x) {
        var i :| 0 <= i < |xs| && xs[i] == y;
        assert i == 0 || !less(xs[i], xs[0]);
      }
      forall y | y in Filter(keep, xs) ensures !less(y, x) { FilterMembers(keep, xs, y); }
      InsertAtFront(less, x, Filter(keep, xs));
    } else {
      var y, ys := xs[0], xs[1..];
      assert xs == [y] + ys;
      InsertFilter(less, keep, x, ys);
      FilterCons(keep, y, ys);
      FilterCons(keep, y, Insert(less, x, ys));
      InsertCons(less, x, y, Filter(keep, ys));
    }
  }

  lemma SortCons<T(!new)>(less: (T, T) -> bool, x: T, xs: seq<T>)
    ensures Sort(less, [x] + xs) == Insert(less, x, Sort(less, xs))
  {
    assert ([x] + xs)[1..] == xs;
  }

  /** Dropping elements before or after a stable sort makes no difference. */
  lemma {:induction false} SortFilter<T(!new)>(less: (T, T) -> bool, keep: T -> bool, xs: seq<T>)
    requires Asymmetric(less) && Splits(less)
    ensures Filter(keep, Sort(less, xs)) == Sort(less, Filter(keep, xs))
  {
    if xs != [] {
      SortFilter(less, keep, xs[1..]);
      SortIsSorted(less, xs[1..]);
      InsertFilter(less, keep, xs[0], Sort(less, xs[1..]));
      SortCons(less, xs[0], Filter(keep, xs[1..]));
    }
  }
}
