/** Sorting by a comparator, as the views sort their lists in place. */
module Sorting {
  /** Byte order on strings. */
  predicate Less(a: string, b: string) {
    b != "" && (a == "" || a[0] < b[0] || (a[0] == b[0] && Less(a[1..], b[1..])))
  }

  /** Two strings agree up to a place where the first one ends, or has the smaller character. */
  ghost predicate DiffersAt(a: string, b: string, k: nat) {
    k <= |a| && k < |b| && a[..k] == b[..k] && (k == |a| || a[k] < b[k])
  }

  lemma SameFirst(a: string, b: string, k: nat)
    requires DiffersAt(a, b, k)
    ensures k > 0 ==> a[0] == b[0]
  {
    if k > 0 {
      assert a[..k][0] == b[..k][0];
    }
  }

  lemma {:induction false} LessIsFirstDifference(a: string, b: string)
    ensures Less(a, b) <==> exists k: nat :: DiffersAt(a, b, k)
  {
    if a != "" && b != "" && a[0] == b[0] {
      LessIsFirstDifference(a[1..], b[1..]);
      if Less(a[1..], b[1..]) {
        var k: nat :| DiffersAt(a[1..], b[1..], k);
        assert a[..k + 1] == [a[0]] + a[1..][..k] && b[..k + 1] == [b[0]] + b[1..][..k];
        assert DiffersAt(a, b, k + 1);
      }
      if k: nat :| DiffersAt(a, b, k) {
        assert k > 0;
        assert a[1..][..k - 1] == a[..k][1..] && b[1..][..k - 1] == b[..k][1..];
        assert DiffersAt(a[1..], b[1..], k - 1);
      }
    } else if b != "" {
      assert a == "" || a[0] < b[0] ==> DiffersAt(a, b, 0);
      if k: nat :| DiffersAt(a, b, k) {
        SameFirst(a, b, k);
      }
    }
  }

  lemma {:induction false} LessIsAsymmetric(a: string, b: string)
    requires Less(a, b)
    ensures !Less(b, a) && a != b
  {
    if a != "" && a[0] == b[0] {
      LessIsAsymmetric(a[1..], b[1..]);
    }
  }

  lemma {:induction false} LessIsTotal(a: string, b: string)
    ensures Less(a, b) || Less(b, a) || a == b
  {
    if a != "" && b != "" && a[0] == b[0] {
      LessIsTotal(a[1..], b[1..]);
      assert a == [a[0]] + a[1..] && b == [b[0]] + b[1..];
    }
  }

  lemma {:induction false} LessIsTransitive(a: string, b: string, c: string)
    requires Less(a, b) && Less(b, c)
    ensures Less(a, c)
  {
    if a != "" && a[0] == b[0] == c[0] {
      LessIsTransitive(a[1..], b[1..], c[1..]);
    }
  }

  /** What a comparator must satisfy for sorting by it to make sense. */
  ghost predicate StrictWeakOrder<T(!new)>(less: (T, T) -> bool) {
    && (forall a, b :: less(a, b) ==> !less(b, a))
    && (forall a, b, c :: !less(a, b) && !less(b, c) ==> !less(a, c))
  }

  ghost predicate Sorted<T(!new)>(xs: seq<T>, less: (T, T) -> bool) {
    forall i, j | 0 <= i < j < |xs| :: !less(xs[j], xs[i])
  }

  function Insert<T>(ys: seq<T>, x: T, less: (T, T) -> bool): (r: seq<T>)
    ensures |r| == |ys| + 1
  {
    if ys != [] && less(x, ys[|ys| - 1]) then Insert(ys[..|ys| - 1], x, less) + [ys[|ys| - 1]] else ys + [x]
  }

  function Sort<T>(xs: seq<T>, less: (T, T) -> bool): (r: seq<T>)
    ensures |r| == |xs|
  {
    if xs == [] then [] else Insert(Sort(xs[..|xs| - 1], less), xs[|xs| - 1], less)
  }

  lemma MultisetSnoc<T>(xs: seq<T>)
    requires xs != []
    ensures multiset(xs) == multiset(xs[..|xs| - 1]) + multiset{xs[|xs| - 1]}
  {
    assert xs == xs[..|xs| - 1] + [xs[|xs| - 1]];
  }

  lemma {:induction false} InsertPermutes<T>(ys: seq<T>, x: T, less: (T, T) -> bool)
    ensures multiset(Insert(ys, x, less)) == multiset(ys) + multiset{x}
  {
    if ys != [] && less(x, ys[|ys| - 1]) {
      InsertPermutes(ys[..|ys| - 1], x, less);
      MultisetSnoc(ys);
    }
  }

  lemma {:induction false} SortPermutes<T>(xs: seq<T>, less: (T, T) -> bool)
    ensures multiset(Sort(xs, less)) == multiset(xs)
  {
    if xs != [] {
      var front := xs[..|xs| - 1];
      SortPermutes(front, less);
      InsertPermutes(Sort(front, less), xs[|xs| - 1], less);
      MultisetSnoc(xs);
    }
  }

  lemma InsertMember<T>(ys: seq<T>, x: T, less: (T, T) -> bool, i: nat)
    requires i < |Insert(ys, x, less)|
    ensures Insert(ys, x, less)[i] == x || Insert(ys, x, less)[i] in ys
  {
    InsertPermutes(ys, x, less);
    assert Insert(ys, x, less)[i] in multiset(Insert(ys, x, less));
  }

  lemma SortedSnoc<T(!new)>(ys: seq<T>, last: T, less: (T, T) -> bool)
    requires Sorted(ys, less) && forall i | 0 <= i < |ys| :: !less(last, ys[i])
    ensures Sorted(ys + [last], less)
  {
  }

  lemma {:induction false} InsertSorts<T(!new)>(ys: seq<T>, x: T, less: (T, T) -> bool)
    requires StrictWeakOrder(less) && Sorted(ys, less)
    ensures Sorted(Insert(ys, x, less), less)
  {
    if ys != [] && less(x, ys[|ys| - 1]) {
      var front, last := ys[..|ys| - 1], ys[|ys| - 1];
      InsertSorts(front, x, less);
      forall i | 0 <= i < |Insert(front, x, less)|
        ensures !less(last, Insert(front, x, less)[i])
      {
        InsertMember(front, x, less, i);
      }
      SortedSnoc(Insert(front, x, less), last, less);
    } else {
      forall i | 0 <= i < |ys|
        ensures !less(x, ys[i])
      {
        NothingBeforeLast(ys, x, less, i);
      }
      SortedSnoc(ys, x, less);
    }
  }

  lemma NothingBeforeLast<T(!new)>(ys: seq<T>, x: T, less: (T, T) -> bool, i: nat)
    requires StrictWeakOrder(less) && Sorted(ys, less) && i < |ys| && !less(x, ys[|ys| - 1])
    ensures !less(x, ys[i])
  {
    if i < |ys| - 1 {
      assert !less(ys[|ys| - 1], ys[i]);
    }
  }

  lemma {:induction false} SortSorts<T(!new)>(xs: seq<T>, less: (T, T) -> bool)
    requires StrictWeakOrder(less)
    ensures Sorted(Sort(xs, less), less)
  {
    if xs != [] {
      SortSorts(xs[..|xs| - 1], less);
      InsertSorts(Sort(xs[..|xs| - 1], less), xs[|xs| - 1], less);
    }
  }

  lemma SortKeepsMembers<T>(xs: seq<T>, less: (T, T) -> bool, x: T)
    ensures x in Sort(xs, less) <==> x in xs
  {
    SortPermutes(xs, less);
    assert x in Sort(xs, less) <==> x in multiset(Sort(xs, less));
    assert x in xs <==> x in multiset(xs);
  }

  function Map<T, U>(xs: seq<T>, f: T -> U): (r: seq<U>)
    ensures |r| == |xs| && forall i | 0 <= i < |xs| :: r[i] == f(xs[i])
  {
    seq(|xs|, i requires 0 <= i < |xs| => f(xs[i]))
  }

  lemma {:induction false} InsertCommutes<T(!new), U>(ys: seq<T>, x: T, f: T -> U, less: (T, T) -> bool, lessU: (U, U) -> bool)
    requires forall a, b :: less(a, b) == lessU(f(a), f(b))
    ensures Map(Insert(ys, x, less), f) == Insert(Map(ys, f), f(x), lessU)
  {
    if ys != [] && less(x, ys[|ys| - 1]) {
      InsertCommutes(ys[..|ys| - 1], x, f, less, lessU);
      assert Map(ys, f)[..|ys| - 1] == Map(ys[..|ys| - 1], f);
    }
  }

  /** Dropping what the comparator does not look at may be done before or after sorting. */
  lemma {:induction false} SortCommutes<T(!new), U>(xs: seq<T>, f: T -> U, less: (T, T) -> bool, lessU: (U, U) -> bool)
    requires forall a, b :: less(a, b) == lessU(f(a), f(b))
    ensures Map(Sort(xs, less), f) == Sort(Map(xs, f), lessU)
  {
    if xs != [] {
      var front := xs[..|xs| - 1];
      SortCommutes(front, f, less, lessU);
      InsertCommutes(Sort(front, less), xs[|xs| - 1], f, less, lessU);
      assert Map(xs, f)[..|xs| - 1] == Map(front, f);
    }
  }

  lemma InsertStep<T>(sorted: seq<T>, x: T, j: nat, less: (T, T) -> bool)
    requires 0 < j <= |sorted| && less(x, sorted[j - 1])
    ensures Insert(sorted[..j], x, less) + sorted[j..] == Insert(sorted[..j - 1], x, less) + sorted[j - 1..]
  {
    assert sorted[..j][..j - 1] == sorted[..j - 1];
    assert [sorted[j - 1]] + sorted[j..] == sorted[j - 1..];
  }

  lemma Placed<T>(sorted: seq<T>, x: T, j: nat, r: seq<T>)
    requires j <= |sorted| && |r| == |sorted| + 1 && r[j] == x
    requires forall k | 0 <= k < j :: r[k] == sorted[k]
    requires forall k | j < k < |r| :: r[k] == sorted[k - 1]
    ensures r == (sorted[..j] + [x]) + sorted[j..]
  {
    assert r[..j] == sorted[..j];
    assert r[j + 1..] == sorted[j..];
    assert r == r[..j] + [r[j]] + r[j + 1..];
  }

  lemma InsertLast<T>(ys: seq<T>, x: T, less: (T, T) -> bool)
    requires ys == [] || !less(x, ys[|ys| - 1])
    ensures Insert(ys, x, less) == ys + [x]
  {
  }

  /** Sinks element i into the sorted part before it by swapping neighbours. */
  method SinkInPlace<T>(a: array<T>, i: nat, less: (T, T) -> bool)
    requires i < a.Length
    modifies a
    ensures a[..i + 1] == Insert(old(a[..i]), old(a[i]), less)
    ensures forall k | i < k < a.Length :: a[k] == old(a[k])
  {
    ghost var sorted, x := a[..i], a[i];
    var j := i;
    assert sorted[..i] == sorted && sorted[i..] == [];
    while j > 0 && less(a[j], a[j - 1])
      invariant 0 <= j <= i && a[j] == x
      invariant forall k | 0 <= k < j :: a[k] == sorted[k]
      invariant forall k | j < k <= i :: a[k] == sorted[k - 1]
      invariant forall k | i < k < a.Length :: a[k] == old(a[k])
      invariant Insert(sorted, x, less) == Insert(sorted[..j], x, less) + sorted[j..]
    {
      InsertStep(sorted, x, j, less);
      a[j], a[j - 1] := a[j - 1], a[j];
      j := j - 1;
    }
    Placed(sorted, x, j, a[..i + 1]);
    InsertLast(sorted[..j], x, less);
  }

  lemma SortGrows<T>(xs: seq<T>, i: nat, less: (T, T) -> bool)
    requires i < |xs|
    ensures Sort(xs[..i + 1], less) == Insert(Sort(xs[..i], less), xs[i], less)
  {
    assert xs[..i + 1][..i] == xs[..i];
  }

  method SortInPlace<T>(a: array<T>, less: (T, T) -> bool)
    modifies a
    ensures a[..] == Sort(old(a[..]), less)
  {
    ghost var was := a[..];
    for i := 0 to a.Length
      invariant a[..i] == Sort(was[..i], less)
      invariant forall k | i <= k < a.Length :: a[k] == was[k]
    {
      SortGrows(was, i, less);
      SinkInPlace(a, i, less);
    }
    assert a[..a.Length] == a[..] && was[..a.Length] == was;
  }
}
