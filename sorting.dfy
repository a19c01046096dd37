/**
 * `Array.prototype.sort` with a comparator, as ECMAScript 2019 and later
 * promise it: the result is a sorted permutation of the input, and the sort
 * is stable. The sort is defined once, as insertion sort (`SortBy`), and
 * `SortedUnique` shows that every stable sort of the same input under the
 * same consistent comparator returns exactly this sequence.
 */
module Sorting {

  /**
   * A consistent comparator, as `Intl.Collator.prototype.compare` is: a
   * negative answer puts `a` first, a positive one puts `b` first, zero is a
   * tie; the sign flips when the arguments are swapped, and "not after" is
   * transitive. "Not after" (`cmp(a, b) <= 0`) is then a total preorder.
   */
  ghost predicate IsComparator<T(!new)>(cmp: (T, T) -> int) {
    && (forall a, b :: cmp(a, b) < 0 <==> cmp(b, a) > 0)
    && (forall a, b, c :: cmp(a, b) <= 0 && cmp(b, c) <= 0 ==> cmp(a, c) <= 0)
  }

  /** Every element is not after any element to its right. */
  ghost predicate Sorted<T>(s: seq<T>, cmp: (T, T) -> int) {
    forall i, j :: 0 <= i < j < |s| ==> cmp(s[i], s[j]) <= 0
  }

  /** The elements of `s` that tie with `k`, in their order in `s`. */
  function Ties<T>(s: seq<T>, k: T, cmp: (T, T) -> int): (r: seq<T>)
    ensures |r| <= |s|
    ensures forall x :: x in r ==> x in s && cmp(x, k) == 0
  {
    if s == [] then []
    else (if cmp(s[0], k) == 0 then [s[0]] else []) + Ties(s[1..], k, cmp)
  }

  /** `a` and `b` hold the same elements of every tie class, in the same order. */
  ghost predicate SameTies<T(!new)>(a: seq<T>, b: seq<T>, cmp: (T, T) -> int) {
    forall k :: Ties(a, k, cmp) == Ties(b, k, cmp)
  }

  /** Inserts `x` before the first element it is not after. */
  function Insert<T>(x: T, s: seq<T>, cmp: (T, T) -> int): (r: seq<T>)
    ensures multiset(r) == multiset(s) + multiset{x}
  {
    if s == [] then [x]
    else if cmp(x, s[0]) <= 0 then [x] + s
    else
      assert s == [s[0]] + s[1..];
      [s[0]] + Insert(x, s[1..], cmp)
  }

  /**
   * The stable sort of `s` under `cmp`: the tail is sorted first and each
   * element goes in front of the elements it ties with, so ties keep their
   * original order.
   */
  function SortBy<T>(s: seq<T>, cmp: (T, T) -> int): (r: seq<T>)
    ensures multiset(r) == multiset(s)
    ensures |r| == |s|
  {
    if s == [] then []
    else
      assert s == [s[0]] + s[1..];
      Insert(s[0], SortBy(s[1..], cmp), cmp)
  }

  // ------------------------------------------------------------- helpers

  lemma ComparatorFacts<T(!new)>(cmp: (T, T) -> int, a: T, b: T)
    requires IsComparator(cmp)
    ensures cmp(a, a) == 0
    ensures cmp(a, b) <= 0 || cmp(b, a) <= 0
    ensures cmp(a, b) == 0 <==> cmp(b, a) == 0
    ensures cmp(a, b) >= 0 ==> cmp(b, a) <= 0
  {
    assert cmp(a, a) < 0 <==> cmp(a, a) > 0;
    assert cmp(a, b) < 0 <==> cmp(b, a) > 0;
    assert cmp(b, a) < 0 <==> cmp(a, b) > 0;
  }

  lemma {:induction false} TiesAppend<T>(a: seq<T>, b: seq<T>, k: T, cmp: (T, T) -> int)
    ensures Ties(a + b, k, cmp) == Ties(a, k, cmp) + Ties(b, k, cmp)
    decreases |a|
  {
    if a == [] {
      assert a + b == b;
    } else {
      assert (a + b)[0] == a[0];
      assert (a + b)[1..] == a[1..] + b;
      TiesAppend(a[1..], b, k, cmp);
    }
  }

  // -------------------------------------------------------------- sorted

  /** `h` is not after any element of `t`. */
  ghost predicate NotAfterAll<T>(h: T, t: seq<T>, cmp: (T, T) -> int) {
    forall j :: 0 <= j < |t| ==> cmp(h, t[j]) <= 0
  }

  lemma SortedCons<T>(h: T, t: seq<T>, cmp: (T, T) -> int)
    requires Sorted(t, cmp) && NotAfterAll(h, t, cmp)
    ensures Sorted([h] + t, cmp)
  {
    var r := [h] + t;
    forall i, j | 0 <= i < j < |r| ensures cmp(r[i], r[j]) <= 0 {
      assert r[j] == t[j - 1];
      if i > 0 {
        assert r[i] == t[i - 1];
      }
    }
  }

  lemma SortedTail<T>(s: seq<T>, cmp: (T, T) -> int)
    requires s != [] && Sorted(s, cmp)
    ensures Sorted(s[1..], cmp) && NotAfterAll(s[0], s[1..], cmp)
  {
    forall i, j | 0 <= i < j < |s| - 1 ensures cmp(s[1..][i], s[1..][j]) <= 0 {
      assert s[1..][i] == s[i + 1] && s[1..][j] == s[j + 1];
    }
    forall j | 0 <= j < |s| - 1 ensures cmp(s[0], s[1..][j]) <= 0 {
      assert s[1..][j] == s[j + 1];
    }
  }

  /** If `h` is not after `m`, and `m` is not after anything in `t`, neither is `h`. */
  lemma NotAfterAllTrans<T(!new)>(h: T, m: T, t: seq<T>, cmp: (T, T) -> int)
    requires IsComparator(cmp) && cmp(h, m) <= 0 && NotAfterAll(m, t, cmp)
    ensures NotAfterAll(h, t, cmp)
  {
  }

  lemma InsertNotAfterAll<T>(h: T, x: T, s: seq<T>, cmp: (T, T) -> int)
    requires cmp(h, x) <= 0 && NotAfterAll(h, s, cmp)
    ensures NotAfterAll(h, Insert(x, s, cmp), cmp)
  {
    var r := Insert(x, s, cmp);
    forall j | 0 <= j < |r| ensures cmp(h, r[j]) <= 0 {
      assert r[j] in multiset(r);
      if r[j] != x {
        assert r[j] in multiset(s);
        var i :| 0 <= i < |s| && s[i] == r[j];
      }
    }
  }

  lemma {:induction false} InsertSorted<T(!new)>(x: T, s: seq<T>, cmp: (T, T) -> int)
    requires IsComparator(cmp) && Sorted(s, cmp)
    ensures Sorted(Insert(x, s, cmp), cmp)
    decreases |s|
  {
    if s == [] {
    } else {
      SortedTail(s, cmp);
      if cmp(x, s[0]) <= 0 {
        NotAfterAllTrans(x, s[0], s[1..], cmp);
        assert s == [s[0]] + s[1..];
        SortedCons(x, s, cmp);
      } else {
        InsertSorted(x, s[1..], cmp);
        ComparatorFacts(cmp, x, s[0]);
        InsertNotAfterAll(s[0], x, s[1..], cmp);
        SortedCons(s[0], Insert(x, s[1..], cmp), cmp);
      }
    }
  }

  /** `SortBy` returns a sorted sequence. */
  lemma {:induction false} SortBySorted<T(!new)>(s: seq<T>, cmp: (T, T) -> int)
    requires IsComparator(cmp)
    ensures Sorted(SortBy(s, cmp), cmp)
    decreases |s|
  {
    if s != [] {
      SortBySorted(s[1..], cmp);
      InsertSorted(s[0], SortBy(s[1..], cmp), cmp);
    }
  }

  // -------------------------------------------------------------- stable

  /** Two elements that do not tie cannot both tie with `k`. */
  lemma TiesSwap<T(!new)>(x: T, y: T, k: T, cmp: (T, T) -> int)
    requires IsComparator(cmp) && cmp(x, y) != 0
    ensures Ties([y], k, cmp) + Ties([x], k, cmp) == Ties([x], k, cmp) + Ties([y], k, cmp)
  {
    ComparatorFacts(cmp, y, k);
  }

  lemma {:induction false} InsertTies<T(!new)>(x: T, s: seq<T>, k: T, cmp: (T, T) -> int)
    requires IsComparator(cmp)
    ensures Ties(Insert(x, s, cmp), k, cmp) == Ties([x], k, cmp) + Ties(s, k, cmp)
    decreases |s|
  {
    if s == [] {
    } else if cmp(x, s[0]) <= 0 {
      TiesAppend([x], s, k, cmp);
    } else {
      var tail := Insert(x, s[1..], cmp);
      InsertTies(x, s[1..], k, cmp);
      TiesAppend([s[0]], tail, k, cmp);
      TiesAppend([s[0]], s[1..], k, cmp);
      assert s == [s[0]] + s[1..];
      TiesSwap(x, s[0], k, cmp);
    }
  }

  /** `SortBy` is stable: every tie class keeps its original order. */
  lemma {:induction false} SortByStable<T(!new)>(s: seq<T>, cmp: (T, T) -> int)
    requires IsComparator(cmp)
    ensures SameTies(SortBy(s, cmp), s, cmp)
    decreases |s|
  {
    if s != [] {
      SortByStable(s[1..], cmp);
      assert s == [s[0]] + s[1..];
      forall k ensures Ties(SortBy(s, cmp), k, cmp) == Ties(s, k, cmp) {
        InsertTies(s[0], SortBy(s[1..], cmp), k, cmp);
        TiesAppend([s[0]], s[1..], k, cmp);
      }
    }
  }

  // ------------------------------------------------------------ unique

  /** Every element ties with itself, so a non-empty sequence has a non-empty tie class. */
  lemma TiesOfHead<T(!new)>(c: seq<T>, cmp: (T, T) -> int)
    requires IsComparator(cmp) && c != []
    ensures Ties(c, c[0], cmp) != []
  {
    ComparatorFacts(cmp, c[0], c[0]);
  }

  /** Equal tie classes force equal first elements on sorted sequences. */
  lemma SortedHeads<T(!new)>(a: seq<T>, b: seq<T>, cmp: (T, T) -> int)
    requires IsComparator(cmp)
    requires Sorted(a, cmp) && Sorted(b, cmp) && SameTies(a, b, cmp)
    ensures a == [] <==> b == []
    ensures a != [] ==> a[0] == b[0]
  {
    if a == [] && b != [] {
      TiesOfHead(b, cmp);
    } else if a != [] && b == [] {
      TiesOfHead(a, cmp);
    } else if a != [] {
      var x, y := a[0], b[0];
      ComparatorFacts(cmp, x, y);
      ComparatorFacts(cmp, y, y);
      assert y in Ties(b, y, cmp);
      assert Ties(a, y, cmp) == Ties(b, y, cmp);
      assert y in a;
      SortedTail(a, cmp);
      assert Ties(a, x, cmp)[0] == x;
      assert Ties(a, x, cmp) == Ties(b, x, cmp);
    }
  }

  lemma TailsSameTies<T(!new)>(a: seq<T>, b: seq<T>, cmp: (T, T) -> int)
    requires a != [] && b != [] && a[0] == b[0] && SameTies(a, b, cmp)
    ensures SameTies(a[1..], b[1..], cmp)
  {
    forall k ensures Ties(a[1..], k, cmp) == Ties(b[1..], k, cmp) {
      var h := if cmp(a[0], k) == 0 then [a[0]] else [];
      assert Ties(a, k, cmp) == h + Ties(a[1..], k, cmp);
      assert Ties(b, k, cmp) == h + Ties(b[1..], k, cmp);
      assert Ties(a, k, cmp) == Ties(b, k, cmp);
      assert h + Ties(a[1..], k, cmp) == h + Ties(b[1..], k, cmp);
      assert Ties(a[1..], k, cmp) == (h + Ties(a[1..], k, cmp))[|h|..];
      assert Ties(b[1..], k, cmp) == (h + Ties(b[1..], k, cmp))[|h|..];
    }
  }

  /**
   * A sorted sequence is determined by its tie classes: two sorted
   * sequences with the same elements in every tie class, in the same order,
   * are equal. So every stable sort agrees with `SortBy`.
   */
  lemma {:induction false} SortedUnique<T(!new)>(a: seq<T>, b: seq<T>, cmp: (T, T) -> int)
    requires IsComparator(cmp)
    requires Sorted(a, cmp) && Sorted(b, cmp) && SameTies(a, b, cmp)
    ensures a == b
    decreases |a|
  {
    SortedHeads(a, b, cmp);
    if a != [] {
      TailsSameTies(a, b, cmp);
      SortedTail(a, cmp);
      SortedTail(b, cmp);
      SortedUnique(a[1..], b[1..], cmp);
      assert a == [a[0]] + a[1..] && b == [b[0]] + b[1..];
    }
  }

  /**
   * Sorting two sequences with the same tie classes gives the same result;
   * in particular sorting pieces first and then the whole changes nothing.
   */
  lemma SortBySameTies<T(!new)>(a: seq<T>, b: seq<T>, cmp: (T, T) -> int)
    requires IsComparator(cmp) && SameTies(a, b, cmp)
    ensures SortBy(a, cmp) == SortBy(b, cmp)
  {
    var sa, sb := SortBy(a, cmp), SortBy(b, cmp);
    SortBySorted(a, cmp);
    SortBySorted(b, cmp);
    SortByStable(a, cmp);
    SortByStable(b, cmp);
    forall k ensures Ties(sa, k, cmp) == Ties(sb, k, cmp) {
      assert Ties(sa, k, cmp) == Ties(a, k, cmp) == Ties(b, k, cmp) == Ties(sb, k, cmp);
    }
    SortedUnique(sa, sb, cmp);
  }

  /** Tie classes are kept by concatenation. */
  lemma SameTiesAppend<T(!new)>(a: seq<T>, b: seq<T>, c: seq<T>, d: seq<T>, cmp: (T, T) -> int)
    requires SameTies(a, b, cmp) && SameTies(c, d, cmp)
    ensures SameTies(a + c, b + d, cmp)
  {
    forall k ensures Ties(a + c, k, cmp) == Ties(b + d, k, cmp) {
      TiesAppend(a, c, k, cmp);
      TiesAppend(b, d, k, cmp);
    }
  }

  /** Sorting with a consistent comparator twice is sorting once. */
  lemma SortByIdempotent<T(!new)>(s: seq<T>, cmp: (T, T) -> int)
    requires IsComparator(cmp)
    ensures SortBy(SortBy(s, cmp), cmp) == SortBy(s, cmp)
  {
    var r := SortBy(s, cmp);
    SortByStable(r, cmp);
    SortBySorted(r, cmp);
    SortBySorted(s, cmp);
    SortedUnique(SortBy(r, cmp), r, cmp);
  }

  /** Sorting keeps exactly the same elements. */
  lemma SortByMembers<T>(s: seq<T>, cmp: (T, T) -> int)
    ensures forall x :: x in SortBy(s, cmp) <==> x in s
  {
    var r := SortBy(s, cmp);
    forall x ensures x in r <==> x in s {
      assert x in r <==> x in multiset(r);
      assert x in s <==> x in multiset(s);
    }
  }
}
