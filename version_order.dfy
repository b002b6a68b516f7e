/**
  Choosing the "latest" version of a package. The archive sorts the version
  strings with an external Debian-policy comparator and takes the last
  element. The comparator is a parameter here, in the shape of a Python
  `cmp` function: negative, zero or positive for less, equal or greater.
 */
module VersionOrder {

  import opened Wrappers

  type Comparator = (string, string) -> int

  /** What the sort relies on: a total preorder whose sign flips with its arguments. */
  ghost predicate ValidComparator(cmp: Comparator) {
    && (forall a :: cmp(a, a) == 0)
    && SignSymmetric(cmp)
    && (forall a, b, c :: cmp(a, b) <= 0 && cmp(b, c) <= 0 ==> cmp(a, c) <= 0)
  }

  /** `a < b` exactly when `b > a`. */
  ghost predicate SignSymmetric(cmp: Comparator) {
    forall a, b :: cmp(a, b) < 0 <==> cmp(b, a) > 0
  }

  function Last(s: seq<string>): string
    requires |s| > 0
  {
    s[|s| - 1]
  }

  /** Adjacent elements never descend under `cmp`. */
  ghost predicate Ordered(s: seq<string>, cmp: Comparator) {
    forall i :: 0 < i < |s| ==> cmp(s[i - 1], s[i]) <= 0
  }

  /**
    Inserts `x`, which comes after every element of `t` in the input, into the
    sorted `t`: it moves left only past elements that compare strictly greater,
    so equal elements keep their input order.
   */
  function Insert(t: seq<string>, x: string, cmp: Comparator): (r: seq<string>)
    ensures |r| == |t| + 1
    ensures multiset(r) == multiset(t) + multiset{x}
    ensures |t| > 0 ==> Last(r) == if cmp(x, Last(t)) >= 0 then x else Last(t)
    decreases |t|
  {
    if t == [] then [x]
    else if cmp(x, Last(t)) >= 0 then t + [x]
    else
      assert t == t[..|t| - 1] + [Last(t)];
      Insert(t[..|t| - 1], x, cmp) + [Last(t)]
  }

  /** A stable sort: `sorted(vs, cmp=cmp)`. */
  function StableSort(vs: seq<string>, cmp: Comparator): (r: seq<string>)
    ensures |r| == |vs|
    ensures multiset(r) == multiset(vs)
    decreases |vs|
  {
    if vs == [] then []
    else
      assert vs == vs[..|vs| - 1] + [Last(vs)];
      Insert(StableSort(vs[..|vs| - 1], cmp), Last(vs), cmp)
  }

  /** `sorted(vs, cmp=cmp)[-1]`; an empty list has no last element (IndexError). */
  function LatestVersion(vs: seq<string>, cmp: Comparator): (r: Option<string>)
    ensures r.Some? <==> |vs| > 0
    ensures r.Some? ==> r.value in vs
  {
    if vs == [] then None
    else
      var sorted := StableSort(vs, cmp);
      assert Last(sorted) in multiset(sorted);
      Some(Last(sorted))
  }

  /**
    `vs[i]` is a maximum of `vs` and every later element is strictly smaller:
    among equal maxima, `i` is the last one in listing order.
   */
  ghost predicate IsLastMaximum(vs: seq<string>, cmp: Comparator, i: int) {
    && 0 <= i < |vs|
    && (forall j :: 0 <= j < |vs| ==> cmp(vs[j], vs[i]) <= 0)
    && (forall j :: i < j < |vs| ==> cmp(vs[j], vs[i]) < 0)
  }

  /**
    Position of the last maximum, found by a left-to-right scan that moves on
    whenever the next element is not smaller. Every later element is strictly
    smaller whatever the comparator; that it is a maximum needs a valid one.
   */
  function LastMaximumIndex(vs: seq<string>, cmp: Comparator): (i: nat)
    requires |vs| > 0
    ensures i < |vs|
    ensures forall j :: i < j < |vs| ==> cmp(vs[j], vs[i]) < 0
    decreases |vs|
  {
    if |vs| == 1 then 0
    else
      var k := LastMaximumIndex(vs[..|vs| - 1], cmp);
      assert forall j :: k < j < |vs| - 1 ==> vs[j] == vs[..|vs| - 1][j];
      if cmp(Last(vs), vs[k]) >= 0 then |vs| - 1 else k
  }

  /** Under a valid comparator the scan's position is the last maximum. */
  lemma {:induction false} LastMaximumIndexIsLastMaximum(vs: seq<string>, cmp: Comparator)
    requires |vs| > 0
    requires ValidComparator(cmp)
    ensures IsLastMaximum(vs, cmp, LastMaximumIndex(vs, cmp))
    decreases |vs|
  {
    if |vs| > 1 {
      var init := vs[..|vs| - 1];
      var k := LastMaximumIndex(init, cmp);
      LastMaximumIndexIsLastMaximum(init, cmp);
      var i := LastMaximumIndex(vs, cmp);
      forall j | 0 <= j < |vs| ensures cmp(vs[j], vs[i]) <= 0 {
        if j < |vs| - 1 {
          assert vs[j] == init[j];
          assert cmp(init[j], vs[k]) <= 0;
          if i != k {
            assert cmp(vs[k], Last(vs)) <= 0;
          }
        }
      }
    }
  }

  /** At most one position is the last maximum. */
  lemma LastMaximumUnique(vs: seq<string>, cmp: Comparator, i: int, j: int)
    requires ValidComparator(cmp)
    requires IsLastMaximum(vs, cmp, i) && IsLastMaximum(vs, cmp, j)
    ensures i == j
  {
    assert cmp(vs[j], vs[i]) <= 0 && cmp(vs[i], vs[j]) <= 0;
  }

  /** The stable sort leaves the last maximum at the end. */
  lemma {:induction false} SortedLastIsLastMaximum(vs: seq<string>, cmp: Comparator)
    requires |vs| > 0
    ensures Last(StableSort(vs, cmp)) == vs[LastMaximumIndex(vs, cmp)]
    decreases |vs|
  {
    if |vs| > 1 {
      var init := vs[..|vs| - 1];
      SortedLastIsLastMaximum(init, cmp);
      assert vs[LastMaximumIndex(init, cmp)] == init[LastMaximumIndex(init, cmp)];
    }
  }

  /** The version chosen for "latest" is listed, and no listed version is greater. */
  lemma LatestVersionIsLastMaximum(vs: seq<string>, cmp: Comparator)
    requires |vs| > 0
    ensures LatestVersion(vs, cmp).Some?
    ensures LatestVersion(vs, cmp).value == vs[LastMaximumIndex(vs, cmp)]
    ensures LatestVersion(vs, cmp).value in vs
    ensures ValidComparator(cmp) ==>
      forall j :: 0 <= j < |vs| ==> cmp(vs[j], LatestVersion(vs, cmp).value) <= 0
  {
    SortedLastIsLastMaximum(vs, cmp);
    if ValidComparator(cmp) {
      LastMaximumIndexIsLastMaximum(vs, cmp);
    }
  }

  lemma OrderedPrefix(t: seq<string>, cmp: Comparator)
    requires |t| > 0 && Ordered(t, cmp)
    ensures Ordered(t[..|t| - 1], cmp)
  {
    var init := t[..|t| - 1];
    forall i | 0 < i < |init| ensures cmp(init[i - 1], init[i]) <= 0 {
      assert init[i - 1] == t[i - 1] && init[i] == t[i];
    }
  }

  lemma OrderedSnoc(u: seq<string>, y: string, cmp: Comparator)
    requires Ordered(u, cmp)
    requires |u| > 0 ==> cmp(Last(u), y) <= 0
    ensures Ordered(u + [y], cmp)
  {
    var r := u + [y];
    forall i | 0 < i < |r| ensures cmp(r[i - 1], r[i]) <= 0 {
      if i < |u| {
        assert r[i - 1] == u[i - 1] && r[i] == u[i];
      }
    }
  }

  lemma {:induction false} InsertOrdered(t: seq<string>, x: string, cmp: Comparator)
    requires SignSymmetric(cmp)
    requires Ordered(t, cmp)
    ensures Ordered(Insert(t, x, cmp), cmp)
    decreases |t|
  {
    if t == [] {
    } else if cmp(x, Last(t)) >= 0 {
      assert cmp(Last(t), x) <= 0;
      OrderedSnoc(t, x, cmp);
    } else {
      var init := t[..|t| - 1];
      OrderedPrefix(t, cmp);
      InsertOrdered(init, x, cmp);
      var u := Insert(init, x, cmp);
      assert cmp(Last(u), Last(t)) <= 0 by {
        if init != [] && cmp(x, Last(init)) < 0 {
          assert Last(u) == t[|t| - 2];
        }
      }
      OrderedSnoc(u, Last(t), cmp);
    }
  }

  /** Under a valid comparator, neighbours in order means every pair in order. */
  lemma {:induction false} OrderedIsSorted(s: seq<string>, cmp: Comparator)
    requires ValidComparator(cmp)
    requires Ordered(s, cmp)
    ensures forall i, j :: 0 <= i < j < |s| ==> cmp(s[i], s[j]) <= 0
    decreases |s|
  {
    if |s| > 1 {
      var init := s[..|s| - 1];
      OrderedPrefix(s, cmp);
      OrderedIsSorted(init, cmp);
      forall i, j | 0 <= i < j < |s| ensures cmp(s[i], s[j]) <= 0 {
        if j < |s| - 1 {
          assert s[i] == init[i] && s[j] == init[j];
        } else if i < |s| - 2 {
          assert s[i] == init[i] && s[|s| - 2] == init[|s| - 2];
          assert cmp(s[i], s[|s| - 2]) <= 0 && cmp(s[|s| - 2], s[j]) <= 0;
        }
      }
    }
  }

  /** `sorted` returns its input reordered so that no neighbour descends. */
  lemma {:induction false} StableSortOrdered(vs: seq<string>, cmp: Comparator)
    requires ValidComparator(cmp)
    ensures Ordered(StableSort(vs, cmp), cmp)
    ensures multiset(StableSort(vs, cmp)) == multiset(vs)
    ensures var r := StableSort(vs, cmp); forall i, j :: 0 <= i < j < |r| ==> cmp(r[i], r[j]) <= 0
    decreases |vs|
  {
    if vs != [] {
      StableSortOrdered(vs[..|vs| - 1], cmp);
      InsertOrdered(StableSort(vs[..|vs| - 1], cmp), Last(vs), cmp);
      assert StableSort(vs, cmp) == Insert(StableSort(vs[..|vs| - 1], cmp), Last(vs), cmp);
    }
    OrderedIsSorted(StableSort(vs, cmp), cmp);
  }
}
