/**
 * The table sort: `[...data].sort(comparator)`, a stable sort of a copy of
 * the dataset. `Sorted` is the reference definition (a stable insertion
 * sort); `SortInPlace` sorts an array in place and is proved to agree with it.
 */
module Sorting {
  import opened Records
  import opened Ordering

  /** Each row comes no later than the next one under the comparator. */
  predicate Ordered(s: seq<Institution>, st: SortState) {
    forall i :: 0 <= i < |s| - 1 ==> Compare(s[i], s[i + 1], st) <= 0
  }

  /**
   * Inserts `x` behind the last element it does not have to precede,
   * scanning from the right: the elements after `x` are exactly the trailing
   * ones the comparator puts strictly after it.
   */
  function Insert(s: seq<Institution>, x: Institution, st: SortState): (r: seq<Institution>)
    ensures |r| == |s| + 1
    ensures r[|r| - 1] == x || (s != [] && r[|r| - 1] == s[|s| - 1])
  {
    if s == [] then [x]
    else if Compare(s[|s| - 1], x, st) > 0 then Insert(s[..|s| - 1], x, st) + [s[|s| - 1]]
    else s + [x]
  }

  /** The stable sort of `s`: each element in turn is inserted into the sorted prefix. */
  function Sorted(s: seq<Institution>, st: SortState): (r: seq<Institution>)
    ensures |r| == |s|
  {
    if s == [] then [] else Insert(Sorted(s[..|s| - 1], st), s[|s| - 1], st)
  }

  /** The elements of `s` the comparator ties with `p`, in their order in `s`. */
  function Tied(s: seq<Institution>, p: Institution, st: SortState): (r: seq<Institution>)
    ensures |r| <= |s|
  {
    if s == [] then []
    else Tied(s[..|s| - 1], p, st) + (if Compare(s[|s| - 1], p, st) == 0 then [s[|s| - 1]] else [])
  }

  /** Appending one element to an ordered sequence behind an element it may follow. */
  lemma OrderedSnoc(s: seq<Institution>, y: Institution, st: SortState)
    requires Ordered(s, st)
    requires s != [] ==> Compare(s[|s| - 1], y, st) <= 0
    ensures Ordered(s + [y], st)
  {
    var t := s + [y];
    forall i | 0 <= i < |t| - 1 ensures Compare(t[i], t[i + 1], st) <= 0 {
      if i < |s| - 1 {
        assert t[i] == s[i] && t[i + 1] == s[i + 1];
      }
    }
  }

  /** The prefix of an ordered sequence is ordered. */
  lemma OrderedInit(s: seq<Institution>, st: SortState)
    requires s != [] && Ordered(s, st)
    ensures Ordered(s[..|s| - 1], st)
  {
    var init := s[..|s| - 1];
    forall i | 0 <= i < |init| - 1 ensures Compare(init[i], init[i + 1], st) <= 0 {
      assert init[i] == s[i] && init[i + 1] == s[i + 1];
    }
  }

  /** Inserting into an ordered sequence keeps it ordered. */
  lemma {:induction false} InsertOrdered(s: seq<Institution>, x: Institution, st: SortState)
    requires Ordered(s, st)
    ensures Ordered(Insert(s, x, st), st)
  {
    if s != [] && Compare(s[|s| - 1], x, st) > 0 {
      OrderedInit(s, st);
      InsertOrdered(s[..|s| - 1], x, st);
      InsertPastLastOrdered(s, x, st);
    } else if s != [] {
      assert Insert(s, x, st) == s + [x];
      OrderedSnoc(s, x, st);
    }
  }

  /**
   * When `x` must precede the last element, that element is appended behind
   * the insertion into the prefix, which keeps an ordered result ordered.
   */
  lemma InsertPastLastOrdered(s: seq<Institution>, x: Institution, st: SortState)
    requires s != [] && Compare(s[|s| - 1], x, st) > 0
    requires Ordered(s, st) && Ordered(Insert(s[..|s| - 1], x, st), st)
    ensures Ordered(Insert(s, x, st), st)
  {
    var n := |s|;
    var last := s[n - 1];
    var r := Insert(s[..n - 1], x, st);
    assert Insert(s, x, st) == r + [last];
    if r[|r| - 1] == x {
      CompareAntisymmetric(last, x, st);
    } else {
      assert r[|r| - 1] == s[n - 2];
    }
    OrderedSnoc(r, last, st);
  }

  /** The sort's result is ordered under the comparator. */
  lemma {:induction false} SortedIsOrdered(s: seq<Institution>, st: SortState)
    ensures Ordered(Sorted(s, st), st)
  {
    if s != [] {
      SortedIsOrdered(s[..|s| - 1], st);
      InsertOrdered(Sorted(s[..|s| - 1], st), s[|s| - 1], st);
    }
  }

  /** Inserting adds exactly one occurrence of `x`. */
  lemma {:induction false} InsertPermutes(s: seq<Institution>, x: Institution, st: SortState)
    ensures multiset(Insert(s, x, st)) == multiset(s) + multiset{x}
  {
    if s != [] {
      var n := |s|;
      assert s == s[..n - 1] + [s[n - 1]];
      if Compare(s[n - 1], x, st) > 0 {
        InsertPermutes(s[..n - 1], x, st);
      }
    }
  }

  /** The sort's result is a permutation of its input. */
  lemma {:induction false} SortedIsPermutation(s: seq<Institution>, st: SortState)
    ensures multiset(Sorted(s, st)) == multiset(s)
  {
    if s != [] {
      var n := |s|;
      assert s == s[..n - 1] + [s[n - 1]];
      SortedIsPermutation(s[..n - 1], st);
      InsertPermutes(Sorted(s[..n - 1], st), s[n - 1], st);
    }
  }

  /** The tied elements of `s + [y]`: those of `s`, then `y` if it is tied. */
  lemma TiedSnoc(s: seq<Institution>, y: Institution, p: Institution, st: SortState)
    ensures Tied(s + [y], p, st) == Tied(s, p, st) + (if Compare(y, p, st) == 0 then [y] else [])
  {
    assert (s + [y])[..|s|] == s;
  }

  /** An element the comparator puts strictly after `x` is not tied with what `x` is tied with. */
  lemma NotBothTied(y: Institution, x: Institution, p: Institution, st: SortState)
    requires Compare(y, x, st) > 0
    ensures Compare(x, p, st) != 0 || Compare(y, p, st) != 0
  {
    if Compare(x, p, st) == 0 {
      CompareRespectsTies(y, x, p, st);
    }
  }

  /** Two pieces one of which is empty can be appended in either order. */
  lemma SwapAroundEmpty<T>(a: seq<T>, u: seq<T>, v: seq<T>)
    requires u == [] || v == []
    ensures a + u + v == a + v + u
  {
  }

  /**
   * Inserting `x` does not move it past an element tied with it: among the
   * elements tied with `p`, `x` lands last.
   */
  lemma {:induction false} InsertTied(s: seq<Institution>, x: Institution, p: Institution, st: SortState)
    ensures Tied(Insert(s, x, st), p, st) == Tied(s, p, st) + (if Compare(x, p, st) == 0 then [x] else [])
  {
    if s == [] {
      TiedSnoc([], x, p, st);
    } else {
      var n := |s|;
      var last := s[n - 1];
      var init := s[..n - 1];
      assert s == init + [last];
      TiedSnoc(init, last, p, st);
      var tx := if Compare(x, p, st) == 0 then [x] else [];
      var tl := if Compare(last, p, st) == 0 then [last] else [];
      if Compare(last, x, st) > 0 {
        var r := Insert(init, x, st);
        assert Insert(s, x, st) == r + [last];
        InsertTied(init, x, p, st);
        TiedSnoc(r, last, p, st);
        NotBothTied(last, x, p, st);
        SwapAroundEmpty(Tied(init, p, st), tx, tl);
      } else {
        assert Insert(s, x, st) == s + [x];
        TiedSnoc(s, x, p, st);
      }
    }
  }

  /**
   * The sort is stable: for every `p`, the elements tied with `p` appear in
   * the result in the same order as in the input.
   */
  lemma {:induction false} SortedIsStable(s: seq<Institution>, p: Institution, st: SortState)
    ensures Tied(Sorted(s, st), p, st) == Tied(s, p, st)
  {
    if s != [] {
      var n := |s|;
      assert s == s[..n - 1] + [s[n - 1]];
      SortedIsStable(s[..n - 1], p, st);
      InsertTied(Sorted(s[..n - 1], st), s[n - 1], p, st);
      TiedSnoc(s[..n - 1], s[n - 1], p, st);
    }
  }

  /** Sorting an already ordered sequence leaves it as it is. */
  lemma {:induction false} SortedOfOrdered(s: seq<Institution>, st: SortState)
    requires Ordered(s, st)
    ensures Sorted(s, st) == s
  {
    if s != [] {
      var n := |s|;
      OrderedInit(s, st);
      SortedOfOrdered(s[..n - 1], st);
      assert s == s[..n - 1] + [s[n - 1]];
      if n > 1 {
        assert s[..n - 1][n - 2] == s[n - 2];
      }
    }
  }

  /** Sorting twice by the same state is the same as sorting once. */
  lemma SortedIdempotent(s: seq<Institution>, st: SortState)
    ensures Sorted(Sorted(s, st), st) == Sorted(s, st)
  {
    SortedIsOrdered(s, st);
    SortedOfOrdered(Sorted(s, st), st);
  }

  /**
   * A column key the records do not have makes every pair compare equal, so
   * the table keeps the dataset order.
   */
  lemma SortedByMissingKey(s: seq<Institution>, st: SortState)
    requires st.key !in {"name", "ftu", "ftg", "ptu", "ptg"}
    ensures Sorted(s, st) == s
  {
    SortedOfOrdered(s, st);
  }

  /** Rows ordered by a count column have non-decreasing counts ascending, non-increasing descending. */
  lemma OrderedByCount(s: seq<Institution>, f: CountField, o: Order, i: nat)
    requires Ordered(s, SortState(KeyOf(f), o)) && i + 1 < |s|
    ensures o == Asc ==> Count(s[i], f) <= Count(s[i + 1], f)
    ensures o == Desc ==> Count(s[i], f) >= Count(s[i + 1], f)
  {
    CompareCount(s[i], s[i + 1], f, o);
  }

  /**
   * Rows ordered by the name column: ascending, no lowercased name is
   * smaller than the one before it; descending, none is larger.
   */
  lemma OrderedByName(s: seq<Institution>, o: Order, i: nat)
    requires Ordered(s, SortState("name", o)) && i + 1 < |s|
    ensures o == Asc ==> !StrLess(Lower(s[i + 1].name), Lower(s[i].name))
    ensures o == Desc ==> !StrLess(Lower(s[i].name), Lower(s[i + 1].name))
  {
    CompareName(s[i], s[i + 1], o);
    CompareName(s[i + 1], s[i], o);
    CompareAntisymmetric(s[i], s[i + 1], SortState("name", o));
  }

  /**
   * The sorted table follows its column: counts never decrease going down
   * an ascending count column and never increase going down a descending
   * one; lowercased names likewise on the name column.
   */
  lemma SortedFollowsColumn(s: seq<Institution>, st: SortState)
    ensures forall f, i :: st.key == KeyOf(f) && 0 <= i < |Sorted(s, st)| - 1 ==>
      if st.order == Asc then Count(Sorted(s, st)[i], f) <= Count(Sorted(s, st)[i + 1], f)
      else Count(Sorted(s, st)[i], f) >= Count(Sorted(s, st)[i + 1], f)
    ensures forall i :: st.key == "name" && 0 <= i < |Sorted(s, st)| - 1 ==>
      if st.order == Asc then !StrLess(Lower(Sorted(s, st)[i + 1].name), Lower(Sorted(s, st)[i].name))
      else !StrLess(Lower(Sorted(s, st)[i].name), Lower(Sorted(s, st)[i + 1].name))
  {
    var r := Sorted(s, st);
    SortedIsOrdered(s, st);
    forall f, i | st.key == KeyOf(f) && 0 <= i < |r| - 1
      ensures if st.order == Asc then Count(r[i], f) <= Count(r[i + 1], f)
              else Count(r[i], f) >= Count(r[i + 1], f)
    {
      assert st == SortState(KeyOf(f), st.order);
      OrderedByCount(r, f, st.order, i);
    }
    forall i | st.key == "name" && 0 <= i < |r| - 1
      ensures if st.order == Asc then !StrLess(Lower(r[i + 1].name), Lower(r[i].name))
              else !StrLess(Lower(r[i].name), Lower(r[i + 1].name))
    {
      assert st == SortState("name", st.order);
      OrderedByName(r, st.order, i);
    }
  }

  /** In an ordered sequence every row comes no later than every row after it. */
  lemma {:induction false} OrderedAllPairs(s: seq<Institution>, st: SortState, i: nat, j: nat)
    requires Ordered(s, st)
    requires i < j < |s|
    ensures Compare(s[i], s[j], st) <= 0
    decreases j
  {
    if i < j - 1 {
      OrderedAllPairs(s, st, i, j - 1);
      CompareTransitive(s[i], s[j - 1], s[j], st);
    }
  }

  /** Only equal records tie: the comparator tells every two different records of `s` apart. */
  predicate TiesAreEqual(s: seq<Institution>, st: SortState) {
    forall x, y :: x in s && y in s && Compare(x, y, st) == 0 ==> x == y
  }

  /** A record the comparator puts strictly before every other one heads the sorted table. */
  lemma LeastComesFirst(s: seq<Institution>, top: Institution, st: SortState)
    requires top in s
    requires forall u :: u in s && u != top ==> Compare(top, u, st) < 0
    ensures |Sorted(s, st)| == |s| && Sorted(s, st)[0] == top
  {
    var r := Sorted(s, st);
    SortedIsOrdered(s, st);
    SortedIsPermutation(s, st);
    assert top in multiset(r);
    if r[0] != top {
      var k :| 0 <= k < |r| && r[k] == top;
      OrderedAllPairs(r, st, 0, k);
      assert r[0] in multiset(s);
      CompareAntisymmetric(top, r[0], st);
    }
  }

  /** Every element of `s` is related by `le` to every element after it. */
  ghost predicate Chain<T>(s: seq<T>, le: (T, T) -> bool) {
    forall i, j :: 0 <= i < j < |s| ==> le(s[i], s[j])
  }

  /** Two chains holding the same elements end with the same element when `le` is antisymmetric on them. */
  lemma ChainSameLast<T>(a: seq<T>, b: seq<T>, le: (T, T) -> bool)
    requires Chain(a, le) && Chain(b, le)
    requires a != [] && multiset(a) == multiset(b)
    requires forall x, y :: x in a && y in a && le(x, y) && le(y, x) ==> x == y
    ensures |b| == |a| && b[|b| - 1] == a[|a| - 1]
  {
    assert |a| == |multiset(a)| == |multiset(b)| == |b|;
    var n := |a|;
    var x, y := a[n - 1], b[n - 1];
    assert y in multiset(a) && x in multiset(b);
    var k :| 0 <= k < n && a[k] == y;
    var m :| 0 <= m < n && b[m] == x;
    if k < n - 1 && m < n - 1 {
      assert le(a[k], a[n - 1]) && le(b[m], b[n - 1]);
    }
  }

  /** Dropping the last element removes one occurrence of it from the multiset. */
  lemma MultisetInit<T>(a: seq<T>)
    requires a != []
    ensures multiset(a[..|a| - 1]) == multiset(a) - multiset{a[|a| - 1]}
  {
    assert a == a[..|a| - 1] + [a[|a| - 1]];
  }

  /** Removing the same last element from two permutations of each other leaves permutations. */
  lemma DropSameLast<T>(a: seq<T>, b: seq<T>)
    requires a != [] && |b| == |a| && b[|b| - 1] == a[|a| - 1]
    requires multiset(a) == multiset(b)
    ensures multiset(a[..|a| - 1]) == multiset(b[..|b| - 1])
  {
    MultisetInit(a);
    MultisetInit(b);
  }

  /** Sequences that agree on all but the last element and on the last one are equal. */
  lemma SameInitAndLast<T>(a: seq<T>, b: seq<T>)
    requires a != [] && |b| == |a| && b[|b| - 1] == a[|a| - 1]
    requires a[..|a| - 1] == b[..|b| - 1]
    ensures a == b
  {
    var n := |a|;
    assert a == a[..n - 1] + [a[n - 1]] && b == b[..n - 1] + [b[n - 1]];
  }

  /**
   * Two chains holding the same elements are equal when `le` holds both ways
   * only between equal elements.
   */
  lemma {:induction false} ChainUnique<T>(a: seq<T>, b: seq<T>, le: (T, T) -> bool)
    requires Chain(a, le) && Chain(b, le)
    requires multiset(a) == multiset(b)
    requires forall x, y :: x in a && y in a && le(x, y) && le(y, x) ==> x == y
    ensures a == b
    decreases |a|
  {
    if a == [] {
      assert |b| == |multiset(b)| == 0;
    } else {
      ChainSameLast(a, b, le);
      DropSameLast(a, b);
      var a', b' := a[..|a| - 1], b[..|b| - 1];
      assert forall u | u in a' :: u in a;
      ChainUnique(a', b', le);
      SameInitAndLast(a, b);
    }
  }

  /** In an ordered sequence each record comes no later than every record after it. */
  lemma OrderedIsChain(s: seq<Institution>, st: SortState)
    requires Ordered(s, st)
    ensures Chain(s, (x, y) => Compare(x, y, st) <= 0)
  {
    forall i, j | 0 <= i < j < |s| ensures Compare(s[i], s[j], st) <= 0 {
      OrderedAllPairs(s, st, i, j);
    }
  }

  /** Two ordered arrangements of the same records are the same when only equal records tie. */
  lemma OrderedUnique(a: seq<Institution>, b: seq<Institution>, st: SortState)
    requires Ordered(a, st) && Ordered(b, st)
    requires multiset(a) == multiset(b)
    requires TiesAreEqual(a, st)
    ensures a == b
  {
    var le := (x, y) => Compare(x, y, st) <= 0;
    OrderedIsChain(a, st);
    OrderedIsChain(b, st);
    forall x, y | x in a && y in a && le(x, y) && le(y, x) ensures x == y {
      CompareAntisymmetric(x, y, st);
    }
    ChainUnique(a, b, le);
  }

  /** Every record compares equal to itself. */
  lemma CompareReflexive(x: Institution, st: SortState)
    ensures Compare(x, x, st) == 0
  {
    CompareAntisymmetric(x, x, st);
  }

  /** The last element of `s` closes the elements tied with any `p` it ties with. */
  lemma TiedLast(s: seq<Institution>, p: Institution, st: SortState)
    requires s != [] && Compare(s[|s| - 1], p, st) == 0
    ensures Tied(s, p, st) != [] && Tied(s, p, st)[|Tied(s, p, st)| - 1] == s[|s| - 1]
  {
  }

  /** In an ordered sequence no element has to follow the last one. */
  lemma LastIsGreatest(s: seq<Institution>, y: Institution, st: SortState)
    requires Ordered(s, st) && y in s
    ensures Compare(y, s[|s| - 1], st) <= 0
  {
    var k :| 0 <= k < |s| && s[k] == y;
    if k < |s| - 1 {
      OrderedAllPairs(s, st, k, |s| - 1);
    } else {
      CompareReflexive(y, st);
    }
  }

  /** Two sequences with the same last element and the same ties overall have the same ties before it. */
  lemma TiedInit(a: seq<Institution>, b: seq<Institution>, p: Institution, st: SortState)
    requires a != [] && b != [] && a[|a| - 1] == b[|b| - 1]
    requires Tied(a, p, st) == Tied(b, p, st)
    ensures Tied(a[..|a| - 1], p, st) == Tied(b[..|b| - 1], p, st)
  {
    var ta, tb := Tied(a[..|a| - 1], p, st), Tied(b[..|b| - 1], p, st);
    var e := if Compare(a[|a| - 1], p, st) == 0 then [a[|a| - 1]] else [];
    assert ta + e == tb + e;
    assert ta == (ta + e)[..|ta|] && tb == (tb + e)[..|tb|];
  }

  /**
   * An ordered permutation that keeps every group of tied elements in its
   * order is unique: any stable sort by the comparator gives the same table.
   */
  lemma {:induction false} StableOrderedUnique(a: seq<Institution>, b: seq<Institution>, st: SortState)
    requires Ordered(a, st) && Ordered(b, st)
    requires multiset(a) == multiset(b)
    requires forall p :: Tied(a, p, st) == Tied(b, p, st)
    ensures a == b
    decreases |a|
  {
    assert |a| == |multiset(a)| == |multiset(b)| == |b|;
    if a != [] {
      var n := |a|;
      var la, lb := a[n - 1], b[n - 1];
      assert la in multiset(b) && lb in multiset(a);
      LastIsGreatest(b, la, st);
      LastIsGreatest(a, lb, st);
      CompareAntisymmetric(la, lb, st);
      CompareReflexive(la, st);
      TiedLast(a, la, st);
      TiedLast(b, la, st);
      assert Tied(a, la, st) == Tied(b, la, st);
      DropSameLast(a, b);
      var ia, ib := a[..n - 1], b[..n - 1];
      forall p ensures Tied(ia, p, st) == Tied(ib, p, st) {
        TiedInit(a, b, p, st);
      }
      OrderedInit(a, st);
      OrderedInit(b, st);
      StableOrderedUnique(ia, ib, st);
      SameInitAndLast(a, b);
    }
  }

  /**
   * Whatever stable algorithm sorts the rows, its result is `Sorted`: an
   * ordered permutation of the input that keeps tied rows in input order
   * equals the reference sort.
   */
  lemma StableSortIsSorted(r: seq<Institution>, s: seq<Institution>, st: SortState)
    requires Ordered(r, st)
    requires multiset(r) == multiset(s)
    requires forall p :: Tied(r, p, st) == Tied(s, p, st)
    ensures r == Sorted(s, st)
  {
    SortedIsOrdered(s, st);
    SortedIsPermutation(s, st);
    forall p ensures Tied(r, p, st) == Tied(Sorted(s, st), p, st) {
      SortedIsStable(s, p, st);
    }
    StableOrderedUnique(r, Sorted(s, st), st);
  }

  /** `s` read back to front. */
  function Reversed(s: seq<Institution>): (r: seq<Institution>)
    ensures |r| == |s|
    ensures multiset(r) == multiset(s)
  {
    if s == [] then []
    else
      assert s == [s[0]] + s[1..];
      Reversed(s[1..]) + [s[0]]
  }

  /** Position `i` of the reversal is position `|s| - 1 - i` of `s`. */
  lemma {:induction false} ReversedAt(s: seq<Institution>, i: nat)
    requires i < |s|
    ensures Reversed(s)[i] == s[|s| - 1 - i]
  {
    if i < |s| - 1 {
      ReversedAt(s[1..], i);
    }
  }

  /** Read back to front, a sequence ordered ascending is ordered descending. */
  lemma ReversedAscIsDesc(s: seq<Institution>, key: string)
    requires Ordered(s, SortState(key, Asc))
    ensures Ordered(Reversed(s), SortState(key, Desc))
  {
    var r, n := Reversed(s), |s|;
    forall i | 0 <= i < n - 1 ensures Compare(r[i], r[i + 1], SortState(key, Desc)) <= 0 {
      ReversedAt(s, i);
      ReversedAt(s, i + 1);
      assert Compare(s[n - 2 - i], s[n - 1 - i], SortState(key, Asc)) <= 0;
      CompareAntisymmetric(s[n - 2 - i], s[n - 1 - i], SortState(key, Asc));
      CompareDescIsReversedAsc(s[n - 1 - i], s[n - 2 - i], key);
    }
  }

  /** Ties do not depend on the direction, and a permutation has the same records. */
  lemma DescTiesAreEqual(s: seq<Institution>, t: seq<Institution>, key: string)
    requires TiesAreEqual(s, SortState(key, Asc))
    requires multiset(t) == multiset(s)
    ensures TiesAreEqual(t, SortState(key, Desc))
  {
    forall x, y | x in t && y in t && Compare(x, y, SortState(key, Desc)) == 0 ensures x == y {
      assert x in multiset(s) && y in multiset(s);
      CompareDescIsReversedAsc(x, y, key);
    }
  }

  /**
   * When only equal records tie on `key`, the descending table is the
   * ascending table read back to front.
   */
  lemma SortedDescIsReversedAsc(s: seq<Institution>, key: string)
    requires TiesAreEqual(s, SortState(key, Asc))
    ensures Sorted(s, SortState(key, Desc)) == Reversed(Sorted(s, SortState(key, Asc)))
  {
    var asc, desc := SortState(key, Asc), SortState(key, Desc);
    var up, down := Sorted(s, asc), Sorted(s, desc);
    SortedIsOrdered(s, asc);
    SortedIsOrdered(s, desc);
    SortedIsPermutation(s, asc);
    SortedIsPermutation(s, desc);
    ReversedAscIsDesc(up, key);
    DescTiesAreEqual(s, down, key);
    OrderedUnique(down, Reversed(up), desc);
  }

  /**
   * `Insert` puts `x` right behind the prefix `done[..j]` when the element
   * before that point may precede `x` and every element after it must follow
   * `x`.
   */
  lemma {:induction false} InsertAfterPrefix(done: seq<Institution>, x: Institution, j: nat, st: SortState)
    requires j <= |done|
    requires j > 0 ==> Compare(done[j - 1], x, st) <= 0
    requires forall k :: j <= k < |done| ==> Compare(done[k], x, st) > 0
    ensures Insert(done, x, st) == done[..j] + [x] + done[j..]
    decreases |done|
  {
    var n := |done|;
    if j == n {
      assert done[..j] == done && done[j..] == [];
    } else {
      var init, last := done[..n - 1], done[n - 1];
      assert Insert(done, x, st) == Insert(init, x, st) + [last];
      assert j > 0 ==> init[j - 1] == done[j - 1];
      assert forall k :: j <= k < |init| ==> init[k] == done[k];
      InsertAfterPrefix(init, x, j, st);
      SnocAround(done, j, x, Insert(init, x, st));
    }
  }

  /** Appending the last element of `s` to a sequence with `x` inserted into its prefix at `j`. */
  lemma SnocAround<T>(s: seq<T>, j: nat, x: T, r: seq<T>)
    requires j < |s|
    requires r == s[..|s| - 1][..j] + [x] + s[..|s| - 1][j..]
    ensures r + [s[|s| - 1]] == s[..j] + [x] + s[j..]
  {
    var init := s[..|s| - 1];
    assert init[..j] == s[..j];
    assert s[j..] == init[j..] + [s[|s| - 1]];
  }

  /** Copying the element before the gap into the gap moves the gap one place left. */
  lemma GapLeft<T>(before: seq<T>, done: seq<T>, rest: seq<T>, j: nat)
    requires 0 < j <= |done| && |before| == |done| + 1 + |rest|
    requires before == done[..j] + [before[j]] + done[j..] + rest
    ensures before[j - 1] == done[j - 1]
    ensures before[j := before[j - 1]] == done[..j - 1] + [done[j - 1]] + done[j - 1..] + rest
  {
    assert before[j - 1] == done[..j][j - 1];
    assert done[..j] == done[..j - 1] + [done[j - 1]];
    assert done[j - 1..] == [done[j - 1]] + done[j..];
  }

  /** Before the first shift the gap sits at position `i`, holding `s[i]`. */
  lemma GapStart<T>(s: seq<T>, i: nat)
    requires i < |s|
    ensures s[..i][..i] == s[..i] && s[..i][i..] == []
    ensures s == s[..i][..i] + [s[i]] + s[..i][i..] + s[i + 1..]
  {
    assert s == s[..i] + [s[i]] + s[i + 1..];
  }

  /** Every element of `s` must come after `x`. */
  predicate AllFollow(s: seq<Institution>, x: Institution, st: SortState) {
    forall y :: y in s ==> Compare(y, x, st) > 0
  }

  /** Shifting an element that must follow `x` moves the gap one place left. */
  lemma ShiftStep(before: seq<Institution>, after: seq<Institution>, done: seq<Institution>, rest: seq<Institution>,
                  j: nat, x: Institution, st: SortState)
    requires 0 < j <= |done| && |before| == |done| + 1 + |rest|
    requires before == done[..j] + [before[j]] + done[j..] + rest
    requires AllFollow(done[j..], x, st) && Compare(before[j - 1], x, st) > 0
    requires after == before[j := before[j - 1]]
    ensures after == done[..j - 1] + [after[j - 1]] + done[j - 1..] + rest
    ensures AllFollow(done[j - 1..], x, st)
  {
    GapLeft(before, done, rest, j);
    assert done[j - 1..] == [done[j - 1]] + done[j..];
  }

  /** Dropping `x` into the gap completes the insertion. */
  lemma FillGap(before: seq<Institution>, done: seq<Institution>, rest: seq<Institution>, j: nat, x: Institution, st: SortState)
    requires j <= |done| && |before| == |done| + 1 + |rest|
    requires before == done[..j] + [before[j]] + done[j..] + rest
    requires j > 0 ==> Compare(before[j - 1], x, st) <= 0
    requires AllFollow(done[j..], x, st)
    ensures before[j := x] == Insert(done, x, st) + rest
  {
    if j > 0 {
      assert before[j - 1] == done[..j][j - 1] == done[j - 1];
    }
    forall k | j <= k < |done| ensures Compare(done[k], x, st) > 0 {
      assert done[k] == done[j..][k - j];
    }
    InsertAfterPrefix(done, x, j, st);
  }

  /**
   * One insertion step: shifts the elements of `a[..i]` that must follow
   * `a[i]` one place right and drops `a[i]` into the gap.
   */
  method InsertAt(a: array<Institution>, i: nat, st: SortState)
    requires i < a.Length
    modifies a
    ensures a[..] == Insert(old(a[..i]), old(a[i]), st) + old(a[i + 1..])
  {
    var x := a[i];
    ghost var done := a[..i];
    ghost var rest := a[i + 1..];
    GapStart(a[..], i);
    var j := i;
    while j > 0 && Compare(a[j - 1], x, st) > 0
      invariant 0 <= j <= i < a.Length
      invariant a[..] == done[..j] + [a[j]] + done[j..] + rest
      invariant AllFollow(done[j..], x, st)
    {
      ghost var before := a[..];
      a[j] := a[j - 1];
      ShiftStep(before, a[..], done, rest, j, x, st);
      j := j - 1;
    }
    ghost var before := a[..];
    a[j] := x;
    FillGap(before, done, rest, j, x, st);
  }

  /** One outer step of the insertion sort extends the sorted prefix by one element. */
  lemma SortStep(before: seq<Institution>, after: seq<Institution>, orig: seq<Institution>, i: nat, st: SortState)
    requires i < |orig| && |before| == |orig|
    requires before[..i] == Sorted(orig[..i], st) && before[i..] == orig[i..]
    requires after == Insert(before[..i], before[i], st) + before[i + 1..]
    ensures after[..i + 1] == Sorted(orig[..i + 1], st) && after[i + 1..] == orig[i + 1..]
  {
    assert before[i] == before[i..][0] == orig[i];
    assert orig[..i + 1][..i] == orig[..i];
    assert before[i + 1..] == before[i..][1..] == orig[i + 1..];
    var ins := Insert(before[..i], before[i], st);
    assert after[..i + 1] == ins && after[i + 1..] == before[i + 1..];
  }

  /**
   * Insertion sort of an array in place; the result is the reference stable
   * sort of the array's original contents.
   */
  method SortInPlace(a: array<Institution>, st: SortState)
    modifies a
    ensures a[..] == Sorted(old(a[..]), st)
  {
    ghost var orig := a[..];
    var i := 0;
    while i < a.Length
      invariant 0 <= i <= a.Length
      invariant a[..i] == Sorted(orig[..i], st)
      invariant a[i..] == orig[i..]
    {
      ghost var before := a[..];
      InsertAt(a, i, st);
      SortStep(before, a[..], orig, i, st);
      i := i + 1;
    }
    assert a[..] == a[..a.Length] && orig == orig[..a.Length];
  }
}
