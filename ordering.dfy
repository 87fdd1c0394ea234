/**
 * The table's sort state, the header-click state machine that changes it,
 * and the comparator the table sort uses.
 */
module Ordering {
  import opened Wrappers
  import opened Records

  /** Sort direction: the source's "asc" and "desc". */
  datatype Order = Asc | Desc

  /** The sort state: the active column key and its direction. */
  datatype SortState = SortState(key: string, order: Order)

  /** The state the table starts in: sorted by full-time undergraduates, descending. */
  const InitialSort: SortState := SortState("ftu", Desc)

  /** The other direction. */
  function Flip(o: Order): (r: Order)
    ensures r != o
  {
    if o == Asc then Desc else Asc
  }

  /**
   * `handleSort`: clicking the active column flips the direction; clicking
   * another column makes it active, descending.
   */
  function ClickHeader(st: SortState, key: string): (r: SortState)
    ensures r.key == key
    ensures st.key == key ==> r.order != st.order
    ensures st.key != key ==> r.order == Desc
  {
    if st.key == key then SortState(st.key, Flip(st.order)) else SortState(key, Desc)
  }

  /** Two clicks on the active column restore the state. */
  lemma ClickActiveTwice(st: SortState)
    ensures ClickHeader(ClickHeader(st, st.key), st.key) == st
  {
    assert Flip(Flip(st.order)) == st.order;
  }

  /**
   * From the initial state: one click on the name column sorts names
   * descending, a second click ascending, and a click on another column
   * makes that column active, descending.
   */
  lemma HeaderClickScenario()
    ensures ClickHeader(InitialSort, "name") == SortState("name", Desc)
    ensures ClickHeader(ClickHeader(InitialSort, "name"), "name") == SortState("name", Asc)
    ensures ClickHeader(ClickHeader(ClickHeader(InitialSort, "name"), "name"), "ptg") == SortState("ptg", Desc)
  {
  }

  /** A cell value as the comparator sees it: a string or a number. */
  datatype Value = Text(s: string) | Number(n: int)

  /**
   * `u[key]`: the record's property named `key`, or nothing when the record
   * has no such property (JavaScript's `undefined`).
   */
  function Lookup(u: Institution, key: string): (r: Option<Value>)
    ensures r.None? <==> key !in {"name", "ftu", "ftg", "ptu", "ptg"}
    ensures key == "name" ==> r == Some(Text(u.name))
    ensures forall f :: key == KeyOf(f) ==> r == Some(Number(Count(u, f)))
  {
    if key == "name" then Some(Text(u.name))
    else if key == "ftu" then Some(Number(u.ftu))
    else if key == "ftg" then Some(Number(u.ftg))
    else if key == "ptu" then Some(Number(u.ptu))
    else if key == "ptg" then Some(Number(u.ptg))
    else None
  }

  /** ASCII lowercasing of one character; every other character is kept. */
  function LowerChar(c: char): (r: char)
    ensures 'A' <= c <= 'Z' ==> r != c && 'a' <= r <= 'z'
    ensures 'A' <= c <= 'Z' ==> r as int - 'a' as int == c as int - 'A' as int
    ensures !('A' <= c <= 'Z') ==> r == c
    ensures !('A' <= r <= 'Z')
  {
    if 'A' <= c <= 'Z' then (c as int - 'A' as int + 'a' as int) as char else c
  }

  /** `toLowerCase`, restricted to ASCII letters. */
  function Lower(s: string): (r: string)
    ensures |r| == |s|
  {
    if s == [] then [] else [LowerChar(s[0])] + Lower(s[1..])
  }

  /** Lowercasing works character by character, so it leaves no ASCII capital. */
  lemma {:induction false} LowerAt(s: string, i: nat)
    requires i < |s|
    ensures Lower(s)[i] == LowerChar(s[i])
    ensures !('A' <= Lower(s)[i] <= 'Z')
  {
    if i > 0 {
      LowerAt(s[1..], i - 1);
    }
  }

  /**
   * JavaScript's `<` on strings: lexicographic order on characters, a proper
   * prefix coming first.
   */
  predicate StrLess(a: string, b: string)
    ensures StrLess(a, b) ==> a != b
    decreases |a|
  {
    if b == [] then false
    else if a == [] then true
    else if a[0] != b[0] then a[0] < b[0]
    else StrLess(a[1..], b[1..])
  }

  /** A proper prefix comes first. */
  lemma {:induction false} StrLessProperPrefix(a: string, b: string)
    requires |a| < |b| && a == b[..|a|]
    ensures StrLess(a, b)
    decreases |a|
  {
    if a != [] {
      assert a[0] == b[0];
      assert a[1..] == b[1..][..|a| - 1];
      StrLessProperPrefix(a[1..], b[1..]);
    }
  }

  /** `<` on strings is asymmetric. */
  lemma {:induction false} StrLessAsymmetric(a: string, b: string)
    requires StrLess(a, b)
    ensures !StrLess(b, a)
  {
    if a != [] && b != [] && a[0] == b[0] {
      StrLessAsymmetric(a[1..], b[1..]);
    }
  }

  /** `<` on strings is transitive. */
  lemma {:induction false} StrLessTransitive(a: string, b: string, c: string)
    requires StrLess(a, b) && StrLess(b, c)
    ensures StrLess(a, c)
    decreases |a|
  {
    if a != [] && a[0] == b[0] && b[0] == c[0] {
      StrLessTransitive(a[1..], b[1..], c[1..]);
    }
  }

  /** Two different strings are ordered one way or the other. */
  lemma {:induction false} StrLessTotal(a: string, b: string)
    requires a != b
    ensures StrLess(a, b) || StrLess(b, a)
    decreases |a|
  {
    if a != [] && b != [] && a[0] == b[0] {
      assert a == [a[0]] + a[1..] && b == [b[0]] + b[1..];
      StrLessTotal(a[1..], b[1..]);
    }
  }

  /** Strings that agree up to position `k` and differ there are ordered by that character. */
  lemma {:induction false} StrLessAtFirstDifference(a: string, b: string, k: nat)
    requires k < |a| && k < |b|
    requires a[..k] == b[..k] && a[k] < b[k]
    ensures StrLess(a, b)
  {
    if k > 0 {
      assert a[0] == a[..k][0] == b[..k][0] == b[0];
      assert a[1..][..k - 1] == a[..k][1..] == b[..k][1..] == b[1..][..k - 1];
      StrLessAtFirstDifference(a[1..], b[1..], k - 1);
    }
  }

  /** The comparator's `toLowerCase` step: applied to strings, numbers pass through. */
  function Folded(v: Value): (r: Value)
    ensures r.Text? <==> v.Text?
    ensures v.Number? ==> r == v
    ensures v.Text? ==> r.s == Lower(v.s) && |r.s| == |v.s|
  {
    match v
    case Text(s) => Text(Lower(s))
    case Number(n) => v
  }

  /** `<` between two comparator values of the same kind. */
  predicate Less(x: Value, y: Value)
    ensures Less(x, y) ==> x != y
    ensures Less(x, y) ==> (x.Text? <==> y.Text?)
  {
    match (x, y)
    case (Text(s), Text(t)) => StrLess(s, t)
    case (Number(m), Number(n)) => m < n
    case _ => false
  }

  /**
   * The table's comparator (negative: `a` first; positive: `b` first; zero:
   * keep their order). A missing value compares equal; strings compare
   * lowercased; descending order swaps the sign.
   */
  function Compare(a: Institution, b: Institution, st: SortState): (c: int)
    ensures -1 <= c <= 1
  {
    match (Lookup(a, st.key), Lookup(b, st.key))
    case (None, _) => 0
    case (_, None) => 0
    case (Some(va), Some(vb)) =>
      var x := Folded(va);
      var y := Folded(vb);
      if Less(x, y) then (if st.order == Asc then -1 else 1)
      else if Less(y, x) then (if st.order == Asc then 1 else -1)
      else 0
  }

  /**
   * On a count column the comparator compares the counts numerically:
   * equal counts tie, and ascending puts the smaller count first,
   * descending the larger.
   */
  lemma CompareCount(a: Institution, b: Institution, f: CountField, o: Order)
    ensures Compare(a, b, SortState(KeyOf(f), o)) ==
      if Count(a, f) == Count(b, f) then 0
      else if (Count(a, f) < Count(b, f)) == (o == Asc) then -1
      else 1
  {
    match f
    case Ftu =>
    case Ftg =>
    case Ptu =>
    case Ptg =>
  }

  /**
   * On the name column the comparator compares the lowercased names: they
   * tie exactly when the lowercased names are equal, and `a` comes first
   * exactly when its lowercased name is smaller (ascending) or larger
   * (descending).
   */
  lemma CompareName(a: Institution, b: Institution, o: Order)
    ensures Compare(a, b, SortState("name", o)) == 0 <==> Lower(a.name) == Lower(b.name)
    ensures Compare(a, b, SortState("name", o)) == -1 <==>
      if o == Asc then StrLess(Lower(a.name), Lower(b.name)) else StrLess(Lower(b.name), Lower(a.name))
  {
    var x, y := Lower(a.name), Lower(b.name);
    if x != y {
      StrLessTotal(x, y);
    }
    if StrLess(x, y) {
      StrLessAsymmetric(x, y);
    }
  }

  /** A key that is none of the five properties makes every pair compare equal. */
  lemma CompareMissingKey(a: Institution, b: Institution, st: SortState)
    requires st.key !in {"name", "ftu", "ftg", "ptu", "ptg"}
    ensures Compare(a, b, st) == 0
  {
  }

  /** The comparator is antisymmetric: swapping the arguments negates it. */
  lemma CompareAntisymmetric(a: Institution, b: Institution, st: SortState)
    ensures Compare(a, b, st) == -Compare(b, a, st)
  {
    if st.key == "name" {
      var x, y := Lower(a.name), Lower(b.name);
      if StrLess(x, y) { StrLessAsymmetric(x, y); }
    }
  }

  /** Descending order is ascending order with the sign swapped. */
  lemma CompareDescIsReversedAsc(a: Institution, b: Institution, key: string)
    ensures Compare(a, b, SortState(key, Desc)) == -Compare(a, b, SortState(key, Asc))
  {
    if key == "name" {
      var x, y := Lower(a.name), Lower(b.name);
      if StrLess(x, y) { StrLessAsymmetric(x, y); }
    }
  }

  /**
   * Ties are an equivalence: an element tied with `b` compares with everything
   * exactly as `b` does.
   */
  lemma CompareRespectsTies(a: Institution, b: Institution, c: Institution, st: SortState)
    requires Compare(b, c, st) == 0
    ensures Compare(a, b, st) == Compare(a, c, st)
  {
    if st.key == "name" {
      var y, z := Lower(b.name), Lower(c.name);
      if y != z { StrLessTotal(y, z); }
    }
  }

  /** "Comes no later than" is transitive. */
  lemma CompareTransitive(a: Institution, b: Institution, c: Institution, st: SortState)
    requires Compare(a, b, st) <= 0 && Compare(b, c, st) <= 0
    ensures Compare(a, c, st) <= 0
  {
    if Compare(b, c, st) == 0 {
      CompareRespectsTies(a, b, c, st);
    } else if Compare(a, b, st) == 0 {
      CompareAntisymmetric(a, b, st);
      CompareRespectsTies(c, b, a, st);
      CompareAntisymmetric(c, a, st);
      CompareAntisymmetric(c, b, st);
    } else if st.key == "name" {
      var x, y, z := Lower(a.name), Lower(b.name), Lower(c.name);
      if st.order == Asc {
        StrLessTransitive(x, y, z);
        StrLessAsymmetric(x, z);
      } else {
        StrLessTransitive(z, y, x);
        StrLessAsymmetric(z, x);
      }
    }
  }
}
