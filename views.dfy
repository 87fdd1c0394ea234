/**
 * The derived views the charts draw: the selected records, the bar chart's
 * field-major pivot, and the pie chart's projection onto one count field.
 */
module Views {
  import opened Records

  /** `a` can be obtained from `b` by deleting elements, keeping the rest in order. */
  ghost predicate IsSubsequence<T>(a: seq<T>, b: seq<T>)
    decreases |b|
  {
    a == [] || (b != [] && ((a[0] == b[0] && IsSubsequence(a[1..], b[1..])) || IsSubsequence(a, b[1..])))
  }

  /** The records of `data` whose name is selected (the source's `filteredData`). */
  function Filter(data: seq<Institution>, sel: seq<string>): (r: seq<Institution>)
    ensures |r| <= |data|
    ensures forall u :: u in r <==> u in data && u.name in sel
  {
    if data == [] then []
    else (if data[0].name in sel then [data[0]] else []) + Filter(data[1..], sel)
  }

  /** The filtered records keep the dataset's order: they form a subsequence of it. */
  lemma {:induction false} FilterIsSubsequence(data: seq<Institution>, sel: seq<string>)
    ensures IsSubsequence(Filter(data, sel), data)
  {
    if data != [] {
      FilterIsSubsequence(data[1..], sel);
      var r := Filter(data, sel);
      if data[0].name in sel {
        assert r[0] == data[0] && r[1..] == Filter(data[1..], sel);
      } else {
        assert r == Filter(data[1..], sel);
      }
    }
  }

  /** With every record's name selected, the filtered view is the whole dataset. */
  lemma {:induction false} FilterAllSelected(data: seq<Institution>, sel: seq<string>)
    requires forall u :: u in data ==> u.name in sel
    ensures Filter(data, sel) == data
  {
    if data != [] {
      FilterAllSelected(data[1..], sel);
      assert data == [data[0]] + data[1..];
    }
  }

  /** A name-identified record's name does not recur later in the sequence. */
  lemma HeadNameFresh(data: seq<Institution>, v: Institution)
    requires data != [] && DistinctNames(data)
    requires v in data[1..]
    ensures v.name != data[0].name
  {
    var k :| 0 <= k < |data[1..]| && data[1..][k] == v;
    assert data[k + 1] == v;
  }

  /** The filtered view of a dataset with distinct names has distinct names. */
  lemma {:induction false} FilterNamesDistinct(data: seq<Institution>, sel: seq<string>)
    requires DistinctNames(data)
    ensures DistinctNames(Filter(data, sel))
  {
    if data != [] {
      var rest := Filter(data[1..], sel);
      FilterNamesDistinct(data[1..], sel);
      if data[0].name in sel {
        var r := Filter(data, sel);
        assert r == [data[0]] + rest;
        forall i, j | 0 <= i < j < |r| ensures r[i].name != r[j].name {
          assert r[j] == rest[j - 1];
          if i == 0 {
            HeadNameFresh(data, r[j]);
          } else {
            assert r[i] == rest[i - 1];
          }
        }
      }
    }
  }

  /** The set of names of a sequence of records. */
  function NameSet(s: seq<Institution>): set<string> {
    set u | u in s :: u.name
  }

  /** Adding a fresh element to a set adds one to its intersection with `chosen` exactly when it is chosen. */
  lemma IntersectAddFresh(x: string, names: set<string>, chosen: set<string>)
    requires x !in names
    ensures |({x} + names) * chosen| == |names * chosen| + (if x in chosen then 1 else 0)
  {
    var left := {x} * chosen;
    assert ({x} + names) * chosen == left + names * chosen;
    assert left !! names * chosen;
    if x in chosen { assert left == {x}; } else { assert left == {}; }
  }

  /** The names of a non-empty sequence: the first one and the names of the rest. */
  lemma NameSetCons(data: seq<Institution>)
    requires data != [] && DistinctNames(data)
    ensures NameSet(data) == {data[0].name} + NameSet(data[1..])
    ensures data[0].name !in NameSet(data[1..])
  {
    assert data == [data[0]] + data[1..];
    forall v | v in data[1..] ensures v.name != data[0].name {
      HeadNameFresh(data, v);
    }
  }

  /**
   * When names identify records, the filtered view holds one record per
   * selected dataset name.
   */
  lemma {:induction false} FilterLength(data: seq<Institution>, sel: seq<string>)
    requires DistinctNames(data)
    ensures |Filter(data, sel)| == |NameSet(data) * (set n | n in sel)|
  {
    if data == [] {
      assert NameSet(data) == {};
    } else {
      var rest := data[1..];
      assert DistinctNames(rest) by {
        forall i, j | 0 <= i < j < |rest| ensures rest[i].name != rest[j].name {
          assert rest[i] == data[i + 1] && rest[j] == data[j + 1];
        }
      }
      FilterLength(rest, sel);
      NameSetCons(data);
      IntersectAddFresh(data[0].name, NameSet(rest), set n | n in sel);
    }
  }

  /** The names in the filtered view are exactly the selected names that occur in the data. */
  lemma FilterNames(data: seq<Institution>, sel: seq<string>)
    ensures NameSet(Filter(data, sel)) == NameSet(data) * (set n | n in sel)
  {
    var r := Filter(data, sel);
    forall n | n in NameSet(data) * (set n | n in sel) ensures n in NameSet(r) {
      var u :| u in data && u.name == n;
      assert u in r;
    }
  }

  /** One bar-chart row: a group label and one bar per filtered institution. */
  datatype BarRow = BarRow(group: string, bars: map<string, nat>)

  /**
   * `Object.fromEntries(filtered.map((u) => [u.name, u[f]]))`: entries are
   * added left to right, so a later record with the same name would win.
   */
  function Column(filtered: seq<Institution>, f: CountField): (m: map<string, nat>)
    ensures m.Keys == NameSet(filtered)
  {
    if filtered == [] then map[]
    else
      var last := filtered[|filtered| - 1];
      assert filtered == filtered[..|filtered| - 1] + [last];
      Column(filtered[..|filtered| - 1], f)[last.name := Count(last, f)]
  }

  /** With distinct names, each filtered record's bar shows its own count. */
  lemma {:induction false} ColumnAt(filtered: seq<Institution>, f: CountField, u: Institution)
    requires DistinctNames(filtered)
    requires u in filtered
    ensures u.name in Column(filtered, f) && Column(filtered, f)[u.name] == Count(u, f)
  {
    var n := |filtered|;
    var last := filtered[n - 1];
    var init := filtered[..n - 1];
    if u != last {
      var k :| 0 <= k < n && filtered[k] == u;
      assert k < n - 1 && init[k] == u;
      assert DistinctNames(init) by {
        forall i, j | 0 <= i < j < |init| ensures init[i].name != init[j].name {
          assert init[i] == filtered[i] && init[j] == filtered[j];
        }
      }
      ColumnAt(init, f, u);
    }
  }

  /** `barData`: the filtered records transposed into one row per count field. */
  function Pivot(filtered: seq<Institution>): (rows: seq<BarRow>)
    ensures |rows| == |CountFields|
    ensures forall i :: 0 <= i < |rows| ==>
      rows[i].group == Label(CountFields[i]) && rows[i].bars.Keys == NameSet(filtered)
  {
    [ BarRow(Label(Ftu), Column(filtered, Ftu)),
      BarRow(Label(Ftg), Column(filtered, Ftg)),
      BarRow(Label(Ptu), Column(filtered, Ptu)),
      BarRow(Label(Ptg), Column(filtered, Ptg)) ]
  }

  /** The index of a count field among the bar chart's rows. */
  function RowOf(g: CountField): (i: nat)
    ensures i < |CountFields| && CountFields[i] == g
  {
    match g
    case Ftu => 0
    case Ftg => 1
    case Ptu => 2
    case Ptg => 3
  }

  /**
   * The pivot is a transpose: in the row of count field `f`, the bar named
   * after record `u` holds `u`'s value of `f`.
   */
  lemma PivotIsTranspose(filtered: seq<Institution>, u: Institution, f: CountField)
    requires DistinctNames(filtered)
    requires u in filtered
    ensures u.name in Pivot(filtered)[RowOf(f)].bars
    ensures Pivot(filtered)[RowOf(f)].bars[u.name] == Count(u, f)
  {
    var rows := Pivot(filtered);
    assert rows[RowOf(f)] == BarRow(Label(f), Column(filtered, f)) by {
      match f
      case Ftu => assert rows[0] == BarRow(Label(Ftu), Column(filtered, Ftu));
      case Ftg => assert rows[1] == BarRow(Label(Ftg), Column(filtered, Ftg));
      case Ptu => assert rows[2] == BarRow(Label(Ptu), Column(filtered, Ptu));
      case Ptg => assert rows[3] == BarRow(Label(Ptg), Column(filtered, Ptg));
    }
    ColumnAt(filtered, f, u);
  }

  /** One pie slice: an institution's name and its value in the chosen dimension. */
  datatype Slice = Slice(name: string, value: nat)

  /** `pieData`: the filtered records projected onto count field `g`, one slice each. */
  function PieProject(filtered: seq<Institution>, g: CountField): (r: seq<Slice>)
    ensures |r| == |filtered|
  {
    if filtered == [] then []
    else [Slice(filtered[0].name, Count(filtered[0], g))] + PieProject(filtered[1..], g)
  }

  /** Slice `i` is record `i` of the filtered view, valued in dimension `g`. */
  lemma {:induction false} PieProjectAt(filtered: seq<Institution>, g: CountField, i: nat)
    requires i < |filtered|
    ensures PieProject(filtered, g)[i] == Slice(filtered[i].name, Count(filtered[i], g))
  {
    if i > 0 {
      PieProjectAt(filtered[1..], g, i - 1);
    }
  }

  /**
   * The pie chart and the bar chart agree: slice `i` is named after the
   * `i`-th filtered record, and its value is the bar the pivot shows for that
   * institution in the pie's dimension.
   */
  lemma PieAgreesWithBars(filtered: seq<Institution>, g: CountField, i: nat)
    requires DistinctNames(filtered)
    requires i < |filtered|
    ensures PieProject(filtered, g)[i].name == Names(filtered)[i]
    ensures PieProject(filtered, g)[i].name in Pivot(filtered)[RowOf(g)].bars
    ensures Pivot(filtered)[RowOf(g)].bars[PieProject(filtered, g)[i].name] == PieProject(filtered, g)[i].value
  {
    PieProjectAt(filtered, g, i);
    PivotIsTranspose(filtered, filtered[i], g);
  }
}
