/**
 * The dashboard component's session state and its transitions: the selection
 * list, the pie dimension and the table's sort state, with the views derived
 * from them.
 */
module App {
  import opened Records
  import opened Selection
  import opened Views
  import opened Ordering
  import opened Sorting

  /** The arrow a column header shows: filled on the active column, hollow elsewhere. */
  datatype Arrow = FilledUp | FilledDown | HollowUp | HollowDown

  class Dashboard {
    /** Names whose checkbox is ticked, in the order they were (re)added. */
    var selected: seq<string>
    /** The count field the pie chart shows. */
    var pieGroup: CountField
    /** The table's active column key. */
    var sortKey: string
    /** The table's sort direction. */
    var sortOrder: Order

    /** The selection holds each dataset name at most once and nothing else. */
    ghost predicate Valid()
      reads this
    {
      ValidSelection(selected)
    }

    /** The sort state as one value. */
    function Sort(): SortState
      reads this
    {
      SortState(sortKey, sortOrder)
    }

    /** The defaults: every name selected, pie on full-time undergraduates, table by that column descending. */
    constructor ()
      ensures selected == InitialSelection() && pieGroup == Ftu
      ensures Sort() == InitialSort
      ensures Valid()
    {
      selected := InitialSelection();
      pieGroup := Ftu;
      sortKey := "ftu";
      sortOrder := Desc;
    }

    /** `handleChange`: a checkbox click toggles one name. */
    method HandleChange(name: string)
      modifies this`selected
      ensures selected == Toggled(old(selected), name)
      ensures old(Valid()) && name in Names(Data) ==> Valid()
    {
      ghost var wasValid := Valid();
      if wasValid {
        ToggleKeepsNoDup(selected, name);
      }
      selected := Toggled(selected, name);
    }

    /** `handleSort`: a header click. */
    method HandleSort(key: string)
      modifies this`sortKey, this`sortOrder
      ensures Sort() == ClickHeader(old(Sort()), key)
    {
      if sortKey == key {
        sortOrder := if sortOrder == Asc then Desc else Asc;
      } else {
        sortKey := key;
        sortOrder := Desc;
      }
    }

    /** The pie-dimension radio buttons. */
    method SetPieGroup(g: CountField)
      modifies this`pieGroup
      ensures pieGroup == g
    {
      pieGroup := g;
    }

    /**
     * `filteredData`: the selected records in dataset order, one per selected
     * dataset name.
     */
    function FilteredData(): (r: seq<Institution>)
      reads this
      ensures forall u :: u in r <==> u in Data && u.name in selected
      ensures IsSubsequence(r, Data)
      ensures DistinctNames(r)
      ensures |r| == |NameSet(Data) * (set n | n in selected)|
    {
      DataNamesDistinct();
      FilterIsSubsequence(Data, selected);
      FilterNamesDistinct(Data, selected);
      FilterLength(Data, selected);
      Filter(Data, selected)
    }

    /** `barData`: four rows, one per count field, each with one bar per selected record. */
    function BarData(): (rows: seq<BarRow>)
      reads this
      ensures |rows| == 4
      ensures forall i :: 0 <= i < 4 ==> rows[i].group == Label(CountFields[i])
      ensures forall i :: 0 <= i < 4 ==> rows[i].bars.Keys == NameSet(Filter(Data, selected))
    {
      Pivot(FilteredData())
    }

    /** `pieData`: one slice per selected record, valued in the current pie dimension. */
    function PieData(): (r: seq<Slice>)
      reads this
      ensures |r| == |Filter(Data, selected)|
      ensures forall i :: 0 <= i < |r| ==>
        r[i].name == Filter(Data, selected)[i].name && r[i].value == Count(Filter(Data, selected)[i], pieGroup)
    {
      var filtered := FilteredData();
      forall i | 0 <= i < |filtered|
        ensures PieProject(filtered, pieGroup)[i] == Slice(filtered[i].name, Count(filtered[i], pieGroup))
      {
        PieProjectAt(filtered, pieGroup, i);
      }
      PieProject(filtered, pieGroup)
    }

    /**
     * `sortedData`: a sorted copy of the dataset. It is a permutation of the
     * dataset, ordered under the comparator, and stable.
     */
    method SortedData() returns (rows: seq<Institution>)
      ensures rows == Sorted(Data, Sort())
      ensures multiset(rows) == multiset(Data)
      ensures Ordered(rows, Sort())
      ensures forall p :: Tied(rows, p, Sort()) == Tied(Data, p, Sort())
    {
      var a := new Institution[|Data|](i requires 0 <= i < |Data| => Data[i]);
      assert a[..] == Data;
      SortInPlace(a, Sort());
      rows := a[..];
      SortedIsPermutation(Data, Sort());
      SortedIsOrdered(Data, Sort());
      forall p ensures Tied(rows, p, Sort()) == Tied(Data, p, Sort()) {
        SortedIsStable(Data, p, Sort());
      }
    }

    /** `renderArrow`: the arrow of column `key`. */
    function ArrowFor(key: string): (r: Arrow)
      reads this
      ensures (r == FilledUp || r == FilledDown) <==> key == sortKey
      ensures (r == FilledUp || r == HollowUp) <==> sortOrder == Asc
    {
      if sortKey == key then (if sortOrder == Asc then FilledUp else FilledDown)
      else (if sortOrder == Asc then HollowUp else HollowDown)
    }
  }

  /**
   * The bar chart is the transpose of the selected records: in the row of
   * count field `f`, the bar named after a selected record holds that
   * record's value of `f`.
   */
  lemma BarDataIsTranspose(d: Dashboard, u: Institution, f: CountField)
    requires u in Data && u.name in d.selected
    ensures u.name in d.BarData()[RowOf(f)].bars
    ensures d.BarData()[RowOf(f)].bars[u.name] == Count(u, f)
  {
    DataNamesDistinct();
    FilterNamesDistinct(Data, d.selected);
    PivotIsTranspose(Filter(Data, d.selected), u, f);
  }
}
