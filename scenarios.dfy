/**
 * End-to-end situations on the real dataset: the charts at start, the charts
 * after narrowing the selection, and the table after a click on the name
 * header.
 */
module Scenarios {
  import opened Records
  import opened Selection
  import opened Views
  import opened Ordering
  import opened Sorting
  import opened App

  /** With every dataset name ticked, as at start, the charts show every record. */
  lemma AllTickedViewIsDataset(d: Dashboard)
    requires forall u :: u in Data ==> u.name in d.selected
    ensures d.FilteredData() == Data
  {
    FilterAllSelected(Data, d.selected);
  }

  /** With every dataset name ticked, the pie has one slice per institution, in dataset order. */
  lemma AllTickedPie(d: Dashboard)
    requires forall u :: u in Data ==> u.name in d.selected
    ensures |d.PieData()| == |Data|
    ensures forall i :: 0 <= i < |Data| ==> d.PieData()[i] == Slice(Data[i].name, Count(Data[i], d.pieGroup))
  {
    FilterAllSelected(Data, d.selected);
  }

  /**
   * With every dataset name ticked and the pie on full-time undergraduates,
   * as at start, Dalhousie's slice is the largest.
   */
  lemma InitialPieLargestSliceIsDalhousie(d: Dashboard)
    requires forall u :: u in Data ==> u.name in d.selected
    requires d.pieGroup == Ftu
    ensures |d.PieData()| == |Data|
    ensures d.PieData()[2] == Slice("Dalhousie University", 14588)
    ensures forall i :: 0 <= i < |d.PieData()| ==> d.PieData()[i].value <= d.PieData()[2].value
  {
    AllTickedPie(d);
    DalhousieLargestFtu();
    var p := d.PieData();
    forall i | 0 <= i < |p|
      ensures p[i].value <= p[2].value
    {
      assert p[i].value == Data[i].ftu && p[2].value == Data[2].ftu;
    }
  }

  /** Dalhousie has the most full-time undergraduates of the dataset. */
  lemma DalhousieLargestFtu()
    ensures Data[2] == Dalhousie
    ensures forall i :: 0 <= i < |Data| ==> Data[i].ftu <= Data[2].ftu
  {
  }

  /** The two names left ticked in the narrowing scenario. */
  const AcadiaAndNscad: set<string> := {"Acadia University", "NSCAD University"}

  /** Acadia and NSCAD are both dataset names. */
  lemma AcadiaAndNscadNames()
    ensures NameSet(Data) * AcadiaAndNscad == AcadiaAndNscad
    ensures |AcadiaAndNscad| == 2
  {
    assert Acadia in Data && Nscad in Data;
    assert Acadia.name in NameSet(Data) && Nscad.name in NameSet(Data);
  }

  /** With only Acadia and NSCAD ticked, the filtered view's names are those two. */
  lemma TwoSelectedNames(d: Dashboard)
    requires (set n | n in d.selected) == AcadiaAndNscad
    ensures NameSet(Filter(Data, d.selected)) == AcadiaAndNscad
    ensures |Filter(Data, d.selected)| == 2
  {
    AcadiaAndNscadNames();
    FilterNames(Data, d.selected);
    DataNamesDistinct();
    FilterLength(Data, d.selected);
  }

  /**
   * With only Acadia and NSCAD ticked, each of the four bar clusters has two
   * bars, Acadia's and NSCAD's, and the pie has two slices.
   */
  lemma TwoSelectedGiveTwoBarsAndTwoSlices(d: Dashboard)
    requires (set n | n in d.selected) == AcadiaAndNscad
    ensures |d.BarData()| == 4
    ensures forall i :: 0 <= i < 4 ==> d.BarData()[i].bars.Keys == AcadiaAndNscad
    ensures forall i :: 0 <= i < 4 ==> |d.BarData()[i].bars| == 2
    ensures |d.PieData()| == 2
  {
    TwoSelectedNames(d);
    AcadiaAndNscadNames();
    var rows := d.BarData();
    forall i | 0 <= i < 4 ensures |rows[i].bars| == 2 {
      var keys := rows[i].bars.Keys;
      assert keys == AcadiaAndNscad;
      assert |rows[i].bars| == |keys|;
    }
  }

  /** With nothing ticked, every bar row holds only its label and the pie is empty. */
  lemma EmptySelectionLeavesOnlyLabels(d: Dashboard)
    requires d.selected == []
    ensures forall i :: 0 <= i < 4 ==> d.BarData()[i].group == Label(CountFields[i]) && d.BarData()[i].bars == map[]
    ensures d.PieData() == []
  {
    assert d.FilteredData() == [];
  }

  /**
   * Lowercased strings are ordered by the first position where they differ,
   * when they agree before it.
   */
  lemma LowerLessAt(a: string, b: string, k: nat)
    requires k < |a| && k < |b|
    requires a[..k] == b[..k] && LowerChar(a[k]) < LowerChar(b[k])
    ensures StrLess(Lower(a), Lower(b))
  {
    forall i | 0 <= i < k ensures Lower(a)[i] == Lower(b)[i] {
      LowerAt(a, i);
      LowerAt(b, i);
      assert a[i] == a[..k][i] == b[..k][i] == b[i];
    }
    assert Lower(a)[..k] == Lower(b)[..k];
    LowerAt(a, k);
    LowerAt(b, k);
    StrLessAtFirstDifference(Lower(a), Lower(b), k);
  }

  /**
   * Compared as the table compares names, "Université Sainte-Anne" comes
   * after every other institution: its first letter is the largest, and it
   * passes "University of King's College" where 'é' (U+00E9) meets 'y'.
   */
  lemma SainteAnneLastByName(u: Institution)
    requires u in Data && u != SainteAnne
    ensures StrLess(Lower(u.name), Lower(SainteAnne.name))
  {
    var s := SainteAnne.name;
    if u == KingsCollege {
      assert u.name[..9] == s[..9] == "Universit";
      LowerLessAt(u.name, s, 9);
    } else {
      assert u.name[..0] == s[..0];
      LowerLessAt(u.name, s, 0);
    }
  }

  /** Sorting by name descending, Sainte-Anne is compared before every other institution. */
  lemma SainteAnneFirstDescending(u: Institution)
    requires u in Data && u != SainteAnne
    ensures Compare(SainteAnne, u, SortState("name", Desc)) == -1
  {
    SainteAnneLastByName(u);
    StrLessAsymmetric(Lower(u.name), Lower(SainteAnne.name));
  }

  /**
   * One click on the name header from the initial state sorts the table by
   * name descending, and its first row is "Université Sainte-Anne".
   */
  lemma NameClickPutsSainteAnneFirst()
    ensures ClickHeader(InitialSort, "name") == SortState("name", Desc)
    ensures |Sorted(Data, ClickHeader(InitialSort, "name"))| == |Data|
    ensures Sorted(Data, ClickHeader(InitialSort, "name"))[0] == SainteAnne
  {
    var st := SortState("name", Desc);
    assert SainteAnne in Data;
    forall u | u in Data && u != SainteAnne ensures Compare(SainteAnne, u, st) < 0 {
      SainteAnneFirstDescending(u);
    }
    LeastComesFirst(Data, SainteAnne, st);
  }
}
