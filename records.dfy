/** Option type used for property lookups that may find nothing. */
module Wrappers {
  datatype Option<+T> = None | Some(value: T)
}

/**
 * The dashboard's fixed dataset: nine Nova Scotia universities, each with
 * four enrollment headcounts (full-time/part-time x undergraduate/graduate).
 */
module Records {

  /** One institution record; the four counts are non-negative headcounts. */
  datatype Institution = Institution(name: string, ftu: nat, ftg: nat, ptu: nat, ptg: nat)

  /** The four count fields, which are also the four pie groups. */
  datatype CountField = Ftu | Ftg | Ptu | Ptg

  /** The count fields in the order the bar chart and the radio buttons list them. */
  const CountFields: seq<CountField> := [Ftu, Ftg, Ptu, Ptg]

  /** The pie-group radio buttons: each count field's property key and label, in display order. */
  const PieGroups: seq<(string, string)> := [
    ("ftu", "Full Time Undergraduate"),
    ("ftg", "Full Time Graduate"),
    ("ptu", "Part Time Undergraduate"),
    ("ptg", "Part Time Graduate")
  ]

  /** The value of field `f` of record `u` (the source's `u[f]`). */
  function Count(u: Institution, f: CountField): (n: nat)
    ensures forall i :: 0 <= i < |CountFields| && CountFields[i] == f ==> n == [u.ftu, u.ftg, u.ptu, u.ptg][i]
  {
    match f
    case Ftu => u.ftu
    case Ftg => u.ftg
    case Ptu => u.ptu
    case Ptg => u.ptg
  }

  /** The property name under which the source stores field `f`. */
  function KeyOf(f: CountField): (k: string)
    ensures forall i :: 0 <= i < |CountFields| && CountFields[i] == f ==> PieGroups[i].0 == k
  {
    match f
    case Ftu => "ftu"
    case Ftg => "ftg"
    case Ptu => "ptu"
    case Ptg => "ptg"
  }

  /** Different count fields are stored under different keys. */
  lemma KeyOfInjective(f: CountField, g: CountField)
    requires KeyOf(f) == KeyOf(g)
    ensures f == g
  {
  }

  /**
   * The label of a count field on the bar chart's groups. It is the label the
   * pie-group radio button of the same key shows.
   */
  function Label(f: CountField): (l: string)
    ensures forall i :: 0 <= i < |CountFields| && CountFields[i] == f ==> PieGroups[i] == (KeyOf(f), l)
  {
    match f
    case Ftu => "Full Time Undergraduate"
    case Ftg => "Full Time Graduate"
    case Ptu => "Part Time Undergraduate"
    case Ptg => "Part Time Graduate"
  }

  const Acadia := Institution("Acadia University", 3680, 146, 330, 314)
  const CapeBreton := Institution("Cape Breton University", 7148, 304, 451, 142)
  const Dalhousie := Institution("Dalhousie University", 14588, 4060, 1624, 740)
  const MountSaintVincent := Institution("Mount Saint Vincent University", 2418, 193, 482, 743)
  const Nscad := Institution("NSCAD University", 590, 51, 195, 13)
  const SaintMarys := Institution("Saint Mary's University", 4838, 612, 400, 121)
  const StFrancisXavier := Institution("St. Francis Xavier University", 3872, 115, 454, 641)
  const SainteAnne := Institution("Université Sainte-Anne", 489, 10, 39, 22)
  const KingsCollege := Institution("University of King's College", 877, 115, 26, 0)

  /** The dataset, in the order the source declares it. */
  const Data: seq<Institution> := [
    Acadia, CapeBreton, Dalhousie, MountSaintVincent, Nscad,
    SaintMarys, StFrancisXavier, SainteAnne, KingsCollege
  ]

  /** The names of a sequence of records, in order (the source's `data.map((d) => d.name)`). */
  function Names(s: seq<Institution>): (r: seq<string>)
    ensures |r| == |s|
    ensures forall i :: 0 <= i < |s| ==> r[i] == s[i].name
  {
    if s == [] then [] else [s[0].name] + Names(s[1..])
  }

  /** No value occurs twice in `s`. */
  predicate NoDup<T(==)>(s: seq<T>) {
    forall i, j :: 0 <= i < j < |s| ==> s[i] != s[j]
  }

  /** No two records of `s` share a name, so a name identifies a record. */
  predicate DistinctNames(s: seq<Institution>) {
    forall i, j :: 0 <= i < j < |s| ==> s[i].name != s[j].name
  }

  /** A name's first character and length folded into one number; different numbers mean different names. */
  function Tag(name: string): nat {
    if name == [] then 0 else (name[0] as nat) * 1000 + |name|
  }

  /** Tags that increase from each record to the next increase across any two records. */
  lemma {:induction false} TagsIncrease(s: seq<Institution>, i: nat, j: nat)
    requires forall k :: 0 <= k < |s| - 1 ==> Tag(s[k].name) < Tag(s[k + 1].name)
    requires i < j < |s|
    ensures Tag(s[i].name) < Tag(s[j].name)
    decreases j - i
  {
    if i + 1 < j {
      TagsIncrease(s, i + 1, j);
    }
  }

  /** The dataset's names identify its records: their tags increase along the dataset. */
  lemma DataNamesDistinct()
    ensures NoDup(Names(Data)) && DistinctNames(Data)
  {
    forall k | 0 <= k < |Data| - 1 ensures Tag(Data[k].name) < Tag(Data[k + 1].name) {
    }
    forall i, j | 0 <= i < j < |Data| ensures Data[i].name != Data[j].name {
      TagsIncrease(Data, i, j);
    }
  }
}
