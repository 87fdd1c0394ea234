/**
 * The selection list: the names currently shown in the charts, and the
 * checkbox toggle that adds or removes one name.
 */
module Selection {
  import opened Records

  /** `sel` with every occurrence of `name` removed (the source's `prev.filter((n) => n !== name)`). */
  function Without(sel: seq<string>, name: string): (r: seq<string>)
    ensures |r| <= |sel|
    ensures forall n :: n in r <==> n in sel && n != name
  {
    if sel == [] then []
    else (if sel[0] == name then [] else [sel[0]]) + Without(sel[1..], name)
  }

  /** `handleChange`: a selected name is removed, any other name is appended at the end. */
  function Toggled(sel: seq<string>, name: string): (r: seq<string>)
    ensures name in r <==> name !in sel
    ensures forall n :: n != name ==> (n in r <==> n in sel)
    ensures name !in sel ==> r == sel + [name]
  {
    if name in sel then Without(sel, name) else sel + [name]
  }

  /** The names of the dataset are the names a checkbox can toggle. */
  ghost predicate WithinDataset(sel: seq<string>) {
    forall n :: n in sel ==> n in Names(Data)
  }

  /** The session invariant on the selection list. */
  ghost predicate ValidSelection(sel: seq<string>) {
    NoDup(sel) && WithinDataset(sel)
  }

  /** Removing a name that is absent changes nothing. */
  lemma {:induction false} WithoutAbsent(sel: seq<string>, name: string)
    requires name !in sel
    ensures Without(sel, name) == sel
  {
    if sel != [] {
      WithoutAbsent(sel[1..], name);
      assert sel == [sel[0]] + sel[1..];
    }
  }

  /** Removal distributes over concatenation. */
  lemma {:induction false} WithoutAppend(a: seq<string>, b: seq<string>, name: string)
    ensures Without(a + b, name) == Without(a, name) + Without(b, name)
  {
    if a != [] {
      assert (a + b)[1..] == a[1..] + b;
      WithoutAppend(a[1..], b, name);
    } else {
      assert a + b == b;
    }
  }

  /** Removing a name leaves a duplicate-free list duplicate-free. */
  lemma {:induction false} WithoutNoDup(sel: seq<string>, name: string)
    requires NoDup(sel)
    ensures NoDup(Without(sel, name))
  {
    if sel != [] {
      WithoutNoDup(sel[1..], name);
      assert sel[0] !in sel[1..] by {
        forall k | 0 <= k < |sel[1..]| ensures sel[1..][k] != sel[0] {
          assert sel[1..][k] == sel[k + 1];
        }
      }
    }
  }

  /**
   * Toggling `name` leaves the other names in the same relative order:
   * with `name` set aside, the list is unchanged.
   */
  lemma ToggleKeepsOthersInOrder(sel: seq<string>, name: string)
    ensures Without(Toggled(sel, name), name) == Without(sel, name)
  {
    if name in sel {
      WithoutAbsent(Without(sel, name), name);
    } else {
      WithoutAppend(sel, [name], name);
      assert Without([name], name) == [];
    }
  }

  /** Toggling never introduces a duplicate. */
  lemma ToggleKeepsNoDup(sel: seq<string>, name: string)
    requires NoDup(sel)
    ensures NoDup(Toggled(sel, name))
  {
    if name in sel {
      WithoutNoDup(sel, name);
    }
  }

  /** Toggling a name that is not selected and toggling it again restores the list exactly. */
  lemma ToggleTwiceRestoresUnselected(sel: seq<string>, name: string)
    requires name !in sel
    ensures Toggled(Toggled(sel, name), name) == sel
  {
    WithoutAppend(sel, [name], name);
    WithoutAbsent(sel, name);
    assert Without([name], name) == [];
  }

  /** The selection after a session of checkbox clicks, in click order; a name never clicked keeps its membership. */
  function ToggleAll(sel: seq<string>, clicks: seq<string>): (r: seq<string>)
    ensures forall n :: n !in clicks ==> (n in r <==> n in sel)
    decreases |clicks|
  {
    if clicks == [] then sel else ToggleAll(Toggled(sel, clicks[0]), clicks[1..])
  }

  /** The initial selection: every dataset name, in dataset order. */
  function InitialSelection(): (r: seq<string>)
    ensures ValidSelection(r)
    ensures forall i :: 0 <= i < |Data| ==> Data[i].name in r
  {
    DataNamesDistinct();
    Names(Data)
  }

  /**
   * Clicking only dataset checkboxes, from any valid selection (the initial one
   * in particular), keeps the list duplicate-free and within the dataset.
   */
  lemma {:induction false} SessionKeepsSelectionValid(sel: seq<string>, clicks: seq<string>)
    requires ValidSelection(sel)
    requires forall c :: c in clicks ==> c in Names(Data)
    ensures ValidSelection(ToggleAll(sel, clicks))
    decreases |clicks|
  {
    if clicks != [] {
      ToggleKeepsNoDup(sel, clicks[0]);
      assert forall c :: c in clicks[1..] ==> c in clicks;
      SessionKeepsSelectionValid(Toggled(sel, clicks[0]), clicks[1..]);
    }
  }
}
