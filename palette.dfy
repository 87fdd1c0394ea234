/**
 * Chart colours: a fixed nine-colour palette, assigned by rendered position
 * (`colors[idx % colors.length]`), so that positions cycle through it.
 */
module Palette {
  import opened Records

  /** The palette, in the order the source lists it. */
  const Colors: seq<string> := [
    "#8884d8", "#82ca9d", "#ffc658", "#ff8042", "#a4de6c",
    "#d0ed57", "#8dd1e1", "#83a6ed", "#8e4585"
  ]

  /** `idx % colors.length` for a rendered position `idx` (never negative). */
  function ColorIndex(idx: nat): (k: nat)
    ensures k < |Colors|
    ensures (idx - k) % |Colors| == 0
    ensures idx < |Colors| ==> k == idx
  {
    idx % |Colors|
  }

  /** The colour of the series or row rendered at position `idx`. */
  function ColorFor(idx: nat): (c: string)
    ensures c in Colors
  {
    Colors[ColorIndex(idx)]
  }

  /** Positions one palette length apart get the same colour. */
  lemma ColorsCycle(idx: nat)
    ensures ColorFor(idx + |Colors|) == ColorFor(idx)
  {
    assert (idx + |Colors|) % |Colors| == idx % |Colors|;
  }

  /** The palette has no repeated colour. */
  lemma PaletteDistinct()
    ensures NoDup(Colors)
  {
  }

  /** Fewer than ten consecutive positions all get different colours. */
  lemma ColorsDistinctWithinCycle(i: nat, j: nat)
    requires i < j < i + |Colors|
    ensures ColorFor(i) != ColorFor(j)
  {
    PaletteDistinct();
    var n := |Colors|;
    assert ColorIndex(i) != ColorIndex(j) by {
      var q, r := i / n, i % n;
      assert i == q * n + r;
      if r + (j - i) < n {
        assert j == q * n + (r + (j - i));
        assert j % n == r + (j - i);
      } else {
        assert j == (q + 1) * n + (r + (j - i) - n);
        assert j % n == r + (j - i) - n;
      }
    }
  }
}
