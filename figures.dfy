/** What the two MultiRegionFigure classes share: the slot list of labelled
    regions, and what one call of draw_figure paints. Painting a layer is
    `imshow(palette[k * mask])`: every cell looks up palette[k] where the mask
    is set and palette[0] elsewhere. */
module Figures {
  import opened Wrappers
  import opened DifferentialPrivacy
  import opened Raster

  /** `(constraints, label)`, the value add_region stores in a slot; `label`
      is a Dafny keyword, so the label is called name here. */
  datatype LabelledRegion = LabelledRegion(region: Region, name: string)

  /** A slot of `_labelled_regions`; None is the `_TO_REMOVE` tombstone. */
  type Slot = Option<LabelledRegion>

  /** One imshow call: the mask and the palette index painted where it is set. */
  datatype Layer = Layer(mask: Mask, name: string, colour: int)

  /** One legend patch: a label (its name) and the palette index of its colour. */
  datatype LegendEntry = LegendEntry(name: string, colour: int)

  /** The layers in painting order, and the legend when one is drawn. */
  datatype Drawing = Drawing(layers: seq<Layer>, legend: Option<seq<LegendEntry>>)

  /** `palette[k * mask]` on a palette of n entries stays in bounds: every
      index it looks up, k on set cells and 0 elsewhere, is below n. */
  predicate LookupOk(mask: Mask, k: nat, n: nat)
  {
    forall r, c :: 0 <= r < |mask| && 0 <= c < |mask[r]| ==> (if mask[r][c] then k else 0) < n
  }

  /** `(idx + 1) % len(palette)`: the colour of layer idx. */
  function LayerColour(idx: nat, n: nat): (k: nat)
    requires n > 0
    ensures k < n
    ensures k == 0 <==> (idx + 1) % n == 0
  {
    (idx + 1) % n
  }

  /** The legend patches of the labels: label i gets colour LayerColour(i). */
  function Legend(labels: seq<string>, n: nat): (legend: seq<LegendEntry>)
    requires n > 0 || |labels| == 0
    ensures |legend| == |labels|
  {
    seq(|labels|, i requires 0 <= i < |labels| => LegendEntry(labels[i], LayerColour(i, n)))
  }

  /** Layer colours taken modulo the palette length never leave the palette,
      so painting any mask with them succeeds. */
  lemma LayerColourLookupOk(mask: Mask, idx: nat, n: nat)
    requires n > 0
    ensures LookupOk(mask, LayerColour(idx, n), n)
  {
  }

  /** With the default 16-entry palette, the colour of layer idx is transparent
      exactly for idx = 15, 31, 47, ... */
  lemma {:induction false} TransparentEvery16(idx: nat)
    ensures LayerColour(idx, 16) == 0 <==> idx % 16 == 15
  {
    assert (idx + 1) % 16 == (idx % 16 + 1) % 16 by {
      var q := idx / 16;
      assert idx == 16 * q + idx % 16;
      assert idx + 1 == 16 * q + (idx % 16 + 1);
    }
  }

  /** Painting a layer whose mask has a set cell with colour k needs k to be a
      palette index. */
  lemma {:induction false} LookupNeedsColour(mask: Mask, k: nat, n: nat, r: nat, c: nat)
    requires r < |mask| && c < |mask[r]| && mask[r][c]
    ensures LookupOk(mask, k, n) ==> k < n
  {
  }
}
