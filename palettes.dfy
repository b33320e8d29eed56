/** The colour-blind palette of src/gui/palettes.py and src/graphical/palettes.py
    (the two files build the same list). Entry 0 is transparent and is what a
    figure paints where a layer's mask is not set. */
module Palettes {

  /** One RGBA colour, each channel an integer in [0, 255]. */
  datatype Rgba = Rgba(r: int, g: int, b: int, a: int)

  const Opaque := 255

  predicate IsChannel(x: int)
  {
    0 <= x <= 255
  }

  predicate IsColour(c: Rgba)
  {
    IsChannel(c.r) && IsChannel(c.g) && IsChannel(c.b) && IsChannel(c.a)
  }

  /** The opaque colour whose RGB channels are 255 minus those of c. */
  function Complement(c: Rgba): Rgba
  {
    Rgba(255 - c.r, 255 - c.g, 255 - c.b, Opaque)
  }

  /** The nine literal entries of the palette: transparent white, the eight
      colours of the colour-blind set, black last. */
  const BaseColours: seq<Rgba> := [
    Rgba(255, 255, 255, 0),
    Rgba(230, 159, 0, Opaque),
    Rgba(86, 180, 233, Opaque),
    Rgba(0, 158, 115, Opaque),
    Rgba(240, 228, 66, Opaque),
    Rgba(0, 114, 178, Opaque),
    Rgba(213, 94, 0, Opaque),
    Rgba(204, 121, 167, Opaque),
    Rgba(0, 0, 0, Opaque)
  ]

  /** How colourblind_palette is built: the nine literal entries, then the
      complements of entries 1 to 7 (the slice `[1:-1]` skips the transparent
      entry 0 and black, entry 8). */
  ghost predicate IsColourblindPalette(palette: seq<Rgba>)
  {
    && |palette| == 16
    && palette[..9] == BaseColours
    && forall i :: 9 <= i < 16 ==> palette[i] == Complement(palette[i - 8])
  }

  /** colourblind_palette: sixteen valid, pairwise distinct colours, where
      entry 0 is transparent white and every other entry has alpha 255. */
  method ColourblindPalette() returns (palette: seq<Rgba>)
    ensures IsColourblindPalette(palette)
    ensures |palette| == 16 && palette[0] == Rgba(255, 255, 255, 0)
    ensures forall i :: 1 <= i < 16 ==> palette[i].a == Opaque
    ensures forall i :: 0 <= i < 16 ==> IsColour(palette[i])
    ensures forall i, j :: 0 <= i < j < 16 ==> palette[i] != palette[j]
  {
    palette := BaseColours;
    var middle := palette[1..8];
    palette := palette + seq(7, i requires 0 <= i < 7 => Complement(middle[i]));
    DistinctColours(palette);
  }

  /** The sixteen entries of colourblind_palette: the literals, then the
      complements of entries 1 to 7. */
  const DefaultPalette: seq<Rgba> :=
    BaseColours + seq(7, i requires 0 <= i < 7 => Complement(BaseColours[i + 1]))

  /** The construction determines the palette: it is DefaultPalette. */
  lemma PaletteEntries(palette: seq<Rgba>)
    requires IsColourblindPalette(palette)
    ensures palette == DefaultPalette
  {
    forall i | 0 <= i < 9 ensures palette[i] == DefaultPalette[i] {
      assert palette[i] == palette[..9][i];
    }
    forall i | 9 <= i < 16 ensures palette[i] == DefaultPalette[i] {
      assert palette[i - 8] == palette[..9][i - 8];
    }
  }

  /** The complements, worked out: the palette's sixteen colours. */
  lemma DefaultPaletteValues()
    ensures DefaultPalette == [
      Rgba(255, 255, 255, 0), Rgba(230, 159, 0, Opaque), Rgba(86, 180, 233, Opaque),
      Rgba(0, 158, 115, Opaque), Rgba(240, 228, 66, Opaque), Rgba(0, 114, 178, Opaque),
      Rgba(213, 94, 0, Opaque), Rgba(204, 121, 167, Opaque), Rgba(0, 0, 0, Opaque),
      Rgba(25, 96, 255, Opaque), Rgba(169, 75, 22, Opaque), Rgba(255, 97, 140, Opaque),
      Rgba(15, 27, 189, Opaque), Rgba(255, 141, 77, Opaque), Rgba(42, 161, 255, Opaque),
      Rgba(51, 134, 88, Opaque)]
  {
    forall i | 9 <= i < 16 ensures DefaultPalette[i] == Complement(BaseColours[i - 8]) {
    }
  }

  /** The palette entry whose green channel is g: no two entries of the
      palette share a green channel. */
  function GreenIndex(g: int): int
  {
    if g == 255 then 0
    else if g == 159 then 1
    else if g == 180 then 2
    else if g == 158 then 3
    else if g == 228 then 4
    else if g == 114 then 5
    else if g == 94 then 6
    else if g == 121 then 7
    else if g == 0 then 8
    else if g == 96 then 9
    else if g == 75 then 10
    else if g == 97 then 11
    else if g == 27 then 12
    else if g == 141 then 13
    else if g == 161 then 14
    else if g == 134 then 15
    else -1
  }

  /** Sixteen colours, pairwise different: each one's green channel gives
      back its index. */
  lemma DefaultPaletteDistinct(p: seq<Rgba>)
    requires p == [
      Rgba(255, 255, 255, 0), Rgba(230, 159, 0, Opaque), Rgba(86, 180, 233, Opaque),
      Rgba(0, 158, 115, Opaque), Rgba(240, 228, 66, Opaque), Rgba(0, 114, 178, Opaque),
      Rgba(213, 94, 0, Opaque), Rgba(204, 121, 167, Opaque), Rgba(0, 0, 0, Opaque),
      Rgba(25, 96, 255, Opaque), Rgba(169, 75, 22, Opaque), Rgba(255, 97, 140, Opaque),
      Rgba(15, 27, 189, Opaque), Rgba(255, 141, 77, Opaque), Rgba(42, 161, 255, Opaque),
      Rgba(51, 134, 88, Opaque)]
    ensures forall i :: 0 <= i < 16 ==> IsColour(p[i])
    ensures forall i, j :: 0 <= i < j < 16 ==> p[i] != p[j]
  {
    assert forall i :: 0 <= i < 16 ==> GreenIndex(p[i].g) == i;
  }

  /** Every entry is a colour, entry 0 alone is transparent and the others
      are opaque, and no two entries coincide: the eight literal colours and
      their seven complements are sixteen different colours. */
  lemma DistinctColours(palette: seq<Rgba>)
    requires IsColourblindPalette(palette)
    ensures palette[0] == Rgba(255, 255, 255, 0)
    ensures forall i :: 1 <= i < 16 ==> palette[i].a == Opaque
    ensures forall i :: 0 <= i < 16 ==> IsColour(palette[i])
    ensures forall i, j :: 0 <= i < j < 16 ==> palette[i] != palette[j]
  {
    PaletteEntries(palette);
    DefaultPaletteValues();
    DefaultPaletteDistinct(palette);
  }
}
