/** MultiRegionFigure of src/graphical/region_figures.py, the earlier variant
    of the gui figure: no edge line, no prioritized region, regions ordered by
    containment and then by area, and a layer palette index written without
    the wrap-around its legend uses. The figure draws as written
    (DrawAsWritten, PaletteOverflow); Draw is the drawing with the wrapped
    index, and FewLayersFit shows the two agree below the palette length.
    The matplotlib figure itself is not modelled; a drawing is the sequence
    of imshow layers and the legend. */
module GraphicalRegionFigures {
  import opened Wrappers
  import opened DifferentialPrivacy
  import opened Raster
  import opened PySort
  import opened Palettes
  import opened Figures

  /** `(mask, label)` after rasterisation. */
  datatype ComputedRegion = ComputedRegion(mask: Mask, name: string)

  // ----- the slots drawn -----

  /** The slots that are not tombstones, in slot order. */
  function Live(slots: seq<Slot>): seq<LabelledRegion>
  {
    if |slots| == 0 then []
    else
      Live(slots[..|slots| - 1]) +
      match slots[|slots| - 1]
      case None => []
      case Some(lr) => [lr]
  }

  /** The indices of the slots that are not tombstones, in slot order. */
  function LiveIds(slots: seq<Slot>): (ids: seq<nat>)
    ensures |ids| == |Live(slots)|
  {
    if |slots| == 0 then []
    else LiveIds(slots[..|slots| - 1]) + (if slots[|slots| - 1].Some? then [|slots| - 1] else [])
  }

  /** Region t drawn is the region in slot LiveIds(slots)[t]. */
  lemma {:induction false} LiveIdsSound(slots: seq<Slot>)
    ensures forall t :: 0 <= t < |LiveIds(slots)| ==>
      LiveIds(slots)[t] < |slots| && slots[LiveIds(slots)[t]] == Some(Live(slots)[t])
  {
    if |slots| > 0 {
      var n := |slots| - 1;
      var init := slots[..n];
      LiveIdsSound(init);
      var ids0, ids := LiveIds(init), LiveIds(slots);
      var live0, live := Live(init), Live(slots);
      forall t | 0 <= t < |ids|
        ensures ids[t] < |slots| && slots[ids[t]] == Some(live[t])
      {
        if t < |ids0| {
          assert ids[t] == ids0[t] && live[t] == live0[t];
          assert init[ids0[t]] == slots[ids0[t]];
        } else {
          assert ids[t] == n && live[t] == slots[n].value;
        }
      }
    }
  }

  /** The slot indices are increasing. */
  lemma {:induction false} LiveIdsOrdered(slots: seq<Slot>)
    ensures forall t :: 0 <= t < |LiveIds(slots)| ==> LiveIds(slots)[t] < |slots|
    ensures forall t, u :: 0 <= t < u < |LiveIds(slots)| ==> LiveIds(slots)[t] < LiveIds(slots)[u]
  {
    if |slots| > 0 {
      var n := |slots| - 1;
      LiveIdsOrdered(slots[..n]);
    }
  }

  /** Every live slot is drawn. */
  lemma {:induction false} LiveIdsComplete(slots: seq<Slot>)
    ensures forall i :: 0 <= i < |slots| && slots[i].Some? ==> i in LiveIds(slots)
  {
    if |slots| > 0 {
      var n := |slots| - 1;
      var init := slots[..n];
      LiveIdsComplete(init);
      var ids0, ids := LiveIds(init), LiveIds(slots);
      forall i | 0 <= i < |slots| && slots[i].Some?
        ensures i in ids
      {
        if i < n {
          assert init[i] == slots[i];
          var t :| 0 <= t < |ids0| && ids0[t] == i;
          assert ids[t] == i;
        } else {
          assert ids[|ids0|] == i;
        }
      }
    }
  }

  /** Exactly the live slots are drawn, in slot order: `ids` lists, for each
      drawn region, the slot it comes from. */
  lemma LiveSlots(slots: seq<Slot>) returns (ids: seq<nat>)
    ensures |ids| == |Live(slots)|
    ensures forall t :: 0 <= t < |ids| ==> ids[t] < |slots| && slots[ids[t]] == Some(Live(slots)[t])
    ensures forall t, u :: 0 <= t < u < |ids| ==> ids[t] < ids[u]
    ensures forall i :: 0 <= i < |slots| && slots[i].Some? ==> i in ids
  {
    ids := LiveIds(slots);
    LiveIdsSound(slots);
    LiveIdsOrdered(slots);
    LiveIdsComplete(slots);
  }

  /** The list comprehension of `_compute_and_sort_regions`: every live region
      rasterised by FilledMask, in order; the first failure raises. */
  function ComputeAll(live: seq<LabelledRegion>, d: seq<real>): (r: Result<seq<ComputedRegion>>)
    ensures r.Err? <==> exists t :: 0 <= t < |live| && |live[t].region| == 0
    ensures r.Err? ==> r.error == TypeError
    ensures r.Ok? ==> |r.value| == |live| && forall t :: 0 <= t < |live| ==>
      && FilledMask(live[t].region, d) == Ok(r.value[t].mask)
      && r.value[t].name == live[t].name
      && IsGrid(r.value[t].mask, |d|)
  {
    if |live| == 0 then Ok([])
    else
      var n := |live| - 1;
      var init := ComputeAll(live[..n], d);
      var last := FilledMask(live[n].region, d);
      assert forall t :: 0 <= t < n ==> live[..n][t] == live[t];
      if init.Err? then Err(init.error)
      else if last.Err? then Err(last.error)
      else Ok(init.value + [ComputedRegion(last.value, live[n].name)])
  }

  // ----- _compare_regions -----

  /** `_compare_regions`: 1 when the first mask strictly contains the second,
      -1 when it is strictly contained in it, 0 when they are equal, and the
      summed difference otherwise. */
  function CompareRegions(a: ComputedRegion, b: ComputedRegion): int
  {
    var oneContainsTwo := Covers(a.mask, b.mask);
    var twoContainsOne := Covers(b.mask, a.mask);
    if oneContainsTwo && !twoContainsOne then 1
    else if twoContainsOne && !oneContainsTwo then -1
    else if oneContainsTwo && twoContainsOne then 0
    else DiffSum(a.mask, b.mask)
  }

  /** The pixel count of a region. */
  function AreaKey(x: ComputedRegion): int
  {
    Count(x.mask)
  }

  /** On masks of one shape, the comparison's sign is the sign of the
      difference of the pixel counts, and swapping the arguments negates it. */
  lemma CompareSign(a: ComputedRegion, b: ComputedRegion)
    requires SameShape(a.mask, b.mask)
    ensures Agrees(CompareRegions, AreaKey, a, b)
    ensures CompareRegions(a, b) == -CompareRegions(b, a)
  {
    DiffSumCount(a.mask, b.mask);
    DiffSumCount(b.mask, a.mask);
    var one := Covers(a.mask, b.mask);
    var two := Covers(b.mask, a.mask);
    if one && two {
      CoversBothWays(a.mask, b.mask);
    } else if one {
      CoversCount(a.mask, b.mask);
    } else if two {
      CoversCount(b.mask, a.mask);
    }
  }

  lemma CompareConsistent(xs: seq<ComputedRegion>, n: nat)
    requires forall t :: 0 <= t < |xs| ==> IsGrid(xs[t].mask, n)
    ensures ConsistentOn(CompareRegions, AreaKey, xs)
  {
    forall i, j | 0 <= i < |xs| && 0 <= j < |xs| && i != j
      ensures Agrees(CompareRegions, AreaKey, xs[i], xs[j])
    {
      CompareSign(xs[i], xs[j]);
    }
  }

  /** After the reverse sort, a region strictly contained in another one comes
      after it, so it is painted on top of it. */
  lemma ContainedDrawnLater(xs: seq<ComputedRegion>, ys: seq<ComputedRegion>, n: nat)
    requires StablySortedDesc(xs, ys, AreaKey)
    requires forall t :: 0 <= t < |xs| ==> IsGrid(xs[t].mask, n)
    ensures forall i, j ::
      (0 <= i < |ys| && 0 <= j < |ys| && Covers(ys[i].mask, ys[j].mask) && ys[i].mask != ys[j].mask) ==> i < j
  {
    forall i, j | 0 <= i < |ys| && 0 <= j < |ys| && Covers(ys[i].mask, ys[j].mask) && ys[i].mask != ys[j].mask
      ensures i < j
    {
      assert ys[i] in multiset(xs) && ys[j] in multiset(xs);
      assert IsGrid(ys[i].mask, n) && IsGrid(ys[j].mask, n);
      CoversCount(ys[i].mask, ys[j].mask);
      assert AreaKey(ys[j]) < AreaKey(ys[i]);
    }
  }

  // ----- draw_figure -----

  function Names(order: seq<ComputedRegion>): (names: seq<string>)
    ensures |names| == |order|
  {
    seq(|order|, i requires 0 <= i < |order| => order[i].name)
  }

  /** Layer idx of the sorted regions, in colour idx + 1. */
  function PaintedLayers(order: seq<ComputedRegion>): (layers: seq<Layer>)
    ensures |layers| == |order|
    ensures forall i :: 0 <= i < |order| ==> layers[i] == Layer(order[i].mask, order[i].name, i + 1)
  {
    seq(|order|, i requires 0 <= i < |order| => Layer(order[i].mask, order[i].name, i + 1))
  }

  /** What the layer loop and the legend of draw_figure produce, as written:
      layer idx looks up palette index idx + 1 on its set cells, an IndexError
      once that is past the end; the legend takes the colours modulo the
      palette length, a ZeroDivisionError for an empty palette. */
  function DrawAsWritten(order: seq<ComputedRegion>, n: nat): Result<Drawing>
  {
    if exists idx :: 0 <= idx < |order| && !LookupOk(order[idx].mask, idx + 1, n) then Err(IndexError)
    else if |order| > 0 && n == 0 then Err(ZeroDivision)
    else Ok(Drawing(PaintedLayers(order), Some(Legend(Names(order), n))))
  }

  /** Layer idx of the sorted regions, in colour (idx + 1) % len(palette). */
  function WrappedLayers(order: seq<ComputedRegion>, n: nat): (layers: seq<Layer>)
    requires n > 0 || |order| == 0
    ensures |layers| == |order|
    ensures forall i :: 0 <= i < |order| ==> layers[i] == Layer(order[i].mask, order[i].name, LayerColour(i, n))
  {
    seq(|order|, i requires 0 <= i < |order| => Layer(order[i].mask, order[i].name, LayerColour(i, n)))
  }

  /** draw_figure with the layer colour taken modulo the palette length, as
      its own legend and the gui figure do; `%` by an empty palette's length
      raises on the first layer. */
  function Draw(order: seq<ComputedRegion>, n: nat): Result<Drawing>
  {
    if |order| > 0 && n == 0 then Err(ZeroDivision)
    else Ok(Drawing(WrappedLayers(order, n), Some(Legend(Names(order), n))))
  }

  /** The corrected drawing fails only for an empty palette with something to
      draw; otherwise every palette lookup stays in bounds and the legend
      shows each layer's label in that layer's colour. */
  lemma DrawColours(order: seq<ComputedRegion>, n: nat)
    ensures Draw(order, n).Err? <==> |order| > 0 && n == 0
    ensures Draw(order, n).Ok? ==>
      var dr := Draw(order, n).value;
      && |dr.layers| == |order| && dr.legend.Some? && |dr.legend.value| == |order|
      && forall i :: 0 <= i < |order| ==>
           && dr.layers[i].mask == order[i].mask
           && LookupOk(dr.layers[i].mask, dr.layers[i].colour, n)
           && dr.legend.value[i] == LegendEntry(dr.layers[i].name, dr.layers[i].colour)
  {
    if n > 0 {
      forall i | 0 <= i < |order|
        ensures LookupOk(order[i].mask, LayerColour(i, n), n)
      {
        LayerColourLookupOk(order[i].mask, i, n);
      }
    }
  }

  /** With fewer layers than palette entries the drawing as written succeeds
      and is the corrected drawing: idx + 1 < len(palette) is its own
      remainder. */
  lemma FewLayersFit(order: seq<ComputedRegion>, n: nat)
    requires |order| < n
    ensures DrawAsWritten(order, n) == Draw(order, n)
  {
    forall idx | 0 <= idx < |order|
      ensures LookupOk(order[idx].mask, idx + 1, n)
      ensures PaintedLayers(order)[idx] == WrappedLayers(order, n)[idx]
    {
      assert LayerColour(idx, n) == idx + 1;
    }
    assert PaintedLayers(order) == WrappedLayers(order, n);
  }

  /** The sixteenth layer of the default palette, or in general layer n - 1
      of an n-entry palette, looks up index n as soon as its mask has a set
      cell: the drawing raises an IndexError. */
  lemma PaletteOverflow(order: seq<ComputedRegion>, n: nat, r: nat, c: nat)
    requires 1 <= n <= |order|
    requires r < |order[n - 1].mask| && c < |order[n - 1].mask[r]| && order[n - 1].mask[r][c]
    ensures DrawAsWritten(order, n) == Err(IndexError)
  {
    LookupNeedsColour(order[n - 1].mask, n, n, r, c);
  }

  /** The layer loop and the legend of draw_figure over the sorted regions,
      as written: layer idx looks up palette index idx + 1 on its set cells
      and raises at the first lookup past the end; the legend's modulo by an
      empty palette raises after the loop. */
  method PaintLayers(order: seq<ComputedRegion>, palette: seq<Rgba>) returns (r: Result<Drawing>)
    ensures r == DrawAsWritten(order, |palette|)
  {
    var n := |palette|;
    var layers: seq<Layer> := [];
    var names: seq<string> := [];
    for idx := 0 to |order|
      invariant |layers| == idx && |names| == idx
      invariant forall i :: 0 <= i < idx ==> LookupOk(order[i].mask, i + 1, n)
      invariant forall i :: 0 <= i < idx ==>
        layers[i] == Layer(order[i].mask, order[i].name, i + 1) && names[i] == order[i].name
    {
      var k := idx + 1;
      if !LookupOk(order[idx].mask, k, n) {
        r := Err(IndexError);
        return;
      }
      layers := layers + [Layer(order[idx].mask, order[idx].name, k)];
      names := names + [order[idx].name];
    }
    if |order| > 0 && n == 0 {
      r := Err(ZeroDivision);
      return;
    }
    assert layers == PaintedLayers(order);
    assert names == Names(order);
    r := Ok(Drawing(layers, Some(Legend(names, n))));
  }

  class MultiRegionFigure {
    /** The sample points `np.linspace(start_grid, stop_grid, num=grid_res)`. */
    const grid: seq<real>
    const start: real
    const stop: real
    const palette: seq<Rgba>
    /** `_labelled_regions`; None is a removed slot. */
    var labelledRegions: seq<Slot>
    /** `_region_id`: the id handed out by the last add_region. */
    var regionId: int

    /** The last id handed out is the index of the last slot. */
    ghost predicate Valid()
      reads this
    {
      regionId == |labelledRegions| - 1
    }

    constructor (start: real, stop: real, gridRes: int, palette: Option<seq<Rgba>>)
      requires gridRes >= 0
      ensures Valid() && labelledRegions == [] && regionId == -1
      ensures grid == Linspace(start, stop, gridRes).value && |grid| == gridRes
      ensures this.start == start && this.stop == stop
      ensures palette.Some? ==> this.palette == palette.value
      ensures palette.None? ==> IsColourblindPalette(this.palette)
      ensures palette.None? ==> |this.palette| == 16 && this.palette[0] == Rgba(255, 255, 255, 0)
      ensures palette.None? ==> forall i :: 1 <= i < 16 ==> this.palette[i].a == Opaque
      ensures palette.None? ==> forall i :: 0 <= i < 16 ==> IsColour(this.palette[i])
      ensures palette.None? ==> forall i, j :: 0 <= i < j < 16 ==> this.palette[i] != this.palette[j]
    {
      grid := Linspace(start, stop, gridRes).value;
      this.start := start;
      this.stop := stop;
      if palette.None? {
        var p := ColourblindPalette();
        this.palette := p;
      } else {
        this.palette := palette.value;
      }
      labelledRegions := [];
      regionId := -1;
    }

    /** Appends the region to the slots and returns its id, the index of the
        new slot. */
    method AddRegion(constraints: Region, name: string) returns (id: int)
      requires Valid()
      modifies this
      ensures Valid()
      ensures labelledRegions == old(labelledRegions) + [Some(LabelledRegion(constraints, name))]
      ensures regionId == old(regionId) + 1 && id == regionId
      ensures id == |old(labelledRegions)| && labelledRegions[id] == Some(LabelledRegion(constraints, name))
    {
      labelledRegions := labelledRegions + [Some(LabelledRegion(constraints, name))];
      regionId := regionId + 1;
      id := regionId;
    }

    /** `_labelled_regions[region_id] = _TO_REMOVE`, with Python's indexing:
        a negative id counts from the end, and an id out of range raises an
        IndexError and changes nothing. No other slot changes and the list
        keeps its length. */
    method RemoveRegion(id: int) returns (o: Outcome)
      requires Valid()
      modifies this
      ensures Valid() && regionId == old(regionId)
      ensures var n := |old(labelledRegions)|;
        if -n <= id < n then
          o == Pass && labelledRegions == old(labelledRegions)[(if id < 0 then id + n else id) := None]
        else
          o == Fail(IndexError) && labelledRegions == old(labelledRegions)
    {
      var n := |labelledRegions|;
      if -n <= id < n {
        var i := if id < 0 then id + n else id;
        labelledRegions := labelledRegions[i := None];
        o := Pass;
      } else {
        o := Fail(IndexError);
      }
    }

    /** Forgets every slot and restarts the ids at 0. */
    method ResetFigure()
      requires Valid()
      modifies this
      ensures Valid() && labelledRegions == [] && regionId == -1
    {
      labelledRegions := [];
      regionId := -1;
    }

    /** draw_figure as written: the live slots, rasterised (a TypeError when
        one has no constraint), sorted by `_compare_regions` in reverse, then
        painted in that order, layer idx looking up palette index idx + 1
        without a wrap-around (an IndexError once that is past the end on a
        set cell, see PaletteOverflow), and the legend built with the wrapped
        colours (PaintLayers). `order` is the sorted list. */
    method DrawFigure() returns (r: Result<Drawing>, order: seq<ComputedRegion>)
      ensures var computed := ComputeAll(Live(labelledRegions), grid);
        && (computed.Err? ==> r == Err(TypeError))
        && (computed.Ok? ==>
              && StablySortedDesc(computed.value, order, AreaKey)
              && r == DrawAsWritten(order, |palette|))
    {
      var live := Live(labelledRegions);
      var computed := ComputeAll(live, grid);
      if computed.Err? {
        r := Err(TypeError);
        order := [];
        return;
      }
      CompareConsistent(computed.value, |grid|);
      var sorted := SortDescending(computed.value, CompareRegions, AreaKey);
      order := sorted;
      r := PaintLayers(sorted, palette);
    }
  }
}
