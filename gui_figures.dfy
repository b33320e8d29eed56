/** MultiRegionFigure of src/gui/region_figures.py: a list of slots holding
    labelled regions, tombstoned in place on removal, and draw_figure, which
    rasterises the live regions (optionally thinned to a band along the
    region's edge), sorts them and gives each layer a palette colour. The
    matplotlib figure, axes, titles and limits are not modelled; a drawing is
    the sequence of imshow layers and the legend. `SUM_LINE` and
    `LINE_REGION_THICKNESS` are imported from a definitions module that does
    not define them; the first is the SharedSumLine constraint, the second the
    figure's lineThickness. */
module GuiRegionFigures {
  import opened Wrappers
  import opened DifferentialPrivacy
  import opened Raster
  import opened PySort
  import opened Palettes
  import opened Figures

  /** `(constraints, label, idx)`: a live slot tagged with its slot index. */
  datatype ShownRegion = ShownRegion(region: Region, name: string, id: int)

  /** `(mask, label, idx)` after rasterisation. */
  datatype ComputedRegion = ComputedRegion(mask: Mask, name: string, id: int)

  // ----- the slots drawn -----

  /** The slots that are not tombstones, in slot order, each tagged with its
      slot index. */
  function Shown(slots: seq<Slot>): seq<ShownRegion>
  {
    if |slots| == 0 then []
    else
      Shown(slots[..|slots| - 1]) +
      match slots[|slots| - 1]
      case None => []
      case Some(lr) => [ShownRegion(lr.region, lr.name, |slots| - 1)]
  }

  /** Each shown region is the region in the slot its id names. */
  lemma {:induction false} ShownSound(slots: seq<Slot>)
    ensures forall t :: 0 <= t < |Shown(slots)| ==>
      0 <= Shown(slots)[t].id < |slots| &&
      slots[Shown(slots)[t].id] == Some(LabelledRegion(Shown(slots)[t].region, Shown(slots)[t].name))
  {
    if |slots| > 0 {
      var n := |slots| - 1;
      var init := slots[..n];
      ShownSound(init);
      var s0, s := Shown(init), Shown(slots);
      forall t | 0 <= t < |s|
        ensures 0 <= s[t].id < |slots| && slots[s[t].id] == Some(LabelledRegion(s[t].region, s[t].name))
      {
        if t < |s0| {
          assert s[t] == s0[t];
          assert init[s0[t].id] == slots[s0[t].id];
        }
      }
    }
  }

  /** The ids of the shown regions are increasing slot indices. */
  lemma {:induction false} ShownOrdered(slots: seq<Slot>)
    ensures forall t :: 0 <= t < |Shown(slots)| ==> 0 <= Shown(slots)[t].id < |slots|
    ensures forall t, u :: 0 <= t < u < |Shown(slots)| ==> Shown(slots)[t].id < Shown(slots)[u].id
  {
    if |slots| > 0 {
      ShownOrdered(slots[..|slots| - 1]);
    }
  }

  /** Every live slot is shown, with its own region, label and index. */
  lemma {:induction false} ShownComplete(slots: seq<Slot>)
    ensures forall i :: 0 <= i < |slots| && slots[i].Some? ==>
      ShownRegion(slots[i].value.region, slots[i].value.name, i) in Shown(slots)
  {
    if |slots| > 0 {
      var init := slots[..|slots| - 1];
      ShownComplete(init);
      assert forall i :: 0 <= i < |init| ==> init[i] == slots[i];
      assert Shown(init) <= Shown(slots);
    }
  }

  /** Exactly the live slots are shown, in slot order, each with its own index
      as id. */
  lemma ShownSlots(slots: seq<Slot>)
    ensures forall t :: 0 <= t < |Shown(slots)| ==>
      0 <= Shown(slots)[t].id < |slots| &&
      slots[Shown(slots)[t].id] == Some(LabelledRegion(Shown(slots)[t].region, Shown(slots)[t].name))
    ensures forall t, u :: 0 <= t < u < |Shown(slots)| ==> Shown(slots)[t].id < Shown(slots)[u].id
    ensures forall i :: 0 <= i < |slots| && slots[i].Some? ==>
      ShownRegion(slots[i].value.region, slots[i].value.name, i) in Shown(slots)
  {
    ShownSound(slots);
    ShownOrdered(slots);
    ShownComplete(slots);
  }

  // ----- _compute_region -----

  /** The constraints `_compute_region` evaluates: all of them, except the
      shared SUM_LINE object when the edge line is shown. */
  function Kept(region: Region, showLine: bool): Region
  {
    if |region| == 0 then []
    else
      Kept(region[..|region| - 1], showLine) +
      (if showLine && region[|region| - 1].SharedSumLine? then [] else [region[|region| - 1]])
  }

  /** The kept constraints hold exactly when every constraint that is not
      skipped holds; none is kept exactly when every one is skipped; without
      the edge line nothing is skipped. */
  lemma {:induction false} KeptHolds(region: Region, showLine: bool, fp: real, fn: real)
    ensures Holds(Kept(region, showLine), fp, fn) <==>
      forall i :: 0 <= i < |region| && !(showLine && region[i].SharedSumLine?) ==> Eval(region[i], fp, fn)
    ensures |Kept(region, showLine)| == 0 <==>
      forall i :: 0 <= i < |region| ==> showLine && region[i].SharedSumLine?
    ensures !showLine ==> Kept(region, showLine) == region
  {
    if |region| > 0 {
      var n := |region| - 1;
      var init := region[..n];
      KeptHolds(init, showLine, fp, fn);
      var last: Region := if showLine && region[n].SharedSumLine? then [] else [region[n]];
      HoldsAppend(Kept(init, showLine), last, fp, fn);
      assert forall i :: 0 <= i < n ==> init[i] == region[i];
      if !(showLine && region[n].SharedSumLine?) {
        assert last[0] == region[n];
      }
      if !showLine {
        assert init + [region[n]] == region;
      }
    }
  }

  /** `_compute_region`: the AND of the kept constraints' masks (a TypeError
      from `reduce` when none is kept), thinned to the edge band when the line
      is shown. */
  function ComputeRegion(region: Region, d: seq<real>, showLine: bool, thickness: int): (r: Result<Mask>)
    ensures r.Err? <==> |Kept(region, showLine)| == 0
    ensures r.Err? ==> r.error == TypeError
    ensures r.Ok? ==> IsGrid(r.value, |d|)
  {
    match FilledMask(Kept(region, showLine), d)
    case Err(e) => Err(e)
    case Ok(whole) => if showLine then Ok(Thinned(whole, thickness, |d|)) else Ok(whole)
  }

  /** Without the line, a cell is set exactly when its sample point lies in
      the region; with it, a set cell's point satisfies every constraint other
      than the shared sum line. */
  lemma ComputeRegionCells(region: Region, d: seq<real>, showLine: bool, thickness: int, r: nat, c: nat)
    requires ComputeRegion(region, d, showLine, thickness).Ok? && r < |d| && c < |d|
    ensures !showLine ==>
      (ComputeRegion(region, d, showLine, thickness).value[r][c] <==> Holds(region, d[c], d[r]))
    ensures showLine && ComputeRegion(region, d, showLine, thickness).value[r][c] ==>
      forall i :: 0 <= i < |region| && !region[i].SharedSumLine? ==> Eval(region[i], d[c], d[r])
  {
    var kept := Kept(region, showLine);
    KeptHolds(region, showLine, d[c], d[r]);
    FilledMaskHolds(kept, d, r, c);
    if showLine {
      var whole := FilledMask(kept, d).value;
      assert Column(whole, c)[r] == whole[r][c];
      assert ComputeRegion(region, d, showLine, thickness).value[r][c] ==> whole[r][c];
    }
  }

  /** With the line shown, every row and every column of the result keeps at
      least the first `thickness` pixels of the filled region in that row or
      column (all of them when there are fewer), and nothing outside it. */
  lemma ComputeRegionBand(region: Region, d: seq<real>, thickness: int)
    requires ComputeRegion(region, d, true, thickness).Ok? && thickness >= 0
    ensures var whole := FilledMask(Kept(region, true), d).value;
      var line := ComputeRegion(region, d, true, thickness).value;
      && SameShape(whole, line) && Covers(whole, line)
      && (forall r :: 0 <= r < |d| ==>
            RowCount(line[r]) >= if thickness < RowCount(whole[r]) then thickness else RowCount(whole[r]))
      && (forall c :: 0 <= c < |d| ==>
            RowCount(Column(line, c)) >= if thickness < RowCount(Column(whole, c)) then thickness else RowCount(Column(whole, c)))
  {
    ThinnedKeepsLine(FilledMask(Kept(region, true), d).value, thickness, |d|);
  }

  /** The list comprehension of `_compute_and_sort_regions`: every shown
      region rasterised, in order; the first failure raises. */
  function ComputeAll(shown: seq<ShownRegion>, d: seq<real>, showLine: bool, thickness: int): (r: Result<seq<ComputedRegion>>)
    ensures r.Err? <==> exists t :: 0 <= t < |shown| && ComputeRegion(shown[t].region, d, showLine, thickness).Err?
    ensures r.Err? ==> r.error == TypeError
    ensures r.Ok? ==> |r.value| == |shown| && forall t :: 0 <= t < |shown| ==>
      && ComputeRegion(shown[t].region, d, showLine, thickness) == Ok(r.value[t].mask)
      && r.value[t].name == shown[t].name && r.value[t].id == shown[t].id
      && IsGrid(r.value[t].mask, |d|)
  {
    if |shown| == 0 then Ok([])
    else
      var n := |shown| - 1;
      var init := ComputeAll(shown[..n], d, showLine, thickness);
      var last := ComputeRegion(shown[n].region, d, showLine, thickness);
      assert forall t :: 0 <= t < n ==> shown[..n][t] == shown[t];
      if init.Err? then Err(init.error)
      else if last.Err? then Err(last.error)
      else Ok(init.value + [ComputedRegion(last.value, shown[n].name, shown[n].id)])
  }

  // ----- _region_comparator -----

  /** `_region_comparator(prioritize_region)`: the prioritized region compares
      below every other one; otherwise `(reg1 - reg2).sum()`. */
  function RegionComparator(prioritized: int): (ComputedRegion, ComputedRegion) -> int
  {
    (a: ComputedRegion, b: ComputedRegion) =>
      if a.id == prioritized then -1
      else if b.id == prioritized then 1
      else DiffSum(a.mask, b.mask)
  }

  /** The order the comparator induces: the prioritized region lowest, the
      others by pixel count. */
  function PriorityKey(prioritized: int): ComputedRegion -> int
  {
    (x: ComputedRegion) => if x.id == prioritized then -1 else Count(x.mask)
  }

  /** On regions with distinct ids and masks of one shape, the comparator's
      sign is the sign of the difference of the keys. */
  lemma ComparatorAgrees(prioritized: int, a: ComputedRegion, b: ComputedRegion)
    requires a.id != b.id && SameShape(a.mask, b.mask)
    ensures Agrees(RegionComparator(prioritized), PriorityKey(prioritized), a, b)
  {
    DiffSumCount(a.mask, b.mask);
  }

  lemma ComparatorConsistent(prioritized: int, xs: seq<ComputedRegion>, n: nat)
    requires forall t, u :: 0 <= t < u < |xs| ==> xs[t].id < xs[u].id
    requires forall t :: 0 <= t < |xs| ==> IsGrid(xs[t].mask, n)
    ensures ConsistentOn(RegionComparator(prioritized), PriorityKey(prioritized), xs)
  {
    forall i, j | 0 <= i < |xs| && 0 <= j < |xs| && i != j
      ensures Agrees(RegionComparator(prioritized), PriorityKey(prioritized), xs[i], xs[j])
    {
      ComparatorAgrees(prioritized, xs[i], xs[j]);
    }
  }

  /** After the stable reverse sort the prioritized region, when shown, is the
      last layer, painted on top, and nothing but it follows it; the other
      layers come in non-increasing pixel count. */
  lemma PrioritizedOnTop(xs: seq<ComputedRegion>, ys: seq<ComputedRegion>, prioritized: int)
    requires StablySortedDesc(xs, ys, PriorityKey(prioritized))
    ensures forall i, j :: 0 <= i < j < |ys| && ys[i].id == prioritized ==> ys[j].id == prioritized
    ensures forall i, j :: 0 <= i < j < |ys| && ys[i].id != prioritized && ys[j].id != prioritized ==>
      Count(ys[i].mask) >= Count(ys[j].mask)
    ensures (exists t :: 0 <= t < |xs| && xs[t].id == prioritized) ==> |ys| > 0 && ys[|ys| - 1].id == prioritized
  {
    var key := PriorityKey(prioritized);
    forall i, j | 0 <= i < j < |ys| && ys[i].id == prioritized
      ensures ys[j].id == prioritized
    {
      assert key(ys[i]) >= key(ys[j]);
    }
    if exists t :: 0 <= t < |xs| && xs[t].id == prioritized {
      var t :| 0 <= t < |xs| && xs[t].id == prioritized;
      assert xs[t] in multiset(ys);
      var i :| 0 <= i < |ys| && ys[i] == xs[t];
      if i < |ys| - 1 {
        assert key(ys[i]) >= key(ys[|ys| - 1]);
      }
    }
  }

  // ----- draw_figure -----

  function Names(order: seq<ComputedRegion>): (names: seq<string>)
    ensures |names| == |order|
  {
    seq(|order|, i requires 0 <= i < |order| => order[i].name)
  }

  /** Layer idx of the sorted regions, in colour (idx + 1) % len(palette). */
  function PaintedLayers(order: seq<ComputedRegion>, n: nat): (layers: seq<Layer>)
    requires n > 0 || |order| == 0
    ensures |layers| == |order|
    ensures forall i :: 0 <= i < |order| ==> layers[i] == Layer(order[i].mask, order[i].name, LayerColour(i, n))
  {
    seq(|order|, i requires 0 <= i < |order| => Layer(order[i].mask, order[i].name, LayerColour(i, n)))
  }

  /** What the layer loop and the legend of draw_figure produce from the sorted
      regions: layer idx in colour (idx + 1) % len(palette), the legend in the
      same colours; `%` by an empty palette's length raises on the first layer. */
  function DrawLayers(order: seq<ComputedRegion>, n: nat, showLegend: bool): Result<Drawing>
  {
    if |order| > 0 && n == 0 then Err(ZeroDivision)
    else
      Ok(Drawing(
        PaintedLayers(order, n),
        if showLegend then Some(Legend(Names(order), n)) else None))
  }

  /** Every palette lookup of the drawing stays in bounds, the legend shows
      each layer's label in that layer's colour, and the drawing fails only
      for an empty palette with something to draw. */
  lemma DrawLayersColours(order: seq<ComputedRegion>, n: nat, showLegend: bool)
    ensures DrawLayers(order, n, showLegend).Err? <==> |order| > 0 && n == 0
    ensures DrawLayers(order, n, showLegend).Ok? ==>
      var dr := DrawLayers(order, n, showLegend).value;
      && |dr.layers| == |order|
      && (forall i :: 0 <= i < |order| ==>
            dr.layers[i].mask == order[i].mask && LookupOk(dr.layers[i].mask, dr.layers[i].colour, n))
      && (showLegend <==> dr.legend.Some?)
      && (showLegend ==> |dr.legend.value| == |order| && forall i :: 0 <= i < |order| ==>
            dr.legend.value[i] == LegendEntry(dr.layers[i].name, dr.layers[i].colour))
  {
    if n > 0 {
      forall i | 0 <= i < |order|
        ensures LookupOk(order[i].mask, LayerColour(i, n), n)
      {
        LayerColourLookupOk(order[i].mask, i, n);
      }
    }
  }

  /** The layer loop and the legend of draw_figure over the sorted regions:
      layer idx in colour (idx + 1) % len(palette); the modulo by an empty
      palette raises on the first layer. */
  method PaintLayers(order: seq<ComputedRegion>, palette: seq<Rgba>, showLegend: bool) returns (r: Result<Drawing>)
    ensures r == DrawLayers(order, |palette|, showLegend)
  {
    var n := |palette|;
    var layers: seq<Layer> := [];
    var names: seq<string> := [];
    for idx := 0 to |order|
      invariant n == 0 ==> idx == 0
      invariant |layers| == idx && |names| == idx
      invariant forall i :: 0 <= i < idx ==>
        layers[i] == Layer(order[i].mask, order[i].name, LayerColour(i, n)) && names[i] == order[i].name
    {
      if n == 0 {
        r := Err(ZeroDivision);
        return;
      }
      var k := (idx + 1) % n;
      layers := layers + [Layer(order[idx].mask, order[idx].name, k)];
      names := names + [order[idx].name];
    }
    assert layers == PaintedLayers(order, n);
    var legend: Option<seq<LegendEntry>> := None;
    if showLegend {
      assert names == Names(order);
      legend := Some(Legend(names, n));
    }
    r := Ok(Drawing(layers, legend));
  }

  /** The comparator agrees with the priority key on the computed live
      slots: their ids are distinct slot indices and their masks share the
      grid's shape. */
  lemma ComputedConsistent(slots: seq<Slot>, d: seq<real>, showLine: bool, thickness: int, prioritized: int)
    requires ComputeAll(Shown(slots), d, showLine, thickness).Ok?
    ensures ConsistentOn(RegionComparator(prioritized), PriorityKey(prioritized),
                         ComputeAll(Shown(slots), d, showLine, thickness).value)
  {
    ShownSlots(slots);
    ComparatorConsistent(prioritized, ComputeAll(Shown(slots), d, showLine, thickness).value, |d|);
  }

  class MultiRegionFigure {
    /** The sample points `np.linspace(start_grid, stop_grid, num=grid_res)`. */
    const grid: seq<real>
    const start: real
    const stop: real
    const palette: seq<Rgba>
    const showLine: bool
    /** LINE_REGION_THICKNESS */
    const lineThickness: int
    /** `_labelled_regions`; None is a removed slot. */
    var labelledRegions: seq<Slot>
    /** `_region_id`: the id handed out by the last add_region. */
    var regionId: int

    /** The last id handed out is the index of the last slot. */
    ghost predicate Valid()
      reads this
    {
      regionId == |labelledRegions| - 1
    }

    constructor (start: real, stop: real, gridRes: int, palette: Option<seq<Rgba>>, showLine: bool, lineThickness: int)
      requires gridRes >= 0
      ensures Valid() && labelledRegions == [] && regionId == -1
      ensures grid == Linspace(start, stop, gridRes).value && |grid| == gridRes
      ensures this.start == start && this.stop == stop
      ensures this.showLine == showLine && this.lineThickness == lineThickness
      ensures palette.Some? ==> this.palette == palette.value
      ensures palette.None? ==> IsColourblindPalette(this.palette)
      ensures palette.None? ==> |this.palette| == 16 && this.palette[0] == Rgba(255, 255, 255, 0)
      ensures palette.None? ==> forall i :: 1 <= i < 16 ==> this.palette[i].a == Opaque
      ensures palette.None? ==> forall i :: 0 <= i < 16 ==> IsColour(this.palette[i])
      ensures palette.None? ==> forall i, j :: 0 <= i < j < 16 ==> this.palette[i] != this.palette[j]
    {
      grid := Linspace(start, stop, gridRes).value;
      this.start := start;
      this.stop := stop;
      this.showLine := showLine;
      this.lineThickness := lineThickness;
      if palette.None? {
        var p := ColourblindPalette();
        this.palette := p;
      } else {
        this.palette := palette.value;
      }
      labelledRegions := [];
      regionId := -1;
    }

    /** Appends the region to the slots and returns its id, the index of the
        new slot. */
    method AddRegion(constraints: Region, name: string) returns (id: int)
      requires Valid()
      modifies this
      ensures Valid()
      ensures labelledRegions == old(labelledRegions) + [Some(LabelledRegion(constraints, name))]
      ensures regionId == old(regionId) + 1 && id == regionId
      ensures id == |old(labelledRegions)| && labelledRegions[id] == Some(LabelledRegion(constraints, name))
    {
      labelledRegions := labelledRegions + [Some(LabelledRegion(constraints, name))];
      regionId := regionId + 1;
      id := regionId;
    }

    /** `_labelled_regions[region_id] = _TO_REMOVE`, with Python's indexing:
        a negative id counts from the end, and an id out of range raises an
        IndexError and changes nothing. No other slot changes, the list keeps
        its length, and ids are never reused. */
    method RemoveRegion(id: int) returns (o: Outcome)
      requires Valid()
      modifies this
      ensures Valid() && regionId == old(regionId)
      ensures var n := |old(labelledRegions)|;
        if -n <= id < n then
          o == Pass && labelledRegions == old(labelledRegions)[(if id < 0 then id + n else id) := None]
        else
          o == Fail(IndexError) && labelledRegions == old(labelledRegions)
    {
      var n := |labelledRegions|;
      if -n <= id < n {
        var i := if id < 0 then id + n else id;
        labelledRegions := labelledRegions[i := None];
        o := Pass;
      } else {
        o := Fail(IndexError);
      }
    }

    /** Forgets every slot and restarts the ids at 0. */
    method ResetFigure()
      requires Valid()
      modifies this
      ensures Valid() && labelledRegions == [] && regionId == -1
    {
      labelledRegions := [];
      regionId := -1;
    }

    /** draw_figure: the live slots, rasterised (a TypeError when one keeps
        no constraint), sorted by `_region_comparator(prioritize_region)` in
        reverse, then painted in that order with the colours of DrawLayers.
        `order` is the sorted list. */
    method DrawFigure(prioritizeRegion: int, showLegend: bool) returns (r: Result<Drawing>, order: seq<ComputedRegion>)
      ensures var computed := ComputeAll(Shown(labelledRegions), grid, showLine, lineThickness);
        && (computed.Err? ==> r == Err(TypeError))
        && (computed.Ok? ==>
              && StablySortedDesc(computed.value, order, PriorityKey(prioritizeRegion))
              && r == DrawLayers(order, |palette|, showLegend))
    {
      var shown := Shown(labelledRegions);
      var computed := ComputeAll(shown, grid, showLine, lineThickness);
      if computed.Err? {
        r := Err(TypeError);
        order := [];
        return;
      }
      ComputedConsistent(labelledRegions, grid, showLine, lineThickness, prioritizeRegion);
      var sorted := SortDescending(computed.value, RegionComparator(prioritizeRegion), PriorityKey(prioritizeRegion));
      order := sorted;
      r := PaintLayers(sorted, palette, showLegend);
    }
  }
}
