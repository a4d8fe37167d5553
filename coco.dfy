/** Drawing a finished scene and writing its object-detection annotations in
    the COCO format. Every cell gets drawn in dictionary order: an empty
    hexagon when it is free, otherwise an optional highlight and then its
    tile. Free cells are annotated with category 0 and aspects with their
    own id; decoys are drawn but not annotated. Annotation ids count the
    annotations of the whole run, across images. */
module Coco {
  import opened Wrappers
  import opened HexGrid
  import opened Categories
  import opened Scene

  /** One annotation record; "segmentation" is always [] and "iscrowd" 0. */
  datatype Annotation = Annotation(id: nat, imageId: nat, categoryId: int, bbox: Box, area: int)

  /** The compositing steps, as an ordered list of layers pasted onto the
      background: the highlight image, a cell's tile (with the hue shift
      applied to it, if any), or the empty hexagon image. */
  datatype DrawOp =
    | Highlight(at: Box)
    | Tile(what: Occupant, hue: Option<real>, at: Box)
    | EmptyHex(at: Box)

  /** tincturem's hue turns by this much each time it is drawn. */
  const HueStep: real := 0.08

  /** The outcome of drawing some cells: the layers, the annotations, and how
      often tincturem has been drawn since the run started. */
  datatype Rendered = Rendered(ops: seq<DrawOp>, annotations: seq<Annotation>, hue: nat)

  /** Whether a cell gets an annotation: free cells and cells whose aspect id is positive. */
  predicate Emits(s: Slot) {
    s.None? || Idx(s.value) > 0
  }

  /** The category an annotated cell is filed under. */
  function CategoryOf(s: Slot): int {
    if s.None? then 0 else Idx(s.value)
  }

  predicate IsTincturem(o: Occupant) {
    o.Icon? && o.aspect.name == Tincturem
  }

  /** Drawing one cell, the hue counter standing at `hue` and the run's
      annotation list holding `nextId` records. */
  function CellOutput(l: Layout, c: Cell, s: Slot, imageId: nat, nextId: nat, hue: nat): Rendered {
    var box := CellBox(l, c);
    var note := [Annotation(nextId, imageId, CategoryOf(s), box, box.width * box.height)];
    match s
    case None => Rendered([EmptyHex(box)], note, hue)
    case Some(o) =>
      var light := if o.Icon? && o.lit then [Highlight(box)] else [];
      var hue' := if IsTincturem(o) then hue + 1 else hue;
      var shift := if IsTincturem(o) then Some(HueStep * hue' as real) else None;
      Rendered(light + [Tile(o, shift, box)], if Idx(o) > 0 then note else [], hue')
  }

  /** Drawing the cells in dictionary order. */
  function RenderCells(l: Layout, keys: seq<Cell>, slots: seq<Slot>, imageId: nat, nextId: nat, hue: nat): Rendered
    requires |keys| == |slots|
  {
    if keys == [] then Rendered([], [], hue)
    else
      var n := |keys| - 1;
      var pre := RenderCells(l, keys[..n], slots[..n], imageId, nextId, hue);
      var last := CellOutput(l, keys[n], slots[n], imageId, nextId + |pre.annotations|, pre.hue);
      Rendered(pre.ops + last.ops, pre.annotations + last.annotations, last.hue)
  }

  /** Drawing cells 0..i is drawing cells 0..i-1, then cell i. */
  lemma RenderStep(l: Layout, keys: seq<Cell>, slots: seq<Slot>, i: nat, imageId: nat, nextId: nat, hue: nat)
    requires |keys| == |slots| && i < |keys|
    ensures var pre := RenderCells(l, keys[..i], slots[..i], imageId, nextId, hue);
      var out := CellOutput(l, keys[i], slots[i], imageId, nextId + |pre.annotations|, pre.hue);
      RenderCells(l, keys[..i + 1], slots[..i + 1], imageId, nextId, hue)
        == Rendered(pre.ops + out.ops, pre.annotations + out.annotations, out.hue)
  {
    assert keys[..i + 1][..i] == keys[..i] && slots[..i + 1][..i] == slots[..i];
  }

  /** Drawing all the cells draws all but the last, then the last. */
  lemma RenderLast(l: Layout, keys: seq<Cell>, slots: seq<Slot>, imageId: nat, nextId: nat, hue: nat)
    requires |keys| == |slots| && keys != []
    ensures var n := |keys| - 1;
      var pre := RenderCells(l, keys[..n], slots[..n], imageId, nextId, hue);
      var out := CellOutput(l, keys[n], slots[n], imageId, nextId + |pre.annotations|, pre.hue);
      RenderCells(l, keys, slots, imageId, nextId, hue).ops == pre.ops + out.ops
  {
  }

  /** The positions of the annotated cells, in dictionary order. */
  function EmittingPositions(slots: seq<Slot>): (ps: seq<nat>)
    ensures forall k :: 0 <= k < |ps| ==> ps[k] < |slots| && Emits(slots[ps[k]])
    ensures forall i :: 0 <= i < |slots| && Emits(slots[i]) ==> i in ps
    ensures forall k, m :: 0 <= k < m < |ps| ==> ps[k] < ps[m]
  {
    if slots == [] then []
    else
      var init := EmittingPositions(slots[..|slots| - 1]);
      if Emits(slots[|slots| - 1]) then init + [|slots| - 1] else init
  }

  /** The annotations of a drawing are, one for one and in order, the
      annotated cells: annotation k has the k-th next id, the image's id, the
      cell's category and box, and the box's area. */
  lemma {:induction false} RenderAnnotations(l: Layout, keys: seq<Cell>, slots: seq<Slot>, imageId: nat, nextId: nat, hue: nat)
    requires |keys| == |slots|
    ensures var notes := RenderCells(l, keys, slots, imageId, nextId, hue).annotations;
      var ps := EmittingPositions(slots);
      |notes| == |ps| &&
      forall k :: 0 <= k < |ps| ==>
        notes[k] == Annotation(nextId + k, imageId, CategoryOf(slots[ps[k]]), CellBox(l, keys[ps[k]]),
                               SlotPixels(l) * SlotPixels(l))
  {
    if keys != [] {
      var n := |keys| - 1;
      RenderAnnotations(l, keys[..n], slots[..n], imageId, nextId, hue);
      var pre := RenderCells(l, keys[..n], slots[..n], imageId, nextId, hue);
      var ps := EmittingPositions(slots[..n]);
      var notes := RenderCells(l, keys, slots, imageId, nextId, hue).annotations;
      assert notes[..|pre.annotations|] == pre.annotations;
      forall k | 0 <= k < |ps|
        ensures keys[ps[k]] == keys[..n][ps[k]] && slots[ps[k]] == slots[..n][ps[k]]
      {
      }
    }
  }

  /** Every annotation's area is the square of the slot size, for every cell. */
  lemma AnnotationAreas(l: Layout, keys: seq<Cell>, slots: seq<Slot>, imageId: nat, nextId: nat, hue: nat)
    requires |keys| == |slots|
    ensures forall a :: a in RenderCells(l, keys, slots, imageId, nextId, hue).annotations ==>
      a.imageId == imageId && a.bbox.width == a.bbox.height == SlotPixels(l) && a.area == a.bbox.width * a.bbox.height
  {
    RenderAnnotations(l, keys, slots, imageId, nextId, hue);
  }

  /** A finished scene whose aspects all have positive ids gets one annotation
      per free cell plus one per aspect on the board: decoys get none. */
  lemma {:induction false} EmittingCountInScene(slots: seq<Slot>, sprites: nat, pool: seq<Aspect>)
    requires forall i :: 0 <= i < |slots| ==> PlacedBy(slots[i], sprites, pool)
    requires forall k :: 0 <= k < |pool| ==> pool[k].idx > 0
    ensures |EmittingPositions(slots)| == FreeCount(slots) + |Icons(slots)|
  {
    if slots != [] {
      var n := |slots| - 1;
      EmittingCountInScene(slots[..n], sprites, pool);
      assert PlacedBy(slots[n], sprites, pool);
    }
  }

  /** The number of times tincturem is drawn in these cells. */
  function TincturemCount(slots: seq<Slot>): nat {
    if slots == [] then 0
    else TincturemCount(slots[..|slots| - 1]) + (if slots[|slots| - 1].Some? && IsTincturem(slots[|slots| - 1].value) then 1 else 0)
  }

  /** The hue shifts applied to tiles, in drawing order. */
  function TileHues(ops: seq<DrawOp>): seq<real> {
    if ops == [] then []
    else TileHues(ops[..|ops| - 1]) + (if ops[|ops| - 1].Tile? && ops[|ops| - 1].hue.Some? then [ops[|ops| - 1].hue.value] else [])
  }

  lemma {:induction false} TileHuesAppend(a: seq<DrawOp>, b: seq<DrawOp>)
    ensures TileHues(a + b) == TileHues(a) + TileHues(b)
    decreases |b|
  {
    if b != [] {
      var n := |b| - 1;
      assert (a + b)[..|a + b| - 1] == a + b[..n];
      TileHuesAppend(a, b[..n]);
    } else {
      assert a + b == a;
    }
  }

  /** The hue shifts one cell contributes when the counter stands at `hue`:
      the counter's next value when it holds tincturem, nothing otherwise. */
  function HueTail(t: bool, hue: nat): seq<real> {
    if t then [HueStep * (hue + 1) as real] else []
  }

  /** The hues of the first `count` tincturem tiles drawn after the counter
      stood at `hue`: the k-th one is 0.08 times the counter's k-th next value. */
  function HueRun(hue: nat, count: nat): (hs: seq<real>)
    ensures |hs| == count
  {
    if count == 0 then [] else HueRun(hue, count - 1) + [HueStep * (hue + count) as real]
  }

  /** A run one longer ends with the counter's next value after the run. */
  lemma HueRunNext(hue: nat, count: nat, longer: nat, next: nat)
    requires longer == count + 1 && next == hue + longer
    ensures HueRun(hue, longer) == HueRun(hue, count) + [HueStep * next as real]
  {
  }

  /** The k-th entry of a run is 0.08 times the counter's k-th next value. */
  lemma {:induction false} HueRunAt(hue: nat, count: nat, k: nat)
    requires k < count
    ensures HueRun(hue, count)[k] == HueStep * (hue + k + 1) as real
  {
    if k < count - 1 {
      HueRunAt(hue, count - 1, k);
    }
  }

  lemma TileHuesOne(op: DrawOp)
    ensures TileHues([op]) == if op.Tile? && op.hue.Some? then [op.hue.value] else []
  {
    assert [op][..0] == [];
  }

  /** One cell advances the counter by one exactly when it holds tincturem,
      whose tile then carries the counter's new value. */
  lemma CellHues(l: Layout, c: Cell, s: Slot, imageId: nat, nextId: nat, hue: nat)
    ensures var out := CellOutput(l, c, s, imageId, nextId, hue);
      var t := s.Some? && IsTincturem(s.value);
      out.hue == (if t then hue + 1 else hue) &&
      TileHues(out.ops) == HueTail(t, hue)
  {
    var box := CellBox(l, c);
    match s
    case None =>
      TileHuesOne(EmptyHex(box));
    case Some(o) =>
      var shift := if IsTincturem(o) then Some(HueStep * (hue + 1) as real) else None;
      var tile := Tile(o, shift, box);
      TileHuesOne(tile);
      if o.Icon? && o.lit {
        TileHuesOne(Highlight(box));
        TileHuesAppend([Highlight(box)], [tile]);
      } else {
        assert [] + [tile] == [tile];
      }
  }

  /** Tiles drawn after a run of c tincturem tiles continue the run when
      they hold the next tincturem tile, or no tincturem tile at all. */
  lemma HuesAppend(ops: seq<DrawOp>, a: seq<DrawOp>, b: seq<DrawOp>, hue: nat, c: nat, now: nat, t: bool, total: nat)
    requires ops == a + b
    requires total == (if t then c + 1 else c)
    requires now == hue + c && TileHues(a) == HueRun(hue, c)
    requires TileHues(b) == HueTail(t, now)
    ensures TileHues(ops) == HueRun(hue, total)
  {
    TileHuesAppend(a, b);
    assert TileHues(ops) == HueRun(hue, c) + TileHues(b);
    if t {
      HueRunNext(hue, c, total, now + 1);
    } else {
      assert HueRun(hue, c) + [] == HueRun(hue, c);
    }
  }

  /** Drawing advances the tincturem counter by one per tincturem cell. */
  lemma {:induction false} HueCount(l: Layout, keys: seq<Cell>, slots: seq<Slot>, imageId: nat, nextId: nat, hue: nat)
    requires |keys| == |slots|
    ensures RenderCells(l, keys, slots, imageId, nextId, hue).hue == hue + TincturemCount(slots)
  {
    if keys != [] {
      var n := |keys| - 1;
      HueCount(l, keys[..n], slots[..n], imageId, nextId, hue);
      var pre := RenderCells(l, keys[..n], slots[..n], imageId, nextId, hue);
      CellHues(l, keys[n], slots[n], imageId, nextId + |pre.annotations|, pre.hue);
    }
  }

  /** The tincturem counter is never reset: the k-th tincturem tile drawn is
      shifted by 0.08 times the counter's k-th next value, and no other tile
      is shifted. */
  lemma {:induction false} HueSchedule(l: Layout, keys: seq<Cell>, slots: seq<Slot>, imageId: nat, nextId: nat, hue: nat)
    requires |keys| == |slots|
    ensures TileHues(RenderCells(l, keys, slots, imageId, nextId, hue).ops) == HueRun(hue, TincturemCount(slots))
  {
    if keys != [] {
      var n := |keys| - 1;
      var ks, ss, c, s := keys[..n], slots[..n], keys[n], slots[n];
      HueSchedule(l, ks, ss, imageId, nextId, hue);
      HueCount(l, ks, ss, imageId, nextId, hue);
      RenderLast(l, keys, slots, imageId, nextId, hue);
      var pre := RenderCells(l, ks, ss, imageId, nextId, hue);
      var at := nextId + |pre.annotations|;
      CellHues(l, c, s, imageId, at, pre.hue);
      HuesAppend(RenderCells(l, keys, slots, imageId, nextId, hue).ops, pre.ops, CellOutput(l, c, s, imageId, at, pre.hue).ops,
                 hue, TincturemCount(ss), pre.hue, s.Some? && IsTincturem(s.value), TincturemCount(slots));
    }
  }

  /** A highlight is always pasted right before the tile of the lit aspect
      in the same box. */
  predicate HighlightsUnderTiles(ops: seq<DrawOp>) {
    forall i :: 0 <= i < |ops| && ops[i].Highlight? ==>
      i + 1 < |ops| && ops[i + 1].Tile? && ops[i + 1].at == ops[i].at &&
      ops[i + 1].what.Icon? && ops[i + 1].what.lit
  }

  /** The tile of a lit aspect always comes right after a highlight in its box. */
  predicate LitTilesHighlighted(ops: seq<DrawOp>) {
    forall i :: 0 <= i < |ops| && ops[i].Tile? && ops[i].what.Icon? && ops[i].what.lit ==>
      0 < i && ops[i - 1] == Highlight(ops[i].at)
  }

  /** The layers other than highlights, in pasting order. */
  function Bases(ops: seq<DrawOp>): seq<DrawOp> {
    if ops == [] then []
    else Bases(ops[..|ops| - 1]) + (if ops[|ops| - 1].Highlight? then [] else [ops[|ops| - 1]])
  }

  lemma {:induction false} BasesAppend(a: seq<DrawOp>, b: seq<DrawOp>)
    ensures Bases(a + b) == Bases(a) + Bases(b)
    decreases |b|
  {
    if b != [] {
      var n := |b| - 1;
      assert (a + b)[..|a + b| - 1] == a + b[..n];
      BasesAppend(a, b[..n]);
    } else {
      assert a + b == a;
    }
  }

  /** The base layer a cell pastes in `box`: the empty hexagon when the cell
      is free, otherwise its occupant's own image. */
  predicate Pastes(op: DrawOp, box: Box, s: Slot) {
    match s
    case None => op == EmptyHex(box)
    case Some(o) => op.Tile? && op.what == o && op.at == box
  }

  /** A highlight when the slot holds a lit aspect, then the base layer:
      every highlight sits right under the lit tile and the other way round,
      and the base layer is the only one that is not a highlight. */
  lemma LayersOf(ops: seq<DrawOp>, box: Box, s: Slot, base: DrawOp)
    requires Pastes(base, box, s)
    requires ops == (if s.Some? && s.value.Icon? && s.value.lit then [Highlight(box)] else []) + [base]
    ensures Bases(ops) == [base]
    ensures HighlightsUnderTiles(ops) && LitTilesHighlighted(ops)
  {
    if s.Some? && s.value.Icon? && s.value.lit {
      assert ops[..1] == [Highlight(box)] && ops[..1][..0] == [];
      assert Bases(ops[..1]) == [];
    } else {
      assert ops[..0] == [];
    }
  }

  /** One cell's layers, by case: a free cell pastes the empty hexagon in its
      box; an occupied one pastes its occupant's image there, right after a
      highlight in the same box exactly when it is a lit aspect. */
  lemma CellLayers(l: Layout, c: Cell, s: Slot, imageId: nat, nextId: nat, hue: nat)
    ensures var ops := CellOutput(l, c, s, imageId, nextId, hue).ops;
      var box := CellBox(l, c);
      var lit := s.Some? && s.value.Icon? && s.value.lit;
      |ops| == (if lit then 2 else 1) &&
      (lit ==> ops[0] == Highlight(box)) &&
      Pastes(ops[|ops| - 1], box, s) &&
      Bases(ops) == [ops[|ops| - 1]]
    ensures var ops := CellOutput(l, c, s, imageId, nextId, hue).ops;
      HighlightsUnderTiles(ops) && LitTilesHighlighted(ops)
  {
    var ops := CellOutput(l, c, s, imageId, nextId, hue).ops;
    var box := CellBox(l, c);
    var base := ops[|ops| - 1];
    assert Pastes(base, box, s);
    LayersOf(ops, box, s, base);
  }

  lemma HighlightsAppend(a: seq<DrawOp>, b: seq<DrawOp>)
    requires HighlightsUnderTiles(a) && HighlightsUnderTiles(b)
    requires LitTilesHighlighted(a) && LitTilesHighlighted(b)
    ensures HighlightsUnderTiles(a + b) && LitTilesHighlighted(a + b)
  {
    forall i | 0 <= i < |a + b| && (a + b)[i].Highlight?
      ensures i + 1 < |a + b| && (a + b)[i + 1].Tile? && (a + b)[i + 1].at == (a + b)[i].at &&
        (a + b)[i + 1].what.Icon? && (a + b)[i + 1].what.lit
    {
      if i < |a| {
        assert (a + b)[i] == a[i];
      } else {
        assert (a + b)[i] == b[i - |a|];
      }
    }
    forall i | 0 <= i < |a + b| && (a + b)[i].Tile? && (a + b)[i].what.Icon? && (a + b)[i].what.lit
      ensures 0 < i && (a + b)[i - 1] == Highlight((a + b)[i].at)
    {
      if i < |a| {
        assert (a + b)[i] == a[i];
      } else {
        assert (a + b)[i] == b[i - |a|];
      }
    }
  }

  /** Cells whose base layers, in order, are those the cells paste. */
  predicate BasesOfCells(l: Layout, keys: seq<Cell>, slots: seq<Slot>, bases: seq<DrawOp>)
    requires |keys| == |slots|
  {
    |bases| == |keys| &&
    forall k :: 0 <= k < |keys| ==> Pastes(bases[k], CellBox(l, keys[k]), slots[k])
  }

  /** Adding one cell's base layer to those of the cells before it. */
  lemma BasesOfCellsStep(l: Layout, keys: seq<Cell>, slots: seq<Slot>, bases: seq<DrawOp>, last: DrawOp)
    requires |keys| == |slots| && keys != []
    requires BasesOfCells(l, keys[..|keys| - 1], slots[..|keys| - 1], bases)
    requires Pastes(last, CellBox(l, keys[|keys| - 1]), slots[|keys| - 1])
    ensures BasesOfCells(l, keys, slots, bases + [last])
  {
    var n := |keys| - 1;
    forall k | 0 <= k < |keys|
      ensures Pastes((bases + [last])[k], CellBox(l, keys[k]), slots[k])
    {
      if k < n {
        assert keys[..n][k] == keys[k] && slots[..n][k] == slots[k];
      }
    }
  }

  /** Drawing pastes, for the k-th cell in dictionary order, the k-th base
      layer: the empty hexagon in the cell's box when it is free, otherwise its
      occupant's image there. A lit aspect's tile comes right after a highlight
      in its box, and every highlight right before such a tile. */
  lemma {:induction false} LayerOrder(l: Layout, keys: seq<Cell>, slots: seq<Slot>, imageId: nat, nextId: nat, hue: nat)
    requires |keys| == |slots|
    ensures var ops := RenderCells(l, keys, slots, imageId, nextId, hue).ops;
      HighlightsUnderTiles(ops) && LitTilesHighlighted(ops)
    ensures BasesOfCells(l, keys, slots, Bases(RenderCells(l, keys, slots, imageId, nextId, hue).ops))
  {
    if keys != [] {
      var n := |keys| - 1;
      var ks, ss := keys[..n], slots[..n];
      LayerOrder(l, ks, ss, imageId, nextId, hue);
      RenderLast(l, keys, slots, imageId, nextId, hue);
      var pre := RenderCells(l, ks, ss, imageId, nextId, hue);
      var nid := nextId + |pre.annotations|;
      CellLayers(l, keys[n], slots[n], imageId, nid, pre.hue);
      var last := CellOutput(l, keys[n], slots[n], imageId, nid, pre.hue).ops;
      BasesAppend(pre.ops, last);
      HighlightsAppend(pre.ops, last);
      BasesOfCellsStep(l, keys, slots, Bases(pre.ops), last[|last| - 1]);
    }
  }
}
