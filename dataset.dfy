/** The generator's run: scenes are generated one after another, each one's
    annotations appended to the run-wide list and its image record to the
    image list, while tincturem's hue counter carries over from image to
    image. */
module Dataset {
  import opened Wrappers
  import opened HexGrid
  import opened Categories
  import opened Scene
  import opened Coco
  import opened FileNames
  import opened Sequences

  /** An image record; the license is always 1. */
  datatype ImageRecord = ImageRecord(id: nat, license: nat, fileName: string, height: nat, width: nat, dateCaptured: string)

  /** generateImage: the scene drawn from the draws d, then rendered as image
      imageId, the run having written nextId annotations and drawn tincturem
      hue times before. */
  function SceneOutput(l: Layout, radius: nat, sprites: nat, pool: seq<Aspect>, d: SceneDraws,
                       imageId: nat, nextId: nat, hue: nat): Result<Rendered, SceneError>
  {
    match ComposeScene(radius, sprites, pool, d)
    case Err(e) => Err(e)
    case Ok(b) => Ok(RenderCells(l, b.keys, b.slots, imageId, nextId, hue))
  }

  /** The annotations and the hue counter after a run. */
  datatype RunState = RunState(annotations: seq<Annotation>, hue: nat)

  /** A run over the given scene draws, image i drawn from scenes[i]; the
      first scene that runs out of something ends the run with its error. */
  function RunScenes(l: Layout, radius: nat, sprites: nat, pool: seq<Aspect>, scenes: seq<SceneDraws>): Result<RunState, SceneError> {
    if scenes == [] then Ok(RunState([], 0))
    else
      var n := |scenes| - 1;
      match RunScenes(l, radius, sprites, pool, scenes[..n])
      case Err(e) => Err(e)
      case Ok(st) =>
        match SceneOutput(l, radius, sprites, pool, scenes[n], n, |st.annotations|, st.hue)
        case Err(e) => Err(e)
        case Ok(out) => Ok(RunState(st.annotations + out.annotations, out.hue))
  }

  /** The image records of a run, one per image. */
  function ImageRecords(radius: nat, width: nat, height: nat, dates: seq<string>): seq<ImageRecord> {
    seq(|dates|, k requires 0 <= k < |dates| => ImageRecord(k, 1, FileName(radius, k), height, width, dates[k]))
  }

  /** Image records have their position as id and pairwise different file names. */
  lemma ImageRecordsDistinct(radius: nat, width: nat, height: nat, dates: seq<string>)
    ensures var recs := ImageRecords(radius, width, height, dates);
      (forall k :: 0 <= k < |recs| ==> recs[k].id == k) &&
      forall j, k :: 0 <= j < k < |recs| ==> recs[j].fileName != recs[k].fileName
  {
    var recs := ImageRecords(radius, width, height, dates);
    forall j, k | 0 <= j < k < |recs|
      ensures recs[j].fileName != recs[k].fileName
    {
      if recs[j].fileName == recs[k].fileName {
        FileNamesDistinct(radius, j, k);
      }
    }
  }

  /** A run over one more scene continues the run so far with that scene. */
  lemma RunStep(l: Layout, radius: nat, sprites: nat, pool: seq<Aspect>, scenes: seq<SceneDraws>, d: SceneDraws, st: RunState)
    requires RunScenes(l, radius, sprites, pool, scenes) == Ok(st)
    ensures RunScenes(l, radius, sprites, pool, scenes + [d]) ==
      match SceneOutput(l, radius, sprites, pool, d, |scenes|, |st.annotations|, st.hue)
      case Err(e) => Err(e)
      case Ok(out) => Ok(RunState(st.annotations + out.annotations, out.hue))
  {
    assert (scenes + [d])[..|scenes|] == scenes;
  }

  /** One step of the drawing loop: with the cells before i drawn into the
      run-wide list `before` from position `start` on, drawing cell i as
      CellOutput extends the drawing of cells 0..i. */
  lemma DrawStep(l: Layout, keys: seq<Cell>, slots: seq<Slot>, i: nat, imageId: nat, start: nat, hue: nat,
                 ops: seq<DrawOp>, before: seq<Annotation>, hueBefore: nat)
    requires |keys| == |slots| && i < |keys| && start <= |before|
    requires RenderCells(l, keys[..i], slots[..i], imageId, start, hue) == Rendered(ops, before[start..], hueBefore)
    ensures var out := CellOutput(l, keys[i], slots[i], imageId, |before|, hueBefore);
      RenderCells(l, keys[..i + 1], slots[..i + 1], imageId, start, hue)
        == Rendered(ops + out.ops, (before + out.annotations)[start..], out.hue) &&
      (before + out.annotations)[..start] == before[..start]
  {
    RenderStep(l, keys, slots, i, imageId, start, hue);
    var out := CellOutput(l, keys[i], slots[i], imageId, |before|, hueBefore);
    assert (before + out.annotations)[start..] == before[start..] + out.annotations;
  }

  /** One more capture date adds one record, with the next id. */
  lemma ImageRecordsStep(radius: nat, width: nat, height: nat, dates: seq<string>, date: string)
    ensures ImageRecords(radius, width, height, dates + [date]) ==
      ImageRecords(radius, width, height, dates) + [ImageRecord(|dates|, 1, FileName(radius, |dates|), height, width, date)]
  {
  }

  /** A run that failed on some image fails as a whole. */
  lemma {:induction false} RunFailsFromPrefix(l: Layout, radius: nat, sprites: nat, pool: seq<Aspect>, scenes: seq<SceneDraws>, n: nat)
    requires n <= |scenes| && RunScenes(l, radius, sprites, pool, scenes[..n]).Err?
    ensures RunScenes(l, radius, sprites, pool, scenes).Err?
    decreases |scenes| - n
  {
    if n < |scenes| {
      assert scenes[..n + 1][..n] == scenes[..n];
      RunFailsFromPrefix(l, radius, sprites, pool, scenes, n + 1);
    } else {
      assert scenes[..n] == scenes;
    }
  }

  /** Annotation ids are positions in the run-wide list, with no gap and no
      reuse across images; every annotation refers to an image of the run,
      and the annotations are grouped by image, in image order. */
  lemma {:induction false} RunIds(l: Layout, radius: nat, sprites: nat, pool: seq<Aspect>, scenes: seq<SceneDraws>)
    requires RunScenes(l, radius, sprites, pool, scenes).Ok?
    ensures IdsInOrder(RunScenes(l, radius, sprites, pool, scenes).value.annotations, |scenes|)
  {
    if scenes != [] {
      var n := |scenes| - 1;
      RunLast(l, radius, sprites, pool, scenes);
      RunIds(l, radius, sprites, pool, scenes[..n]);
      var st := RunScenes(l, radius, sprites, pool, scenes[..n]).value;
      var b := ComposeScene(radius, sprites, pool, scenes[n]).value;
      RenderAnnotations(l, b.keys, b.slots, n, |st.annotations|, st.hue);
      IdsAppend(st.annotations, RenderCells(l, b.keys, b.slots, n, |st.annotations|, st.hue).annotations, n);
    }
  }

  /** Annotation k has id k; image ids are below `images` and never decrease. */
  predicate IdsInOrder(notes: seq<Annotation>, images: nat) {
    (forall k :: 0 <= k < |notes| ==> notes[k].id == k && notes[k].imageId < images) &&
    forall j, k :: 0 <= j < k < |notes| ==> notes[j].imageId <= notes[k].imageId
  }

  /** A successful run is the run over all scenes but the last, followed by
      the last scene's annotations. */
  lemma RunLast(l: Layout, radius: nat, sprites: nat, pool: seq<Aspect>, scenes: seq<SceneDraws>)
    requires scenes != [] && RunScenes(l, radius, sprites, pool, scenes).Ok?
    ensures var n := |scenes| - 1;
      var pre := RunScenes(l, radius, sprites, pool, scenes[..n]);
      var sc := ComposeScene(radius, sprites, pool, scenes[n]);
      pre.Ok? && sc.Ok? &&
      RunScenes(l, radius, sprites, pool, scenes).value.annotations ==
        pre.value.annotations + RenderCells(l, sc.value.keys, sc.value.slots, n, |pre.value.annotations|, pre.value.hue).annotations
  {
  }

  /** Appending the annotations of image n, numbered on from the ones before. */
  lemma IdsAppend(before: seq<Annotation>, added: seq<Annotation>, n: nat)
    requires IdsInOrder(before, n)
    requires forall k :: 0 <= k < |added| ==> added[k].id == |before| + k && added[k].imageId == n
    ensures IdsInOrder(before + added, n + 1)
  {
    var notes := before + added;
    forall k | 0 <= k < |notes|
      ensures notes[k].id == k && notes[k].imageId < n + 1
    {
      if k >= |before| {
        assert notes[k] == added[k - |before|];
      }
    }
    forall j, k | 0 <= j < k < |notes|
      ensures notes[j].imageId <= notes[k].imageId
    {
      if k >= |before| {
        assert notes[k] == added[k - |before|];
        if j >= |before| {
          assert notes[j] == added[j - |before|];
        }
      }
    }
  }

  /** A cell of a finished scene that gets annotated names category 0 or
      the id of an aspect of the catalogue. */
  lemma SlotCategory(s: Slot, sprites: nat, pool: seq<Aspect>)
    requires PlacedBy(s, sprites, pool) && Emits(s)
    ensures CategoryOf(s) == 0 || exists k :: 0 <= k < |pool| && pool[k].idx == CategoryOf(s) > 0
  {
    if s.Some? && s.value.Icon? {
      var k :| 0 <= k < |pool| && pool[k] == s.value.aspect;
    }
  }

  /** Every annotation of a scene names a category: 0 for a free cell, or
      the id of an aspect of the catalogue. */
  lemma SceneCategories(l: Layout, radius: nat, sprites: nat, pool: seq<Aspect>, d: SceneDraws,
                        imageId: nat, nextId: nat, hue: nat)
    requires SceneOutput(l, radius, sprites, pool, d, imageId, nextId, hue).Ok?
    ensures forall a :: a in SceneOutput(l, radius, sprites, pool, d, imageId, nextId, hue).value.annotations ==>
      a.categoryId == 0 || exists k :: 0 <= k < |pool| && pool[k].idx == a.categoryId > 0
  {
    var b := ComposeScene(radius, sprites, pool, d).value;
    var notes := RenderCells(l, b.keys, b.slots, imageId, nextId, hue).annotations;
    assert SceneOutput(l, radius, sprites, pool, d, imageId, nextId, hue).value.annotations == notes;
    SceneContents(radius, sprites, pool, d);
    RenderAnnotations(l, b.keys, b.slots, imageId, nextId, hue);
    var ps := EmittingPositions(b.slots);
    forall a | a in notes
      ensures a.categoryId == 0 || exists k :: 0 <= k < |pool| && pool[k].idx == a.categoryId > 0
    {
      var k :| 0 <= k < |notes| && notes[k] == a;
      SlotCategory(b.slots[ps[k]], sprites, pool);
    }
  }

  /** With the registry's catalogue, every annotation of a run refers to an
      existing category: its category id is a position in the category list,
      whose entry carries that id. */
  lemma {:induction false} RunCategories(l: Layout, radius: nat, sprites: nat, names: seq<string>, scenes: seq<SceneDraws>)
    requires RunScenes(l, radius, sprites, AspectsOf(names), scenes).Ok?
    ensures forall a :: a in RunScenes(l, radius, sprites, AspectsOf(names), scenes).value.annotations ==>
      0 <= a.categoryId < |CategoriesOf(names)| && CategoriesOf(names)[a.categoryId].id == a.categoryId
  {
    var pool := AspectsOf(names);
    CatalogueShape(names);
    if scenes != [] {
      var n := |scenes| - 1;
      RunCategories(l, radius, sprites, names, scenes[..n]);
      var st := RunScenes(l, radius, sprites, pool, scenes[..n]).value;
      SceneCategories(l, radius, sprites, pool, scenes[n], n, |st.annotations|, st.hue);
    }
  }

  /** A scene writes one annotation per cell left free and one per aspect it
      placed; decoys are not annotated. */
  lemma SceneAnnotationCount(l: Layout, radius: nat, sprites: nat, names: seq<string>, d: SceneDraws,
                             imageId: nat, nextId: nat, hue: nat)
    requires SceneOutput(l, radius, sprites, AspectsOf(names), d, imageId, nextId, hue).Ok?
    ensures |SceneOutput(l, radius, sprites, AspectsOf(names), d, imageId, nextId, hue).value.annotations|
         == FreeCount(ComposeScene(radius, sprites, AspectsOf(names), d).value.slots) + |d.aspects|
  {
    var pool := AspectsOf(names);
    var b := ComposeScene(radius, sprites, pool, d).value;
    CatalogueShape(names);
    SceneContents(radius, sprites, pool, d);
    RenderAnnotations(l, b.keys, b.slots, imageId, nextId, hue);
    EmittingCountInScene(b.slots, sprites, pool);
  }

  /** A run never fails when every scene's loop counts lie in [R, 3R], the
      sprite sheet has a sprite and the catalogue holds at least 3R aspects. */
  lemma {:induction false} RunNeverFails(l: Layout, radius: nat, sprites: nat, pool: seq<Aspect>, scenes: seq<SceneDraws>)
    requires sprites > 0 && |pool| >= 3 * radius
    requires forall i :: 0 <= i < |scenes| ==> CountsInRange(radius, scenes[i])
    ensures RunScenes(l, radius, sprites, pool, scenes).Ok?
  {
    if scenes != [] {
      var n := |scenes| - 1;
      RunNeverFails(l, radius, sprites, pool, scenes[..n]);
      SceneNeverRunsOut(radius, sprites, pool, scenes[n]);
    }
  }

  /** The script's run-wide state: the aspect catalogue and sprite sheet it
      loaded, the annotation and image lists it fills, and tincturem's hue
      counter, which lives on the shared aspect object. */
  class Generator {
    const layout: Layout
    const radius: nat
    const pool: seq<Aspect>
    const sprites: nat
    /** The background's size, which every output image has. */
    const width: nat
    const height: nat
    var annotations: seq<Annotation>
    var images: seq<ImageRecord>
    var tinctureDraws: nat
    /** The draws and capture dates of the images generated so far. */
    ghost var scenes: seq<SceneDraws>
    ghost var dates: seq<string>

    /** The lists hold exactly what a run over the scenes so far writes. */
    ghost predicate Valid()
      reads this
    {
      |dates| == |scenes| && images == ImageRecords(radius, width, height, dates) &&
      RunScenes(layout, radius, sprites, pool, scenes) == Ok(RunState(annotations, tinctureDraws))
    }

    constructor (layout: Layout, radius: nat, pool: seq<Aspect>, sprites: nat, width: nat, height: nat)
      ensures Valid() && images == [] && annotations == [] && tinctureDraws == 0
      ensures this.layout == layout && this.radius == radius && this.pool == pool
      ensures this.sprites == sprites && this.width == width && this.height == height
    {
      this.layout := layout;
      this.radius := radius;
      this.pool := pool;
      this.sprites := sprites;
      this.width := width;
      this.height := height;
      annotations := [];
      images := [];
      tinctureDraws := 0;
      scenes := [];
      dates := [];
    }

    /** generateImage: builds the scene, then draws it cell by cell, appending
        the annotations and advancing the hue counter. A failing random choice
        happens before anything is drawn and leaves the state as it was. */
    method GenerateImage(imageId: nat, d: SceneDraws) returns (r: Result<seq<DrawOp>, SceneError>)
      modifies this
      ensures var out := SceneOutput(layout, radius, sprites, pool, d, imageId, |old(annotations)|, old(tinctureDraws));
        (r.Ok? <==> out.Ok?) &&
        (r.Ok? ==> r.value == out.value.ops && annotations == old(annotations) + out.value.annotations &&
                   tinctureDraws == out.value.hue) &&
        (r.Err? ==> r.error == out.error && annotations == old(annotations) && tinctureDraws == old(tinctureDraws))
      ensures images == old(images) && scenes == old(scenes) && dates == old(dates)
    {
      var empty := NewBoard(radius);
      var decoys := DecoyPass(empty, sprites, d.decoys);
      if decoys.Err? {
        return Err(decoys.error);
      }
      var placed := AspectPass(decoys.value, pool, d.aspects);
      if placed.Err? {
        return Err(placed.error);
      }
      var b := placed.value.0;
      assert ComposeScene(radius, sprites, pool, d) == Ok(b);
      var ops := Draw(b, imageId);
      r := Ok(ops);
    }

    /** The drawing loop of generateImage, over the cells in dictionary order. */
    method Draw(b: Board, imageId: nat) returns (ops: seq<DrawOp>)
      requires WellFormed(b)
      modifies this
      ensures var out := RenderCells(layout, b.keys, b.slots, imageId, |old(annotations)|, old(tinctureDraws));
        ops == out.ops && annotations == old(annotations) + out.annotations && tinctureDraws == out.hue
      ensures images == old(images) && scenes == old(scenes) && dates == old(dates)
    {
      ghost var start := |annotations|;
      ghost var hue := tinctureDraws;
      ops := [];
      var i := 0;
      while i < |b.keys|
        invariant 0 <= i <= |b.keys|
        invariant start <= |annotations| && annotations[..start] == old(annotations)
        invariant RenderCells(layout, b.keys[..i], b.slots[..i], imageId, start, hue)
               == Rendered(ops, annotations[start..], tinctureDraws)
        invariant images == old(images) && scenes == old(scenes) && dates == old(dates)
      {
        DrawStep(layout, b.keys, b.slots, i, imageId, start, hue, ops, annotations, tinctureDraws);
        var cellOps := DrawCell(b.keys[i], b.slots[i], imageId);
        ops := ops + cellOps;
        i := i + 1;
      }
      assert b.keys[..i] == b.keys && b.slots[..i] == b.slots;
      assert annotations == old(annotations) + annotations[start..];
    }

    /** Drawing one cell: the highlight and the tile, hue-shifted for
        tincturem, or the empty hexagon; and its annotation, if any. */
    method DrawCell(c: Cell, slot: Slot, imageId: nat) returns (cellOps: seq<DrawOp>)
      modifies this
      ensures var out := CellOutput(layout, c, slot, imageId, |old(annotations)|, old(tinctureDraws));
        cellOps == out.ops && annotations == old(annotations) + out.annotations && tinctureDraws == out.hue
      ensures images == old(images) && scenes == old(scenes) && dates == old(dates)
    {
      var box := CellBox(layout, c);
      if slot.Some? {
        var o := slot.value;
        cellOps := [];
        if o.Icon? && o.lit {
          cellOps := [Highlight(box)];
        }
        var shift: Option<real> := None;
        if o.Icon? && o.aspect.name == Tincturem {
          tinctureDraws := tinctureDraws + 1;
          shift := Some(HueStep * tinctureDraws as real);
        }
        cellOps := cellOps + [Tile(o, shift, box)];
        if Idx(o) > 0 {
          annotations := annotations + [Annotation(|annotations|, imageId, Idx(o), box, box.width * box.height)];
        }
      } else {
        cellOps := [EmptyHex(box)];
        annotations := annotations + [Annotation(|annotations|, imageId, 0, box, box.width * box.height)];
      }
    }

    /** One pass of the main loop: image |images| is generated from d, then
        its record is appended with the file name taken from its output path.
        When the scene's random choices fail nothing changes. */
    method AddImage(d: SceneDraws, date: string) returns (ok: bool)
      requires Valid()
      modifies this
      ensures Valid()
      ensures ok == RunScenes(layout, radius, sprites, pool, old(scenes) + [d]).Ok?
      ensures ok ==> scenes == old(scenes) + [d] && dates == old(dates) + [date]
      ensures !ok ==> scenes == old(scenes) && dates == old(dates)
    {
      var i := |images|;
      RunStep(layout, radius, sprites, pool, scenes, d, RunState(annotations, tinctureDraws));
      var r := GenerateImage(i, d);
      if r.Err? {
        return false;
      }
      AppendRecord(date);
      scenes := scenes + [d];
      dates := dates + [date];
      ok := true;
    }

    /** Appends the record of the image just generated, its file name taken
        from its output path. */
    method AppendRecord(date: string)
      requires images == ImageRecords(radius, width, height, dates)
      modifies this
      ensures images == ImageRecords(radius, width, height, dates + [date])
      ensures annotations == old(annotations) && tinctureDraws == old(tinctureDraws)
      ensures scenes == old(scenes) && dates == old(dates)
    {
      var i := |images|;
      var fileName := LastComponent(OutputPath(radius, i));
      FileNameOfPath(radius, i);
      ImageRecordsStep(radius, width, height, dates, date);
      images := images + [ImageRecord(i, 1, fileName, height, width, date)];
    }

    /** Pass i of the main loop over the given scenes and dates: a failure
        there is a failure of the whole run. */
    method AddNext(newScenes: seq<SceneDraws>, newDates: seq<string>, i: nat) returns (ok: bool)
      requires Valid() && i < |newScenes| && |newDates| == |newScenes|
      requires scenes == newScenes[..i] && dates == newDates[..i]
      modifies this
      ensures Valid()
      ensures ok ==> scenes == newScenes[..i + 1] && dates == newDates[..i + 1]
      ensures !ok ==> RunScenes(layout, radius, sprites, pool, newScenes).Err?
    {
      PrefixStep(newScenes, i);
      PrefixStep(newDates, i);
      ok := AddImage(newScenes[i], newDates[i]);
      if !ok {
        RunFailsFromPrefix(layout, radius, sprites, pool, newScenes, i + 1);
      }
    }

    /** The main loop over the images of the run, which stops at the first
        image whose random choices fail. */
    method Run(newScenes: seq<SceneDraws>, newDates: seq<string>) returns (ok: bool)
      requires Valid() && images == [] && |newDates| == |newScenes|
      modifies this
      ensures Valid()
      ensures ok == RunScenes(layout, radius, sprites, pool, newScenes).Ok?
      ensures ok ==> scenes == newScenes && dates == newDates
    {
      var i := 0;
      while i < |newScenes|
        invariant 0 <= i <= |newScenes|
        invariant Valid() && scenes == newScenes[..i] && dates == newDates[..i]
      {
        ok := AddNext(newScenes, newDates, i);
        if !ok {
          return;
        }
        i := i + 1;
      }
      assert newScenes[..i] == newScenes && newDates[..i] == newDates;
      ok := true;
    }
  }
}
