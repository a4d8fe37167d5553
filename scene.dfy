/** One scene of the generator: the cell dictionary of the field, filled first
    with decoys on random cells and then with distinct aspects on cells that
    are still empty. Every random draw of the script is a value the caller
    supplies: a choice from a list of length n is a natural number taken
    modulo n (so every element can be chosen, and an empty list is the
    IndexError the script would raise), `random.random() < p` is a boolean,
    and the count `random.randint(R, 3R)` is the length of the draw list. */
module Scene {
  import opened Wrappers
  import opened Sequences
  import opened HexGrid
  import opened Categories

  /** What a cell holds once something was put there. */
  datatype Occupant =
    | Blank                            // the transparent `_EMPTY_` marker, idx -1
    | Script(sprite: nat)              // a `_SCRIPT_` decoy cut from the sprite sheet, idx -2
    | Icon(aspect: Aspect, lit: bool)  // an aspect, with the highlight flag drawn for it in this scene

  /** The `idx` of the aspect object the cell refers to. */
  function Idx(o: Occupant): int {
    match o
    case Blank => -1
    case Script(_) => -2
    case Icon(a, _) => a.idx
  }

  /** A cell's value in the dictionary: None while free. */
  type Slot = Option<Occupant>

  /** The insertion-ordered cell dictionary as its keys and, position by
      position, their values. */
  datatype Board = Board(keys: seq<Cell>, slots: seq<Slot>)

  predicate WellFormed(b: Board) {
    |b.keys| == |b.slots|
  }

  /** The dictionary right after enumeration: every field cell, all free. */
  function EmptyBoard(r: nat): (b: Board)
    ensures WellFormed(b)
    ensures Distinct(b.keys) && forall c :: c in b.keys <==> InField(r, c)
    ensures forall i :: 0 <= i < |b.slots| ==> b.slots[i] == None
  {
    CellsFacts(r);
    Board(Cells(r), Frees(|Cells(r)|))
  }

  /** n free slots. */
  function Frees(n: nat): (s: seq<Slot>)
    ensures |s| == n && forall i :: 0 <= i < n ==> s[i] == None
  {
    if n == 0 then [] else Frees(n - 1) + [None]
  }

  /** The inner loop: inserts the cells of column x, rows lo..hi, each free. */
  method InsertColumn(keys: seq<Cell>, slots: seq<Slot>, x: int, lo: int, hi: int)
    returns (keys': seq<Cell>, slots': seq<Slot>)
    requires slots == Frees(|keys|)
    ensures keys' == keys + ColumnCells(x, lo, hi) && slots' == Frees(|keys'|)
  {
    keys', slots' := keys, slots;
    var y := lo;
    while y <= hi
      invariant keys' + ColumnCells(x, y, hi) == keys + ColumnCells(x, lo, hi)
      invariant slots' == Frees(|keys'|)
    {
      assert ColumnCells(x, y, hi) == [Cell(x, y)] + ColumnCells(x, y + 1, hi);
      keys' := keys' + [Cell(x, y)];
      slots' := slots' + [None];
      y := y + 1;
    }
    assert ColumnCells(x, y, hi) == [];
  }

  /** Column x followed by the columns after it are the columns from x on. */
  lemma NextColumn(r: nat, x: int, keys: seq<Cell>)
    requires x <= r && keys + ColumnsFrom(r, x) == Cells(r)
    ensures (keys + ColumnCells(x, RowLow(r, x), RowHigh(r, x))) + ColumnsFrom(r, x + 1) == Cells(r)
  {
  }

  /** All field cells inserted, each free: the dictionary after enumeration. */
  lemma EnumerationDone(r: nat, keys: seq<Cell>, slots: seq<Slot>)
    requires keys + ColumnsFrom(r, r + 1) == Cells(r) && slots == Frees(|keys|)
    ensures Board(keys, slots) == EmptyBoard(r)
    ensures |slots| == 3 * r * r + 3 * r + 1
  {
    assert keys == Cells(r);
    CellsCount(r);
    assert slots == EmptyBoard(r).slots;
  }

  /** The two nested loops that create the cell dictionary. */
  method NewBoard(r: nat) returns (b: Board)
    ensures b == EmptyBoard(r)
    ensures b.keys == Cells(r) && |b.slots| == 3 * r * r + 3 * r + 1
    ensures forall i :: 0 <= i < |b.slots| ==> b.slots[i] == None
  {
    var keys: seq<Cell> := [];
    var slots: seq<Slot> := [];
    var x: int := -(r as int);
    while x <= r
      invariant -(r as int) <= x <= r + 1
      invariant keys + ColumnsFrom(r, x) == Cells(r)
      invariant slots == Frees(|keys|)
    {
      NextColumn(r, x, keys);
      keys, slots := InsertColumn(keys, slots, x, RowLow(r, x), RowHigh(r, x));
      x := x + 1;
    }
    EnumerationDone(r, keys, slots);
    b := Board(keys, slots);
  }

  // ---------------------------------------------------------------------
  // Free cells

  /** The number of free cells. */
  function FreeCount(slots: seq<Slot>): nat {
    if slots == [] then 0
    else FreeCount(slots[..|slots| - 1]) + (if slots[|slots| - 1] == None then 1 else 0)
  }

  /** Positions of the free cells, in dictionary order (`availablePoints`). */
  function FreePositions(slots: seq<Slot>): (ps: seq<nat>)
    ensures |ps| == FreeCount(slots)
    ensures forall k :: 0 <= k < |ps| ==> ps[k] < |slots| && slots[ps[k]] == None
    ensures forall i :: 0 <= i < |slots| && slots[i] == None ==> i in ps
    ensures forall k, m :: 0 <= k < m < |ps| ==> ps[k] < ps[m]
  {
    if slots == [] then []
    else
      var init := FreePositions(slots[..|slots| - 1]);
      if slots[|slots| - 1] == None then init + [|slots| - 1] else init
  }

  /** Writing a value into position i changes the number of free cells by at
      most one, and by exactly one when a free cell is filled. */
  lemma {:induction false} FreeCountAfterWrite(slots: seq<Slot>, i: nat, v: Slot)
    requires i < |slots|
    ensures FreeCount(slots[i := v]) + 1 >= FreeCount(slots)
    ensures slots[i] == None && v != None ==> FreeCount(slots[i := v]) + 1 == FreeCount(slots)
    ensures slots[i] != None && v != None ==> FreeCount(slots[i := v]) == FreeCount(slots)
  {
    var n := |slots| - 1;
    var s' := slots[i := v];
    if i < n {
      FreeCountAfterWrite(slots[..n], i, v);
      assert s'[..n] == slots[..n][i := v];
    } else {
      assert s'[..n] == slots[..n];
    }
  }

  /** An all-free dictionary has every cell available. */
  lemma {:induction false} AllFree(slots: seq<Slot>)
    requires forall i :: 0 <= i < |slots| ==> slots[i] == None
    ensures FreeCount(slots) == |slots|
  {
    if slots != [] {
      AllFree(slots[..|slots| - 1]);
    }
  }

  /** The method that collects `availablePoints`. */
  method AvailablePoints(b: Board) returns (ps: seq<nat>)
    ensures ps == FreePositions(b.slots)
  {
    ps := [];
    var i := 0;
    while i < |b.slots|
      invariant 0 <= i <= |b.slots|
      invariant ps == FreePositions(b.slots[..i])
    {
      assert b.slots[..i + 1][..i] == b.slots[..i];
      if b.slots[i] == None {
        ps := ps + [i];
      }
      i := i + 1;
    }
    assert b.slots[..|b.slots|] == b.slots;
  }

  // ---------------------------------------------------------------------
  // The decoy pass

  datatype SceneError =
    | NoCells        // random.choice over an empty key list
    | NoScripts      // random.choice over an empty sprite list
    | NoFreeCell     // random.choice over an empty availablePoints
    | NoAspectLeft   // random.choice over an empty aspectsLeft

  /** One iteration of the decoy loop: the cell drawn from all keys, whether
      `random.random() < 0.5` (a script decoy), and the sprite drawn. */
  datatype DecoyDraw = DecoyDraw(cell: nat, script: bool, sprite: nat)

  /** The decoy a draw puts into its cell. */
  function Decoy(d: DecoyDraw, sprites: nat): Result<Occupant, SceneError> {
    if !d.script then Ok(Blank)
    else if sprites == 0 then Err(NoScripts)
    else Ok(Script(d.sprite % sprites))
  }

  /** The board after the decoy loop. Any cell may be drawn, repeatedly;
      the last draw on a cell wins. */
  function PlaceDecoys(b: Board, sprites: nat, draws: seq<DecoyDraw>): (r: Result<Board, SceneError>)
    requires WellFormed(b)
    ensures r.Ok? ==> r.value.keys == b.keys && WellFormed(r.value)
    decreases |draws|
  {
    if draws == [] then Ok(b)
    else if |b.keys| == 0 then Err(NoCells)
    else match Decoy(draws[0], sprites)
      case Err(e) => Err(e)
      case Ok(o) => PlaceDecoys(Board(b.keys, b.slots[draws[0].cell % |b.keys| := Some(o)]), sprites, draws[1..])
  }

  /** The decoy loop of generateImage. */
  method DecoyPass(b: Board, sprites: nat, draws: seq<DecoyDraw>) returns (r: Result<Board, SceneError>)
    requires WellFormed(b)
    ensures r == PlaceDecoys(b, sprites, draws)
  {
    var cur := b;
    var i := 0;
    while i < |draws|
      invariant 0 <= i <= |draws|
      invariant WellFormed(cur) && cur.keys == b.keys
      invariant PlaceDecoys(cur, sprites, draws[i..]) == PlaceDecoys(b, sprites, draws)
    {
      assert draws[i..][1..] == draws[i + 1..];
      if |cur.keys| == 0 {
        return Err(NoCells);
      }
      var point := draws[i].cell % |cur.keys|;
      var decoy: Occupant;
      if draws[i].script {
        if sprites == 0 {
          return Err(NoScripts);
        }
        decoy := Script(draws[i].sprite % sprites);
      } else {
        decoy := Blank;
      }
      cur := Board(cur.keys, cur.slots[point := Some(decoy)]);
      i := i + 1;
    }
    r := Ok(cur);
  }

  /** Holds only free cells and decoys (`_EMPTY_` or a valid sprite). */
  predicate OnlyDecoys(slots: seq<Slot>, sprites: nat) {
    forall i :: 0 <= i < |slots| ==> IsDecoyOrFree(slots[i], sprites)
  }

  predicate IsDecoyOrFree(s: Slot, sprites: nat) {
    s == None || s == Some(Blank) || (s.Some? && s.value.Script? && s.value.sprite < sprites)
  }

  /** On a field with at least one cell, the decoy pass fails exactly when a
      script decoy is drawn while the sprite sheet yielded no sprite. */
  lemma {:induction false} DecoyPassFails(b: Board, sprites: nat, draws: seq<DecoyDraw>)
    requires WellFormed(b) && |b.keys| > 0
    ensures PlaceDecoys(b, sprites, draws).Ok? <==> sprites > 0 || forall k :: 0 <= k < |draws| ==> !draws[k].script
    decreases |draws|
  {
    if draws != [] {
      var rest := draws[1..];
      assert forall k :: 1 <= k < |draws| ==> draws[k] == rest[k - 1];
      if Decoy(draws[0], sprites).Ok? {
        var o := Decoy(draws[0], sprites).value;
        DecoyPassFails(Board(b.keys, b.slots[draws[0].cell % |b.keys| := Some(o)]), sprites, rest);
      }
    }
  }

  /** After the decoy pass every cell that was free or a decoy still is. */
  lemma {:induction false} DecoyPassOnlyDecoys(b: Board, sprites: nat, draws: seq<DecoyDraw>)
    requires WellFormed(b) && OnlyDecoys(b.slots, sprites)
    requires PlaceDecoys(b, sprites, draws).Ok?
    ensures OnlyDecoys(PlaceDecoys(b, sprites, draws).value.slots, sprites)
    decreases |draws|
  {
    if draws != [] {
      var o := Decoy(draws[0], sprites).value;
      var p := draws[0].cell % |b.keys|;
      var next := Board(b.keys, b.slots[p := Some(o)]);
      assert IsDecoyOrFree(Some(o), sprites);
      DecoyPassOnlyDecoys(next, sprites, draws[1..]);
    }
  }

  /** Each decoy draw fills at most one cell, and a cell changes only if some
      draw chose it. */
  lemma {:induction false} DecoyPassFootprint(b: Board, sprites: nat, draws: seq<DecoyDraw>)
    requires WellFormed(b) && PlaceDecoys(b, sprites, draws).Ok?
    ensures FreeCount(PlaceDecoys(b, sprites, draws).value.slots) + |draws| >= FreeCount(b.slots)
    ensures forall i :: 0 <= i < |b.slots| && PlaceDecoys(b, sprites, draws).value.slots[i] != b.slots[i] ==>
      exists k :: 0 <= k < |draws| && draws[k].cell % |b.keys| == i
    decreases |draws|
  {
    if draws != [] {
      var rest := draws[1..];
      var o := Decoy(draws[0], sprites).value;
      var p := draws[0].cell % |b.keys|;
      var next := Board(b.keys, b.slots[p := Some(o)]);
      DecoyPassFootprint(next, sprites, rest);
      FreeCountAfterWrite(b.slots, p, Some(o));
      var b' := PlaceDecoys(b, sprites, draws).value;
      assert b' == PlaceDecoys(next, sprites, rest).value;
      forall i | 0 <= i < |b.slots| && b'.slots[i] != b.slots[i]
        ensures exists k :: 0 <= k < |draws| && draws[k].cell % |b.keys| == i
      {
        if i == p {
          assert draws[0].cell % |b.keys| == i;
        } else {
          assert b'.slots[i] != next.slots[i];
          var k :| 0 <= k < |rest| && rest[k].cell % |b.keys| == i;
          assert draws[k + 1] == rest[k];
        }
      }
    }
  }

  /** Draw j is the last of the draws to choose its cell, on a field of n cells. */
  predicate LastDrawOfCell(draws: seq<DecoyDraw>, n: nat, j: nat)
    requires n > 0
  {
    j < |draws| && forall k :: j < k < |draws| ==> draws[k].cell % n != draws[j].cell % n
  }

  /** A cell that no draw chooses keeps its value through the decoy pass. */
  lemma {:induction false} DecoyPassKeepsUndrawn(b: Board, sprites: nat, draws: seq<DecoyDraw>, i: nat)
    requires WellFormed(b) && PlaceDecoys(b, sprites, draws).Ok? && i < |b.slots|
    requires forall k :: 0 <= k < |draws| ==> draws[k].cell % |b.keys| != i
    ensures PlaceDecoys(b, sprites, draws).value.slots[i] == b.slots[i]
    decreases |draws|
  {
    if draws != [] {
      var rest := draws[1..];
      var o := Decoy(draws[0], sprites).value;
      var next := Board(b.keys, b.slots[draws[0].cell % |b.keys| := Some(o)]);
      forall k | 0 <= k < |rest|
        ensures rest[k].cell % |b.keys| != i
      {
        assert rest[k] == draws[k + 1];
      }
      DecoyPassKeepsUndrawn(next, sprites, rest, i);
    }
  }

  /** What the decoy pass writes: every draw's decoy is well defined, and a
      drawn cell ends up holding the decoy of the last draw that chose it
      (later picks overwrite earlier ones). */
  lemma {:induction false} DecoyPassWrites(b: Board, sprites: nat, draws: seq<DecoyDraw>)
    requires WellFormed(b) && PlaceDecoys(b, sprites, draws).Ok?
    ensures forall j :: 0 <= j < |draws| ==> |b.keys| > 0 && Decoy(draws[j], sprites).Ok?
    ensures |b.keys| > 0 ==> forall j :: 0 <= j < |draws| && LastDrawOfCell(draws, |b.keys|, j) ==>
      PlaceDecoys(b, sprites, draws).value.slots[draws[j].cell % |b.keys|] == Some(Decoy(draws[j], sprites).value)
    decreases |draws|
  {
    if draws != [] {
      var n := |b.keys|;
      var rest := draws[1..];
      var o := Decoy(draws[0], sprites).value;
      var p := draws[0].cell % n;
      var next := Board(b.keys, b.slots[p := Some(o)]);
      var b' := PlaceDecoys(b, sprites, draws).value;
      assert b' == PlaceDecoys(next, sprites, rest).value;
      DecoyPassWrites(next, sprites, rest);
      forall j | 0 <= j < |draws|
        ensures Decoy(draws[j], sprites).Ok?
      {
        if j > 0 {
          assert draws[j] == rest[j - 1];
        }
      }
      forall j | 0 <= j < |draws| && LastDrawOfCell(draws, n, j)
        ensures b'.slots[draws[j].cell % n] == Some(Decoy(draws[j], sprites).value)
      {
        if j > 0 {
          assert draws[j] == rest[j - 1];
          forall k | j - 1 < k < |rest|
            ensures rest[k].cell % n != rest[j - 1].cell % n
          {
            assert rest[k] == draws[k + 1];
          }
          assert LastDrawOfCell(rest, n, j - 1);
        } else {
          forall k | 0 <= k < |rest|
            ensures rest[k].cell % n != p
          {
            assert rest[k] == draws[k + 1];
          }
          DecoyPassKeepsUndrawn(next, sprites, rest, p);
        }
      }
    }
  }

  // ---------------------------------------------------------------------
  // The aspect pass

  /** One iteration of the aspect loop: the cell drawn from availablePoints,
      the aspect drawn from aspectsLeft, and whether `random.random() < 0.3`
      (the aspect is highlighted). */
  datatype AspectDraw = AspectDraw(cell: nat, aspect: nat, lit: bool)

  /** The pool without its element at position k (`aspectsLeft.remove`). */
  function Without(pool: seq<Aspect>, k: nat): (r: seq<Aspect>)
    requires k < |pool|
    ensures |r| == |pool| - 1
    ensures multiset(r) + multiset{pool[k]} == multiset(pool)
  {
    assert pool == pool[..k] + [pool[k]] + pool[k + 1..];
    pool[..k] + pool[k + 1..]
  }

  /** The j-th free position has exactly j free cells before it. */
  lemma {:induction false} FreeRank(slots: seq<Slot>, j: nat)
    requires j < FreeCount(slots)
    ensures FreeCount(slots[..FreePositions(slots)[j]]) == j
  {
    var n := |slots| - 1;
    var init := FreePositions(slots[..n]);
    if j < |init| {
      FreeRank(slots[..n], j);
      assert slots[..n][..init[j]] == slots[..init[j]];
    } else {
      assert slots[..n] == slots[..FreePositions(slots)[j]];
    }
  }

  /** The cell position an aspect draw fills: `random.choice(availablePoints)`
      picks the free cell with d.cell mod (number of free cells) free cells
      before it in dictionary order. */
  function DrawnCell(b: Board, d: AspectDraw): (i: nat)
    requires FreeCount(b.slots) > 0
    ensures i < |b.slots| && b.slots[i] == None
    ensures FreeCount(b.slots[..i]) == d.cell % FreeCount(b.slots)
  {
    var free := FreePositions(b.slots);
    FreeRank(b.slots, d.cell % |free|);
    free[d.cell % |free|]
  }

  /** The board after one iteration of the aspect loop. */
  function FillOne(b: Board, pool: seq<Aspect>, d: AspectDraw): (b': Board)
    requires FreeCount(b.slots) > 0 && |pool| > 0
  {
    Board(b.keys, b.slots[DrawnCell(b, d) := Some(Icon(pool[d.aspect % |pool|], d.lit))])
  }

  /** The board and the remaining pool after the aspect loop. */
  function PlaceAspects(b: Board, pool: seq<Aspect>, draws: seq<AspectDraw>): (r: Result<(Board, seq<Aspect>), SceneError>)
    requires WellFormed(b)
    ensures r.Ok? ==> r.value.0.keys == b.keys && WellFormed(r.value.0)
    decreases |draws|
  {
    if draws == [] then Ok((b, pool))
    else if FreeCount(b.slots) == 0 then Err(NoFreeCell)
    else if |pool| == 0 then Err(NoAspectLeft)
    else PlaceAspects(FillOne(b, pool, draws[0]), Without(pool, draws[0].aspect % |pool|), draws[1..])
  }

  /** The aspect loop of generateImage. */
  method AspectPass(b: Board, pool: seq<Aspect>, draws: seq<AspectDraw>) returns (r: Result<(Board, seq<Aspect>), SceneError>)
    requires WellFormed(b)
    ensures r == PlaceAspects(b, pool, draws)
  {
    var cur := b;
    var left := pool;
    var i := 0;
    while i < |draws|
      invariant 0 <= i <= |draws|
      invariant WellFormed(cur) && cur.keys == b.keys
      invariant PlaceAspects(cur, left, draws[i..]) == PlaceAspects(b, pool, draws)
    {
      assert draws[i..][1..] == draws[i + 1..];
      var available := AvailablePoints(cur);
      if |available| == 0 {
        return Err(NoFreeCell);
      }
      var point := available[draws[i].cell % |available|];
      if |left| == 0 {
        return Err(NoAspectLeft);
      }
      var k := draws[i].aspect % |left|;
      var aspect := left[k];
      cur := Board(cur.keys, cur.slots[point := Some(Icon(aspect, draws[i].lit))]);
      left := left[..k] + left[k + 1..];
      i := i + 1;
    }
    r := Ok((cur, left));
  }

  /** The aspects on the board, in dictionary order. */
  function Icons(slots: seq<Slot>): seq<Aspect> {
    if slots == [] then []
    else Icons(slots[..|slots| - 1]) + IconOf(slots[|slots| - 1])
  }

  function IconOf(s: Slot): seq<Aspect> {
    if s.Some? && s.value.Icon? then [s.value.aspect] else []
  }

  /** Putting an aspect into a free cell adds exactly that aspect to the icons. */
  lemma {:induction false} IconsAfterFill(slots: seq<Slot>, i: nat, a: Aspect, lit: bool)
    requires i < |slots| && slots[i] == None
    ensures multiset(Icons(slots[i := Some(Icon(a, lit))])) == multiset(Icons(slots)) + multiset{a}
  {
    var v := Some(Icon(a, lit));
    var front, back := slots[..i], slots[i + 1..];
    assert slots == front + [None] + back;
    assert slots[i := v] == front + [v] + back;
    IconsAppend(front + [None], back);
    IconsAppend(front + [v], back);
    IconsAppend(front, [None]);
    IconsAppend(front, [v]);
    assert Icons([None]) == Icons([]) + IconOf(None);
    assert Icons([v]) == Icons([]) + IconOf(v);
  }

  /** The icons of two runs of cells are those of the first, then those of the second. */
  lemma {:induction false} IconsAppend(s: seq<Slot>, t: seq<Slot>)
    ensures Icons(s + t) == Icons(s) + Icons(t)
    decreases |t|
  {
    if t == [] {
      assert s + t == s;
    } else {
      var n := |t| - 1;
      assert (s + t)[..|s + t| - 1] == s + t[..n];
      IconsAppend(s, t[..n]);
    }
  }

  /** The aspect pass fails exactly when free cells or aspects run out before
      the draws do. */
  lemma {:induction false} AspectPassFails(b: Board, pool: seq<Aspect>, draws: seq<AspectDraw>)
    requires WellFormed(b)
    ensures PlaceAspects(b, pool, draws).Ok? <==> |draws| <= FreeCount(b.slots) && |draws| <= |pool|
    decreases |draws|
  {
    if draws != [] && FreeCount(b.slots) > 0 && |pool| > 0 {
      var i := DrawnCell(b, draws[0]);
      FreeCountAfterWrite(b.slots, i, Some(Icon(pool[draws[0].aspect % |pool|], draws[0].lit)));
      AspectPassFails(FillOne(b, pool, draws[0]), Without(pool, draws[0].aspect % |pool|), draws[1..]);
    }
  }

  /** The aspect pass writes only into cells that are free at that moment:
      a cell that held anything keeps it, so decoys are never overwritten,
      and a cell that changed was free and now holds an aspect. */
  lemma {:induction false} AspectPassWritesFreeCells(b: Board, pool: seq<Aspect>, draws: seq<AspectDraw>)
    requires WellFormed(b) && PlaceAspects(b, pool, draws).Ok?
    ensures forall i :: 0 <= i < |b.slots| && b.slots[i] != None ==>
      PlaceAspects(b, pool, draws).value.0.slots[i] == b.slots[i]
    ensures forall i :: 0 <= i < |b.slots| && PlaceAspects(b, pool, draws).value.0.slots[i] != b.slots[i] ==>
      b.slots[i] == None && PlaceAspects(b, pool, draws).value.0.slots[i].Some? &&
      PlaceAspects(b, pool, draws).value.0.slots[i].value.Icon?
    decreases |draws|
  {
    if draws != [] {
      var next := FillOne(b, pool, draws[0]);
      AspectPassWritesFreeCells(next, Without(pool, draws[0].aspect % |pool|), draws[1..]);
    }
  }

  /** The aspect pass over draws stops after draw k in the board and pool it
      then has, and carries on from there with the remaining draws. */
  lemma {:induction false} AspectPassSplit(b: Board, pool: seq<Aspect>, draws: seq<AspectDraw>, k: nat)
    requires WellFormed(b) && PlaceAspects(b, pool, draws).Ok? && k <= |draws|
    ensures PlaceAspects(b, pool, draws[..k]).Ok?
    ensures var (bk, pk) := PlaceAspects(b, pool, draws[..k]).value;
      PlaceAspects(bk, pk, draws[k..]) == PlaceAspects(b, pool, draws)
    decreases k
  {
    if k == 0 {
      assert draws[..0] == [] && draws[0..] == draws;
    } else {
      var next := FillOne(b, pool, draws[0]);
      var left := Without(pool, draws[0].aspect % |pool|);
      assert draws[..k][1..] == draws[1..][..k - 1];
      assert draws[1..][k - 1..] == draws[k..];
      AspectPassSplit(next, left, draws[1..], k - 1);
    }
  }

  /** The first draw's aspect, with its highlight flag, stays in the cell it
      was put in: later draws write only free cells. */
  lemma AspectPassFirst(b: Board, pool: seq<Aspect>, draws: seq<AspectDraw>)
    requires WellFormed(b) && PlaceAspects(b, pool, draws).Ok? && draws != []
    ensures FreeCount(b.slots) > 0 && |pool| > 0
    ensures PlaceAspects(b, pool, draws).value.0.slots[DrawnCell(b, draws[0])] ==
      Some(Icon(pool[draws[0].aspect % |pool|], draws[0].lit))
  {
    var next := FillOne(b, pool, draws[0]);
    AspectPassWritesFreeCells(next, Without(pool, draws[0].aspect % |pool|), draws[1..]);
  }

  /** What the aspect pass does with its draws: draw k puts the aspect it
      picks from the pool left after draws[..k], with the highlight flag it
      drew, into the free cell it picks on the board left after draws[..k],
      and that value is still there at the end. */
  lemma AspectPassPlaces(b: Board, pool: seq<Aspect>, draws: seq<AspectDraw>, k: nat)
    requires WellFormed(b) && PlaceAspects(b, pool, draws).Ok? && k < |draws|
    ensures PlaceAspects(b, pool, draws[..k]).Ok?
    ensures var (bk, pk) := PlaceAspects(b, pool, draws[..k]).value;
      FreeCount(bk.slots) > 0 && |pk| > 0 &&
      PlaceAspects(b, pool, draws).value.0.slots[DrawnCell(bk, draws[k])] ==
        Some(Icon(pk[draws[k].aspect % |pk|], draws[k].lit))
  {
    AspectPassSplit(b, pool, draws, k);
    var (bk, pk) := PlaceAspects(b, pool, draws[..k]).value;
    assert draws[k..][0] == draws[k];
    AspectPassFirst(bk, pk, draws[k..]);
  }

  /** Each aspect draw fills one free cell with one aspect taken out of the
      pool: the aspects on the board and those left are, together, the
      aspects before plus the pool. */
  lemma {:induction false} AspectPassConserves(b: Board, pool: seq<Aspect>, draws: seq<AspectDraw>)
    requires WellFormed(b) && PlaceAspects(b, pool, draws).Ok?
    ensures FreeCount(PlaceAspects(b, pool, draws).value.0.slots) + |draws| == FreeCount(b.slots)
    ensures |PlaceAspects(b, pool, draws).value.1| + |draws| == |pool|
    ensures multiset(Icons(PlaceAspects(b, pool, draws).value.0.slots)) + multiset(PlaceAspects(b, pool, draws).value.1)
         == multiset(Icons(b.slots)) + multiset(pool)
    decreases |draws|
  {
    if draws != [] {
      var k := draws[0].aspect % |pool|;
      var i := DrawnCell(b, draws[0]);
      var next := FillOne(b, pool, draws[0]);
      AspectPassConserves(next, Without(pool, k), draws[1..]);
      FreeCountAfterWrite(b.slots, i, Some(Icon(pool[k], draws[0].lit)));
      IconsAfterFill(b.slots, i, pool[k], draws[0].lit);
    }
  }

  // ---------------------------------------------------------------------
  // The whole scene

  /** The random draws of one scene: the decoy loop's and the aspect loop's. */
  datatype SceneDraws = SceneDraws(decoys: seq<DecoyDraw>, aspects: seq<AspectDraw>)

  /** Both loop counts come from `random.randint(R, 3R)`, bounds included. */
  predicate CountsInRange(r: nat, d: SceneDraws) {
    r <= |d.decoys| <= 3 * r && r <= |d.aspects| <= 3 * r
  }

  /** The cell dictionary generateImage draws: decoys first, then aspects. */
  function ComposeScene(r: nat, sprites: nat, pool: seq<Aspect>, d: SceneDraws): (sc: Result<Board, SceneError>)
    ensures sc.Ok? ==> sc.value.keys == Cells(r) && WellFormed(sc.value)
  {
    match PlaceDecoys(EmptyBoard(r), sprites, d.decoys)
    case Err(e) => Err(e)
    case Ok(b) =>
      match PlaceAspects(b, pool, d.aspects)
      case Err(e) => Err(e)
      case Ok(res) => Ok(res.0)
  }

  /** A duplicate-free sequence holds each value at most once. */
  lemma {:induction false} DistinctCount(t: seq<Aspect>, a: Aspect)
    requires Distinct(t)
    ensures multiset(t)[a] <= 1
  {
    if t != [] {
      var n := |t| - 1;
      assert t == t[..n] + [t[n]];
      DistinctCount(t[..n], a);
      if a == t[n] {
        forall m | 0 <= m < n
          ensures t[..n][m] != a
        {
          assert t[m] != t[n];
        }
        assert multiset(t[..n])[a] == 0;
      }
    }
  }

  /** A value at two positions is counted twice. */
  lemma TwoPositions(s: seq<Aspect>, i: nat, j: nat)
    requires i < j < |s|
    ensures multiset(s)[s[i]] >= (if s[i] == s[j] then 2 else 1)
  {
    assert s == s[..i] + [s[i]] + s[i + 1..j] + [s[j]] + s[j + 1..];
  }

  /** A sequence whose multiset is contained in a duplicate-free one has no duplicates. */
  lemma SubBagDistinct(s: seq<Aspect>, t: seq<Aspect>)
    requires Distinct(t) && multiset(s) <= multiset(t)
    ensures Distinct(s)
  {
    forall i, j | 0 <= i < j < |s|
      ensures s[i] != s[j]
    {
      TwoPositions(s, i, j);
      DistinctCount(t, s[i]);
    }
  }

  /** A board of free cells and decoys holds no aspect. */
  lemma {:induction false} NoIconsWhenOnlyDecoys(slots: seq<Slot>, sprites: nat)
    requires OnlyDecoys(slots, sprites)
    ensures Icons(slots) == []
  {
    if slots != [] {
      NoIconsWhenOnlyDecoys(slots[..|slots| - 1], sprites);
      assert IsDecoyOrFree(slots[|slots| - 1], sprites);
    }
  }

  /** The aspect of an icon cell is among the board's icons. */
  lemma {:induction false} IconInIcons(slots: seq<Slot>, i: nat)
    requires i < |slots| && slots[i].Some? && slots[i].value.Icon?
    ensures slots[i].value.aspect in Icons(slots)
  {
    var n := |slots| - 1;
    if i < n {
      IconInIcons(slots[..n], i);
    }
  }

  /** The decoy pass on the fresh dictionary leaves at least 3R^2 + 1 cells
      free, since it draws at most 3R times and the field has 3R^2 + 3R + 1 cells. */
  lemma DecoysLeaveRoom(r: nat, sprites: nat, decoys: seq<DecoyDraw>)
    requires |decoys| <= 3 * r && sprites > 0
    ensures PlaceDecoys(EmptyBoard(r), sprites, decoys).Ok?
    ensures FreeCount(PlaceDecoys(EmptyBoard(r), sprites, decoys).value.slots) >= 3 * r * r + 1
  {
    var b0 := EmptyBoard(r);
    CellsCount(r);
    AllFree(b0.slots);
    DecoyPassFails(b0, sprites, decoys);
    DecoyPassFootprint(b0, sprites, decoys);
  }

  /** Whatever the draws, a scene never runs out of free cells or aspects when
      each loop count lies in [R, 3R], the sprite sheet has a sprite and the
      catalogue holds at least 3R aspects: at most 3R cells get decoys, and
      the 3R^2 + 1 or more cells left free leave room for 3R aspects. */
  lemma SceneNeverRunsOut(r: nat, sprites: nat, pool: seq<Aspect>, d: SceneDraws)
    requires CountsInRange(r, d) && sprites > 0 && |pool| >= 3 * r
    ensures ComposeScene(r, sprites, pool, d).Ok?
  {
    DecoysLeaveRoom(r, sprites, d.decoys);
    var b1 := PlaceDecoys(EmptyBoard(r), sprites, d.decoys).value;
    var free := FreeCount(b1.slots);
    RoomForAspects(r, free);
    AspectPassFails(b1, pool, d.aspects);
  }

  lemma RoomForAspects(r: nat, free: int)
    requires free >= 3 * r * r + 1
    ensures 3 * r <= free
  {
    if r >= 1 {
      assert r * r >= r;
    }
  }

  /** A finished scene covers every field cell, and each cell is free, holds
      a decoy, or holds an aspect of the catalogue; there are as many aspects
      as the aspect loop drew, and none twice when the catalogue has none twice. */
  lemma SceneContents(r: nat, sprites: nat, pool: seq<Aspect>, d: SceneDraws)
    requires ComposeScene(r, sprites, pool, d).Ok?
    ensures ComposeScene(r, sprites, pool, d).value.keys == Cells(r)
    ensures WellFormed(ComposeScene(r, sprites, pool, d).value)
    ensures |Icons(ComposeScene(r, sprites, pool, d).value.slots)| == |d.aspects|
    ensures forall i :: 0 <= i < |ComposeScene(r, sprites, pool, d).value.slots| ==>
      PlacedBy(ComposeScene(r, sprites, pool, d).value.slots[i], sprites, pool)
    ensures Distinct(pool) ==> Distinct(Icons(ComposeScene(r, sprites, pool, d).value.slots))
  {
    var b0 := EmptyBoard(r);
    var b1 := PlaceDecoys(b0, sprites, d.decoys).value;
    var res := PlaceAspects(b1, pool, d.aspects).value;
    var b2, left := res.0, res.1;
    assert ComposeScene(r, sprites, pool, d).value == b2;
    assert OnlyDecoys(b0.slots, sprites);
    DecoyPassOnlyDecoys(b0, sprites, d.decoys);
    NoIconsWhenOnlyDecoys(b1.slots, sprites);
    AspectPassConserves(b1, pool, d.aspects);
    AspectPassWritesFreeCells(b1, pool, d.aspects);
    assert multiset(Icons(b2.slots)) + multiset(left) == multiset(pool);
    assert |multiset(Icons(b2.slots))| + |multiset(left)| == |multiset(pool)|;
    forall i | 0 <= i < |b2.slots|
      ensures PlacedBy(b2.slots[i], sprites, pool)
    {
      if !IsDecoyOrFree(b2.slots[i], sprites) {
        assert IsDecoyOrFree(b1.slots[i], sprites);
        assert b2.slots[i] != b1.slots[i];
        IconFromPool(b2.slots, i, left, pool);
      }
    }
    if Distinct(pool) {
      SubBagDistinct(Icons(b2.slots), pool);
    }
  }

  /** An aspect on a board whose icons, with the aspects left, make up the
      pool, came from the pool. */
  lemma IconFromPool(slots: seq<Slot>, i: nat, left: seq<Aspect>, pool: seq<Aspect>)
    requires i < |slots| && slots[i].Some? && slots[i].value.Icon?
    requires multiset(Icons(slots)) + multiset(left) == multiset(pool)
    ensures slots[i].value.aspect in pool
  {
    var a := slots[i].value.aspect;
    IconInIcons(slots, i);
    assert multiset(Icons(slots))[a] > 0;
    assert multiset(pool)[a] > 0;
  }

  /** A cell of a finished scene: free, a decoy, or an aspect of the catalogue. */
  predicate PlacedBy(s: Slot, sprites: nat, pool: seq<Aspect>) {
    IsDecoyOrFree(s, sprites) || (s.Some? && s.value.Icon? && s.value.aspect in pool)
  }
}
