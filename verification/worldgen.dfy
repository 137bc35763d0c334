/** The world generator. The terrain pass fills every column from its surface row down to
    the bottom, choosing the kind by how deep the cell lies in the column; the building pass
    then stamps brick-and-glass buildings onto the empty cells above the terrain. Every
    random draw is an oracle argument: a roll that the model turns into a value of the
    drawn range. */
module Generation {
  import opened Common
  import opened Blocks
  import opened Grid
  import opened GameWorld

  /** int8_t. */
  type i8 = x: int | -128 <= x < 128

  /** Helper::get_random_int(lo, hi) with the draw given as a roll. */
  function Pick(lo: int, hi: int, roll: nat): (v: int)
    requires lo <= hi
    ensures lo <= v <= hi
  {
    lo + roll % (hi - lo + 1)
  }

  /** Every value of the range is the pick of some roll, so the rolls restrict nothing. */
  lemma PickCovers(lo: int, hi: int, v: int)
    requires lo <= v <= hi
    ensures Pick(lo, hi, (v - lo) as nat) == v
  {
    var n := hi - lo + 1;
    var d := v - lo;
    assert d == 0 * n + d;
    DivModUnique(d, n, 0, d);
  }

  /** The tint a Block constructor draws: a grey level of [205, 255]. */
  function Tint(roll: nat): (t: u32)
    ensures 205 <= t <= 255
  {
    Pick(205, 255, roll)
  }

  /** A block the generator laid: of the given kind, at full health, with the drawn tint. */
  ghost predicate Laid(b: Block?, kind: BlockType, tintRoll: nat)
    reads b
  {
    b != null && b.kind == kind && b.health == MaxHealth(kind) && b.tint == Tint(tintRoll)
  }

  // ---------------------------------------------------------------- terrain

  /** How far down its column a cell lies: 0.0 at the surface, approaching 1.0 at the bottom. */
  function DepthFraction(depth: nat, span: nat): real
    requires span > 0
  {
    depth as real / span as real
  }

  /** A fraction compared with a bound, by cross-multiplication. */
  lemma FractionAtMost(depth: nat, span: nat, bound: real)
    requires span > 0
    ensures DepthFraction(depth, span) <= bound <==> depth as real <= bound * span as real
  {
    var f := DepthFraction(depth, span);
    var s := span as real;
    assert f * s == depth as real;
    if f <= bound {
      assert f * s <= bound * s;
    } else {
      assert bound * s < f * s;
    }
  }

  /** The kind gen_terrain gives a cell `depth` rows below the surface of a column with
      `span` rows from the surface to the bottom: the bands of the depth fraction. */
  function TerrainKind(depth: nat, span: nat): (k: BlockType)
    requires depth < span
    ensures k == Grass <==> DepthFraction(depth, span) <= 0.015
    ensures k == Dirt <==> 0.015 < DepthFraction(depth, span) <= 0.2
    ensures k == Stone <==> 0.2 < DepthFraction(depth, span) <= 0.9
    ensures k == Water <==> 0.9 < DepthFraction(depth, span)
  {
    FractionAtMost(depth, span, 0.015);
    FractionAtMost(depth, span, 0.2);
    FractionAtMost(depth, span, 0.9);
    if 1000 * depth <= 15 * span then Grass
    else if 5 * depth <= span then Dirt
    else if 10 * depth <= 9 * span then Stone
    else Water
  }

  /** The order of the bands from the surface down. */
  function BandRank(k: BlockType): nat
  {
    match k
    case Grass => 0
    case Dirt => 1
    case Stone => 2
    case _ => 3
  }

  /** Going down a column the bands never go back up: grass, then dirt, then stone, then
      water. The surface cell is always grass, and the bottom cell is water exactly when
      the column spans more than ten rows. */
  lemma TerrainBands(d1: nat, d2: nat, span: nat)
    requires d1 <= d2 < span
    ensures BandRank(TerrainKind(d1, span)) <= BandRank(TerrainKind(d2, span))
    ensures TerrainKind(0, span) == Grass
    ensures TerrainKind(span - 1, span) == Water <==> span > 10
  {
  }

  /** The surface row after a step: the step is added in unsigned 32-bit arithmetic, then
      the row is clamped into [lo, hi]. */
  function SteppedTop(top: u32, step: int, lo: u32, hi: u32): (t: u32)
    requires lo <= hi
    ensures lo <= t <= hi
  {
    Max(Min((top + step) % U32, hi), lo)
  }

  /** While the sum stays within 32 bits the step is an ordinary clamped addition. */
  lemma SteppedTopClamps(top: u32, step: int, lo: u32, hi: u32)
    requires lo <= hi && 0 <= top + step < U32
    ensures SteppedTop(top, step, lo, hi) == if top + step < lo then lo else if top + step > hi then hi else top + step
  {
  }

  /** A step below row 0 wraps around to a huge row, which the clamp turns into hi rather
      than lo: from row 0 a step of -1 lands on the deepest allowed surface row. */
  lemma SteppedTopWrapsToDeepest(lo: u32, hi: u32)
    requires lo == 0 && lo <= hi
    ensures SteppedTop(0, -1, lo, hi) == hi
  {
  }

  /** The draws of the terrain pass: the first surface row, and per column whether the
      surface moves after it, the step it moves by, and the tint of each block laid. */
  datatype TerrainRolls = TerrainRolls(top: nat, change: nat -> bool, step: nat -> nat, tint: (nat, nat) -> nat)

  /** The arguments of gen_terrain: the surface-row range, the step range and the draws
      (which stand for the change chance as well). */
  datatype Terrain = Terrain(lo: u32, hi: u32, stepMin: i8, stepMax: i8, rolls: TerrainRolls)
  {
    /** Both ranges are well formed; gen_terrain throws otherwise. */
    predicate Ranged()
    {
      lo <= hi && stepMin <= stepMax
    }

    /** The surface row of column x. */
    function Top(x: nat): (t: u32)
      requires Ranged()
      ensures lo <= t <= hi
    {
      if x == 0 then Pick(lo, hi, rolls.top)
      else
        var prev := Top(x - 1);
        if rolls.change(x - 1) then SteppedTop(prev, Pick(stepMin, stepMax, rolls.step(x - 1)), lo, hi)
        else prev
    }

    /** Neighbouring columns' surfaces differ by at most the largest step, as long as the
        steps never take the row below 0. */
    lemma {:induction false} TopSlope(x: nat)
      requires Ranged() && x > 0
      requires 0 <= Top(x - 1) as int + stepMin && Top(x - 1) as int + stepMax < U32
      ensures -Max(-(stepMin as int), stepMax) <= Top(x) - Top(x - 1) <= Max(-(stepMin as int), stepMax)
    {
      var prev := Top(x - 1);
      if rolls.change(x - 1) {
        var s := Pick(stepMin, stepMax, rolls.step(x - 1));
        SteppedTopClamps(prev, s, lo, hi);
      }
    }

    /** The surface rows of the first n columns. */
    function Tops(n: nat): (tops: seq<u32>)
      requires Ranged()
      ensures |tops| == n && forall i :: 0 <= i < n ==> tops[i] == Top(i)
    {
      seq(n, i requires 0 <= i < n => Top(i))
    }
  }

  /** The cells of column x from row `first` down to (not including) row `end`, top first. */
  function ColumnCells(x: u32, first: nat, end: nat): (s: seq<Coord>)
    requires end < U32
    ensures |s| == (if first <= end then end - first else 0)
  {
    if end <= first then [] else seq(end - first, i requires 0 <= i < end - first => Coord(x, first + i))
  }

  /** The i-th cell of a column run is i rows below its first row. */
  lemma ColumnCellsAt(x: u32, first: nat, end: nat)
    requires end < U32
    ensures forall i :: 0 <= i < |ColumnCells(x, first, end)| ==> ColumnCells(x, first, end)[i] == Coord(x, first + i)
  {
  }

  /** The cells gen_terrain marks for update over the columns before x, in order. */
  function TerrainMarks(t: Terrain, height: u32, x: nat): (s: seq<Coord>)
    requires t.Ranged() && x < U32
  {
    if x == 0 then [] else TerrainMarks(t, height, x - 1) + ColumnCells(x - 1, t.Top(x - 1), height)
  }

  /** The state-update queue sq and the render-update list tq once the cells `marks` are
      marked for update, in order, starting from sq0 and tq0 with tracking `track`. */
  predicate Marked(sq: seq<Coord>, tq: seq<Coord>, track: bool, sq0: seq<Coord>, tq0: seq<Coord>, marks: seq<Coord>)
  {
    sq == sq0 + marks && tq == tq0 + (if track then marks else [])
  }

  /** Marking a then b is marking a + b. */
  lemma MarkedTrans(sq0: seq<Coord>, tq0: seq<Coord>, sq1: seq<Coord>, tq1: seq<Coord>, sq2: seq<Coord>, tq2: seq<Coord>,
                    track: bool, a: seq<Coord>, b: seq<Coord>)
    requires Marked(sq1, tq1, track, sq0, tq0, a) && Marked(sq2, tq2, track, sq1, tq1, b)
    ensures Marked(sq2, tq2, track, sq0, tq0, a + b)
  {
    assert sq0 + a + b == sq0 + (a + b);
    assert tq0 + a + b == tq0 + (a + b);
  }

  /** Whether the terrain pass, at column x and row y, has laid cell c, given the surface
      row of every column. */
  predicate TerrainCovered(tops: seq<u32>, c: Coord, x: nat, y: nat)
    requires c.x < |tops|
  {
    (c.x < x && tops[c.x] <= c.y) || (c.x == x && tops[c.x] <= c.y < y)
  }

  /** Where the terrain pass stands at column x, row y: every covered cell holds a laid
      block of its band, every other cell what cells0 held. */
  ghost predicate TerrainSoFar(w: World, tops: seq<u32>, tint: (nat, nat) -> nat, cells0: seq<Block?>, x: nat, y: nat)
    requires w.Shaped() && w.Framed() && |cells0| == w.blocks.Length && |tops| == w.width as int
    reads w`Footprint, w`Slot, w.blocks, w.Footprint
  {
    forall c :: w.InRange(c) ==>
      if TerrainCovered(tops, c, x, y) then
        Laid(w.At(c), TerrainKind(c.y - tops[c.x], w.height - tops[c.x]), tint(c.x, c.y))
      else w.At(c) == cells0[w.Index(c)]
  }

  /** Once the row has passed the bottom, column x is complete. */
  lemma ColumnDone(w: World, tops: seq<u32>, tint: (nat, nat) -> nat, cells0: seq<Block?>, x: nat, y: nat)
    requires w.Shaped() && w.Framed() && |cells0| == w.blocks.Length && |tops| == w.width as int
    requires y >= w.height as int
    requires TerrainSoFar(w, tops, tint, cells0, x, y)
    ensures TerrainSoFar(w, tops, tint, cells0, x + 1, 0)
  {
    forall c | w.InRange(c)
      ensures TerrainCovered(tops, c, x, y) == TerrainCovered(tops, c, x + 1, 0)
    {
    }
  }

  /** The terrain pass, once past the last column, in terms of the surface rows: every cell
      at or below its column's surface holds a laid block of its band, every cell above
      holds what cells0 held. */
  lemma TerrainDone(w: World, t: Terrain, cells0: seq<Block?>)
    requires t.Ranged() && w.Shaped() && w.Framed() && |cells0| == w.blocks.Length
    requires TerrainSoFar(w, t.Tops(w.width as int), t.rolls.tint, cells0, w.width as int, 0)
    ensures forall c :: w.InRange(c) ==>
              if t.Top(c.x) <= c.y then Laid(w.At(c), TerrainKind(c.y - t.Top(c.x), w.height - t.Top(c.x)), t.rolls.tint(c.x, c.y))
              else w.At(c) == cells0[w.Index(c)]
    ensures GroundLaid(w, t, t.rolls.tint, w.blocks[..], cells0, w.Footprint)
  {
    var tops := t.Tops(w.width as int);
    forall c | w.InRange(c)
      ensures TerrainCovered(tops, c, w.width as int, 0) == (t.Top(c.x) <= c.y)
    {
    }
  }

  // ---------------------------------------------------------------- buildings

  /** The arguments of gen_buildings other than the chance: the width and height ranges,
      the foundation depth, and the half-width of the central band kept free of buildings. */
  datatype Zoning = Zoning(xMin: u32, xMax: u32, yMin: u32, yMax: u32, foundation: u32, clearance: u32)
  {
    /** Both ranges are well formed; gen_buildings throws otherwise. */
    predicate Ranged()
    {
      xMin <= xMax && yMin <= yMax
    }
  }

  /** The draws of the building pass: per column whether a building is tried there (the
      chance roll), its width and height rolls, and the tint of each block laid. */
  datatype BuildingRolls = BuildingRolls(build: nat -> bool, width: nat -> nat, height: nat -> nat, tint: (nat, nat) -> nat)

  /** world_clearance_x_min: half the width less the clearance, in unsigned arithmetic. */
  function ClearMin(width: u32, clearance: u32): u32
  {
    (width / 2 - clearance) % U32
  }

  /** world_clearance_x_max: half the width plus the clearance, in unsigned arithmetic. */
  function ClearMax(width: u32, clearance: u32): u32
  {
    (width / 2 + clearance) % U32
  }

  /** Whether gen_buildings may try a building in column j: outside the central band. */
  predicate Eligible(width: u32, clearance: u32, j: nat)
  {
    j < ClearMin(width, clearance) || j > ClearMax(width, clearance)
  }

  /** With a clearance of at most half the width, the columns kept free are exactly those
      within `clearance` of the middle column. */
  lemma ClearanceBand(width: u32, clearance: u32, j: nat)
    requires clearance <= width / 2
    ensures !Eligible(width, clearance, j) <==> width / 2 - clearance <= j <= width / 2 + clearance
  {
  }

  /** A clearance wider than half the width wraps the band's first column around to a huge
      value, so the band vanishes and every column of the grid may get a building. */
  lemma ClearanceVanishes(width: u32, clearance: u32, j: nat)
    requires width / 2 < clearance && width as int + clearance as int < U32 && j < width
    ensures Eligible(width, clearance, j)
  {
  }

  /** One building: columns j to j + w, rows from its bottom row up to row bottom - h. */
  datatype Building = Building(j: u32, w: u32, h: u32, bottom: u32)
  {
    /** Whether cell c is one the building's loops visit. When h exceeds the bottom row the
        unsigned bound wraps and the row loop does not run at all. */
    predicate Covers(c: Coord)
    {
      j <= c.x <= j + w && h <= bottom && bottom - h <= c.y <= bottom
    }

    /** The material gen_buildings gives an empty cell (x, y) of the building, every
        difference taken in unsigned 32-bit arithmetic. */
    function FacadeKind(x: u32, y: u32): (k: BlockType)
      requires j <= x
      ensures k == Glass || k == Brick
    {
      if (x - j) % 10 >= 6 && (y - bottom) % U32 % 16 >= 12 && x <= (j + w - 2) % U32 && y > (bottom - h + 4) % U32
      then Glass else Brick
    }
  }

  /** The facade as a picture: in a building of at least two columns, a cell is glass
      exactly when its column is 6 to 9 past the first modulo 10, it lies 1 to 4 rows above
      the bottom row modulo 16, it is not one of the last two columns, and it lies below the
      top five rows. So the windows are blocks of four by four cells, and the bottom row, the
      roof and the last two columns are brick. */
  lemma FacadeWindows(b: Building, x: u32, y: u32)
    requires b.Covers(Coord(x, y)) && 2 <= b.w && b.j as int + b.w as int < U32
    requires b.bottom as int - b.h as int + 4 < U32
    ensures b.FacadeKind(x, y) == Glass <==>
              (x - b.j) % 10 >= 6 && 1 <= (b.bottom - y) % 16 <= 4 && x + 2 <= b.j + b.w && y > b.bottom - b.h + 4
  {
    RowPhase(b.bottom, y);
  }

  /** The facade's row phase, taken on the unsigned difference y - bottom, in terms of the
      height above the bottom row: 12 to 15 modulo 16 is 1 to 4 rows up. */
  lemma RowPhase(bottom: u32, y: u32)
    requires y <= bottom
    ensures (y - bottom) % U32 % 16 >= 12 <==> 1 <= (bottom - y) % 16 <= 4
  {
    var d := bottom - y;
    var q, r := d / 16, d % 16;
    if d == 0 {
      assert (y - bottom) % U32 == 0;
    } else if r == 0 {
      assert (y - bottom) % U32 == U32 - d;
      assert U32 - d == 16 * (268435456 - q) + 0;
      DivModUnique(U32 - d, 16, 268435456 - q, 0);
    } else {
      assert (y - bottom) % U32 == U32 - d;
      assert U32 - d == 16 * (268435456 - q - 1) + (16 - r);
      DivModUnique(U32 - d, 16, 268435456 - q - 1, 16 - r);
    }
  }

  /** The block in cell (x, y) of a row-major grid `cells`. */
  function CellAt(cells: seq<Block?>, width: u32, height: u32, x: u32, y: u32): Block?
    requires |cells| == width as int * height as int && x < width && y < height
  {
    cells[BlockIndex(width, height, x, y).value]
  }

  /** What the search for the top of the terrain in a column can come to. */
  datatype Surface = Found(row: u32) | NotFound | OffGrid

  /** The search for the top of the terrain in column x of the grid `cells`, from row y on
      while the row is below `limit`: the first row holding a block; NotFound when the limit
      comes first; OffGrid when the rows run past the bottom of the grid first, where
      get_block_at throws. */
  function SurfaceScan(cells: seq<Block?>, width: u32, height: u32, x: u32, y: nat, limit: nat): Surface
    requires |cells| == width as int * height as int && x < width
    decreases limit - y
  {
    if limit <= y then NotFound
    else if height <= y then OffGrid
    else if CellAt(cells, width, height, x, y) != null then Found(y)
    else SurfaceScan(cells, width, height, x, y + 1, limit)
  }

  /** What each outcome of the search says about the column. */
  lemma {:induction false} SurfaceScanMeaning(cells: seq<Block?>, width: u32, height: u32, x: u32, y: nat, limit: nat)
    requires |cells| == width as int * height as int && x < width
    decreases limit - y
    ensures var s := SurfaceScan(cells, width, height, x, y, limit);
            && (s.Found? ==> y <= s.row < limit && s.row < height && CellAt(cells, width, height, x, s.row) != null
                             && forall r: u32 :: y <= r < s.row ==> CellAt(cells, width, height, x, r) == null)
            && (s.NotFound? ==> (y < limit ==> limit <= height)
                                && forall r: u32 :: y <= r < limit ==> CellAt(cells, width, height, x, r) == null)
            && (s.OffGrid? ==> height < limit && forall r: u32 :: y <= r < height ==> CellAt(cells, width, height, x, r) == null)
  {
    if y < limit && y < height && CellAt(cells, width, height, x, y) == null {
      SurfaceScanMeaning(cells, width, height, x, y + 1, limit);
    }
  }

  /** The search only looks at column x. */
  lemma {:induction false} SurfaceScanColumn(cells: seq<Block?>, other: seq<Block?>, width: u32, height: u32, x: u32, y: nat, limit: nat)
    requires |cells| == |other| == width as int * height as int && x < width
    requires forall r: u32 :: r < height ==> CellAt(cells, width, height, x, r) == CellAt(other, width, height, x, r)
    decreases limit - y
    ensures SurfaceScan(cells, width, height, x, y, limit) == SurfaceScan(other, width, height, x, y, limit)
  {
    if y < limit && y < height {
      SurfaceScanColumn(cells, other, width, height, x, y + 1, limit);
    }
  }

  /** The bound of the search, height - foundation - 1 in unsigned arithmetic. */
  function Limit(height: u32, foundation: u32): u32
  {
    (height - foundation - 1) % U32
  }

  /** Whether gen_buildings opens a building at column x of the grid `cells`: the column is
      eligible, its chance roll came up, the search found a block, and the bottom row it
      gives is not the height (the source's marker for "not found"). */
  predicate Opens(cells: seq<Block?>, width: u32, height: u32, z: Zoning, rolls: BuildingRolls, x: u32)
    requires |cells| == width as int * height as int && x < width
  {
    && Eligible(width, z.clearance, x) && rolls.build(x)
    && var s := SurfaceScan(cells, width, height, x, 0, Limit(height, z.foundation));
       s.Found? && (s.row + z.foundation) % U32 != height
  }

  /** Building b is the one gen_buildings draws at its first column in the grid `cells`:
      that column opens, the width and height are the drawn ones, and the bottom row lies
      foundation rows below the first block of the column. */
  predicate Drawn(b: Building, cells: seq<Block?>, width: u32, height: u32, z: Zoning, rolls: BuildingRolls)
    requires |cells| == width as int * height as int && z.Ranged()
  {
    && b.j < width && Opens(cells, width, height, z, rolls, b.j)
    && b.w == Pick(z.xMin, z.xMax, rolls.width(b.j)) && b.h == Pick(z.yMin, z.yMax, rolls.height(b.j))
    && b.bottom == (SurfaceScan(cells, width, height, b.j, 0, Limit(height, z.foundation)).row + z.foundation) % U32
  }

  /** The buildings placed before column j: each drawn, each ending at least two columns
      before the next one starts, and all before column j - 1. */
  predicate Planned(bs: seq<Building>, cells: seq<Block?>, width: u32, height: u32, z: Zoning, rolls: BuildingRolls, j: nat)
    requires |cells| == width as int * height as int && z.Ranged()
  {
    && (forall i :: 0 <= i < |bs| ==> Drawn(bs[i], cells, width, height, z, rolls) && bs[i].j + bs[i].w + 2 <= j)
    && (forall i :: 0 <= i < |bs| - 1 ==> bs[i].j + bs[i].w + 2 <= bs[i + 1].j)
  }

  /** Column x lies in the span of one of bs: from its first column to the column after its
      last, which the scan skips. */
  predicate Spanned(bs: seq<Building>, x: nat)
  {
    exists i :: 0 <= i < |bs| && bs[i].j <= x <= bs[i].j + bs[i].w + 1
  }

  /** A further building keeps every column spanned, and spans its own columns. */
  lemma SpannedGrow(bs: seq<Building>, b: Building)
    ensures forall x: nat :: Spanned(bs, x) ==> Spanned(bs + [b], x)
    ensures forall x: nat :: b.j <= x <= b.j + b.w + 1 ==> Spanned(bs + [b], x)
  {
    forall x: nat | Spanned(bs, x)
      ensures Spanned(bs + [b], x)
    {
      var i :| 0 <= i < |bs| && bs[i].j <= x <= bs[i].j + bs[i].w + 1;
      assert (bs + [b])[i] == bs[i];
    }
    forall x: nat | b.j <= x <= b.j + b.w + 1
      ensures Spanned(bs + [b], x)
    {
      assert (bs + [b])[|bs|] == b;
    }
  }

  /** Every column before j where a building opens lies in the span of one of bs. */
  predicate Served(bs: seq<Building>, cells: seq<Block?>, width: u32, height: u32, z: Zoning, rolls: BuildingRolls, j: nat)
    requires |cells| == width as int * height as int
  {
    forall x: u32 :: x < j && x < width && Opens(cells, width, height, z, rolls, x) ==> Spanned(bs, x)
  }

  /** Every slot that held a block in `before` holds the same block in `after`. */
  predicate Kept(after: seq<Block?>, before: seq<Block?>)
    requires |after| == |before|
  {
    forall i :: 0 <= i < |before| && before[i] != null ==> after[i] == before[i]
  }

  /** a + b + c is a + (b + c). */
  lemma AppendAssoc(a: seq<Coord>, b: seq<Coord>, c: seq<Coord>)
    ensures a + b + c == a + (b + c)
  {
  }

  /** Block b is a facade block of one of the buildings bs that covers cell c. */
  ghost predicate Facade(b: Block?, bs: seq<Building>, tint: (nat, nat) -> nat, c: Coord)
    reads b
  {
    exists i :: 0 <= i < |bs| && bs[i].Covers(c) && Laid(b, bs[i].FacadeKind(c.x, c.y), tint(c.x, c.y))
  }

  /** Where the building pass stands against the grid cells0 it started from: a cell that
      changed was empty and now holds a facade block of a building that covers it, and the
      cells marked so far are in range and are exactly the changed ones. */
  ghost predicate Raised(w: World, bs: seq<Building>, tint: (nat, nat) -> nat, cells0: seq<Block?>, marks: seq<Coord>)
    requires w.Shaped() && w.Framed() && |cells0| == w.blocks.Length
    reads w`Footprint, w`Slot, w.blocks, w.Footprint
  {
    (forall k :: 0 <= k < |marks| ==> w.InRange(marks[k]))
    && forall c :: w.InRange(c) ==>
         (c in marks <==> w.At(c) != cells0[w.Index(c)])
         && (w.At(c) == cells0[w.Index(c)] || (cells0[w.Index(c)] == null && Facade(w.At(c), bs, tint, c)))
  }

  /** Every cell of the grid `cells` that a building of bs covers holds a block. */
  ghost predicate Complete(cells: seq<Block?>, width: u32, height: u32, bs: seq<Building>)
    requires |cells| == width as int * height as int
  {
    forall i, c: Coord :: 0 <= i < |bs| && c.x < width && c.y < height && bs[i].Covers(c) ==> CellAt(cells, width, height, c.x, c.y) != null
  }

  /** Keeping every block keeps every building complete. */
  lemma CompleteKept(after: seq<Block?>, before: seq<Block?>, width: u32, height: u32, bs: seq<Building>)
    requires |after| == |before| == width as int * height as int
    requires Complete(before, width, height, bs) && Kept(after, before)
    ensures Complete(after, width, height, bs)
  {
  }

  /** Columns lo to hi - 1 of row y of the grid `cells`, as far as they lie in the grid,
      all hold blocks. */
  ghost predicate RowFilled(cells: seq<Block?>, width: u32, height: u32, y: u32, lo: u32, hi: nat)
    requires |cells| == width as int * height as int
  {
    forall x: u32 :: lo <= x < hi && x < width && y < height ==> CellAt(cells, width, height, x, y) != null
  }

  /** One more block at the end of a filled stretch of a row, with every earlier block kept,
      lengthens the stretch. */
  lemma RowFilledStep(after: seq<Block?>, before: seq<Block?>, width: u32, height: u32, y: u32, lo: u32, x: u32)
    requires |after| == |before| == width as int * height as int
    requires RowFilled(before, width, height, y, lo, x) && Kept(after, before)
    requires x < width && y < height && CellAt(after, width, height, x, y) != null
    ensures RowFilled(after, width, height, y, lo, x + 1)
  {
    forall x': u32 | lo <= x' < x && x' < width
      ensures CellAt(after, width, height, x', y) != null
    {
      assert CellAt(before, width, height, x', y) != null;
    }
  }

  /** Every cell of building b in the grid `cells` on a row past row y holds a block. */
  ghost predicate FilledBelow(cells: seq<Block?>, width: u32, height: u32, b: Building, y: int)
    requires |cells| == width as int * height as int
  {
    forall c: Coord :: c.x < width && c.y < height && b.Covers(c) && c.y > y ==> CellAt(cells, width, height, c.x, c.y) != null
  }

  /** A filled row of b, with every earlier block kept, extends the filled part of b by
      that row. */
  lemma FilledBelowStep(after: seq<Block?>, before: seq<Block?>, width: u32, height: u32, b: Building, y: u32)
    requires |after| == |before| == width as int * height as int
    requires FilledBelow(before, width, height, b, y) && Kept(after, before)
    requires RowFilled(after, width, height, y, b.j, b.j as int + b.w as int + 1)
    ensures FilledBelow(after, width, height, b, y as int - 1)
  {
  }

  /** A complete further building keeps the buildings complete. */
  lemma CompleteGrow(cells: seq<Block?>, width: u32, height: u32, bs: seq<Building>, b: Building)
    requires |cells| == width as int * height as int
    requires Complete(cells, width, height, bs)
    requires FilledBelow(cells, width, height, b, -1)
    ensures Complete(cells, width, height, bs + [b])
  {
    forall i, c: Coord | 0 <= i < |bs| + 1 && c.x < width && c.y < height && (bs + [b])[i].Covers(c)
      ensures CellAt(cells, width, height, c.x, c.y) != null
    {
      if i < |bs| {
        assert (bs + [b])[i] == bs[i];
      }
    }
  }

  /** A building drawn at column j, after the buildings planned before it, is planned
      before the column after its span. */
  lemma PlannedGrow(bs: seq<Building>, b: Building, cells: seq<Block?>, width: u32, height: u32, z: Zoning, rolls: BuildingRolls, j: nat)
    requires |cells| == width as int * height as int && z.Ranged()
    requires Planned(bs, cells, width, height, z, rolls, j) && Drawn(b, cells, width, height, z, rolls) && b.j == j
    ensures Planned(bs + [b], cells, width, height, z, rolls, j + b.w + 2)
  {
    var bs' := bs + [b];
    assert forall i :: 0 <= i < |bs| ==> bs'[i] == bs[i];
  }

  /** After a building at column j, every column before the column after its span is
      served. */
  lemma ServedGrow(bs: seq<Building>, b: Building, cells: seq<Block?>, width: u32, height: u32, z: Zoning, rolls: BuildingRolls, j: nat)
    requires |cells| == width as int * height as int
    requires Served(bs, cells, width, height, z, rolls, j) && b.j == j
    ensures Served(bs + [b], cells, width, height, z, rolls, j + b.w + 2)
  {
    SpannedGrow(bs, b);
  }

  /** A column where no building opens is served without one. */
  lemma ServedSkip(bs: seq<Building>, cells: seq<Block?>, width: u32, height: u32, z: Zoning, rolls: BuildingRolls, j: u32)
    requires |cells| == width as int * height as int
    requires Served(bs, cells, width, height, z, rolls, j)
    requires j < width ==> !Opens(cells, width, height, z, rolls, j)
    ensures Served(bs, cells, width, height, z, rolls, j + 1)
  {
  }

  /** A column passed over without a building leaves the plan valid one column on, and
      the cells raised so far with no new marks. */
  lemma SkipStep(w: World, bs: seq<Building>, cells0: seq<Block?>, done: seq<Coord>, z: Zoning, rolls: BuildingRolls, j: u32)
    requires w.Shaped() && w.Framed() && |cells0| == w.blocks.Length && z.Ranged()
    requires Planned(bs, cells0, w.width, w.height, z, rolls, j)
    requires Raised(w, bs, rolls.tint, cells0, done)
    ensures Planned(bs, cells0, w.width, w.height, z, rolls, j + 1)
    ensures Raised(w, bs, rolls.tint, cells0, done + [])
  {
    assert done + [] == done;
  }

  /** A further building keeps every facade block a facade block. */
  lemma RaisedGrow(w: World, bs: seq<Building>, b: Building, tint: (nat, nat) -> nat, cells0: seq<Block?>, marks: seq<Coord>)
    requires w.Shaped() && w.Framed() && |cells0| == w.blocks.Length
    requires Raised(w, bs, tint, cells0, marks)
    ensures Raised(w, bs + [b], tint, cells0, marks)
  {
    forall c | w.InRange(c) && Facade(w.At(c), bs, tint, c)
      ensures Facade(w.At(c), bs + [b], tint, c)
    {
      var i :| 0 <= i < |bs| && bs[i].Covers(c) && Laid(w.At(c), bs[i].FacadeKind(c.x, c.y), tint(c.x, c.y));
      assert (bs + [b])[i] == bs[i];
    }
  }

  /** A column to the right of every building is as it was. */
  lemma RaisedColumn(w: World, bs: seq<Building>, tint: (nat, nat) -> nat, cells0: seq<Block?>, marks: seq<Coord>, x: u32)
    requires w.Shaped() && w.Framed() && |cells0| == w.blocks.Length && x < w.width
    requires Raised(w, bs, tint, cells0, marks)
    requires forall i :: 0 <= i < |bs| ==> bs[i].j + bs[i].w < x
    ensures forall r: u32 :: r < w.height ==> CellAt(w.blocks[..], w.width, w.height, x, r) == CellAt(cells0, w.width, w.height, x, r)
  {
    forall r: u32 | r < w.height
      ensures CellAt(w.blocks[..], w.width, w.height, x, r) == CellAt(cells0, w.width, w.height, x, r)
    {
      var c := Coord(x, r);
      assert w.InRange(c);
    }
  }

  // ---------------------------------------------------------------- the whole world

  /** The terrain generate_world asks for: surface rows from 65% to 82.5% of the height
      (truncated), moving by -2 to 2 rows. */
  function WorldTerrain(height: u32, rolls: TerrainRolls): (t: Terrain)
    ensures t.Ranged()
  {
    Terrain((65 * height) / 100, (825 * height) / 1000, -2, 2, rolls)
  }

  /** The buildings generate_world asks for: 24 columns plus one wide, 20 to 110 rows high,
      a foundation of 20 rows, and a clearance of 200 columns (100 over the block width 0.5). */
  const CITY: Zoning := Zoning(24, 24, 20, 110, 20, 200)

  /** The terrain pass as a snapshot: in the grid `cells` every cell at or below the surface
      of t holds a laid block of its band, one of the blocks fp, and every cell above it holds
      what `before` held. */
  ghost predicate GroundLaid(w: World, t: Terrain, tint: (nat, nat) -> nat, cells: seq<Block?>, before: seq<Block?>, fp: set<Block>)
    requires t.Ranged() && w.Shaped() && |cells| == |before| == w.blocks.Length
    reads fp
  {
    forall c :: w.InRange(c) ==>
      if t.Top(c.x) <= c.y then
        cells[w.Index(c)] in fp && Laid(cells[w.Index(c)], TerrainKind(c.y - t.Top(c.x), w.height - t.Top(c.x)), tint(c.x, c.y))
      else cells[w.Index(c)] == before[w.Index(c)]
  }

  /** What generate_world leaves, against the grid `before` it started from and the grid
      `ground` the terrain pass left: every cell at or below the surface holds the laid block
      of its band that the terrain pass put there; a cell above the surface was not touched
      by the terrain pass, and keeps what it held or, if it was empty, holds a facade block of
      one of the buildings bs. */
  ghost predicate Layered(w: World, t: Terrain, tint: (nat, nat) -> nat, bs: seq<Building>, facadeTint: (nat, nat) -> nat,
                          ground: seq<Block?>, before: seq<Block?>)
    requires t.Ranged() && w.Shaped() && w.Framed() && |ground| == |before| == w.blocks.Length
    reads w`Footprint, w`Slot, w.blocks, w.Footprint
  {
    forall c :: w.InRange(c) ==>
      if t.Top(c.x) <= c.y then
        Laid(w.At(c), TerrainKind(c.y - t.Top(c.x), w.height - t.Top(c.x)), tint(c.x, c.y)) && ground[w.Index(c)] == w.At(c)
      else
        ground[w.Index(c)] == before[w.Index(c)]
        && (w.At(c) == before[w.Index(c)] || (before[w.Index(c)] == null && Facade(w.At(c), bs, facadeTint, c)))
  }

  /** The building pass on top of the terrain leaves the world layered. */
  lemma LayeredFrom(w: World, t: Terrain, tint: (nat, nat) -> nat, bs: seq<Building>, facadeTint: (nat, nat) -> nat,
                    ground: seq<Block?>, before: seq<Block?>, fp: set<Block>, marks: seq<Coord>)
    requires t.Ranged() && w.Shaped() && w.Framed() && |ground| == |before| == w.blocks.Length
    requires GroundLaid(w, t, tint, ground, before, fp)
    requires Raised(w, bs, facadeTint, ground, marks)
    ensures Layered(w, t, tint, bs, facadeTint, ground, before)
  {
    forall c | w.InRange(c) && t.Top(c.x) <= c.y
      ensures w.At(c) == ground[w.Index(c)]
    {
    }
  }

  /** A freshly generated world: every cell at or below the surface of t holds a laid block
      of its band, and every cell above it is empty or holds a facade block of one of bs. */
  ghost predicate Generated(w: World, t: Terrain, tint: (nat, nat) -> nat, bs: seq<Building>, facadeTint: (nat, nat) -> nat)
    requires t.Ranged() && w.Shaped() && w.Framed()
    reads w`Footprint, w`Slot, w.blocks, w.Footprint
  {
    forall c :: w.InRange(c) ==>
      if t.Top(c.x) <= c.y then
        Laid(w.At(c), TerrainKind(c.y - t.Top(c.x), w.height - t.Top(c.x)), tint(c.x, c.y))
      else w.At(c) == null || Facade(w.At(c), bs, facadeTint, c)
  }

  /** Generated on an empty grid, a cell above the surface is empty or a facade block. */
  lemma LayeredOnEmpty(w: World, t: Terrain, tint: (nat, nat) -> nat, bs: seq<Building>, facadeTint: (nat, nat) -> nat,
                       ground: seq<Block?>, before: seq<Block?>)
    requires t.Ranged() && w.Shaped() && w.Framed() && |ground| == |before| == w.blocks.Length
    requires Layered(w, t, tint, bs, facadeTint, ground, before)
    requires forall i :: 0 <= i < |before| ==> before[i] == null
    ensures Generated(w, t, tint, bs, facadeTint)
  {
  }

  /** In a column that is empty above row top and full from it down, the search finds row
      top, as long as top lies above the search bound. */
  lemma {:induction false} ScanFindsTop(cells: seq<Block?>, width: u32, height: u32, x: u32, top: u32, y: nat, limit: nat)
    requires |cells| == width as int * height as int && x < width
    requires forall r: u32 :: r < height ==> (CellAt(cells, width, height, x, r) != null <==> top <= r)
    requires y <= top < limit && top < height
    decreases top - y
    ensures SurfaceScan(cells, width, height, x, y, limit) == Found(top)
  {
    if y < top {
      ScanFindsTop(cells, width, height, x, top, y + 1, limit);
    }
  }

  class WorldGen {
    /** world_: the world the generator writes into. */
    const world: World
    /** seed_: the seed of the terrain stream, which the draws stand for. */
    const seed: u32

    constructor (world: World, seed: u32)
      ensures this.world == world && this.seed == seed
    {
      this.world := world;
      this.seed := seed;
    }

    /** The body of gen_terrain's row loop: cell (x, y), below the surface row top, gets a
        block of its band and is marked for update. */
    method LayCell(x: u32, y: u32, top: u32, tint: (nat, nat) -> nat, ghost tops: seq<u32>, ghost cells0: seq<Block?>)
      requires world.Valid() && |tops| == world.width as int && |cells0| == world.blocks.Length
      requires x < world.width && y < world.height && top == tops[x] <= y
      requires TerrainSoFar(world, tops, tint, cells0, x, y)
      modifies world`stateQueue, world`textureQueue, world`Footprint, world`Slot, world.blocks
      ensures world.Valid()
      ensures TerrainSoFar(world, tops, tint, cells0, x, y + 1)
      ensures Marked(world.stateQueue, world.textureQueue, world.trackTexture, old(world.stateQueue), old(world.textureQueue), [Coord(x, y)])
    {
      var b := world.CreateBlockAt(x, y, TerrainKind(y - top, world.height - top), Tint(tint(x, y)));
    }

    /** One column of WorldGen::gen_terrain: rows from the surface row top down to the
        bottom get the kind of their band and are marked for update. */
    method LayColumn(x: u32, top: u32, tint: (nat, nat) -> nat, ghost tops: seq<u32>, ghost cells0: seq<Block?>)
      returns (ghost marks: seq<Coord>)
      requires world.Valid() && |tops| == world.width as int && |cells0| == world.blocks.Length
      requires x < world.width && top == tops[x]
      requires TerrainSoFar(world, tops, tint, cells0, x, 0)
      modifies world`stateQueue, world`textureQueue, world`Footprint, world`Slot, world.blocks
      ensures world.Valid()
      ensures TerrainSoFar(world, tops, tint, cells0, x + 1, 0)
      ensures marks == ColumnCells(x, top, world.height)
      ensures Marked(world.stateQueue, world.textureQueue, world.trackTexture, old(world.stateQueue), old(world.textureQueue), marks)
    {
      marks := [];
      var y: u32 := top;
      while y < world.height
        invariant top <= y <= Max(top, world.height)
        invariant world.Valid()
        invariant TerrainSoFar(world, tops, tint, cells0, x, y)
        invariant |marks| == y - top && forall i :: 0 <= i < |marks| ==> marks[i] == Coord(x, top + i)
        invariant Marked(world.stateQueue, world.textureQueue, world.trackTexture, old(world.stateQueue), old(world.textureQueue), marks)
      {
        ghost var sq, tq := world.stateQueue, world.textureQueue;
        LayCell(x, y, top, tint, tops, cells0);
        MarkedTrans(old(world.stateQueue), old(world.textureQueue), sq, tq, world.stateQueue, world.textureQueue,
                    world.trackTexture, marks, [Coord(x, y)]);
        marks := marks + [Coord(x, y)];
        y := y + 1;
      }
      ColumnDone(world, tops, tint, cells0, x, y);
      ColumnCellsAt(x, top, world.height);
      assert marks == ColumnCells(x, top, world.height);
    }

    /** WorldGen::gen_terrain. An empty surface-row or step range throws (ok false) before
        anything changes. Otherwise every cell from its column's surface row down to the
        bottom gets a new block of its depth band at full health, and is marked for update
        column by column, top to bottom; the cells above the surface are left as they were.
        The surface starts at a drawn row and, after each column, moves by a drawn step when
        the change roll says so. */
    method GenTerrain(yTopMin: u32, yTopMax: u32, yStepMin: i8, yStepMax: i8, rolls: TerrainRolls) returns (ok: bool)
      requires world.Valid()
      modifies world`stateQueue, world`textureQueue, world`Footprint, world`Slot, world.blocks
      ensures world.Valid()
      ensures ok <==> yTopMin <= yTopMax && yStepMin <= yStepMax
      ensures !ok ==> unchanged(world) && unchanged(world.blocks)
      ensures ok ==> var t := Terrain(yTopMin, yTopMax, yStepMin, yStepMax, rolls);
                forall c :: world.InRange(c) ==>
                  if t.Top(c.x) <= c.y then
                    Laid(world.At(c), TerrainKind(c.y - t.Top(c.x), world.height - t.Top(c.x)), rolls.tint(c.x, c.y))
                  else world.At(c) == old(world.At(c))
      ensures ok ==> Marked(world.stateQueue, world.textureQueue, world.trackTexture, old(world.stateQueue), old(world.textureQueue),
                            TerrainMarks(Terrain(yTopMin, yTopMax, yStepMin, yStepMax, rolls), world.height, world.width as int))
      ensures ok ==> GroundLaid(world, Terrain(yTopMin, yTopMax, yStepMin, yStepMax, rolls), rolls.tint, world.blocks[..], old(world.blocks[..]), world.Footprint)
    {
      if yStepMin > yStepMax || yTopMin > yTopMax {
        return false;
      }
      ok := true;
      var t := Terrain(yTopMin, yTopMax, yStepMin, yStepMax, rolls);
      ghost var cells0 := world.blocks[..];
      LayTerrain(t, cells0);
      TerrainDone(world, t, cells0);
    }

    /** The column loop of gen_terrain, over well-formed ranges. */
    method LayTerrain(t: Terrain, ghost cells0: seq<Block?>)
      requires t.Ranged() && world.Valid() && cells0 == world.blocks[..]
      modifies world`stateQueue, world`textureQueue, world`Footprint, world`Slot, world.blocks
      ensures world.Valid()
      ensures TerrainSoFar(world, t.Tops(world.width as int), t.rolls.tint, cells0, world.width as int, 0)
      ensures Marked(world.stateQueue, world.textureQueue, world.trackTexture, old(world.stateQueue), old(world.textureQueue),
                     TerrainMarks(t, world.height, world.width as int))
    {
      ghost var tops := t.Tops(world.width as int);
      var top: u32 := Pick(t.lo, t.hi, t.rolls.top);
      var x: u32 := 0;
      while x < world.width
        invariant x <= world.width && top == t.Top(x)
        invariant world.Valid()
        invariant TerrainSoFar(world, tops, t.rolls.tint, cells0, x, 0)
        invariant Marked(world.stateQueue, world.textureQueue, world.trackTexture, old(world.stateQueue), old(world.textureQueue),
                         TerrainMarks(t, world.height, x))
      {
        ghost var sq, tq := world.stateQueue, world.textureQueue;
        top := TerrainColumn(t, x, top, tops, cells0);
        MarkedTrans(old(world.stateQueue), old(world.textureQueue), sq, tq, world.stateQueue, world.textureQueue,
                    world.trackTexture, TerrainMarks(t, world.height, x), ColumnCells(x, t.Top(x), world.height));
        x := x + 1;
      }
    }

    /** The body of gen_terrain's column loop: column x is laid from the surface row top,
        then the surface row moves when the change roll says so. */
    method TerrainColumn(t: Terrain, x: u32, top: u32, ghost tops: seq<u32>, ghost cells0: seq<Block?>) returns (next: u32)
      requires t.Ranged() && tops == t.Tops(world.width as int)
      requires x < world.width && top == t.Top(x)
      requires world.Valid() && |cells0| == world.blocks.Length
      requires TerrainSoFar(world, tops, t.rolls.tint, cells0, x, 0)
      modifies world`stateQueue, world`textureQueue, world`Footprint, world`Slot, world.blocks
      ensures next == t.Top(x + 1)
      ensures world.Valid()
      ensures TerrainSoFar(world, tops, t.rolls.tint, cells0, x + 1, 0)
      ensures Marked(world.stateQueue, world.textureQueue, world.trackTexture, old(world.stateQueue), old(world.textureQueue),
                     ColumnCells(x, t.Top(x), world.height))
    {
      var marks := LayColumn(x, top, t.rolls.tint, tops, cells0);
      next := top;
      if t.rolls.change(x) {
        next := SteppedTop(top, Pick(t.stepMin, t.stepMax, t.rolls.step(x)), t.lo, t.hi);
      }
    }

    /** The search for the top of the terrain in gen_buildings: rows of column j from 0 while
        below height - foundation - 1 (unsigned), stopping at the first block. */
    method FindSurface(j: u32, foundation: u32) returns (s: Surface)
      requires world.Shaped() && j < world.width
      ensures s == SurfaceScan(world.blocks[..], world.width, world.height, j, 0, Limit(world.height, foundation))
    {
      ghost var cells := world.blocks[..];
      var limit := Limit(world.height, foundation);
      var y: u32 := 0;
      while y < limit
        invariant y <= limit
        invariant SurfaceScan(cells, world.width, world.height, j, 0, limit) == SurfaceScan(cells, world.width, world.height, j, y, limit)
      {
        var cell := world.GetBlockAt(j, y);
        if cell.None? {
          return OffGrid;
        }
        if cell.value != null {
          return Found(y);
        }
        y := y + 1;
      }
      return NotFound;
    }

    /** The innermost step of gen_buildings: cell (x, y) of building b = bs[k] gets a block
        of the facade's material when it is empty, and is left alone otherwise. */
    method StampCell(b: Building, ghost k: nat, x: u32, y: u32, empty: bool, tint: (nat, nat) -> nat,
                     ghost bs: seq<Building>, ghost cells0: seq<Block?>, ghost done: seq<Coord>)
      returns (ghost m: seq<Coord>)
      requires world.Valid() && |cells0| == world.blocks.Length
      requires k < |bs| && bs[k] == b && b.Covers(Coord(x, y)) && world.InRange(Coord(x, y))
      requires empty == (world.At(Coord(x, y)) == null)
      requires Raised(world, bs, tint, cells0, done)
      modifies world`stateQueue, world`textureQueue, world`Footprint, world`Slot, world.blocks
      ensures world.Valid()
      ensures CellAt(world.blocks[..], world.width, world.height, x, y) != null
      ensures Kept(world.blocks[..], old(world.blocks[..]))
      ensures Raised(world, bs, tint, cells0, done + m)
      ensures Marked(world.stateQueue, world.textureQueue, world.trackTexture, old(world.stateQueue), old(world.textureQueue), m)
    {
      if empty {
        var laid := world.CreateBlockAt(x, y, b.FacadeKind(x, y), Tint(tint(x, y)));
        m := [Coord(x, y)];
        assert Laid(laid, bs[k].FacadeKind(x, y), tint(x, y));
      } else {
        m := [];
        assert done + m == done;
      }
    }

    /** One row of a building: columns from b.j while inside the grid and up to b.j + b.w,
        each empty cell getting a facade block. False (get_block_at throws) when the row
        lies below the grid, and then nothing has changed. */
    method StampRow(b: Building, ghost k: nat, y: u32, tint: (nat, nat) -> nat,
                    ghost bs: seq<Building>, ghost cells0: seq<Block?>, ghost done: seq<Coord>)
      returns (ok: bool, ghost marks: seq<Coord>)
      requires world.Valid() && |cells0| == world.blocks.Length
      requires k < |bs| && bs[k] == b && b.j < world.width && b.j as int + b.w as int < U32
      requires b.h <= b.bottom && b.bottom - b.h <= y <= b.bottom
      requires Raised(world, bs, tint, cells0, done)
      modifies world`stateQueue, world`textureQueue, world`Footprint, world`Slot, world.blocks
      ensures world.Valid()
      ensures ok <==> y < world.height
      ensures ok ==> RowFilled(world.blocks[..], world.width, world.height, y, b.j, b.j as int + b.w as int + 1)
      ensures Kept(world.blocks[..], old(world.blocks[..]))
      ensures Raised(world, bs, tint, cells0, done + marks)
      ensures Marked(world.stateQueue, world.textureQueue, world.trackTexture, old(world.stateQueue), old(world.textureQueue), marks)
    {
      marks := [];
      var x := b.j;
      while x < world.width && x <= (b.j + b.w) % U32
        invariant b.j <= x <= world.width && x <= b.j + b.w + 1
        invariant x == b.j || y < world.height
        invariant world.Valid()
        invariant RowFilled(world.blocks[..], world.width, world.height, y, b.j, x)
        invariant Kept(world.blocks[..], old(world.blocks[..]))
        invariant Raised(world, bs, tint, cells0, done + marks)
        invariant Marked(world.stateQueue, world.textureQueue, world.trackTexture, old(world.stateQueue), old(world.textureQueue), marks)
      {
        var stepOk, m := StampNext(b, k, x, y, tint, bs, cells0, done, marks,
                                   old(world.blocks[..]), old(world.stateQueue), old(world.textureQueue));
        marks := marks + m;
        if !stepOk {
          ok := false;
          return;
        }
        x := x + 1;
      }
      ok := true;
    }

    /** One turn of a building row's column loop at column x: the cell is looked up, which
        fails when the row lies below the grid, and then stamped. The row's progress facts,
        taken from the start of the row (`start`, `sq0`, `tq0`) with `marks` made so far,
        move on to column x + 1. */
    method StampNext(b: Building, ghost k: nat, x: u32, y: u32, tint: (nat, nat) -> nat,
                     ghost bs: seq<Building>, ghost cells0: seq<Block?>, ghost done: seq<Coord>, ghost marks: seq<Coord>,
                     ghost start: seq<Block?>, ghost sq0: seq<Coord>, ghost tq0: seq<Coord>)
      returns (ok: bool, ghost m: seq<Coord>)
      requires world.Valid() && |cells0| == world.blocks.Length && |start| == world.blocks.Length
      requires k < |bs| && bs[k] == b && b.j <= x < world.width && x <= b.j + b.w
      requires b.h <= b.bottom && b.bottom - b.h <= y <= b.bottom
      requires RowFilled(world.blocks[..], world.width, world.height, y, b.j, x)
      requires Kept(world.blocks[..], start)
      requires Raised(world, bs, tint, cells0, done + marks)
      requires Marked(world.stateQueue, world.textureQueue, world.trackTexture, sq0, tq0, marks)
      modifies world`stateQueue, world`textureQueue, world`Footprint, world`Slot, world.blocks
      ensures world.Valid()
      ensures ok <==> y < world.height
      ensures ok ==> RowFilled(world.blocks[..], world.width, world.height, y, b.j, x as int + 1)
      ensures Kept(world.blocks[..], start)
      ensures Raised(world, bs, tint, cells0, done + (marks + m))
      ensures Marked(world.stateQueue, world.textureQueue, world.trackTexture, sq0, tq0, marks + m)
    {
      var cell := world.GetBlockAt(x, y);
      if cell.None? {
        ok, m := false, [];
        assert marks + m == marks;
        return;
      }
      ghost var sq, tq, before := world.stateQueue, world.textureQueue, world.blocks[..];
      m := StampCell(b, k, x, y, cell.value == null, tint, bs, cells0, done + marks);
      RowFilledStep(world.blocks[..], before, world.width, world.height, y, b.j, x);
      MarkedTrans(sq0, tq0, sq, tq, world.stateQueue, world.textureQueue, world.trackTexture, marks, m);
      AppendAssoc(done, marks, m);
      ok := true;
    }

    /** The row loop of one building b = bs[k]: rows from b.bottom up while at or below
        b.bottom - b.h (unsigned). It completes (ok) exactly when the bound did not wrap to
        above the bottom row and the rows lie in the grid, or when it wrapped past the bottom
        row so that no row is visited; a bound of row 0 is passed by --y wrapping to the
        largest row, where get_block_at throws. */
    method RaiseBuilding(b: Building, ghost k: nat, tint: (nat, nat) -> nat,
                         ghost bs: seq<Building>, ghost cells0: seq<Block?>, ghost done: seq<Coord>)
      returns (ok: bool, ghost marks: seq<Coord>)
      requires world.Valid() && |cells0| == world.blocks.Length
      requires k < |bs| && bs[k] == b && b.j < world.width && b.j as int + b.w as int < U32
      requires Raised(world, bs, tint, cells0, done)
      modifies world`stateQueue, world`textureQueue, world`Footprint, world`Slot, world.blocks
      ensures world.Valid()
      ensures ok <==> b.bottom < b.h || (b.h < b.bottom && b.bottom < world.height)
      ensures ok ==> FilledBelow(world.blocks[..], world.width, world.height, b, -1)
      ensures Kept(world.blocks[..], old(world.blocks[..]))
      ensures Raised(world, bs, tint, cells0, done + marks)
      ensures Marked(world.stateQueue, world.textureQueue, world.trackTexture, old(world.stateQueue), old(world.textureQueue), marks)
    {
      marks := [];
      var low := (b.bottom - b.h) % U32;
      assert low == if b.h <= b.bottom then b.bottom - b.h else b.bottom - b.h + U32;
      var y: u32 := b.bottom;
      while y >= low
        invariant y <= b.bottom && (low <= b.bottom ==> low <= y + 1) && (low > b.bottom ==> y == b.bottom)
        invariant y < b.bottom ==> b.bottom < world.height
        invariant world.Valid()
        invariant FilledBelow(world.blocks[..], world.width, world.height, b, y)
        invariant Kept(world.blocks[..], old(world.blocks[..]))
        invariant Raised(world, bs, tint, cells0, done + marks)
        invariant Marked(world.stateQueue, world.textureQueue, world.trackTexture, old(world.stateQueue), old(world.textureQueue), marks)
        decreases y
      {
        ghost var sq, tq, before := world.stateQueue, world.textureQueue, world.blocks[..];
        var rowOk, m := StampRow(b, k, y, tint, bs, cells0, done + marks);
        MarkedTrans(old(world.stateQueue), old(world.textureQueue), sq, tq, world.stateQueue, world.textureQueue,
                    world.trackTexture, marks, m);
        AppendAssoc(done, marks, m);
        marks := marks + m;
        if !rowOk || y == 0 {
          ok := false;
          return;
        }
        FilledBelowStep(world.blocks[..], before, world.width, world.height, b, y);
        y := y - 1;
      }
      ok := true;
    }

    /** The body of gen_buildings' column loop at column j: when the column is eligible and
        its chance roll comes up, the width and height are drawn and the surface is searched
        for; when the search gives a bottom row, the building is raised and the scan moves
        past its last column and one more. False where the source throws: the search or a
        row ran off the grid. */
    method TryBuilding(j: u32, z: Zoning, rolls: BuildingRolls,
                       ghost bs: seq<Building>, ghost cells0: seq<Block?>, ghost done: seq<Coord>)
      returns (ok: bool, next: u32, ghost bs': seq<Building>, ghost marks: seq<Coord>)
      requires world.Valid() && z.Ranged() && |cells0| == world.blocks.Length
      requires j < world.width && z.xMax as int + world.width as int + 1 < U32
      requires Planned(bs, cells0, world.width, world.height, z, rolls, j)
      requires Served(bs, cells0, world.width, world.height, z, rolls, j)
      requires Raised(world, bs, rolls.tint, cells0, done)
      requires Complete(world.blocks[..], world.width, world.height, bs)
      modifies world`stateQueue, world`textureQueue, world`Footprint, world`Slot, world.blocks
      ensures world.Valid()
      ensures j < next <= j + z.xMax + 2
      ensures Planned(bs', cells0, world.width, world.height, z, rolls, next)
      ensures ok ==> Served(bs', cells0, world.width, world.height, z, rolls, next)
      ensures Raised(world, bs', rolls.tint, cells0, done + marks)
      ensures ok ==> Complete(world.blocks[..], world.width, world.height, bs')
      ensures Marked(world.stateQueue, world.textureQueue, world.trackTexture, old(world.stateQueue), old(world.textureQueue), marks)
    {
      if Eligible(world.width, z.clearance, j) && rolls.build(j) {
        ok, next, bs', marks := DrawBuilding(j, z, rolls, bs, cells0, done);
      } else {
        ok, next, bs', marks := true, j + 1, bs, [];
        ServedSkip(bs, cells0, world.width, world.height, z, rolls, j);
        SkipStep(world, bs, cells0, done, z, rolls, j);
      }
    }

    /** The draws for an eligible column j that the build roll picked: the size is drawn,
        the surface searched for, and a building raised when the search gives a bottom row. */
    method DrawBuilding(j: u32, z: Zoning, rolls: BuildingRolls,
                        ghost bs: seq<Building>, ghost cells0: seq<Block?>, ghost done: seq<Coord>)
      returns (ok: bool, next: u32, ghost bs': seq<Building>, ghost marks: seq<Coord>)
      requires world.Valid() && z.Ranged() && |cells0| == world.blocks.Length
      requires j < world.width && z.xMax as int + world.width as int + 1 < U32
      requires Eligible(world.width, z.clearance, j) && rolls.build(j)
      requires Planned(bs, cells0, world.width, world.height, z, rolls, j)
      requires Served(bs, cells0, world.width, world.height, z, rolls, j)
      requires Raised(world, bs, rolls.tint, cells0, done)
      requires Complete(world.blocks[..], world.width, world.height, bs)
      modifies world`stateQueue, world`textureQueue, world`Footprint, world`Slot, world.blocks
      ensures world.Valid()
      ensures j < next <= j + z.xMax + 2
      ensures Planned(bs', cells0, world.width, world.height, z, rolls, next)
      ensures ok ==> Served(bs', cells0, world.width, world.height, z, rolls, next)
      ensures Raised(world, bs', rolls.tint, cells0, done + marks)
      ensures ok ==> Complete(world.blocks[..], world.width, world.height, bs')
      ensures Marked(world.stateQueue, world.textureQueue, world.trackTexture, old(world.stateQueue), old(world.textureQueue), marks)
    {
      var w: u32 := Pick(z.xMin, z.xMax, rolls.width(j));
      var h: u32 := Pick(z.yMin, z.yMax, rolls.height(j));
      var found := SurfaceAt(j, z.foundation, bs, rolls.tint, cells0, done);
      if found.OffGrid? {
        ok, next, bs', marks := false, j + 1, bs, [];
        SkipStep(world, bs, cells0, done, z, rolls, j);
      } else {
        ok, next, bs', marks := SettleBuilding(j, w, h, found, z, rolls, bs, cells0, done);
      }
    }

    /** The drawn size and the search result for column j: a building is raised unless the
        search found nothing or its bottom row would be the grid's height. */
    method SettleBuilding(j: u32, w: u32, h: u32, found: Surface, z: Zoning, rolls: BuildingRolls,
                        ghost bs: seq<Building>, ghost cells0: seq<Block?>, ghost done: seq<Coord>)
      returns (ok: bool, next: u32, ghost bs': seq<Building>, ghost marks: seq<Coord>)
      requires world.Valid() && z.Ranged() && |cells0| == world.blocks.Length
      requires j < world.width && z.xMax as int + world.width as int + 1 < U32
      requires Eligible(world.width, z.clearance, j) && rolls.build(j)
      requires w == Pick(z.xMin, z.xMax, rolls.width(j)) && h == Pick(z.yMin, z.yMax, rolls.height(j))
      requires found == SurfaceScan(cells0, world.width, world.height, j, 0, Limit(world.height, z.foundation))
      requires !found.OffGrid?
      requires Planned(bs, cells0, world.width, world.height, z, rolls, j)
      requires Served(bs, cells0, world.width, world.height, z, rolls, j)
      requires Raised(world, bs, rolls.tint, cells0, done)
      requires Complete(world.blocks[..], world.width, world.height, bs)
      modifies world`stateQueue, world`textureQueue, world`Footprint, world`Slot, world.blocks
      ensures world.Valid()
      ensures j < next <= j + z.xMax + 2
      ensures Planned(bs', cells0, world.width, world.height, z, rolls, next)
      ensures ok ==> Served(bs', cells0, world.width, world.height, z, rolls, next)
      ensures Raised(world, bs', rolls.tint, cells0, done + marks)
      ensures ok ==> Complete(world.blocks[..], world.width, world.height, bs')
      ensures Marked(world.stateQueue, world.textureQueue, world.trackTexture, old(world.stateQueue), old(world.textureQueue), marks)
    {
      var bottom := if found.Found? then (found.row + z.foundation) % U32 else world.height;
      if bottom != world.height {
        var b := Building(j, w, h, bottom);
        ok, marks := OpenBuilding(b, z, rolls, bs, cells0, done);
        bs', next := bs + [b], j + w + 2;
      } else {
        ok, next, bs', marks := true, j + 1, bs, [];
        ServedSkip(bs, cells0, world.width, world.height, z, rolls, j);
        SkipStep(world, bs, cells0, done, z, rolls, j);
      }
    }

    /** The search for the surface of column j, right of every building so far, sees the
        column as it was before the building pass. */
    method SurfaceAt(j: u32, foundation: u32, ghost bs: seq<Building>, ghost tint: (nat, nat) -> nat,
                     ghost cells0: seq<Block?>, ghost done: seq<Coord>) returns (found: Surface)
      requires world.Valid() && |cells0| == world.blocks.Length && j < world.width
      requires Raised(world, bs, tint, cells0, done)
      requires forall i :: 0 <= i < |bs| ==> bs[i].j + bs[i].w < j
      ensures found == SurfaceScan(cells0, world.width, world.height, j, 0, Limit(world.height, foundation))
    {
      RaisedColumn(world, bs, tint, cells0, done, j);
      SurfaceScanColumn(world.blocks[..], cells0, world.width, world.height, j, 0, Limit(world.height, foundation));
      found := FindSurface(j, foundation);
    }

    /** A building drawn at column b.j is raised; the scan then resumes past its span. */
    method OpenBuilding(b: Building, z: Zoning, rolls: BuildingRolls,
                        ghost bs: seq<Building>, ghost cells0: seq<Block?>, ghost done: seq<Coord>)
      returns (ok: bool, ghost marks: seq<Coord>)
      requires world.Valid() && z.Ranged() && |cells0| == world.blocks.Length
      requires b.j < world.width && z.xMax as int + world.width as int + 1 < U32
      requires Drawn(b, cells0, world.width, world.height, z, rolls)
      requires Planned(bs, cells0, world.width, world.height, z, rolls, b.j)
      requires Served(bs, cells0, world.width, world.height, z, rolls, b.j)
      requires Raised(world, bs, rolls.tint, cells0, done)
      requires Complete(world.blocks[..], world.width, world.height, bs)
      modifies world`stateQueue, world`textureQueue, world`Footprint, world`Slot, world.blocks
      ensures world.Valid()
      ensures Planned(bs + [b], cells0, world.width, world.height, z, rolls, b.j + b.w + 2)
      ensures ok ==> Served(bs + [b], cells0, world.width, world.height, z, rolls, b.j + b.w + 2)
      ensures Raised(world, bs + [b], rolls.tint, cells0, done + marks)
      ensures ok ==> Complete(world.blocks[..], world.width, world.height, bs + [b])
      ensures Marked(world.stateQueue, world.textureQueue, world.trackTexture, old(world.stateQueue), old(world.textureQueue), marks)
    {
      RaisedGrow(world, bs, b, rolls.tint, cells0, done);
      ok, marks := RaiseBuilding(b, |bs|, rolls.tint, bs + [b], cells0, done);
      PlannedGrow(bs, b, cells0, world.width, world.height, z, rolls, b.j);
      ServedGrow(bs, b, cells0, world.width, world.height, z, rolls, b.j);
      CompleteKept(world.blocks[..], old(world.blocks[..]), world.width, world.height, bs);
      if ok {
        CompleteGrow(world.blocks[..], world.width, world.height, bs, b);
      }
    }

    /** WorldGen::gen_buildings. An empty width or height range throws (ok false) before
        anything changes. Otherwise columns are scanned left to right; `built` are the
        buildings placed, in order, each drawn at an eligible column whose chance roll came
        up and whose search found a block, each starting at least two columns after the
        previous one ends. Only cells that were empty change, each to a brick or glass block
        of a building covering it, and the changed cells are exactly those marked for update.
        On success every cell of every building holds a block, and every column where a
        building opens lies in some building's span; false where the source throws. */
    method GenBuildings(xMin: u32, xMax: u32, yMin: u32, yMax: u32, foundation: u32, clearance: u32, rolls: BuildingRolls)
      returns (ok: bool, ghost built: seq<Building>, ghost marks: seq<Coord>)
      requires world.Valid()
      requires xMax as int + world.width as int + 1 < U32
      modifies world`stateQueue, world`textureQueue, world`Footprint, world`Slot, world.blocks
      ensures world.Valid()
      ensures !(xMin <= xMax && yMin <= yMax) ==> !ok && unchanged(world) && unchanged(world.blocks)
      ensures Raised(world, built, rolls.tint, old(world.blocks[..]), marks)
      ensures var z := Zoning(xMin, xMax, yMin, yMax, foundation, clearance);
              z.Ranged() ==> Planned(built, old(world.blocks[..]), world.width, world.height, z, rolls, world.width as int + xMax as int + 1)
      ensures var z := Zoning(xMin, xMax, yMin, yMax, foundation, clearance);
              ok ==> Served(built, old(world.blocks[..]), world.width, world.height, z, rolls, world.width as int)
      ensures ok ==> Complete(world.blocks[..], world.width, world.height, built)
      ensures Marked(world.stateQueue, world.textureQueue, world.trackTexture, old(world.stateQueue), old(world.textureQueue), marks)
    {
      built, marks := [], [];
      if xMin > xMax || yMin > yMax {
        ok := false;
        return;
      }
      var z := Zoning(xMin, xMax, yMin, yMax, foundation, clearance);
      ghost var cells0 := world.blocks[..];
      var j: u32 := 0;
      while j < world.width
        invariant j as int <= world.width as int + xMax as int + 1
        invariant world.Valid()
        invariant Planned(built, cells0, world.width, world.height, z, rolls, j)
        invariant Served(built, cells0, world.width, world.height, z, rolls, j)
        invariant Raised(world, built, rolls.tint, cells0, marks)
        invariant Complete(world.blocks[..], world.width, world.height, built)
        invariant Marked(world.stateQueue, world.textureQueue, world.trackTexture, old(world.stateQueue), old(world.textureQueue), marks)
        decreases world.width - j
      {
        ghost var sq, tq := world.stateQueue, world.textureQueue;
        var next;
        ghost var more;
        ok, next, built, more := TryBuilding(j, z, rolls, built, cells0, marks);
        MarkedTrans(old(world.stateQueue), old(world.textureQueue), sq, tq, world.stateQueue, world.textureQueue,
                    world.trackTexture, marks, more);
        marks := marks + more;
        if !ok {
          return;
        }
        j := next;
      }
      ok := true;
    }

    /** Generation on a cleared grid: what GenerateWorld lays, seen from empty cells. `ground`
        is the grid after the terrain pass; `built` is the plan drawn on it and `marks` are
        exactly the cells the building pass filled, marked after the terrain cells. */
    method Regenerate(terrain: TerrainRolls, buildings: BuildingRolls)
      returns (ok: bool, ghost ground: seq<Block?>, ghost built: seq<Building>, ghost marks: seq<Coord>)
      requires world.Valid() && world.width as int + 25 < U32
      requires forall i :: 0 <= i < world.blocks.Length ==> world.blocks[i] == null
      modifies world`stateQueue, world`textureQueue, world`Footprint, world`Slot, world.blocks
      ensures world.Valid() && |ground| == world.blocks.Length
      ensures Generated(world, WorldTerrain(world.height, terrain), terrain.tint, built, buildings.tint)
      ensures Planned(built, ground, world.width, world.height, CITY, buildings, world.width as int + 25)
      ensures ok ==> Served(built, ground, world.width, world.height, CITY, buildings, world.width as int)
      ensures ok ==> Complete(world.blocks[..], world.width, world.height, built)
      ensures Raised(world, built, buildings.tint, ground, marks)
      ensures Marked(world.stateQueue, world.textureQueue, world.trackTexture, old(world.stateQueue), old(world.textureQueue),
                     TerrainMarks(WorldTerrain(world.height, terrain), world.height, world.width as int) + marks)
    {
      ghost var cleared := world.blocks[..];
      ok, ground, built, marks := GenerateWorld(terrain, buildings);
      LayeredOnEmpty(world, WorldTerrain(world.height, terrain), terrain.tint, built, buildings.tint, ground, cleared);
    }

    /** WorldGen::generate_world: the terrain pass with the surface between 65% and 82.5% of
        the height, then the building pass with the city's ranges; `ground` is the grid the
        building pass starts from, and `marks` are exactly the cells that pass filled. */
    method GenerateWorld(terrain: TerrainRolls, buildings: BuildingRolls)
      returns (ok: bool, ghost ground: seq<Block?>, ghost built: seq<Building>, ghost marks: seq<Coord>)
      requires world.Valid()
      requires world.width as int + 25 < U32
      modifies world`stateQueue, world`textureQueue, world`Footprint, world`Slot, world.blocks
      ensures world.Valid() && |ground| == world.blocks.Length
      ensures Layered(world, WorldTerrain(world.height, terrain), terrain.tint, built, buildings.tint, ground, old(world.blocks[..]))
      ensures Planned(built, ground, world.width, world.height, CITY, buildings, world.width as int + 25)
      ensures ok ==> Served(built, ground, world.width, world.height, CITY, buildings, world.width as int)
      ensures ok ==> Complete(world.blocks[..], world.width, world.height, built)
      ensures Raised(world, built, buildings.tint, ground, marks)
      ensures Marked(world.stateQueue, world.textureQueue, world.trackTexture, old(world.stateQueue), old(world.textureQueue),
                     TerrainMarks(WorldTerrain(world.height, terrain), world.height, world.width as int) + marks)
    {
      ghost var before := world.blocks[..];
      var t := WorldTerrain(world.height, terrain);
      var laid := GenTerrain(t.lo, t.hi, t.stepMin, t.stepMax, terrain);
      ground := world.blocks[..];
      ghost var fp := world.Footprint;
      ghost var sq, tq := world.stateQueue, world.textureQueue;
      ok, built, marks := GenBuildings(CITY.xMin, CITY.xMax, CITY.yMin, CITY.yMax, CITY.foundation, CITY.clearance, buildings);
      MarkedTrans(old(world.stateQueue), old(world.textureQueue), sq, tq, world.stateQueue, world.textureQueue,
                  world.trackTexture, TerrainMarks(t, world.height, world.width as int), marks);
      LayeredFrom(world, t, terrain.tint, built, buildings.tint, ground, before, fp, marks);
    }
  }

  /** World::generate_new_world: texture tracking goes off, the world is cleared and
      generated afresh; then the render-update list is emptied by a full refresh and tracking
      comes back on. When generation throws (ok false) the refresh never happens and
      tracking stays off. Either way the registry is empty and hands out ids from 0; every
      cell at or below the surface holds a block of its band, and every cell above it is
      empty or holds a facade block of one of the buildings. Every cell laid is appended to
      the state queue: the terrain cells column by column, then the building cells (`marks`,
      exactly the cells the building pass filled on the terrain grid `ground`); with tracking
      off none reaches the render-update list. */
  method GenerateNewWorld(world: World, seed: u32, terrain: TerrainRolls, buildings: BuildingRolls)
    returns (ok: bool, ghost ground: seq<Block?>, ghost built: seq<Building>, ghost marks: seq<Coord>)
    requires world.Valid()
    requires world.width as int + 25 < U32
    modifies world, world.blocks
    ensures world.Valid() && |ground| == world.blocks.Length
    ensures world.entities == map[] && world.nonFx == [] && world.nextId == 0
    ensures ok ==> world.trackTexture && world.textureQueue == []
    ensures !ok ==> !world.trackTexture && world.textureQueue == old(world.textureQueue)
    ensures world.stateQueue
            == old(world.stateQueue) + TerrainMarks(WorldTerrain(world.height, terrain), world.height, world.width as int) + marks
    ensures Generated(world, WorldTerrain(world.height, terrain), terrain.tint, built, buildings.tint)
    ensures Planned(built, ground, world.width, world.height, CITY, buildings, world.width as int + 25)
    ensures ok ==> Served(built, ground, world.width, world.height, CITY, buildings, world.width as int)
    ensures ok ==> Complete(world.blocks[..], world.width, world.height, built)
    ensures Raised(world, built, buildings.tint, ground, marks)
  {
    world.SetTrackTexture(false);
    var gen := new WorldGen(world, seed);
    world.Clear();
    ok, ground, built, marks := gen.Regenerate(terrain, buildings);
    if ok {
      world.RefreshBlocksRenderTexture();
      world.SetTrackTexture(true);
    }
  }
}
