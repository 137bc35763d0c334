/** The value-level rules of the block grid: row-major cell indexing, the order in which the
    state queue removes destroyed blocks, the render-drain quota and the explosion falloff. */
module Grid {
  import opened Common
  import opened Entities

  /** Block::BLOCK_SIZE, the side of one cell in world units. */
  const BLOCK_SIZE: real := 0.5

  /** World::MAX_BLOCKS_TEXTURE_UPDATES_PER_RENDER and ..._FOR_CATCHUP. */
  const MAX_TEXTURE_UPDATES_PER_RENDER: nat := 3000
  const MAX_TEXTURE_UPDATES_FOR_CATCHUP: nat := 8 * MAX_TEXTURE_UPDATES_PER_RENDER

  lemma MulNonneg(a: int, b: int)
    requires a >= 0 && b >= 0
    ensures a * b >= 0
  {
  }

  lemma MulMono(k: int, a: int, b: int)
    requires k >= 0 && a <= b
    ensures k * a <= k * b
  {
    assert k * b - k * a == k * (b - a);
    MulNonneg(k, b - a);
  }

  /** Euclidean division is determined by any quotient/remainder pair. */
  lemma DivModUnique(i: int, w: int, q: int, r: int)
    requires w > 0 && 0 <= r < w && i == w * q + r
    ensures i / w == q && i % w == r
  {
    var q', r' := i / w, i % w;
    assert w * (q - q') == r' - r;
    if q - q' >= 1 {
      MulMono(w, 1, q - q');
    } else if q' - q >= 1 {
      MulMono(w, 1, q' - q);
    }
  }

  /** Row-major indexing decodes back to the coordinates it was built from, so it is
      injective on in-range coordinates and lands inside the w*h cells. */
  lemma IndexDecode(w: nat, h: nat, x: nat, y: nat)
    requires x < w && y < h
    ensures x + w * y < w * h
    ensures (x + w * y) % w == x && (x + w * y) / w == y
  {
    MulMono(w, y + 1, h);
    assert w * (y + 1) == w * y + w;
    DivModUnique(x + w * y, w, y, x);
  }

  /** Integer division by a positive divisor is monotone in the dividend. */
  lemma DivMono(a: int, b: int, d: int)
    requires 0 <= a <= b && d > 0
    ensures a / d <= b / d
  {
    var qa, qb := a / d, b / d;
    if qa > qb {
      MulMono(d, qb + 1, qa);
    }
  }

  /** World::get_block_index: x + width*y, or None where the source throws. */
  function BlockIndex(w: u32, h: u32, x: u32, y: u32): (r: Option<nat>)
    ensures r.Some? <==> x < w && y < h
    ensures r.Some? ==> r.value < w * h
  {
    if x >= w || y >= h then None
    else
      IndexDecode(w, h, x, y);
      Some(x + w * y)
  }

  /** The index of an in-range cell decodes back to its coordinates. */
  lemma BlockIndexDecode(w: u32, h: u32, x: u32, y: u32)
    requires x < w && y < h
    ensures BlockIndex(w, h, x, y).value % w == x && BlockIndex(w, h, x, y).value / w == y
  {
    IndexDecode(w, h, x, y);
  }

  /** Two in-range coordinates with the same index are the same coordinates. */
  lemma BlockIndexInjective(w: u32, h: u32, x1: u32, y1: u32, x2: u32, y2: u32)
    requires BlockIndex(w, h, x1, y1).Some? && BlockIndex(w, h, x2, y2).Some?
    requires BlockIndex(w, h, x1, y1) == BlockIndex(w, h, x2, y2)
    ensures x1 == x2 && y1 == y2
  {
    BlockIndexDecode(w, h, x1, y1);
    BlockIndexDecode(w, h, x2, y2);
  }

  /** The number of entries one render drains from a backlog of n: all of them once the
      backlog is past the catch-up threshold, otherwise at most one more than the per-render
      cap (the loop guard compares the count with <=). */
  function DrainQuota(n: nat): (q: nat)
    ensures q <= n
    ensures n > MAX_TEXTURE_UPDATES_FOR_CATCHUP ==> q == n
    ensures n <= MAX_TEXTURE_UPDATES_FOR_CATCHUP ==> q <= MAX_TEXTURE_UPDATES_PER_RENDER + 1
    ensures q < n ==> q == MAX_TEXTURE_UPDATES_PER_RENDER + 1
  {
    if n > MAX_TEXTURE_UPDATES_FOR_CATCHUP then n else Min(n, MAX_TEXTURE_UPDATES_PER_RENDER + 1)
  }

  /** The backlog left after one render is max(0, n - 3001) below the catch-up threshold
      and empty above it. */
  lemma DrainLeaves(n: nat)
    ensures n - DrainQuota(n) == if n > 24000 then 0 else Max(0, n - 3001)
  {
  }

  /** The cells a FIFO pass over q turns empty, in the order it empties them: each entry
      whose cell is still in `dead` is removed (and so leaves `dead`), others are skipped. */
  function Removed(q: seq<Coord>, dead: set<Coord>): seq<Coord>
  {
    if q == [] then []
    else if q[0] in dead then [q[0]] + Removed(q[1..], dead - {q[0]})
    else Removed(q[1..], dead)
  }

  /** A cell is emptied iff it was queued and dead, and it is emptied only once. */
  lemma {:induction false} RemovedMembers(q: seq<Coord>, dead: set<Coord>)
    ensures forall c :: c in Removed(q, dead) <==> c in q && c in dead
    ensures forall i, j :: 0 <= i < j < |Removed(q, dead)| ==> Removed(q, dead)[i] != Removed(q, dead)[j]
  {
    if q != [] {
      if q[0] in dead {
        RemovedMembers(q[1..], dead - {q[0]});
        forall c
          ensures c in Removed(q, dead) <==> c in q && c in dead
        {
          assert c in q <==> c == q[0] || c in q[1..];
        }
      } else {
        RemovedMembers(q[1..], dead);
        forall c
          ensures c in Removed(q, dead) <==> c in q && c in dead
        {
          assert c in q <==> c == q[0] || c in q[1..];
        }
      }
    }
  }

  /** The cells of a list, as a set. */
  function Cells(s: seq<Coord>): set<Coord>
  {
    set c | c in s
  }

  /** One FIFO step of the drain keeps "emptied so far, then what the rest of the original
      queue will empty" equal to the whole pass: the entry q[k] is emptied iff its cell is
      dead and not emptied yet. */
  lemma RemovedStep(q: seq<Coord>, dead: set<Coord>, k: nat, emptied: seq<Coord>)
    requires k < |q|
    requires emptied + Removed(q[k..], dead - Cells(emptied)) == Removed(q, dead)
    ensures var e := if q[k] in dead - Cells(emptied) then emptied + [q[k]] else emptied;
            e + Removed(q[k + 1..], dead - Cells(e)) == Removed(q, dead)
  {
    var rest := q[k..];
    assert rest[0] == q[k] && rest[1..] == q[k + 1..];
    if q[k] in dead - Cells(emptied) {
      assert Cells(emptied + [q[k]]) == Cells(emptied) + {q[k]};
      assert dead - Cells(emptied) - {q[k]} == dead - Cells(emptied + [q[k]]);
    }
  }

  /** Squared distance from the blast centre, over the integers. */
  function Dist2(cx: int, cy: int, x: int, y: int): (d: int)
    ensures d >= 0
  {
    (x - cx) * (x - cx) + (y - cy) * (y - cy)
  }

  /** The damage a cell at squared distance d2 takes from a blast of squared radius r2:
      center_damage * (1 - max(0.1, d2 / r2)), truncated, over the rationals. Below a tenth
      of r2 the factor is capped at 9/10, otherwise it is (r2 - d2) / r2. */
  function ExplosionDamage(centerDamage: u32, d2: nat, r2: nat): (dmg: u32)
    requires 0 < r2 && d2 <= r2
    ensures 10 * dmg <= 9 * centerDamage
    ensures d2 == r2 ==> dmg == 0
    ensures 10 * d2 <= r2 ==> dmg == (9 * centerDamage) / 10
  {
    if 10 * d2 <= r2 then (9 * centerDamage) / 10
    else
      ExplosionDamageBound(centerDamage, d2, r2);
      (centerDamage * (r2 - d2)) / r2
  }

  lemma ExplosionDamageBound(centerDamage: u32, d2: nat, r2: nat)
    requires 0 < r2 && d2 <= r2 && 10 * d2 > r2
    ensures 0 <= (centerDamage * (r2 - d2)) / r2
    ensures 10 * ((centerDamage * (r2 - d2)) / r2) <= 9 * centerDamage
  {
    var n := centerDamage * (r2 - d2);
    MulNonneg(centerDamage, r2 - d2);
    MulMono(centerDamage, 10 * (r2 - d2), 9 * r2);
    assert 10 * n == centerDamage * (10 * (r2 - d2));
    assert centerDamage * (9 * r2) == (9 * centerDamage) * r2;
    ScaledQuotient(n, r2, 10, 9 * centerDamage);
  }

  /** k * (n / d) stays within m whenever k * n does within m * d. */
  lemma ScaledQuotient(n: int, d: int, k: int, m: int)
    requires d > 0 && n >= 0 && k >= 0 && k * n <= m * d
    ensures k * (n / d) <= m
  {
    var q := n / d;
    assert d * q <= n;
    MulMono(k, d * q, n);
    assert k * (d * q) == d * (k * q);
    assert d * (m + 1) == m * d + d;
    if k * q > m {
      MulMono(d, m + 1, k * q);
    }
  }

  /** Damage never grows with distance from the centre. */
  lemma ExplosionFalloff(centerDamage: u32, d2: nat, e2: nat, r2: nat)
    requires 0 < r2 && d2 <= e2 <= r2
    ensures ExplosionDamage(centerDamage, e2, r2) <= ExplosionDamage(centerDamage, d2, r2)
  {
    if 10 * d2 > r2 {
      MulMono(centerDamage, r2 - e2, r2 - d2);
      MulNonneg(centerDamage, r2 - e2);
      DivMono(centerDamage * (r2 - e2), centerDamage * (r2 - d2), r2);
    }
  }

  /** The largest radius for which explode_at's `r * r`, computed in int, does not overflow. */
  const MAX_BLAST_RADIUS: nat := 46340

  /** d * d in uint32 arithmetic: the difference and the product both wrap modulo 2^32. */
  function Square32(d: int): u32
  {
    ((d % U32) * (d % U32)) % U32
  }

  /** explode_at's dx*dx + dy*dy, computed on uint32 coordinates with every step wrapping. */
  function WrappedDist2(cx: u32, cy: u32, x: u32, y: u32): u32
  {
    (Square32(x - cx) + Square32(y - cy)) % U32
  }

  /** A difference no larger than MAX_BLAST_RADIUS squares exactly despite the wrapping. */
  lemma Square32Exact(d: int)
    requires -(MAX_BLAST_RADIUS as int) <= d <= MAX_BLAST_RADIUS
    ensures Square32(d) == d * d
    ensures d * d <= MAX_BLAST_RADIUS * MAX_BLAST_RADIUS
  {
    var a := if d >= 0 then d else -d;
    assert d * d == a * a;
    MulMono(a, a, MAX_BLAST_RADIUS);
    MulMono(MAX_BLAST_RADIUS, a, MAX_BLAST_RADIUS);
    if d >= 0 {
      DivModUnique(d, U32, 0, d);
      DivModUnique(d * d, U32, 0, d * d);
    } else {
      DivModUnique(d, U32, -1, U32 + d);
      assert (U32 + d) * (U32 + d) == U32 * (U32 + 2 * d) + d * d;
      DivModUnique((U32 + d) * (U32 + d), U32, U32 + 2 * d, d * d);
    }
  }

  /** Within the radius bound the wrapped computation is the exact squared distance. */
  lemma WrappedDist2Exact(cx: u32, cy: u32, x: u32, y: u32)
    requires -(MAX_BLAST_RADIUS as int) <= x - cx <= MAX_BLAST_RADIUS
    requires -(MAX_BLAST_RADIUS as int) <= y - cy <= MAX_BLAST_RADIUS
    ensures WrappedDist2(cx, cy, x, y) == Dist2(cx, cy, x, y)
  {
    Square32Exact(x - cx);
    Square32Exact(y - cy);
    DivModUnique(Dist2(cx, cy, x, y), U32, 0, Dist2(cx, cy, x, y));
  }

  /** The cells explode_at visits: [max(x - r, 0), min(x + r + 1, width)) by
      [max(y - r, 0), min(y + r + 1, height)), the upper ends computed in uint32. */
  function BlastBox(cx: u32, cy: u32, r: nat, w: u32, h: u32): (b: Box)
    ensures 0 <= b.x0 && b.x1 <= w && 0 <= b.y0 && b.y1 <= h
  {
    Box(Max(cx - r, 0), Min((cx + r + 1) % U32, w), Max(cy - r, 0), Min((cy + r + 1) % U32, h))
  }

  /** Every visited cell lies within r of the centre on both axes: where x + r + 1 wraps,
      the start max(x - r, 0) is already past the wrapped end and no cell is visited. */
  lemma BlastBoxWithinRadius(cx: u32, cy: u32, r: nat, w: u32, h: u32, c: Coord)
    requires r <= MAX_BLAST_RADIUS && BlastBox(cx, cy, r, w, h).Contains(c)
    ensures -(r as int) <= c.x - cx <= r && -(r as int) <= c.y - cy <= r
  {
    if cx + r + 1 >= U32 {
      DivModUnique(cx + r + 1, U32, 1, cx + r + 1 - U32);
    } else {
      DivModUnique(cx + r + 1, U32, 0, cx + r + 1);
    }
    if cy + r + 1 >= U32 {
      DivModUnique(cy + r + 1, U32, 1, cy + r + 1 - U32);
    } else {
      DivModUnique(cy + r + 1, U32, 0, cy + r + 1);
    }
  }

  /** explode_at's squared distance for a visited cell: computed with wrapping uint32
      arithmetic, it is nevertheless the exact squared distance. */
  function BlastDist2(cx: u32, cy: u32, r: nat, w: u32, h: u32, c: Coord): (d: u32)
    requires r <= MAX_BLAST_RADIUS && BlastBox(cx, cy, r, w, h).Contains(c)
    ensures d == Dist2(cx, cy, c.x, c.y)
  {
    BlastBoxWithinRadius(cx, cy, r, w, h, c);
    WrappedDist2Exact(cx, cy, c.x, c.y);
    WrappedDist2(cx, cy, c.x, c.y)
  }

  /** explode_at's r_sq; positive for a positive radius. */
  function RadiusSq(r: nat): (r2: nat)
    ensures 0 < r ==> 0 < r2
  {
    if r == 0 then 0 else MulMono(r, 1, r); r * r
  }

  /** A cell explode_at damages (when it holds a block): visited, and within the disc. */
  predicate InBlast(cx: u32, cy: u32, r: nat, w: u32, h: u32, c: Coord)
  {
    BlastBox(cx, cy, r, w, h).Contains(c) && Dist2(cx, cy, c.x, c.y) <= RadiusSq(r)
  }

  /** A half-open cell range [x0, x1) x [y0, y1). */
  datatype Box = Box(x0: int, x1: int, y0: int, y1: int)
  {
    predicate Contains(c: Coord)
    {
      x0 <= c.x < x1 && y0 <= c.y < y1
    }
  }

  /** a comes before b in row-major order (by row, then by column). */
  predicate RowMajorBefore(a: Coord, b: Coord)
  {
    a.y < b.y || (a.y == b.y && a.x < b.x)
  }

  /** A rectangle with a negative width or height turned into the same area with
      non-negative sides. */
  function Normalized(r: Rect): (n: Rect)
    ensures n.width >= 0.0 && n.height >= 0.0
    ensures n.left <= r.left && n.top <= r.top
    ensures n.left + n.width == Max2(r.left, r.left + r.width)
    ensures n.top + n.height == Max2(r.top, r.top + r.height)
  {
    var r1 := if r.width < 0.0 then r.(left := r.left + r.width, width := -r.width) else r;
    if r1.height < 0.0 then r1.(top := r1.top + r1.height, height := -r1.height) else r1
  }

  function Max2(a: real, b: real): real { if a >= b then a else b }

  /** The cell range World::blocks_test_rectangle_collision scans: the normalised rectangle's
      edges divided by the cell size, the start truncated and the end rounded up plus one,
      clamped to the grid; None when the rectangle lies wholly off one side. */
  function QueryBox(rect: Rect, w: u32, h: u32): (b: Option<Box>)
    ensures b.Some? ==> 0 <= b.value.x0 && b.value.x1 <= w && 0 <= b.value.y0 && b.value.y1 <= h
  {
    var n := Normalized(rect);
    var sx := Trunc(n.left / BLOCK_SIZE);
    var sy := Trunc(n.top / BLOCK_SIZE);
    var ex := Ceil((n.left + n.width) / BLOCK_SIZE) + 1;
    var ey := Ceil((n.top + n.height) / BLOCK_SIZE) + 1;
    if (sx < 0 && ex < 0) || (sx >= w && ex >= w) || (sy < 0 && ey < 0) || (sy >= h && ey >= h) then None
    else Some(Box(Max(sx, 0), Min(ex, w), Max(sy, 0), Min(ey, h)))
  }

  /** Cell c's half-open square [c.x, c.x + 1) x [c.y, c.y + 1) (in cells) meets the closed
      area of the normalised rectangle. */
  predicate Touches(rect: Rect, c: Coord)
  {
    var n := Normalized(rect);
    n.left < (c.x + 1) as real * BLOCK_SIZE && c.x as real * BLOCK_SIZE <= n.left + n.width
    && n.top < (c.y + 1) as real * BLOCK_SIZE && c.y as real * BLOCK_SIZE <= n.top + n.height
  }

  /** The scanned range covers every in-range cell the rectangle touches; in particular a
      rectangle touching some cell is never reported as wholly out of bounds. */
  lemma QueryBoxCovers(rect: Rect, w: u32, h: u32, c: Coord)
    requires c.x < w && c.y < h && Touches(rect, c)
    ensures QueryBox(rect, w, h).Some? && QueryBox(rect, w, h).value.Contains(c)
  {
    var n := Normalized(rect);
    AxisCovers(n.left, n.width, c.x);
    AxisCovers(n.top, n.height, c.y);
  }

  lemma AxisCovers(lo: real, size: real, i: nat)
    requires lo < (i + 1) as real * BLOCK_SIZE && i as real * BLOCK_SIZE <= lo + size
    ensures Trunc(lo / BLOCK_SIZE) <= i < Ceil((lo + size) / BLOCK_SIZE) + 1
  {
    assert lo / BLOCK_SIZE < (i + 1) as real;
    assert i as real <= (lo + size) / BLOCK_SIZE;
  }
}
