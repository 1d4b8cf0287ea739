/** The map data of `src/map.c`: a grid of 8x8-metatile blocks, each metatile being 2x2 tiles, read by
    random access and by decoders that walk along a row or a column of metatiles. */
module MapTiles {
  import opened Machine

  /** `w` and `h` count blocks. Block and metatile indexes are held in bytes or in words according to
      how many there are; here both are words. */
  datatype MapData = MapData(
    w: nat, h: nat,
    metaTiles: seq<u16>, blocks: seq<u16>, blockIndexes: seq<u16>, blockRowOffsets: seq<u16>,
    baseTile: u16)

  /** What the resource compiler provides: dimensions that are powers of two (they divide 8192), so
      that masking is taking a remainder, and indexes that stay inside the tables. */
  ghost predicate WellFormed(d: MapData) {
    && 0 < d.w && 8192 % d.w == 0
    && 0 < d.h && 8192 % d.h == 0
    && |d.blockRowOffsets| == d.h
    && |d.blockIndexes| <= 0x1_0000
    && (forall y :: 0 <= y < d.h ==> d.blockRowOffsets[y] + d.w <= |d.blockIndexes|)
    && (forall i :: 0 <= i < |d.blockIndexes| ==> 64 * d.blockIndexes[i] + 64 <= |d.blocks|)
    && (forall i :: 0 <= i < |d.blocks| ==> 4 * d.blocks[i] + 4 <= |d.metaTiles|)
  }

  /** Index in `blocks` of the first metatile of the block at block position (`xb`, `yb`). */
  function BlockStart(d: MapData, xb: nat, yb: nat): (b: nat)
    requires WellFormed(d) && xb < d.w && yb < d.h
    ensures b + 64 <= |d.blocks|
  {
    var index: nat := d.blockIndexes[d.blockRowOffsets[yb] + xb];
    64 * index
  }

  /** Block position of a metatile coordinate: `(v / 8) & mask`. */
  function BlockPos(v: int, n: nat): (b: nat)
    requires n > 0
    ensures b < n
  {
    (v / 8) % n
  }

  /** `getMetaTile_*`, for coordinates of any size. */
  function MetaTile(d: MapData, x: int, y: int): (m: nat)
    requires WellFormed(d)
    ensures 4 * m + 4 <= |d.metaTiles|
  {
    d.blocks[BlockStart(d, BlockPos(x, d.w), BlockPos(y, d.h)) + (y % 8) * 8 + x % 8]
  }

  /** `MAP_getTile`, for coordinates of any size. */
  function Tile(d: MapData, x: int, y: int): u16
    requires WellFormed(d)
  {
    d.metaTiles[4 * MetaTile(d, x / 2, y / 2) + (y % 2) * 2 + x % 2]
  }

  /** The tile as it is written to the plane. */
  function Shown(d: MapData, x: int, y: int): u16
    requires WellFormed(d)
  {
    Wrap16(Tile(d, x, y) + d.baseTile)
  }

  // ----- What the tables say

  /** The metatile in column `i` and row `j` of the block in column `bx` and row `bv` of the map, looked up in the
      tables alone. */
  lemma MetaTileIs(d: MapData, bx: nat, bv: nat, i: nat, j: nat)
    requires WellFormed(d) && bx < d.w && bv < d.h && i < 8 && j < 8
    ensures var b := d.blockRowOffsets[bv] + bx;
            && b < |d.blockIndexes| && 64 * d.blockIndexes[b] + 8 * j + i < |d.blocks|
            && MetaTile(d, 8 * bx + i, 8 * bv + j) == d.blocks[64 * d.blockIndexes[b] + 8 * j + i]
  {
    PosIs(bx, i, d.w);
    PosIs(bv, j, d.h);
    BlockIs(d, bx, bv);
    hide BlockPos, BlockStart;
  }

  lemma PosIs(b: nat, i: nat, n: nat)
    requires b < n && i < 8
    ensures BlockPos(8 * b + i, n) == b && (8 * b + i) % 8 == i
  {
    DivUnique(8 * b + i, 8, b, i);
    DivUnique(b, n, 0, b);
  }

  lemma BlockIs(d: MapData, bx: nat, bv: nat)
    requires WellFormed(d) && bx < d.w && bv < d.h
    ensures var b := d.blockRowOffsets[bv] + bx;
            && b < |d.blockIndexes|
            && var index: int := d.blockIndexes[b];
            BlockStart(d, bx, bv) == 64 * index && 64 * index + 64 <= |d.blocks|
  {
  }

  /** The map repeats with its own size, in both directions. */
  lemma MapRepeats(d: MapData, x: int, y: int)
    requires WellFormed(d)
    ensures MetaTile(d, x + 8 * d.w, y) == MetaTile(d, x, y) && MetaTile(d, x, y + 8 * d.h) == MetaTile(d, x, y)
  {
    DivUnique(x + 8 * d.w, 8, x / 8 + d.w, x % 8);
    DivUnique(y + 8 * d.h, 8, y / 8 + d.h, y % 8);
    AddMultiple(x / 8, d.w, 1);
    AddMultiple(y / 8, d.h, 1);
  }

  /** What is written to the plane for tile (`a`, `b`) of that metatile. */
  lemma ShownIs(d: MapData, bx: nat, bv: nat, i: nat, j: nat, a: nat, b: nat)
    requires WellFormed(d) && bx < d.w && bv < d.h && i < 8 && j < 8 && a < 2 && b < 2
    ensures var k := d.blockRowOffsets[bv] + bx;
            && k < |d.blockIndexes| && 64 * d.blockIndexes[k] + 8 * j + i < |d.blocks|
            && var t := 4 * d.blocks[64 * d.blockIndexes[k] + 8 * j + i] + 2 * b + a;
            && t < |d.metaTiles|
            && Shown(d, 16 * bx + 2 * i + a, 16 * bv + 2 * j + b) == (d.metaTiles[t] + d.baseTile) % 0x1_0000
  {
    MetaTileIs(d, bx, bv, i, j);
    hide WellFormed, MetaTile;
    DivUnique(16 * bx + 2 * i + a, 2, 8 * bx + i, a);
    DivUnique(16 * bv + 2 * j + b, 2, 8 * bv + j, b);
  }

  // ----- The map repeats with the 16-bit coordinates

  /** Block positions repeat every 65536 metatiles. */
  lemma BlockPosRepeats(v: int, n: nat)
    requires n > 0 && 8192 % n == 0
    ensures BlockPos(v + 0x1_0000, n) == BlockPos(v, n)
  {
    var q := 8192 / n;
    assert 8192 == n * q;
    MetaTurn(v);
    AddMultiple(v / 8, n, q);
  }

  lemma ShownRepeats(d: MapData, x: int, y: int)
    requires WellFormed(d)
    ensures Shown(d, x + 0x2_0000, y) == Shown(d, x, y)
    ensures Shown(d, x, y + 0x2_0000) == Shown(d, x, y)
  {
    MetaTileRepeats(d, x / 2, y / 2);
    hide WellFormed, MetaTile, Wrap16;
    TileTurn(x);
    TileTurn(y);
  }

  lemma TileTurn(v: int)
    ensures (v + 0x2_0000) / 2 == v / 2 + 0x1_0000 && (v + 0x2_0000) % 2 == v % 2
  {
    DivUnique(v + 0x2_0000, 2, v / 2 + 0x1_0000, v % 2);
  }

  lemma MetaTileRepeats(d: MapData, x: int, y: int)
    requires WellFormed(d)
    ensures MetaTile(d, x + 0x1_0000, y) == MetaTile(d, x, y)
    ensures MetaTile(d, x, y + 0x1_0000) == MetaTile(d, x, y)
  {
    BlockPosRepeats(x, d.w);
    BlockPosRepeats(y, d.h);
    hide BlockPos, BlockStart;
    MetaTurn(x);
    MetaTurn(y);
  }

  lemma MetaTurn(v: int)
    ensures (v + 0x1_0000) % 8 == v % 8 && (v + 0x1_0000) / 8 == v / 8 + 8192
  {
    DivUnique(v + 0x1_0000, 8, v / 8 + 8192, v % 8);
  }

  /** Cutting a metatile coordinate to 16 bits does not change the tile found there. */
  lemma WrapShown(d: MapData, tx: int, y: int, k: int)
    requires WellFormed(d) && 0 <= y < 0x2_0000
    ensures Shown(d, tx, 2 * Wrap16(y) + k) == Shown(d, tx, 2 * y + k)
  {
    hide Shown, Wrap16;
    WrapIs(y, if y < 0x1_0000 then 0 else 1);
    ShownRepeats(d, tx, 2 * Wrap16(y) + k);
  }

  lemma WrapShownX(d: MapData, x: int, k: int, ty: int)
    requires WellFormed(d) && 0 <= x < 0x2_0000
    ensures Shown(d, 2 * Wrap16(x) + k, ty) == Shown(d, 2 * x + k, ty)
  {
    hide Shown, Wrap16;
    WrapIs(x, if x < 0x1_0000 then 0 else 1);
    ShownRepeats(d, 2 * Wrap16(x) + k, ty);
  }

  // ----- One step along a row or a column

  /** Moving on by one metatile: the offset in the block, or the next block when it is left. */
  lemma NextMeta(v: int, n: nat)
    requires n > 0
    ensures v % 8 < 7 ==> BlockPos(v + 1, n) == BlockPos(v, n) && (v + 1) % 8 == v % 8 + 1
    ensures v % 8 == 7 ==> BlockPos(v + 1, n) == (BlockPos(v, n) + 1) % n && (v + 1) % 8 == 0
  {
    if v % 8 == 7 {
      assert (v + 1) / 8 == v / 8 + 1;
      NextMod(v / 8, n);
    } else {
      assert (v + 1) / 8 == v / 8;
    }
  }

  lemma NextMod(a: int, n: nat)
    requires n > 0
    ensures (a + 1) % n == (a % n + 1) % n
  {
    var r := a % n + 1;
    assert a + 1 == n * (a / n) + r;
    if r < n {
      DivUnique(a + 1, n, a / n, r);
      DivUnique(r, n, 0, r);
    } else {
      assert n * (a / n) + n == n * (a / n + 1);
      DivUnique(a + 1, n, a / n + 1, 0);
      DivUnique(r, n, 1, 0);
    }
  }

  // ----- The decoders

  /** The four tiles of a metatile, as a decoder copies them (the decoders without `Ex` in their name
      serve a base of 0). */
  function Based(d: MapData, t: u16): (r: u16)
    ensures r == Wrap16(t + d.baseTile)
  {
    if d.baseTile == 0 then t else Wrap16(t + d.baseTile)
  }

  lemma MetaTileTiles(d: MapData, x: int, y: int)
    requires WellFormed(d)
    ensures var m := 4 * MetaTile(d, x, y);
            && m + 4 <= |d.metaTiles|
            && Based(d, d.metaTiles[m]) == Shown(d, 2 * x, 2 * y)
            && Based(d, d.metaTiles[m + 1]) == Shown(d, 2 * x + 1, 2 * y)
            && Based(d, d.metaTiles[m + 2]) == Shown(d, 2 * x, 2 * y + 1)
            && Based(d, d.metaTiles[m + 3]) == Shown(d, 2 * x + 1, 2 * y + 1)
  {
    hide WellFormed, MetaTile, Shown;
    PartOfMeta(d, x, y, 0, 0);
    PartOfMeta(d, x, y, 1, 0);
    PartOfMeta(d, x, y, 0, 1);
    PartOfMeta(d, x, y, 1, 1);
  }

  lemma PartOfMeta(d: MapData, x: int, y: int, i: nat, j: nat)
    requires WellFormed(d) && i < 2 && j < 2
    ensures Shown(d, 2 * x + i, 2 * y + j) == Wrap16(d.metaTiles[4 * MetaTile(d, x, y) + 2 * j + i] + d.baseTile)
  {
    hide WellFormed, MetaTile, Wrap16;
    DivUnique(2 * x + i, 2, x, i);
    DivUnique(2 * y + j, 2, y, j);
  }

  /** Where a decoder that stands on metatile (`x`, `y`) reads. */
  ghost predicate OnMeta(d: MapData, block: nat, x: int, y: int)
    requires WellFormed(d)
  {
    block == BlockStart(d, BlockPos(x, d.w), BlockPos(y, d.h)) + (y % 8) * 8 + x % 8
  }

  lemma ReadMeta(d: MapData, block: nat, x: int, y: int)
    requires WellFormed(d) && OnMeta(d, block, x, y)
    ensures block < |d.blocks| && d.blocks[block] == MetaTile(d, x, y)
  {
  }

  lemma StartMeta(d: MapData, x: int, y: int)
    requires WellFormed(d)
    ensures d.w > 0 && d.h > 0
    ensures OnMeta(d, BlockStart(d, BlockPos(x, d.w), BlockPos(y, d.h)) + (x % 8 + y % 8 * 8), x, y)
    ensures OnMeta(d, BlockStart(d, BlockPos(x, d.w), BlockPos(y, d.h)) + (y % 8 * 8 + x % 8), x, y)
  {
  }

  /** The metatile below is 8 further on in the block, or in the first row of the block below. */
  lemma DownMeta(d: MapData, block: nat, x: int, y: int)
    requires WellFormed(d) && OnMeta(d, block, x, y)
    ensures (y % 8 + 1 == 8 <==> (y + 1) % 8 == 0) && (y % 8 + 1 < 8 ==> (y + 1) % 8 == y % 8 + 1)
    ensures y % 8 + 1 < 8 ==> BlockPos(y + 1, d.h) == BlockPos(y, d.h) && OnMeta(d, block + 8, x, y + 1)
    ensures y % 8 + 1 == 8 ==>
              var yb := (BlockPos(y, d.h) + 1) % d.h;
              BlockPos(y + 1, d.h) == yb && OnMeta(d, BlockStart(d, BlockPos(x, d.w), yb) + x % 8, x, y + 1)
  {
    NextMeta(y, d.h);
  }

  /** The metatile to the right is next in the block, or in the first column of the block after. */
  lemma RightMeta(d: MapData, block: nat, x: int, y: int)
    requires WellFormed(d) && OnMeta(d, block, x, y)
    ensures (x % 8 + 1 == 8 <==> (x + 1) % 8 == 0) && (x % 8 + 1 < 8 ==> (x + 1) % 8 == x % 8 + 1)
    ensures x % 8 + 1 < 8 ==> BlockPos(x + 1, d.w) == BlockPos(x, d.w) && OnMeta(d, block + 1, x + 1, y)
    ensures x % 8 + 1 == 8 ==>
              var xb := (BlockPos(x, d.w) + 1) % d.w;
              BlockPos(x + 1, d.w) == xb && OnMeta(d, BlockStart(d, xb, BlockPos(y, d.h)) + y % 8 * 8, x + 1, y)
  {
    NextMeta(x, d.w);
  }

  /** `prepareMapDataColumn*`: the two tile columns of `height` metatiles from (`xm`, `ym`) down. */
  method PrepareColumn(d: MapData, buf: array<u16>, col1: nat, col2: nat, xm: u16, ym: u16, height: nat)
    requires WellFormed(d)
    requires col1 + 2 * height <= buf.Length && col2 + 2 * height <= buf.Length
    requires col1 + 2 * height <= col2 || col2 + 2 * height <= col1
    modifies buf
    ensures forall p :: col1 <= p < col1 + 2 * height ==> buf[p] == Shown(d, 2 * xm, 2 * ym + p - col1)
    ensures forall p :: col2 <= p < col2 + 2 * height ==> buf[p] == Shown(d, 2 * xm + 1, 2 * ym + p - col2)
    ensures forall p :: 0 <= p < buf.Length && !(col1 <= p < col1 + 2 * height) && !(col2 <= p < col2 + 2 * height)
                        ==> buf[p] == old(buf[p])
  {
    hide *;
    StartMeta(d, xm, ym);
    var d1, d2, h := col1, col2, height;
    var xb := BlockPos(xm, d.w);
    var yb := BlockPos(ym, d.h);
    var block: nat := BlockStart(d, xb, yb);
    var blockFixedOffset := xm % 8;
    var yi := ym % 8;
    block := block + (blockFixedOffset + yi * 8);
    ghost var i := 0;
    while h > 0
      invariant h + i == height && d1 == col1 + 2 * i && d2 == col2 + 2 * i
      invariant xb == BlockPos(xm, d.w) && yb == BlockPos(ym + i, d.h) && yi == (ym + i) % 8
      invariant OnMeta(d, block, xm, ym + i)
      invariant forall p :: col1 <= p < d1 ==> buf[p] == Shown(d, 2 * xm, 2 * ym + p - col1)
      invariant forall p :: col2 <= p < d2 ==> buf[p] == Shown(d, 2 * xm + 1, 2 * ym + p - col2)
      invariant forall p :: 0 <= p < buf.Length && !(col1 <= p < d1) && !(col2 <= p < d2) ==> buf[p] == old(buf[p])
    {
      ReadMeta(d, block, xm, ym + i);
      MetaTileTiles(d, xm, ym + i);
      DownMeta(d, block, xm, ym + i);
      var metaTileInd: nat := d.blocks[block];
      block := block + 8;
      var metaTile := 4 * metaTileInd;
      buf[d1] := Based(d, d.metaTiles[metaTile]);
      buf[d2] := Based(d, d.metaTiles[metaTile + 1]);
      buf[d1 + 1] := Based(d, d.metaTiles[metaTile + 2]);
      buf[d2 + 1] := Based(d, d.metaTiles[metaTile + 3]);
      d1, d2 := d1 + 2, d2 + 2;
      yi := yi + 1;
      if yi == 8 {
        yi := 0;
        yb := (yb + 1) % d.h;
        block := BlockStart(d, xb, yb);
        block := block + blockFixedOffset;
      }
      h, i := h - 1, i + 1;
    }
  }

  /** `prepareMapDataRow*`: the two tile rows of `width` metatiles from (`xm`, `ym`) to the right. */
  method PrepareRow(d: MapData, buf: array<u16>, row1: nat, row2: nat, xm: u16, ym: u16, width: nat)
    requires WellFormed(d)
    requires row1 + 2 * width <= buf.Length && row2 + 2 * width <= buf.Length
    requires row1 + 2 * width <= row2 || row2 + 2 * width <= row1
    modifies buf
    ensures forall p :: row1 <= p < row1 + 2 * width ==> buf[p] == Shown(d, 2 * xm + p - row1, 2 * ym)
    ensures forall p :: row2 <= p < row2 + 2 * width ==> buf[p] == Shown(d, 2 * xm + p - row2, 2 * ym + 1)
    ensures forall p :: 0 <= p < buf.Length && !(row1 <= p < row1 + 2 * width) && !(row2 <= p < row2 + 2 * width)
                        ==> buf[p] == old(buf[p])
  {
    hide *;
    StartMeta(d, xm, ym);
    var d1, d2, w := row1, row2, width;
    var xb := BlockPos(xm, d.w);
    var yb := BlockPos(ym, d.h);
    var block: nat := BlockStart(d, xb, yb);
    var blockFixedOffset := ym % 8 * 8;
    var xi := xm % 8;
    block := block + (blockFixedOffset + xi);
    ghost var i := 0;
    while w > 0
      invariant w + i == width && d1 == row1 + 2 * i && d2 == row2 + 2 * i
      invariant yb == BlockPos(ym, d.h) && xb == BlockPos(xm + i, d.w) && xi == (xm + i) % 8
      invariant OnMeta(d, block, xm + i, ym)
      invariant forall p :: row1 <= p < d1 ==> buf[p] == Shown(d, 2 * xm + p - row1, 2 * ym)
      invariant forall p :: row2 <= p < d2 ==> buf[p] == Shown(d, 2 * xm + p - row2, 2 * ym + 1)
      invariant forall p :: 0 <= p < buf.Length && !(row1 <= p < d1) && !(row2 <= p < d2) ==> buf[p] == old(buf[p])
    {
      ReadMeta(d, block, xm + i, ym);
      MetaTileTiles(d, xm + i, ym);
      RightMeta(d, block, xm + i, ym);
      var metaTileInd: nat := d.blocks[block];
      block := block + 1;
      var metaTile := 4 * metaTileInd;
      buf[d1] := Based(d, d.metaTiles[metaTile]);
      buf[d1 + 1] := Based(d, d.metaTiles[metaTile + 1]);
      buf[d2] := Based(d, d.metaTiles[metaTile + 2]);
      buf[d2 + 1] := Based(d, d.metaTiles[metaTile + 3]);
      d1, d2 := d1 + 2, d2 + 2;
      xi := xi + 1;
      if xi == 8 {
        xi := 0;
        xb := (xb + 1) % d.w;
        block := BlockStart(d, xb, yb);
        block := block + blockFixedOffset;
      }
      w, i := w - 1, i + 1;
    }
  }

  // ----- Rectangles

  /** Position of element `b` of line `a` when lines of `stride` elements follow each other. */
  function Flat(stride: nat, a: nat, b: nat): nat {
    a * stride + b
  }

  lemma FlatNext(stride: nat, a: nat)
    ensures Flat(stride, a + 1, 0) == Flat(stride, a, 0) + stride
    ensures Flat(stride, a + 2, 0) == Flat(stride, a, 0) + 2 * stride
  {
  }

  lemma FlatAt(stride: nat, a: nat, b: nat)
    ensures Flat(stride, a, b) == Flat(stride, a, 0) + b
  {
  }

  lemma FlatMonotone(stride: nat, a: nat, n: nat)
    requires a <= n
    ensures Flat(stride, a, 0) <= Flat(stride, n, 0)
  {
    assert n * stride == a * stride + (n - a) * stride;
  }

  /** The tiles of the `w` x `h` metatiles at (`x`, `y`), tile column after tile column. */
  ghost predicate ColumnLayout(d: MapData, dest: seq<u16>, x: int, y: int, w: nat, h: nat)
    requires WellFormed(d)
  {
    && |dest| == Flat(2 * h, 2 * w, 0)
    && forall tx, ty :: 0 <= tx < 2 * w && 0 <= ty < 2 * h ==>
         Flat(2 * h, tx, ty) < |dest| && dest[Flat(2 * h, tx, ty)] == Shown(d, 2 * x + tx, 2 * y + ty)
  }

  /** The same tiles, tile row after tile row. */
  ghost predicate RowLayout(d: MapData, dest: seq<u16>, x: int, y: int, w: nat, h: nat)
    requires WellFormed(d)
  {
    && |dest| == Flat(2 * w, 2 * h, 0)
    && forall tx, ty :: 0 <= tx < 2 * w && 0 <= ty < 2 * h ==>
         Flat(2 * w, ty, tx) < |dest| && dest[Flat(2 * w, ty, tx)] == Shown(d, 2 * x + tx, 2 * y + ty)
  }

  /** The two arrangements of a rectangle are transposes of one another. */
  lemma LayoutsTransposed(d: MapData, c: seq<u16>, r: seq<u16>, x: int, y: int, w: nat, h: nat)
    requires WellFormed(d) && ColumnLayout(d, c, x, y, w, h) && RowLayout(d, r, x, y, w, h)
    ensures |c| == |r|
    ensures forall tx, ty :: 0 <= tx < 2 * w && 0 <= ty < 2 * h ==>
              && Flat(2 * h, tx, ty) < |c| && Flat(2 * w, ty, tx) < |r|
              && c[Flat(2 * h, tx, ty)] == r[Flat(2 * w, ty, tx)]
  {
    assert (2 * w) * (2 * h) == (2 * h) * (2 * w);
  }

  /** `MAP_getTilemapRect`, column arrangement. */
  method GetColumns(d: MapData, x: u16, y: u16, w: u16, h: u16, dest: array<u16>)
    requires WellFormed(d) && dest.Length == Flat(2 * h, 2 * w, 0)
    modifies dest
    ensures ColumnLayout(d, dest[..], x, y, w, h)
  {
    hide *;
    var d1: nat, xi: int, wi := 0, x, w;
    ghost var i: nat := 0;
    RectStart(2 * h, x);
    while wi > 0
      invariant wi + i == w && xi == Wrap16(x + i) && d1 == Flat(2 * h, 2 * i, 0)
      invariant forall tx, ty :: 0 <= tx < 2 * i && 0 <= ty < 2 * h ==>
                  Flat(2 * h, tx, ty) < d1 && Flat(2 * h, tx, ty) < dest.Length
      invariant forall tx, ty :: 0 <= tx < 2 * i && 0 <= ty < 2 * h ==>
                  dest[Flat(2 * h, tx, ty)] == Shown(d, 2 * x + tx, 2 * y + ty)
    {
      FlatNext(2 * h, 2 * i);
      FlatMonotone(2 * h, 2 * i + 2, 2 * w);
      PrepareColumn(d, dest, d1, d1 + 2 * h, xi, y, h);
      forall tx, ty | 0 <= tx < 2 * (i + 1) && 0 <= ty < 2 * h
        ensures Flat(2 * h, tx, ty) < d1 + 4 * h && Flat(2 * h, tx, ty) < dest.Length
        ensures dest[Flat(2 * h, tx, ty)] == Shown(d, 2 * x + tx, 2 * y + ty)
      {
        FlatAt(2 * h, 2 * i, ty);
        FlatAt(2 * h, 2 * i + 1, ty);
        WrapShownX(d, x + i, 0, 2 * y + ty);
        WrapShownX(d, x + i, 1, 2 * y + ty);
        assert tx < 2 * i || tx == 2 * i || tx == 2 * i + 1;
      }
      WrapNext(x + i);
      xi := Wrap16(xi + 1);
      d1 := d1 + h * 4;
      wi, i := wi - 1, i + 1;
    }
    ColumnDone(d, dest[..], x, y, w, h);
  }

  /** `MAP_getTilemapRect`, row arrangement. */
  method GetRows(d: MapData, x: u16, y: u16, w: u16, h: u16, dest: array<u16>)
    requires WellFormed(d) && dest.Length == Flat(2 * w, 2 * h, 0)
    modifies dest
    ensures RowLayout(d, dest[..], x, y, w, h)
  {
    hide *;
    var d1: nat, yi: int, hi := 0, y, h;
    ghost var i: nat := 0;
    RectStart(2 * w, y);
    while hi > 0
      invariant hi + i == h && yi == Wrap16(y + i) && d1 == Flat(2 * w, 2 * i, 0)
      invariant forall tx, ty :: 0 <= tx < 2 * w && 0 <= ty < 2 * i ==>
                  Flat(2 * w, ty, tx) < d1 && Flat(2 * w, ty, tx) < dest.Length
      invariant forall tx, ty :: 0 <= tx < 2 * w && 0 <= ty < 2 * i ==>
                  dest[Flat(2 * w, ty, tx)] == Shown(d, 2 * x + tx, 2 * y + ty)
    {
      FlatNext(2 * w, 2 * i);
      FlatMonotone(2 * w, 2 * i + 2, 2 * h);
      PrepareRow(d, dest, d1, d1 + 2 * w, x, yi, w);
      forall tx, ty | 0 <= tx < 2 * w && 0 <= ty < 2 * (i + 1)
        ensures Flat(2 * w, ty, tx) < d1 + 4 * w && Flat(2 * w, ty, tx) < dest.Length
        ensures dest[Flat(2 * w, ty, tx)] == Shown(d, 2 * x + tx, 2 * y + ty)
      {
        FlatAt(2 * w, 2 * i, tx);
        FlatAt(2 * w, 2 * i + 1, tx);
        WrapShown(d, 2 * x + tx, y + i, 0);
        WrapShown(d, 2 * x + tx, y + i, 1);
        assert ty < 2 * i || ty == 2 * i || ty == 2 * i + 1;
      }
      WrapNext(y + i);
      yi := Wrap16(yi + 1);
      d1 := d1 + w * 4;
      hi, i := hi - 1, i + 1;
    }
    RowDone(d, dest[..], x, y, w, h);
  }

  lemma RectStart(stride: nat, x: u16)
    ensures Flat(stride, 0, 0) == 0 && Wrap16(x) == x
  {
  }

  lemma WrapNext(x: int)
    ensures Wrap16(Wrap16(x) + 1) == Wrap16(x + 1)
  {
  }

  lemma ColumnDone(d: MapData, dest: seq<u16>, x: int, y: int, w: nat, h: nat)
    requires WellFormed(d) && |dest| == Flat(2 * h, 2 * w, 0)
    requires forall tx, ty :: 0 <= tx < 2 * w && 0 <= ty < 2 * h ==> Flat(2 * h, tx, ty) < |dest|
    requires forall tx, ty :: 0 <= tx < 2 * w && 0 <= ty < 2 * h ==> dest[Flat(2 * h, tx, ty)] == Shown(d, 2 * x + tx, 2 * y + ty)
    ensures ColumnLayout(d, dest, x, y, w, h)
  {
    hide Flat, Shown;
  }

  lemma RowDone(d: MapData, dest: seq<u16>, x: int, y: int, w: nat, h: nat)
    requires WellFormed(d) && |dest| == Flat(2 * w, 2 * h, 0)
    requires forall tx, ty :: 0 <= tx < 2 * w && 0 <= ty < 2 * h ==> Flat(2 * w, ty, tx) < |dest|
    requires forall tx, ty :: 0 <= tx < 2 * w && 0 <= ty < 2 * h ==> dest[Flat(2 * w, ty, tx)] == Shown(d, 2 * x + tx, 2 * y + ty)
    ensures RowLayout(d, dest, x, y, w, h)
  {
    hide Flat, Shown;
  }

  /** One row of `getMetaTilemapRect_*`: `w` metatile indexes from (`x`, `y`) to the right. */
  method GetMetaRow(d: MapData, x: u16, w: nat, xb: nat, yb: nat, yi: nat, dest: array<u16>, at: nat, ghost y: int)
    requires WellFormed(d) && xb == BlockPos(x, d.w) && yb == BlockPos(y, d.h) && yi == y % 8
    requires at + w <= dest.Length
    modifies dest
    ensures forall p :: at <= p < at + w ==> dest[p] == MetaTile(d, x + p - at, y)
    ensures forall p :: 0 <= p < at ==> dest[p] == old(dest[p])
  {
    hide *;
    StartMeta(d, x, y);
    var xbi, xi, wi, dst := xb, x % 8, w, at;
    var block: nat := BlockStart(d, xbi, yb);
    block := block + yi * 8;
    block := block + xi;
    ghost var i := 0;
    while wi > 0
      invariant wi + i == w && dst == at + i && xbi == BlockPos(x + i, d.w) && xi == (x + i) % 8
      invariant OnMeta(d, block, x + i, y)
      invariant forall p :: at <= p < dst ==> dest[p] == MetaTile(d, x + p - at, y)
      invariant forall p :: 0 <= p < at ==> dest[p] == old(dest[p])
    {
      ReadMeta(d, block, x + i, y);
      RightMeta(d, block, x + i, y);
      dest[dst] := d.blocks[block];
      dst, block := dst + 1, block + 1;
      xi := xi + 1;
      if xi == 8 {
        xi := 0;
        xbi := (xbi + 1) % d.w;
        block := BlockStart(d, xbi, yb);
        block := block + yi * 8;
      }
      wi, i := wi - 1, i + 1;
    }
  }

  /** `MAP_getMetaTilemapRect`. */
  method GetMetaTilemapRect(d: MapData, x: nat, y: nat, w: nat, h: nat, dest: array<u16>)
    requires x < 0x1_0000 && y < 0x1_0000 && w < 0x1_0000 && h < 0x1_0000
    requires WellFormed(d) && dest.Length == Flat(w, h, 0)
    modifies dest
    ensures forall i, j :: 0 <= i < w && 0 <= j < h ==>
              Flat(w, j, i) < dest.Length && dest[Flat(w, j, i)] == MetaTile(d, x + i, y + j)
  {
    hide *;
    StartMeta(d, x, y);
    RectStart(w, x);
    var xb, yb, yi, hi, at: nat := BlockPos(x, d.w), BlockPos(y, d.h), y % 8, h, 0;
    ghost var n: nat := 0;
    while hi > 0
      invariant hi + n == h && at == Flat(w, n, 0) && yb == BlockPos(y + n, d.h) && yi == (y + n) % 8
      invariant forall i, j :: 0 <= i < w && 0 <= j < n ==> Flat(w, j, i) < at && Flat(w, j, i) < dest.Length
      invariant forall i, j :: 0 <= i < w && 0 <= j < n ==> dest[Flat(w, j, i)] == MetaTile(d, x + i, y + j)
    {
      FlatNext(w, n);
      FlatMonotone(w, n + 1, h);
      GetMetaRow(d, x, w, xb, yb, yi, dest, at, y + n);
      forall i, j | 0 <= i < w && 0 <= j < n + 1
        ensures Flat(w, j, i) < at + w && Flat(w, j, i) < dest.Length
        ensures dest[Flat(w, j, i)] == MetaTile(d, x + i, y + j)
      {
        FlatAt(w, n, i);
      }
      NextMetaRow(d, y + n);
      at := at + w;
      yi := yi + 1;
      if yi == 8 {
        yi := 0;
        yb := (yb + 1) % d.h;
      }
      hi, n := hi - 1, n + 1;
    }
  }

  lemma NextMetaRow(d: MapData, y: int)
    requires WellFormed(d)
    ensures d.h > 0
    ensures y % 8 + 1 < 8 ==> BlockPos(y + 1, d.h) == BlockPos(y, d.h) && (y + 1) % 8 == y % 8 + 1
    ensures y % 8 + 1 == 8 ==> BlockPos(y + 1, d.h) == (BlockPos(y, d.h) + 1) % d.h && (y + 1) % 8 == 0
  {
    NextMeta(y, d.h);
  }
}
