/** The scrolling engine of `src/map.c`: a window of 21x16 metatiles of a large map kept up to date in
    a VDP plane that wraps, by redrawing only the rows and columns that enter the window. */
module MapScroll {
  import opened Machine
  import opened MapTiles

  const COLUMN_AHEAD := 21
  const ROW_AHEAD := 16

  /** The plane is 64 cells wide and 32 or 64 cells high. */
  ghost predicate PlaneSize(ph: nat, cells: nat) {
    (ph == 32 || ph == 64) && cells == 64 * ph
  }

  /** The cell of the plane at which tile (`tx`, `ty`) of the map belongs. */
  function Cell(ph: nat, tx: int, ty: int): (c: nat)
    requires ph == 32 || ph == 64
    ensures c < 64 * ph
  {
    64 * (ty % ph) + tx % 64
  }

  /** Tile (`tx`, `ty`) of the map is in its cell. */
  ghost predicate Here(d: MapData, ph: nat, plane: seq<u16>, tx: int, ty: int)
    requires WellFormed(d) && PlaneSize(ph, |plane|)
  {
    plane[Cell(ph, tx, ty)] == Shown(d, tx, ty)
  }

  /** Every tile of the metatiles [`x0`, `x1`) x [`y0`, `y1`) is in its cell. */
  ghost predicate Agree(d: MapData, ph: nat, plane: seq<u16>, x0: int, x1: int, y0: int, y1: int) {
    && WellFormed(d) && PlaneSize(ph, |plane|)
    && forall tx, ty :: 2 * x0 <= tx < 2 * x1 && 2 * y0 <= ty < 2 * y1 ==> Here(d, ph, plane, tx, ty)
  }

  /** The plane shows the map through the window whose corner is metatile (`x`, `y`). */
  ghost predicate Window(d: MapData, ph: nat, plane: seq<u16>, x: int, y: int) {
    Agree(d, ph, plane, x, x + COLUMN_AHEAD, y, y + ROW_AHEAD)
  }

  /** Where the tiles of a window are in the name table, 64 cells to a row. */
  lemma WindowShows(d: MapData, ph: nat, plane: seq<u16>, x: int, y: int, tx: int, ty: int)
    requires Window(d, ph, plane, x, y) && 2 * x <= tx < 2 * x + 42 && 2 * y <= ty < 2 * y + 32
    ensures ph > 0 && 64 * (ty % ph) + tx % 64 < |plane| && WellFormed(d)
    ensures plane[64 * (ty % ph) + tx % 64] == Shown(d, tx, ty)
  {
    hide WellFormed, Shown;
    assert Here(d, ph, plane, tx, ty);
  }

  // ----- Drawing a column or a row of metatiles

  ghost predicate Kept(ph: nat, p: seq<u16>, q: seq<u16>, tx: int, ty: int)
    requires PlaneSize(ph, |p|) && |q| == |p|
  {
    q[Cell(ph, tx, ty)] == p[Cell(ph, tx, ty)]
  }

  /** Tile column `tx` is not in the two cell columns of metatile column `x`. */
  ghost predicate OffColumn(x: int, tx: int) {
    tx % 64 != (2 * x) % 64 && tx % 64 != (2 * x + 1) % 64
  }

  ghost predicate OffRow(ph: nat, y: int, ty: int)
    requires ph == 32 || ph == 64
  {
    ty % ph != (2 * y) % ph && ty % ph != (2 * y + 1) % ph
  }

  /** `q` is `p` with metatile column `x` drawn for the 16 metatiles from `y` down; the other cells of
      its two cell columns may hold anything. */
  ghost predicate DrawnColumn(d: MapData, ph: nat, p: seq<u16>, q: seq<u16>, x: int, y: int) {
    && WellFormed(d) && PlaneSize(ph, |p|) && |q| == |p|
    && Agree(d, ph, q, x, x + 1, y, y + ROW_AHEAD)
    && forall tx, ty :: OffColumn(x, tx) ==> Kept(ph, p, q, tx, ty)
  }

  ghost predicate DrawnRow(d: MapData, ph: nat, p: seq<u16>, q: seq<u16>, x: int, y: int) {
    && WellFormed(d) && PlaneSize(ph, |p|) && |q| == |p|
    && Agree(d, ph, q, x, x + COLUMN_AHEAD, y, y + 1)
    && forall tx, ty :: OffRow(ph, y, ty) ==> Kept(ph, p, q, tx, ty)
  }

  /** Metatile columns fewer than 32 apart have cell columns of their own. */
  lemma ColumnsApart(x: int, tx: int)
    requires 2 * x - 64 < tx - 1 && tx < 2 * x + 64 && tx / 2 != x
    ensures OffColumn(x, tx)
  {
    Apart64(tx, 2 * x);
    Apart64(tx, 2 * x + 1);
  }

  lemma Apart64(a: int, b: int)
    requires -64 < a - b < 64 && a != b
    ensures a % 64 != b % 64
  {
    assert a == 64 * (a / 64) + a % 64 && b == 64 * (b / 64) + b % 64;
  }

  lemma Apart32(a: int, b: int)
    requires -32 < a - b < 32 && a != b
    ensures a % 32 != b % 32
  {
    assert a == 32 * (a / 32) + a % 32 && b == 32 * (b / 32) + b % 32;
  }

  lemma RowsApart(ph: nat, y: int, ty: int)
    requires ph == 32 || ph == 64
    requires 2 * y - 32 < ty - 1 && ty < 2 * y + 32 && ty / 2 != y
    ensures OffRow(ph, y, ty)
  {
    if ph == 32 {
      Apart32(ty, 2 * y);
      Apart32(ty, 2 * y + 1);
    } else {
      Apart64(ty, 2 * y);
      Apart64(ty, 2 * y + 1);
    }
  }

  lemma StillHere(d: MapData, ph: nat, p: seq<u16>, q: seq<u16>, tx: int, ty: int)
    requires WellFormed(d) && PlaneSize(ph, |p|) && |q| == |p|
    requires Here(d, ph, p, tx, ty) && Kept(ph, p, q, tx, ty)
    ensures Here(d, ph, q, tx, ty)
  {
  }

  /** Drawing a column next to a stretch that agrees makes the longer stretch agree, as long as no two
      of its columns share a column of the plane. */
  lemma ColumnExtends(d: MapData, ph: nat, p: seq<u16>, q: seq<u16>, x: int, y: int, x0: int, x1: int, y0: int, y1: int)
    requires DrawnColumn(d, ph, p, q, x, y) && Agree(d, ph, p, x0, x1, y0, y1)
    requires y <= y0 && y1 <= y + ROW_AHEAD
    requires x1 - 32 <= x < x0 + 32 && !(x0 <= x < x1)
    ensures x == x1 ==> Agree(d, ph, q, x0, x1 + 1, y0, y1)
    ensures x + 1 == x0 ==> Agree(d, ph, q, x, x1, y0, y1)
  {
    hide Here, Kept, OffColumn;
    forall tx, ty | 2 * x0 <= tx < 2 * x1 && 2 * y0 <= ty < 2 * y1 ensures Here(d, ph, q, tx, ty) {
      ColumnsApart(x, tx);
      StillHere(d, ph, p, q, tx, ty);
    }
  }

  lemma RowExtends(d: MapData, ph: nat, p: seq<u16>, q: seq<u16>, x: int, y: int, y0: int, y1: int)
    requires DrawnRow(d, ph, p, q, x, y) && Agree(d, ph, p, x, x + COLUMN_AHEAD, y0, y1)
    requires y1 - 16 <= y < y0 + 16 && !(y0 <= y < y1)
    ensures y == y1 ==> Agree(d, ph, q, x, x + COLUMN_AHEAD, y0, y1 + 1)
    ensures y + 1 == y0 ==> Agree(d, ph, q, x, x + COLUMN_AHEAD, y, y1)
  {
    hide Here, Kept, OffRow;
    forall tx, ty | 2 * x <= tx < 2 * (x + COLUMN_AHEAD) && 2 * y0 <= ty < 2 * y1 ensures Here(d, ph, q, tx, ty) {
      RowsApart(ph, y, ty);
      StillHere(d, ph, p, q, tx, ty);
    }
  }

  // ----- 16-bit positions

  lemma HereRepeats(d: MapData, ph: nat, plane: seq<u16>, tx: int, ty: int)
    requires WellFormed(d) && PlaneSize(ph, |plane|)
    ensures Here(d, ph, plane, tx + 0x2_0000, ty) <==> Here(d, ph, plane, tx, ty)
    ensures Here(d, ph, plane, tx, ty + 0x2_0000) <==> Here(d, ph, plane, tx, ty)
  {
    hide Shown, Cell;
    ShownRepeats(d, tx, ty);
    CellRepeats(ph, tx, ty);
  }

  /** What the plane shows at a position it shows at every position that 16 bits do not tell apart. */
  lemma AgreeRepeats(d: MapData, ph: nat, plane: seq<u16>, x0: int, x1: int, y0: int, y1: int, mx: int, my: int)
    requires Agree(d, ph, plane, x0, x1, y0, y1)
    requires mx == -0x1_0000 || mx == 0 || mx == 0x1_0000
    requires my == -0x1_0000 || my == 0 || my == 0x1_0000
    ensures Agree(d, ph, plane, x0 + mx, x1 + mx, y0 + my, y1 + my)
  {
    hide Here;
    forall tx, ty | 2 * (x0 + mx) <= tx < 2 * (x1 + mx) && 2 * (y0 + my) <= ty < 2 * (y1 + my)
      ensures Here(d, ph, plane, tx, ty)
    {
      var tx0, ty0 := tx - 2 * mx, ty - 2 * my;
      assert Here(d, ph, plane, tx0, ty0);
      HereRepeats(d, ph, plane, tx0, ty0);
      HereRepeats(d, ph, plane, tx0 - 0x2_0000, ty0);
      HereRepeats(d, ph, plane, tx, ty0);
      HereRepeats(d, ph, plane, tx, ty0 - 0x2_0000);
    }
  }

  lemma CellRepeats(ph: nat, tx: int, ty: int)
    requires ph == 32 || ph == 64
    ensures Cell(ph, tx + 0x2_0000, ty) == Cell(ph, tx, ty)
    ensures Cell(ph, tx, ty + 0x2_0000) == Cell(ph, tx, ty)
  {
    if ph == 32 {
      assert (ty + 0x2_0000) % 32 == ty % 32;
    } else {
      assert (ty + 0x2_0000) % 64 == ty % 64;
    }
    assert (tx + 0x2_0000) % 64 == tx % 64;
  }

  // ----- Transfers to the plane

  /** A DMA transfer down a column of cells: the auto-increment is one row of the plane. */
  method DmaColumn(plane: array<u16>, ph: nat, buf: array<u16>, from: nat, to: nat)
    requires plane.Length == 64 * ph && to < 64 && from + ph <= buf.Length && plane != buf
    modifies plane
    ensures forall c :: 0 <= c < 64 * ph ==> plane[c] == if c % 64 == to then buf[from + c / 64] else old(plane[c])
  {
    var i, addr := 0, to;
    while i < ph
      invariant i <= ph && addr == to + 64 * i
      invariant forall c :: 0 <= c < 64 * ph ==>
                  plane[c] == if c % 64 == to && c / 64 < i then buf[from + c / 64] else old(plane[c])
    {
      plane[addr] := buf[from + i];
      i, addr := i + 1, addr + 64;
    }
  }

  /** A DMA transfer along a row of cells. */
  method DmaRow(plane: array<u16>, buf: array<u16>, from: nat, to: nat, len: nat)
    requires to + len <= plane.Length && from + len <= buf.Length && plane != buf
    modifies plane
    ensures forall c :: 0 <= c < plane.Length ==>
              plane[c] == if to <= c < to + len then buf[from + c - to] else old(plane[c])
  {
    var i := 0;
    while i < len
      invariant i <= len
      invariant forall c :: 0 <= c < plane.Length ==>
                  plane[c] == if to <= c < to + i then buf[from + c - to] else old(plane[c])
    {
      plane[to + i] := buf[from + i];
      i := i + 1;
    }
  }

  /** Where tile row `ty` of the 16 metatiles from `y` down is in a buffer that covers the plane. */
  lemma BufferRow(ph: nat, y: int, ty: int)
    requires ph == 32 || ph == 64
    requires 2 * y <= ty < 2 * y + 32
    ensures var at := 2 * (y % (ph / 2)) + ty - 2 * y;
            ty % ph == if at < ph then at else at - ph
  {
    if ph == 32 {
      var q, at := y / 16, 2 * (y % 16) + ty - 2 * y;
      assert y == 16 * q + y % 16;
      DivUnique(ty, 32, if at < 32 then q else q + 1, if at < 32 then at else at - 32);
    } else {
      var q, at := y / 32, 2 * (y % 32) + ty - 2 * y;
      assert y == 32 * q + y % 32;
      DivUnique(ty, 64, if at < 64 then q else q + 1, if at < 64 then at else at - 64);
    }
  }

  /** `buf` holds the two tile columns of metatile column `x`, 16 metatiles from `y` down, each tile
      where the plane wants it. */
  ghost predicate ColumnBuffer(d: MapData, ph: nat, buf: seq<u16>, x: int, y: int)
    requires WellFormed(d) && (ph == 32 || ph == 64) && |buf| == 2 * ph
  {
    forall ty :: 2 * y <= ty < 2 * y + 32 ==> Buffered(d, ph, buf, x, ty)
  }

  ghost predicate Buffered(d: MapData, ph: nat, buf: seq<u16>, x: int, ty: int)
    requires WellFormed(d) && ph > 0 && |buf| == 2 * ph
  {
    var c := RowCell(ph, ty);
    buf[c] == Shown(d, 2 * x, ty) && buf[ph + c] == Shown(d, 2 * x + 1, ty)
  }

  /** The row of the plane, and of a buffer that covers it, that tile row `ty` belongs to. */
  function RowCell(ph: nat, ty: int): (c: nat)
    requires ph > 0
    ensures c < ph
  {
    ty % ph
  }

  /** That of the first tile row of metatile row `y`. */
  function MetaCell(ph: nat, y: int): nat
    requires ph > 1
  {
    y % (ph / 2) * 2
  }

  /** `n` metatiles from `y` down are in the buffer from `at` on. */
  ghost predicate Piece(d: MapData, ph: nat, buf: seq<u16>, x: int, y: int, at: nat, n: nat) {
    && WellFormed(d) && at + 2 * n <= ph && |buf| == 2 * ph
    && (forall p :: at <= p < at + 2 * n ==> buf[p] == Shown(d, 2 * x, 2 * y + p - at))
    && (forall p :: at + ph <= p < at + ph + 2 * n ==> buf[p] == Shown(d, 2 * x + 1, 2 * y + p - (at + ph)))
  }

  lemma PieceAt(d: MapData, ph: nat, buf: seq<u16>, x: int, y: int, at: nat, n: nat, k: nat)
    requires Piece(d, ph, buf, x, y, at, n) && k < 2 * n
    ensures at + k < ph && |buf| == 2 * ph
    ensures buf[at + k] == Shown(d, 2 * x, 2 * y + k) && buf[ph + (at + k)] == Shown(d, 2 * x + 1, 2 * y + k)
  {
    hide Shown, WellFormed;
    assert buf[at + ph + k] == Shown(d, 2 * x + 1, 2 * y + k);
  }

  /** The part of `setMapColumn` that fills the buffer, in one piece or in two around the edge of the
      plane. What the buffer held before stays in the rest of it. */
  method FillColumn(d: MapData, ph: nat, buf: array<u16>, x: u16, y: u16)
    requires WellFormed(d) && (ph == 32 || ph == 64) && buf.Length == 2 * ph
    modifies buf
    ensures ColumnBuffer(d, ph, buf[..], x, y)
  {
    hide Shown, WellFormed, Wrap16, ColumnBuffer;
    var h := ROW_AHEAD;
    var ph2 := ph / 2;
    var yAdj := y % ph2;
    if yAdj + h > ph2 {
      var h1 := ph2 - yAdj;
      PrepareColumn(d, buf, yAdj * 2, yAdj * 2 + ph, x, y, h1);
      PrepareColumn(d, buf, 0, ph, x, Wrap16(y + h1), h - h1);
      ColumnFilled(d, ph, buf[..], x, y, h1);
    } else {
      PrepareColumn(d, buf, yAdj * 2, yAdj * 2 + ph, x, y, h);
      ColumnFilled(d, ph, buf[..], x, y, h);
    }
  }

  /** The two pieces of a column buffer: `h1` metatiles up to the edge of the plane, the rest from its
      start. */
  lemma ColumnFilled(d: MapData, ph: nat, buf: seq<u16>, x: u16, y: u16, h1: nat)
    requires WellFormed(d) && (ph == 32 || ph == 64) && |buf| == 2 * ph && h1 <= 16
    requires MetaCell(ph, y) + 2 * h1 <= ph && (h1 < 16 ==> MetaCell(ph, y) + 2 * h1 == ph)
    requires Piece(d, ph, buf, x, y, MetaCell(ph, y), h1)
    requires h1 < 16 ==> Piece(d, ph, buf, x, Wrap16(y + h1), 0, 16 - h1)
    ensures ColumnBuffer(d, ph, buf, x, y)
  {
    hide Buffered, Piece, Wrap16, WellFormed, RowCell, MetaCell;
    forall ty | 2 * y <= ty < 2 * y + 32 ensures Buffered(d, ph, buf, x, ty) {
      CellFilled(d, ph, buf, x, y, h1, ty);
    }
  }

  /** A tile row is in the first piece or in the second. */
  lemma PieceRow(ph: nat, y: int, ty: int, h1: nat)
    requires (ph == 32 || ph == 64) && h1 <= 16 && 2 * y <= ty < 2 * y + 32
    requires MetaCell(ph, y) + 2 * h1 <= ph && (h1 < 16 ==> MetaCell(ph, y) + 2 * h1 == ph)
    ensures RowCell(ph, ty) == if ty < 2 * (y + h1) then MetaCell(ph, y) + (ty - 2 * y) else ty - 2 * (y + h1)
  {
    BufferRow(ph, y, ty);
  }

  lemma CellFilled(d: MapData, ph: nat, buf: seq<u16>, x: u16, y: u16, h1: nat, ty: int)
    requires WellFormed(d) && (ph == 32 || ph == 64) && |buf| == 2 * ph && h1 <= 16 && 2 * y <= ty < 2 * y + 32
    requires MetaCell(ph, y) + 2 * h1 <= ph && (h1 < 16 ==> MetaCell(ph, y) + 2 * h1 == ph)
    requires Piece(d, ph, buf, x, y, MetaCell(ph, y), h1)
    requires h1 < 16 ==> Piece(d, ph, buf, x, Wrap16(y + h1), 0, 16 - h1)
    ensures Buffered(d, ph, buf, x, ty)
  {
    hide Piece, Shown, WellFormed, Wrap16, RowCell, MetaCell;
    PieceRow(ph, y, ty, h1);
    var k := ty - 2 * (y + h1);
    if k < 0 {
      PieceAt(d, ph, buf, x, y, MetaCell(ph, y), h1, ty - 2 * y);
    } else {
      PieceAt(d, ph, buf, x, Wrap16(y + h1), 0, 16 - h1, k);
      WrapShown(d, 2 * x, y + h1, k);
      WrapShown(d, 2 * x + 1, y + h1, k);
    }
  }

  /** `setMapColumn`, with `room` words left in the DMA buffer: without room for the two tile columns
      it draws nothing. */
  method SetMapColumn(d: MapData, plane: array<u16>, ph: nat, column: nat, x: u16, y: u16, room: nat) returns (left: nat)
    requires WellFormed(d) && PlaneSize(ph, plane.Length) && column == x % 32
    modifies plane
    ensures left == if 2 * ph <= room then room - 2 * ph else room
    ensures if 2 * ph <= room then DrawnColumn(d, ph, old(plane[..]), plane[..], x, y) else plane[..] == old(plane[..])
  {
    if room < 2 * ph {
      return room;
    }
    left := room - 2 * ph;
    var buf := new u16[2 * ph];
    FillColumn(d, ph, buf, x, y);
    var vramAddr := column * 2;
    DmaColumn(plane, ph, buf, 0, vramAddr);
    DmaColumn(plane, ph, buf, ph, vramAddr + 1);
    ColumnDrawn(d, ph, old(plane[..]), plane[..], buf[..], x, y);
  }

  lemma ColumnDrawn(d: MapData, ph: nat, p: seq<u16>, q: seq<u16>, buf: seq<u16>, x: u16, y: u16)
    requires WellFormed(d) && PlaneSize(ph, |p|) && |q| == |p| && |buf| == 2 * ph
    requires ColumnBuffer(d, ph, buf, x, y)
    requires forall c :: 0 <= c < |q| ==>
               q[c] == if c % 64 == x % 32 * 2 then buf[c / 64]
                       else if c % 64 == x % 32 * 2 + 1 then buf[ph + c / 64] else p[c]
    ensures DrawnColumn(d, ph, p, q, x, y)
  {
    hide Shown, WellFormed, Cell;
    DoubleMod(x);
    forall tx, ty | 2 * x <= tx < 2 * x + 2 && 2 * y <= ty < 2 * y + 32 ensures Here(d, ph, q, tx, ty) {
      CellParts(ph, tx, ty);
      assert Buffered(d, ph, buf, x, ty);
      assert tx == 2 * x || tx == 2 * x + 1;
    }
    forall tx, ty | OffColumn(x, tx) ensures Kept(ph, p, q, tx, ty) {
      CellParts(ph, tx, ty);
    }
  }

  lemma DoubleMod(x: int)
    ensures (2 * x) % 64 == x % 32 * 2 && (2 * x + 1) % 64 == x % 32 * 2 + 1
  {
    DivUnique(2 * x, 64, x / 32, x % 32 * 2);
    DivUnique(2 * x + 1, 64, x / 32, x % 32 * 2 + 1);
  }

  lemma CellParts(ph: nat, tx: int, ty: int)
    requires ph == 32 || ph == 64
    ensures Cell(ph, tx, ty) % 64 == tx % 64 && Cell(ph, tx, ty) / 64 == ty % ph
  {
  }

  lemma BufferColumn(x: int, tx: int)
    requires 2 * x <= tx < 2 * x + 42
    ensures var at := 2 * (x % 32) + tx - 2 * x;
            tx % 64 == if at < 64 then at else at - 64
  {
    assert x == 32 * (x / 32) + x % 32;
  }

  /** `buf` holds the two tile rows of metatile row `y`, 21 metatiles from `x` on. */
  ghost predicate RowBuffer(d: MapData, buf: seq<u16>, x: int, y: int)
    requires WellFormed(d) && |buf| == 128
  {
    forall tx :: 2 * x <= tx < 2 * x + 42 ==>
      buf[tx % 64] == Shown(d, tx, 2 * y) && buf[64 + tx % 64] == Shown(d, tx, 2 * y + 1)
  }

  /** The part of `setMapRow` that fills the buffer. */
  method FillRow(d: MapData, buf: array<u16>, x: u16, y: u16)
    requires WellFormed(d) && buf.Length == 128
    modifies buf
    ensures RowBuffer(d, buf[..], x, y)
  {
    hide Shown, WellFormed, Wrap16;
    var w := COLUMN_AHEAD;
    var xAdj := x % 32;
    var pw2 := 32;
    if xAdj + w > pw2 {
      var w1 := pw2 - xAdj;
      PrepareRow(d, buf, xAdj * 2, xAdj * 2 + 64, x, y, w1);
      PrepareRow(d, buf, 0, 64, Wrap16(x + w1), y, w - w1);
      forall tx | 2 * x <= tx < 2 * x + 42
        ensures buf[tx % 64] == Shown(d, tx, 2 * y) && buf[64 + tx % 64] == Shown(d, tx, 2 * y + 1)
      {
        BufferColumn(x, tx);
        WrapShownX(d, x + w1, tx - 2 * (x + w1), 2 * y);
        WrapShownX(d, x + w1, tx - 2 * (x + w1), 2 * y + 1);
      }
    } else {
      PrepareRow(d, buf, xAdj * 2, xAdj * 2 + 64, x, y, w);
      forall tx | 2 * x <= tx < 2 * x + 42
        ensures buf[tx % 64] == Shown(d, tx, 2 * y) && buf[64 + tx % 64] == Shown(d, tx, 2 * y + 1)
      {
        BufferColumn(x, tx);
      }
    }
  }

  /** `setMapRow`, with `room` words left in the DMA buffer. */
  method SetMapRow(d: MapData, plane: array<u16>, ph: nat, row: nat, x: u16, y: u16, room: nat) returns (left: nat)
    requires WellFormed(d) && PlaneSize(ph, plane.Length) && row == y % (ph / 2)
    modifies plane
    ensures left == if 128 <= room then room - 128 else room
    ensures if 128 <= room then DrawnRow(d, ph, old(plane[..]), plane[..], x, y) else plane[..] == old(plane[..])
  {
    if room < 128 {
      return room;
    }
    left := room - 128;
    var buf := new u16[128];
    FillRow(d, buf, x, y);
    var vramAddr := row * 128;
    DmaRow(plane, buf, 0, vramAddr, 64);
    DmaRow(plane, buf, 64, vramAddr + 64, 64);
    RowDrawn(d, ph, old(plane[..]), plane[..], buf[..], x, y);
  }

  lemma RowDrawn(d: MapData, ph: nat, p: seq<u16>, q: seq<u16>, buf: seq<u16>, x: u16, y: u16)
    requires WellFormed(d) && PlaneSize(ph, |p|) && |q| == |p| && |buf| == 128
    requires RowBuffer(d, buf, x, y)
    requires var at := y % (ph / 2) * 128;
             forall c :: 0 <= c < |q| ==>
               q[c] == if at <= c < at + 64 then buf[c - at] else if at + 64 <= c < at + 128 then buf[c - at] else p[c]
    ensures DrawnRow(d, ph, p, q, x, y)
  {
    hide Shown, WellFormed, Cell;
    DoubleModRow(ph, y);
    forall tx, ty | 2 * x <= tx < 2 * x + 42 && 2 * y <= ty < 2 * y + 2 ensures Here(d, ph, q, tx, ty) {
      CellIs(ph, tx, ty);
      assert ty == 2 * y || ty == 2 * y + 1;
    }
    forall tx, ty | OffRow(ph, y, ty) ensures Kept(ph, p, q, tx, ty) {
      CellIs(ph, tx, ty);
    }
  }

  lemma DoubleModRow(ph: nat, y: int)
    requires ph == 32 || ph == 64
    ensures (2 * y) % ph == y % (ph / 2) * 2 && (2 * y + 1) % ph == y % (ph / 2) * 2 + 1
  {
    if ph == 32 {
      DivUnique(2 * y, 32, y / 16, y % 16 * 2);
      DivUnique(2 * y + 1, 32, y / 16, y % 16 * 2 + 1);
    } else {
      DoubleMod(y);
    }
  }

  lemma CellIs(ph: nat, tx: int, ty: int)
    requires ph == 32 || ph == 64
    ensures Cell(ph, tx, ty) == 64 * (ty % ph) + tx % 64
  {
  }

  // ----- The incremental update

  function Max(a: int, b: int): int {
    if a < b then b else a
  }

  function Min(a: int, b: int): int {
    if a < b then a else b
  }

  lemma S16OfWrap(b: int)
    ensures S16(Wrap16(b)) == S16(b)
  {
    var q := b / 0x1_0000;
    WrapIs(b, q);
    S16Turns(b, -q);
  }

  /** What a 16-bit register holds of a metatile position near the signed range. */
  lemma RegisterOf(c: int)
    requires -0x8100 <= c < 0x8100
    ensures var r := Wrap16(S16(c));
            && (r == c || r == c + 0x1_0000)
            && r % 32 == S16(c) % 32 && r % 16 == S16(c) % 16
  {
    hide S16, Wrap16;
    S16Is(c, if c < -0x8000 then -1 else if c < 0x8000 then 0 else 1);
    var v := S16(c);
    WrapIs(v, if v < 0 then -1 else 0);
    AddMultiple(v, 32, 2048);
    AddMultiple(v, 16, 4096);
  }

  lemma DrawnColumnAt(d: MapData, ph: nat, p: seq<u16>, q: seq<u16>, x: u16, y: u16, c: int, yt: int)
    requires DrawnColumn(d, ph, p, q, x, y)
    requires (x == c || x == c + 0x1_0000) && (y == yt || y == yt + 0x1_0000)
    ensures DrawnColumn(d, ph, p, q, c, yt)
  {
    hide WellFormed, Here, Kept, OffColumn;
    AgreeRepeats(d, ph, q, x, x + 1, y, y + ROW_AHEAD, c - x, yt - y);
    forall tx, ty | OffColumn(c, tx) ensures Kept(ph, p, q, tx, ty) {
      OffColumnRepeats(x, c, tx);
    }
  }

  lemma DrawnRowAt(d: MapData, ph: nat, p: seq<u16>, q: seq<u16>, x: u16, y: u16, xt: int, c: int)
    requires DrawnRow(d, ph, p, q, x, y)
    requires (x == xt || x == xt + 0x1_0000) && (y == c || y == c + 0x1_0000)
    ensures DrawnRow(d, ph, p, q, xt, c)
  {
    hide WellFormed, Here, Kept, OffRow;
    AgreeRepeats(d, ph, q, x, x + COLUMN_AHEAD, y, y + 1, xt - x, c - y);
    forall tx, ty | OffRow(ph, c, ty) ensures Kept(ph, p, q, tx, ty) {
      OffRowRepeats(ph, y, c, ty);
    }
  }

  lemma OffColumnRepeats(x: int, c: int, tx: int)
    requires x == c || x == c + 0x1_0000
    ensures OffColumn(x, tx) == OffColumn(c, tx)
  {
    if x == c + 0x1_0000 {
      AddMultiple(2 * c, 64, 2048);
      AddMultiple(2 * c + 1, 64, 2048);
    }
  }

  lemma OffRowRepeats(ph: nat, y: int, c: int, ty: int)
    requires (ph == 32 || ph == 64) && (y == c || y == c + 0x1_0000)
    ensures OffRow(ph, y, ty) == OffRow(ph, c, ty)
  {
    if y == c + 0x1_0000 {
      var k := if ph == 32 then 4096 else 2048;
      AddMultiple(2 * c, ph, k);
      AddMultiple(2 * c + 1, ph, k);
    }
  }

  /** Draw metatile column `c`, given as 16-bit code does it. */
  method DrawColumn(d: MapData, plane: array<u16>, ph: nat, cxt: s16, yt: s16, room: nat, ghost c: int) returns (left: nat)
    requires WellFormed(d) && PlaneSize(ph, plane.Length)
    requires cxt == S16(c) && -0x8100 <= c < 0x8100
    modifies plane
    ensures left == if 2 * ph <= room then room - 2 * ph else room
    ensures if 2 * ph <= room then DrawnColumn(d, ph, old(plane[..]), plane[..], c, yt) else plane[..] == old(plane[..])
  {
    hide S16, Wrap16, DrawnColumn, PlaneSize, WellFormed;
    RegisterOf(c);
    RegisterSame(yt);
    left := SetMapColumn(d, plane, ph, cxt % 32, Wrap16(cxt), Wrap16(yt), room);
    if 2 * ph <= room {
      DrawnColumnAt(d, ph, old(plane[..]), plane[..], Wrap16(cxt), Wrap16(yt), c, yt);
    }
  }

  method DrawRow(d: MapData, plane: array<u16>, ph: nat, cyt: s16, xt: s16, room: nat, ghost c: int) returns (left: nat)
    requires WellFormed(d) && PlaneSize(ph, plane.Length)
    requires cyt == S16(c) && -0x8100 <= c < 0x8100
    modifies plane
    ensures left == if 128 <= room then room - 128 else room
    ensures if 128 <= room then DrawnRow(d, ph, old(plane[..]), plane[..], xt, c) else plane[..] == old(plane[..])
  {
    hide S16, Wrap16, DrawnRow, WellFormed;
    RegisterOf(c);
    RegisterSame(xt);
    left := SetMapRow(d, plane, ph, cyt % (ph / 2), Wrap16(xt), Wrap16(cyt), room);
    if 128 <= room {
      DrawnRowAt(d, ph, old(plane[..]), plane[..], Wrap16(xt), Wrap16(cyt), xt, c);
    }
  }

  lemma RegisterSame(v: s16)
    ensures S16(v) == v && (Wrap16(v) == v || Wrap16(v) == v + 0x1_0000)
  {
  }

  // ----- What is drawn when the DMA buffer fills up

  ghost predicate KeptColumn(ph: nat, p: seq<u16>, q: seq<u16>, c: int) {
    && PlaneSize(ph, |p|) && |q| == |p|
    && forall ty :: Kept(ph, p, q, 2 * c, ty)
  }

  ghost predicate KeptRow(ph: nat, p: seq<u16>, q: seq<u16>, c: int) {
    && PlaneSize(ph, |p|) && |q| == |p|
    && forall tx :: Kept(ph, p, q, tx, 2 * c)
  }

  lemma KeptAtFirst(ph: nat, p: seq<u16>)
    requires PlaneSize(ph, |p|)
    ensures forall c :: KeptColumn(ph, p, p, c)
    ensures forall c :: KeptRow(ph, p, p, c)
  {
  }

  lemma ColumnKeeps(d: MapData, ph: nat, p: seq<u16>, q: seq<u16>, r: seq<u16>, x: int, y: int, c: int)
    requires KeptColumn(ph, p, q, c) && DrawnColumn(d, ph, q, r, x, y)
    requires -32 < x - c < 32 && x != c
    ensures KeptColumn(ph, p, r, c)
  {
    hide WellFormed, OffColumn, Agree, Cell;
    forall ty ensures Kept(ph, p, r, 2 * c, ty) {
      ColumnsApart(x, 2 * c);
      assert Kept(ph, p, q, 2 * c, ty) && Kept(ph, q, r, 2 * c, ty);
    }
  }

  lemma RowKeeps(d: MapData, ph: nat, p: seq<u16>, q: seq<u16>, r: seq<u16>, x: int, y: int, c: int)
    requires KeptRow(ph, p, q, c) && DrawnRow(d, ph, q, r, x, y)
    requires -16 < y - c < 16 && y != c
    ensures KeptRow(ph, p, r, c)
  {
    hide WellFormed, OffRow, Agree, Cell;
    forall tx ensures Kept(ph, p, r, tx, 2 * c) {
      RowsApart(ph, y, 2 * c);
      assert Kept(ph, p, q, tx, 2 * c) && Kept(ph, q, r, tx, 2 * c);
    }
  }

  /** Drawing a row of a window that agrees leaves it agreeing. */
  lemma RowInside(d: MapData, ph: nat, p: seq<u16>, q: seq<u16>, x: int, y: int, y0: int)
    requires DrawnRow(d, ph, p, q, x, y) && Window(d, ph, p, x, y0)
    requires y0 <= y < y0 + ROW_AHEAD
    ensures Window(d, ph, q, x, y0)
  {
    hide Here, Kept, OffRow;
    forall tx, ty | 2 * x <= tx < 2 * (x + COLUMN_AHEAD) && 2 * y0 <= ty < 2 * (y0 + ROW_AHEAD) ensures Here(d, ph, q, tx, ty) {
      if ty / 2 != y {
        RowsApart(ph, y, ty);
        StillHere(d, ph, p, q, tx, ty);
      }
    }
  }

  /** There is room for `n` pieces of the given size. */
  ghost predicate Fits(n: nat, piece: nat, room: nat) {
    n * piece <= room
  }

  /** The words left after `n` pieces of the given size were asked for, one after the other. */
  function Spare(n: nat, piece: nat, room: nat): (left: nat)
    requires piece > 0
    ensures left <= room
    ensures if n * piece <= room then left == room - n * piece else left < piece
  {
    if n == 0 then
      room
    else if room < piece then
      PieceMissing(n, piece);
      room
    else
      PieceTaken(n, piece);
      Spare(n - 1, piece, room - piece)
  }

  lemma PieceTaken(n: nat, piece: nat)
    requires n > 0
    ensures (n - 1) * piece == n * piece - piece
  {
  }

  lemma PieceMissing(n: nat, piece: nat)
    requires n > 0
    ensures n * piece >= piece
  {
  }

  /** One of `n` pieces is taken if there is room for it. */
  lemma OnePiece(n: nat, piece: nat, room: nat)
    requires n > 0 && piece > 0
    ensures n == 1 && Fits(n, piece, room) ==> piece <= room
    ensures n == 1 && piece <= room ==> Fits(n, piece, room)
    ensures piece <= room ==> (Fits(n, piece, room) <==> Fits(n - 1, piece, room - piece))
    ensures piece <= room ==> Spare(n, piece, room) == Spare(n - 1, piece, room - piece)
    ensures room < piece ==> !Fits(n, piece, room) && Spare(n, piece, room) == Spare(n - 1, piece, room) == room
    ensures room < piece && n > 1 ==> !Fits(n - 1, piece, room)
  {
    PieceTaken(n, piece);
    PieceMissing(n, piece);
    if n > 1 {
      PieceMissing(n - 1, piece);
    }
  }

  function Size(delta: int): nat {
    if delta < 0 then -delta else delta
  }

  /** The column drawn last of those that enter a window whose corner moved by `delta` to `x`, and the
      one at the other side. */
  function LastIn(x: int, delta: int, ahead: nat): int {
    if delta > 0 then x + ahead - 1 else x
  }

  function FirstOut(x: int, delta: int, ahead: nat): int {
    if delta > 0 then x else x + ahead - 1
  }

  /** Where the column loops are: the columns [`x0`, `x1`) agree if the first ones did and there is room
      for all (`fine`), else the last column is as it was (`!enough`); so is `far`, if it stays. */
  ghost predicate ColumnsDone(d: MapData, ph: nat, p: seq<u16>, q: seq<u16>, x0: int, x1: int, y0: int, y1: int,
                              last: int, far: int, fine: bool, enough: bool, stays: bool)
  {
    && (fine ==> Agree(d, ph, q, x0, x1, y0, y1))
    && (!enough ==> KeptColumn(ph, p, q, last))
    && (stays ==> KeptColumn(ph, p, q, far))
  }

  lemma ColumnsNext(d: MapData, ph: nat, p: seq<u16>, q: seq<u16>, r: seq<u16>, c: int, y: int, x0: int, x1: int, y0: int, y1: int,
                    last: int, far: int, fine: bool, enough: bool, stays: bool, drawn: bool)
    requires ColumnsDone(d, ph, p, q, x0, x1, y0, y1, last, far, fine, enough, stays)
    requires if drawn then DrawnColumn(d, ph, q, r, c, y) else q == r
    requires fine ==> drawn && y <= y0 && y1 <= y + ROW_AHEAD && x1 - 32 <= c < x0 + 32 && (c == x1 || c + 1 == x0) && x0 <= x1
    requires !enough && drawn ==> -32 < c - last < 32 && c != last
    requires stays ==> -32 < c - far < 32 && c != far
    ensures c == x1 ==> ColumnsDone(d, ph, p, r, x0, x1 + 1, y0, y1, last, far, fine, enough, stays)
    ensures c + 1 == x0 ==> ColumnsDone(d, ph, p, r, c, x1, y0, y1, last, far, fine, enough, stays)
  {
    hide Agree, DrawnColumn, KeptColumn;
    if fine {
      ColumnExtends(d, ph, q, r, c, y, x0, x1, y0, y1);
    }
    if drawn && !enough {
      ColumnKeeps(d, ph, p, q, r, c, y, last);
    }
    if drawn && stays {
      ColumnKeeps(d, ph, p, q, r, c, y, far);
    }
  }

  /** One round of a column loop, when `n` columns are still to be drawn. */
  method NextColumn(d: MapData, plane: array<u16>, ph: nat, cxt: s16, yt: s16, room: nat, ghost n: nat,
                    ghost c: int, ghost p: seq<u16>, ghost x0: int, ghost x1: int, ghost y0: int, ghost y1: int,
                    ghost last: int, ghost far: int, ghost fine: bool, ghost enough: bool, ghost stays: bool) returns (left: nat)
    requires WellFormed(d) && PlaneSize(ph, plane.Length)
    requires cxt == S16(c) && -0x8100 <= c < 0x8100
    requires n > 0 && enough == Fits(n, 2 * ph, room) && (fine ==> enough)
    requires ColumnsDone(d, ph, p, plane[..], x0, x1, y0, y1, last, far, fine, enough, stays)
    requires yt <= y0 && y1 <= yt + ROW_AHEAD && x1 - 32 <= c < x0 + 32 && (c == x1 || c + 1 == x0) && x0 <= x1
    requires -32 < c - last < 32 && (n > 1 ==> c != last)
    requires stays ==> -32 < c - far < 32 && c != far
    modifies plane
    ensures Spare(n - 1, 2 * ph, left) == Spare(n, 2 * ph, room)
    ensures n == 1 || enough == Fits(n - 1, 2 * ph, left)
    ensures c == x1 ==> ColumnsDone(d, ph, p, plane[..], x0, x1 + 1, y0, y1, last, far, fine, enough, stays)
    ensures c + 1 == x0 ==> ColumnsDone(d, ph, p, plane[..], c, x1, y0, y1, last, far, fine, enough, stays)
  {
    assert ph > 0;
    hide S16, DrawnColumn, WellFormed, PlaneSize, Spare, Fits, ColumnsDone;
    ghost var q := plane[..];
    OnePiece(n, 2 * ph, room);
    left := DrawColumn(d, plane, ph, cxt, yt, room, c);
    ColumnsNext(d, ph, p, q, plane[..], c, yt, x0, x1, y0, y1, last, far, fine, enough, stays, 2 * ph <= room);
  }

  lemma ColumnsNone(d: MapData, ph: nat, p: seq<u16>, x0: int, x1: int, y0: int, y1: int,
                    last: int, far: int, fine: bool, enough: bool, stays: bool)
    requires PlaneSize(ph, |p|) && (fine ==> Agree(d, ph, p, x0, x1, y0, y1))
    ensures ColumnsDone(d, ph, p, p, x0, x1, y0, y1, last, far, fine, enough, stays)
  {
    hide Agree;
  }

  /** The columns that enter on the right. */
  method UpdateRight(d: MapData, plane: array<u16>, ph: nat, cxt0: s16, deltaX0: int, yt: s16, room: nat,
                     ghost xt: int, ghost y0: int, ghost y1: int, ghost shown: bool) returns (left: nat)
    requires WellFormed(d) && PlaneSize(ph, plane.Length)
    requires 0 < deltaX0 <= 21 && cxt0 == S16(xt - deltaX0)
    requires -0x8000 <= xt < 0x8000 && yt <= y0 && y1 <= yt + 16
    requires shown ==> Agree(d, ph, plane[..], xt, xt - deltaX0 + 21, y0, y1)
    modifies plane
    ensures left == Spare(deltaX0, 2 * ph, room)
    ensures var enough := Fits(deltaX0, 2 * ph, room);
            ColumnsDone(d, ph, old(plane[..]), plane[..], xt, xt + 21, y0, y1, xt + 20, xt, shown && enough, enough, deltaX0 < 21)
  {
    assert ph > 0;
    ghost var n: int, piece := deltaX0, 2 * ph;
    ghost var enough := Fits(n, piece, room);
    ghost var p0 := plane[..];
    hide S16, Agree, DrawnColumn, WellFormed, PlaneSize, KeptColumn, KeptRow, Spare, Fits, ColumnsDone;
    var cxt: int, deltaX: int := S16(cxt0 + COLUMN_AHEAD), deltaX0;
    left := room;
    ghost var c := xt - deltaX + 21;
    ColumnsNone(d, ph, p0, xt, c, y0, y1, xt + 20, xt, shown && enough, enough, n < 21);
    S16Step(xt - deltaX, 21);
    while deltaX != 0
      invariant 0 <= deltaX <= n && c == xt - deltaX + 21 && cxt == S16(c)
      invariant Spare(deltaX, piece, left) == Spare(n, piece, room)
      invariant deltaX != 0 ==> enough == Fits(deltaX, piece, left)
      invariant ColumnsDone(d, ph, p0, plane[..], xt, c, y0, y1, xt + 20, xt, shown && enough, enough, n < 21)
      decreases deltaX
    {
      left := NextColumn(d, plane, ph, cxt, yt, left, deltaX, c, p0, xt, c, y0, y1, xt + 20, xt, shown && enough, enough, n < 21);
      S16Step(c, 1);
      cxt := S16(cxt + 1);
      deltaX, c := deltaX - 1, c + 1;
    }
    SpareNone(piece, left);
  }

  /** The columns that enter on the left. */
  method UpdateLeft(d: MapData, plane: array<u16>, ph: nat, cxt0: s16, deltaX0: int, yt: s16, room: nat,
                    ghost xt: int, ghost y0: int, ghost y1: int, ghost shown: bool) returns (left: nat)
    requires WellFormed(d) && PlaneSize(ph, plane.Length)
    requires -21 <= deltaX0 <= 0 && (deltaX0 != 0 ==> cxt0 == S16(xt - deltaX0))
    requires -0x8000 <= xt < 0x8000 && yt <= y0 && y1 <= yt + 16
    requires shown ==> Agree(d, ph, plane[..], xt - deltaX0, xt + 21, y0, y1)
    modifies plane
    ensures left == Spare(-deltaX0, 2 * ph, room)
    ensures var enough := Fits(-deltaX0, 2 * ph, room);
            ColumnsDone(d, ph, old(plane[..]), plane[..], xt, xt + 21, y0, y1, xt, xt + 20, shown && enough, enough, -deltaX0 < 21)
  {
    assert ph > 0;
    ghost var n: int, piece := -deltaX0, 2 * ph;
    ghost var enough := Fits(n, piece, room);
    ghost var p0 := plane[..];
    hide S16, Agree, DrawnColumn, WellFormed, PlaneSize, KeptColumn, KeptRow, Spare, Fits, ColumnsDone;
    var cxt: int, deltaX: int := cxt0, deltaX0;
    left := room;
    ghost var c := xt - deltaX;
    ColumnsNone(d, ph, p0, c, xt + 21, y0, y1, xt, xt + 20, shown && enough, enough, n < 21);
    while deltaX != 0
      invariant -n <= deltaX <= 0 && c == xt - deltaX && (deltaX != 0 ==> cxt == S16(c))
      invariant Spare(-deltaX, piece, left) == Spare(n, piece, room)
      invariant deltaX != 0 ==> enough == Fits(-deltaX, piece, left)
      invariant ColumnsDone(d, ph, p0, plane[..], c, xt + 21, y0, y1, xt, xt + 20, shown && enough, enough, n < 21)
      decreases -deltaX
    {
      S16Step(c, -1);
      cxt := S16(cxt - 1);
      left := NextColumn(d, plane, ph, cxt, yt, left, -deltaX, c - 1, p0, c, xt + 21, y0, y1, xt, xt + 20, shown && enough, enough, n < 21);
      deltaX, c := deltaX + 1, c - 1;
    }
    SpareNone(piece, left);
  }

  /** The column loops of `updateMap`. With room for all columns the plane agrees on all of them
      (`shown`: provided it did on those that stay); otherwise the last of them is not drawn. */
  method UpdateColumns(d: MapData, plane: array<u16>, ph: nat, cxt: s16, deltaX: int, yt: s16, room: nat,
                       ghost xt: s16, ghost y0: int, ghost y1: int, ghost shown: bool) returns (left: nat)
    requires WellFormed(d) && PlaneSize(ph, plane.Length)
    requires -21 <= deltaX <= 21 && (deltaX != 0 ==> cxt == S16(xt - deltaX))
    requires yt <= y0 && y1 <= yt + 16
    requires shown ==> Agree(d, ph, plane[..], Max(xt - deltaX, xt), Min(xt - deltaX, xt) + 21, y0, y1)
    modifies plane
    ensures left == Spare(Size(deltaX), 2 * ph, room)
    ensures shown && Fits(Size(deltaX), 2 * ph, room) ==> Agree(d, ph, plane[..], xt, xt + 21, y0, y1)
    ensures !Fits(Size(deltaX), 2 * ph, room) ==> KeptColumn(ph, old(plane[..]), plane[..], LastIn(xt, deltaX, 21))
    ensures Size(deltaX) < 21 ==> KeptColumn(ph, old(plane[..]), plane[..], FirstOut(xt, deltaX, 21))
  {
    hide S16, Agree, WellFormed, KeptColumn, Spare, Fits;
    if deltaX > 0 {
      left := UpdateRight(d, plane, ph, cxt, deltaX, yt, room, xt, y0, y1, shown);
    } else {
      left := UpdateLeft(d, plane, ph, cxt, deltaX, yt, room, xt, y0, y1, shown);
    }
  }

  lemma SpareNone(piece: nat, left: nat)
    requires piece > 0
    ensures Spare(0, piece, left) == left && Fits(0, piece, left)
  {
  }

  /** The row loops of `updateMap`. A window that agrees already (`whole`) goes on agreeing; one that
      does on the rows that stay (`shown`) agrees if there is room for all others; without that room
      the last of them is not drawn, and without room for one nothing is. */
  method UpdateRows(d: MapData, plane: array<u16>, ph: nat, cyt0: s16, deltaY0: int, xt: s16, room: nat,
                    ghost yt: s16, ghost shown: bool, ghost whole: bool) returns (left: nat)
    requires WellFormed(d) && PlaneSize(ph, plane.Length)
    requires -16 <= deltaY0 <= 16 && (deltaY0 != 0 ==> cyt0 == S16(yt - deltaY0))
    requires shown ==> Agree(d, ph, plane[..], xt, xt + 21, Max(yt - deltaY0, yt), Min(yt - deltaY0, yt) + 16)
    requires whole ==> Window(d, ph, plane[..], xt, yt)
    modifies plane
    ensures left == Spare(Size(deltaY0), 128, room)
    ensures whole || (shown && Fits(Size(deltaY0), 128, room)) ==> Window(d, ph, plane[..], xt, yt)
    ensures !Fits(Size(deltaY0), 128, room) ==> KeptRow(ph, old(plane[..]), plane[..], LastIn(yt, deltaY0, 16))
    ensures room < 128 ==> plane[..] == old(plane[..])
  {
    hide S16, Agree, DrawnRow, WellFormed, PlaneSize, KeptRow, KeptColumn, Spare, Fits;
    var cyt, deltaY := cyt0, deltaY0;
    left := room;
    ghost var n: int := Size(deltaY0);
    ghost var enough := Fits(n, 128, room);
    ghost var last := LastIn(yt, deltaY0, 16);
    KeptAtFirst(ph, plane[..]);
    if deltaY > 0 {
      ghost var c := yt - deltaY + 16;
      S16Step(yt - deltaY, 16);
      cyt := S16(cyt + ROW_AHEAD);
      while deltaY != 0
        invariant 0 <= deltaY <= n && c == yt - deltaY + 16 && cyt == S16(c)
        invariant Spare(deltaY, 128, left) == Spare(n, 128, room)
        invariant deltaY != 0 ==> enough == Fits(deltaY, 128, left)
        invariant shown && enough ==> Agree(d, ph, plane[..], xt, xt + 21, yt, c)
        invariant whole ==> Window(d, ph, plane[..], xt, yt)
        invariant !enough ==> KeptRow(ph, old(plane[..]), plane[..], last)
        invariant room < 128 ==> left == room && plane[..] == old(plane[..])
        decreases deltaY
      {
        ghost var p, before := plane[..], left;
        OnePiece(deltaY, 128, left);
        left := DrawRow(d, plane, ph, cyt, xt, left, c);
        if shown && enough {
          RowExtends(d, ph, p, plane[..], xt, c, yt, c);
        }
        if 128 <= before {
          KeepRows(d, ph, old(plane[..]), p, plane[..], xt, c, yt, last, enough, whole);
        }
        S16Step(c, 1);
        cyt := S16(cyt + 1);
        deltaY, c := deltaY - 1, c + 1;
      }
    } else {
      ghost var c := yt - deltaY;
      while deltaY != 0
        invariant -n <= deltaY <= 0 && c == yt - deltaY && (deltaY != 0 ==> cyt == S16(c))
        invariant Spare(-deltaY, 128, left) == Spare(n, 128, room)
        invariant deltaY != 0 ==> enough == Fits(-deltaY, 128, left)
        invariant shown && enough ==> Agree(d, ph, plane[..], xt, xt + 21, c, yt + 16)
        invariant whole ==> Window(d, ph, plane[..], xt, yt)
        invariant !enough ==> KeptRow(ph, old(plane[..]), plane[..], last)
        invariant room < 128 ==> left == room && plane[..] == old(plane[..])
        decreases -deltaY
      {
        S16Step(c, -1);
        cyt := S16(cyt - 1);
        ghost var p, before := plane[..], left;
        OnePiece(-deltaY, 128, left);
        left := DrawRow(d, plane, ph, cyt, xt, left, c - 1);
        if shown && enough {
          RowExtends(d, ph, p, plane[..], xt, c - 1, c, yt + 16);
        }
        if 128 <= before {
          KeepRows(d, ph, old(plane[..]), p, plane[..], xt, c - 1, yt, last, enough, whole);
        }
        deltaY, c := deltaY + 1, c - 1;
      }
    }
    SpareNone(128, left);
  }

  lemma KeepRows(d: MapData, ph: nat, p: seq<u16>, q: seq<u16>, r: seq<u16>, x: int, y: int, y0: int, last: int, enough: bool, whole: bool)
    requires DrawnRow(d, ph, q, r, x, y) && y0 <= y < y0 + 16
    requires !enough ==> KeptRow(ph, p, q, last) && -16 < y - last < 16 && y != last
    requires whole ==> Window(d, ph, q, x, y0)
    ensures !enough ==> KeptRow(ph, p, r, last)
    ensures whole ==> Window(d, ph, r, x, y0)
  {
    hide KeptRow, DrawnRow, Window;
    if !enough {
      RowKeeps(d, ph, p, q, r, x, y, last);
    }
    if whole {
      RowInside(d, ph, q, r, x, y, y0);
    }
  }

  // ----- The engine

  lemma {:induction false} AgreeRepeatsBy(d: MapData, ph: nat, plane: seq<u16>, x0: int, x1: int, y0: int, y1: int, kx: int, ky: int)
    requires Agree(d, ph, plane, x0, x1, y0, y1)
    ensures Agree(d, ph, plane, x0 + 0x1_0000 * kx, x1 + 0x1_0000 * kx, y0 + 0x1_0000 * ky, y1 + 0x1_0000 * ky)
    decreases if kx < 0 then -kx else kx, if ky < 0 then -ky else ky
  {
    hide Agree;
    if kx != 0 {
      var s := if kx > 0 then 1 else -1;
      AgreeRepeats(d, ph, plane, x0, x1, y0, y1, 0x1_0000 * s, 0);
      AgreeRepeatsBy(d, ph, plane, x0 + 0x1_0000 * s, x1 + 0x1_0000 * s, y0, y1, kx - s, ky);
    } else if ky != 0 {
      var s := if ky > 0 then 1 else -1;
      AgreeRepeats(d, ph, plane, x0, x1, y0, y1, 0, 0x1_0000 * s);
      AgreeRepeatsBy(d, ph, plane, x0, x1, y0 + 0x1_0000 * s, y1 + 0x1_0000 * s, kx, ky - s);
    }
  }

  /** Two positions with the same 16 bits are a whole number of turns apart. */
  lemma SameRegister(a: int, b: int) returns (k: int)
    requires S16(a) == S16(b)
    ensures b == a + 0x1_0000 * k
  {
    k := (b + 0x8000) / 0x1_0000 - (a + 0x8000) / 0x1_0000;
    assert a + 0x8000 == 0x1_0000 * ((a + 0x8000) / 0x1_0000) + (a + 0x8000) % 0x1_0000;
    assert b + 0x8000 == 0x1_0000 * ((b + 0x8000) / 0x1_0000) + (b + 0x8000) % 0x1_0000;
  }

  /** A window is shown at a position if it is shown at one with the same 16 bits. */
  lemma WindowSame(d: MapData, ph: nat, plane: seq<u16>, x: int, y: int, x': int, y': int)
    requires Window(d, ph, plane, x, y) && S16(x) == S16(x') && S16(y) == S16(y')
    ensures Window(d, ph, plane, x', y')
  {
    hide Agree, S16;
    var kx := SameRegister(x, x');
    var ky := SameRegister(y, y');
    AgreeRepeatsBy(d, ph, plane, x, x + COLUMN_AHEAD, y, y + ROW_AHEAD, kx, ky);
  }

  /** The part of the window at the old position that is also in the window at the new one. */
  ghost predicate Overlap(d: MapData, ph: nat, plane: seq<u16>, x: int, y: int, dx: int, dy: int) {
    Agree(d, ph, plane, Max(x - dx, x), Min(x - dx, x) + 21, Max(y - dy, y), Min(y - dy, y) + 16)
  }

  lemma SmallerAgrees(d: MapData, ph: nat, plane: seq<u16>, x0: int, x1: int, y0: int, y1: int, x0': int, x1': int, y0': int, y1': int)
    requires Agree(d, ph, plane, x0, x1, y0, y1)
    requires (x0 <= x0' && x1' <= x1 && y0 <= y0' && y1' <= y1) || x1' <= x0' || y1' <= y0'
    ensures Agree(d, ph, plane, x0', x1', y0', y1')
  {
  }

  const WRAP32 := 0x1_0000_0000

  /** A move of this many metatiles leaves nothing of the window on the screen. */
  ghost predicate Jump(dx: int, dy: int) {
    Size(dx) >= COLUMN_AHEAD || Size(dy) >= ROW_AHEAD
  }

  /** The words of the DMA buffer that an update asks for. */
  function Cost(ph: nat, dx: int, dy: int): nat {
    if Size(dy) > ROW_AHEAD then 16 * 128
    else if Size(dx) > COLUMN_AHEAD then 21 * (2 * ph)
    else Size(dx) * (2 * ph) + Size(dy) * 128
  }

  /** The words it needs: 21 columns are the whole window, whatever rows follow them. */
  function Needed(ph: nat, dx: int, dy: int): nat {
    if Size(dx) == COLUMN_AHEAD && Size(dy) <= ROW_AHEAD then 21 * (2 * ph) else Cost(ph, dx, dy)
  }

  /** No update needs more. */
  const MOST := 20 * 128 + 16 * 128

  lemma NeededBound(ph: nat, dx: int, dy: int)
    requires ph == 32 || ph == 64
    ensures Needed(ph, dx, dy) <= Cost(ph, dx, dy) && Needed(ph, dx, dy) <= MOST
  {
  }

  /** The columns take their room first, the rows what is left. */
  lemma Rooms(ph: nat, dx: int, dy: int, room: nat)
    requires (ph == 32 || ph == 64) && Size(dx) <= COLUMN_AHEAD && Size(dy) <= ROW_AHEAD
    ensures var rest := Spare(Size(dx), 2 * ph, room);
            var columns, rows := Fits(Size(dx), 2 * ph, room), Fits(Size(dy), 128, rest);
            && (Needed(ph, dx, dy) <= room <==> columns && (rows || Size(dx) == COLUMN_AHEAD))
            && (!columns ==> rest < 128)
            && (Cost(ph, dx, dy) <= room ==> columns && rows && Spare(Size(dy), 128, rest) == room - Cost(ph, dx, dy))
  {
    hide Spare;
  }

  /** A cell of the window at (`x`, `y`) holds what it held before. */
  ghost predicate Missed(ph: nat, p: seq<u16>, q: seq<u16>, x: int, y: int) {
    && PlaneSize(ph, |p|) && |q| == |p|
    && exists tx, ty :: 2 * x <= tx < 2 * (x + COLUMN_AHEAD) && 2 * y <= ty < 2 * (y + ROW_AHEAD) && Kept(ph, p, q, tx, ty)
  }

  /** The columns between `p` and `q`, the rows between `q` and `r`. */
  lemma MissedAt(ph: nat, p: seq<u16>, q: seq<u16>, r: seq<u16>, x: int, y: int, cx: int, cy: int)
    requires KeptColumn(ph, p, q, cx) && (q == r || KeptRow(ph, q, r, cy))
    requires x <= cx < x + COLUMN_AHEAD && y <= cy < y + ROW_AHEAD
    ensures Missed(ph, p, r, x, y)
  {
    hide Cell;
    assert Kept(ph, p, q, 2 * cx, 2 * cy);
    assert q == r || Kept(ph, q, r, 2 * cx, 2 * cy);
    assert Kept(ph, p, r, 2 * cx, 2 * cy);
  }

  lemma MissedSame(ph: nat, p: seq<u16>, q: seq<u16>, x: int, y: int, x': int, y': int)
    requires Missed(ph, p, q, x, y) && S16(x) == S16(x') && S16(y) == S16(y')
    ensures Missed(ph, p, q, x', y')
  {
    hide S16;
    var kx := SameRegister(x, x');
    var ky := SameRegister(y, y');
    var tx, ty :| 2 * x <= tx < 2 * (x + COLUMN_AHEAD) && 2 * y <= ty < 2 * (y + ROW_AHEAD) && Kept(ph, p, q, tx, ty);
    CellTurns(ph, tx, ty, kx, ky);
    assert Kept(ph, p, q, tx + 0x2_0000 * kx, ty + 0x2_0000 * ky);
  }

  lemma CellTurns(ph: nat, tx: int, ty: int, kx: int, ky: int)
    requires ph == 32 || ph == 64
    ensures Cell(ph, tx + 0x2_0000 * kx, ty + 0x2_0000 * ky) == Cell(ph, tx, ty)
  {
    DivUnique(tx + 0x2_0000 * kx, 64, tx / 64 + 2048 * kx, tx % 64);
    if ph == 32 {
      DivUnique(ty + 0x2_0000 * ky, 32, ty / 32 + 4096 * ky, ty % 32);
    } else {
      DivUnique(ty + 0x2_0000 * ky, 64, ty / 64 + 2048 * ky, ty % 64);
    }
  }

  /** Cutting a distance to the size of the window changes neither the overlap, if any, nor the words
      to draw the rest. */
  lemma Clipped(d: MapData, ph: nat, plane: seq<u16>, x: int, y: int, dx: int, dy: int, dx': int, dy': int, shown: bool)
    requires WellFormed(d) && PlaneSize(ph, |plane|) && (shown ==> Overlap(d, ph, plane, x, y, dx, dy))
    requires if Size(dy) > ROW_AHEAD then dx' == 0 && dy' == (if dy < 0 then -ROW_AHEAD else ROW_AHEAD)
             else if Size(dx) > COLUMN_AHEAD then dx' == (if dx < 0 then -COLUMN_AHEAD else COLUMN_AHEAD) && dy' == 0
             else dx' == dx && dy' == dy
    ensures shown ==> Overlap(d, ph, plane, x, y, dx', dy')
    ensures Cost(ph, dx', dy') == Cost(ph, dx, dy) && Needed(ph, dx', dy') == Needed(ph, dx, dy)
  {
    hide WellFormed, PlaneSize, Overlap;
    if dx' != dx || dy' != dy {
      JumpOverlap(d, ph, plane, x, y, dx', dy');
    }
  }

  lemma NoMove(d: MapData, ph: nat, plane: seq<u16>, x: int, y: int)
    ensures Overlap(d, ph, plane, x, y, 0, 0) ==> Window(d, ph, plane, x, y)
    ensures Cost(ph, 0, 0) == Needed(ph, 0, 0) == 0
  {
    hide Agree;
  }

  /** The rows of the window that agree before the columns are drawn: all, if all columns are. */
  function Top(y: int, dx: int, dy: int): (t: int)
    ensures y <= t
  {
    if Size(dx) == COLUMN_AHEAD then y else Max(y - dy, y)
  }

  function Bottom(y: int, dx: int, dy: int): (b: int)
    ensures b <= y + ROW_AHEAD
  {
    if Size(dx) == COLUMN_AHEAD then y + ROW_AHEAD else Min(y - dy, y) + ROW_AHEAD
  }

  lemma BeforeColumns(d: MapData, ph: nat, plane: seq<u16>, x: int, y: int, dx: int, dy: int)
    requires Overlap(d, ph, plane, x, y, dx, dy) && Size(dx) <= COLUMN_AHEAD
    ensures Agree(d, ph, plane, Max(x - dx, x), Min(x - dx, x) + 21, Top(y, dx, dy), Bottom(y, dx, dy))
  {
  }

  lemma AfterColumns(d: MapData, ph: nat, plane: seq<u16>, x: int, y: int, dx: int, dy: int)
    requires Agree(d, ph, plane, x, x + 21, Top(y, dx, dy), Bottom(y, dx, dy))
    ensures Agree(d, ph, plane, x, x + 21, Max(y - dy, y), Min(y - dy, y) + 16)
    ensures Size(dx) == COLUMN_AHEAD ==> Window(d, ph, plane, x, y)
  {
    hide Here;
  }

  lemma JumpOverlap(d: MapData, ph: nat, plane: seq<u16>, x: int, y: int, dx: int, dy: int)
    requires WellFormed(d) && PlaneSize(ph, |plane|) && Jump(dx, dy)
    ensures Overlap(d, ph, plane, x, y, dx, dy)
  {
    hide WellFormed, Here;
  }

  /** One call of `MAP_scrollToEx`: a pixel position, whether to redraw, and the words left in the DMA
      buffer. */
  datatype Scroll = Scroll(x: nat, y: nat, redraw: bool, room: nat)

  class Map {
    const data: MapData
    const planeHeight: nat
    /** The name table of the plane in VRAM. */
    const plane: array<u16>
    var firstUpdate: bool
    var posX: nat
    var posY: nat
    var lastXT: u16
    var lastYT: u16
    /** All that had to be drawn since the window was last drawn whole has been drawn. */
    ghost var whole: bool

    ghost predicate Valid()
      reads this, plane
    {
      && WellFormed(data) && PlaneSize(planeHeight, plane.Length)
      && (whole ==> !firstUpdate && Window(data, planeHeight, plane[..], lastXT, lastYT))
    }

    /** `MAP_create` for a plane that already exists. */
    constructor (data: MapData, plane: array<u16>, planeHeight: nat)
      requires WellFormed(data) && PlaneSize(planeHeight, plane.Length)
      ensures Valid() && this.data == data && this.plane == plane && this.planeHeight == planeHeight
      ensures firstUpdate && !whole
    {
      this.data, this.plane, this.planeHeight := data, plane, planeHeight;
      firstUpdate, whole := true, false;
      posX, posY, lastXT, lastYT := 0, 0, 0, 0;
    }

    /** `updateMap`: bring the plane from the window at the last position to the one at (`xt`, `yt`).
        With the words it needs it shows that window, if it did where the two overlap (`shown`);
        with fewer there is a cell of the window that it does not draw. */
    method UpdateMap(xt: s16, yt: s16, room: nat, ghost shown: bool, ghost dx: int, ghost dy: int) returns (left: nat)
      requires WellFormed(data) && PlaneSize(planeHeight, plane.Length)
      requires dx == S16(xt - S16(lastXT)) && dy == S16(yt - S16(lastYT))
      requires shown ==> Overlap(data, planeHeight, plane[..], xt, yt, dx, dy)
      modifies plane, this`lastXT, this`lastYT
      ensures shown && Needed(planeHeight, dx, dy) <= room ==> Window(data, planeHeight, plane[..], xt, yt)
      ensures room < Needed(planeHeight, dx, dy) ==> Missed(planeHeight, old(plane[..]), plane[..], xt, yt)
      ensures left <= room && (Cost(planeHeight, dx, dy) <= room ==> left == room - Cost(planeHeight, dx, dy))
      ensures lastXT == Wrap16(xt) && lastYT == Wrap16(yt)
    {
      hide Overlap, Window, Agree, WellFormed, PlaneSize, S16, Wrap16, Missed, Cost, Needed;
      var cxt := S16(lastXT);
      var cyt := S16(lastYT);
      var deltaX := S16(xt - cxt);
      var deltaY := S16(yt - cyt);
      Back(xt, cxt);
      Back(yt, cyt);
      SameWrap(xt, lastXT);
      SameWrap(yt, lastYT);
      if deltaX == 0 && deltaY == 0 {
        NoMove(data, planeHeight, plane[..], xt, yt);
        return room;
      }
      if deltaY > ROW_AHEAD {
        S16Step(yt - deltaY, deltaY - ROW_AHEAD);
        cyt := S16(cyt + deltaY - ROW_AHEAD);
        deltaY := ROW_AHEAD;
        deltaX := 0;
      } else if deltaY < -ROW_AHEAD {
        S16Step(yt - deltaY, deltaY + ROW_AHEAD);
        cyt := S16(cyt + deltaY + ROW_AHEAD);
        deltaY := -ROW_AHEAD;
        deltaX := 0;
      } else if deltaX > COLUMN_AHEAD {
        S16Step(xt - deltaX, deltaX - COLUMN_AHEAD);
        cxt := S16(cxt + deltaX - COLUMN_AHEAD);
        deltaX := COLUMN_AHEAD;
        deltaY := 0;
      } else if deltaX < -COLUMN_AHEAD {
        S16Step(xt - deltaX, deltaX + COLUMN_AHEAD);
        cxt := S16(cxt + deltaX + COLUMN_AHEAD);
        deltaX := -COLUMN_AHEAD;
        deltaY := 0;
      }
      Clipped(data, planeHeight, plane[..], xt, yt, dx, dy, deltaX, deltaY, shown);
      left := DrawEntering(cxt, cyt, deltaX, deltaY, xt, yt, room, shown);
      lastXT, lastYT := Wrap16(xt), Wrap16(yt);
    }

    /** The loops of `updateMap`, once the distance is cut to the size of the window. */
    method DrawEntering(cxt: s16, cyt: s16, deltaX: int, deltaY: int, xt: s16, yt: s16, room: nat, ghost shown: bool) returns (left: nat)
      requires WellFormed(data) && PlaneSize(planeHeight, plane.Length)
      requires -21 <= deltaX <= 21 && (deltaX != 0 ==> cxt == S16(xt - deltaX))
      requires -16 <= deltaY <= 16 && (deltaY != 0 ==> cyt == S16(yt - deltaY))
      requires shown ==> Overlap(data, planeHeight, plane[..], xt, yt, deltaX, deltaY)
      modifies plane
      ensures shown && Needed(planeHeight, deltaX, deltaY) <= room ==> Window(data, planeHeight, plane[..], xt, yt)
      ensures room < Needed(planeHeight, deltaX, deltaY) ==> Missed(planeHeight, old(plane[..]), plane[..], xt, yt)
      ensures left <= room && (Cost(planeHeight, deltaX, deltaY) <= room ==> left == room - Cost(planeHeight, deltaX, deltaY))
    {
      assert planeHeight == 32 || planeHeight == 64;
      hide Overlap, Window, Agree, WellFormed, PlaneSize, S16, KeptColumn, KeptRow, Missed, Spare, Fits, Cost, Needed, Top, Bottom;
      ghost var p := plane[..];
      Rooms(planeHeight, deltaX, deltaY, room);
      if shown {
        BeforeColumns(data, planeHeight, p, xt, yt, deltaX, deltaY);
      }
      ghost var columns := Fits(Size(deltaX), 2 * planeHeight, room);
      var rest := UpdateColumns(data, plane, planeHeight, cxt, deltaX, yt, room, xt, Top(yt, deltaX, deltaY), Bottom(yt, deltaX, deltaY), shown);
      ghost var q := plane[..];
      if shown && columns {
        AfterColumns(data, planeHeight, q, xt, yt, deltaX, deltaY);
      }
      left := UpdateRows(data, plane, planeHeight, cyt, deltaY, xt, rest, yt, shown && columns, shown && columns && Size(deltaX) == 21);
      if !columns {
        MissedAt(planeHeight, p, q, plane[..], xt, yt, LastIn(xt, deltaX, 21), yt);
      } else if Size(deltaX) < 21 && !Fits(Size(deltaY), 128, rest) {
        MissedAt(planeHeight, p, q, plane[..], xt, yt, FirstOut(xt, deltaX, 21), LastIn(yt, deltaY, 16));
      }
    }

    lemma Back(xt: s16, cxt: s16)
      ensures S16(xt - S16(xt - cxt)) == cxt
    {
    }

    lemma SameWrap(xt: s16, last: u16)
      ensures S16(xt - S16(last)) == 0 ==> last == Wrap16(xt) && S16(last) == xt
    {
    }

    /** How far the window moves in a scroll to this position; a redraw counts as a window down. */
    function Distance(x: nat, y: nat, redraw: bool): (int, int)
      reads this`lastXT, this`lastYT
    {
      if redraw then (0, ROW_AHEAD) else (S16(S16(x / 16) - S16(lastXT)), S16(S16(y / 16) - S16(lastYT)))
    }

    /** `MAP_scrollToEx`, up to the scroll registers. The plane shows the window at pixel position
        (`x`, `y`) once all is drawn: a jump or redraw makes up for whatever was missed before. */
    method ScrollToEx(x: nat, y: nat, forceRedraw: bool, room: nat) returns (left: nat)
      requires Valid() && x < WRAP32 && y < WRAP32
      modifies this, plane
      ensures Valid() && !firstUpdate && posX == x && posY == y
      ensures var (dx, dy) := old(Distance(x, y, forceRedraw || firstUpdate));
              && (whole <==> (dx <= -21 || 21 <= dx || dy <= -16 || 16 <= dy || old(whole)) && Needed(planeHeight, dx, dy) <= room)
              && (whole ==> Window(data, planeHeight, plane[..], x / 16, y / 16))
              && (room < Needed(planeHeight, dx, dy) ==> Missed(planeHeight, old(plane[..]), plane[..], x / 16, y / 16))
              && left <= room && (Cost(planeHeight, dx, dy) <= room ==> left == room - Cost(planeHeight, dx, dy))
    {
      hide Agree, WellFormed, PlaneSize, S16, Wrap16, Missed, Needed, Cost;
      var redraw := forceRedraw || firstUpdate;
      ghost var (dx, dy) := Distance(x, y, redraw);
      ghost var shown := Jump(dx, dy) || whole;
      firstUpdate := false;
      if redraw {
        posX := x;
        posY := (y - 256) % WRAP32;
        lastXT := Wrap16(posX / 16);
        lastYT := Wrap16(posY / 16);
        RedrawColumns(x);
        RedrawRows(y);
      }
      if Jump(dx, dy) {
        JumpOverlap(data, planeHeight, plane[..], S16(x / 16), S16(y / 16), dx, dy);
      } else if whole {
        OldOverlap(data, planeHeight, plane[..], lastXT, lastYT, S16(x / 16), S16(y / 16));
      }
      ghost var p := plane[..];
      left := UpdateMap(S16(x / 16), S16(y / 16), room, shown, dx, dy);
      whole := shown && Needed(planeHeight, dx, dy) <= room;
      if whole {
        WindowAt(data, planeHeight, plane[..], x / 16, y / 16);
      }
      if room < Needed(planeHeight, dx, dy) {
        RegisterTwice(x / 16);
        RegisterTwice(y / 16);
        MissedSame(planeHeight, p, plane[..], S16(x / 16), S16(y / 16), x / 16, y / 16);
      }
      posX, posY := x, y;
    }

    /** Call `i` draws the whole window, and it and all calls up to `n` find the room they need. */
    ghost predicate Redrawn(calls: seq<Scroll>, first: bool, i: nat, n: nat) {
      && i < n <= |calls|
      && (calls[i].redraw || (i == 0 && first))
      && forall j :: i <= j < n ==> MOST <= calls[j].room
    }

    /** Any sequence of scrolls leaves the plane showing the window of the last one, provided the calls
        since some redraw (the first call is one) all found room: those before it do not matter. */
    method ScrollAll(calls: seq<Scroll>)
      requires Valid()
      requires forall i :: 0 <= i < |calls| ==> calls[i].x < WRAP32 && calls[i].y < WRAP32
      modifies this, plane
      ensures Valid()
      ensures forall i: nat :: Redrawn(calls, old(firstUpdate), i, |calls|) ==>
                whole && Window(data, planeHeight, plane[..], calls[|calls| - 1].x / 16, calls[|calls| - 1].y / 16)
    {
      hide Window, Needed, Cost;
      var n := 0;
      while n < |calls|
        invariant n <= |calls| && Valid()
        invariant firstUpdate == (n == 0 && old(firstUpdate))
        invariant n > 0 ==> !firstUpdate
        invariant whole && n > 0 ==> Window(data, planeHeight, plane[..], calls[n - 1].x / 16, calls[n - 1].y / 16)
        invariant forall i: nat :: Redrawn(calls, old(firstUpdate), i, n) ==> whole
      {
        ghost var (dx, dy) := Distance(calls[n].x, calls[n].y, calls[n].redraw || firstUpdate);
        NeededBound(planeHeight, dx, dy);
        ghost var was := whole;
        var _ := ScrollToEx(calls[n].x, calls[n].y, calls[n].redraw, calls[n].room);
        n := n + 1;
        forall i: nat | Redrawn(calls, old(firstUpdate), i, n) ensures whole {
          assert MOST <= calls[n - 1].room;
          if i < n - 1 {
            assert Redrawn(calls, old(firstUpdate), i, n - 1);
          }
        }
      }
    }
  }

  lemma {:induction false} OldOverlap(d: MapData, ph: nat, plane: seq<u16>, lastXT: u16, lastYT: u16, xt: s16, yt: s16)
    requires Window(d, ph, plane, lastXT, lastYT)
    ensures Overlap(d, ph, plane, xt, yt, S16(xt - S16(lastXT)), S16(yt - S16(lastYT)))
  {
    hide Agree, S16;
    var dx, dy := S16(xt - S16(lastXT)), S16(yt - S16(lastYT));
    LastIs(xt, lastXT);
    LastIs(yt, lastYT);
    WindowSame(d, ph, plane, lastXT, lastYT, xt - dx, yt - dy);
    SmallerAgrees(d, ph, plane, xt - dx, xt - dx + 21, yt - dy, yt - dy + 16,
                  Max(xt - dx, xt), Min(xt - dx, xt) + 21, Max(yt - dy, yt), Min(yt - dy, yt) + 16);
  }

  lemma LastIs(xt: s16, last: u16)
    ensures S16(last) == S16(xt - S16(xt - S16(last)))
  {
    hide S16;
    S16Minus(xt, xt - S16(last));
    S16Step(last, 0);
  }

  /** A redraw pretends that the last position was a whole window above the new one. */
  lemma RedrawRows(y: nat)
    requires y < WRAP32
    ensures S16(S16(y / 16) - S16(Wrap16((y - 256) % WRAP32 / 16))) == 16
  {
    hide S16, Wrap16;
    var a, b := y / 16, (y - 256) % WRAP32 / 16;
    WindowAbove(y);
    S16OfWrap(b);
    S16Minus(S16(a), b);
    S16Step(a, -b);
    S16Turns(16, if y >= 256 then 0 else -0x1000);
    S16Is(16, 0);
  }

  lemma WindowAbove(y: nat)
    requires y < WRAP32
    ensures (y - 256) % WRAP32 / 16 == y / 16 - 16 + if y >= 256 then 0 else 0x1000_0000
  {
    if y >= 256 {
      DivUnique(y - 256, WRAP32, 0, y - 256);
      DivUnique(y - 256, 16, y / 16 - 16, y % 16);
    } else {
      DivUnique(y - 256, WRAP32, -1, y - 256 + WRAP32);
      DivUnique(y - 256 + WRAP32, 16, y / 16 - 16 + 0x1000_0000, y % 16);
    }
  }

  lemma RedrawColumns(x: nat)
    requires x < WRAP32
    ensures S16(S16(x / 16) - S16(Wrap16(x / 16))) == 0
  {
    hide S16, Wrap16;
    S16OfWrap(x / 16);
    S16Is(0, 0);
  }

  lemma WindowAt(d: MapData, ph: nat, plane: seq<u16>, x: nat, y: nat)
    requires Window(d, ph, plane, S16(x), S16(y))
    ensures Window(d, ph, plane, x, y)
    ensures Window(d, ph, plane, Wrap16(S16(x)), Wrap16(S16(y)))
  {
    hide Window;
    RegisterTwice(x);
    RegisterTwice(y);
    WindowSame(d, ph, plane, S16(x), S16(y), x, y);
    WindowSame(d, ph, plane, S16(x), S16(y), Wrap16(S16(x)), Wrap16(S16(y)));
  }

  lemma RegisterTwice(x: int)
    ensures S16(S16(x)) == S16(x) == S16(Wrap16(S16(x)))
  {
  }
}
