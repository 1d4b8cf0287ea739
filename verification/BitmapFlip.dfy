/** The double buffered bitmap of `src/bmp.c`: the main thread draws into one buffer and asks for flips,
    the horizontal interrupt copies the other one to the tiles of the video memory, a few rows at a
    time. Both are modelled as atomic steps on the same state. Pictures and tiles are sequences of
    32-bit words, eight pixels each. */
module BitmapFlip {
  const TILE_WIDTH := 32
  const TILE_HEIGHT := 20
  const LINES := 8
  const LONGS := 5120
  const NTSC_TILES_BW := 7
  const PAL_TILES_BW := 10

  lemma Constants()
    ensures TILE_WIDTH == 32 && TILE_HEIGHT == 20 && LINES == 8 && LONGS == 5120
    ensures NTSC_TILES_BW == 7 && PAL_TILES_BW == 10
  {
  }

  // ----- Pictures and tiles

  /** Word `tx` of line `y` of a picture. */
  function InPicture(y: nat, tx: nat): (i: nat)
    requires y < TILE_HEIGHT * LINES && tx < TILE_WIDTH
    ensures i < LONGS
  {
    y * TILE_WIDTH + tx
  }

  /** Line `k` of tile `tx` of tile row `ty`: a tile is eight words, one after the other. */
  function InTiles(ty: nat, tx: nat, k: nat): (i: nat)
    requires ty < TILE_HEIGHT && tx < TILE_WIDTH && k < LINES
    ensures i < LONGS
  {
    (ty * TILE_WIDTH + tx) * LINES + k
  }

  ghost predicate Same(tiles: seq<int>, picture: seq<int>, ty: nat, tx: nat, k: nat)
    requires ty < TILE_HEIGHT && tx < TILE_WIDTH && k < LINES
  {
    |tiles| == |picture| == LONGS && tiles[InTiles(ty, tx, k)] == picture[InPicture(ty * LINES + k, tx)]
  }

  /** The first `rows` tile rows show the picture. */
  ghost predicate Shows(tiles: seq<int>, picture: seq<int>, rows: nat) {
    && |tiles| == |picture| == LONGS
    && forall ty: nat, tx: nat, k: nat :: ty < rows && ty < TILE_HEIGHT && tx < TILE_WIDTH && k < LINES ==> Same(tiles, picture, ty, tx, k)
  }

  /** Tiles that show a picture: its lines have 32 words, its tiles eight lines of one word, and there are 32 tiles to
      a row. */
  lemma ShowsAt(tiles: seq<int>, picture: seq<int>, x: nat, y: nat)
    requires Shows(tiles, picture, 20) && x < 32 && y < 160
    ensures 8 * (32 * (y / 8) + x) + y % 8 < |tiles| && 32 * y + x < |picture|
    ensures tiles[8 * (32 * (y / 8) + x) + y % 8] == picture[32 * y + x]
  {
    Constants();
    assert y == 8 * (y / 8) + y % 8;
    TileAddress(y / 8, x, y % 8);
    assert Same(tiles, picture, y / 8, x, y % 8);
  }

  /** The first `n` words of the tiles are those of the picture, in the order they are sent. */
  ghost predicate Sent(tiles: seq<int>, picture: seq<int>, n: nat) {
    && |tiles| == |picture| == LONGS
    && forall ty: nat, tx: nat, k: nat ::
         ty < TILE_HEIGHT && tx < TILE_WIDTH && k < LINES && InTiles(ty, tx, k) < n ==> Same(tiles, picture, ty, tx, k)
  }

  lemma SentRows(tiles: seq<int>, picture: seq<int>, rows: nat)
    requires rows <= TILE_HEIGHT
    ensures Sent(tiles, picture, rows * 256) <==> Shows(tiles, picture, rows)
  {
    forall ty: nat, tx: nat, k: nat | ty < TILE_HEIGHT && tx < TILE_WIDTH && k < LINES
      ensures InTiles(ty, tx, k) < rows * 256 <==> ty < rows
    {
    }
  }

  /** Where a word of the tiles belongs is determined by its address. */
  lemma TilesUnique(ty: nat, tx: nat, k: nat, ty': nat, tx': nat, k': nat)
    requires ty < TILE_HEIGHT && tx < TILE_WIDTH && k < LINES && ty' < TILE_HEIGHT && tx' < TILE_WIDTH && k' < LINES
    ensures InTiles(ty, tx, k) == InTiles(ty', tx', k') ==> ty == ty' && tx == tx' && k == k'
  {
  }

  /** One more word sent. */
  lemma SentStep(tiles: seq<int>, picture: seq<int>, ty: nat, tx: nat, k: nat)
    requires ty < TILE_HEIGHT && tx < TILE_WIDTH && k < LINES && Sent(tiles, picture, InTiles(ty, tx, k))
    ensures Sent(tiles[InTiles(ty, tx, k) := picture[InPicture(ty * LINES + k, tx)]], picture, InTiles(ty, tx, k) + 1)
  {
    var at := InTiles(ty, tx, k);
    var tiles' := tiles[at := picture[InPicture(ty * LINES + k, tx)]];
    forall ty': nat, tx': nat, k': nat | ty' < TILE_HEIGHT && tx' < TILE_WIDTH && k' < LINES && InTiles(ty', tx', k') < at + 1
      ensures Same(tiles', picture, ty', tx', k')
    {
      hide InTiles, InPicture;
      TilesUnique(ty, tx, k, ty', tx', k');
      if InTiles(ty', tx', k') != at {
        assert Same(tiles, picture, ty', tx', k');
      }
    }
  }

  /** The transfer of one tile row: the words of tile row `ty` are sent to address `at` on. */
  method TransferRow(tiles0: seq<int>, src: seq<int>, ty: nat, at: nat) returns (tiles: seq<int>)
    requires ty < TILE_HEIGHT && at == ty * 256 && Sent(tiles0, src, at)
    ensures Sent(tiles, src, at + 256)
  {
    hide Sent, InTiles, InPicture;
    Constants();
    tiles := tiles0;
    var dst, x: nat := at, 0;
    while x < TILE_WIDTH
      invariant x <= TILE_WIDTH && dst == at + 8 * x && Sent(tiles, src, dst)
    {
      var k: nat := 0;
      while k < LINES
        invariant k <= LINES && dst == at + 8 * x + k && Sent(tiles, src, dst)
      {
        SentSize(tiles, src);
        TileAddress(ty, x, k);
        SentStep(tiles, src, ty, x, k);
        tiles := tiles[dst := src[256 * ty + 32 * k + x]];
        dst := dst + 1;
        k := k + 1;
      }
      x := x + 1;
    }
  }

  /** The loop of `doBlit`: `i` tile rows from row `start` on. */
  method TransferRows(tiles0: seq<int>, src: seq<int>, start: nat, i: nat) returns (tiles: seq<int>)
    requires start + i <= TILE_HEIGHT && Shows(tiles0, src, start)
    ensures Shows(tiles, src, start + i) && |tiles| == LONGS
  {
    hide Sent, Shows;
    Constants();
    tiles := tiles0;
    SentRows(tiles, src, start);
    var row := start;
    while row < start + i
      invariant start <= row <= start + i && Sent(tiles, src, row * 256)
    {
      tiles := TransferRow(tiles, src, row, row * 256);
      row := row + 1;
    }
    SentRows(tiles, src, row);
    SentSize(tiles, src);
  }

  lemma SentSize(tiles: seq<int>, picture: seq<int>)
    requires exists n: nat :: Sent(tiles, picture, n)
    ensures |tiles| == |picture| == LONGS
  {
  }

  lemma TileAddress(ty: nat, x: nat, k: nat)
    requires ty < TILE_HEIGHT && x < TILE_WIDTH && k < LINES
    ensures InTiles(ty, x, k) == ty * 256 + 8 * x + k < LONGS
    ensures InPicture(ty * LINES + k, x) == 256 * ty + 32 * k + x < LONGS
  {
  }

  // ----- The state machine

  /** What a call of `BMP_flip` comes to: it waits while a flip is pending. */
  datatype FlipResult = Waits | Pending | Started

  /** The number of calls a blit takes, and of tile rows each of them sends at most. */
  function Calls(pal: bool): nat {
    if pal then 2 else 3
  }

  function RowsPerCall(pal: bool): nat {
    if pal then PAL_TILES_BW else NTSC_TILES_BW
  }

  /** All of the state but the bits of the main thread's current picture. */
  datatype Flips = Flips(
    read: nat, write: nat, flipping: bool, blitting: bool, waiting: bool, pos: nat, displayed: nat,
    frozen: seq<int>, shown: seq<int>, calls: nat, tiles: seq<seq<int>>)

  /** The part of the video memory that the read buffer goes to. */
  function TargetOf(doubleBuffer: bool, read: nat): nat {
    if doubleBuffer && read == 1 then 1 else 0
  }

  /** A flip or a blit goes on only while flipping; the rows blitted so far show the picture frozen when
      its flip began; and what is displayed is a whole picture, with two buffers at all times, with one
      whenever no blit is going on. */
  ghost predicate Consistent(doubleBuffer: bool, pal: bool, f: Flips) {
    && f.read < 2 && f.write == 1 - f.read
    && (f.waiting ==> f.flipping) && (f.blitting ==> f.flipping)
    && |f.tiles| == 2 && |f.tiles[0]| == |f.tiles[1]| == |f.frozen| == LONGS
    && (if f.blitting then 0 < f.calls < Calls(pal) && f.pos == f.calls * RowsPerCall(pal) else f.calls == 0)
    && (f.blitting ==> Shows(f.tiles[TargetOf(doubleBuffer, f.read)], f.frozen, f.pos))
    && f.displayed == (if !doubleBuffer then 0 else if f.flipping then 1 - f.read else f.read)
    && (doubleBuffer || !f.blitting ==> Shows(f.tiles[f.displayed], f.shown, TILE_HEIGHT))
  }

  lemma TargetIs(doubleBuffer: bool, read: nat)
    ensures TargetOf(doubleBuffer, read) == if doubleBuffer && read == 1 then 1 else 0
  {
  }

  lemma RowsAre(pal: bool, f: Flips)
    requires StartOf(f) < TILE_HEIGHT
    ensures StartOf(f) == if f.blitting then f.pos else 0
    ensures RowsOf(pal, StartOf(f)) ==
            var bw := if pal then PAL_TILES_BW else NTSC_TILES_BW;
            if TILE_HEIGHT - StartOf(f) < bw then TILE_HEIGHT - StartOf(f) else bw
  {
  }

  /** The rows a call of `doBlit` begins with and sends. */
  function StartOf(f: Flips): nat {
    if f.blitting then f.pos else 0
  }

  function RowsOf(pal: bool, start: nat): nat
    requires start <= TILE_HEIGHT
  {
    if TILE_HEIGHT - start < RowsPerCall(pal) then TILE_HEIGHT - start else RowsPerCall(pal)
  }

  lemma BlitStart(doubleBuffer: bool, pal: bool, f: Flips)
    requires Consistent(doubleBuffer, pal, f) && f.flipping
    ensures f.read < 2 && |f.tiles| == 2 && |f.tiles[0]| == |f.tiles[1]| == LONGS && TargetOf(doubleBuffer, f.read) < 2
    ensures StartOf(f) < TILE_HEIGHT && Shows(f.tiles[TargetOf(doubleBuffer, f.read)], f.frozen, StartOf(f))
  {
  }

  /** One more call: the last one is always the same. */
  lemma BlitMore(doubleBuffer: bool, pal: bool, f: Flips, dest: seq<int>)
    requires Consistent(doubleBuffer, pal, f) && f.flipping && StartOf(f) < TILE_HEIGHT && |dest| == LONGS
    requires Shows(dest, f.frozen, StartOf(f) + RowsOf(pal, StartOf(f)))
    ensures |f.tiles| == 2 && TargetOf(doubleBuffer, f.read) < 2
    ensures var pos, calls := StartOf(f) + RowsOf(pal, StartOf(f)), f.calls + 1;
            && (pos == TILE_HEIGHT <==> calls == Calls(pal)) && pos <= TILE_HEIGHT
            && (pos < TILE_HEIGHT ==>
                  Consistent(doubleBuffer, pal, f.(blitting := true, pos := pos, calls := calls,
                                                   tiles := f.tiles[TargetOf(doubleBuffer, f.read) := dest])))
  {
    hide Shows;
  }

  /** The state after the last call, without and with a pending flip. */
  lemma BlitDone(doubleBuffer: bool, pal: bool, f: Flips, tiles: seq<seq<int>>, pos: nat, next: seq<int>)
    requires Consistent(doubleBuffer, pal, f) && f.flipping
    requires |tiles| == 2 && |tiles[0]| == |tiles[1]| == |next| == LONGS
    requires Shows(tiles[TargetOf(doubleBuffer, f.read)], f.frozen, TILE_HEIGHT)
    ensures var g := f.(blitting := false, pos := pos, calls := 0, tiles := tiles, waiting := false,
                        displayed := TargetOf(doubleBuffer, f.read), shown := f.frozen);
            && Consistent(doubleBuffer, pal, g.(flipping := false))
            && Consistent(doubleBuffer, pal, g.(flipping := true, read := f.write, write := f.read, frozen := next))
  {
    hide Shows;
  }

  /** The rows one call of `doBlit` sends, and the row it stops at. */
  method SendRows(pal: bool, tiles: seq<int>, src: seq<int>, start: nat) returns (dest: seq<int>, end: nat)
    requires start < TILE_HEIGHT && Shows(tiles, src, start)
    ensures end == start + RowsOf(pal, start) && Shows(dest, src, end) && |dest| == LONGS
  {
    hide Shows;
    var remain := TILE_HEIGHT - start;
    var bw := if pal then PAL_TILES_BW else NTSC_TILES_BW;
    var i := if remain < bw then remain else bw;
    dest := TransferRows(tiles, src, start, i);
    end := start + i;
  }

  /** The steps of the main thread and of the interrupts. */
  datatype Step = Drawing(at: nat, value: int) | FlipRequest | BufferCopy(on: bool) | VInterrupt | HInterrupt

  class Bitmap {
    const doubleBuffer: bool
    const pal: bool
    var copyBuffer: bool
    var buffers: seq<seq<int>>
    var read: nat
    var write: nat
    var flipping: bool
    var blitting: bool
    var waiting: bool
    var pos: nat
    var phase: int
    /** The tiles of both frame buffers in video memory, and the one scrolled into view. */
    var tiles: seq<seq<int>>
    var displayed: nat

    /** The picture of the flip going on, the one displayed, and the calls the blit has taken. */
    ghost var frozen: seq<int>
    ghost var shown: seq<int>
    ghost var calls: nat
    /** The pictures of all flips so far, after the cleared one. */
    ghost var log: seq<seq<int>>

    ghost function State(): Flips
      reads this
    {
      Flips(read, write, flipping, blitting, waiting, pos, displayed, frozen, shown, calls, tiles)
    }

    ghost predicate Valid()
      reads this
    {
      && Consistent(doubleBuffer, pal, State())
      && |buffers| == 2 && |buffers[0]| == |buffers[1]| == LONGS && read < 2 && write == 1 - read
      && frozen == buffers[read]
      && (!doubleBuffer ==> displayed == 0)
      && Logged(log, frozen, shown, flipping)
    }

    /** `BMP_init`: everything is cleared. */
    constructor (doubleBuffer: bool, pal: bool)
      ensures Valid() && !flipping && this.doubleBuffer == doubleBuffer && this.pal == pal
      ensures log == [seq(LONGS, _ => 0)]
    {
      this.doubleBuffer, this.pal, copyBuffer := doubleBuffer, pal, false;
      var clear := seq(LONGS, _ => 0);
      buffers, read, write := [clear, clear], 0, 1;
      flipping, blitting, waiting, pos, phase := false, false, false, 0, -1;
      tiles, displayed := [clear, clear], 0;
      frozen, shown, calls, log := clear, clear, 0, [clear];
    }

    /** What `State` and `Valid` stand for. */
    lemma StateIs()
      ensures State() == Flips(read, write, flipping, blitting, waiting, pos, displayed, frozen, shown, calls, tiles)
      ensures Valid() <==>
                && Consistent(doubleBuffer, pal, State())
                && |buffers| == 2 && |buffers[0]| == |buffers[1]| == LONGS && read < 2 && write == 1 - read
                && frozen == buffers[read]
                && (!doubleBuffer ==> displayed == 0)
                && Logged(log, frozen, shown, flipping)
    {
      hide Consistent;
    }

    method SetBufferCopy(value: bool)
      requires Valid()
      modifies `copyBuffer
      ensures Valid() && copyBuffer == value
    {
      copyBuffer := value;
    }

    /** Any drawing of the main thread: it writes to the write buffer. */
    method Draw(at: nat, value: int)
      requires Valid() && at < LONGS
      modifies `buffers
      ensures Valid() && buffers == old(buffers)[write := old(buffers)[write][at := value]]
    {
      hide Shows;
      buffers := buffers[write := buffers[write][at := value]];
    }

    /** `flipBuffer`: the picture drawn becomes the one to be shown. */
    method FlipBuffer()
      requires read < 2 && write == 1 - read && |buffers| == 2
      modifies `buffers, `read, `write, `frozen, `log
      ensures read == old(write) && write == old(read) && |buffers| == 2 && log == old(log) + [frozen]
      ensures frozen == old(buffers[write]) == buffers[read]
      ensures buffers == if copyBuffer then [frozen, frozen] else old(buffers)
    {
      if read == 0 {
        read, write := 1, 0;
      } else {
        read, write := 0, 1;
      }
      if copyBuffer {
        buffers := buffers[write := buffers[read]];
      }
      frozen := buffers[read];
      log := log + [frozen];
    }

    /** `BMP_flip`. */
    method Flip() returns (result: FlipResult)
      requires Valid()
      modifies `waiting, `flipping, `buffers, `read, `write, `frozen, `log
      ensures Valid() && log == if result == Started then old(log) + [frozen] else old(log)
      ensures result == (if old(waiting) then Waits else if old(flipping) then Pending else Started)
      ensures flipping == (old(flipping) || result == Started) && waiting == (old(waiting) || result == Pending)
      ensures result == Started ==> frozen == old(buffers[write])
      ensures result != Started ==> frozen == old(frozen) && buffers == old(buffers)
    {
      hide Shows, Logged;
      LoggedFlip(log, frozen, shown, flipping, buffers[write]);
      if waiting {
        return Waits;
      }
      if flipping {
        waiting := true;
        return Pending;
      }
      FlipBuffer();
      flipping := true;
      result := Started;
    }

    /** `doBlit`: some more rows are sent, from where the last call stopped. */
    method DoBlit() returns (done: bool)
      requires Valid() && flipping
      modifies `tiles, `blitting, `pos, `calls
      ensures done <==> old(calls) + 1 == Calls(pal)
      ensures blitting == !done && calls == (if done then 0 else old(calls) + 1)
      ensures !done ==> Valid() && pos == (if old(blitting) then old(pos) else 0) + (if pal then 10 else 7)
      ensures |tiles| == 2 && |tiles[0]| == |tiles[1]| == LONGS
      ensures |old(tiles)| == 2 && tiles == old(tiles)[TargetOf(doubleBuffer, read) := tiles[TargetOf(doubleBuffer, read)]]
      ensures done ==> Shows(tiles[TargetOf(doubleBuffer, read)], buffers[read], TILE_HEIGHT)
    {
      hide *;
      Constants();
      StateIs();
      TargetIs(doubleBuffer, read);
      ghost var f := State();
      BlitStart(doubleBuffer, pal, f);
      RowsAre(pal, f);
      var target := TargetOf(doubleBuffer, read);
      var dest, end := SendRows(pal, tiles[target], buffers[read], if blitting then pos else 0);
      BlitMore(doubleBuffer, pal, f, dest);
      done := end == TILE_HEIGHT;
      tiles, pos, blitting, calls := tiles[target := dest], end, !done, if done then 0 else calls + 1;
      StateIs();
    }

    /** The end of `doFlip`, once the blit of the picture frozen in state `f` is complete: the picture is
        displayed, and the pending flip, if there is one, begins. */
    method Complete(ghost f: Flips)
      requires Consistent(doubleBuffer, pal, f) && f.flipping
      requires State() == f.(tiles := tiles, blitting := false, pos := pos, calls := 0)
      requires |tiles| == 2 && |tiles[0]| == |tiles[1]| == LONGS
      requires |buffers| == 2 && |buffers[0]| == |buffers[1]| == LONGS && read < 2 && write == 1 - read
      requires frozen == buffers[read] && (!doubleBuffer ==> displayed == 0) && Logged(log, frozen, shown, flipping)
      requires Shows(tiles[TargetOf(doubleBuffer, read)], frozen, TILE_HEIGHT)
      modifies `displayed, `flipping, `waiting, `buffers, `read, `write, `frozen, `shown, `log
      ensures Valid() && log == if f.waiting then old(log) + [frozen] else old(log)
      ensures shown == f.frozen && displayed == TargetOf(doubleBuffer, f.read)
      ensures flipping == f.waiting && !waiting
      ensures frozen == (if f.waiting then old(buffers[write]) else f.frozen)
    {
      hide *;
      StateIs();
      TargetIs(doubleBuffer, read);
      BlitDone(doubleBuffer, pal, f, tiles, pos, buffers[write]);
      LoggedDone(log, frozen, shown, buffers[write]);
      shown := frozen;
      if doubleBuffer {
        displayed := if read == 0 then 0 else 1;
      }
      if waiting {
        FlipBuffer();
        waiting := false;
      } else {
        flipping := false;
      }
      StateIs();
    }

    /** `doFlip`: one call in the vertical border. */
    method DoFlip() returns (completed: bool)
      requires Valid() && flipping
      modifies this
      ensures Valid() && phase == old(phase) && copyBuffer == old(copyBuffer)
      ensures log == if completed && old(waiting) then old(log) + [frozen] else old(log)
      ensures completed <==> old(calls) + 1 == Calls(pal)
      ensures !completed ==> flipping && calls == old(calls) + 1 && shown == old(shown) && frozen == old(frozen) && buffers == old(buffers) && waiting == old(waiting)
      ensures completed ==>
                && shown == old(frozen) && displayed == old(TargetOf(doubleBuffer, read))
                && Shows(tiles[displayed], shown, TILE_HEIGHT)
                && flipping == old(waiting) && !waiting && !blitting
                && frozen == (if old(waiting) then old(buffers[write]) else old(frozen))
    {
      hide *;
      ghost var f := State();
      StateIs();
      BlitStart(doubleBuffer, pal, f);
      completed := DoBlit();
      StateIs();
      if completed {
        Complete(f);
      }
    }

    /** `BMP_doVBlankProcess`. */
    method VBlank()
      requires Valid()
      modifies `phase
      ensures Valid() && phase == 0
    {
      phase := 0;
    }

    /** `hint`: the third interrupt of a frame, at the lower border, carries the flip on. */
    method HInt() returns (completed: bool)
      requires Valid()
      modifies this
      ensures Valid() && old(log) <= log
      ensures phase == (if 0 <= old(phase) <= 2 then old(phase) + 1 else old(phase))
      ensures completed <==> old(phase) == 2 && old(flipping) && old(calls) + 1 == Calls(pal)
      ensures completed ==> shown == old(frozen) && Shows(tiles[displayed], shown, TILE_HEIGHT)
      ensures !completed ==> shown == old(shown)
    {
      hide Shows;
      completed := false;
      if phase == 0 {
        phase := 1;
      } else if phase == 1 {
        phase := 2;
      } else if phase == 2 {
        phase := 3;
        if flipping {
          completed := DoFlip();
        }
      }
    }

    /** Any interleaving of the main thread and the interrupts. The log only grows; what is displayed, with two
        buffers at every moment and with one whenever no blit is going on, is the picture of the last flip
        completed: the last of the log, or the last but one while a flip is going on. */
    method Run(steps: seq<Step>)
      requires Valid()
      modifies this
      ensures Valid() && old(log) <= log && displayed < |tiles|
      ensures |log| > (if flipping then 1 else 0)
      ensures doubleBuffer || !blitting ==>
                Shows(tiles[displayed], log[|log| - 1 - (if flipping then 1 else 0)], TILE_HEIGHT)
      ensures read < |buffers| && buffers[read] == log[|log| - 1]
    {
      hide *;
      for i := 0 to |steps|
        invariant Valid() && old(log) <= log
      {
        Take(steps[i]);
      }
      StateIs();
      LoggedIs(log, frozen, shown, flipping);
      DisplayedWhole(doubleBuffer, pal, State());
    }

    method Take(step: Step)
      requires Valid()
      modifies this
      ensures Valid() && old(log) <= log
    {
      hide *;
      match step
      case Drawing(at, value) =>
        if at < LONGS {
          Draw(at, value);
        }
      case FlipRequest =>
        var result := Flip();
      case BufferCopy(on) =>
        SetBufferCopy(on);
      case VInterrupt =>
        VBlank();
      case HInterrupt =>
        var completed := HInt();
    }
  }

  /** The last picture of the log is the one frozen last; the one displayed is that, or while a flip is going
      on the one before. */
  ghost predicate Logged(log: seq<seq<int>>, frozen: seq<int>, shown: seq<int>, flipping: bool) {
    && |log| > (if flipping then 1 else 0)
    && frozen == log[|log| - 1]
    && shown == log[|log| - 1 - (if flipping then 1 else 0)]
  }

  lemma LoggedIs(log: seq<seq<int>>, frozen: seq<int>, shown: seq<int>, flipping: bool)
    requires Logged(log, frozen, shown, flipping)
    ensures |log| > (if flipping then 1 else 0)
    ensures frozen == log[|log| - 1] && shown == log[|log| - 1 - (if flipping then 1 else 0)]
  {
  }

  lemma LoggedFlip(log: seq<seq<int>>, frozen: seq<int>, shown: seq<int>, flipping: bool, next: seq<int>)
    requires Logged(log, frozen, shown, flipping)
    ensures !flipping ==> Logged(log + [next], next, shown, true)
  {
  }

  lemma LoggedDone(log: seq<seq<int>>, frozen: seq<int>, shown: seq<int>, next: seq<int>)
    requires Logged(log, frozen, shown, true)
    ensures Logged(log, frozen, frozen, false) && Logged(log + [next], next, frozen, true)
  {
  }

  lemma DisplayedWhole(doubleBuffer: bool, pal: bool, f: Flips)
    requires Consistent(doubleBuffer, pal, f)
    ensures f.displayed < |f.tiles| && (doubleBuffer || !f.blitting ==> Shows(f.tiles[f.displayed], f.shown, TILE_HEIGHT))
  {
  }
}
