/** The tile allocator of `src/vram.c`. A region of VRAM tiles is mirrored by an array with one word
    per tile; a word that starts a block holds its size and its used flag. */
module Vram {
  import opened Blocks
  import opened Machine

  // ----- Specification

  /** `free` is a word of the region, not a block: a failed allocation packs the blocks under it. */
  datatype RegionState = RegionState(blocks: seq<Block>, free: nat)

  ghost predicate Inv(r: RegionState, size: nat) {
    && Sized(r.blocks)
    && Words(r.blocks) == size <= MAX_SIZE
    && r.free <= size
    && (BlockAt(r.blocks, 0, r.free) < |r.blocks| ==> !r.blocks[BlockAt(r.blocks, 0, r.free)].used)
  }

  function InitRegion(size: nat): RegionState {
    RegionState(if size == 0 then [] else [Block(size, false)], 0)
  }

  /** The block at `free` starts a block of at least `n` tiles. */
  predicate FitsAtFree(r: RegionState, n: nat) {
    var k := BlockAt(r.blocks, 0, r.free);
    k < |r.blocks| && !r.blocks[k].used && n <= r.blocks[k].size
  }

  /** The first `n` tiles of block `k` put to use, the search moved to the next unused block. */
  function TakeFrom(bs: seq<Block>, k: nat, n: nat): RegionState
    requires k < |bs| && n <= bs[k].size
  {
    var r := Place(bs, k, n);
    RegionState(r, if n < bs[k].size then Words(bs[..k]) + n else Words(bs[..NextFree(bs, k + 1)]))
  }

  /** The region after an allocation, and the first tile given out. */
  function AllocRegion(r: RegionState, n: nat): (RegionState, Option<nat>) {
    if FitsAtFree(r, n) then
      var k := BlockAt(r.blocks, 0, r.free);
      (TakeFrom(r.blocks, k, n), Some(r.free))
    else
      var (cs, k) := PackTo(r.blocks, 0, n);
      if k.Some? && k.value < |cs| && n <= cs[k.value].size then
        (TakeFrom(cs, k.value, n), Some(Words(cs[..k.value])))
      else
        (RegionState(cs, r.free), None)
  }

  /** Tile `p` starts a block in use. */
  predicate Owns(r: RegionState, p: nat) {
    var k := BlockAt(r.blocks, 0, p);
    k < |r.blocks| && r.blocks[k].used
  }

  function FreeRegion(r: RegionState, p: nat): RegionState
    requires Owns(r, p)
  {
    RegionState(Release(r.blocks, BlockAt(r.blocks, 0, p)), r.free)
  }

  // ----- Allocation is complete

  /** An allocation fails exactly when no run of adjacent unused blocks has `n` tiles, wherever
      `free` was left. */
  lemma AllocComplete(r: RegionState, size: nat, n: nat)
    requires Inv(r, size) && 0 < n
    ensures AllocRegion(r, n).1.None? <==> !HasRun(r.blocks, n)
  {
    MaxRunMeaning(r.blocks, n);
    hide Words, MaxRun, TailRun, HasRun, PackTo, Sized;
    if FitsAtFree(r, n) {
      BlockIsRun(r.blocks, BlockAt(r.blocks, 0, r.free), n);
    } else {
      NothingWalked(r.blocks);
      PackToFacts(r.blocks, 0, n);
    }
  }

  lemma NothingWalked(bs: seq<Block>)
    ensures MaxRun(bs[..0]) == 0 && TailRun(bs[..0]) == 0
  {
  }

  lemma BlockIsRun(bs: seq<Block>, k: nat, n: nat)
    requires k < |bs| && !bs[k].used && n <= bs[k].size
    ensures HasRun(bs, n) && n <= MaxRun(bs)
  {
    assert bs[k..k + 1] == [bs[k]];
    assert IsRun(bs, k, k + 1, n);
    RunBelowMax(bs, k, k + 1, n);
  }

  // ----- Every operation keeps the invariant

  lemma InitInv(size: nat)
    requires size <= MAX_SIZE
    ensures Inv(InitRegion(size), size)
  {
  }

  lemma {:induction false} TakeInv(bs: seq<Block>, size: nat, k: nat, n: nat)
    requires Sized(bs) && Words(bs) == size <= MAX_SIZE
    requires k < |bs| && !bs[k].used && 0 < n <= bs[k].size
    ensures Inv(TakeFrom(bs, k, n), size)
  {
    hide Words, Sized, BlockAt, Place, NextFree;
    var r := Place(bs, k, n);
    PlaceWords(bs, k, n);
    PlacePacked(bs, k, n);
    TakeFree(bs, k, n);
    var j := if n < bs[k].size then k + 1 else NextFree(r, k + 1);
    StartsBelow(r, j);
    if j < |r| {
      BlockAtStart(r, 0, j);
    } else {
      BlockAtEnd(r, 0);
    }
  }

  lemma StartsBelow(bs: seq<Block>, j: nat)
    requires j <= |bs|
    ensures Words(bs[..j]) <= Words(bs)
    ensures j == |bs| ==> Words(bs[..j]) == Words(bs)
  {
    assert bs == bs[..j] + bs[j..];
    WordsAppend(bs[..j], bs[j..]);
  }

  lemma {:induction false} BlockAtEnd(bs: seq<Block>, base: nat)
    requires Sized(bs)
    ensures BlockAt(bs, base, base + Words(bs)) == |bs|
  {
    if bs != [] {
      assert Sized(bs[1..]);
      BlockAtEnd(bs[1..], base + bs[0].size);
    }
  }

  /** Where `TakeFrom` leaves `free`, as an index of the new blocks. */
  lemma TakeFree(bs: seq<Block>, k: nat, n: nat)
    requires k < |bs| && !bs[k].used && 0 < n <= bs[k].size
    ensures var r := Place(bs, k, n);
            var j := if n < bs[k].size then k + 1 else NextFree(r, k + 1);
            && j <= |r|
            && (j < |r| ==> !r[j].used)
            && TakeFrom(bs, k, n).free == Words(r[..j])
  {
    var r := Place(bs, k, n);
    hide Words;
    if n < bs[k].size {
      assert r[k + 1] == Block(bs[k].size - n, false);
      assert r[..k] == bs[..k] && r[k] == Block(n, true);
      WordsStep(r, k);
    } else {
      PlaceWhole(bs, k, k + 1);
      PlaceWhole(bs, k, NextFree(bs, k + 1));
    }
  }

  lemma {:induction false} PackedSized(bs: seq<Block>, i: nat, n: nat)
    requires Sized(bs) && Words(bs) <= MAX_SIZE && i <= |bs|
    ensures Sized(PackTo(bs, i, n).0)
    decreases |bs| - i
  {
    if i < |bs| {
      PackedSized(bs, i + 1, n);
    }
    StartsBelow(bs, i);
    CoalesceSized(bs[..i]);
  }

  /** A word that does not start a block in use does not start one after packing either. */
  lemma NotOwned(bs: seq<Block>, cs: seq<Block>, p: nat)
    requires Sized(bs) && (BlockAt(bs, 0, p) < |bs| ==> !bs[BlockAt(bs, 0, p)].used)
    requires forall s :: Live(cs, 0, s) ==> Live(bs, 0, s)
    ensures BlockAt(cs, 0, p) < |cs| ==> !cs[BlockAt(cs, 0, p)].used
  {
    var j := BlockAt(cs, 0, p);
    if j < |cs| && cs[j].used {
      var s := Span(p, cs[j].size);
      LiveWhole(cs, j, s);
      hide Live, Words, Sized, BlockAt;
      assert Live(bs, 0, s);
      UsedAt(bs, s);
    }
  }

  lemma UsedAt(bs: seq<Block>, s: Span)
    requires Sized(bs) && Live(bs, 0, s)
    ensures BlockAt(bs, 0, s.start) < |bs| && bs[BlockAt(bs, 0, s.start)].used
  {
    hide Words, BlockAt;
    var k := LiveIndex(bs, 0, s);
    BlockAtStart(bs, 0, k);
  }

  lemma AllocInv(r: RegionState, size: nat, n: nat)
    requires Inv(r, size) && 0 < n
    ensures Inv(AllocRegion(r, n).0, size)
  {
    var bs := r.blocks;
    if FitsAtFree(r, n) {
      TakeInv(bs, size, BlockAt(bs, 0, r.free), n);
    } else {
      var (cs, k) := PackTo(bs, 0, n);
      NothingWalked(bs);
      PackToFacts(bs, 0, n);
      PackedSized(bs, 0, n);
      hide PackTo, Words, Sized, Live;
      if k.Some? {
        TakeInv(cs, size, k.value, n);
      } else {
        forall s | Live(cs, 0, s) ensures Live(bs, 0, s) {
          PackToLive(bs, 0, n, 0, s);
        }
        NotOwned(bs, cs, r.free);
      }
    }
  }

  lemma FreeInv(r: RegionState, size: nat, p: nat)
    requires Inv(r, size) && Owns(r, p)
    ensures Inv(FreeRegion(r, p), size)
  {
    var k := BlockAt(r.blocks, 0, p);
    ReleaseWords(r.blocks, k);
    ReleaseSized(r.blocks, k);
    var cs := Release(r.blocks, k);
    hide Words, Sized, Live;
    forall s | Live(cs, 0, s) ensures Live(r.blocks, 0, s) {
      ReleaseLive(r.blocks, k, s);
    }
    NotOwned(r.blocks, cs, r.free);
  }

  // ----- What an operation does to the live spans

  lemma AllocLive(r: RegionState, size: nat, n: nat, s: Span)
    requires Inv(r, size) && 0 < n
    ensures var (r', p) := AllocRegion(r, n);
            Live(r'.blocks, 0, s) <==> Live(r.blocks, 0, s) || (p.Some? && s == Span(p.value, n))
  {
    var bs := r.blocks;
    if FitsAtFree(r, n) {
      PlaceLive(bs, BlockAt(bs, 0, r.free), n, s);
    } else {
      var (cs, k) := PackTo(bs, 0, n);
      NothingWalked(bs);
      PackToFacts(bs, 0, n);
      PackToLive(bs, 0, n, 0, s);
      hide PackTo, Words, Sized, Live, MaxRun, TailRun;
      if k.Some? {
        PlaceLive(cs, k.value, n, s);
      }
    }
  }

  lemma FreeLive(r: RegionState, size: nat, p: nat, s: Span)
    requires Inv(r, size) && Owns(r, p)
    ensures Live(FreeRegion(r, p).blocks, 0, s) <==> Live(r.blocks, 0, s) && s.start != p
  {
    var k := BlockAt(r.blocks, 0, p);
    ReleaseLive(r.blocks, k, s);
    var t := Span(p, r.blocks[k].size);
    if Live(r.blocks, 0, s) && s != t {
      LiveDisjoint(r.blocks, 0, s, t);
      LiveInside(r.blocks, 0, s);
      LiveInside(r.blocks, 0, t);
    }
  }

  // ----- Whole runs

  datatype Op = Alloc(n: nat) | Free(p: nat)

  /** At least one tile is asked for, and only the start of a block in use is given back. */
  predicate Legal(r: RegionState, op: Op) {
    match op
    case Alloc(n) => 0 < n
    case Free(p) => Owns(r, p)
  }

  function Step(r: RegionState, op: Op): RegionState
    requires Legal(r, op)
  {
    match op
    case Alloc(n) => AllocRegion(r, n).0
    case Free(p) => FreeRegion(r, p)
  }

  /** The spans a client holds after `op`, from the indexes it was given and gave back alone. */
  ghost function Book(held: set<Span>, r: RegionState, op: Op): set<Span>
    requires Legal(r, op)
  {
    match op
    case Alloc(n) =>
      var p := AllocRegion(r, n).1;
      if p.Some? then held + {Span(p.value, n)} else held
    case Free(p) => set s | s in held && s.start != p
  }

  ghost predicate IsRunOf(size: nat, ops: seq<Op>, rs: seq<RegionState>, books: seq<set<Span>>) {
    && |rs| == |books| == |ops| + 1
    && rs[0] == InitRegion(size) && books[0] == {}
    && forall i :: 0 <= i < |ops| ==>
         && Legal(rs[i], ops[i])
         && rs[i + 1] == Step(rs[i], ops[i])
         && books[i + 1] == Book(books[i], rs[i], ops[i])
  }

  /** After every legal run the client's tile ranges are exactly the blocks in use; they lie inside
      the region and do not overlap. */
  lemma {:induction false} EveryRun(size: nat, ops: seq<Op>, rs: seq<RegionState>, books: seq<set<Span>>, i: nat)
    requires size <= MAX_SIZE && IsRunOf(size, ops, rs, books) && i <= |ops|
    ensures Inv(rs[i], size)
    ensures forall s :: Live(rs[i].blocks, 0, s) <==> s in books[i]
    ensures forall s :: s in books[i] ==> 0 < s.size && s.start + s.size <= size
    ensures forall s, t :: s in books[i] && t in books[i] && s != t
                           ==> s.start + s.size <= t.start || t.start + t.size <= s.start
  {
    if i == 0 {
      InitInv(size);
      assert InitRegion(size).blocks == [] || InitRegion(size).blocks[1..] == [];
    } else {
      EveryRun(size, ops, rs, books, i - 1);
      StepKeeps(rs[i - 1], size, ops[i - 1], books[i - 1]);
    }
    BooksInside(rs[i].blocks, size, books[i]);
  }

  lemma StepKeeps(r: RegionState, size: nat, op: Op, held: set<Span>)
    requires Inv(r, size) && Legal(r, op)
    requires forall s :: Live(r.blocks, 0, s) <==> s in held
    ensures Inv(Step(r, op), size)
    ensures forall s :: Live(Step(r, op).blocks, 0, s) <==> s in Book(held, r, op)
  {
    hide Live, Inv, AllocRegion, FreeRegion, Owns;
    match op
    case Alloc(n) =>
      AllocInv(r, size, n);
      forall s ensures Live(Step(r, op).blocks, 0, s) <==> s in Book(held, r, op) {
        AllocLive(r, size, n, s);
      }
    case Free(p) =>
      FreeInv(r, size, p);
      forall s ensures Live(Step(r, op).blocks, 0, s) <==> s in Book(held, r, op) {
        FreeLive(r, size, p, s);
      }
  }

  // ----- The region in memory

  /** Packing may leave the search pointer on a word that starts no block: then that word is 0. */
  ghost predicate FreeWordOk(m: seq<u16>, bs: seq<Block>, free: nat) {
    free < |m| && (BlockAt(bs, 0, free) == |bs| ==> m[free] == 0)
  }

  class VramRegion {
    const startIndex: nat
    const endIndex: int
    const vram: array<u16>
    var free: nat

    ghost var blocks: seq<Block>

    ghost function Size(): int {
      endIndex - startIndex + 1
    }

    ghost function State(): RegionState
      reads this
    {
      RegionState(blocks, free)
    }

    ghost predicate Valid()
      reads this, vram
    {
      && 0 <= Size() <= MAX_SIZE && startIndex + Size() <= 0x8000
      && vram.Length == Size() + 1
      && Region(WordCount, vram[..], Size(), blocks)
      && Inv(State(), Size())
      && FreeWordOk(vram[..], blocks, free)
    }

    /** `VRAM_createRegion` and `VRAM_clearRegion`. */
    constructor (startIndex: nat, size: nat)
      requires size <= MAX_SIZE && startIndex + size <= 0x8000
      ensures Valid() && fresh(vram)
      ensures this.startIndex == startIndex && Size() == size && State() == InitRegion(size)
    {
      this.startIndex := startIndex;
      endIndex := startIndex + size - 1;
      vram := new u16[size + 1];
      free := 0;
      blocks := InitRegion(size).blocks;
      new;
      vram[0] := size;
      vram[size] := 0;
      InitInv(size);
      assert blocks == [] || blocks[1..] == [];
      assert Seg(WordCount, vram[..], size, size, []);
    }

    /** `pack`: coalesce from the start of the region until a run of `nsize` tiles is found. */
    static method PackFor(vram: array<u16>, end: nat, nsize: u16, ghost bs: seq<Block>, ghost q: nat)
      returns (p: Option<nat>)
      requires Region(WordCount, vram[..], end, bs) && end <= MAX_SIZE && 0 < nsize
      requires FreeWordOk(vram[..], bs, q) && (BlockAt(bs, 0, q) < |bs| ==> !bs[BlockAt(bs, 0, q)].used)
      modifies vram
      ensures var (cs, k) := PackTo(bs, 0, nsize);
              && Region(WordCount, vram[..], end, cs)
              && (k.None? ==> p.None? && FreeWordOk(vram[..], cs, q))
              && (k.Some? ==> k.value < |cs| && p == Some(Words(cs[..k.value])))
    {
      hide *;
      ghost var m0, i: nat := vram[..], 0;
      var b: nat, best: nat, bsize: u16 := 0, 0, 0;
      AtStart(WordCount, m0, end, bs);
      PackHeader(m0, m0, end, bs, i, b, best, bsize);
      ParkedStart(bs, q, m0);
      while vram[b] != 0
        invariant i <= |bs| && b < vram.Length
        invariant At(WordCount, m0, vram[..], end, bs, i, b, best, bsize)
        invariant Parked(bs, q, vram[..], i, best, bsize)
        invariant PackTo(bs, 0, nsize) == PackTo(bs, i, nsize)
        decreases |bs| - i
      {
        ghost var m := vram[..];
        var psize := vram[b];
        PackHeader(m0, m, end, bs, i, b, best, bsize);
        PackToUnfold(bs, i, nsize);
        if InUse(WordCount, psize) {
          AtUsed(WordCount, m0, m, end, bs, i, b, best, bsize);
          AtStop(WordCount, m0, m, end, bs, i, b, best, bsize);
          ParkedUsed(WordCount, m0, m, end, bs, i, b, best, bsize, q);
          FlushIs(m, best, bsize);
          if bsize != 0 {
            vram[best] := bsize;
            if bsize >= nsize {
              return Some(best);
            }
            bsize := 0;
          }
          b := b + Length(WordCount, psize);
          best := b;
        } else {
          AtFree(WordCount, m0, m, end, bs, i, b, best, bsize);
          ParkedFree(WordCount, m0, m, end, bs, i, b, best, bsize, q);
          Fits16(bsize + psize);
          bsize := Wrap16(bsize + psize);
          vram[b] := 0;
          b := b + psize;
        }
        i := i + 1;
      }
      ghost var m := vram[..];
      PackHeader(m0, m, end, bs, i, b, best, bsize);
      AtStop(WordCount, m0, m, end, bs, i, b, best, bsize);
      PackToUnfold(bs, i, nsize);
      ParkedEnd(m0, m, end, bs, b, best, bsize, q);
      FlushIs(m, best, bsize);
      if bsize != 0 {
        vram[best] := bsize;
        if bsize >= nsize {
          return Some(best);
        }
      }
      p := None;
    }

    /** The walk over blocks in use at the end of `VRAM_alloc`. */
    static method SkipUsed(vram: array<u16>, end: nat, p0: nat, ghost bs: seq<Block>, ghost k0: nat)
      returns (p: nat)
      requires Region(WordCount, vram[..], end, bs) && k0 <= |bs| && p0 == Words(bs[..k0])
      ensures p == Words(bs[..NextFree(bs, k0)])
    {
      hide *;
      ghost var m, k := vram[..], k0;
      p := p0;
      Peek(WordCount, m, end, bs, k);
      while InUse(WordCount, vram[p])
        invariant k0 <= k <= |bs| && p == Words(bs[..k]) <= end < vram.Length
        invariant NextFree(bs, k0) == NextFree(bs, k)
        decreases |bs| - k
      {
        Peek(WordCount, m, end, bs, k);
        NextHere(bs, k);
        p := p + Length(WordCount, vram[p]);
        k := k + 1;
        Peek(WordCount, m, end, bs, k);
      }
      Peek(WordCount, m, end, bs, k);
      NextHere(bs, k);
    }

    /** The end of `VRAM_alloc`: put the first `size` tiles of the block at `p` to use and look for the
        next unused block. */
    static method Take(vram: array<u16>, end: nat, p: nat, size: u16, ghost bs: seq<Block>, ghost k: nat)
      returns (free: nat)
      requires Region(WordCount, vram[..], end, bs) && end <= MAX_SIZE
      requires k < |bs| && !bs[k].used && 0 < size <= bs[k].size && p == Words(bs[..k])
      modifies vram
      ensures Region(WordCount, vram[..], end, Place(bs, k, size))
      ensures free == TakeFrom(bs, k, size).free
      ensures FreeWordOk(vram[..], Place(bs, k, size), free)
    {
      hide *;
      ghost var m := vram[..];
      Peek(WordCount, m, end, bs, k);
      TakeIs(bs, k, size);
      SizeFits();
      free := p + size;
      var remaining := vram[p] - size;
      if remaining > 0 {
        vram[free] := remaining;
      } else {
        free := SkipUsed(vram, end, free, bs, k + 1);
      }
      ghost var m1 := vram[..];
      vram[p] := size + 0x8000;
      TakeWrites(m, end, bs, k, size, m1, vram[..]);
      TakeWord(vram[..], end, bs, k, size);
    }

    /** `VRAM_alloc`. Asking for 0 tiles leaves a block in use that is 0 tiles long; every other
        request does what `AllocRegion` says. */
    method Alloc(size: u16) returns (result: int)
      requires Valid()
      modifies this, vram
      ensures size > 0 ==>
                && Valid()
                && State() == AllocRegion(old(State()), size).0
                && result == (match AllocRegion(old(State()), size).1 case None => -1 case Some(p) => startIndex + p)
      ensures size == 0 ==> old(free) < vram.Length && vram[old(free)] == 0x8000 && result == startIndex + old(free)
    {
      hide *;
      ghost var r := State();
      Parts();
      AllocCases(r, size);
      HeaderAtFree(vram[..], Size(), r);
      ghost var bs, k := blocks, BlockAt(blocks, 0, free);
      var p := free;
      if size > vram[p] {
        NothingWalked(bs);
        PackToFacts(bs, 0, size);
        var q := PackFor(vram, endIndex - startIndex + 1, size, blocks, free);
        AllocInv(r, Size(), size);
        if q == None {
          blocks := PackTo(bs, 0, size).0;
          Whole(AllocRegion(r, size).0);
          return -1;
        }
        p, bs, k := q.value, PackTo(bs, 0, size).0, PackTo(bs, 0, size).1.value;
      }
      if size == 0 {
        // the word keeps what it held, `free` stays on it, and then it is overwritten
        vram[p] := 0x8000;
      } else {
        AllocInv(r, Size(), size);
        free := Take(vram, endIndex - startIndex + 1, p, size, bs, k);
        blocks := Place(bs, k, size);
        Whole(AllocRegion(r, size).0);
      }
      result := startIndex + p;
    }

    /** `VRAM_free`: an index outside the region, or one that starts no block in use, changes nothing. */
    method Free(index: u16)
      requires Valid()
      modifies this, vram
      ensures Valid()
      ensures var p := index - startIndex;
              State() == if 0 <= p < Size() && Owns(old(State()), p) then FreeRegion(old(State()), p) else old(State())
    {
      hide *;
      Parts();
      var adjInd := index - startIndex;
      if adjInd >= 0 && index <= endIndex {
        ghost var r, m, k := State(), vram[..], BlockAt(blocks, 0, adjInd);
        if Owns(r, adjInd) {
          OwnedBlock(r, adjInd);
          Peek(WordCount, m, Size(), blocks, k);
          FreeInv(r, Size(), adjInd);
          FreeWrites(m, Size(), blocks, k, free);
        } else {
          FreeNothing(m, Size(), r, adjInd);
        }
        vram[adjInd] := Length(WordCount, vram[adjInd]);
        assert vram[..] == m[adjInd := Length(WordCount, m[adjInd])];
        if Owns(r, adjInd) {
          blocks := Release(blocks, k);
          Whole(FreeRegion(r, adjInd));
        } else {
          Whole(r);
        }
      }
    }

    method GetFree() returns (res: u16)
      requires Valid()
      ensures res == FreeWords(blocks)
    {
      hide *;
      var b: nat := 0;
      ghost var k := 0;
      res := 0;
      Parts();
      AtFirst(WordCount, vram[..], Size(), blocks);
      while vram[b] != 0
        invariant k <= |blocks| && b == Words(blocks[..k]) <= Size()
        invariant res == FreeWords(blocks[..k])
        decreases |blocks| - k
      {
        Next(WordCount, vram[..], Size(), blocks, b, k);
        var bsize := vram[b];
        if InUse(WordCount, bsize) {
          b := b + Length(WordCount, bsize);
        } else {
          Fits16(res + bsize);
          res := Wrap16(res + bsize);
          b := b + bsize;
        }
        k := k + 1;
      }
      AtEnd(WordCount, vram[..], Size(), blocks, k);
    }

    method GetAllocated() returns (res: u16)
      requires Valid()
      ensures res == UsedWords(blocks)
    {
      hide *;
      var b: nat := 0;
      ghost var k := 0;
      res := 0;
      Parts();
      AtFirst(WordCount, vram[..], Size(), blocks);
      while vram[b] != 0
        invariant k <= |blocks| && b == Words(blocks[..k]) <= Size()
        invariant res == UsedWords(blocks[..k])
        decreases |blocks| - k
      {
        Next(WordCount, vram[..], Size(), blocks, b, k);
        var bsize := vram[b];
        if InUse(WordCount, bsize) {
          Fits16(res + Length(WordCount, bsize));
          res := Wrap16(res + Length(WordCount, bsize));
          b := b + Length(WordCount, bsize);
        } else {
          b := b + bsize;
        }
        k := k + 1;
      }
      AtEnd(WordCount, vram[..], Size(), blocks, k);
    }

    /** Unlike its namesake in the heap, this looks at single blocks, so that it reports less than an
        allocation can give when unused blocks are adjacent. */
    method GetLargestFreeBlock() returns (res: u16)
      requires Valid()
      ensures forall k :: 0 <= k < |blocks| && !blocks[k].used ==> blocks[k].size <= res
      ensures res > 0 ==> exists k :: 0 <= k < |blocks| && !blocks[k].used && blocks[k].size == res
      ensures res <= MaxRun(blocks) && (res == MaxRun(blocks) <==> RunsCovered(blocks))
    {
      hide *;
      var b: nat := 0;
      ghost var k, at := 0, 0;
      res := 0;
      Parts();
      AtFirst(WordCount, vram[..], Size(), blocks);
      while vram[b] != 0
        invariant k <= |blocks| && b == Words(blocks[..k]) <= Size()
        invariant forall i :: 0 <= i < k && !blocks[i].used ==> blocks[i].size <= res
        invariant res > 0 ==> at < |blocks| && !blocks[at].used && blocks[at].size == res
        decreases |blocks| - k
      {
        Next(WordCount, vram[..], Size(), blocks, b, k);
        var bsize := vram[b];
        if InUse(WordCount, bsize) {
          b := b + Length(WordCount, bsize);
        } else {
          if bsize > res {
            res, at := bsize, k;
          }
          b := b + bsize;
        }
        k := k + 1;
      }
      AtEnd(WordCount, vram[..], Size(), blocks, k);
      LargestBlock(blocks, res, at);
    }

    lemma Parts()
      requires Valid()
      ensures Size() == endIndex - startIndex + 1 && 0 <= Size() <= 0x7FFF && Size() <= MAX_SIZE
      ensures startIndex + Size() <= 0x8000 && vram.Length == Size() + 1
      ensures Region(WordCount, vram[..], Size(), blocks)
      ensures State() == RegionState(blocks, free) && Inv(State(), Size())
      ensures FreeWordOk(vram[..], blocks, free) && free < vram.Length
      ensures var k := BlockAt(blocks, 0, free); k < |blocks| ==> !blocks[k].used && Words(blocks[..k]) == free
    {
    }

    lemma Whole(r: RegionState)
      requires r == RegionState(blocks, free)
      requires 0 <= Size() <= MAX_SIZE && startIndex + Size() <= 0x8000 && vram.Length == Size() + 1
      requires Region(WordCount, vram[..], Size(), blocks) && Inv(r, Size())
      requires FreeWordOk(vram[..], blocks, free)
      ensures Valid() && State() == r
    {
    }
  }

  /** Clearing the flag of a word that starts no block in use does nothing. */
  lemma FreeNothing(m: seq<u16>, end: nat, r: RegionState, p: nat)
    requires Region(WordCount, m, end, r.blocks) && Inv(r, end) && FreeWordOk(m, r.blocks, r.free)
    requires p < end && !Owns(r, p)
    ensures p < |m| && Region(WordCount, m[p := Length(WordCount, m[p])], end, r.blocks)
    ensures FreeWordOk(m[p := Length(WordCount, m[p])], r.blocks, r.free)
  {
    var k := BlockAt(r.blocks, 0, p);
    if k < |r.blocks| {
      Peek(WordCount, m, end, r.blocks, k);
      assert m[p := Length(WordCount, m[p])] == m;
    } else {
      RegionWrite(WordCount, m, end, r.blocks, p, Length(WordCount, m[p]));
    }
  }

  lemma OwnedBlock(r: RegionState, p: nat)
    requires Owns(r, p)
    ensures var k := BlockAt(r.blocks, 0, p);
            && k < |r.blocks| && r.blocks[k].used && Words(r.blocks[..k]) == p
            && FreeRegion(r, p) == RegionState(Release(r.blocks, k), r.free)
  {
  }

  lemma FreeWrites(m: seq<u16>, end: nat, bs: seq<Block>, k: nat, free: nat)
    requires Region(WordCount, m, end, bs) && k < |bs| && FreeWordOk(m, bs, free)
    requires Words(bs[..k]) < end && bs[k].size <= MAX_SIZE
    ensures Region(WordCount, m[Words(bs[..k]) := bs[k].size], end, Release(bs, k))
    ensures FreeWordOk(m[Words(bs[..k]) := bs[k].size], Release(bs, k), free)
  {
    ReleaseRegion(WordCount, m, end, bs, k);
    SegWords(WordCount, m, 0, end, bs);
    if BlockAt(bs, 0, free) < |bs| {
      FreeStarts(bs, k, BlockAt(bs, 0, free));
      ReleaseSized(bs, k);
      BlockAtStart(Release(bs, k), 0, BlockAt(bs, 0, free));
    } else {
      BlockAtStart(bs, 0, k);
    }
  }

  /** Every run of two or more adjacent unused blocks is at most as large as some single unused block. */
  ghost predicate RunsCovered(bs: seq<Block>) {
    forall i: nat, j: nat :: i + 2 <= j <= |bs| && AllFree(bs[i..j]) ==> Covered(bs, Words(bs[i..j]))
  }

  ghost predicate Covered(bs: seq<Block>, n: nat) {
    exists k :: 0 <= k < |bs| && !bs[k].used && n <= bs[k].size
  }

  /** The largest single unused block is the largest run exactly then. */
  lemma LargestBlock(bs: seq<Block>, res: nat, at: nat)
    requires forall i :: 0 <= i < |bs| && !bs[i].used ==> bs[i].size <= res
    requires res > 0 ==> at < |bs| && !bs[at].used && bs[at].size == res
    ensures res <= MaxRun(bs) && (res == MaxRun(bs) <==> RunsCovered(bs))
  {
    if res > 0 {
      BlockIsRun(bs, at, res);
    }
    hide MaxRun, Words;
    if res == MaxRun(bs) {
      forall i: nat, j: nat | i + 2 <= j <= |bs| && AllFree(bs[i..j]) ensures Covered(bs, Words(bs[i..j])) {
        RunBelowMax(bs, i, j, Words(bs[i..j]));
        assert !bs[i..j][0].used && bs[i..j][0] == bs[i];
      }
    }
    if RunsCovered(bs) {
      var i, j := MaxRunIsRun(bs);
      ShortRun(bs, i, j);
      if i + 2 <= j {
        assert Covered(bs, Words(bs[i..j]));
      }
    }
  }

  /** Runs of no block and of one. */
  lemma ShortRun(bs: seq<Block>, i: nat, j: nat)
    requires i <= j <= |bs| && AllFree(bs[i..j])
    ensures i == j ==> Words(bs[i..j]) == 0
    ensures i + 1 == j ==> !bs[i].used && Words(bs[i..j]) == bs[i].size
  {
    if i + 1 == j {
      assert bs[i..j][0] == bs[i];
      assert bs[i..j] == [bs[i]];
      assert [bs[i]][1..] == [];
    }
  }

  /** In a packed region that is so. */
  lemma PackedCovered(bs: seq<Block>)
    requires Packed(bs)
    ensures RunsCovered(bs)
  {
    forall i: nat, j: nat | i + 2 <= j <= |bs| ensures !AllFree(bs[i..j]) {
      assert bs[i..j][0] == bs[i] && bs[i..j][1] == bs[i + 1];
    }
  }

  /** A region of two tiles, both taken and both given back: no single block has two tiles, yet two can be
      had. */
  lemma LargestUnderReports() returns (rs: seq<RegionState>, books: seq<set<Span>>)
    ensures IsRunOf(2, [Alloc(1), Alloc(1), Free(0), Free(1)], rs, books)
    ensures forall k :: 0 <= k < |rs[4].blocks| ==> rs[4].blocks[k].size == 1
    ensures AllocRegion(rs[4], 2).1.Some? && !RunsCovered(rs[4].blocks)
  {
    var r0 := InitRegion(2);
    var r1 := RegionState([Block(1, true), Block(1, false)], 1);
    var r2 := RegionState([Block(1, true), Block(1, true)], 2);
    var r3 := RegionState([Block(1, false), Block(1, true)], 2);
    var r4 := RegionState([Block(1, false), Block(1, false)], 2);
    TwoTaken(r1, r2);
    TwoGiven(r2, r3, r4);
    TwoFree(r4);
    hide *;
    books := FourSteps(2, Alloc(1), Alloc(1), Free(0), Free(1), r0, r1, r2, r3, r4);
    rs := [r0, r1, r2, r3, r4];
  }

  lemma FourSteps(size: nat, a: Op, b: Op, c: Op, d: Op, r0: RegionState, r1: RegionState, r2: RegionState, r3: RegionState, r4: RegionState)
    returns (books: seq<set<Span>>)
    requires r0 == InitRegion(size)
    requires Legal(r0, a) && r1 == Step(r0, a) && Legal(r1, b) && r2 == Step(r1, b)
    requires Legal(r2, c) && r3 == Step(r2, c) && Legal(r3, d) && r4 == Step(r3, d)
    ensures IsRunOf(size, [a, b, c, d], [r0, r1, r2, r3, r4], books)
  {
    var b0: set<Span> := {};
    var b1 := Book(b0, r0, a);
    var b2 := Book(b1, r1, b);
    var b3 := Book(b2, r2, c);
    var b4 := Book(b3, r3, d);
    hide InitRegion, Step, Legal, Book;
    var ops, rs := [a, b, c, d], [r0, r1, r2, r3, r4];
    books := [b0, b1, b2, b3, b4];
    forall i | 0 <= i < |ops|
      ensures Legal(rs[i], ops[i]) && rs[i + 1] == Step(rs[i], ops[i]) && books[i + 1] == Book(books[i], rs[i], ops[i])
    {
      assert i == 0 || i == 1 || i == 2 || i == 3;
    }
  }

  lemma TwoTaken(r1: RegionState, r2: RegionState)
    requires r1 == RegionState([Block(1, true), Block(1, false)], 1)
    requires r2 == RegionState([Block(1, true), Block(1, true)], 2)
    ensures Legal(InitRegion(2), Alloc(1)) && Step(InitRegion(2), Alloc(1)) == r1
    ensures Legal(r1, Alloc(1)) && Step(r1, Alloc(1)) == r2
  {
    hide AllocRegion, InitRegion;
    FirstTile();
    SecondTile();
  }

  lemma TwoGiven(r2: RegionState, r3: RegionState, r4: RegionState)
    requires r2 == RegionState([Block(1, true), Block(1, true)], 2)
    requires r3 == RegionState([Block(1, false), Block(1, true)], 2)
    requires r4 == RegionState([Block(1, false), Block(1, false)], 2)
    ensures Legal(r2, Free(0)) && Step(r2, Free(0)) == r3
    ensures Legal(r3, Free(1)) && Step(r3, Free(1)) == r4
  {
    TwoTiles(Block(1, true), Block(1, true));
    TwoTiles(Block(1, false), Block(1, true));
    hide BlockAt, Words;
  }

  /** Where two blocks of one tile start. */
  lemma TwoTiles(a: Block, b: Block)
    requires a.size == b.size == 1
    ensures BlockAt([a, b], 0, 0) == 0 && BlockAt([a, b], 0, 1) == 1 && BlockAt([a, b], 0, 2) == 2
    ensures Words([a, b]) == 2 && Words([a, b][..1]) == 1 && Words([a, b][..0]) == 0
  {
    assert [a, b][1..] == [b] && [b][1..] == [];
    assert [a, b][..1] == [a] && [a][1..] == [];
  }

  lemma FirstTile()
    ensures AllocRegion(InitRegion(2), 1) == (RegionState([Block(1, true), Block(1, false)], 1), Some(0))
  {
    var bs := [Block(2, false)];
    assert BlockAt(bs, 0, 0) == 0;
    assert bs[..0] == [] && bs[1..] == [];
    assert Place(bs, 0, 1) == [Block(1, true), Block(1, false)];
  }

  lemma SecondTile()
    ensures AllocRegion(RegionState([Block(1, true), Block(1, false)], 1), 1) ==
            (RegionState([Block(1, true), Block(1, true)], 2), Some(1))
  {
    var bs := [Block(1, true), Block(1, false)];
    TwoTiles(bs[0], bs[1]);
    assert bs[..2] == bs && NextFree(bs, 2) == 2;
    assert Place(bs, 1, 1) == [Block(1, true), Block(1, true)];
  }

  lemma TwoFree(r: RegionState)
    requires r == RegionState([Block(1, false), Block(1, false)], 2)
    ensures AllocRegion(r, 2).1.Some? && !RunsCovered(r.blocks)
  {
    var bs := r.blocks;
    TwoTiles(bs[0], bs[1]);
    assert bs[0..2] == bs;
    assert IsRun(bs, 0, 2, 2);
    assert !Covered(bs, Words(bs[0..2]));
    AllocComplete(r, 2, 2);
  }

  lemma SizeFits()
    ensures MAX_SIZE == 0x7FFF
  {
  }

  /** What the word at `free` says: the size of the unused block it starts, or 0. */
  lemma HeaderAtFree(m: seq<u16>, end: nat, r: RegionState)
    requires Region(WordCount, m, end, r.blocks) && Inv(r, end) && FreeWordOk(m, r.blocks, r.free)
    ensures var k := BlockAt(r.blocks, 0, r.free);
            && r.free < |m|
            && m[r.free] == (if k < |r.blocks| then r.blocks[k].size else 0)
            && m[r.free] <= MAX_SIZE
  {
    var k := BlockAt(r.blocks, 0, r.free);
    if k < |r.blocks| {
      Peek(WordCount, m, end, r.blocks, k);
    }
  }

  /** `AllocRegion` case by case. */
  lemma AllocCases(r: RegionState, n: nat)
    ensures var k := BlockAt(r.blocks, 0, r.free);
            k < |r.blocks| && !r.blocks[k].used && n <= r.blocks[k].size ==>
              && AllocRegion(r, n).0.blocks == Place(r.blocks, k, n)
              && AllocRegion(r, n) == (TakeFrom(r.blocks, k, n), Some(r.free))
    ensures var k := BlockAt(r.blocks, 0, r.free);
            var (cs, j) := PackTo(r.blocks, 0, n);
            !(k < |r.blocks| && !r.blocks[k].used && n <= r.blocks[k].size) ==>
              && (j.Some? && j.value < |cs| && n <= cs[j.value].size ==>
                    && AllocRegion(r, n).0.blocks == Place(cs, j.value, n)
                    && AllocRegion(r, n) == (TakeFrom(cs, j.value, n), Some(Words(cs[..j.value]))))
              && (j.None? ==> AllocRegion(r, n) == (RegionState(cs, r.free), None))
  {
  }

  lemma TakeIs(bs: seq<Block>, k: nat, n: nat)
    requires k < |bs| && n <= bs[k].size
    ensures TakeFrom(bs, k, n).free ==
            if n < bs[k].size then Words(bs[..k]) + n else Words(bs[..NextFree(bs, k + 1)])
  {
  }

  lemma TakeWrites(m: seq<u16>, end: nat, bs: seq<Block>, k: nat, n: nat, m1: seq<u16>, m2: seq<u16>)
    requires Region(WordCount, m, end, bs) && end <= MAX_SIZE
    requires k < |bs| && !bs[k].used && 0 < n <= bs[k].size <= MAX_SIZE
    requires Words(bs[..k]) + bs[k].size <= end
    requires m1 == if n < bs[k].size then m[Words(bs[..k]) + n := bs[k].size - n] else m
    requires m2 == m1[Words(bs[..k]) := n + 0x8000]
    ensures Region(WordCount, m2, end, Place(bs, k, n))
  {
    hide Words, Region, Place;
    PlaceRegion(WordCount, m, end, bs, k, n, m1, m2);
  }

  /** After `Take` the search pointer starts an unused block or is at the end of the region. */
  lemma TakeWord(m: seq<u16>, end: nat, bs: seq<Block>, k: nat, n: nat)
    requires k < |bs| && !bs[k].used && 0 < n <= bs[k].size
    requires Region(WordCount, m, end, Place(bs, k, n))
    ensures FreeWordOk(m, Place(bs, k, n), TakeFrom(bs, k, n).free)
  {
    hide Words, TakeFrom, NextFree;
    var r := Place(bs, k, n);
    var j := if n < bs[k].size then k + 1 else NextFree(r, k + 1);
    TakeFree(bs, k, n);
    Peek(WordCount, m, end, r, j);
    SegWords(WordCount, m, 0, end, r);
    if j < |r| {
      BlockAtStart(r, 0, j);
    }
  }

  lemma ParkedStart(bs: seq<Block>, q: nat, m: seq<u16>)
    requires FreeWordOk(m, bs, q) && (BlockAt(bs, 0, q) < |bs| ==> !bs[BlockAt(bs, 0, q)].used)
    ensures Parked(bs, q, m, 0, 0, 0)
  {
  }

  lemma ParkedEnd(m0: seq<u16>, m: seq<u16>, end: nat, bs: seq<Block>, b: nat, best: nat, t: nat, q: nat)
    requires At(WordCount, m0, m, end, bs, |bs|, b, best, t) && best < |m| && t <= MAX_SIZE
    requires Parked(bs, q, m, |bs|, best, t)
    ensures FreeWordOk(Flush(WordCount, m, best, t), Coalesce(bs), q)
  {
    ParkedFlush(WordCount, m0, m, end, bs, |bs|, b, best, t, q);
    assert bs[..|bs|] == bs;
  }

  lemma FlushIs(m: seq<u16>, best: nat, t: nat)
    requires best < |m| && t <= MAX_SIZE
    ensures Flush(WordCount, m, best, t) == if t != 0 then m[best := t] else m
  {
  }

  lemma PackHeader(m0: seq<u16>, m: seq<u16>, end: nat, bs: seq<Block>, i: nat, b: nat, best: nat, t: nat)
    requires At(WordCount, m0, m, end, bs, i, b, best, t)
    ensures i <= |bs| && best + t == b <= end < |m| && end <= 0x7FFF && t <= MAX_SIZE
    ensures t == TailRun(bs[..i]) && best == RunStart(bs, i)
    ensures i == |bs| <==> m[b] == 0
    ensures i < |bs| ==> (InUse(WordCount, m[b]) <==> bs[i].used) && Length(WordCount, m[b]) == bs[i].size && 0 < bs[i].size && b + bs[i].size <= end
    ensures i < |bs| && !bs[i].used ==> m[b] == bs[i].size
  {
    AtHeader(WordCount, m0, m, end, bs, i, b, best, t);
  }

  lemma BooksInside(bs: seq<Block>, size: nat, held: set<Span>)
    requires Sized(bs) && Words(bs) == size
    requires forall s :: Live(bs, 0, s) <==> s in held
    ensures forall s :: s in held ==> 0 < s.size && s.start + s.size <= size
    ensures forall s, t :: s in held && t in held && s != t
                           ==> s.start + s.size <= t.start || t.start + t.size <= s.start
  {
    forall s | s in held ensures 0 < s.size && s.start + s.size <= size {
      LiveInside(bs, 0, s);
    }
    forall s, t | s in held && t in held && s != t
      ensures s.start + s.size <= t.start || t.start + t.size <= s.start
    {
      LiveDisjoint(bs, 0, s, t);
    }
  }
}
