/** The heap of `src/memory.c`: next-fit allocation in one array of words, with lazy coalescing. */
module Memory {
  import opened Blocks
  import opened Machine

  // ----- Specification

  /** `free` is the index of the block the search starts at (`|blocks|` is the end of the heap). */
  datatype HeapState = HeapState(blocks: seq<Block>, free: nat, needPack: bool)

  /** The words a request of `size` bytes takes with its header. The sum is cut to 16 bits. */
  function AdjWords(size: u16): (n: nat)
    ensures n <= MAX_SIZE
  {
    ((size + 3) % 0x1_0000) / 2
  }

  /** A block is large enough for its header and the bytes asked for exactly up to 65532 bytes. */
  lemma AdjWordsExact(size: u16)
    ensures size + 2 <= 2 * AdjWords(size) <= size + 3 <==> size <= 65532
    ensures AdjWords(size) == 0 <==> size == 65533 || size == 65534
  {
  }

  ghost predicate Inv(h: HeapState, len: nat) {
    && Sized(h.blocks)
    && Words(h.blocks) == len <= MAX_SIZE
    && h.free <= |h.blocks|
    && (h.free < |h.blocks| ==> !h.blocks[h.free].used)
    && (!h.needPack ==> Packed(h.blocks))
  }

  function InitHeap(len: nat): HeapState {
    HeapState(if len == 0 then [] else [Block(len, false)], 0, false)
  }

  function PackHeap(h: HeapState): HeapState {
    var bs := Coalesce(h.blocks);
    HeapState(bs, NextFree(bs, 0), false)
  }

  /** Where a request of `n` words is placed: the first block that fits from `free` on, else the
      first that fits at all. */
  function Choose(h: HeapState, n: nat): (k: nat)
    requires h.free <= |h.blocks|
    ensures k <= |h.blocks|
    ensures k < |h.blocks| ==> !h.blocks[k].used && n <= h.blocks[k].size
  {
    var k := FirstFit(h.blocks, h.free, n);
    if k < |h.blocks| then k else FirstFit(h.blocks, 0, n)
  }

  /** The heap after the first `n` words of block `k` are put to use. */
  function TakeFrom(h: HeapState, k: nat, n: nat): HeapState
    requires k < |h.blocks| && n <= h.blocks[k].size
  {
    var bs := Place(h.blocks, k, n);
    HeapState(bs, if n < h.blocks[k].size then k + 1 else NextFree(bs, k + 1), false)
  }

  /** The heap after an allocation, and the payload pointer it returns. */
  function AllocHeap(h: HeapState, size: u16): (r: (HeapState, Option<nat>))
    requires h.free <= |h.blocks|
  {
    if size == 0 then (h, None) else
      var h1 := if h.needPack then PackHeap(h) else h;
      AllocWords(h1, AdjWords(size))
  }

  /** An allocation of `n` words in a heap that needs no packing. */
  function AllocWords(h: HeapState, n: nat): (HeapState, Option<nat>)
    requires h.free <= |h.blocks|
  {
    var k := Choose(h, n);
    if k == |h.blocks| then (h, None) else (TakeFrom(h, k, n), Some(Words(h.blocks[..k]) + 1))
  }

  /** The heap after payload pointer `p` is given back. */
  function FreeHeap(h: HeapState, p: nat): HeapState
    requires OwnsPayload(h, p)
  {
    HeapState(Release(h.blocks, BlockAt(h.blocks, 0, p - 1)), h.free, true)
  }

  /** `p` is the payload pointer of a block in use. */
  predicate OwnsPayload(h: HeapState, p: nat) {
    0 < p && var k := BlockAt(h.blocks, 0, p - 1); k < |h.blocks| && h.blocks[k].used
  }

  // ----- Every operation keeps the invariant

  lemma InitInv(len: nat)
    requires len <= MAX_SIZE
    ensures Inv(InitHeap(len), len)
  {
  }

  lemma PackInv(h: HeapState, len: nat)
    requires Inv(h, len)
    ensures Inv(PackHeap(h), len)
  {
    CoalesceFacts(h.blocks);
    CoalesceSized(h.blocks);
  }

  lemma AllocInv(h: HeapState, len: nat, size: u16)
    requires Inv(h, len) && (size == 0 || AdjWords(size) > 0)
    ensures Inv(AllocHeap(h, size).0, len)
  {
    if size != 0 {
      if h.needPack {
        PackInv(h, len);
      }
      var h1 := if h.needPack then PackHeap(h) else h;
      var n := AdjWords(size);
      var k := Choose(h1, n);
      if k < |h1.blocks| {
        TakeFacts(h1, len, k, n);
      }
    }
  }

  lemma TakeFacts(h: HeapState, len: nat, k: nat, n: nat)
    requires Inv(h, len) && !h.needPack && k < |h.blocks| && !h.blocks[k].used && 0 < n <= h.blocks[k].size
    ensures Inv(TakeFrom(h, k, n), len)
    ensures TakeFrom(h, k, n).blocks == Place(h.blocks, k, n) && !TakeFrom(h, k, n).needPack
    ensures TakeFrom(h, k, n).free <= |TakeFrom(h, k, n).blocks|
    ensures Words(TakeFrom(h, k, n).blocks[..TakeFrom(h, k, n).free]) ==
            if n < h.blocks[k].size then Words(h.blocks[..k]) + n
            else Words(h.blocks[..NextFree(h.blocks, k + 1)])
    ensures n == h.blocks[k].size ==> TakeFrom(h, k, n).free == NextFree(h.blocks, k + 1)
  {
    var bs := Place(h.blocks, k, n);
    PlaceWords(h.blocks, k, n);
    PlacePacked(h.blocks, k, n);
    hide Words, Packed, Sized;
    if n < h.blocks[k].size {
      assert bs[k + 1] == Block(h.blocks[k].size - n, false);
      assert bs[..k] == h.blocks[..k] && bs[k] == Block(n, true);
      WordsStep(bs, k);
    } else {
      PlaceWhole(h.blocks, k, k + 1);
      PlaceWhole(h.blocks, k, NextFree(h.blocks, k + 1));
    }
  }

  lemma TakeWrites(m: seq<u16>, end: nat, bs: seq<Block>, k: nat, n: nat, m1: seq<u16>, m2: seq<u16>)
    requires Region(ByteCount, m, end, bs) && end <= MAX_SIZE
    requires k < |bs| && !bs[k].used && 0 < n <= bs[k].size <= MAX_SIZE
    requires Words(bs[..k]) + bs[k].size <= end
    requires m1 == if n < bs[k].size then m[Words(bs[..k]) + n := 2 * (bs[k].size - n)] else m
    requires m2 == m1[Words(bs[..k]) := 2 * n + 1]
    ensures Region(ByteCount, m2, end, Place(bs, k, n))
    ensures Untouched(m, m2, bs)
  {
    PlaceRegion(ByteCount, m, end, bs, k, n, m1, m2);
    hide Words, Region, Place;
    if n < bs[k].size {
      InFreeAt(bs, 0, k, Words(bs[..k]) + n);
      UntouchedWrite(m, m, bs, Words(bs[..k]) + n, 2 * (bs[k].size - n));
    }
    InFreeAt(bs, 0, k, Words(bs[..k]));
    UntouchedWrite(m, m1, bs, Words(bs[..k]), 2 * n + 1);
  }

  lemma FreeInv(h: HeapState, len: nat, p: nat)
    requires Inv(h, len) && OwnsPayload(h, p)
    ensures Inv(FreeHeap(h, p), len)
  {
    var k := BlockAt(h.blocks, 0, p - 1);
    ReleaseWords(h.blocks, k);
    ReleaseSized(h.blocks, k);
    assert Release(h.blocks, k) == h.blocks[k := h.blocks[k].(used := false)];
  }

  // ----- Allocation is complete

  /** An allocation fails exactly when no run of adjacent unused blocks of the heap it was called on
      has the words asked for, wherever the search pointer was. */
  lemma AllocComplete(h: HeapState, len: nat, size: u16)
    requires Inv(h, len) && size != 0 && AdjWords(size) > 0
    ensures AllocHeap(h, size).1.None? <==> !HasRun(h.blocks, AdjWords(size))
  {
    var n := AdjWords(size);
    if h.needPack {
      PackInv(h, len);
      CoalesceFacts(h.blocks);
    }
    var h1 := if h.needPack then PackHeap(h) else h;
    MaxRunMeaning(h.blocks, n);
    PackedRuns(h1.blocks);
  }

  lemma RunsUpTo(bs: seq<Block>)
    ensures forall n: nat :: HasRun(bs, n) <==> 2 * n <= 2 * MaxRun(bs)
  {
    forall n: nat ensures HasRun(bs, n) <==> 2 * n <= 2 * MaxRun(bs) {
      MaxRunMeaning(bs, n);
    }
  }

  // ----- What an operation does to the live spans

  lemma AllocLive(h: HeapState, len: nat, size: u16, s: Span)
    requires Inv(h, len) && (size == 0 || AdjWords(size) > 0)
    ensures var (h', p) := AllocHeap(h, size);
            && (p.Some? ==> p.value > 0)
            && (Live(h'.blocks, 0, s) <==>
                Live(h.blocks, 0, s) || (p.Some? && s == Span(p.value - 1, AdjWords(size))))
  {
    if size != 0 {
      if h.needPack {
        PackInv(h, len);
        CoalesceLive(h.blocks, 0, s);
      }
      var h1 := if h.needPack then PackHeap(h) else h;
      var n := AdjWords(size);
      var k := Choose(h1, n);
      if k < |h1.blocks| {
        PlaceLive(h1.blocks, k, n, s);
      }
    }
  }

  lemma FreeLive(h: HeapState, len: nat, p: nat, s: Span)
    requires Inv(h, len) && OwnsPayload(h, p)
    ensures Live(FreeHeap(h, p).blocks, 0, s) <==> Live(h.blocks, 0, s) && s.start != p - 1
  {
    var k := BlockAt(h.blocks, 0, p - 1);
    ReleaseLive(h.blocks, k, s);
    var t := Span(p - 1, h.blocks[k].size);
    if Live(h.blocks, 0, s) && s != t {
      LiveDisjoint(h.blocks, 0, s, t);
      LiveInside(h.blocks, 0, s);
      LiveInside(h.blocks, 0, t);
    }
  }

  // ----- Whole runs

  datatype Op = Alloc(size: u16) | Free(p: nat) | Pack

  /** A call the library accepts: 65533 and 65534 bytes are the sizes whose block would be empty,
      and only a pointer to a block in use may be given back. */
  predicate Legal(h: HeapState, op: Op) {
    match op
    case Alloc(size) => size == 0 || AdjWords(size) > 0
    case Free(p) => OwnsPayload(h, p)
    case Pack => true
  }

  function Step(h: HeapState, op: Op): HeapState
    requires h.free <= |h.blocks| && Legal(h, op)
  {
    match op
    case Alloc(size) => AllocHeap(h, size).0
    case Free(p) => FreeHeap(h, p)
    case Pack => PackHeap(h)
  }

  /** The spans a client may use after `op`, from the pointers it was given and gave back alone. */
  ghost function Book(held: set<Span>, h: HeapState, op: Op): set<Span>
    requires h.free <= |h.blocks| && Legal(h, op)
  {
    match op
    case Alloc(size) =>
      var p := AllocHeap(h, size).1;
      if p.Some? && p.value > 0 then held + {Span(p.value - 1, AdjWords(size))} else held
    case Free(p) => set s | s in held && s.start != p - 1
    case Pack => held
  }

  /** The heaps and client books of a run from a fresh heap of `len` words. */
  ghost predicate IsRunOf(len: nat, ops: seq<Op>, hs: seq<HeapState>, books: seq<set<Span>>) {
    && |hs| == |books| == |ops| + 1
    && hs[0] == InitHeap(len) && books[0] == {}
    && forall i :: 0 <= i < |ops| ==>
         && hs[i].free <= |hs[i].blocks| && Legal(hs[i], ops[i])
         && hs[i + 1] == Step(hs[i], ops[i])
         && books[i + 1] == Book(books[i], hs[i], ops[i])
  }

  /** After every legal run the heap is tiled exactly, the live spans are the ones the client holds,
      they lie inside the heap without overlap, and no word of the heap is lost. */
  lemma {:induction false} EveryRun(len: nat, ops: seq<Op>, hs: seq<HeapState>, books: seq<set<Span>>, i: nat)
    requires len <= MAX_SIZE && IsRunOf(len, ops, hs, books) && i <= |ops|
    ensures Inv(hs[i], len)
    ensures forall s :: Live(hs[i].blocks, 0, s) <==> s in books[i]
    ensures forall s :: s in books[i] ==> 0 < s.size && s.start + s.size <= len
    ensures forall s, t :: s in books[i] && t in books[i] && s != t
                           ==> s.start + s.size <= t.start || t.start + t.size <= s.start
    ensures FreeWords(hs[i].blocks) + UsedWords(hs[i].blocks) == len
  {
    if i == 0 {
      InitInv(len);
      assert InitHeap(len).blocks == [] || InitHeap(len).blocks[1..] == [];
    } else {
      EveryRun(len, ops, hs, books, i - 1);
      StepKeeps(hs[i - 1], len, ops[i - 1], books[i - 1]);
    }
    BooksInside(hs[i], len, books[i]);
    FreeAndUsed(hs[i].blocks);
  }

  lemma StepKeeps(h: HeapState, len: nat, op: Op, held: set<Span>)
    requires Inv(h, len) && Legal(h, op)
    requires forall s :: Live(h.blocks, 0, s) <==> s in held
    ensures Inv(Step(h, op), len)
    ensures forall s :: Live(Step(h, op).blocks, 0, s) <==> s in Book(held, h, op)
  {
    match op
    case Alloc(size) =>
      AllocInv(h, len, size);
      forall s ensures Live(Step(h, op).blocks, 0, s) <==> s in Book(held, h, op) {
        AllocLive(h, len, size, s);
      }
    case Free(p) =>
      FreeInv(h, len, p);
      forall s ensures Live(Step(h, op).blocks, 0, s) <==> s in Book(held, h, op) {
        FreeLive(h, len, p, s);
      }
    case Pack =>
      PackInv(h, len);
      forall s ensures Live(Step(h, op).blocks, 0, s) <==> s in Book(held, h, op) {
        CoalesceLive(h.blocks, 0, s);
      }
  }

  lemma BooksInside(h: HeapState, len: nat, held: set<Span>)
    requires Inv(h, len)
    requires forall s :: Live(h.blocks, 0, s) <==> s in held
    ensures forall s :: s in held ==> 0 < s.size && s.start + s.size <= len
    ensures forall s, t :: s in held && t in held && s != t
                           ==> s.start + s.size <= t.start || t.start + t.size <= s.start
  {
    forall s | s in held ensures 0 < s.size && s.start + s.size <= len {
      LiveInside(h.blocks, 0, s);
    }
    forall s, t | s in held && t in held && s != t
      ensures s.start + s.size <= t.start || t.start + t.size <= s.start
    {
      LiveDisjoint(h.blocks, 0, s, t);
    }
  }

  /** The words of a live span keep what its owner wrote there. */
  lemma PayloadKept(m0: seq<u16>, m: seq<u16>, bs: seq<Block>, s: Span, p: nat)
    requires Untouched(m0, m, bs) && Live(bs, 0, s) && s.start <= p < s.start + s.size && p < |m|
    ensures m[p] == m0[p]
  {
    LiveNotFree(bs, 0, s, p);
  }

  lemma UntouchedSame(m: seq<u16>, bs: seq<Block>)
    ensures Untouched(m, m, bs)
  {
  }

  /** Words outside the unused blocks are the same before and after coalescing. */
  lemma UntouchedPacked(m0: seq<u16>, m1: seq<u16>, bs: seq<Block>)
    ensures Untouched(m0, m1, Coalesce(bs)) <==> Untouched(m0, m1, bs)
  {
    forall p: nat ensures InFree(Coalesce(bs), 0, p) <==> InFree(bs, 0, p) {
      CoalesceInFree(bs, 0, p);
    }
  }

  // ----- The heap in memory

  lemma UntouchedChain(m0: seq<u16>, m1: seq<u16>, m2: seq<u16>, bs: seq<Block>)
    requires Untouched(m0, m1, bs) && Untouched(m1, m2, bs)
    ensures Untouched(m0, m2, bs)
  {
  }

  /** Words written after packing are words of blocks that were unused before it. */
  lemma FrameChain(m0: seq<u16>, m1: seq<u16>, m2: seq<u16>, bs: seq<Block>, cs: seq<Block>)
    requires cs == bs || cs == Coalesce(bs)
    requires Untouched(m0, m1, bs) && Untouched(m1, m2, cs)
    ensures Untouched(m0, m2, bs)
  {
    UntouchedPacked(m1, m2, bs);
    UntouchedChain(m0, m1, m2, bs);
  }

  /** `AllocHeap` case by case. */
  lemma AllocCases(h: HeapState, size: u16)
    requires h.free <= |h.blocks|
    ensures size == 0 ==> AllocHeap(h, size) == (h, None)
    ensures PackHeap(h).blocks == Coalesce(h.blocks) && !PackHeap(h).needPack && PackHeap(h).free <= |PackHeap(h).blocks|
    ensures size != 0 ==> AllocHeap(h, size) == AllocWords(if h.needPack then PackHeap(h) else h, AdjWords(size))
  {
  }

  lemma AllocWordsAt(h: HeapState, n: nat)
    requires h.free <= |h.blocks|
    ensures var k := Choose(h, n);
            AllocWords(h, n) == if k == |h.blocks| then (h, None) else (TakeFrom(h, k, n), Some(Words(h.blocks[..k]) + 1))
  {
  }

  /** The bytes a request of `size` bytes takes with its header, as 16-bit arithmetic gives them. */
  function Adjust(size: u16): u16 {
    Wrap16(size + 3) / 2 * 2
  }

  lemma Adjusted(size: u16)
    ensures Adjust(size) == 2 * AdjWords(size)
    ensures Adjust(size) == 0 <==> size == 65533 || size == 65534
  {
  }

  lemma FitHere(bs: seq<Block>, k: nat, n: nat)
    requires k <= |bs|
    ensures k == |bs| || (!bs[k].used && n <= bs[k].size) ==> FirstFit(bs, k, n) == k
    ensures k < |bs| && !(!bs[k].used && n <= bs[k].size) ==> FirstFit(bs, k, n) == FirstFit(bs, k + 1, n)
  {
  }

  lemma {:induction false} FitSkip(bs: seq<Block>, k: nat, n: nat)
    requires k <= |bs|
    ensures FirstFit(bs, k, n) == FirstFit(bs, NextFree(bs, k), n)
    decreases |bs| - k
  {
    if k < |bs| && bs[k].used {
      FitSkip(bs, k + 1, n);
    }
  }

  class Heap {
    /** The heap: headers, payloads and the closing zero word. */
    const mem: array<u16>
    const heapEnd: nat
    var free: nat
    var needPack: bool

    ghost var blocks: seq<Block>
    ghost var freeIndex: nat

    ghost function State(): HeapState
      reads this
    {
      HeapState(blocks, freeIndex, needPack)
    }

    ghost predicate Tiled()
      reads this, mem
    {
      && mem.Length == heapEnd + 1
      && heapEnd <= MAX_SIZE
      && Region(ByteCount, mem[..], heapEnd, blocks)
    }

    ghost predicate Valid()
      reads this, mem
    {
      && Tiled()
      && Inv(State(), heapEnd)
      && free == Words(blocks[..freeIndex])
    }

    /** `len` is the number of bytes between the end of the program's data and the closing word. */
    constructor (len: u16)
      requires len % 2 == 0
      ensures Valid() && fresh(mem)
      ensures heapEnd == len / 2 && State() == InitHeap(len / 2)
    {
      mem := new u16[len / 2 + 1];
      heapEnd := len / 2;
      free := 0;
      needPack := false;
      blocks := InitHeap(len / 2).blocks;
      freeIndex := 0;
      new;
      mem[0] := len;
      mem[heapEnd] := 0;
      InitInv(heapEnd);
      assert blocks == [] || blocks[1..] == [];
      assert Seg(ByteCount, mem[..], heapEnd, heapEnd, []);
    }

    method GetFree() returns (res: u16)
      requires Valid()
      ensures res == 2 * FreeWords(blocks)
    {
      hide *;
      var b: nat := 0;
      ghost var k := 0;
      res := 0;
      Parts();
      AtFirst(ByteCount, mem[..], heapEnd, blocks);
      while mem[b] != 0
        invariant k <= |blocks| && b == Words(blocks[..k]) <= heapEnd
        invariant res == 2 * FreeWords(blocks[..k])
        decreases |blocks| - k
      {
        Next(ByteCount, mem[..], heapEnd, blocks, b, k);
        k := k + 1;
        var bsize := mem[b];
        if !InUse(ByteCount, bsize) {
          Fits16(res + bsize);
          res := Wrap16(res + bsize);
        }
        b := b + Length(ByteCount, bsize);
      }
      AtEnd(ByteCount, mem[..], heapEnd, blocks, k);
    }

    method GetAllocated() returns (res: u16)
      requires Valid()
      ensures res == 2 * UsedWords(blocks)
    {
      hide *;
      var b: nat := 0;
      ghost var k := 0;
      res := 0;
      Parts();
      AtFirst(ByteCount, mem[..], heapEnd, blocks);
      while mem[b] != 0
        invariant k <= |blocks| && b == Words(blocks[..k]) <= heapEnd
        invariant res == 2 * UsedWords(blocks[..k])
        decreases |blocks| - k
      {
        Next(ByteCount, mem[..], heapEnd, blocks, b, k);
        k := k + 1;
        var bsize := mem[b];
        if InUse(ByteCount, bsize) {
          Fits16(res + 2 * Length(ByteCount, bsize));
          res := Wrap16(res + 2 * Length(ByteCount, bsize));
        }
        b := b + Length(ByteCount, bsize);
      }
      AtEnd(ByteCount, mem[..], heapEnd, blocks, k);
    }

    method GetLargestFreeBlock() returns (res: u16)
      requires Valid()
      ensures res == 2 * MaxRun(blocks)
      ensures forall n: nat :: HasRun(blocks, n) <==> 2 * n <= res
    {
      hide *;
      var b: nat, csize: u16 := 0, 0;
      ghost var k := 0;
      res := 0;
      Parts();
      AtFirst(ByteCount, mem[..], heapEnd, blocks);
      while mem[b] != 0
        invariant k <= |blocks| && b == Words(blocks[..k]) <= heapEnd
        invariant res == 2 * MaxRun(blocks[..k]) && csize == 2 * TailRun(blocks[..k])
        decreases |blocks| - k
      {
        Next(ByteCount, mem[..], heapEnd, blocks, b, k);
        k := k + 1;
        var bsize := mem[b];
        if InUse(ByteCount, bsize) {
          csize := 0;
        } else {
          Fits16(csize + bsize);
          csize := Wrap16(csize + bsize);
          if csize > res {
            res := csize;
          }
        }
        b := b + Length(ByteCount, bsize);
      }
      AtEnd(ByteCount, mem[..], heapEnd, blocks, k);
      RunsUpTo(blocks);
    }

    /** The first test of `MEM_checkIntegrity`: it never fails. */
    method SizesMatch() returns (ok: bool)
      requires Valid()
      ensures ok
    {
      var f := GetFree();
      var a := GetAllocated();
      FreeAndUsed(blocks);
      ok := f + a == 2 * heapEnd;
    }

    // ----- Packing

    /** The walk of `MEM_pack` over the headers. */
    static method Compact(mem: array<u16>, heapEnd: nat, ghost bs: seq<Block>) returns (nfree: Option<nat>)
      requires Region(ByteCount, mem[..], heapEnd, bs) && heapEnd <= MAX_SIZE
      modifies mem
      ensures Region(ByteCount, mem[..], heapEnd, Coalesce(bs))
      ensures nfree == FirstUnused(Coalesce(bs))
      ensures Untouched(old(mem[..]), mem[..], bs)
    {
      hide At, FirstUnused, Done, Coalesce, Region, Untouched, TailRun, RunStart, Words, Sized, Wrap16;
      ghost var m0, i := mem[..], 0;
      var b: nat, best: nat, bsize: u16 := 0, 0, 0;
      nfree := None;
      AtStart(ByteCount, m0, heapEnd, bs);
      AtHeader(ByteCount, m0, m0, heapEnd, bs, i, b, best, bsize / 2);
      while mem[b] != 0
        invariant i <= |bs| && b < mem.Length
        invariant At(ByteCount, m0, mem[..], heapEnd, bs, i, b, best, bsize / 2) && bsize % 2 == 0
        invariant nfree == FirstUnused(Done(bs, i))
        decreases |bs| - i
      {
        ghost var m := mem[..];
        AtHeader(ByteCount, m0, m, heapEnd, bs, i, b, best, bsize / 2);
        var psize := mem[b];
        if InUse(ByteCount, psize) {
          AtUsed(ByteCount, m0, m, heapEnd, bs, i, b, best, bsize / 2);
          UnusedFlushed(bs, i);
          UnusedAfterUsed(bs, i);
          if bsize != 0 {
            mem[best] := bsize;
            bsize := 0;
            if nfree == None {
              nfree := Some(best);
            }
          }
          b := b + Length(ByteCount, psize);
          best := b;
        } else {
          AtFree(ByteCount, m0, m, heapEnd, bs, i, b, best, bsize / 2);
          UnusedOverFree(bs, i);
          Fits16(bsize + psize);
          bsize := Wrap16(bsize + psize);
          mem[b] := 0;
          b := b + Length(ByteCount, psize);
        }
        i := i + 1;
        AtHeader(ByteCount, m0, mem[..], heapEnd, bs, i, b, best, bsize / 2);
      }
      AtHeader(ByteCount, m0, mem[..], heapEnd, bs, i, b, best, bsize / 2);
      AtStop(ByteCount, m0, mem[..], heapEnd, bs, i, b, best, bsize / 2);
      UnusedFlushed(bs, i);
      assert bs[..i] == bs;
      if bsize != 0 {
        mem[best] := bsize;
        if nfree == None {
          nfree := Some(best);
        }
      }
    }

    /** `MEM_pack`: coalesce the whole heap and restart the search at its first unused block. */
    method PackAll()
      requires Valid()
      modifies this, mem
      ensures Valid() && State() == PackHeap(old(State()))
      ensures Untouched(old(mem[..]), mem[..], old(blocks))
    {
      hide Coalesce, Region, Words, FirstUnused, Sized, Packed, Untouched, NextFree;
      var nfree := Compact(mem, heapEnd, blocks);
      PackInv(State(), heapEnd);
      FirstUnusedNone(Coalesce(blocks));
      free := if nfree != None then nfree.value else heapEnd;
      needPack := false;
      blocks := Coalesce(blocks);
      freeIndex := NextFree(blocks, 0);
    }

    /** `pack`: coalesce from the start of the heap until a run of `nsize` bytes is found. */
    static method PackFor(mem: array<u16>, heapEnd: nat, nsize: u16, ghost bs: seq<Block>) returns (p: Option<nat>)
      requires Region(ByteCount, mem[..], heapEnd, bs) && heapEnd <= MAX_SIZE
      requires 0 < nsize && nsize % 2 == 0
      modifies mem
      ensures var (cs, k) := PackTo(bs, 0, nsize / 2);
              && Region(ByteCount, mem[..], heapEnd, cs)
              && (k.None? ==> p.None?)
              && (k.Some? ==> k.value < |cs| && p == Some(Words(cs[..k.value])))
      ensures Untouched(old(mem[..]), mem[..], bs)
    {
      hide At, Done, Coalesce, Region, Untouched, TailRun, RunStart, Words, Sized, Wrap16, PackTo;
      ghost var m0, i := mem[..], 0;
      var b: nat, best: nat, bsize: u16 := 0, 0, 0;
      AtStart(ByteCount, m0, heapEnd, bs);
      AtHeader(ByteCount, m0, m0, heapEnd, bs, i, b, best, bsize / 2);
      while mem[b] != 0
        invariant i <= |bs| && b < mem.Length
        invariant At(ByteCount, m0, mem[..], heapEnd, bs, i, b, best, bsize / 2) && bsize % 2 == 0
        invariant PackTo(bs, 0, nsize / 2) == PackTo(bs, i, nsize / 2)
        decreases |bs| - i
      {
        ghost var m := mem[..];
        AtHeader(ByteCount, m0, m, heapEnd, bs, i, b, best, bsize / 2);
        PackToUnfold(bs, i, nsize / 2);
        var psize := mem[b];
        if InUse(ByteCount, psize) {
          AtUsed(ByteCount, m0, m, heapEnd, bs, i, b, best, bsize / 2);
          AtStop(ByteCount, m0, m, heapEnd, bs, i, b, best, bsize / 2);
          if bsize != 0 {
            mem[best] := bsize;
            if bsize >= nsize {
              return Some(best);
            }
            bsize := 0;
          }
          b := b + Length(ByteCount, psize);
          best := b;
        } else {
          AtFree(ByteCount, m0, m, heapEnd, bs, i, b, best, bsize / 2);
          Fits16(bsize + psize);
          bsize := Wrap16(bsize + psize);
          mem[b] := 0;
          b := b + Length(ByteCount, psize);
        }
        i := i + 1;
        AtHeader(ByteCount, m0, mem[..], heapEnd, bs, i, b, best, bsize / 2);
      }
      AtHeader(ByteCount, m0, mem[..], heapEnd, bs, i, b, best, bsize / 2);
      AtStop(ByteCount, m0, mem[..], heapEnd, bs, i, b, best, bsize / 2);
      PackToUnfold(bs, i, nsize / 2);
      if bsize != 0 {
        mem[best] := bsize;
        if bsize >= nsize {
          return Some(best);
        }
      }
      p := None;
    }

    // ----- Allocation

    /** The walk over blocks in use (the two inner loops of `MEM_alloc`). */
    static method SkipUsed(mem: array<u16>, heapEnd: nat, p0: nat, ghost bs: seq<Block>, ghost k0: nat)
      returns (p: nat, ghost k: nat)
      requires Region(ByteCount, mem[..], heapEnd, bs) && k0 <= |bs| && p0 == Words(bs[..k0])
      ensures k == NextFree(bs, k0) && p == Words(bs[..k])
    {
      hide Words, Region, NextFree, InUse, Length;
      ghost var m := mem[..];
      p, k := p0, k0;
      Peek(ByteCount, m, heapEnd, bs, k);
      while InUse(ByteCount, mem[p])
        invariant k0 <= k <= |bs| && p == Words(bs[..k]) <= heapEnd < mem.Length
        invariant NextFree(bs, k0) == NextFree(bs, k)
        decreases |bs| - k
      {
        Peek(ByteCount, m, heapEnd, bs, k);
        NextHere(bs, k);
        p := p + Length(ByteCount, mem[p]);
        k := k + 1;
        Peek(ByteCount, m, heapEnd, bs, k);
      }
      Peek(ByteCount, m, heapEnd, bs, k);
      NextHere(bs, k);
    }

    /** The search of `MEM_alloc`: from the block at `free` on, over unused blocks that are too small
        and over blocks in use. */
    static method Search(mem: array<u16>, heapEnd: nat, free: nat, adjsize: u16, ghost bs: seq<Block>, ghost k0: nat)
      returns (p: nat, ghost k: nat)
      requires Region(ByteCount, mem[..], heapEnd, bs) && k0 <= |bs| && free == Words(bs[..k0])
      requires k0 < |bs| ==> !bs[k0].used
      requires adjsize % 2 == 0
      ensures k == FirstFit(bs, k0, adjsize / 2) && p == Words(bs[..k]) <= heapEnd < mem.Length
      ensures k == |bs| <==> mem[p] == 0
    {
      hide Words, Region, FirstFit, NextFree, InUse, Length;
      ghost var m, n := mem[..], adjsize / 2;
      p, k := free, k0;
      Peek(ByteCount, m, heapEnd, bs, k);
      while mem[p] != 0 && adjsize > mem[p]
        invariant k <= |bs| && p == Words(bs[..k]) <= heapEnd < mem.Length
        invariant k < |bs| ==> !bs[k].used
        invariant FirstFit(bs, k0, n) == FirstFit(bs, k, n)
        decreases |bs| - k
      {
        Peek(ByteCount, m, heapEnd, bs, k);
        FitHere(bs, k, n);
        FitSkip(bs, k + 1, n);
        p, k := SkipUsed(mem, heapEnd, p + Length(ByteCount, mem[p]), bs, k + 1);
        Peek(ByteCount, m, heapEnd, bs, k);
      }
      Peek(ByteCount, m, heapEnd, bs, k);
      FitHere(bs, k, n);
    }

    /** The choice of a block in `MEM_alloc`: the block at `free` if it is large enough, else the next
        one that is, else whatever packing finds. */
    static method Find(mem: array<u16>, heapEnd: nat, free: nat, adjsize: u16, ghost h: HeapState)
      returns (p: Option<nat>, ghost k: nat)
      requires Region(ByteCount, mem[..], heapEnd, h.blocks) && Inv(h, heapEnd) && !h.needPack
      requires free == Words(h.blocks[..h.free]) && adjsize % 2 == 0
      modifies mem
      ensures Region(ByteCount, mem[..], heapEnd, h.blocks) && Untouched(old(mem[..]), mem[..], h.blocks)
      ensures k == (if adjsize > 0 then Choose(h, adjsize / 2) else h.free) && k <= |h.blocks|
      ensures adjsize > 0 && k == |h.blocks| ==> p == None
      ensures adjsize == 0 || k < |h.blocks| ==> p == Some(Words(h.blocks[..k]))
    {
      ghost var m, bs, n := mem[..], h.blocks, adjsize / 2;
      hide Words, Region, Packed, Sized, Untouched, FirstFit, PackTo, Inv;
      k := h.free;
      Peek(ByteCount, m, heapEnd, bs, k);
      FitHere(bs, k, n);
      UntouchedSame(m, bs);
      if adjsize > mem[free] {
        var q;
        q, k := Search(mem, heapEnd, free, adjsize, bs, h.free);
        if mem[q] == 0 {
          PackToPacked(bs, 0, n);
          k := FirstFit(bs, 0, n);
          p := PackFor(mem, heapEnd, adjsize, bs);
        } else {
          p := Some(q);
        }
      } else {
        p := Some(free);
      }
    }

    /** The end of `MEM_alloc`: put the first `adjsize` bytes of the block at `p` to use and look for the
        next unused block. An `adjsize` of 0 leaves a block in use that is 0 words long. */
    static method Take(mem: array<u16>, heapEnd: nat, p: nat, adjsize: u16, ghost h: HeapState, ghost k: nat)
      returns (free: nat)
      requires Region(ByteCount, mem[..], heapEnd, h.blocks) && Inv(h, heapEnd) && !h.needPack
      requires k <= |h.blocks| && p == Words(h.blocks[..k]) && adjsize % 2 == 0
      requires adjsize > 0 ==> k < |h.blocks| && !h.blocks[k].used && adjsize / 2 <= h.blocks[k].size
      requires adjsize == 0 ==> k == h.free
      modifies mem
      ensures adjsize > 0 ==>
                && Region(ByteCount, mem[..], heapEnd, Place(h.blocks, k, adjsize / 2))
                && free == Words(TakeFrom(h, k, adjsize / 2).blocks[..TakeFrom(h, k, adjsize / 2).free])
                && Untouched(old(mem[..]), mem[..], h.blocks)
      ensures adjsize == 0 ==> p < mem.Length && mem[p] == 1 && free == p
    {
      ghost var m, bs, n := mem[..], h.blocks, adjsize / 2;
      Peek(ByteCount, m, heapEnd, bs, k);
      hide Words, Region, Inv, NextFree, Place, Untouched, TakeFrom;
      free := p + adjsize / 2;
      var remaining := mem[p] - adjsize;
      ghost var j;
      if remaining > 0 {
        mem[free] := remaining;
      } else {
        free, j := SkipUsed(mem, heapEnd, free, bs, if n > 0 then k + 1 else k);
      }
      ghost var m1 := mem[..];
      mem[p] := adjsize + 1;
      if n > 0 {
        TakeFacts(h, heapEnd, k, n);
        TakeWrites(m, heapEnd, bs, k, n, m1, mem[..]);
      }
    }

    /** `MEM_alloc`. The two sizes whose rounded size is cut to 0 break the tiling; every other request
        does what `AllocHeap` says and writes only words of unused blocks. */
    method Alloc(size: u16) returns (r: Option<nat>)
      requires Valid()
      modifies this, mem
      ensures size == 0 || AdjWords(size) > 0 ==>
                && Valid()
                && (State(), r) == AllocHeap(old(State()), size)
                && Untouched(old(mem[..]), mem[..], old(blocks))
      ensures size == 65533 || size == 65534 ==> free < mem.Length && mem[free] == 1 && r == Some(free + 1)
    {
      hide *;
      ghost var m0, h0 := mem[..], State();
      Parts();
      AllocCases(h0, size);
      Adjusted(size);
      UntouchedSame(m0, blocks);
      if size == 0 {
        return None;
      }
      if needPack {
        PackAll();
      }
      ghost var m1, h1 := mem[..], State();
      Parts();
      r := AllocBytes(Adjust(size));
      if AdjWords(size) > 0 {
        FrameChain(m0, m1, mem[..], h0.blocks, h1.blocks);
      }
    }

    /** `MEM_alloc` once the heap is packed and the size is rounded. */
    method AllocBytes(adjsize: u16) returns (r: Option<nat>)
      requires Valid() && !needPack && adjsize % 2 == 0
      modifies this, mem
      ensures adjsize > 0 ==>
                && Valid()
                && (State(), r) == AllocWords(old(State()), adjsize / 2)
                && Untouched(old(mem[..]), mem[..], old(blocks))
      ensures adjsize == 0 ==> free < mem.Length && mem[free] == 1 && r == Some(free + 1)
    {
      hide *;
      ghost var m, h := mem[..], State();
      Parts();
      var p, k := Find(mem, heapEnd, free, adjsize, h);
      AllocWordsAt(h, adjsize / 2);
      if p == None {
        Whole(h);
        return None;
      }
      ghost var m1 := mem[..];
      free := Take(mem, heapEnd, p.value, adjsize, h, k);
      if adjsize > 0 {
        UntouchedChain(m, m1, mem[..], h.blocks);
        TakeFacts(h, heapEnd, k, adjsize / 2);
        ghost var h' := TakeFrom(h, k, adjsize / 2);
        blocks, freeIndex := h'.blocks, h'.free;
        Whole(h');
      }
      r := Some(p.value + 1);
    }

    /** What `Valid` and `State` stand for. */
    lemma Parts()
      requires Valid()
      ensures mem.Length == heapEnd + 1 && heapEnd <= MAX_SIZE && heapEnd <= 0x7FFF
      ensures Region(ByteCount, mem[..], heapEnd, blocks)
      ensures State() == HeapState(blocks, freeIndex, needPack) && Inv(State(), heapEnd)
      ensures free == Words(blocks[..freeIndex])
      ensures freeIndex <= |blocks|
    {
    }

    lemma Whole(h: HeapState)
      requires h == HeapState(blocks, freeIndex, needPack)
      requires mem.Length == heapEnd + 1 && heapEnd <= MAX_SIZE
      requires Region(ByteCount, mem[..], heapEnd, blocks) && Inv(h, heapEnd)
      requires freeIndex <= |blocks| && free == Words(blocks[..freeIndex])
      ensures Valid() && State() == h
    {
    }

    /** `MEM_free`: clear the used flag and ask for packing at the next allocation. A block already given
        back stays as it is; only a library built to log errors, which `checked` stands for, notices. */
    method Free(ptr: Option<nat>, checked: bool)
      requires Valid()
      requires ptr.Some? ==> 0 < ptr.value && BlockAt(blocks, 0, ptr.value - 1) < |blocks|
      modifies this, mem
      ensures Valid()
      ensures ptr.None? ==> State() == old(State()) && mem[..] == old(mem[..])
      ensures ptr.Some? && old(OwnsPayload(State(), ptr.value)) ==>
                && State() == FreeHeap(old(State()), ptr.value)
                && ptr.value <= mem.Length
                && mem[..] == old(mem[..])[ptr.value - 1 := mem[ptr.value - 1]]
      ensures ptr.Some? && !old(OwnsPayload(State(), ptr.value)) ==>
                && State() == old(State()).(needPack := old(needPack) || !checked)
                && mem[..] == old(mem[..])
    {
      hide *;
      Parts();
      if ptr != None {
        var block := ptr.value - 1;
        ghost var m, h, k := mem[..], State(), BlockAt(blocks, 0, block);
        Peek(ByteCount, m, heapEnd, blocks, k);
        PayloadOf(h, ptr.value);
        if InUse(ByteCount, mem[block]) {
          FreeOnce(m, heapEnd, h, k);
          mem[block] := mem[block] / 2 * 2;
          needPack := true;
          blocks := Release(blocks, k);
          assert mem[..] == m[block := m[block] / 2 * 2];
          Whole(FreeHeap(h, ptr.value));
        } else if !checked {
          FreeAgain(m, heapEnd, h, k);
          mem[block] := mem[block] / 2 * 2;
          needPack := true;
          assert mem[..] == m;
          Whole(h.(needPack := true));
        }
      }
    }

    /** The owner of a block in use writes to its payload. */
    method Write(p: nat, v: u16, ghost s: Span)
      requires Valid() && Live(blocks, 0, s) && s.start < p < s.start + s.size
      modifies mem
      ensures Valid() && State() == old(State())
      ensures p < mem.Length && mem[..] == old(mem[..])[p := v]
    {
      hide *;
      Parts();
      WriteInside(mem[..], heapEnd, State(), s, p, v);
      ghost var m := mem[..];
      mem[p] := v;
      assert mem[..] == m[p := v];
      Whole(State());
    }

    /** One request of a client that keeps the record `c`. */
    method Serve(q: Request, c: Client, checked: bool) returns (r: Option<nat>)
      requires Valid() && Agrees(c, blocks, mem[..])
      modifies this, mem
      ensures Valid() && Agrees(After(c, q, r), blocks, mem[..])
      ensures Answered(c, old(State()), q, State(), r)
    {
      hide *;
      ghost var m, h := mem[..], State();
      Parts();
      AfterIs(c, q);
      AnsweredIs(c, h, heapEnd, q);
      r := None;
      match q
      case Ask(size) =>
        if size == 0 || AdjWords(size) > 0 {
          r := Alloc(size);
          Parts();
          AskAgrees(c, h, heapEnd, size, m, mem[..]);
        }
      case Give(p) =>
        if Holds(c, p) {
          GiveReady(c, h, m, p);
          Free(Some(p), checked);
          Parts();
          GiveAgrees(c, h, heapEnd, p, m, mem[..]);
        }
      case Tidy =>
        PackAll();
        Parts();
        TidyAgrees(c, h, heapEnd, m, mem[..]);
      case Put(p, v) =>
        if Inside(c, p) {
          ghost var s := PutReady(c, h.blocks, m, p);
          Write(p, v, s);
          Parts();
          PutAgrees(c, h.blocks, m, p, v);
        }
    }

    /** Every run of a client, from a fresh heap on: the blocks in use are the ones it holds, and they hold
        what it last wrote to them. What it holds and last wrote is told by its requests and the answers
        alone, and these by the heap at each request. */
    method Run(qs: seq<Request>, checked: bool) returns (c: Client, rs: seq<Option<nat>>, ghost hs: seq<HeapState>)
      requires Valid() && forall s :: !Live(blocks, 0, s)
      modifies this, mem
      ensures Valid() && Served(qs, rs, hs) && hs[0] == old(State()) && hs[|qs|] == State() && c == Record(qs, rs)
      ensures forall s :: Live(blocks, 0, s) <==> s in c.held
      ensures forall p :: p in c.written ==> Inside(c, p) && p < mem.Length && mem[p] == c.written[p]
    {
      hide *;
      c, rs, hs := Client({}, map[]), [], [State()];
      RecordNone();
      NothingAgrees(blocks, mem[..]);
      ServedNone(qs, hs);
      for i := 0 to |qs|
        invariant Valid() && |rs| == i && c == Record(qs[..i], rs) && Agrees(c, blocks, mem[..])
        invariant Served(qs[..i], rs, hs) && |hs| == i + 1 && hs[i] == State() && hs[0] == old(State())
      {
        var r := Serve(qs[i], c, checked);
        RecordNext(qs, rs, i, r);
        ServedNext(qs, rs, hs, i, r, State());
        c, rs, hs := After(c, qs[i], r), rs + [r], hs + [State()];
      }
      assert qs[..|qs|] == qs;
      AgreesIs(c, blocks, mem[..]);
    }
  }

  // ----- A client and its record

  /** What a client holds, and what it last wrote to which word of it. */
  datatype Client = Client(held: set<Span>, written: map<nat, u16>)

  datatype Request = Ask(size: u16) | Give(p: nat) | Tidy | Put(p: nat, v: u16)

  predicate Holds(c: Client, p: nat) {
    exists s | s in c.held :: s.start + 1 == p
  }

  /** Word `p` is behind the header of a block the client holds. */
  predicate Inside(c: Client, p: nat) {
    exists s | s in c.held :: s.start < p < s.start + s.size
  }

  /** The record after a request answered with `r`; a client makes no request that its record does not
      allow. */
  function After(c: Client, q: Request, r: Option<nat>): Client {
    match q
    case Ask(size) =>
      if r.Some? && r.value > 0 then c.(held := c.held + {Span(r.value - 1, AdjWords(size))}) else c
    case Give(p) =>
      if Holds(c, p) then
        var rest := Client(set s | s in c.held && s.start + 1 != p, map[]);
        rest.(written := map k | k in c.written && Inside(rest, k) :: c.written[k])
      else c
    case Tidy => c
    case Put(p, v) => if Inside(c, p) then c.(written := c.written[p := v]) else c
  }

  /** The record of a client that starts with nothing. */
  function Record(qs: seq<Request>, rs: seq<Option<nat>>): Client
    requires |qs| == |rs|
  {
    if qs == [] then Client({}, map[])
    else After(Record(qs[..|qs| - 1], rs[..|rs| - 1]), qs[|qs| - 1], rs[|rs| - 1])
  }

  /** What the record is to a client: it may write to every word of a block it holds but the header; a pointer it is
      given starts a block of its own; giving one back takes with it what was written there, and nothing else. */
  lemma RecordMeans(c: Client, s: Span, p: nat, v: u16, size: u16)
    ensures s in c.held && s.start < p < s.start + s.size ==>
              After(c, Put(p, v), None) == Client(c.held, c.written[p := v])
    ensures p > 0 ==> After(c, Ask(size), Some(p)) == Client(c.held + {Span(p - 1, AdjWords(size))}, c.written)
    ensures s in c.held ==>
              var d := After(c, Give(s.start + 1), None);
              && (forall t :: t in d.held <==> t in c.held && t.start != s.start)
              && (forall k :: k in d.written ==> k in c.written && d.written[k] == c.written[k])
              && (forall k, t :: k in c.written && t in d.held && t.start < k < t.start + t.size ==> k in d.written)
  {
    if s in c.held {
      assert Holds(c, s.start + 1);
    }
  }

  /** The blocks in use are the ones held, and hold what was written. */
  ghost predicate Agrees(c: Client, bs: seq<Block>, m: seq<u16>) {
    && (forall s :: Live(bs, 0, s) <==> s in c.held)
    && (forall p :: p in c.written ==> Inside(c, p) && p < |m| && m[p] == c.written[p])
  }

  lemma AgreesIs(c: Client, bs: seq<Block>, m: seq<u16>)
    requires Agrees(c, bs, m)
    ensures forall s :: Live(bs, 0, s) <==> s in c.held
    ensures forall p :: p in c.written ==> Inside(c, p) && p < |m| && m[p] == c.written[p]
  {
  }

  lemma NothingAgrees(bs: seq<Block>, m: seq<u16>)
    requires forall s :: !Live(bs, 0, s)
    ensures Agrees(Client({}, map[]), bs, m)
  {
  }

  lemma RecordNone()
    ensures forall qs: seq<Request> :: qs[..0] == []
    ensures Record([], []) == Client({}, map[])
  {
  }

  lemma {:induction false} RecordNext(qs: seq<Request>, rs: seq<Option<nat>>, i: nat, r: Option<nat>)
    requires i < |qs| && |rs| == i
    ensures Record(qs[..i + 1], rs + [r]) == After(Record(qs[..i], rs), qs[i], r)
  {
    assert qs[..i + 1][..i] == qs[..i];
    assert (rs + [r])[..i] == rs;
  }

  lemma AfterIs(c: Client, q: Request)
    ensures q.Ask? ==> After(c, q, None) == c
    ensures q.Give? && !Holds(c, q.p) ==> After(c, q, None) == c
    ensures q.Put? && !Inside(c, q.p) ==> After(c, q, None) == c
  {
  }

  /** What a request makes of the heap, and its answer: `None` exactly when no run of adjacent unused blocks has the
      words asked for. */
  ghost predicate Answered(c: Client, h: HeapState, q: Request, h': HeapState, r: Option<nat>) {
    match q
    case Ask(size) =>
      if size == 0 || AdjWords(size) > 0 then
        && h.free <= |h.blocks| && (h', r) == AllocHeap(h, size)
        && (r == None <==> size == 0 || !HasRun(h.blocks, AdjWords(size)))
      else h' == h && r == None
    case Give(p) => r == None && if Holds(c, p) then OwnsPayload(h, p) && h' == FreeHeap(h, p) else h' == h
    case Tidy => h' == PackHeap(h) && r == None
    case Put(p, v) => h' == h && r == None
  }

  lemma AnsweredIs(c: Client, h: HeapState, len: nat, q: Request)
    requires Inv(h, len) && h.free <= |h.blocks|
    ensures q.Ask? && (q.size == 0 || AdjWords(q.size) > 0) ==> Answered(c, h, q, AllocHeap(h, q.size).0, AllocHeap(h, q.size).1)
    ensures q.Ask? && !(q.size == 0 || AdjWords(q.size) > 0) ==> Answered(c, h, q, h, None)
    ensures q.Give? && Holds(c, q.p) && OwnsPayload(h, q.p) ==> Answered(c, h, q, FreeHeap(h, q.p), None)
    ensures q.Give? && !Holds(c, q.p) ==> Answered(c, h, q, h, None)
    ensures q.Tidy? ==> Answered(c, h, q, PackHeap(h), None)
    ensures q.Put? ==> Answered(c, h, q, h, None)
  {
    hide Inv, HasRun, FreeHeap, PackHeap, OwnsPayload;
    if q.Ask? && q.size != 0 && AdjWords(q.size) > 0 {
      AllocComplete(h, len, q.size);
    }
  }

  /** The heaps of a run: `hs[i]` when request `i` comes. */
  ghost predicate Served(qs: seq<Request>, rs: seq<Option<nat>>, hs: seq<HeapState>) {
    && |rs| == |qs| && |hs| == |qs| + 1
    && forall i :: 0 <= i < |qs| ==> Answered(Record(qs[..i], rs[..i]), hs[i], qs[i], hs[i + 1], rs[i])
  }

  lemma ServedNone(qs: seq<Request>, hs: seq<HeapState>)
    requires |hs| == 1
    ensures Served(qs[..0], [], hs)
  {
  }

  lemma {:induction false} ServedNext(qs: seq<Request>, rs: seq<Option<nat>>, hs: seq<HeapState>, n: nat, r: Option<nat>, h: HeapState)
    requires n < |qs| && Served(qs[..n], rs, hs) && Answered(Record(qs[..n], rs), hs[n], qs[n], h, r)
    ensures Served(qs[..n + 1], rs + [r], hs + [h])
  {
    hide Answered, Record;
    var q, a, g := qs[..n + 1], rs + [r], hs + [h];
    assert rs[..n] == rs;
    forall i | 0 <= i < |q| ensures Answered(Record(q[..i], a[..i]), g[i], q[i], g[i + 1], a[i]) {
      assert a[..i] == rs[..i];
      if i < n {
        assert q[..i] == qs[..n][..i] && q[i] == qs[..n][i];
        assert Answered(Record(qs[..n][..i], rs[..i]), hs[i], qs[..n][i], hs[i + 1], rs[i]);
      } else {
        assert q[..n] == qs[..n];
      }
    }
  }

  /** A word inside a span held is not in an unused block. */
  lemma WrittenKept(c: Client, bs: seq<Block>, m: seq<u16>, m': seq<u16>, p: nat)
    requires Agrees(c, bs, m) && Untouched(m, m', bs) && p in c.written
    ensures p < |m'| && m'[p] == c.written[p]
  {
    var s :| s in c.held && s.start < p < s.start + s.size;
    assert Live(bs, 0, s);
    hide Live;
    PayloadKept(m, m', bs, s, p);
  }

  lemma InsideMore(c: Client, d: Client, p: nat)
    requires Inside(c, p) && c.held <= d.held
    ensures Inside(d, p)
  {
  }

  lemma AskAgrees(c: Client, h: HeapState, len: nat, size: u16, m: seq<u16>, m': seq<u16>)
    requires Inv(h, len) && Agrees(c, h.blocks, m) && (size == 0 || AdjWords(size) > 0) && h.free <= |h.blocks|
    requires Untouched(m, m', h.blocks)
    ensures Agrees(After(c, Ask(size), AllocHeap(h, size).1), AllocHeap(h, size).0.blocks, m')
  {
    var (h', r) := AllocHeap(h, size);
    var d := After(c, Ask(size), r);
    hide Live, Inv, AllocHeap, Untouched;
    forall s ensures Live(h'.blocks, 0, s) <==> s in d.held {
      AllocLive(h, len, size, s);
    }
    forall p | p in d.written ensures Inside(d, p) && p < |m'| && m'[p] == d.written[p] {
      WrittenKept(c, h.blocks, m, m', p);
      InsideMore(c, d, p);
    }
  }

  lemma TidyAgrees(c: Client, h: HeapState, len: nat, m: seq<u16>, m': seq<u16>)
    requires Inv(h, len) && Agrees(c, h.blocks, m) && Untouched(m, m', h.blocks)
    ensures Agrees(After(c, Tidy, None), PackHeap(h).blocks, m')
  {
    forall s ensures Live(PackHeap(h).blocks, 0, s) <==> s in c.held {
      CoalesceLive(h.blocks, 0, s);
    }
    hide Live, Inv, Untouched;
    forall p | p in c.written ensures Inside(c, p) && p < |m'| && m'[p] == c.written[p] {
      WrittenKept(c, h.blocks, m, m', p);
    }
  }

  lemma PutReady(c: Client, bs: seq<Block>, m: seq<u16>, p: nat) returns (s: Span)
    requires Agrees(c, bs, m) && Inside(c, p)
    ensures Live(bs, 0, s) && s.start < p < s.start + s.size
  {
    s :| s in c.held && s.start < p < s.start + s.size;
  }

  lemma PutAgrees(c: Client, bs: seq<Block>, m: seq<u16>, p: nat, v: u16)
    requires Agrees(c, bs, m) && Inside(c, p) && p < |m|
    ensures Agrees(After(c, Put(p, v), None), bs, m[p := v])
  {
    var d := After(c, Put(p, v), None);
    hide Live;
    forall k | k in d.written ensures Inside(d, k) && k < |m| && m[p := v][k] == d.written[k] {
      InsideMore(c, d, if k == p then p else k);
    }
  }

  /** The pointer of a span held is behind the header of a block in use. */
  lemma GiveReady(c: Client, h: HeapState, m: seq<u16>, p: nat)
    requires Agrees(c, h.blocks, m) && Holds(c, p) && Sized(h.blocks)
    ensures 0 < p && BlockAt(h.blocks, 0, p - 1) < |h.blocks| && OwnsPayload(h, p)
  {
    var s :| s in c.held && s.start + 1 == p;
    var k := LiveIndex(h.blocks, 0, s);
    BlockAtStart(h.blocks, 0, k);
  }

  lemma GiveAgrees(c: Client, h: HeapState, len: nat, p: nat, m: seq<u16>, m': seq<u16>)
    requires Inv(h, len) && Agrees(c, h.blocks, m) && Holds(c, p) && OwnsPayload(h, p)
    requires p <= |m| == |m'| && m' == m[p - 1 := m'[p - 1]]
    ensures Agrees(After(c, Give(p), None), FreeHeap(h, p).blocks, m')
  {
    var d := After(c, Give(p), None);
    hide Live, Inv, FreeHeap;
    forall s ensures Live(FreeHeap(h, p).blocks, 0, s) <==> s in d.held {
      FreeLive(h, len, p, s);
    }
    forall k | k in d.written ensures Inside(d, k) && k < |m'| && m'[k] == d.written[k] {
      assert k in c.written;
      HeaderApart(c, h.blocks, m, d, k, p);
    }
  }

  /** The header of the block given back is no word of another. */
  lemma HeaderApart(c: Client, bs: seq<Block>, m: seq<u16>, d: Client, k: nat, p: nat)
    requires Agrees(c, bs, m) && Holds(c, p) && d.held <= c.held && Inside(d, k)
    requires forall s :: s in d.held ==> s.start + 1 != p
    ensures k != p - 1
  {
    var s :| s in c.held && s.start + 1 == p;
    var t :| t in d.held && t.start < k < t.start + t.size;
    assert Live(bs, 0, s) && Live(bs, 0, t);
    hide Live;
    LiveDisjoint(bs, 0, s, t);
  }

  lemma WriteInside(m: seq<u16>, end: nat, h: HeapState, s: Span, p: nat, v: u16)
    requires Region(ByteCount, m, end, h.blocks) && Inv(h, end) && Live(h.blocks, 0, s) && s.start < p < s.start + s.size
    ensures p < end < |m| && Region(ByteCount, m[p := v], end, h.blocks)
  {
    SegWords(ByteCount, m, 0, end, h.blocks);
    hide Words, Sized, Seg, BlockAt;
    LiveInside(h.blocks, 0, s);
    InteriorStartsNone(h.blocks, 0, s, p);
    RegionWrite(ByteCount, m, end, h.blocks, p, v);
  }

  lemma PayloadOf(h: HeapState, p: nat)
    requires 0 < p && BlockAt(h.blocks, 0, p - 1) < |h.blocks|
    ensures OwnsPayload(h, p) <==> h.blocks[BlockAt(h.blocks, 0, p - 1)].used
    ensures OwnsPayload(h, p) ==> FreeHeap(h, p) == HeapState(Release(h.blocks, BlockAt(h.blocks, 0, p - 1)), h.free, true)
  {
  }

  lemma FreeOnce(m: seq<u16>, end: nat, h: HeapState, k: nat)
    requires Region(ByteCount, m, end, h.blocks) && Inv(h, end) && k < |h.blocks| && h.blocks[k].used
    ensures var b := Words(h.blocks[..k]);
            b < |m| && Region(ByteCount, m[b := m[b] / 2 * 2], end, Release(h.blocks, k))
    ensures Inv(HeapState(Release(h.blocks, k), h.free, true), end) && h.free <= |h.blocks|
    ensures |Release(h.blocks, k)| == |h.blocks| && Words(Release(h.blocks, k)[..h.free]) == Words(h.blocks[..h.free])
  {
    Peek(ByteCount, m, end, h.blocks, k);
    ReleaseRegion(ByteCount, m, end, h.blocks, k);
    BlockAtStart(h.blocks, 0, k);
    FreeInv(h, end, Words(h.blocks[..k]) + 1);
    FreeStarts(h.blocks, k, h.free);
    hide Words, Packed, Sized;
  }

  /** The header of an unused block has no flag to clear. */
  lemma FreeAgain(m: seq<u16>, end: nat, h: HeapState, k: nat)
    requires Region(ByteCount, m, end, h.blocks) && Inv(h, end) && k < |h.blocks| && !h.blocks[k].used
    ensures Words(h.blocks[..k]) < |m| && m[Words(h.blocks[..k])] / 2 * 2 == m[Words(h.blocks[..k])]
    ensures Inv(h.(needPack := true), end)
  {
    Peek(ByteCount, m, end, h.blocks, k);
  }
}
