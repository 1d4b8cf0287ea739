/** Regions of 16-bit words that are tiled by self-describing blocks.

    Both allocators of the library (`src/memory.c` and `src/vram.c`) keep no list of blocks: the
    word at the start of a block says how long the block is and whether it is in use, the next
    header follows where the block ends, and a zero word closes the region. This module defines
    what such a region stands for, a sequence of blocks, and the facts about block sequences that
    both allocators rely on. */
module Blocks {
  import opened Machine

  /** `size` counts words of the region and includes the header. */
  datatype Block = Block(size: nat, used: bool)

  /** The two header layouts: a byte count with the used flag in bit 0 (`src/memory.c:12`), and a
      word count with the used flag in bit 15 (`src/vram.c:14-16`). */
  datatype Format = ByteCount | WordCount

  const MAX_SIZE := 0x7FFF

  function Header(f: Format, b: Block): nat {
    match f
    case ByteCount => 2 * b.size + (if b.used then 1 else 0)
    case WordCount => b.size + (if b.used then 0x8000 else 0)
  }

  // ----- What a region stands for

  /** Blocks `bs` tile the words of `mem` from `lo` up to `hi`. */
  ghost predicate Seg(f: Format, mem: seq<u16>, lo: nat, hi: nat, bs: seq<Block>)
    decreases |bs|
  {
    if bs == [] then
      lo == hi
    else
      && 0 < bs[0].size <= MAX_SIZE
      && lo + bs[0].size <= hi <= |mem|
      && mem[lo] == Header(f, bs[0])
      && Seg(f, mem, lo + bs[0].size, hi, bs[1..])
  }

  /** Blocks `bs` tile the region from its first word up to the closing zero word at `end`. */
  ghost predicate Region(f: Format, mem: seq<u16>, end: nat, bs: seq<Block>) {
    && Seg(f, mem, 0, end, bs)
    && end < |mem|
    && mem[end] == 0
  }

  function Words(bs: seq<Block>): nat {
    if bs == [] then 0 else bs[0].size + Words(bs[1..])
  }

  function FreeWords(bs: seq<Block>): nat {
    if bs == [] then 0 else (if bs[0].used then 0 else bs[0].size) + FreeWords(bs[1..])
  }

  function UsedWords(bs: seq<Block>): nat {
    if bs == [] then 0 else (if bs[0].used then bs[0].size else 0) + UsedWords(bs[1..])
  }

  /** The span of words `[start, start + size)` of one block. */
  datatype Span = Span(start: nat, size: nat)

  /** `s` is the span of a block in use, the first block starting at `base`. */
  ghost predicate Live(bs: seq<Block>, base: nat, s: Span) {
    bs != [] && ((bs[0].used && s == Span(base, bs[0].size)) || Live(bs[1..], base + bs[0].size, s))
  }

  ghost predicate Sized(bs: seq<Block>) {
    forall i :: 0 <= i < |bs| ==> 0 < bs[i].size <= MAX_SIZE
  }

  ghost predicate AllFree(bs: seq<Block>) {
    forall i :: 0 <= i < |bs| ==> !bs[i].used
  }

  /** Some run of adjacent unused blocks has at least `n` words. */
  ghost predicate HasRun(bs: seq<Block>, n: nat) {
    exists i: nat, j: nat :: IsRun(bs, i, j, n)
  }

  ghost predicate IsRun(bs: seq<Block>, i: nat, j: nat, n: nat) {
    i <= j <= |bs| && AllFree(bs[i..j]) && n <= Words(bs[i..j])
  }

  /** No two unused blocks are adjacent. */
  ghost predicate Packed(bs: seq<Block>) {
    forall i :: 0 <= i < |bs| - 1 ==> bs[i].used || bs[i + 1].used
  }

  // ----- Concatenation

  lemma {:induction false} WordsAppend(a: seq<Block>, b: seq<Block>)
    ensures Words(a + b) == Words(a) + Words(b)
    ensures FreeWords(a + b) == FreeWords(a) + FreeWords(b)
    ensures UsedWords(a + b) == UsedWords(a) + UsedWords(b)
  {
    if a == [] {
      assert a + b == b;
    } else {
      assert (a + b)[1..] == a[1..] + b;
      WordsAppend(a[1..], b);
    }
  }

  lemma {:induction false} FreeAndUsed(bs: seq<Block>)
    ensures FreeWords(bs) + UsedWords(bs) == Words(bs)
  {
    if bs != [] {
      FreeAndUsed(bs[1..]);
    }
  }

  lemma {:induction false} LiveAppend(a: seq<Block>, b: seq<Block>, base: nat, s: Span)
    ensures Live(a + b, base, s) <==> Live(a, base, s) || Live(b, base + Words(a), s)
  {
    if a == [] {
      assert a + b == b;
    } else {
      assert (a + b)[1..] == a[1..] + b;
      LiveAppend(a[1..], b, base + a[0].size, s);
    }
  }

  lemma {:induction false} SegAppend(f: Format, mem: seq<u16>, lo: nat, mid: nat, hi: nat, a: seq<Block>, b: seq<Block>)
    requires Seg(f, mem, lo, mid, a) && Seg(f, mem, mid, hi, b) && mid <= hi <= |mem|
    ensures Seg(f, mem, lo, hi, a + b)
    decreases |a|
  {
    if a == [] {
      assert a + b == b;
    } else {
      assert (a + b)[1..] == a[1..] + b;
      SegAppend(f, mem, lo + a[0].size, mid, hi, a[1..], b);
      SegWords(f, mem, lo + a[0].size, mid, a[1..]);
    }
  }

  lemma {:induction false} SegWords(f: Format, mem: seq<u16>, lo: nat, hi: nat, bs: seq<Block>)
    requires Seg(f, mem, lo, hi, bs)
    ensures hi == lo + Words(bs)
    ensures Sized(bs)
    decreases |bs|
  {
    if bs != [] {
      SegWords(f, mem, lo + bs[0].size, hi, bs[1..]);
      assert forall i :: 0 < i < |bs| ==> bs[i] == bs[1..][i - 1];
    }
  }

  lemma {:induction false} SegSplit(f: Format, mem: seq<u16>, lo: nat, hi: nat, a: seq<Block>, b: seq<Block>)
    requires Seg(f, mem, lo, hi, a + b)
    ensures Seg(f, mem, lo, lo + Words(a), a)
    ensures Seg(f, mem, lo + Words(a), hi, b)
    decreases |a|
  {
    if a == [] {
      assert a + b == b;
    } else {
      assert (a + b)[1..] == a[1..] + b;
      SegSplit(f, mem, lo + a[0].size, hi, a[1..], b);
      SegWords(f, mem, lo, hi, a + b);
      WordsAppend(a, b);
    }
  }

  lemma {:induction false} SegFrame(f: Format, mem: seq<u16>, mem': seq<u16>, lo: nat, hi: nat, bs: seq<Block>)
    requires Seg(f, mem, lo, hi, bs)
    requires |mem| == |mem'|
    requires forall k :: lo <= k < hi && k < |mem| ==> mem[k] == mem'[k]
    ensures Seg(f, mem', lo, hi, bs)
    decreases |bs|
  {
    if bs != [] {
      SegFrame(f, mem, mem', lo + bs[0].size, hi, bs[1..]);
    }
  }

  // ----- Live spans

  lemma {:induction false} LiveInside(bs: seq<Block>, base: nat, s: Span)
    requires Live(bs, base, s)
    ensures base <= s.start && s.start + s.size <= base + Words(bs)
    ensures Sized(bs) ==> 0 < s.size
  {
    if Live(bs[1..], base + bs[0].size, s) {
      assert Sized(bs) ==> Sized(bs[1..]);
      LiveInside(bs[1..], base + bs[0].size, s);
    }
  }

  /** No two live spans overlap. */
  lemma {:induction false} LiveDisjoint(bs: seq<Block>, base: nat, s: Span, t: Span)
    requires Live(bs, base, s) && Live(bs, base, t) && s != t
    ensures s.start + s.size <= t.start || t.start + t.size <= s.start
  {
    var base' := base + bs[0].size;
    if Live(bs[1..], base', s) {
      LiveInside(bs[1..], base', s);
    }
    if Live(bs[1..], base', t) {
      LiveInside(bs[1..], base', t);
    }
    if Live(bs[1..], base', s) && Live(bs[1..], base', t) {
      LiveDisjoint(bs[1..], base', s, t);
    }
  }

  /** Every live span is the span of one block in use, and the converse. */
  lemma {:induction false} LiveIndex(bs: seq<Block>, base: nat, s: Span) returns (k: nat)
    requires Live(bs, base, s)
    ensures k < |bs| && bs[k].used && bs[k].size == s.size && s.start == base + Words(bs[..k])
  {
    if bs[0].used && s == Span(base, bs[0].size) {
      k := 0;
    } else {
      k := LiveIndex(bs[1..], base + bs[0].size, s);
      assert bs[..k + 1][1..] == bs[1..][..k];
      k := k + 1;
    }
  }

  // ----- Runs of unused blocks

  /** The size of the run of unused blocks that ends the sequence. */
  function TailRun(bs: seq<Block>): nat {
    if bs == [] || bs[|bs| - 1].used then 0 else TailRun(bs[..|bs| - 1]) + bs[|bs| - 1].size
  }

  /** The size of the largest run of adjacent unused blocks. */
  function MaxRun(bs: seq<Block>): nat {
    if bs == [] then 0 else
      var m := MaxRun(bs[..|bs| - 1]);
      if TailRun(bs) > m then TailRun(bs) else m
  }

  lemma {:induction false} TailRunIsRun(bs: seq<Block>) returns (i: nat)
    ensures i <= |bs| && AllFree(bs[i..]) && Words(bs[i..]) == TailRun(bs)
  {
    if bs == [] || bs[|bs| - 1].used {
      i := |bs|;
    } else {
      var n := |bs| - 1;
      i := TailRunIsRun(bs[..n]);
      assert bs[i..] == bs[..n][i..] + [bs[n]];
      WordsAppend(bs[..n][i..], [bs[n]]);
    }
  }

  lemma {:induction false} RunInTail(bs: seq<Block>, i: nat)
    requires i <= |bs| && AllFree(bs[i..])
    ensures Words(bs[i..]) <= TailRun(bs)
  {
    var n := |bs| - 1;
    if i < |bs| {
      assert bs[n] == bs[i..][n - i];
      assert bs[i..] == bs[..n][i..] + [bs[n]];
      WordsAppend(bs[..n][i..], [bs[n]]);
      forall k | 0 <= k < |bs[..n][i..]| ensures !bs[..n][i..][k].used {
        assert bs[..n][i..][k] == bs[i..][k];
      }
      RunInTail(bs[..n], i);
    }
  }

  lemma FrontSlice(bs: seq<Block>, n: nat, i: nat, j: nat)
    requires i <= j <= n <= |bs|
    ensures bs[..n][i..j] == bs[i..j]
  {
  }

  lemma {:induction false} MaxRunIsRun(bs: seq<Block>) returns (i: nat, j: nat)
    ensures IsRun(bs, i, j, MaxRun(bs))
  {
    if bs == [] {
      i, j := 0, 0;
    } else if TailRun(bs) > MaxRun(bs[..|bs| - 1]) {
      i := TailRunIsRun(bs);
      j := |bs|;
      assert bs[i..j] == bs[i..];
    } else {
      i, j := MaxRunIsRun(bs[..|bs| - 1]);
      FrontSlice(bs, |bs| - 1, i, j);
    }
  }

  lemma {:induction false} RunBelowMax(bs: seq<Block>, i: nat, j: nat, n: nat)
    requires IsRun(bs, i, j, n)
    ensures n <= MaxRun(bs)
  {
    if j < |bs| {
      FrontSlice(bs, |bs| - 1, i, j);
      RunBelowMax(bs[..|bs| - 1], i, j, n);
    } else {
      assert bs[i..j] == bs[i..];
      RunInTail(bs, i);
    }
  }

  /** `MaxRun` is the largest `n` for which there is a run of `n` words. */
  lemma MaxRunMeaning(bs: seq<Block>, n: nat)
    ensures HasRun(bs, n) <==> n <= MaxRun(bs)
  {
    if n <= MaxRun(bs) {
      var i, j := MaxRunIsRun(bs);
      assert IsRun(bs, i, j, n);
    }
    if HasRun(bs, n) {
      var i: nat, j: nat :| IsRun(bs, i, j, n);
      RunBelowMax(bs, i, j, n);
    }
  }

  // ----- Coalescing

  /** Every run of adjacent unused blocks replaced by one block. */
  function Coalesce(bs: seq<Block>): (r: seq<Block>) {
    if bs == [] then [] else
      Extend(Coalesce(bs[..|bs| - 1]), bs[|bs| - 1])
  }

  /** `b` appended to `bs`, merged into the last block of `bs` when both are unused. */
  function Extend(bs: seq<Block>, b: Block): seq<Block> {
    if bs != [] && !bs[|bs| - 1].used && !b.used then
      bs[..|bs| - 1] + [Block(bs[|bs| - 1].size + b.size, false)]
    else
      bs + [b]
  }

  lemma CoalesceStep(bs: seq<Block>, i: nat)
    requires i < |bs|
    ensures Coalesce(bs[..i + 1]) == Extend(Coalesce(bs[..i]), bs[i])
  {
    assert bs[..i + 1][..i] == bs[..i];
  }

  lemma RunStep(bs: seq<Block>, i: nat)
    requires i < |bs|
    ensures TailRun(bs[..i + 1]) == if bs[i].used then 0 else TailRun(bs[..i]) + bs[i].size
    ensures MaxRun(bs[..i + 1]) == if TailRun(bs[..i + 1]) > MaxRun(bs[..i]) then TailRun(bs[..i + 1]) else MaxRun(bs[..i])
  {
    assert bs[..i + 1][..i] == bs[..i];
  }

  lemma WordsStep(bs: seq<Block>, i: nat)
    requires i < |bs|
    ensures Words(bs[..i + 1]) == Words(bs[..i]) + bs[i].size
    ensures FreeWords(bs[..i + 1]) == FreeWords(bs[..i]) + if bs[i].used then 0 else bs[i].size
    ensures UsedWords(bs[..i + 1]) == UsedWords(bs[..i]) + if bs[i].used then bs[i].size else 0
  {
    assert bs[..i + 1] == bs[..i] + [bs[i]];
    WordsAppend(bs[..i], [bs[i]]);
  }

  lemma ExtendRuns(bs: seq<Block>, b: Block)
    ensures TailRun(Extend(bs, b)) == TailRun(bs + [b])
    ensures MaxRun(Extend(bs, b)) == MaxRun(bs + [b])
    ensures Packed(bs) ==> Packed(Extend(bs, b))
  {
    if bs != [] && !bs[|bs| - 1].used && !b.used {
      var front, last := bs[..|bs| - 1], bs[|bs| - 1];
      var m := Block(last.size + b.size, false);
      assert (bs + [b])[..|bs|] == bs;
      assert (front + [m])[..|front|] == front;
    }
  }

  lemma ExtendFacts(bs: seq<Block>, b: Block)
    ensures Words(Extend(bs, b)) == Words(bs) + b.size
    ensures FreeWords(Extend(bs, b)) == FreeWords(bs) + if b.used then 0 else b.size
  {
    hide *;
    ExtendIs(bs, b);
    WordsSnoc(bs, b);
    if bs != [] && !bs[|bs| - 1].used && !b.used {
      var front, last := bs[..|bs| - 1], bs[|bs| - 1];
      assert bs == front + [last];
      WordsSnoc(front, last);
      WordsSnoc(front, Block(last.size + b.size, false));
    }
  }

  lemma ExtendIs(bs: seq<Block>, b: Block)
    ensures Extend(bs, b) ==
            if bs != [] && !bs[|bs| - 1].used && !b.used then bs[..|bs| - 1] + [Block(bs[|bs| - 1].size + b.size, false)] else bs + [b]
  {
  }

  lemma {:induction false} WordsSnoc(bs: seq<Block>, b: Block)
    ensures Words(bs + [b]) == Words(bs) + b.size
    ensures FreeWords(bs + [b]) == FreeWords(bs) + if b.used then 0 else b.size
  {
    WordsAppend(bs, [b]);
  }

  lemma RunSnoc(bs: seq<Block>, b: Block)
    ensures TailRun(bs + [b]) == if b.used then 0 else TailRun(bs) + b.size
    ensures MaxRun(bs + [b]) == if TailRun(bs + [b]) > MaxRun(bs) then TailRun(bs + [b]) else MaxRun(bs)
  {
    assert (bs + [b])[..|bs|] == bs;
  }

  lemma CoalesceSnoc(bs: seq<Block>, b: Block)
    ensures Coalesce(bs + [b]) == Extend(Coalesce(bs), b)
  {
    assert (bs + [b])[..|bs|] == bs;
  }

  lemma CoalesceNone()
    ensures Coalesce([]) == [] && Packed([])
  {
  }

  lemma ExtendLive(bs: seq<Block>, b: Block, base: nat, s: Span)
    ensures Live(Extend(bs, b), base, s) <==> Live(bs, base, s) || (b.used && s == Span(base + Words(bs), b.size))
  {
    LiveAppend(bs, [b], base, s);
    if bs != [] && !bs[|bs| - 1].used && !b.used {
      var front, last := bs[..|bs| - 1], bs[|bs| - 1];
      assert bs == front + [last];
      LiveAppend(front, [last], base, s);
      LiveAppend(front, [Block(last.size + b.size, false)], base, s);
    }
  }

  /** Coalescing neither makes nor loses room. */
  lemma {:induction false} CoalesceFacts(bs: seq<Block>)
    ensures Words(Coalesce(bs)) == Words(bs)
    ensures FreeWords(Coalesce(bs)) == FreeWords(bs)
    ensures TailRun(Coalesce(bs)) == TailRun(bs)
    ensures MaxRun(Coalesce(bs)) == MaxRun(bs)
    ensures Packed(Coalesce(bs))
  {
    hide *;
    if bs == [] {
      CoalesceNone();
    } else {
      var front, b := bs[..|bs| - 1], bs[|bs| - 1];
      assert bs == front + [b];
      var c := Coalesce(front);
      CoalesceFacts(front);
      CoalesceSnoc(front, b);
      ExtendFacts(c, b);
      ExtendRuns(c, b);
      WordsSnoc(front, b);
      RunSnoc(front, b);
      RunSnoc(c, b);
    }
  }

  lemma LiveSnoc(bs: seq<Block>, base: nat, s: Span)
    requires bs != []
    ensures var front, b := bs[..|bs| - 1], bs[|bs| - 1];
            Live(bs, base, s) <==> Live(front, base, s) || (b.used && s == Span(base + Words(front), b.size))
  {
    var front, b := bs[..|bs| - 1], bs[|bs| - 1];
    assert bs == front + [b];
    LiveAppend(front, [b], base, s);
  }

  /** Coalescing moves no block in use. */
  lemma {:induction false} CoalesceLive(bs: seq<Block>, base: nat, s: Span)
    ensures Live(Coalesce(bs), base, s) <==> Live(bs, base, s)
  {
    hide *;
    if bs == [] {
      CoalesceNone();
    } else {
      var front, b := bs[..|bs| - 1], bs[|bs| - 1];
      assert bs == front + [b];
      CoalesceLive(front, base, s);
      CoalesceFacts(front);
      CoalesceSnoc(front, b);
      ExtendLive(Coalesce(front), b, base, s);
      LiveSnoc(bs, base, s);
    }
  }

  lemma PackedPrefix(bs: seq<Block>, i: nat)
    requires Packed(bs) && i <= |bs|
    ensures Packed(bs[..i])
  {
  }

  /** A packed sequence is unchanged by coalescing. */
  lemma {:induction false} CoalescePacked(bs: seq<Block>)
    requires Packed(bs)
    ensures Coalesce(bs) == bs
  {
    if bs != [] {
      var front := bs[..|bs| - 1];
      PackedPrefix(bs, |bs| - 1);
      CoalescePacked(front);
      if |front| > 0 {
        assert front[|front| - 1] == bs[|front| - 1];
      }
    }
  }

  /** In a packed sequence a run is a single block. */
  lemma {:induction false} PackedRuns(bs: seq<Block>)
    requires Packed(bs)
    ensures bs != [] && !bs[|bs| - 1].used ==> TailRun(bs) == bs[|bs| - 1].size
    ensures forall k :: 0 <= k < |bs| && !bs[k].used ==> bs[k].size <= MaxRun(bs)
    ensures MaxRun(bs) > 0 ==> exists k :: 0 <= k < |bs| && !bs[k].used && bs[k].size == MaxRun(bs)
  {
    if bs != [] {
      var n := |bs| - 1;
      var front := bs[..n];
      assert forall i :: 0 <= i < n ==> front[i] == bs[i];
      PackedPrefix(bs, n);
      PackedRuns(front);
      if n > 0 {
        assert front[n - 1] == bs[n - 1];
      }
      if MaxRun(bs) > 0 {
        if MaxRun(bs) == MaxRun(front) {
          var k :| 0 <= k < |front| && !front[k].used && front[k].size == MaxRun(front);
          assert !bs[k].used && bs[k].size == MaxRun(bs);
        } else {
          assert !bs[n].used && bs[n].size == MaxRun(bs);
        }
      }
    }
  }

  lemma {:induction false} CoalesceSized(bs: seq<Block>)
    requires Sized(bs) && Words(bs) <= MAX_SIZE
    ensures Sized(Coalesce(bs))
  {
    if bs != [] {
      var front, b := bs[..|bs| - 1], bs[|bs| - 1];
      assert bs == front + [b];
      assert Sized(front) && 0 < b.size <= MAX_SIZE;
      hide *;
      WordsSnoc(front, b);
      CoalesceSized(front);
      CoalesceFacts(front);
      CoalesceSnoc(front, b);
      ExtendSized(Coalesce(front), b);
    }
  }

  lemma ExtendSized(bs: seq<Block>, b: Block)
    requires Sized(bs) && 0 < b.size && Words(bs) + b.size <= MAX_SIZE
    ensures Sized(Extend(bs, b))
  {
    LastBelowWords(bs);
    hide Words;
  }

  lemma LastBelowWords(bs: seq<Block>)
    ensures bs != [] ==> bs[|bs| - 1].size <= Words(bs)
  {
    if bs != [] {
      assert bs == bs[..|bs| - 1] + [bs[|bs| - 1]];
      WordsAppend(bs[..|bs| - 1], [bs[|bs| - 1]]);
    }
  }

  // ----- First fit

  /** The first unused block at or after index `k` with at least `n` words; `|bs|` if there is none. */
  function FirstFit(bs: seq<Block>, k: nat, n: nat): (r: nat)
    requires k <= |bs|
    ensures k <= r <= |bs|
    ensures r < |bs| ==> !bs[r].used && n <= bs[r].size
    ensures forall i :: k <= i < r ==> bs[i].used || bs[i].size < n
    decreases |bs| - k
  {
    if k == |bs| || (!bs[k].used && n <= bs[k].size) then k else FirstFit(bs, k + 1, n)
  }

  /** The first unused block at or after index `k`. */
  function NextFree(bs: seq<Block>, k: nat): (r: nat)
    requires k <= |bs|
    ensures k <= r <= |bs|
    ensures r < |bs| ==> !bs[r].used
    ensures forall i :: k <= i < r ==> bs[i].used
    decreases |bs| - k
  {
    if k == |bs| || !bs[k].used then k else NextFree(bs, k + 1)
  }

  /** Word at which the first unused block starts. */
  function FirstUnused(bs: seq<Block>): Option<nat> {
    var k := NextFree(bs, 0);
    if k < |bs| then Some(Words(bs[..k])) else None
  }

  lemma {:induction false} NextFreeSnoc(bs: seq<Block>, b: Block, k: nat)
    requires k <= |bs|
    ensures NextFree(bs + [b], k) ==
            if NextFree(bs, k) < |bs| then NextFree(bs, k) else if b.used then |bs| + 1 else |bs|
    decreases |bs| - k
  {
    if k < |bs| && bs[k].used {
      NextFreeSnoc(bs, b, k + 1);
    }
  }

  lemma FirstUnusedSnoc(bs: seq<Block>, b: Block)
    ensures FirstUnused(bs + [b]) ==
            if FirstUnused(bs).Some? then FirstUnused(bs) else if b.used then None else Some(Words(bs))
  {
    NextFreeSnoc(bs, b, 0);
    var k := NextFree(bs, 0);
    assert (bs + [b])[..k] == bs[..k];
    assert bs[..|bs|] == bs;
  }

  /** A packing walk that stops at the first run of at least `n` words: the blocks it leaves and the
      index of the block it found (`None` when it reached the end of the region). `i` blocks of `bs`
      have been walked. */
  function PackTo(bs: seq<Block>, i: nat, n: nat): (r: (seq<Block>, Option<nat>))
    requires i <= |bs|
    decreases |bs| - i
  {
    var c := Coalesce(bs[..i]);
    if TailRun(bs[..i]) >= n > 0 && (i == |bs| || bs[i].used) && c != [] then
      (c + bs[i..], Some(|c| - 1))
    else if i == |bs| then
      (c, None)
    else
      PackTo(bs, i + 1, n)
  }

  lemma {:induction false} MaxRunPrefix(bs: seq<Block>, i: nat)
    requires i <= |bs|
    ensures MaxRun(bs[..i]) <= MaxRun(bs)
  {
    if i < |bs| {
      var front := bs[..|bs| - 1];
      MaxRunPrefix(front, i);
      assert front[..i] == bs[..i];
    } else {
      assert bs[..i] == bs;
    }
  }

  /** A packing walk finds room exactly when some run of adjacent unused blocks is large enough. */
  lemma {:induction false} PackToFacts(bs: seq<Block>, i: nat, n: nat)
    requires i <= |bs| && 0 < n
    requires MaxRun(bs[..i]) >= n ==> TailRun(bs[..i]) >= n
    ensures var (cs, k) := PackTo(bs, i, n);
            && Words(cs) == Words(bs)
            && FreeWords(cs) == FreeWords(bs)
            && (k.Some? <==> n <= MaxRun(bs))
            && (k.Some? ==> k.value < |cs| && !cs[k.value].used && n <= cs[k.value].size)
            && (k.None? ==> cs == Coalesce(bs))
    decreases |bs| - i
  {
    if TailRun(bs[..i]) >= n && (i == |bs| || bs[i].used) {
      PackStop(bs, i, n);
    } else if i == |bs| {
      assert bs[..i] == bs;
      CoalesceFacts(bs);
    } else {
      RunStep(bs, i);
      PackToFacts(bs, i + 1, n);
    }
  }

  lemma PackStop(bs: seq<Block>, i: nat, n: nat)
    requires i <= |bs| && 0 < n <= TailRun(bs[..i])
    ensures var c := Coalesce(bs[..i]);
            && c != []
            && !c[|c| - 1].used && n <= c[|c| - 1].size
            && Words(c + bs[i..]) == Words(bs)
            && FreeWords(c + bs[i..]) == FreeWords(bs)
            && n <= MaxRun(bs)
  {
    hide *;
    var c := Coalesce(bs[..i]);
    CoalesceFacts(bs[..i]);
    PackedRuns(c);
    TailRunLast(c);
    assert bs == bs[..i] + bs[i..];
    WordsAppend(bs[..i], bs[i..]);
    WordsAppend(c, bs[i..]);
    MaxRunPrefix(bs, i);
    TailBelowMax(bs[..i]);
  }

  /** In a packed sequence the packing walk changes nothing and finds the first block that fits. */
  lemma {:induction false} PackToPacked(bs: seq<Block>, i: nat, n: nat)
    requires Packed(bs) && i <= |bs| && 0 < n
    requires i <= FirstFit(bs, 0, n) + 1
    ensures PackTo(bs, i, n) == (bs, var k := FirstFit(bs, 0, n); if k < |bs| then Some(k) else None)
    decreases |bs| - i
  {
    hide *;
    PackedTail(bs, i);
    PackToStep(bs, i, n);
    if 0 < i < |bs| {
      PackedNext(bs, i);
    }
    assert bs[..i] + bs[i..] == bs;
    if i <= FirstFit(bs, 0, n) && i < |bs| {
      PackToPacked(bs, i + 1, n);
    } else if i == |bs| {
      assert bs[..i] == bs;
    }
  }

  lemma PackToStep(bs: seq<Block>, i: nat, n: nat)
    requires i <= |bs|
    ensures var c := Coalesce(bs[..i]);
            PackTo(bs, i, n) ==
              if TailRun(bs[..i]) >= n > 0 && (i == |bs| || bs[i].used) && c != [] then (c + bs[i..], Some(|c| - 1))
              else if i == |bs| then (c, None)
              else PackTo(bs, i + 1, n)
  {
    hide Coalesce, TailRun;
  }

  lemma PackedNext(bs: seq<Block>, i: nat)
    requires Packed(bs) && 0 < i < |bs|
    ensures bs[i - 1].used || bs[i].used
  {
  }

  lemma PackedTail(bs: seq<Block>, i: nat)
    requires Packed(bs) && i <= |bs|
    ensures Coalesce(bs[..i]) == bs[..i]
    ensures TailRun(bs[..i]) == if i == 0 || bs[i - 1].used then 0 else bs[i - 1].size
  {
    PackedPrefix(bs, i);
    CoalescePacked(bs[..i]);
    PackedRuns(bs[..i]);
  }

  /** A packing walk moves no block in use. */
  lemma {:induction false} PackToLive(bs: seq<Block>, i: nat, n: nat, base: nat, s: Span)
    requires i <= |bs|
    ensures Live(PackTo(bs, i, n).0, base, s) <==> Live(bs, base, s)
    decreases |bs| - i
  {
    hide *;
    PackToStep(bs, i, n);
    var c := Coalesce(bs[..i]);
    if TailRun(bs[..i]) >= n > 0 && (i == |bs| || bs[i].used) && c != [] {
      assert bs == bs[..i] + bs[i..];
      CoalesceFacts(bs[..i]);
      CoalesceLive(bs[..i], base, s);
      LiveAppend(bs[..i], bs[i..], base, s);
      LiveAppend(c, bs[i..], base, s);
    } else if i == |bs| {
      assert bs[..i] == bs;
      CoalesceLive(bs, base, s);
    } else {
      PackToLive(bs, i + 1, n, base, s);
    }
  }

  lemma TailRunLast(bs: seq<Block>)
    requires TailRun(bs) > 0
    ensures bs != [] && !bs[|bs| - 1].used
  {
  }

  lemma TailBelowMax(bs: seq<Block>)
    ensures TailRun(bs) <= MaxRun(bs)
  {
  }

  // ----- Words outside the unused blocks

  /** Word `p` lies in an unused block. */
  ghost predicate InFree(bs: seq<Block>, base: nat, p: nat) {
    bs != [] && ((base <= p < base + bs[0].size && !bs[0].used) || InFree(bs[1..], base + bs[0].size, p))
  }

  lemma {:induction false} InFreeAbove(bs: seq<Block>, base: nat, p: nat)
    requires InFree(bs, base, p)
    ensures base <= p < base + Words(bs)
  {
    if !(base <= p < base + bs[0].size && !bs[0].used) {
      InFreeAbove(bs[1..], base + bs[0].size, p);
    }
  }

  lemma {:induction false} InFreeAt(bs: seq<Block>, base: nat, k: nat, p: nat)
    requires k < |bs| && !bs[k].used
    requires base + Words(bs[..k]) <= p < base + Words(bs[..k]) + bs[k].size
    ensures InFree(bs, base, p)
  {
    if k > 0 {
      assert bs[..k][1..] == bs[1..][..k - 1];
      InFreeAt(bs[1..], base + bs[0].size, k - 1, p);
    }
  }

  lemma {:induction false} InFreeAppend(a: seq<Block>, b: seq<Block>, base: nat, p: nat)
    ensures InFree(a + b, base, p) <==> InFree(a, base, p) || InFree(b, base + Words(a), p)
  {
    if a == [] {
      assert a + b == b;
    } else {
      assert (a + b)[1..] == a[1..] + b;
      InFreeAppend(a[1..], b, base + a[0].size, p);
    }
  }

  lemma InFreeSnoc(front: seq<Block>, b: Block, base: nat, p: nat)
    ensures InFree(front + [b], base, p) <==>
            InFree(front, base, p) || (!b.used && base + Words(front) <= p < base + Words(front) + b.size)
  {
    InFreeAppend(front, [b], base, p);
  }

  /** Coalescing frees no word. */
  lemma {:induction false} CoalesceInFree(bs: seq<Block>, base: nat, p: nat)
    ensures InFree(Coalesce(bs), base, p) <==> InFree(bs, base, p)
  {
    if bs != [] {
      var front, b := bs[..|bs| - 1], bs[|bs| - 1];
      CoalesceInFree(front, base, p);
      assert bs == front + [b];
      InFreeSnoc(front, b, base, p);
      CoalesceFacts(front);
      ExtendInFree(Coalesce(front), b, base, p);
    }
  }

  lemma ExtendInFree(bs: seq<Block>, b: Block, base: nat, p: nat)
    ensures InFree(Extend(bs, b), base, p) <==>
            InFree(bs, base, p) || (!b.used && base + Words(bs) <= p < base + Words(bs) + b.size)
  {
    InFreeSnoc(bs, b, base, p);
    if bs != [] && !bs[|bs| - 1].used && !b.used {
      var front, last := bs[..|bs| - 1], bs[|bs| - 1];
      assert bs == front + [last];
      WordsAppend(front, [last]);
      InFreeSnoc(front, last, base, p);
      InFreeSnoc(front, Block(last.size + b.size, false), base, p);
    }
  }

  /** The words of a live span are outside the unused blocks. */
  lemma {:induction false} LiveNotFree(bs: seq<Block>, base: nat, s: Span, p: nat)
    requires Live(bs, base, s) && s.start <= p < s.start + s.size
    ensures !InFree(bs, base, p)
  {
    var base' := base + bs[0].size;
    if Live(bs[1..], base', s) {
      LiveInside(bs[1..], base', s);
      LiveNotFree(bs[1..], base', s, p);
    } else if InFree(bs[1..], base', p) {
      InFreeAbove(bs[1..], base', p);
    }
  }

  // ----- The packing walk over a region

  lemma {:induction false} TailBelowWords(bs: seq<Block>)
    ensures TailRun(bs) <= Words(bs)
  {
    var i := TailRunIsRun(bs);
    assert bs == bs[..i] + bs[i..];
    WordsAppend(bs[..i], bs[i..]);
  }

  /** The coalesced blocks before the run of unused blocks that ends `bs[..i]`. */
  ghost function Done(bs: seq<Block>, i: nat): seq<Block>
    requires i <= |bs|
  {
    var c := Coalesce(bs[..i]);
    if TailRun(bs[..i]) > 0 && c != [] then c[..|c| - 1] else c
  }

  /** Word at which the run of unused blocks that ends `bs[..i]` starts. */
  ghost function RunStart(bs: seq<Block>, i: nat): nat
    requires i <= |bs|
  {
    TailBelowWords(bs[..i]);
    Words(bs[..i]) - TailRun(bs[..i])
  }

  /** `m` is what a packing walk makes of `m0`, tiled by `bs`, after `i` blocks: the blocks before
      the current run are coalesced, the headers inside the run are cleared and its size is known
      only to the walk, and the blocks from `i` on are untouched. */
  ghost predicate Walking(f: Format, m0: seq<u16>, m: seq<u16>, end: nat, bs: seq<Block>, i: nat) {
    && i <= |bs|
    && |m| == |m0| && end < |m| && m[end] == 0
    && Sized(bs) && Words(bs) == end <= MAX_SIZE
    && Seg(f, m, 0, RunStart(bs, i), Done(bs, i))
    && Seg(f, m, Words(bs[..i]), end, bs[i..])
    && Untouched(m0, m, bs)
    && (forall p :: Words(bs[..i]) <= p < |m| ==> m[p] == m0[p])
  }

  /** Only words of unused blocks differ between `m0` and `m`. */
  ghost predicate Untouched(m0: seq<u16>, m: seq<u16>, bs: seq<Block>) {
    |m| == |m0| && forall p :: 0 <= p < |m| && !InFree(bs, 0, p) ==> m[p] == m0[p]
  }

  lemma UntouchedWrite(m0: seq<u16>, m: seq<u16>, bs: seq<Block>, p: nat, v: u16)
    requires Untouched(m0, m, bs) && InFree(bs, 0, p) && p < |m|
    ensures Untouched(m0, m[p := v], bs)
  {
  }

  lemma WalkStart(f: Format, m: seq<u16>, end: nat, bs: seq<Block>)
    requires Region(f, m, end, bs) && end <= MAX_SIZE
    ensures Walking(f, m, m, end, bs, 0)
    ensures Words(bs[..0]) == 0 && RunStart(bs, 0) == 0 && TailRun(bs[..0]) == 0 && Done(bs, 0) == []
  {
    SegWords(f, m, 0, end, bs);
    assert bs[0..] == bs;
  }

  /** The run that ends `bs[..i]`, if any, is the last block of `Coalesce(bs[..i])`. */
  lemma RunBlock(bs: seq<Block>, i: nat)
    requires i <= |bs| && TailRun(bs[..i]) > 0
    ensures Coalesce(bs[..i]) == Done(bs, i) + [Block(TailRun(bs[..i]), false)]
    ensures InFree(bs, 0, RunStart(bs, i))
  {
    var c := Coalesce(bs[..i]);
    CoalesceFacts(bs[..i]);
    PackedRuns(c);
    assert c == c[..|c| - 1] + [c[|c| - 1]];
    RunStartFree(bs, i);
  }

  lemma {:induction false} RunStartFree(bs: seq<Block>, i: nat)
    requires i <= |bs| && TailRun(bs[..i]) > 0
    ensures InFree(bs, 0, RunStart(bs, i))
  {
    RunStep(bs, i - 1);
    WordsStep(bs, i - 1);
    if TailRun(bs[..i - 1]) > 0 {
      RunStartFree(bs, i - 1);
    } else {
      InFreeAt(bs, 0, i - 1, RunStart(bs, i));
    }
  }

  /** Like `Walking`, with the size of the current run stored in its first word. */
  ghost predicate Flushed(f: Format, m0: seq<u16>, m: seq<u16>, end: nat, bs: seq<Block>, i: nat) {
    && i <= |bs|
    && |m| == |m0| && end < |m| && m[end] == 0
    && Sized(bs) && Words(bs) == end <= MAX_SIZE
    && Seg(f, m, 0, Words(bs[..i]), Coalesce(bs[..i]))
    && Seg(f, m, Words(bs[..i]), end, bs[i..])
    && Untouched(m0, m, bs)
    && (forall p :: Words(bs[..i]) <= p < |m| ==> m[p] == m0[p])
  }

  lemma WalkFlush(f: Format, m0: seq<u16>, m: seq<u16>, end: nat, bs: seq<Block>, i: nat, v: u16)
    requires Walking(f, m0, m, end, bs, i)
    requires TailRun(bs[..i]) > 0 && v == Header(f, Block(TailRun(bs[..i]), false))
    ensures RunStart(bs, i) < |m|
    ensures Flushed(f, m0, m[RunStart(bs, i) := v], end, bs, i)
  {
    var t, lo, hi := TailRun(bs[..i]), RunStart(bs, i), Words(bs[..i]);
    TailBelowWords(bs[..i]);
    hide Words, TailRun, Coalesce, Sized, Untouched;
    SegWords(f, m, hi, end, bs[i..]);
    RunBlock(bs, i);
    UntouchedWrite(m0, m, bs, lo, v);
    var m' := m[lo := v];
    SegFrame(f, m, m', 0, lo, Done(bs, i));
    SegFrame(f, m, m', hi, end, bs[i..]);
    OneSeg(f, m', lo, Block(t, false));
    hide Seg;
    SegAppend(f, m', 0, lo, hi, Done(bs, i), [Block(t, false)]);
  }

  lemma OneSeg(f: Format, m: seq<u16>, lo: nat, b: Block)
    requires 0 < b.size <= MAX_SIZE && lo < |m| && m[lo] == Header(f, b) && lo + b.size <= |m|
    ensures Seg(f, m, lo, lo + b.size, [b])
  {
    hide Header;
    assert Seg(f, m, lo + b.size, lo + b.size, []);
    assert [b][1..] == [];
  }

  lemma WalkNoRun(f: Format, m0: seq<u16>, m: seq<u16>, end: nat, bs: seq<Block>, i: nat)
    requires Walking(f, m0, m, end, bs, i) && TailRun(bs[..i]) == 0
    ensures Flushed(f, m0, m, end, bs, i) && Done(bs, i) == Coalesce(bs[..i])
  {
  }

  /** A flushed walk leaves the region tiled. */
  lemma FlushedRegion(f: Format, m0: seq<u16>, m: seq<u16>, end: nat, bs: seq<Block>, i: nat)
    requires Flushed(f, m0, m, end, bs, i)
    ensures Region(f, m, end, Coalesce(bs[..i]) + bs[i..])
    ensures i == |bs| ==> Region(f, m, end, Coalesce(bs))
    ensures Untouched(m0, m, bs)
  {
    SegWords(f, m, Words(bs[..i]), end, bs[i..]);
    SegAppend(f, m, 0, Words(bs[..i]), end, Coalesce(bs[..i]), bs[i..]);
    if i == |bs| {
      assert bs[..i] == bs;
      assert Coalesce(bs[..i]) + bs[i..] == Coalesce(bs);
    }
  }

  lemma WalkPastUsed(f: Format, m0: seq<u16>, m: seq<u16>, end: nat, bs: seq<Block>, i: nat)
    requires Flushed(f, m0, m, end, bs, i)
    requires i < |bs| && bs[i].used
    ensures Walking(f, m0, m, end, bs, i + 1)
    ensures TailRun(bs[..i + 1]) == 0 && RunStart(bs, i + 1) == Words(bs[..i + 1])
    ensures Done(bs, i + 1) == Coalesce(bs[..i]) + [bs[i]]
  {
    var c, lo := Coalesce(bs[..i]), Words(bs[..i]);
    var hi := lo + bs[i].size;
    CoalesceStep(bs, i);
    RunStep(bs, i);
    WordsStep(bs, i);
    SegHead(f, m, lo, end, bs, i);
    SegAppend(f, m, 0, lo, hi, c, [bs[i]]);
  }

  /** What a packing walk reads when it has passed `i` blocks. */
  lemma WalkHeader(f: Format, m0: seq<u16>, m: seq<u16>, end: nat, bs: seq<Block>, i: nat)
    requires Walking(f, m0, m, end, bs, i)
    ensures Words(bs[..i]) <= end && TailRun(bs[..i]) <= Words(bs[..i])
    ensures i < |bs| ==>
              && m[Words(bs[..i])] == Header(f, bs[i])
              && Words(bs[..i + 1]) == Words(bs[..i]) + bs[i].size <= end
              && 0 < bs[i].size
    ensures i == |bs| ==> m[Words(bs[..i])] == 0
    ensures i == |bs| <==> m[Words(bs[..i])] == 0
  {
    SegWords(f, m, Words(bs[..i]), end, bs[i..]);
    TailBelowWords(bs[..i]);
    if i < |bs| {
      SegHead(f, m, Words(bs[..i]), end, bs, i);
      WordsStep(bs, i);
    } else {
      assert bs[..i] == bs;
    }
  }

  /** The first block of a tiled stretch, and the rest of it. */
  lemma SegHead(f: Format, m: seq<u16>, lo: nat, hi: nat, bs: seq<Block>, i: nat)
    requires i < |bs| && Seg(f, m, lo, hi, bs[i..])
    ensures lo + bs[i].size <= hi <= |m| && 0 < bs[i].size
    ensures m[lo] == Header(f, bs[i])
    ensures Seg(f, m, lo, lo + bs[i].size, [bs[i]])
    ensures Seg(f, m, lo + bs[i].size, hi, bs[i + 1..])
  {
    assert bs[i..][1..] == bs[i + 1..];
    assert Seg(f, m, lo + bs[i].size, lo + bs[i].size, []);
    assert [bs[i]][1..] == [];
  }

  lemma WalkOverFree(f: Format, m0: seq<u16>, m: seq<u16>, end: nat, bs: seq<Block>, i: nat)
    requires Walking(f, m0, m, end, bs, i)
    requires i < |bs| && !bs[i].used
    ensures Words(bs[..i]) < end
    ensures Walking(f, m0, m[Words(bs[..i]) := 0], end, bs, i + 1)
    ensures RunStart(bs, i + 1) == RunStart(bs, i)
    ensures TailRun(bs[..i + 1]) == TailRun(bs[..i]) + bs[i].size
    ensures Done(bs, i + 1) == Done(bs, i)
  {
    hide Words, TailRun, Coalesce, Sized, Seg, RunStart, Done, Untouched;
    var lo, best := Words(bs[..i]), RunStart(bs, i);
    FreeStep(bs, i);
    ClearHead(f, m, end, bs, i, lo, best, Done(bs, i));
    InFreeAt(bs, 0, i, lo);
    UntouchedWrite(m0, m, bs, lo, 0);
  }

  lemma ClearHead(f: Format, m: seq<u16>, end: nat, bs: seq<Block>, i: nat, lo: nat, best: nat, done: seq<Block>)
    requires i < |bs| && best <= lo && end < |m|
    requires Seg(f, m, 0, best, done) && Seg(f, m, lo, end, bs[i..])
    ensures lo + bs[i].size <= end && 0 < bs[i].size
    ensures Seg(f, m[lo := 0], 0, best, done)
    ensures Seg(f, m[lo := 0], lo + bs[i].size, end, bs[i + 1..])
  {
    SegHead(f, m, lo, end, bs, i);
    SegFrame(f, m, m[lo := 0], 0, best, done);
    SegFrame(f, m, m[lo := 0], lo + bs[i].size, end, bs[i + 1..]);
  }

  lemma FreeStep(bs: seq<Block>, i: nat)
    requires i < |bs| && !bs[i].used && Sized(bs)
    ensures Words(bs[..i + 1]) == Words(bs[..i]) + bs[i].size
    ensures RunStart(bs, i + 1) == RunStart(bs, i) <= Words(bs[..i])
    ensures TailRun(bs[..i + 1]) == TailRun(bs[..i]) + bs[i].size
    ensures Done(bs, i + 1) == Done(bs, i)
  {
    RunStep(bs, i);
    WordsStep(bs, i);
    TailBelowWords(bs[..i]);
    DoneStep(bs, i);
  }

  lemma DoneStep(bs: seq<Block>, i: nat)
    requires i < |bs| && !bs[i].used && Sized(bs)
    ensures Done(bs, i + 1) == Done(bs, i)
  {
    CoalesceStep(bs, i);
    RunStep(bs, i);
    if TailRun(bs[..i]) > 0 {
      RunBlock(bs, i);
    } else {
      TailZero(bs, i);
    }
  }

  lemma TailZero(bs: seq<Block>, i: nat)
    requires i <= |bs| && TailRun(bs[..i]) == 0
    requires Sized(bs)
    ensures var c := Coalesce(bs[..i]); c == [] || c[|c| - 1].used
  {
    if i > 0 {
      CoalesceStep(bs, i - 1);
      RunStep(bs, i - 1);
    }
  }

  // ----- The walk as its local variables see it

  /** A packing walk has passed `i` blocks and stands at word `b`; the current run of unused blocks
      starts at `best` and has `t` words. */
  ghost predicate At(f: Format, m0: seq<u16>, m: seq<u16>, end: nat, bs: seq<Block>, i: nat, b: nat, best: nat, t: nat) {
    && Walking(f, m0, m, end, bs, i)
    && b == Words(bs[..i])
    && best == RunStart(bs, i)
    && t == TailRun(bs[..i])
  }

  /** `m` with the size `t` of the current run stored at its start. */
  ghost function Flush(f: Format, m: seq<u16>, best: nat, t: nat): seq<u16>
    requires best < |m| && t <= MAX_SIZE
  {
    if t > 0 then m[best := Header(f, Block(t, false))] else m
  }

  lemma AtStart(f: Format, m: seq<u16>, end: nat, bs: seq<Block>)
    requires Region(f, m, end, bs) && end <= MAX_SIZE
    ensures At(f, m, m, end, bs, 0, 0, 0, 0)
    ensures FirstUnused(Done(bs, 0)) == None
  {
    WalkStart(f, m, end, bs);
  }

  lemma AtHeader(f: Format, m0: seq<u16>, m: seq<u16>, end: nat, bs: seq<Block>, i: nat, b: nat, best: nat, t: nat)
    requires At(f, m0, m, end, bs, i, b, best, t)
    ensures i <= |bs| && best + t == b <= end < |m| && end <= MAX_SIZE
    ensures t == TailRun(bs[..i]) && best == RunStart(bs, i) && Sized(bs)
    ensures i == |bs| <==> m[b] == 0
    ensures i < |bs| ==> m[b] == Header(f, bs[i]) && 0 < bs[i].size && b + bs[i].size <= end
  {
    WalkHeader(f, m0, m, end, bs, i);
  }

  lemma AtFlush(f: Format, m0: seq<u16>, m: seq<u16>, end: nat, bs: seq<Block>, i: nat, b: nat, best: nat, t: nat)
    requires At(f, m0, m, end, bs, i, b, best, t)
    ensures best < |m| && t <= MAX_SIZE && Flushed(f, m0, Flush(f, m, best, t), end, bs, i)
  {
    hide Walking, Flushed, Words, TailRun;
    WalkHeader(f, m0, m, end, bs, i);
    AtHeader(f, m0, m, end, bs, i, b, best, t);
    if t > 0 {
      WalkFlush(f, m0, m, end, bs, i, Header(f, Block(t, false)));
    } else {
      WalkNoRun(f, m0, m, end, bs, i);
    }
  }

  lemma AtUsed(f: Format, m0: seq<u16>, m: seq<u16>, end: nat, bs: seq<Block>, i: nat, b: nat, best: nat, t: nat)
    requires At(f, m0, m, end, bs, i, b, best, t) && i < |bs| && bs[i].used
    ensures best < |m| && t <= MAX_SIZE
    ensures At(f, m0, Flush(f, m, best, t), end, bs, i + 1, b + bs[i].size, b + bs[i].size, 0)
  {
    hide Walking, Flushed, Words, TailRun;
    AtFlush(f, m0, m, end, bs, i, b, best, t);
    WalkPastUsed(f, m0, Flush(f, m, best, t), end, bs, i);
    WordsStep(bs, i);
  }

  lemma AtFree(f: Format, m0: seq<u16>, m: seq<u16>, end: nat, bs: seq<Block>, i: nat, b: nat, best: nat, t: nat)
    requires At(f, m0, m, end, bs, i, b, best, t) && i < |bs| && !bs[i].used
    ensures b < |m|
    ensures At(f, m0, m[b := 0], end, bs, i + 1, b + bs[i].size, best, t + bs[i].size)
    ensures t + bs[i].size <= MAX_SIZE
  {
    hide Walking, Words, TailRun;
    AtHeader(f, m0, m, end, bs, i, b, best, t);
    WalkOverFree(f, m0, m, end, bs, i);
    WordsStep(bs, i);
  }

  /** Stopping at block `i` leaves the region tiled: packed before `i`, as it was from `i` on. */
  lemma AtStop(f: Format, m0: seq<u16>, m: seq<u16>, end: nat, bs: seq<Block>, i: nat, b: nat, best: nat, t: nat)
    requires At(f, m0, m, end, bs, i, b, best, t)
    ensures best < |m| && t <= MAX_SIZE
    ensures Region(f, Flush(f, m, best, t), end, Coalesce(bs[..i]) + bs[i..])
    ensures i == |bs| ==> Region(f, Flush(f, m, best, t), end, Coalesce(bs))
    ensures Untouched(m0, Flush(f, m, best, t), bs)
  {
    hide Walking, Flushed, Words, TailRun;
    AtFlush(f, m0, m, end, bs, i, b, best, t);
    FlushedRegion(f, m0, Flush(f, m, best, t), end, bs, i);
  }

  /** Where the first unused block is once the run that ends `bs[..i]` is stored. */
  lemma UnusedFlushed(bs: seq<Block>, i: nat)
    requires i <= |bs|
    ensures FirstUnused(Coalesce(bs[..i])) ==
            if FirstUnused(Done(bs, i)).Some? then FirstUnused(Done(bs, i))
            else if TailRun(bs[..i]) > 0 then Some(RunStart(bs, i)) else None
  {
    hide Coalesce, TailRun, FirstUnused, RunStart;
    if TailRun(bs[..i]) > 0 {
      RunBlock(bs, i);
      DoneWords(bs, i);
      FirstUnusedSnoc(Done(bs, i), Block(TailRun(bs[..i]), false));
    }
  }

  lemma DoneWords(bs: seq<Block>, i: nat)
    requires i <= |bs| && TailRun(bs[..i]) > 0
    ensures Words(Done(bs, i)) == RunStart(bs, i)
  {
    hide Coalesce, TailRun, Done, FreeWords, UsedWords, MaxRun, Packed, InFree;
    var t := Block(TailRun(bs[..i]), false);
    RunBlock(bs, i);
    CoalesceFacts(bs[..i]);
    WordsAppend(Done(bs, i), [t]);
    assert Words([t]) == t.size;
  }

  lemma UnusedAfterUsed(bs: seq<Block>, i: nat)
    requires i < |bs| && bs[i].used
    ensures FirstUnused(Done(bs, i + 1)) == FirstUnused(Coalesce(bs[..i]))
  {
    hide FirstUnused;
    RunStep(bs, i);
    CoalesceStep(bs, i);
    FirstUnusedSnoc(Coalesce(bs[..i]), bs[i]);
    FirstUnusedNone(Coalesce(bs[..i]));
  }

  /** One step of `PackTo`, and where the run it may stop at starts. */
  lemma PackToUnfold(bs: seq<Block>, i: nat, n: nat)
    requires i <= |bs| && 0 < n
    ensures TailRun(bs[..i]) >= n && (i == |bs| || bs[i].used) ==>
              var (cs, k) := PackTo(bs, i, n);
              && cs == Coalesce(bs[..i]) + bs[i..]
              && k.Some? && k.value < |cs| && Words(cs[..k.value]) == RunStart(bs, i)
    ensures TailRun(bs[..i]) < n && i == |bs| ==> PackTo(bs, i, n) == (Coalesce(bs), None)
    ensures i < |bs| && !(TailRun(bs[..i]) >= n && bs[i].used) ==> PackTo(bs, i, n) == PackTo(bs, i + 1, n)
  {
    if TailRun(bs[..i]) >= n {
      hide TailRun;
      RunBlock(bs, i);
      DoneWords(bs, i);
      var c := Coalesce(bs[..i]);
      assert (c + bs[i..])[..|c| - 1] == Done(bs, i);
    } else if i == |bs| {
      assert bs[..i] == bs;
    }
  }

  lemma FirstUnusedNone(bs: seq<Block>)
    ensures FirstUnused(bs).None? || FirstUnused(bs).Some?
    ensures Words(bs[..NextFree(bs, 0)]) == if FirstUnused(bs).Some? then FirstUnused(bs).value else Words(bs)
  {
    assert bs[..|bs|] == bs;
  }

  lemma UnusedOverFree(bs: seq<Block>, i: nat)
    requires i < |bs| && !bs[i].used && Sized(bs)
    ensures FirstUnused(Done(bs, i + 1)) == FirstUnused(Done(bs, i))
  {
    FreeStep(bs, i);
  }

  /** What a walk along the headers finds at block `k`. */
  lemma RegionAt(f: Format, m: seq<u16>, end: nat, bs: seq<Block>, k: nat)
    requires Region(f, m, end, bs) && k <= |bs|
    ensures k < |bs| ==> Words(bs[..k]) + bs[k].size <= end && 0 < bs[k].size && m[Words(bs[..k])] == Header(f, bs[k])
    ensures k == |bs| ==> Words(bs[..k]) == end
    ensures Words(bs[..k]) <= end == Words(bs)
  {
    assert bs == bs[..k] + bs[k..];
    SegSplit(f, m, 0, end, bs[..k], bs[k..]);
    SegWords(f, m, 0, end, bs);
    SegWords(f, m, Words(bs[..k]), end, bs[k..]);
    if k < |bs| {
      SegHead(f, m, Words(bs[..k]), end, bs, k);
    }
  }

  // ----- Taking and giving back a block

  function Split(b: Block, n: nat): seq<Block>
    requires n <= b.size
  {
    if b.size == n then [Block(n, true)] else [Block(n, true), Block(b.size - n, false)]
  }

  /** `bs` with the first `n` words of block `k` put to use. */
  function Place(bs: seq<Block>, k: nat, n: nat): seq<Block>
    requires k < |bs| && n <= bs[k].size
  {
    bs[..k] + (Split(bs[k], n) + bs[k + 1..])
  }

  /** `bs` with block `k` no longer in use. */
  function Release(bs: seq<Block>, k: nat): seq<Block>
    requires k < |bs|
  {
    bs[..k] + ([bs[k].(used := false)] + bs[k + 1..])
  }

  lemma SplitFacts(b: Block, n: nat, base: nat, s: Span)
    requires !b.used && 0 < n <= b.size
    ensures Words(Split(b, n)) == b.size
    ensures FreeWords(Split(b, n)) == b.size - n
    ensures Live(Split(b, n), base, s) <==> s == Span(base, n)
  {
    if b.size != n {
      var x, y := Block(n, true), Block(b.size - n, false);
      assert Split(b, n) == [x] + [y];
      WordsAppend([x], [y]);
      LiveAppend([x], [y], base, s);
    }
  }

  /** How a sequence of blocks counts when block `k` is replaced by `mid`. */
  lemma Replace(bs: seq<Block>, k: nat, mid: seq<Block>)
    requires k < |bs| && Words(mid) == bs[k].size
    ensures var r := bs[..k] + (mid + bs[k + 1..]);
            Words(r) == Words(bs) && FreeWords(r) + FreeWords([bs[k]]) == FreeWords(bs) + FreeWords(mid)
  {
    var a, c := bs[..k], bs[k + 1..];
    assert bs == a + ([bs[k]] + c);
    WordsAppend([bs[k]], c);
    WordsAppend(a, [bs[k]] + c);
    WordsAppend(mid, c);
    WordsAppend(a, mid + c);
  }

  /** `s` is a live span of a block other than block `k`. */
  ghost predicate Other(bs: seq<Block>, k: nat, s: Span)
    requires k < |bs|
  {
    Live(bs[..k], 0, s) || Live(bs[k + 1..], Words(bs[..k]) + bs[k].size, s)
  }

  lemma LiveReplace(bs: seq<Block>, k: nat, mid: seq<Block>, s: Span)
    requires k < |bs| && Words(mid) == bs[k].size
    ensures Live(bs[..k] + (mid + bs[k + 1..]), 0, s) <==> Other(bs, k, s) || Live(mid, Words(bs[..k]), s)
  {
    LiveAppend(mid, bs[k + 1..], Words(bs[..k]), s);
    LiveAppend(bs[..k], mid + bs[k + 1..], 0, s);
  }

  lemma OtherAside(bs: seq<Block>, k: nat, s: Span)
    requires k < |bs| && 0 < bs[k].size && Other(bs, k, s)
    ensures s != Span(Words(bs[..k]), bs[k].size)
  {
    if Live(bs[..k], 0, s) {
      LiveInside(bs[..k], 0, s);
    } else {
      LiveInside(bs[k + 1..], Words(bs[..k]) + bs[k].size, s);
    }
  }

  lemma LiveWhole(bs: seq<Block>, k: nat, s: Span)
    requires k < |bs|
    ensures Live(bs, 0, s) <==> Other(bs, k, s) || (bs[k].used && s == Span(Words(bs[..k]), bs[k].size))
  {
    assert bs == bs[..k] + ([bs[k]] + bs[k + 1..]);
    LiveReplace(bs, k, [bs[k]], s);
  }

  lemma PlaceWords(bs: seq<Block>, k: nat, n: nat)
    requires k < |bs| && !bs[k].used && 0 < n <= bs[k].size
    ensures Words(Place(bs, k, n)) == Words(bs)
    ensures FreeWords(Place(bs, k, n)) == FreeWords(bs) - n
  {
    SplitFacts(bs[k], n, 0, Span(0, 0));
    Replace(bs, k, Split(bs[k], n));
  }

  /** Taking `n` words adds exactly one live span. */
  lemma PlaceLive(bs: seq<Block>, k: nat, n: nat, s: Span)
    requires k < |bs| && !bs[k].used && 0 < n <= bs[k].size
    ensures Live(Place(bs, k, n), 0, s) <==> Live(bs, 0, s) || s == Span(Words(bs[..k]), n)
  {
    SplitFacts(bs[k], n, Words(bs[..k]), s);
    LiveReplace(bs, k, Split(bs[k], n), s);
    LiveWhole(bs, k, s);
  }

  /** Taking words of an unused block keeps unused blocks apart. */
  lemma PlacePacked(bs: seq<Block>, k: nat, n: nat)
    requires k < |bs| && !bs[k].used && 0 < n <= bs[k].size
    requires Sized(bs)
    ensures Sized(Place(bs, k, n))
    ensures Packed(bs) ==> Packed(Place(bs, k, n))
  {
    var r, d := Place(bs, k, n), |Split(bs[k], n)| - 1;
    assert forall i :: 0 <= i < k ==> r[i] == bs[i];
    assert forall i :: k + d < i < |r| ==> r[i] == bs[i - d];
  }

  lemma ReleaseWords(bs: seq<Block>, k: nat)
    requires k < |bs| && bs[k].used
    ensures Words(Release(bs, k)) == Words(bs)
    ensures FreeWords(Release(bs, k)) == FreeWords(bs) + bs[k].size
  {
    Replace(bs, k, [bs[k].(used := false)]);
  }

  lemma ReleaseSized(bs: seq<Block>, k: nat)
    requires k < |bs| && Sized(bs)
    ensures Sized(Release(bs, k))
  {
    assert Release(bs, k) == bs[k := bs[k].(used := false)];
  }

  /** Writing the two headers of a split block makes the region show the split. */
  lemma PlaceRegion(f: Format, m: seq<u16>, end: nat, bs: seq<Block>, k: nat, n: nat, m1: seq<u16>, m2: seq<u16>)
    requires Region(f, m, end, bs) && end <= MAX_SIZE
    requires k < |bs| && !bs[k].used && 0 < n <= bs[k].size
    requires Words(bs[..k]) + bs[k].size <= end && bs[k].size <= MAX_SIZE
    requires m1 == if n < bs[k].size then m[Words(bs[..k]) + n := Header(f, Block(bs[k].size - n, false))] else m
    requires m2 == m1[Words(bs[..k]) := Header(f, Block(n, true))]
    ensures Region(f, m2, end, Place(bs, k, n))
  {
    hide Seg, Words, Split, Header;
    var lo := Words(bs[..k]);
    var hi, mid := lo + bs[k].size, Split(bs[k], n);
    assert bs == bs[..k] + bs[k..];
    SegSplit(f, m, 0, end, bs[..k], bs[k..]);
    SegHead(f, m, lo, end, bs, k);
    SegFrame(f, m, m2, 0, lo, bs[..k]);
    SegFrame(f, m, m2, hi, end, bs[k + 1..]);
    SplitSeg(f, m2, lo, bs[k], n);
    SegAppend(f, m2, lo, hi, end, mid, bs[k + 1..]);
    SegAppend(f, m2, 0, lo, end, bs[..k], mid + bs[k + 1..]);
  }

  lemma SplitSeg(f: Format, m: seq<u16>, lo: nat, b: Block, n: nat)
    requires 0 < n <= b.size <= MAX_SIZE && lo + b.size <= |m|
    requires lo < |m| && m[lo] == Header(f, Block(n, true))
    requires n < b.size ==> m[lo + n] == Header(f, Block(b.size - n, false))
    ensures Seg(f, m, lo, lo + b.size, Split(b, n))
  {
    var hi := lo + b.size;
    assert Seg(f, m, hi, hi, []);
    if n < b.size {
      var x, y := Block(n, true), Block(b.size - n, false);
      assert [x, y][1..] == [y] && [y][1..] == [];
      assert Seg(f, m, lo + n, hi, [y]);
    } else {
      assert [Block(n, true)][1..] == [];
    }
  }

  lemma ReleaseRegion(f: Format, m: seq<u16>, end: nat, bs: seq<Block>, k: nat)
    requires Region(f, m, end, bs) && k < |bs|
    requires Words(bs[..k]) < end && bs[k].size <= MAX_SIZE
    ensures Region(f, m[Words(bs[..k]) := Header(f, bs[k].(used := false))], end, Release(bs, k))
  {
    var lo, b := Words(bs[..k]), bs[k].(used := false);
    var hi, m' := lo + b.size, m[lo := Header(f, b)];
    assert bs == bs[..k] + bs[k..];
    SegSplit(f, m, 0, end, bs[..k], bs[k..]);
    SegHead(f, m, lo, end, bs, k);
    SegFrame(f, m, m', 0, lo, bs[..k]);
    SegFrame(f, m, m', hi, end, bs[k + 1..]);
    assert Seg(f, m', hi, hi, []) && [b][1..] == [];
    assert Seg(f, m', lo, hi, [b]);
    SegAppend(f, m', lo, hi, end, [b], bs[k + 1..]);
    SegAppend(f, m', 0, lo, end, bs[..k], [b] + bs[k + 1..]);
  }

  /** A block taken whole changes neither where the later blocks start nor which are unused. */
  lemma {:induction false} PlaceWhole(bs: seq<Block>, k: nat, j: nat)
    requires k < j <= |bs|
    ensures Words(Place(bs, k, bs[k].size)[..j]) == Words(bs[..j])
    ensures NextFree(Place(bs, k, bs[k].size), j) == NextFree(bs, j)
    decreases |bs| - j
  {
    var r := Place(bs, k, bs[k].size);
    assert r == bs[k := Block(bs[k].size, true)];
    PrefixWords(bs, k, j, Block(bs[k].size, true));
    if j < |bs| && bs[j].used {
      PlaceWhole(bs, k, j + 1);
    }
  }

  lemma {:induction false} PrefixWords(bs: seq<Block>, k: nat, j: nat, b: Block)
    requires k < |bs| && j <= |bs| && b.size == bs[k].size
    ensures Words(bs[k := b][..j]) == Words(bs[..j])
  {
    hide *;
    if j == 0 {
      assert bs[k := b][..0] == bs[..0];
    } else {
      PrefixWords(bs, k, j - 1, b);
      WordsStep(bs, j - 1);
      WordsStep(bs[k := b], j - 1);
    }
  }

  /** Giving back a block removes exactly its span. */
  lemma ReleaseLive(bs: seq<Block>, k: nat, s: Span)
    requires k < |bs| && bs[k].used && 0 < bs[k].size
    ensures Live(Release(bs, k), 0, s) <==> Live(bs, 0, s) && s != Span(Words(bs[..k]), bs[k].size)
    ensures Live(bs, 0, Span(Words(bs[..k]), bs[k].size))
  {
    LiveReplace(bs, k, [bs[k].(used := false)], s);
    LiveWhole(bs, k, s);
    LiveWhole(bs, k, Span(Words(bs[..k]), bs[k].size));
    if Other(bs, k, s) {
      OtherAside(bs, k, s);
    }
  }

  /** The index of the block that starts at word `p`; `|bs|` if none does. */
  function BlockAt(bs: seq<Block>, base: nat, p: nat): (k: nat)
    ensures k <= |bs|
    ensures k < |bs| ==> base + Words(bs[..k]) == p
  {
    if bs == [] then 0
    else if base == p then 0
    else
      var j := BlockAt(bs[1..], base + bs[0].size, p);
      assert j < |bs| - 1 ==> bs[..j + 1][1..] == bs[1..][..j];
      1 + j
  }

  lemma {:induction false} BlockAtStart(bs: seq<Block>, base: nat, k: nat)
    requires Sized(bs) && k < |bs|
    ensures BlockAt(bs, base, base + Words(bs[..k])) == k
  {
    if k > 0 {
      assert bs[..k][1..] == bs[1..][..k - 1];
      assert Words(bs[..k]) > 0;
      BlockAtStart(bs[1..], base + bs[0].size, k - 1);
    }
  }

  /** A word that starts no block can be written without touching the tiling. */
  lemma {:induction false} SegWrite(f: Format, mem: seq<u16>, lo: nat, hi: nat, bs: seq<Block>, p: nat, v: u16)
    requires Seg(f, mem, lo, hi, bs) && p < |mem| && BlockAt(bs, lo, p) == |bs|
    ensures Seg(f, mem[p := v], lo, hi, bs)
    decreases |bs|
  {
    if bs != [] {
      SegWrite(f, mem, lo + bs[0].size, hi, bs[1..], p, v);
    }
  }

  lemma RegionWrite(f: Format, mem: seq<u16>, end: nat, bs: seq<Block>, p: nat, v: u16)
    requires Region(f, mem, end, bs) && p < end && BlockAt(bs, 0, p) == |bs|
    ensures p < |mem| && Region(f, mem[p := v], end, bs)
  {
    SegWrite(f, mem, 0, end, bs, p, v);
  }

  lemma {:induction false} BlockAtBelow(bs: seq<Block>, base: nat, p: nat)
    requires Sized(bs) && p < base
    ensures BlockAt(bs, base, p) == |bs|
  {
    if bs != [] {
      BlockAtBelow(bs[1..], base + bs[0].size, p);
    }
  }

  /** The words of a block in use behind its header start no block. */
  lemma {:induction false} InteriorStartsNone(bs: seq<Block>, base: nat, s: Span, p: nat)
    requires Sized(bs) && Live(bs, base, s) && s.start < p < s.start + s.size
    ensures BlockAt(bs, base, p) == |bs|
  {
    assert Sized(bs[1..]);
    if Live(bs[1..], base + bs[0].size, s) {
      LiveInside(bs[1..], base + bs[0].size, s);
      InteriorStartsNone(bs[1..], base + bs[0].size, s, p);
    } else {
      BlockAtBelow(bs[1..], base + bs[0].size, p);
    }
  }

  lemma NextHere(bs: seq<Block>, k: nat)
    requires k <= |bs|
    ensures NextFree(bs, k) == if k < |bs| && bs[k].used then NextFree(bs, k + 1) else k
  {
  }

  lemma FreeStarts(bs: seq<Block>, k: nat, j: nat)
    requires k < |bs| && j <= |bs|
    ensures Words(Release(bs, k)[..j]) == Words(bs[..j])
  {
    assert Release(bs, k) == bs[k := bs[k].(used := false)];
    PrefixWords(bs, k, j, bs[k].(used := false));
  }

  lemma {:induction false} BlockAtAppend(a: seq<Block>, b: seq<Block>, base: nat, p: nat)
    requires BlockAt(a, base, p) < |a|
    ensures BlockAt(a + b, base, p) == BlockAt(a, base, p)
  {
    assert (a + b)[1..] == a[1..] + b;
    if base != p {
      BlockAtAppend(a[1..], b, base + a[0].size, p);
    }
  }

  // ----- A pointer left behind by packing

  lemma {:induction false} RunStartIsStart(bs: seq<Block>, i: nat) returns (j: nat)
    requires i <= |bs| && TailRun(bs[..i]) > 0
    ensures j < |bs| && RunStart(bs, i) == Words(bs[..j])
  {
    RunStep(bs, i - 1);
    WordsStep(bs, i - 1);
    TailBelowWords(bs[..i - 1]);
    if TailRun(bs[..i - 1]) > 0 {
      j := RunStartIsStart(bs, i - 1);
    } else {
      j := i - 1;
    }
  }

  /** What a packing walk of `i` blocks leaves at a word `q` that either starts an unused block of
      `bs` or is no start and holds 0: still 0, unless `q` starts a block of the packed part or the
      current run. */
  ghost predicate Parked(bs: seq<Block>, q: nat, m: seq<u16>, i: nat, best: nat, t: nat)
    requires i <= |bs|
  {
    var k := BlockAt(bs, 0, q);
    && q < |m|
    && (k == |bs| ==> m[q] == 0)
    && (k < |bs| ==> !bs[k].used)
    && (k < i ==> m[q] == 0 || (t > 0 && q == best) || BlockAt(Done(bs, i), 0, q) < |Done(bs, i)|)
  }

  lemma ParkedUsed(f: Format, m0: seq<u16>, m: seq<u16>, end: nat, bs: seq<Block>, i: nat, b: nat, best: nat, t: nat, q: nat)
    requires At(f, m0, m, end, bs, i, b, best, t) && i < |bs| && bs[i].used
    requires Parked(bs, q, m, i, best, t) && best < |m| && t <= MAX_SIZE
    ensures Parked(bs, q, Flush(f, m, best, t), i + 1, b + bs[i].size, 0)
  {
    hide Words, TailRun, Walking;
    var k, m' := BlockAt(bs, 0, q), Flush(f, m, best, t);
    ParkedFlush(f, m0, m, end, bs, i, b, best, t, q);
    AtFlush(f, m0, m, end, bs, i, b, best, t);
    WalkPastUsed(f, m0, m', end, bs, i);
    if k < i && m'[q] != 0 {
      BlockAtAppend(Coalesce(bs[..i]), [bs[i]], 0, q);
    }
  }

  /** Storing the current run makes its first word the start of a packed block. */
  lemma ParkedFlush(f: Format, m0: seq<u16>, m: seq<u16>, end: nat, bs: seq<Block>, i: nat, b: nat, best: nat, t: nat, q: nat)
    requires At(f, m0, m, end, bs, i, b, best, t)
    requires Parked(bs, q, m, i, best, t) && best < |m| && t <= MAX_SIZE
    ensures var k, m', c := BlockAt(bs, 0, q), Flush(f, m, best, t), Coalesce(bs[..i]);
            && (k == |bs| ==> m'[q] == 0)
            && (k < i ==> m'[q] == 0 || BlockAt(c, 0, q) < |c|)
  {
    hide Words, TailRun, Walking, Coalesce;
    AtSized(f, m0, m, end, bs, i, b, best, t);
    var k, d := BlockAt(bs, 0, q), Done(bs, i);
    if t > 0 {
      RunBlock(bs, i);
      DoneWords(bs, i);
      var j := RunStartIsStart(bs, i);
      BlockAtStart(bs, 0, j);
      if q == best {
        BlockAtLast(d, Block(t, false));
      } else if BlockAt(d, 0, q) < |d| {
        BlockAtAppend(d, [Block(t, false)], 0, q);
      }
    }
  }

  lemma AtSized(f: Format, m0: seq<u16>, m: seq<u16>, end: nat, bs: seq<Block>, i: nat, b: nat, best: nat, t: nat)
    requires At(f, m0, m, end, bs, i, b, best, t)
    ensures i <= |bs| && Sized(bs) && Sized(Done(bs, i))
  {
    SegWords(f, m, 0, best, Done(bs, i));
  }

  lemma {:induction false} BlockAtLast(d: seq<Block>, b: Block)
    requires Sized(d) && 0 < b.size <= MAX_SIZE
    ensures BlockAt(d + [b], 0, Words(d)) == |d|
  {
    assert (d + [b])[..|d|] == d;
    assert Sized(d + [b]);
    hide Words, BlockAt;
    BlockAtStart(d + [b], 0, |d|);
  }

  lemma ParkedFree(f: Format, m0: seq<u16>, m: seq<u16>, end: nat, bs: seq<Block>, i: nat, b: nat, best: nat, t: nat, q: nat)
    requires At(f, m0, m, end, bs, i, b, best, t) && i < |bs| && !bs[i].used
    requires Parked(bs, q, m, i, best, t) && b < |m|
    ensures Parked(bs, q, m[b := 0], i + 1, best, t + bs[i].size)
  {
    hide TailRun;
    FreeStep(bs, i);
  }

  // ----- Reading headers

  /** The used flag of a header, and the words it says its block has. */
  predicate InUse(f: Format, header: u16) {
    match f
    case ByteCount => header % 2 == 1
    case WordCount => header >= 0x8000
  }

  function Length(f: Format, header: u16): (n: nat)
    ensures n < 0x8000
  {
    match f
    case ByteCount => header / 2
    case WordCount => header % 0x8000
  }

  /** What the header of block `k` says. */
  lemma Peek(f: Format, m: seq<u16>, end: nat, bs: seq<Block>, k: nat)
    requires Region(f, m, end, bs) && k <= |bs|
    ensures Words(bs[..k]) <= end < |m|
    ensures k == |bs| <==> m[Words(bs[..k])] == 0
    ensures k == |bs| ==> !InUse(f, m[Words(bs[..k])]) && Words(bs[..k]) == end
    ensures k < |bs| ==>
              var h := m[Words(bs[..k])];
              && (f == ByteCount ==> h == 2 * bs[k].size + if bs[k].used then 1 else 0)
              && (f == WordCount ==> h == bs[k].size + if bs[k].used then 0x8000 else 0)
              && Length(f, h) == bs[k].size && (InUse(f, h) <==> bs[k].used)
              && 0 < bs[k].size <= MAX_SIZE
              && Words(bs[..k + 1]) == Words(bs[..k]) + bs[k].size <= end
  {
    RegionAt(f, m, end, bs, k);
    if k < |bs| {
      SegWords(f, m, 0, end, bs);
      WordsStep(bs, k);
    }
  }

  /** A walk that stands on block `k` reads its header and can move past it. */
  lemma Next(f: Format, m: seq<u16>, end: nat, bs: seq<Block>, b: nat, k: nat)
    requires Region(f, m, end, bs)
    requires k <= |bs| && b == Words(bs[..k]) <= end && m[b] != 0
    ensures k < |bs|
    ensures f == ByteCount ==> m[b] == 2 * bs[k].size + if bs[k].used then 1 else 0
    ensures f == WordCount ==> m[b] == bs[k].size + if bs[k].used then 0x8000 else 0
    ensures Length(f, m[b]) == bs[k].size && (InUse(f, m[b]) <==> bs[k].used)
    ensures Words(bs[..k + 1]) == b + bs[k].size <= end
    ensures FreeWords(bs[..k + 1]) == (FreeWords(bs[..k]) + if bs[k].used then 0 else bs[k].size) <= end
    ensures UsedWords(bs[..k + 1]) == (UsedWords(bs[..k]) + if bs[k].used then bs[k].size else 0) <= end
    ensures TailRun(bs[..k + 1]) == (if bs[k].used then 0 else TailRun(bs[..k]) + bs[k].size) <= end
    ensures MaxRun(bs[..k + 1]) == if TailRun(bs[..k + 1]) > MaxRun(bs[..k]) then TailRun(bs[..k + 1]) else MaxRun(bs[..k])
  {
    hide *;
    Peek(f, m, end, bs, k);
    WordsStep(bs, k);
    RunStep(bs, k);
    FreeAndUsed(bs[..k + 1]);
    TailBelowWords(bs[..k + 1]);
  }

  lemma AtFirst(f: Format, m: seq<u16>, end: nat, bs: seq<Block>)
    requires Region(f, m, end, bs)
    ensures Words(bs[..0]) == FreeWords(bs[..0]) == UsedWords(bs[..0]) == 0
    ensures TailRun(bs[..0]) == MaxRun(bs[..0]) == 0
    ensures end < |m|
  {
  }

  lemma AtEnd(f: Format, m: seq<u16>, end: nat, bs: seq<Block>, k: nat)
    requires Region(f, m, end, bs)
    requires k <= |bs| && Words(bs[..k]) <= end && m[Words(bs[..k])] == 0
    ensures k == |bs| && bs[..k] == bs
  {
    RegionAt(f, m, end, bs, k);
  }
}
