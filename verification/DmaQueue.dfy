/** The DMA queue of `src/dma.c`: transfers are queued during a frame and sent in the vertical blank, up
    to a size limit; data that may change in between is copied to a temporary buffer. */
module DmaQueue {
  import opened Machine

  datatype Location = Vram | Cram | Vsram

  /** Where the data of a transfer is: anywhere in memory, or at an offset of the temporary buffer. */
  datatype Source = Memory(address: nat) | Temp(offset: nat)

  datatype Op = Op(location: Location, source: Source, to: u16, len: u16, step: u16)

  /** What a transfer counts against the limit, in bytes. */
  function Size(op: Op): nat {
    if op.location == Vram then op.len + op.len else op.len
  }

  /** The running total after `k` transfers, in 16 bits. */
  function Total(queue: seq<Op>, k: nat): u16
    requires k <= |queue|
  {
    if k == 0 then 0 else Wrap16(Total(queue, k - 1) + Size(queue[k - 1]))
  }

  /** The same without the wrap. */
  function Sum(queue: seq<Op>, k: nat): nat
    requires k <= |queue|
  {
    if k == 0 then 0 else Sum(queue, k - 1) + Size(queue[k - 1])
  }

  /** The words of the first `k` transfers, and of those to VRAM. */
  function Words(queue: seq<Op>, k: nat): nat
    requires k <= |queue|
  {
    if k == 0 then 0 else Words(queue, k - 1) + queue[k - 1].len
  }

  function VramWords(queue: seq<Op>, k: nat): nat
    requires k <= |queue|
  {
    if k == 0 then 0 else VramWords(queue, k - 1) + if queue[k - 1].location == Vram then queue[k - 1].len else 0
  }

  /** A word to VRAM counts twice, as its two bytes, a word to the other memories once. */
  lemma {:induction false} SumIs(queue: seq<Op>, k: nat)
    requires k <= |queue|
    ensures Sum(queue, k) == Words(queue, k) + VramWords(queue, k)
  {
    if k > 0 {
      SumIs(queue, k - 1);
    }
  }

  /** Of a queue of transfers to VRAM it is the bytes that count. */
  lemma {:induction false} AllVram(queue: seq<Op>, k: nat)
    requires k <= |queue| && forall i :: 0 <= i < k ==> queue[i].location == Vram
    ensures Sum(queue, k) == 2 * Words(queue, k)
  {
    if k > 0 {
      AllVram(queue, k - 1);
    }
  }

  /** Transfer `k` takes the running total over the limit. */
  predicate Over(queue: seq<Op>, max: u16, k: nat)
    requires k < |queue|
  {
    Total(queue, k + 1) > max
  }

  /** The index stored when the limit is first exceeded; 0 stands for none. */
  function Limit(queue: seq<Op>, max: u16, k: nat): (l: nat)
    requires k <= |queue|
    ensures l == 0 || l < k
  {
    if k == 0 then 0
    else
      var l := Limit(queue, max, k - 1);
      if l == 0 && Over(queue, max, k - 1) then k - 1 else l
  }

  /** How many transfers a flush sends. */
  function Flushed(queue: seq<Op>, max: u16, ignore: bool): (n: nat)
    ensures n <= |queue|
  {
    var l := Limit(queue, max, |queue|);
    if l != 0 && ignore then l else |queue|
  }

  // ----- What a flush sends

  /** Everything, unless transfers over the limit are to be ignored. */
  lemma AllSent(queue: seq<Op>, max: u16)
    ensures Flushed(queue, max, false) == |queue|
    ensures (forall k :: 0 <= k < |queue| ==> !Over(queue, max, k)) ==> Flushed(queue, max, true) == |queue|
  {
    LimitIs(queue, max, |queue|);
    hide Over;
  }

  /** The stored index is that of the first transfer over the limit, not counting the very first. */
  lemma {:induction false} LimitIs(queue: seq<Op>, max: u16, k: nat)
    requires k <= |queue|
    ensures var l := Limit(queue, max, k);
            && (l != 0 ==> Over(queue, max, l))
            && forall j: nat :: 1 <= j < (if l != 0 then l else k) ==> !Over(queue, max, j)
  {
    if k > 0 {
      LimitIs(queue, max, k - 1);
    }
  }

  /** A transfer is accepted, when those over the limit are to be ignored, if it is not over it. */
  ghost predicate SendsAccepted(queue: seq<Op>, max: u16) {
    forall k: nat :: k < |queue| ==> (k < Flushed(queue, max, true) <==> !Over(queue, max, k))
  }

  /** Once over the limit, the running total stays there. */
  ghost predicate StaysOver(queue: seq<Op>, max: u16) {
    forall j: nat, k: nat :: j < k < |queue| && Over(queue, max, j) ==> Over(queue, max, k)
  }

  /** A flush sends exactly the accepted transfers if and only if the first one is within the limit and
      the running total never comes back under it. */
  lemma SentExactly(queue: seq<Op>, max: u16)
    ensures SendsAccepted(queue, max) <==> (queue == [] || !Over(queue, max, 0)) && StaysOver(queue, max)
  {
    LimitIs(queue, max, |queue|);
    hide Over, Limit;
    var n := Flushed(queue, max, true);
    if SendsAccepted(queue, max) {
      if queue != [] {
        assert 0 < n;
        assert !Over(queue, max, 0);
      }
      forall j: nat, k: nat | j < k < |queue| && Over(queue, max, j) ensures Over(queue, max, k) {
        assert !(j < n);
        assert !(k < n);
      }
    }
    if (queue == [] || !Over(queue, max, 0)) && StaysOver(queue, max) {
      forall k: nat | k < |queue| ensures k < n <==> !Over(queue, max, k) {
        if n < |queue| && n < k {
          assert Over(queue, max, n);
        }
      }
    }
  }

  lemma {:induction false} TotalIsSum(queue: seq<Op>, k: nat, n: nat)
    requires k <= n <= |queue| && Sum(queue, n) < 0x1_0000
    ensures Total(queue, k) == Sum(queue, k) <= Sum(queue, n)
    decreases n
  {
    if k == n {
      if k > 0 {
        TotalIsSum(queue, k - 1, n - 1);
        Fits16(Sum(queue, k));
      }
    } else {
      TotalIsSum(queue, k, n - 1);
    }
  }

  /** When the sizes of a frame fit into 16 bits, a flush sends exactly the accepted transfers if the first
      of them is within the limit, and otherwise the first one, although it was refused. What is sent is then within
      the limit, and with the next transfer would not be. */
  lemma SentWithoutWrap(queue: seq<Op>, max: u16)
    requires Words(queue, |queue|) + VramWords(queue, |queue|) < 0x1_0000
    ensures var n, first := Flushed(queue, max, true), queue == [] || Words(queue, 1) + VramWords(queue, 1) <= max;
            && (SendsAccepted(queue, max) <==> first)
            && (!first ==> n == 1)
            && (first ==> Words(queue, n) + VramWords(queue, n) <= max)
            && (first && n < |queue| ==> Words(queue, n + 1) + VramWords(queue, n + 1) > max)
  {
    SumIs(queue, |queue|);
    forall k: nat | k <= |queue| ensures Sum(queue, k) == Words(queue, k) + VramWords(queue, k) {
      SumIs(queue, k);
    }
    SentBySum(queue, max);
    var n := Flushed(queue, max, true);
    TotalIsSum(queue, n, |queue|);
    if queue != [] {
      assert Sum(queue, 1) == Sum(queue, 0) + Size(queue[0]);
      LimitIs(queue, max, |queue|);
      if n < |queue| {
        TotalIsSum(queue, n + 1, |queue|);
      }
    }
  }

  lemma SentBySum(queue: seq<Op>, max: u16)
    requires Sum(queue, |queue|) < 0x1_0000
    ensures SendsAccepted(queue, max) <==> queue == [] || Size(queue[0]) <= max
    ensures queue != [] && Size(queue[0]) > max ==> Flushed(queue, max, true) == 1
    ensures queue == [] || Size(queue[0]) <= max ==> Total(queue, Flushed(queue, max, true)) <= max
  {
    forall j: nat, k: nat | j < k < |queue| && Over(queue, max, j) ensures Over(queue, max, k) {
      TotalIsSum(queue, k + 1, |queue|);
      TotalIsSum(queue, j + 1, k + 1);
    }
    SentExactly(queue, max);
    LimitIs(queue, max, |queue|);
    if queue != [] {
      TotalIsSum(queue, 1, |queue|);
      assert Over(queue, max, 0) <==> Size(queue[0]) > max by {
        assert Sum(queue, 1) == Sum(queue, 0) + Size(queue[0]);
      }
      var n := Flushed(queue, max, true);
      if Size(queue[0]) > max {
        assert |queue| > 1 ==> Over(queue, max, 1);
      } else {
        assert !Over(queue, max, n - 1);
      }
    }
  }

  /** The entries queued so far do not depend on those to come. */
  lemma {:induction false} Extended(queue: seq<Op>, op: Op, max: u16, k: nat)
    requires k <= |queue|
    ensures Total(queue + [op], k) == Total(queue, k) && Limit(queue + [op], max, k) == Limit(queue, max, k)
  {
    if k > 0 {
      Extended(queue, op, max, k - 1);
    }
  }

  /** The running total and the stored index when a transfer is queued. */
  lemma PushCounts(queue: seq<Op>, op: Op, max: u16)
    ensures var q, n := queue + [op], |queue|;
            && Total(q, n + 1) == Wrap16(Total(queue, n) + Size(op))
            && (Over(q, max, n) <==> Total(q, n + 1) > max)
            && Limit(q, max, n + 1) == if Limit(queue, max, n) == 0 && Over(q, max, n) then n else Limit(queue, max, n)
  {
    Extended(queue, op, max, |queue|);
  }

  lemma SizeIs(total: nat, op: Op)
    ensures Wrap16(total + Size(op)) == (total + (if op.location == Vram then 2 * op.len else op.len)) % 0x1_0000
  {
  }

  lemma AcceptedLast(queue: seq<Op>, op: Op, max: u16, ignore: bool)
    ensures var q := queue + [op]; Accepted(q, max, ignore, |queue|) <==> !ignore || Total(q, |queue| + 1) <= max
  {
  }

  // ----- The temporary buffer

  /** Whether the caller was told that transfer `k` will be sent. */
  predicate Accepted(queue: seq<Op>, max: u16, ignore: bool, k: nat)
    requires k < |queue|
  {
    !ignore || !Over(queue, max, k)
  }

  function End(op: Op): nat
    requires op.source.Temp?
  {
    op.source.offset + op.len
  }

  /** What is queued from the temporary buffer, and what was copied there for it. */
  datatype Held = Held(queue: seq<Op>, copies: seq<Option<seq<u16>>>, buffer: seq<u16>, next: nat)

  /** Transfer `k` is not from the buffer, or its part of the buffer is in use and holds the copy. */
  ghost predicate HeldAt(h: Held, k: nat)
    requires k < |h.queue| == |h.copies|
  {
    h.queue[k].source.Temp? ==>
      && End(h.queue[k]) <= h.next && h.next <= |h.buffer|
      && (h.copies[k].Some? ==> h.buffer[h.queue[k].source.offset..End(h.queue[k])] == h.copies[k].value)
  }

  ghost predicate Before(h: Held, j: nat, k: nat)
    requires j < |h.queue| && k < |h.queue|
  {
    h.queue[j].source.Temp? && h.queue[k].source.Temp? ==> End(h.queue[j]) <= h.queue[k].source.offset
  }

  /** Every accepted transfer holds its copy, and no two of them share a part of the buffer. */
  ghost predicate AllHeld(h: Held, max: u16, ignore: bool) {
    && |h.queue| == |h.copies| && h.next <= |h.buffer|
    && (forall k: nat :: k < |h.queue| ==> (h.queue[k].source.Temp? ==> End(h.queue[k]) <= |h.buffer|))
    && (forall k: nat :: k < |h.queue| && Accepted(h.queue, max, ignore, k) ==> HeldAt(h, k))
    && (forall j: nat, k: nat :: j < k < |h.queue| && Accepted(h.queue, max, ignore, j) && Accepted(h.queue, max, ignore, k) ==> Before(h, j, k))
  }

  lemma AcceptedEarlier(queue: seq<Op>, op: Op, max: u16, ignore: bool, k: nat)
    requires k < |queue|
    ensures Accepted(queue + [op], max, ignore, k) == Accepted(queue, max, ignore, k)
  {
    Extended(queue, op, max, k + 1);
  }

  /** The buffer changed only in its free part, from `h.next` on. */
  ghost predicate Grown(h: Held, buffer: seq<u16>) {
    h.next <= |h.buffer| == |buffer| && buffer[..h.next] == h.buffer[..h.next]
  }

  /** A transfer queued from the free part of the buffer; refused, it gives that part back. */
  lemma PushHeld(h: Held, op: Op, copy: Option<seq<u16>>, buffer: seq<u16>, max: u16, ignore: bool)
    requires AllHeld(h, max, ignore) && Grown(h, buffer)
    requires op.source.Temp? ==>
               && op.source.offset == h.next && End(op) <= |buffer|
               && (copy.Some? ==> buffer[h.next..End(op)] == copy.value)
    ensures var queue, copies := h.queue + [op], h.copies + [copy];
            var next := if op.source.Temp? then End(op) else h.next;
            && (Accepted(queue, max, ignore, |h.queue|) ==> AllHeld(Held(queue, copies, buffer, next), max, ignore))
            && (!Accepted(queue, max, ignore, |h.queue|) ==> AllHeld(Held(queue, copies, buffer, h.next), max, ignore))
  {
    var queue, copies, n := h.queue + [op], h.copies + [copy], |h.queue|;
    var accepted := Accepted(queue, max, ignore, n);
    var h' := Held(queue, copies, buffer, if accepted && op.source.Temp? then End(op) else h.next);
    forall k: nat | k < n ensures Accepted(queue, max, ignore, k) == Accepted(h.queue, max, ignore, k) {
      AcceptedEarlier(h.queue, op, max, ignore, k);
    }
    hide Accepted;
    forall k: nat | k < n && Accepted(queue, max, ignore, k) ensures HeldAt(h', k) {
      HeldEarlier(h, h', k);
    }
    forall j: nat, k: nat | j < k < |queue| && Accepted(queue, max, ignore, j) && Accepted(queue, max, ignore, k) ensures Before(h', j, k) {
      assert HeldAt(h, j);
      assert k < n ==> Before(h, j, k);
    }
    assert accepted ==> HeldAt(h', n);
  }

  lemma HeldEarlier(h: Held, h': Held, k: nat)
    requires k < |h.queue| == |h.copies| && HeldAt(h, k) && Grown(h, h'.buffer) && h.next <= h'.next <= |h'.buffer|
    requires k < |h'.queue| == |h'.copies| && h'.queue[k] == h.queue[k] && h'.copies[k] == h.copies[k]
    ensures HeldAt(h', k)
  {
    if h.queue[k].source.Temp? {
      SameSlice(h.buffer, h'.buffer, h.next, h.queue[k].source.offset, End(h.queue[k]));
    }
  }

  lemma SameSlice(s: seq<u16>, t: seq<u16>, n: nat, a: nat, b: nat)
    requires a <= b <= n <= |s| == |t| && s[..n] == t[..n]
    ensures s[a..b] == t[a..b]
  {
    forall i | a <= i < b ensures s[i] == t[i] {
      assert s[i] == s[..n][i] && t[i] == t[..n][i];
    }
  }

  // ----- The queue

  class Queue {
    const queueSize: nat
    const max: u16
    const ignoreOverCapacity: bool
    var queue: seq<Op>
    var limit: nat
    var transferSize: u16
    var buffer: seq<u16>
    var next: nat

    /** What was copied for each transfer. */
    ghost var copies: seq<Option<seq<u16>>>

    ghost function State(): Held
      reads this
    {
      Held(queue, copies, buffer, next)
    }

    ghost predicate Counted()
      reads this
    {
      && |queue| <= queueSize
      && transferSize == Total(queue, |queue|) && limit == Limit(queue, max, |queue|)
    }

    ghost predicate Valid()
      reads this
    {
      Counted() && AllHeld(State(), max, ignoreOverCapacity)
    }

    constructor (queueSize: nat, max: u16, ignoreOverCapacity: bool, buffer: seq<u16>)
      ensures Valid() && queue == [] && next == 0 && this.buffer == buffer
    {
      this.queueSize, this.max, this.ignoreOverCapacity, this.buffer := queueSize, max, ignoreOverCapacity, buffer;
      queue, limit, transferSize, next, copies := [], 0, 0, 0, [];
    }

    /** The queue part of `DMA_queueDmaFast`. */
    method Push(op: Op) returns (pushed: bool, ok: bool)
      requires Counted()
      modifies `queue, `limit, `transferSize
      ensures Counted()
      ensures pushed <==> old(|queue|) < queueSize
      ensures queue == if pushed then old(queue) + [op] else old(queue)
      ensures transferSize == if pushed then (old(transferSize) + (if op.location == Vram then 2 * op.len else op.len)) % 0x1_0000 else old(transferSize)
      ensures ok <==> pushed && Accepted(queue, max, ignoreOverCapacity, |queue| - 1)
    {
      if |queue| >= queueSize {
        return false, false;
      }
      PushCounts(queue, op, max);
      SizeIs(transferSize, op);
      hide Total, Limit, Size, Wrap16, Accepted;
      ghost var before := queue;
      queue := queue + [op];
      transferSize := Wrap16(transferSize + Size(op));
      pushed, ok := true, true;
      if transferSize > max {
        if limit == 0 {
          limit := |queue| - 1;
        }
        ok := !ignoreOverCapacity;
      }
      AcceptedLast(before, op, max, ignoreOverCapacity);
    }

    /** `DMA_queueDmaFast` for data that stays where it is. */
    method QueueFast(location: Location, address: nat, to: u16, len: u16, step: u16) returns (ok: bool)
      requires Valid()
      modifies `queue, `limit, `transferSize, `copies
      ensures Valid()
      ensures queue == if old(|queue|) < queueSize then old(queue) + [Op(location, Memory(address), to, len, step)] else old(queue)
      ensures ok <==> old(|queue|) < queueSize && Accepted(queue, max, ignoreOverCapacity, |queue| - 1)
      ensures copies == if old(|queue|) < queueSize then old(copies) + [None] else old(copies)
      ensures transferSize == if old(|queue|) < queueSize then (old(transferSize) + (if location == Vram then 2 * len else len)) % 0x1_0000
                              else old(transferSize)
    {
      hide Total, Limit, AllHeld, Accepted;
      ghost var h := State();
      var op := Op(location, Memory(address), to, len, step);
      PushPlain(h, op, max, ignoreOverCapacity);
      var pushed;
      pushed, ok := Push(op);
      if pushed {
        copies := copies + [None];
      }
    }

    /** `DMA_copyAndQueueDma`: the data is copied now and sent later. */
    method CopyAndQueue(location: Location, from: seq<u16>, to: u16, len: u16, step: u16) returns (ok: bool)
      requires Valid() && |from| == len
      modifies this
      ensures Valid()
      ensures var room, op := old(next) + len <= |buffer| && old(|queue|) < queueSize, Op(location, Temp(old(next)), to, len, step);
              && queue == (if room then old(queue) + [op] else old(queue))
              && copies == (if room then old(copies) + [Some(from)] else old(copies))
              && (ok <==> room && Accepted(queue, max, ignoreOverCapacity, |queue| - 1))
      ensures next == if ok then old(next) + len else old(next)
    {
      hide Total, Limit, AllHeld, Accepted;
      ghost var h := State();
      NextInside(h, max, ignoreOverCapacity);
      var at := next;
      next := next + len;
      if next > |buffer| {
        next := next - len;
        return false;
      }
      buffer := buffer[..at] + from + buffer[at + len..];
      var op := Op(location, Temp(at), to, len, step);
      CopiedIs(h, buffer, from);
      KeptAnyway(h, buffer, max, ignoreOverCapacity);
      PushHeld(h, op, Some(from), buffer, max, ignoreOverCapacity);
      var pushed;
      pushed, ok := Push(op);
      if pushed {
        copies := copies + [Some(from)];
      }
      if !ok {
        next := next - len;
      }
    }

    /** `DMA_allocateAndQueueDma`: the caller fills its part of the buffer later. */
    method AllocateAndQueue(location: Location, to: u16, len: u16, step: u16) returns (result: Option<nat>)
      requires Valid()
      modifies `queue, `limit, `transferSize, `next, `copies
      ensures Valid()
      ensures var room, op := old(next) + len <= |buffer| && old(|queue|) < queueSize, Op(location, Temp(old(next)), to, len, step);
              && queue == (if room then old(queue) + [op] else old(queue))
              && copies == (if room then old(copies) + [None] else old(copies))
              && result == (if room && Accepted(queue, max, ignoreOverCapacity, |queue| - 1) then Some(old(next)) else None)
      ensures next == if result.Some? then old(next) + len else old(next)
    {
      hide Total, Limit, AllHeld, Accepted;
      ghost var h := State();
      NextInside(h, max, ignoreOverCapacity);
      var at := next;
      next := next + len;
      if next > |buffer| {
        next := next - len;
        return None;
      }
      var op := Op(location, Temp(at), to, len, step);
      PushHeld(h, op, None, buffer, max, ignoreOverCapacity);
      var pushed, ok := Push(op);
      if pushed {
        copies := copies + [None];
      }
      if !ok {
        next := next - len;
        return None;
      }
      result := Some(at);
    }

    /** The caller of `DMA_allocateAndQueueDma` writes to the part of the buffer it was given. */
    method Fill(k: nat, i: nat, value: u16)
      requires Valid() && k < |queue| == |copies| && Accepted(queue, max, ignoreOverCapacity, k)
      requires queue[k].source.Temp? && copies[k] == None && i < queue[k].len
      requires queue[k].source.offset + i < |buffer|
      modifies `buffer
      ensures Valid() && buffer == old(buffer)[queue[k].source.offset + i := value]
    {
      hide Total, Limit, AllHeld, Accepted;
      FillHeld(State(), k, queue[k].source.offset + i, value, max, ignoreOverCapacity);
      buffer := buffer[queue[k].source.offset + i := value];
    }

    /** `DMA_flushQueue`: the transfers sent, with the data that those from the buffer carry. */
    method Flush() returns (sent: seq<Op>, data: seq<Option<seq<u16>>>)
      requires Valid()
      modifies `queue, `limit, `transferSize, `next, `copies
      ensures Valid() && queue == [] && next == 0
      ensures sent == old(queue)[..Flushed(old(queue), max, ignoreOverCapacity)] && |data| == |sent|
      ensures |old(copies)| == |old(queue)|
      ensures forall k: nat :: k < |sent| && Accepted(old(queue), max, ignoreOverCapacity, k) && sent[k].source.Temp? && old(copies)[k].Some? ==>
                data[k] == old(copies)[k]
    {
      hide Total, Limit;
      var i := |queue|;
      if limit != 0 {
        if ignoreOverCapacity {
          i := limit;
        }
      }
      sent := queue[..i];
      data := Carried(queue, buffer, i, State(), max, ignoreOverCapacity);
      queue, limit, transferSize, next, copies := [], 0, 0, 0, [];
      EmptyCounts(max);
    }
  }

  /** The data of the first `n` transfers, as they are sent. */
  method Carried(queue: seq<Op>, buffer: seq<u16>, n: nat, ghost h: Held, max: u16, ignore: bool) returns (data: seq<Option<seq<u16>>>)
    requires AllHeld(h, max, ignore) && h.queue == queue && h.buffer == buffer && n <= |queue|
    ensures |data| == n && |h.copies| == |queue|
    ensures forall k: nat :: k < n && Accepted(queue, max, ignore, k) && queue[k].source.Temp? && h.copies[k].Some? ==> data[k] == h.copies[k]
  {
    hide Accepted;
    data := [];
    var k: nat := 0;
    while k < n
      invariant k <= n && |data| == k
      invariant forall j: nat :: j < k && Accepted(queue, max, ignore, j) && queue[j].source.Temp? && h.copies[j].Some? ==> data[j] == h.copies[j]
    {
      var op := queue[k];
      assert Accepted(queue, max, ignore, k) ==> HeldAt(h, k);
      data := data + [if op.source.Temp? then Some(buffer[op.source.offset..End(op)]) else None];
      k := k + 1;
    }
  }

  lemma EmptyCounts(max: u16)
    ensures Total([], 0) == 0 && Limit([], max, 0) == 0
  {
  }

  lemma NextInside(h: Held, max: u16, ignore: bool)
    requires AllHeld(h, max, ignore)
    ensures h.next <= |h.buffer|
  {
  }

  lemma PushPlain(h: Held, op: Op, max: u16, ignore: bool)
    requires AllHeld(h, max, ignore) && op.source.Memory?
    ensures AllHeld(Held(h.queue + [op], h.copies + [None], h.buffer, h.next), max, ignore)
  {
    PushHeld(h, op, None, h.buffer, max, ignore);
  }

  lemma CopiedIs(h: Held, buffer: seq<u16>, from: seq<u16>)
    requires h.next + |from| <= |h.buffer| && buffer == h.buffer[..h.next] + from + h.buffer[h.next + |from|..]
    ensures Grown(h, buffer) && buffer[h.next..h.next + |from|] == from
  {
  }

  /** Writing to the part of one transfer leaves the others as they are. */
  lemma FillHeld(h: Held, k: nat, at: nat, value: u16, max: u16, ignore: bool)
    requires AllHeld(h, max, ignore) && k < |h.queue| && Accepted(h.queue, max, ignore, k) && at < |h.buffer|
    requires h.queue[k].source.Temp? && h.copies[k] == None && h.queue[k].source.offset <= at < End(h.queue[k])
    ensures AllHeld(h.(buffer := h.buffer[at := value]), max, ignore)
  {
    var h' := h.(buffer := h.buffer[at := value]);
    hide Accepted;
    forall j: nat | j < |h.queue| && Accepted(h.queue, max, ignore, j) ensures HeldAt(h', j) {
      assert HeldAt(h, j);
      assert j < k ==> Before(h, j, k);
      assert k < j ==> Before(h, k, j);
    }
    forall i: nat, j: nat | i < j < |h.queue| && Accepted(h.queue, max, ignore, i) && Accepted(h.queue, max, ignore, j) ensures Before(h', i, j) {
      assert Before(h, i, j);
    }
  }

  /** Writing to the free part of the buffer leaves everything held. */
  lemma KeptAnyway(h: Held, buffer: seq<u16>, max: u16, ignore: bool)
    requires AllHeld(h, max, ignore) && Grown(h, buffer)
    ensures AllHeld(h.(buffer := buffer), max, ignore)
  {
    var h' := h.(buffer := buffer);
    hide Accepted;
    forall k: nat | k < |h.queue| && Accepted(h.queue, max, ignore, k) ensures HeldAt(h', k) {
      HeldEarlier(h, h', k);
    }
    forall j: nat, k: nat | j < k < |h.queue| && Accepted(h.queue, max, ignore, j) && Accepted(h.queue, max, ignore, k) ensures Before(h', j, k) {
      assert Before(h, j, k);
    }
  }

  // ----- The registers of a transfer

  /** The words queued for a transfer, as the hardware takes them. */
  datatype Info = Info(lenL: bv32, lenH: bv32, addrMStep: bv32, addrHAddrL: bv32, ctrl: bv32)

  function Encode(location: Location, from: bv32, to: bv32, len: bv32, step: bv32): Info {
    Info(0x9300 + (len & 0xFF), 0x9400 + ((len >> 8) & 0xFF),
         0x9600_8F00 + ((from << 7) & 0xFF_0000) + step, 0x9700_9500 + ((from >> 1) & 0x7F_00FF),
         Command(location, to))
  }

  function Command(location: Location, to: bv32): bv32 {
    match location
    case Vram => ((0x4000 + (to & 0x3FFF)) << 16) + ((to >> 14) | 0x80)
    case Cram => ((0xC000 + (to & 0x7F)) << 16) + 0x80
    case Vsram => ((0x4000 + (to & 0x7F)) << 16) + 0x90
  }

  /** The hardware: a word with the upper bits 100 sets the register that its next five bits name to its lower
      byte. */
  predicate Sets(word: bv32, register: bv32, value: bv32) {
    word & 0xE000 == 0x8000 && (word >> 8) & 0x1F == register && word & 0xFF == value
  }

  /** The length goes to registers 19 and 20, the step to 15, the address in words to 21, 22 and 23. */
  lemma RegistersSet(location: Location, from: bv32, to: bv32, len: bv32, step: bv32)
    requires len <= 0xFFFF && step <= 0xFF
    ensures var i := Encode(location, from, to, len, step);
            && Sets(i.lenL, 19, len & 0xFF) && Sets(i.lenH, 20, len >> 8)
            && Sets(i.addrMStep & 0xFFFF, 15, step) && Sets(i.addrMStep >> 16, 22, (from >> 9) & 0xFF)
            && Sets(i.addrHAddrL & 0xFFFF, 21, (from >> 1) & 0xFF) && Sets(i.addrHAddrL >> 16, 23, (from >> 17) & 0x7F)
  {
  }

  /** The two words of the command: six bits of code, sixteen of address. */
  function Code(ctrl: bv32): bv32 {
    (ctrl >> 30) | ((ctrl >> 2) & 0x3C)
  }

  function Address(ctrl: bv32): bv32 {
    ((ctrl >> 16) & 0x3FFF) | ((ctrl & 3) << 14)
  }

  /** The command starts a transfer (bit 5) to write VRAM (1), CRAM (3) or VSRAM (5), at the address asked for, of
      which the small memories have seven bits. */
  lemma CommandIs(location: Location, from: bv32, to: bv32, len: bv32, step: bv32)
    requires to <= 0xFFFF
    ensures var c := Encode(location, from, to, len, step).ctrl;
            && Code(c) == (match location case Vram => 0x21 case Cram => 0x23 case Vsram => 0x25)
            && Address(c) == if location == Vram then to else to & 0x7F
  {
    hide Code, Address, Command;
    match location
    case Vram => VramCommand(to);
    case Cram => CramCommand(to);
    case Vsram => VsramCommand(to);
  }

  lemma VramCommand(to: bv32)
    requires to <= 0xFFFF
    ensures Code(Command(Vram, to)) == 0x21 && Address(Command(Vram, to)) == to
  {
    hide Code, Address;
    VramBits(to);
    Parted(0x4000, to & 0x3FFF, (to >> 14) | 0x80);
    VramParts(to);
  }

  lemma VramBits(to: bv32)
    requires to <= 0xFFFF
    ensures to & 0x3FFF <= 0x3FFF && (to >> 14) | 0x80 <= 0xFFFF
  {
  }

  lemma CramCommand(to: bv32)
    ensures Code(Command(Cram, to)) == 0x23 && Address(Command(Cram, to)) == to & 0x7F
  {
    hide Code, Address;
    SmallBits(to);
    Parted(0xC000, to & 0x7F, 0x80);
    CramParts(to);
  }

  lemma VsramCommand(to: bv32)
    ensures Code(Command(Vsram, to)) == 0x25 && Address(Command(Vsram, to)) == to & 0x7F
  {
    hide Code, Address;
    SmallBits(to);
    Parted(0x4000, to & 0x7F, 0x90);
    VsramParts(to);
  }

  lemma SmallBits(to: bv32)
    ensures to & 0x7F <= 0x3FFF
  {
  }

  /** The parts of a command do not overlap. */
  lemma Parted(high: bv32, a: bv32, low: bv32)
    requires high & 0x3FFF == 0 && high <= 0xC000 && a <= 0x3FFF && low <= 0xFFFF
    ensures ((high + a) << 16) + low == (high << 16) | (a << 16) | low
  {
    assert high + a == high | a;
    assert (high | a) << 16 == (high << 16) | (a << 16);
    Disjoint(high | a, low);
  }

  lemma Disjoint(a: bv32, low: bv32)
    requires a <= 0xFFFF && low <= 0xFFFF
    ensures (a << 16) + low == (a << 16) | low
  {
  }

  lemma VramParts(to: bv32)
    requires to <= 0xFFFF
    ensures var c := (0x4000 << 16) | ((to & 0x3FFF) << 16) | ((to >> 14) | 0x80); Code(c) == 0x21 && Address(c) == to
  {
  }

  lemma CramParts(to: bv32)
    ensures var c := (0xC000 << 16) | ((to & 0x7F) << 16) | 0x80; Code(c) == 0x23 && Address(c) == to & 0x7F
  {
  }

  lemma VsramParts(to: bv32)
    ensures var c := (0x4000 << 16) | ((to & 0x7F) << 16) | 0x90; Code(c) == 0x25 && Address(c) == to & 0x7F
  {
  }

  /** What the software copy that can replace DMA reads back. */
  function DecodeLen(i: Info): bv32 {
    (i.lenL & 0xFF) | ((i.lenH & 0xFF) << 8)
  }

  function DecodeStep(i: Info): bv32 {
    i.addrMStep & 0xFF
  }

  function DecodeFrom(i: Info): bv32 {
    ((i.addrMStep & 0xFF_0000) >> 7) | ((i.addrHAddrL & 0x7F_00FF) << 1)
  }

  /** Length, step and address survive the registers: the address without its lowest bit, in 24 bits. */
  lemma RegistersRoundTrip(location: Location, from: bv32, to: bv32, len: bv32, step: bv32)
    requires len <= 0xFFFF && step <= 0xFF
    ensures var i := Encode(location, from, to, len, step);
            DecodeLen(i) == len && DecodeStep(i) == step && DecodeFrom(i) == from & 0xFF_FFFE
  {
  }
}
