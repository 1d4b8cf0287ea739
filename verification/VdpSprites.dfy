/** The hardware sprite allocator of `src/vdp_spr.c`: the entries of the sprite attribute table are
    handed out by a stack of free ones, linked one to the next by their `link` fields, which the
    hardware follows from entry 0 until it reads 0. */
module VdpSprites {
  import opened SpriteLists

  const SAT_MAX_SIZE := 80
  const CACHE_SIZE := SAT_MAX_SIZE + 16

  // ----- Chains of links

  /** Element `i` of a chain, 0 past its end. */
  function Entry(w: seq<nat>, i: nat): nat {
    if i < |w| then w[i] else 0
  }

  /** Entry `i` of `w` links to the one after it; the last one links to 0. */
  ghost predicate LinkedOn(link: seq<nat>, w: seq<nat>, i: nat)
    requires i < |w|
  {
    w[i] < |link| && link[w[i]] == Entry(w, i + 1)
  }

  /** Following `link` from `w[0]` visits exactly `w` and ends with 0. */
  ghost predicate Chained(link: seq<nat>, w: seq<nat>) {
    forall i :: 0 <= i < |w| ==> LinkedOn(link, w, i)
  }

  /** The entries of `s` are linked one to the next; where the last one links is left open. */
  ghost predicate Inner(link: seq<nat>, s: seq<nat>) {
    && (forall i :: 0 <= i < |s| ==> s[i] < |link|)
    && (forall i :: 0 <= i < |s| - 1 ==> link[s[i]] == Entry(s, i + 1))
  }

  function Last(w: seq<nat>): nat
    requires w != []
  {
    w[|w| - 1]
  }

  /** What the hardware does: follow `link` from `from` until it is 0, at most `n` times. */
  ghost function Visit(link: seq<nat>, from: nat, n: nat): seq<nat>
    decreases n
  {
    if n == 0 || from >= |link| then []
    else if link[from] == 0 then [from]
    else [from] + Visit(link, link[from], n - 1)
  }

  /** The hardware visits exactly the chain. */
  lemma {:induction false} VisitsChain(link: seq<nat>, w: seq<nat>, i: nat, n: nat)
    requires Chained(link, w) && i < |w| && n >= |w| - i
    requires forall j :: 0 < j < |w| ==> w[j] != 0
    ensures Visit(link, w[i], n) == w[i..]
    decreases |w| - i
  {
    assert LinkedOn(link, w, i);
    if i + 1 < |w| {
      VisitsChain(link, w, i + 1, n - 1);
      assert w[i..] == [w[i]] + w[i + 1..];
    } else {
      assert w[i..] == [w[i]];
    }
  }

  // ----- Taking a piece out of a chain and putting one in

  /** Element `i` of three pieces put together. */
  lemma PieceAt(a: seq<nat>, s: seq<nat>, b: seq<nat>, i: nat)
    ensures Entry(a + s + b, i) ==
            if i < |a| then a[i] else if i < |a| + |s| then s[i - |a|] else Entry(b, i - |a| - |s|)
  {
  }

  /** The link that closes the gap. */
  lemma Unchain(link: seq<nat>, a: seq<nat>, s: seq<nat>, b: seq<nat>)
    requires a != [] && Chained(link, a + s + b) && Distinct(a + s + b) && Last(a) < |link|
    ensures var link' := link[Last(a) := Entry(b, 0)];
            Chained(link', a + b) && Inner(link', s)
  {
    var w, w', link' := a + s + b, a + b, link[Last(a) := Entry(b, 0)];
    forall i | 0 <= i < |w'| ensures LinkedOn(link', w', i) {
      UnchainAt(link, a, s, b, i);
    }
    forall i | 0 <= i < |s| ensures s[i] < |link| && (i < |s| - 1 ==> link'[s[i]] == Entry(s, i + 1)) {
      hide Chained;
      ChainedPiece(link, a, s, b, i);
    }
  }

  lemma UnchainAt(link: seq<nat>, a: seq<nat>, s: seq<nat>, b: seq<nat>, i: nat)
    requires a != [] && Chained(link, a + s + b) && Distinct(a + s + b) && Last(a) < |link| && i < |a + b|
    ensures LinkedOn(link[Last(a) := Entry(b, 0)], a + b, i)
  {
    var w, j, m := a + s + b, if i < |a| then i else i + |s|, |a| - 1;
    assert LinkedOn(link, w, j);
    assert w[m] == Last(a);
    if j != m {
      Apart(w, j, m);
    }
    PieceAt(a, s, b, j);
    PieceAt(a, s, b, j + 1);
    PieceAt(a, [], b, i);
    PieceAt(a, [], b, i + 1);
    assert a + [] + b == a + b;
  }

  /** Inside a chain, a piece after the first is linked and away from the entry before it. */
  lemma ChainedPiece(link: seq<nat>, a: seq<nat>, s: seq<nat>, b: seq<nat>, i: nat)
    requires a != [] && Chained(link, a + s + b) && Distinct(a + s + b) && i < |s|
    ensures s[i] < |link| && s[i] != Last(a)
    ensures i + 1 < |s| ==> link[s[i]] == s[i + 1]
    ensures i + 1 == |s| ==> link[s[i]] == Entry(b, 0)
  {
    var w := a + s + b;
    assert LinkedOn(link, w, |a| + i);
    assert w[|a| + i] == s[i] && w[|a| - 1] == Last(a);
    Apart(w, |a| + i, |a| - 1);
    PieceAt(a, s, b, |a| + i + 1);
  }

  /** The two links that put a linked piece in. */
  lemma Enchain(link: seq<nat>, a: seq<nat>, s: seq<nat>, b: seq<nat>)
    requires a != [] && s != [] && Chained(link, a + b) && Inner(link, s) && Distinct(a + s + b)
    requires Last(a) < |link| && Last(s) < |link|
    ensures Chained(link[Last(s) := Entry(b, 0)][Last(a) := s[0]], a + s + b)
    ensures link[Last(a)] == Entry(b, 0) && Last(a) != Last(s)
  {
    var w := a + s + b;
    assert w[|a| - 1] == Last(a) && w[|a| + |s| - 1] == Last(s);
    Apart(w, |a| - 1, |a| + |s| - 1);
    PieceAt(a, [], b, |a|);
    assert a + [] + b == a + b;
    assert LinkedOn(link, a + b, |a| - 1);
    var link' := link[Last(s) := Entry(b, 0)][Last(a) := s[0]];
    forall i | 0 <= i < |w| ensures LinkedOn(link', w, i) {
      EnchainAt(link, a, s, b, i);
    }
  }

  lemma EnchainAt(link: seq<nat>, a: seq<nat>, s: seq<nat>, b: seq<nat>, i: nat)
    requires a != [] && s != [] && Chained(link, a + b) && Inner(link, s) && Distinct(a + s + b)
    requires Last(a) < |link| && Last(s) < |link| && i < |a + s + b|
    ensures LinkedOn(link[Last(s) := Entry(b, 0)][Last(a) := s[0]], a + s + b, i)
  {
    var w, m, n := a + s + b, |a| - 1, |a| + |s| - 1;
    assert w[m] == Last(a) && w[n] == Last(s);
    if i != m {
      Apart(w, i, m);
    }
    if i != n {
      Apart(w, i, n);
    }
    PieceAt(a, s, b, i);
    PieceAt(a, s, b, i + 1);
    if i < |a| || i >= |a| + |s| {
      var j := if i < |a| then i else i - |s|;
      assert LinkedOn(link, a + b, j);
      PieceAt(a, [], b, j);
      PieceAt(a, [], b, j + 1);
      assert a + [] + b == a + b;
    }
  }

  // ----- Handing entries out

  /** The entries `num` pops take off the stack, first to last. */
  ghost function Popped(stack: seq<nat>, free: nat, num: nat): (p: seq<nat>)
    requires num <= free <= |stack|
    ensures |p| == num
    ensures forall i :: 0 <= i < num ==> p[i] == stack[free - 1 - i]
  {
    seq(num, i requires 0 <= i < num => stack[free - 1 - i])
  }

  ghost predicate PoppedFrom(stack: seq<nat>, free: nat, p: seq<nat>) {
    |p| <= free <= |stack| && p == Popped(stack, free, |p|)
  }

  lemma PoppedAt(stack: seq<nat>, free: nat, p: seq<nat>, i: nat)
    requires PoppedFrom(stack, free, p) && i < |p|
    ensures |p| <= free <= |stack| && stack[free - 1 - i] == p[i]
  {
  }

  /** What the pops take and what they leave is what there was. */
  lemma {:induction false} PoppedOut(stack: seq<nat>, free: nat, num: nat)
    requires num <= free <= |stack|
    ensures multiset(stack[..free]) == multiset(stack[..free - num]) + multiset(Popped(stack, free, num))
  {
    if num > 0 {
      PoppedOut(stack, free, num - 1);
      var p, q, x := Popped(stack, free, num), Popped(stack, free, num - 1), stack[free - num];
      assert p == q + [x];
      assert stack[..free - num + 1] == stack[..free - num] + [x];
    }
  }

  lemma PoppedDistinct(stack: seq<nat>, free: nat, num: nat)
    requires num <= free <= |stack| && Distinct(stack[..free])
    ensures Distinct(Popped(stack, free, num))
  {
    var p, s := Popped(stack, free, num), stack[..free];
    forall i, j | 0 <= i < j < |p| ensures p[i] != p[j] {
      Apart(s, free - 1 - i, free - 1 - j);
    }
  }

  /** `link'` is `link` with the entries `s` linked one to the next and the last one to 0. */
  ghost predicate Strung(link: seq<nat>, link': seq<nat>, s: seq<nat>) {
    && |link'| == |link|
    && Inner(link', s)
    && (s != [] ==> link'[Last(s)] == 0)
    && forall x: nat :: x < |link| && x !in s ==> link'[x] == link[x]
  }

  /** The first `i` entries of `p` are linked on. */
  ghost predicate Begun(link: seq<nat>, link': seq<nat>, p: seq<nat>, i: nat)
    requires i < |p|
  {
    && |link'| == |link|
    && (forall j :: 0 <= j < |p| ==> p[j] < |link|)
    && (forall j :: 0 <= j < i ==> link'[p[j]] == Entry(p, j + 1))
    && forall x: nat :: x < |link| && x !in p ==> link'[x] == link[x]
  }

  lemma BegunStart(link: seq<nat>, p: seq<nat>)
    requires p != [] && forall j :: 0 <= j < |p| ==> p[j] < |link|
    ensures Begun(link, link, p, 0)
  {
  }

  lemma LastIs(w: seq<nat>)
    requires w != []
    ensures Last(w) == w[|w| - 1]
  {
  }

  lemma BegunStep(link: seq<nat>, link': seq<nat>, p: seq<nat>, i: nat)
    requires Distinct(p) && i + 1 < |p| && Begun(link, link', p, i)
    ensures p[i] < |link'| && Begun(link, link'[p[i] := p[i + 1]], p, i + 1)
  {
    forall j | 0 <= j < i ensures p[j] != p[i] {
      Apart(p, j, i);
    }
    hide Distinct;
  }

  lemma BegunDone(link: seq<nat>, link': seq<nat>, p: seq<nat>)
    requires Distinct(p) && p != [] && Begun(link, link', p, |p| - 1)
    ensures Last(p) < |link'| && Strung(link, link'[Last(p) := 0], p)
  {
    forall j | 0 <= j < |p| - 1 ensures p[j] != Last(p) {
      Apart(p, j, |p| - 1);
    }
    hide Distinct;
  }

  lemma {:induction false} CountingDown(n: nat)
    ensures multiset(seq(n, i => n - 1 - i)) == Everyone(n)
  {
    if n > 0 {
      CountingDown(n - 1);
      assert seq(n, i => n - 1 - i) == [n - 1] + seq(n - 1, i => n - 2 - i);
      assert seq(n - 1, i => n - 2 - i) == seq(n - 1, i => (n - 1) - 1 - i);
    }
  }

  // ----- The highest entry in use

  /** Every entry above `highest` is free. */
  ghost predicate Above(stack: seq<nat>, free: nat, highest: int)
    requires free <= |stack|
  {
    forall x: nat :: highest < x < SAT_MAX_SIZE ==> x in stack[..free]
  }

  /** The first `n` numbers of `p` are at most `m`. */
  ghost predicate AtMost(p: seq<nat>, n: nat, m: int) {
    n <= |p| && forall i :: 0 <= i < n ==> p[i] <= m
  }

  lemma AtMostNext(p: seq<nat>, n: nat, m: nat, x: nat)
    requires n < |p| && (n == 0 || AtMost(p, n, m)) && p[n] == x
    ensures AtMost(p, n + 1, if x > m then x else m) && (n == 0 ==> AtMost(p, 1, x))
  {
  }

  lemma AtMostMore(p: seq<nat>, n: nat, m: int, m': int)
    requires AtMost(p, n, m) && m <= m'
    ensures AtMost(p, n, m')
  {
  }

  lemma AbovePop(stack: seq<nat>, free: nat, num: nat, highest: int, highest': int)
    requires num <= free <= |stack| && Above(stack, free, highest) && highest <= highest'
    requires AtMost(Popped(stack, free, num), num, highest')
    ensures Above(stack, free - num, highest')
  {
    var p, all, rest := Popped(stack, free, num), stack[..free], stack[..free - num];
    forall j | free - num <= j < free ensures all[j] <= highest' {
      assert all[j] == p[free - 1 - j];
    }
    forall x: nat | highest' < x < SAT_MAX_SIZE ensures x in rest {
      assert x in all;
      var j :| 0 <= j < |all| && all[j] == x;
      assert rest[j] == x;
    }
  }

  lemma AbovePush(stack: seq<nat>, free: nat, stack': seq<nat>, free': nat, s: seq<nat>, highest: int)
    requires free <= |stack| && free' <= |stack'| && stack'[..free'] == stack[..free] + s
    requires Above(stack, free, highest)
    ensures Above(stack', free', highest)
  {
  }

  /** Every entry that is not free is at most the highest. */
  lemma HighestIs(w: seq<nat>, stack: seq<nat>, free: nat, highest: int)
    requires free <= |stack| && Above(stack, free, highest)
    requires multiset(w) + multiset(stack[..free]) == Everyone(SAT_MAX_SIZE)
    ensures forall i :: 0 <= i < |w| ==> w[i] <= highest
  {
    hide Everyone;
    forall i | 0 <= i < |w| ensures w[i] <= highest {
      SharedOut(w, stack[..free], SAT_MAX_SIZE, w[i]);
    }
  }

  /** The highest number of a sequence, or -1. */
  function Highest(l: seq<nat>): int {
    if l == [] then -1
    else
      var h := Highest(l[1..]);
      if l[0] > h then l[0] else h
  }

  /** `Highest` is the maximum. */
  lemma {:induction false} HighestMax(l: seq<nat>)
    ensures forall i :: 0 <= i < |l| ==> l[i] <= Highest(l)
    ensures if l == [] then Highest(l) == -1 else exists i :: 0 <= i < |l| && l[i] == Highest(l)
  {
    if l != [] {
      HighestMax(l[1..]);
      assert l == [l[0]] + l[1..];
      if l[0] <= Highest(l[1..]) {
        var j :| 0 <= j < |l[1..]| && l[1..][j] == Highest(l[1..]);
        assert l[j + 1] == Highest(l);
      } else {
        assert l[0] == Highest(l);
      }
    }
  }

  // ----- Recomputing the highest entry

  /** The allocation stack. */
  datatype Stack = Stack(entries: seq<nat>, free: nat)

  function Fresh(): Stack {
    Stack(seq(SAT_MAX_SIZE, i => SAT_MAX_SIZE - 1 - i), SAT_MAX_SIZE)
  }

  /** The stack after `num` entries are handed out. */
  function Take(st: Stack, num: nat): Stack
    requires num <= st.free
  {
    st.(free := st.free - num)
  }

  /** The stack after the entries `s` are given back: they are written over what is above the free ones. */
  function Give(st: Stack, s: seq<nat>): Stack
    requires st.free + |s| <= |st.entries|
  {
    Stack(st.entries[..st.free] + s + st.entries[st.free + |s|..], st.free + |s|)
  }

  /** `h` is the highest entry that is not free, or -1 if all are. */
  ghost predicate HighestInUse(st: Stack, h: int)
    requires st.free <= |st.entries|
  {
    && (forall x: nat :: x < SAT_MAX_SIZE && x !in st.entries[..st.free] ==> x <= h)
    && (h != -1 ==> 0 <= h < SAT_MAX_SIZE && h !in st.entries[..st.free])
  }

  /** Every entry is on the stack once, the ones in use above the free ones. */
  ghost predicate Intact(st: Stack) {
    st.free <= |st.entries| && multiset(st.entries) == Everyone(SAT_MAX_SIZE)
  }

  /** Then what is above the free ones has the highest entry in use. */
  lemma RefreshRight(st: Stack)
    requires Intact(st)
    ensures HighestInUse(st, Highest(st.entries[st.free..]))
  {
    hide Everyone;
    var below, above := st.entries[..st.free], st.entries[st.free..];
    assert st.entries == below + above;
    HighestMax(above);
    hide Highest;
    forall x: nat | x < SAT_MAX_SIZE && x !in below ensures x <= Highest(above) {
      SharedOut(above, below, SAT_MAX_SIZE, x);
    }
    if above != [] {
      var i :| 0 <= i < |above| && above[i] == Highest(above);
      SharedOut(above, below, SAT_MAX_SIZE, above[i]);
    }
  }

  /** Giving entries back keeps the stack intact if and only if they are the ones that lie just above the
      free ones, in any order. */
  lemma GiveIntact(st: Stack, s: seq<nat>)
    requires Intact(st) && st.free + |s| <= |st.entries|
    ensures Intact(Give(st, s)) <==> multiset(s) == multiset(st.entries[st.free..st.free + |s|])
  {
    hide Everyone;
    var a, m, b := st.entries[..st.free], st.entries[st.free..st.free + |s|], st.entries[st.free + |s|..];
    assert st.entries == a + m + b;
    assert multiset(st.entries) == multiset(a) + multiset(m) + multiset(b);
    assert multiset(Give(st, s).entries) == multiset(a) + multiset(s) + multiset(b);
    if Intact(Give(st, s)) {
      assert multiset(s) == multiset(st.entries) - multiset(a) - multiset(b) == multiset(m);
    }
  }

  lemma HighestAbove(st: Stack, h: int)
    requires st.free <= |st.entries| && HighestInUse(st, h)
    ensures Above(st.entries, st.free, h)
  {
  }

  datatype StackOp = Taking(num: nat) | Giving(s: seq<nat>)

  /** Entries are handed out while there are some, and given back when they lie just above the free ones. */
  ghost predicate InOrder(st: Stack, op: StackOp) {
    match op
    case Taking(num) => num <= st.free
    case Giving(s) => st.free + |s| <= |st.entries| && multiset(s) == multiset(st.entries[st.free..st.free + |s|])
  }

  function Next(st: Stack, op: StackOp): Stack
    requires match op case Taking(num) => num <= st.free case Giving(s) => st.free + |s| <= |st.entries|
  {
    match op
    case Taking(num) => Take(st, num)
    case Giving(s) => Give(st, s)
  }

  /** In every run from a reset that gives entries back in such order the recomputed index is right. */
  lemma {:induction false} RefreshAfterRun(ops: seq<StackOp>, sts: seq<Stack>, i: nat)
    requires |sts| == |ops| + 1 && sts[0] == Fresh() && i <= |ops|
    requires forall j :: 0 <= j < |ops| ==> InOrder(sts[j], ops[j]) && sts[j + 1] == Next(sts[j], ops[j])
    ensures Intact(sts[i]) && HighestInUse(sts[i], Highest(sts[i].entries[sts[i].free..]))
  {
    hide Everyone;
    if i == 0 {
      CountingDown(SAT_MAX_SIZE);
    } else {
      assert InOrder(sts[i - 1], ops[i - 1]) && sts[i] == Next(sts[i - 1], ops[i - 1]);
      RefreshAfterRun(ops, sts, i - 1);
      hide InOrder, Next, Intact, HighestInUse, Highest;
      NextIntact(sts[i - 1], ops[i - 1]);
    }
    RefreshRight(sts[i]);
  }

  lemma NextIntact(st: Stack, op: StackOp)
    requires Intact(st) && InOrder(st, op)
    ensures Intact(Next(st, op))
  {
    hide Everyone;
    if op.Giving? {
      GiveIntact(st, op.s);
    }
  }

  /** Otherwise it can be too low: entries 0, 1 and 2 handed out and 1 given back. Entry 2 is in use, and
      the result is 1. */
  lemma RefreshTooLow()
    ensures var st := Give(Take(Take(Take(Fresh(), 1), 1), 1), [1]);
            && 2 !in st.entries[..st.free] && Highest(st.entries[st.free..]) == 1
            && !HighestInUse(st, Highest(st.entries[st.free..]))
  {
    var st := Give(Take(Take(Take(Fresh(), 1), 1), 1), [1]);
    assert st.entries[78..] == [1, 0];
    TwoHighest(1, 0);
    assert forall i :: 0 <= i < 78 ==> st.entries[i] != 2;
  }

  /** Or too high: entries 0 and 1 handed out and given back in that order, both handed out again, and 1
      given back. Only entry 0 is in use, and the result is 1. */
  lemma RefreshTooHigh()
    ensures var st := Give(Take(Give(Give(Take(Fresh(), 2), [0]), [1]), 2), [1]);
            && (forall x: nat :: x < SAT_MAX_SIZE ==> (x !in st.entries[..st.free] <==> x == 0))
            && Highest(st.entries[st.free..]) == 1
  {
    var st := Give(Take(Give(Give(Take(Fresh(), 2), [0]), [1]), 2), [1]);
    assert st.free == 79 && st.entries[79..] == [1];
    OneHighest(1);
    var l := st.entries[..79];
    forall x: nat | x < SAT_MAX_SIZE ensures x !in l <==> x == 0 {
      if x > 0 {
        assert l[SAT_MAX_SIZE - 1 - x] == x;
      }
    }
  }

  lemma OneHighest(x: nat)
    ensures Highest([x]) == x
  {
    assert [x][1..] == [];
  }

  lemma TwoHighest(x: nat, y: nat)
    requires x > y
    ensures Highest([x, y]) == x
  {
    assert [x, y][1..] == [y];
    OneHighest(y);
  }

  lemma StarterLink(link0: seq<nat>, link: seq<nat>, p: seq<nat>)
    requires |link0| == CACHE_SIZE && Strung(link0[0 := 0], link, p) && |p| == 1 && p[0] == 0
    ensures |link| == CACHE_SIZE && link[0] == 0
  {
  }

  lemma InnerAt(link: seq<nat>, s: seq<nat>, i: nat)
    requires Inner(link, s) && i < |s|
    ensures s[i] < |link| && (i + 1 < |s| ==> link[s[i]] == s[i + 1])
  {
  }

  /** One more entry pushed back. */
  lemma GiveNext(st: Stack, s: seq<nat>, i: nat)
    requires st.free + |s| <= |st.entries| && i < |s|
    ensures var g := Give(st, s[..i]);
            g.free == st.free + i < |g.entries| && Give(st, s[..i + 1]) == Stack(g.entries[g.free := s[i]], g.free + 1)
  {
    var g, h := Give(st, s[..i]), Give(st, s[..i + 1]);
    assert s[..i + 1] == s[..i] + [s[i]];
    assert st.entries[st.free + i..] == [st.entries[st.free + i]] + st.entries[st.free + i + 1..];
  }

  lemma GiveNone(st: Stack, s: seq<nat>)
    requires st.free <= |st.entries|
    ensures s[..0] == [] && Give(st, []) == st && s[..|s|] == s
  {
  }

  lemma GiveParts(st: Stack, s: seq<nat>)
    requires st.free + |s| <= |st.entries|
    ensures |Give(st, s).entries| == |st.entries| && Give(st, s).free == st.free + |s|
    ensures Give(st, s).entries[..st.free + |s|] == st.entries[..st.free] + s
  {
  }

  class SpriteCache {
    /** The `link` fields of `vdpSpriteCache`. */
    var link: seq<nat>
    var allocStack: seq<nat>
    var free: nat
    var highest: int

    /** `highest` is at least every entry in use. */
    ghost predicate Covers()
      reads `allocStack, `free, `highest
    {
      free <= |allocStack| && Above(allocStack, free, highest)
    }

    lemma CoversIs()
      ensures Covers() <==> free <= |allocStack| && Above(allocStack, free, highest)
    {
    }

    ghost predicate Shaped()
      reads this
    {
      |link| == CACHE_SIZE && |allocStack| == SAT_MAX_SIZE && free <= SAT_MAX_SIZE
    }

    lemma ShapedIs()
      ensures Shaped() <==> |link| == CACHE_SIZE && |allocStack| == SAT_MAX_SIZE && free <= SAT_MAX_SIZE
    {
    }

    constructor ()
      ensures Shaped()
    {
      link, allocStack, free, highest := seq(CACHE_SIZE, _ => 0), seq(SAT_MAX_SIZE, _ => 0), 0, -1;
    }

    /** `VDP_resetSprites`: all entries are free and entry 0 is the next one handed out. */
    method Reset()
      requires Shaped()
      modifies this
      ensures Shaped() && free == SAT_MAX_SIZE && link == old(link)[0 := 0]
      ensures allocStack == seq(SAT_MAX_SIZE, i => SAT_MAX_SIZE - 1 - i) && Stack(allocStack, free) == Fresh()
      ensures multiset(allocStack) == Everyone(SAT_MAX_SIZE) && Covers()
    {
      hide Everyone;
      var i := 0;
      while i < SAT_MAX_SIZE
        invariant 0 <= i <= SAT_MAX_SIZE && |allocStack| == SAT_MAX_SIZE && link == old(link)
        invariant forall j :: 0 <= j < i ==> allocStack[j] == SAT_MAX_SIZE - 1 - j
      {
        allocStack := allocStack[i := (SAT_MAX_SIZE - 1) - i];
        i := i + 1;
      }
      free := SAT_MAX_SIZE;
      highest := -1;
      link := link[0 := 0];
      CountingDown(SAT_MAX_SIZE);
      assert allocStack == seq(SAT_MAX_SIZE, i => SAT_MAX_SIZE - 1 - i);
      forall x: nat | x < SAT_MAX_SIZE ensures x in allocStack[..free] {
        assert allocStack[..free][SAT_MAX_SIZE - 1 - x] == x;
      }
    }

    /** `VDP_allocateSprites`. */
    method Allocate(num: nat) returns (res: int)
      requires Shaped() && num >= 1
      requires Distinct(allocStack[..free]) && forall i :: 0 <= i < free ==> allocStack[i] < |link|
      modifies `link, `free, `highest
      ensures Shaped() && (old(Covers()) ==> Covers())
      ensures res == -1 <==> num > old(free)
      ensures res == -1 ==> link == old(link) && free == old(free) && highest == old(highest)
      ensures res != -1 ==>
                && Stack(allocStack, free) == Take(old(Stack(allocStack, free)), num)
                && free == old(free) - num
                && res == Popped(allocStack, old(free), num)[0]
                && Strung(old(link), link, Popped(allocStack, old(free), num))
    {
      if free < num {
        return -1;
      }
      ghost var p := Popped(allocStack, free, num);
      PoppedDistinct(allocStack, free, num);
      BegunStart(link, p);
      hide Distinct, Popped, Strung, Above, Begun;
      var maxInd;
      res, maxInd := PopAll(num, p);
      AtMostMore(p, num, maxInd, if maxInd > highest then maxInd else highest);
      if maxInd > highest {
        highest := maxInd;
      }
      if old(Covers()) {
        AbovePop(allocStack, old(free), num, old(highest), highest);
      }
    }

    /** The pops of `VDP_allocateSprites`, each entry linked to the next, and the highest of them. */
    method PopAll(num: nat, ghost p: seq<nat>) returns (res: nat, maxInd: nat)
      requires Shaped() && 1 <= num <= free && PoppedFrom(allocStack, free, p) && |p| == num
      requires Distinct(p) && Begun(link, link, p, 0)
      modifies `link, `free
      ensures Shaped() && free == old(free) - num && res == p[0] && Strung(old(link), link, p)
      ensures AtMost(p, num, maxInd)
    {
      hide *;
      ShapedIs();
      PoppedAt(allocStack, free, p, 0);
      AtMostNext(p, 0, 0, p[0]);
      free := free - 1;
      var spr := allocStack[free];
      res := spr;
      maxInd := res;
      var remaining := num - 1;
      while remaining > 0
        invariant 0 <= remaining <= num - 1 && free == old(free) - num + remaining && |link| == |old(link)|
        invariant AtMost(p, num - remaining, maxInd)
        invariant spr == p[num - 1 - remaining] && Begun(old(link), link, p, num - 1 - remaining)
      {
        BegunStep(old(link), link, p, num - 1 - remaining);
        PoppedAt(allocStack, old(free), p, num - remaining);
        free := free - 1;
        var curSpr := allocStack[free];
        AtMostNext(p, num - remaining, maxInd, curSpr);
        if curSpr > maxInd {
          maxInd := curSpr;
        }
        link := link[spr := curSpr];
        spr := curSpr;
        remaining := remaining - 1;
      }
      BegunDone(old(link), link, p);
      LastIs(p);
      link := link[spr := 0];
      ShapedIs();
    }

    /** A reset, and entry 0 taken as the starter that is never shown (`SPR_reset` of the legacy
        engine). */
    method Start()
      requires Shaped()
      modifies this
      ensures Shaped() && Covers() && free == SAT_MAX_SIZE - 1 && link[0] == 0
      ensures allocStack == seq(SAT_MAX_SIZE, i => SAT_MAX_SIZE - 1 - i)
    {
      hide Everyone, Strung, Popped;
      Reset();
      assert allocStack[..free] == allocStack;
      var starter := Allocate(1);
      assert starter == 0;
      StarterLink(old(link), link, Popped(allocStack, SAT_MAX_SIZE, 1));
    }

    /** `VDP_releaseSprites`: the entries `s`, found by following the links from the first of them. */
    method Release(index: nat, num: nat, ghost s: seq<nat>)
      requires Shaped() && num >= 1 && free + num <= SAT_MAX_SIZE
      requires Inner(link, s) && |s| == num && s[0] == index
      modifies `allocStack, `free
      ensures Shaped() && free == old(free) + num && |allocStack| == |old(allocStack)| && (old(Covers()) ==> Covers())
      ensures allocStack[..free] == old(allocStack[..free]) + s
      ensures Stack(allocStack, free) == Give(old(Stack(allocStack, free)), s)
    {
      hide *;
      ShapedIs();
      ghost var st, covered := Stack(allocStack, free), Covers();
      CoversIs();
      GiveNone(st, s);
      InnerAt(link, s, 0);
      GiveNext(st, s, 0);
      var spr := index;
      allocStack := allocStack[free := spr];
      free := free + 1;
      var remaining := num - 1;
      while remaining > 0
        invariant 0 <= remaining <= num - 1 && spr == s[num - 1 - remaining]
        invariant Stack(allocStack, free) == Give(st, s[..num - remaining])
      {
        InnerAt(link, s, num - 1 - remaining);
        GiveNext(st, s, num - remaining);
        spr := link[spr];
        allocStack := allocStack[free := spr];
        free := free + 1;
        remaining := remaining - 1;
      }
      GiveParts(st, s);
      if covered {
        AbovePush(st.entries, st.free, allocStack, free, s, highest);
      }
      CoversIs();
      ShapedIs();
    }

    /** `VDP_refreshHighestAllocatedSpriteIndex`. */
    method RefreshHighest() returns (res: int)
      requires Shaped()
      modifies `highest
      ensures res == highest == Highest(allocStack[free..])
      ensures Intact(Stack(allocStack, free)) ==> HighestInUse(Stack(allocStack, free), res) && Covers()
    {
      hide Everyone, HighestInUse, Intact, Above;
      res := -1;
      var top := |allocStack|;
      assert allocStack[top..] == [];
      while top > free
        invariant free <= top <= |allocStack| && res == Highest(allocStack[top..])
      {
        top := top - 1;
        var ind := allocStack[top];
        assert allocStack[top..][1..] == allocStack[top + 1..];
        if ind > res {
          res := ind;
        }
      }
      highest := res;
      if Intact(Stack(allocStack, free)) {
        RefreshRight(Stack(allocStack, free));
        HighestAbove(Stack(allocStack, free), res);
      }
    }

    /** The loop of `setVDPSpriteIndex` that finds the last of the entries `s`. */
    method FindLast(ind: nat, num: nat, ghost s: seq<nat>) returns (vdpSprite: nat)
      requires num >= 1 && Inner(link, s) && |s| == num && s[0] == ind
      ensures vdpSprite == Last(s)
    {
      vdpSprite := ind;
      var i := num - 1;
      while i > 0
        invariant 0 <= i <= num - 1 && vdpSprite == s[num - 1 - i]
      {
        vdpSprite := link[vdpSprite];
        i := i - 1;
      }
    }
  }
}
