/** The legacy sprite engine of `src/sprite_eng_legacy.c` on top of the hardware sprite allocator of
    `src/vdp_spr.c`. The order of the software list is mirrored, in place, by the `link` fields of the
    sprite attribute table. */
module LegacySprites {
  import opened SpriteLists
  import opened VdpSprites

  // ----- The list and its hardware entries

  /** The hardware entries of the sprites `l`, one sprite after the other. */
  ghost function Flatten(slots: seq<seq<nat>>, l: seq<nat>): seq<nat>
    requires InRange(l, |slots|)
  {
    if l == [] then [] else slots[l[0]] + Flatten(slots, l[1..])
  }

  /** The chain the hardware is to follow: the hidden starter entry 0, then the list. */
  ghost function Chain(slots: seq<seq<nat>>, l: seq<nat>): seq<nat>
    requires InRange(l, |slots|)
  {
    [0] + Flatten(slots, l)
  }

  lemma {:induction false} FlattenAppend(slots: seq<seq<nat>>, a: seq<nat>, b: seq<nat>)
    requires InRange(a, |slots|) && InRange(b, |slots|)
    ensures InRange(a + b, |slots|)
    ensures Flatten(slots, a + b) == Flatten(slots, a) + Flatten(slots, b)
  {
    if a == [] {
      assert a + b == b;
    } else {
      assert (a + b)[1..] == a[1..] + b;
      FlattenAppend(slots, a[1..], b);
    }
  }

  /** The sprite attribute table: the links, the stack of free entries, and for each sprite the number
      of entries it has, the first and the last of them. */
  datatype Sat = Sat(link: seq<nat>, stack: seq<nat>, free: nat, num: seq<nat>, index: seq<nat>, last: seq<nat>)

  /** `slots[s]` are the entries of sprite `s`. */
  ghost predicate Owns(t: Sat, slots: seq<seq<nat>>, s: nat)
    requires s < |slots|
  {
    && s < |t.num| && s < |t.index| && s < |t.last|
    && |slots[s]| == t.num[s] > 0
    && t.index[s] == slots[s][0]
    && t.last[s] == Last(slots[s])
  }

  ghost predicate Shape(t: Sat, slots: seq<seq<nat>>) {
    |t.link| == CACHE_SIZE && |t.stack| == SAT_MAX_SIZE && t.free <= SAT_MAX_SIZE && |slots| == |t.num| == |t.index| == |t.last|
  }

  /** Every sprite of the list has its entries. */
  ghost predicate Owned(t: Sat, slots: seq<seq<nat>>, l: seq<nat>) {
    Shape(t, slots) && InRange(l, |slots|) && forall i :: 0 <= i < |l| ==> Owns(t, slots, l[i])
  }

  /** The links mirror the list: from the starter entry they visit exactly the entries of the sprites
      in list order, and these, the starter and the free entries are all entries, each once. */
  ghost predicate Mirrors(t: Sat, slots: seq<seq<nat>>, l: seq<nat>) {
    && Owned(t, slots, l)
    && Chained(t.link, Chain(slots, l))
    && multiset(Chain(slots, l)) + multiset(t.stack[..t.free]) == Everyone(SAT_MAX_SIZE)
  }

  /** No number comes twice in one of two sequences that share out the numbers below `n`. */
  lemma SharedDistinct(a: seq<nat>, b: seq<nat>, n: nat)
    requires multiset(a) + multiset(b) == Everyone(n)
    ensures Distinct(a)
    ensures forall i :: 0 <= i < |a| ==> a[i] < n
  {
    forall i, j | 0 <= i < j < |a| ensures a[i] != a[j] {
      EveryoneOnce(n, a[i]);
      TwiceIn(a, i, j);
    }
    forall i | 0 <= i < |a| ensures a[i] < n {
      SharedOut(a, b, n, a[i]);
    }
  }

  lemma TwiceIn(a: seq<nat>, i: nat, j: nat)
    requires i < j < |a|
    ensures a[i] == a[j] ==> multiset(a)[a[i]] >= 2
  {
    assert a == a[..i] + [a[i]] + a[i + 1..j] + [a[j]] + a[j + 1..];
  }

  /** The hardware starts at entry 0 and visits the entries of the list in order. */
  lemma MirrorsVisit(t: Sat, slots: seq<seq<nat>>, l: seq<nat>)
    requires Mirrors(t, slots, l)
    ensures Visit(t.link, 0, SAT_MAX_SIZE) == Chain(slots, l)
  {
    hide Everyone;
    var w := Chain(slots, l);
    SharedDistinct(w, t.stack[..t.free], SAT_MAX_SIZE);
    EveryoneSize(SAT_MAX_SIZE);
    assert |multiset(w) + multiset(t.stack[..t.free])| == |w| + t.free;
    forall j | 0 < j < |w| ensures w[j] != 0 {
      Apart(w, 0, j);
    }
    VisitsChain(t.link, w, 0, SAT_MAX_SIZE);
    assert w[0..] == w;
  }

  // ----- Where a sprite sits in the chain

  /** The entry that links to the entries of a sprite with predecessor `p`. */
  function EndOf(t: Sat, p: int): nat
    requires p == NULL || 0 <= p < |t.last|
  {
    if p == NULL then 0 else t.last[p]
  }

  /** The entry that the entries of a sprite with successor `n` link to. */
  function StartOf(t: Sat, n: int): nat
    requires n == NULL || 0 <= n < |t.index|
  {
    if n == NULL then 0 else t.index[n]
  }

  lemma {:induction false} LastOfChain(t: Sat, slots: seq<seq<nat>>, l: seq<nat>)
    requires Owned(t, slots, l)
    ensures l != [] ==> l[|l| - 1] < |t.last|
    ensures Last(Chain(slots, l)) == EndOf(t, At(l, |l| - 1))
  {
    if l != [] {
      var f, s := l[..|l| - 1], l[|l| - 1];
      assert l == f + [s];
      FlattenAppend(slots, f, [s]);
      assert [s][1..] == [];
      assert Flatten(slots, [s]) == slots[s] + Flatten(slots, []);
      assert Owns(t, slots, s);
    }
  }

  lemma FirstOfChain(t: Sat, slots: seq<seq<nat>>, l: seq<nat>)
    requires Owned(t, slots, l)
    ensures l != [] ==> l[0] < |t.index|
    ensures Entry(Flatten(slots, l), 0) == StartOf(t, At(l, 0))
  {
    if l != [] {
      assert Owns(t, slots, l[0]);
    }
  }

  ghost predicate CanHook(t: Sat, p: int, n: int) {
    (p == NULL || 0 <= p < |t.last|) && (n == NULL || 0 <= n < |t.index|)
  }

  /** The chain around place `j` of the list, with and without a sprite there. */
  lemma {:induction false} Around(t: Sat, slots: seq<seq<nat>>, r: seq<nat>, j: nat, s: nat)
    requires Owned(t, slots, r) && j <= |r| && s < |slots|
    ensures InRange(InsertAt(r, j, s), |slots|) && InRange(r[..j], |slots|) && InRange(r[j..], |slots|)
    ensures CanHook(t, At(r, j - 1), At(r, j))
    ensures var a, b := Chain(slots, r[..j]), Flatten(slots, r[j..]);
            && Chain(slots, InsertAt(r, j, s)) == a + slots[s] + b
            && Chain(slots, r) == a + b
            && Last(a) == EndOf(t, At(r, j - 1))
            && Entry(b, 0) == StartOf(t, At(r, j))
  {
    var x, y := r[..j], r[j..];
    assert r == x + y;
    assert x != [] ==> x[|x| - 1] == At(r, j - 1);
    assert y != [] ==> y[0] == At(r, j);
    LastOfChain(t, slots, x);
    FirstOfChain(t, slots, y);
    assert InRange([s], |slots|);
    hide Owned, InRange, At, InsertAt, Chain;
    assert InsertAt(r, j, s) == x + [s] + y by {
      hide Flatten, InRange;
    }
    ChainOf(slots, x, s, y);
  }

  lemma {:induction false} ChainOf(slots: seq<seq<nat>>, x: seq<nat>, s: nat, y: seq<nat>)
    requires InRange(x, |slots|) && InRange(y, |slots|) && s < |slots|
    ensures InRange(x + y, |slots|) && Chain(slots, x + y) == Chain(slots, x) + Flatten(slots, y)
    ensures InRange(x + [s] + y, |slots|)
    ensures Chain(slots, x + [s] + y) == Chain(slots, x) + slots[s] + Flatten(slots, y)
  {
    ChainAppend(slots, x, y);
    FlattenOne(slots, s);
    ChainAppend(slots, x, [s]);
    ChainAppend(slots, x + [s], y);
  }

  lemma {:induction false} ChainAppend(slots: seq<seq<nat>>, x: seq<nat>, y: seq<nat>)
    requires InRange(x, |slots|) && InRange(y, |slots|)
    ensures InRange(x + y, |slots|) && Chain(slots, x + y) == Chain(slots, x) + Flatten(slots, y)
  {
    FlattenAppend(slots, x, y);
    hide Flatten;
  }

  lemma {:induction false} FlattenOne(slots: seq<seq<nat>>, s: nat)
    requires s < |slots|
    ensures InRange([s], |slots|) && Flatten(slots, [s]) == slots[s]
  {
    assert [s][1..] == [];
    assert Flatten(slots, [s]) == slots[s] + Flatten(slots, []);
  }

  /** One link takes sprite `k` out of the chain. */
  lemma TakeOut(t: Sat, slots: seq<seq<nat>>, l: seq<nat>, k: nat)
    requires Owned(t, slots, l) && k < |l| && Chained(t.link, Chain(slots, l)) && Distinct(Chain(slots, l))
    ensures CanHook(t, At(l, k - 1), At(l, k + 1)) && EndOf(t, At(l, k - 1)) < |t.link|
    ensures Owned(t, slots, RemoveAt(l, k))
    ensures var link' := t.link[EndOf(t, At(l, k - 1)) := StartOf(t, At(l, k + 1))];
            Chained(link', Chain(slots, RemoveAt(l, k))) && Inner(link', slots[l[k]])
    ensures multiset(Chain(slots, l)) == multiset(Chain(slots, RemoveAt(l, k))) + multiset(slots[l[k]])
  {
    var r := RemoveAt(l, k);
    RemovedOwned(t, slots, l, k);
    PutBack(l, k);
    RemovedAt(l, k, k - 1);
    RemovedAt(l, k, k);
    hide RemoveAt, InsertAt, At, Owned, InRange;
    Around(t, slots, r, k, l[k]);
    var a, b := Chain(slots, r[..k]), Flatten(slots, r[k..]);
    assert a != [];
    hide Chain, Chained;
    assert a + (slots[l[k]] + b) == a + slots[l[k]] + b;
    InChain(t.link, a, slots[l[k]] + b);
    Unchain(t.link, a, slots[l[k]], b);
  }

  lemma InChain(link: seq<nat>, a: seq<nat>, b: seq<nat>)
    requires a != [] && Chained(link, a + b)
    ensures Last(a) < |link|
  {
    assert LinkedOn(link, a + b, |a| - 1);
  }

  lemma RemovedOwned(t: Sat, slots: seq<seq<nat>>, l: seq<nat>, k: nat)
    requires Owned(t, slots, l) && k < |l|
    ensures Owned(t, slots, RemoveAt(l, k)) && l[k] < |slots| && Owns(t, slots, l[k])
  {
    var r := RemoveAt(l, k);
    forall i | 0 <= i < |r| ensures r[i] < |slots| && Owns(t, slots, r[i]) {
      var j := if i < k then i else i + 1;
      assert l[j] == r[i];
    }
  }

  lemma InsertedOwned(t: Sat, slots: seq<seq<nat>>, r: seq<nat>, j: nat, s: nat)
    requires Owned(t, slots, r) && j <= |r| && s < |slots| && Owns(t, slots, s)
    ensures Owned(t, slots, InsertAt(r, j, s))
  {
  }

  /** Two links put a sprite into the chain; what the first of them was before does not matter. */
  lemma PutIn(t: Sat, slots: seq<seq<nat>>, r: seq<nat>, j: nat, s: nat)
    requires Owned(t, slots, r) && j <= |r| && s < |slots| && Owns(t, slots, s)
    requires CanHook(t, At(r, j - 1), At(r, j)) && EndOf(t, At(r, j - 1)) < |t.link|
    requires Chained(t.link[EndOf(t, At(r, j - 1)) := StartOf(t, At(r, j))], Chain(slots, r))
    requires Inner(t.link, slots[s])
    requires InRange(InsertAt(r, j, s), |slots|) && Distinct(Chain(slots, InsertAt(r, j, s)))
    ensures t.last[s] < |t.link| && t.last[s] != EndOf(t, At(r, j - 1))
    ensures Chained(t.link[t.last[s] := StartOf(t, At(r, j))][EndOf(t, At(r, j - 1)) := t.index[s]],
                    Chain(slots, InsertAt(r, j, s)))
  {
    Around(t, slots, r, j, s);
    var a, b, e, n := Chain(slots, r[..j]), Flatten(slots, r[j..]), EndOf(t, At(r, j - 1)), StartOf(t, At(r, j));
    var link := t.link[e := n];
    hide InsertAt, At, Owned, InRange, Chain, EndOf, StartOf;
    assert Last(slots[s]) == t.last[s] && slots[s][0] == t.index[s] && slots[s] != [];
    hide Owns;
    InnerElsewhere(t.link, slots[s], a, b, n);
    Enchain(link, a, slots[s], b);
    Overwritten(t.link, e, n, t.last[s], n, t.index[s]);
  }

  lemma Overwritten(link: seq<nat>, e: nat, x: nat, f: nat, y: nat, z: nat)
    requires e < |link| && f < |link|
    ensures link[e := x][f := y][e := z] == link[f := y][e := z]
  {
  }

  /** A link outside the piece does not matter to it. */
  lemma InnerElsewhere(link: seq<nat>, s: seq<nat>, a: seq<nat>, b: seq<nat>, n: nat)
    requires a != [] && s != [] && Inner(link, s) && Last(a) < |link| && Distinct(a + s + b)
    ensures Inner(link[Last(a) := n], s) && Last(s) < |link|
  {
    forall i | 0 <= i < |s| ensures s[i] != Last(a) {
      var w := a + s + b;
      assert w[|a| + i] == s[i] && w[|a| - 1] == Last(a);
      Apart(w, |a| + i, |a| - 1);
    }
  }

  lemma InsertedShare(t: Sat, slots: seq<seq<nat>>, r: seq<nat>, j: nat, s: nat)
    requires Owned(t, slots, r) && j <= |r| && s < |slots|
    ensures InRange(InsertAt(r, j, s), |slots|)
    ensures multiset(Chain(slots, InsertAt(r, j, s))) == multiset(Chain(slots, r)) + multiset(slots[s])
  {
    Around(t, slots, r, j, s);
    hide Chain, Flatten, InsertAt, At, Owned, InRange;
  }

  // ----- Handing entries to a sprite

  /** The table once sprite `s` is given the entries `p` from the top of the stack. */
  function Given(t: Sat, link: seq<nat>, s: nat, p: seq<nat>): Sat
    requires s < |t.num| && s < |t.index| && s < |t.last| && p != [] && |p| <= t.free
  {
    Sat(link, t.stack, t.free - |p|, t.num[s := |p|], t.index[s := p[0]], t.last[s := Last(p)])
  }

  lemma {:induction false} FlattenElsewhere(slots: seq<seq<nat>>, l: seq<nat>, s: nat, p: seq<nat>)
    requires InRange(l, |slots|) && s < |slots| && s !in l
    ensures Flatten(slots[s := p], l) == Flatten(slots, l)
  {
    if l != [] {
      FlattenElsewhere(slots, l[1..], s, p);
      assert l[0] != s;
    }
  }

  lemma GivenOwned(t: Sat, link: seq<nat>, slots: seq<seq<nat>>, l: seq<nat>, s: nat, p: seq<nat>)
    requires Owned(t, slots, l) && s < |slots| && s !in l && p != [] && |p| <= t.free && |link| == |t.link|
    ensures Owned(Given(t, link, s, p), slots[s := p], l) && Owns(Given(t, link, s, p), slots[s := p], s)
    ensures Chain(slots[s := p], l) == Chain(slots, l)
  {
    FlattenElsewhere(slots, l, s, p);
    hide Flatten;
    var t', slots' := Given(t, link, s, p), slots[s := p];
    forall i | 0 <= i < |l| ensures Owns(t', slots', l[i]) {
      assert Owns(t, slots, l[i]) && l[i] != s;
    }
  }

  lemma GivenHook(t: Sat, link: seq<nat>, s: nat, p: seq<nat>, x: int, y: int)
    requires s < |t.num| && s < |t.index| && s < |t.last| && p != [] && |p| <= t.free
    requires CanHook(t, x, y) && x != s && y != s
    ensures CanHook(Given(t, link, s, p), x, y)
    ensures EndOf(Given(t, link, s, p), x) == EndOf(t, x) && StartOf(Given(t, link, s, p), y) == StartOf(t, y)
  {
  }

  /** Linking entries outside a chain does not touch it. */
  lemma StrungChained(link: seq<nat>, link': seq<nat>, p: seq<nat>, w: seq<nat>, e: nat, n: nat)
    requires Strung(link, link', p) && e < |link| && Chained(link[e := n], w)
    requires forall i :: 0 <= i < |w| ==> w[i] !in p
    ensures Chained(link'[e := n], w)
  {
    var before, after := link[e := n], link'[e := n];
    forall i | 0 <= i < |w| ensures LinkedOn(after, w, i) {
      assert LinkedOn(before, w, i);
    }
  }

  lemma Disjoint(w: seq<nat>, p: seq<nat>, q: seq<nat>, m: multiset<nat>, n: nat)
    requires multiset(w) + m == Everyone(n) && m == multiset(q) + multiset(p)
    ensures forall i :: 0 <= i < |w| ==> w[i] !in p
  {
    assert multiset(q + p) == m;
    forall i | 0 <= i < |w| ensures w[i] !in p {
      SharedOut(w, q + p, n, w[i]);
    }
  }

  lemma {:induction false} AddChained(t: Sat, link: seq<nat>, slots: seq<seq<nat>>, l: seq<nat>, k: nat, s: nat, p: seq<nat>, rest: seq<nat>, e: nat, n: nat)
    requires Owned(t, slots, l) && k <= |l| && s < |slots| && s !in l && p != [] && |p| <= t.free
    requires CanHook(t, At(l, k - 1), At(l, k)) && e == EndOf(t, At(l, k - 1)) < |t.link| && n == StartOf(t, At(l, k))
    requires Chained(t.link[e := n], Chain(slots, l)) && Strung(t.link, link, p)
    requires multiset(Chain(slots, l)) + (multiset(rest) + multiset(p)) == Everyone(SAT_MAX_SIZE)
    ensures InRange(InsertAt(l, k, s), |slots|)
    ensures var w := Chain(slots[s := p], InsertAt(l, k, s));
            && multiset(w) + multiset(rest) == Everyone(SAT_MAX_SIZE)
            && Last(p) < |link| && Last(p) != e && Chained(link[Last(p) := n][e := p[0]], w)
  {
    hide Everyone;
    var t', slots', l' := Given(t, link, s, p), slots[s := p], InsertAt(l, k, s);
    assert |link| == |t.link| && Inner(link, p);
    GivenOwned(t, link, slots, l, s, p);
    GivenHook(t, link, s, p, At(l, k - 1), At(l, k));
    hide Strung, Owned, EndOf, StartOf, CanHook, Chain, Chained, InsertAt, Inner;
    Disjoint(Chain(slots, l), p, rest, multiset(rest) + multiset(p), SAT_MAX_SIZE);
    StrungChained(t.link, link, p, Chain(slots, l), e, n);
    InsertedShare(t', slots', l, k, s);
    SharedDistinct(Chain(slots', l'), rest, SAT_MAX_SIZE);
    PutIn(t', slots', l, k, s);
  }

  /** Sprite `s` is given entries from the stack, and two links put them into the chain: the links
      mirror the list with `s` at place `k`. The entry before may link anywhere until then. */
  lemma {:induction false} AddMirrors(t: Sat, link: seq<nat>, slots: seq<seq<nat>>, l: seq<nat>, k: nat, s: nat, p: seq<nat>, e: nat, n: nat)
    requires Owned(t, slots, l) && k <= |l| && s < |slots| && s !in l && 1 <= |p| <= t.free
    requires CanHook(t, At(l, k - 1), At(l, k)) && e == EndOf(t, At(l, k - 1)) < |t.link| && n == StartOf(t, At(l, k))
    requires Mirrors(t.(link := t.link[e := n]), slots, l)
    requires p == Popped(t.stack, t.free, |p|) && Strung(t.link, link, p)
    ensures Last(p) < |link| && Last(p) != e && e < |link|
    ensures Mirrors(Given(t, link[Last(p) := n][e := p[0]], s, p), slots[s := p], InsertAt(l, k, s))
  {
    hide Everyone, Popped, Strung, EndOf, StartOf, CanHook, InsertAt, Flatten;
    var rest := t.stack[..t.free - |p|];
    assert multiset(Chain(slots, l)) + multiset(t.stack[..t.free]) == Everyone(SAT_MAX_SIZE);
    assert Chained(t.link[e := n], Chain(slots, l));
    StrungSize(t.link, link, p);
    hide Mirrors, Chain, Chained;
    PoppedOut(t.stack, t.free, |p|);
    AddChained(t, link, slots, l, k, s, p, rest, e, n);
    AddedOwned(t, link, slots, l, k, s, p, link[Last(p) := n][e := p[0]]);
    hide Owned;
    MadeMirrors(Given(t, link[Last(p) := n][e := p[0]], s, p), slots[s := p], InsertAt(l, k, s), rest);
  }

  lemma StrungSize(link: seq<nat>, link': seq<nat>, p: seq<nat>)
    requires Strung(link, link', p)
    ensures |link'| == |link|
  {
  }

  lemma MadeMirrors(t: Sat, slots: seq<seq<nat>>, l: seq<nat>, rest: seq<nat>)
    requires Owned(t, slots, l) && Chained(t.link, Chain(slots, l)) && rest == t.stack[..t.free]
    requires multiset(Chain(slots, l)) + multiset(rest) == Everyone(SAT_MAX_SIZE)
    ensures Mirrors(t, slots, l)
  {
  }

  lemma AddedOwned(t: Sat, link: seq<nat>, slots: seq<seq<nat>>, l: seq<nat>, k: nat, s: nat, p: seq<nat>, link': seq<nat>)
    requires Owned(t, slots, l) && s < |slots| && s !in l && k <= |l| && p != [] && |p| <= t.free && |link| == |link'| == |t.link|
    ensures Owned(Given(t, link', s, p), slots[s := p], InsertAt(l, k, s))
  {
    GivenOwned(t, link', slots, l, s, p);
    InsertedOwned(Given(t, link', s, p), slots[s := p], l, k, s);
  }

  // ----- Taking a sprite out, and moving one

  lemma MirrorsParts(t: Sat, slots: seq<seq<nat>>, l: seq<nat>)
    requires Mirrors(t, slots, l)
    ensures Owned(t, slots, l) && Chained(t.link, Chain(slots, l)) && Distinct(Chain(slots, l))
    ensures multiset(Chain(slots, l)) + multiset(t.stack[..t.free]) == Everyone(SAT_MAX_SIZE)
    ensures |Chain(slots, l)| + t.free == SAT_MAX_SIZE
    ensures Distinct(t.stack[..t.free]) && forall i :: 0 <= i < t.free ==> t.stack[i] < SAT_MAX_SIZE
  {
    hide Everyone, Flatten, Chain, Chained, Owns;
    var w, rest := Chain(slots, l), t.stack[..t.free];
    SharedDistinct(w, rest, SAT_MAX_SIZE);
    SharedDistinct(rest, w, SAT_MAX_SIZE);
    forall i | 0 <= i < t.free ensures t.stack[i] < SAT_MAX_SIZE {
      assert rest[i] == t.stack[i];
    }
    EveryoneSize(SAT_MAX_SIZE);
    assert |multiset(w) + multiset(rest)| == |w| + |rest|;
  }

  /** The table once the entries `s` are back on the stack, and the chain passes over them. */
  function TakenBack(t: Sat, stack: seq<nat>, e: nat, n: nat, num: nat): Sat
    requires e < |t.link|
  {
    Sat(t.link[e := n], stack, t.free + num, t.num, t.index, t.last)
  }

  /** Where sprite `k` of the list has its entries, and which links and room releasing them takes. */
  lemma {:induction false} ReleaseReady(t: Sat, slots: seq<seq<nat>>, l: seq<nat>, k: nat)
    requires Mirrors(t, slots, l) && k < |l|
    ensures CanHook(t, At(l, k - 1), At(l, k + 1)) && EndOf(t, At(l, k - 1)) < |t.link|
    ensures l[k] < |slots| && Owns(t, slots, l[k]) && t.free + |slots[l[k]]| < SAT_MAX_SIZE
    ensures Inner(t.link, slots[l[k]])
    ensures Inner(t.link[EndOf(t, At(l, k - 1)) := StartOf(t, At(l, k + 1))], slots[l[k]])
  {
    hide Everyone;
    MirrorsParts(t, slots, l);
    hide Mirrors;
    RemovedOwned(t, slots, l, k);
    TakeOut(t, slots, l, k);
    InnerOfChain(t, slots, l, k);
    hide EndOf, StartOf, CanHook, Chained, Flatten, Distinct, Owns, Inner, Owned;
    assert |multiset(Chain(slots, RemoveAt(l, k))) + multiset(slots[l[k]])| == |Chain(slots, l)|;
  }

  /** One link takes the entries of sprite `k` out of the chain; pushed back on the stack, they are
      free again. */
  lemma {:induction false} ReleaseMirrors(t: Sat, slots: seq<seq<nat>>, l: seq<nat>, k: nat, stack: seq<nat>)
    requires Mirrors(t, slots, l) && k < |l| && l[k] < |slots|
    requires t.free <= |t.stack| && GaveBack(t, stack, slots[l[k]])
    requires CanHook(t, At(l, k - 1), At(l, k + 1)) && EndOf(t, At(l, k - 1)) < |t.link|
    ensures Mirrors(TakenBack(t, stack, EndOf(t, At(l, k - 1)), StartOf(t, At(l, k + 1)), |slots[l[k]]|), slots, RemoveAt(l, k))
  {
    hide Everyone, EndOf, StartOf, Chain, Chained, Flatten, Distinct, RemoveAt, At, Owns;
    MirrorsParts(t, slots, l);
    hide Mirrors;
    RemovedOwned(t, slots, l, k);
    TakeOut(t, slots, l, k);
    var t' := TakenBack(t, stack, EndOf(t, At(l, k - 1)), StartOf(t, At(l, k + 1)), |slots[l[k]]|);
    hide Inner;
    SameOwned(t, t', slots, RemoveAt(l, k));
    MadeMirrors(t', slots, RemoveAt(l, k), t.stack[..t.free] + slots[l[k]]);
  }

  ghost predicate GaveBack(t: Sat, stack: seq<nat>, s: seq<nat>)
    requires t.free <= |t.stack|
  {
    |stack| == SAT_MAX_SIZE && t.free + |s| <= SAT_MAX_SIZE && stack[..t.free + |s|] == t.stack[..t.free] + s
  }

  lemma SameOwned(t: Sat, t': Sat, slots: seq<seq<nat>>, l: seq<nat>)
    requires Owned(t, slots, l) && Shape(t', slots) && t.num == t'.num && t.index == t'.index && t.last == t'.last
    ensures Owned(t', slots, l)
  {
    forall i | 0 <= i < |l| ensures Owns(t', slots, l[i]) {
      assert Owns(t, slots, l[i]);
    }
  }

  /** The entries of a sprite of the list are linked one to the next. */
  lemma InnerOfChain(t: Sat, slots: seq<seq<nat>>, l: seq<nat>, k: nat)
    requires Owned(t, slots, l) && k < |l| && Chained(t.link, Chain(slots, l)) && Distinct(Chain(slots, l))
    ensures Inner(t.link, slots[l[k]])
  {
    var r := RemoveAt(l, k);
    RemovedOwned(t, slots, l, k);
    PutBack(l, k);
    hide RemoveAt, InsertAt, At, Owned, InRange;
    Around(t, slots, r, k, l[k]);
    var a, s, b := Chain(slots, r[..k]), slots[l[k]], Flatten(slots, r[k..]);
    assert a != [];
    hide Chain, Flatten, Chained, Distinct;
    forall i | 0 <= i < |s| ensures s[i] < |t.link| && (i < |s| - 1 ==> t.link[s[i]] == Entry(s, i + 1)) {
      ChainedPiece(t.link, a, s, b, i);
    }
  }

  /** Putting sprite `s` back in with the link that the entry before holds. */
  lemma {:induction false} PutBackMirrors(t: Sat, slots: seq<seq<nat>>, r: seq<nat>, j: nat, s: nat)
    requires Owned(t, slots, r) && Chained(t.link, Chain(slots, r)) && j <= |r| && s < |slots|
    requires Owns(t, slots, s) && Inner(t.link, slots[s])
    requires multiset(Chain(slots, r)) + multiset(slots[s]) + multiset(t.stack[..t.free]) == Everyone(SAT_MAX_SIZE)
    ensures CanHook(t, At(r, j - 1), NULL) && EndOf(t, At(r, j - 1)) < |t.link| && t.last[s] < |t.link|
    ensures var e := EndOf(t, At(r, j - 1));
            Mirrors(t.(link := t.link[t.last[s] := t.link[e]][e := t.index[s]]), slots, InsertAt(r, j, s))
  {
    hide Everyone, Mirrors, At, InsertAt, Inner, Flatten, Chained, Owns;
    var rest := t.stack[..t.free];
    hide Owned;
    Around(t, slots, r, j, s);
    assert Chain(slots, r[..j]) != [];
    hide Chain;
    ChainedNext(t.link, Chain(slots, r[..j]), Flatten(slots, r[j..]));
    var e, n := EndOf(t, At(r, j - 1)), StartOf(t, At(r, j));
    hide EndOf, StartOf;
    assert t.link[e := n] == t.link;
    InsertedShare(t, slots, r, j, s);
    InsertedOwned(t, slots, r, j, s);
    SharedDistinct(Chain(slots, InsertAt(r, j, s)), rest, SAT_MAX_SIZE);
    OwnsIs(t, slots, s);
    PutIn(t, slots, r, j, s);
    OwnedElsewhere(t, t.link[t.last[s] := n][e := t.index[s]], slots, InsertAt(r, j, s));
    MadeMirrors(t.(link := t.link[t.last[s] := n][e := t.index[s]]), slots, InsertAt(r, j, s), rest);
  }

  lemma OwnsIs(t: Sat, slots: seq<seq<nat>>, s: nat)
    requires s < |slots| && Owns(t, slots, s)
    ensures s < |t.last| && s < |t.index| && t.num[s] == |slots[s]| > 0 && slots[s][0] == t.index[s] && Last(slots[s]) == t.last[s]
  {
  }

  lemma OwnedElsewhere(t: Sat, link: seq<nat>, slots: seq<seq<nat>>, l: seq<nat>)
    requires Owned(t, slots, l) && |link| == |t.link|
    ensures Owned(t.(link := link), slots, l)
  {
    SameOwned(t, t.(link := link), slots, l);
  }

  /** The three links of `moveAfter` move the entries of sprite `k` behind those of `j` others. */
  lemma {:induction false} MoveMirrors(t: Sat, slots: seq<seq<nat>>, l: seq<nat>, k: nat, j: nat)
    requires Mirrors(t, slots, l) && k < |l| && j < |l|
    ensures |RemoveAt(l, k)| == |l| - 1
    ensures CanHook(t, At(l, k - 1), At(l, k + 1)) && EndOf(t, At(l, k - 1)) < |t.link|
    ensures CanHook(t, At(RemoveAt(l, k), j - 1), NULL) && EndOf(t, At(RemoveAt(l, k), j - 1)) < |t.link|
    ensures l[k] < |t.last| && l[k] < |t.index| && t.last[l[k]] < |t.link|
    ensures var link1 := t.link[EndOf(t, At(l, k - 1)) := StartOf(t, At(l, k + 1))];
            var e := EndOf(t, At(RemoveAt(l, k), j - 1));
            Mirrors(t.(link := link1[t.last[l[k]] := link1[e]][e := t.index[l[k]]]), slots, InsertAt(RemoveAt(l, k), j, l[k]))
  {
    hide Everyone, Chained, Chain, Flatten, Distinct, RemoveAt, At, Inner, InsertAt, Owns, Owned;
    MirrorsParts(t, slots, l);
    RemovedOwned(t, slots, l, k);
    OwnsIs(t, slots, l[k]);
    RemovedAt(l, k, 0);
    TakeOut(t, slots, l, k);
    var t1 := t.(link := t.link[EndOf(t, At(l, k - 1)) := StartOf(t, At(l, k + 1))]);
    OwnedElsewhere(t, t1.link, slots, RemoveAt(l, k));
    SameOwns(t, t1, slots, l[k]);
    hide Mirrors;
    PutBackMirrors(t1, slots, RemoveAt(l, k), j, l[k]);
  }

  lemma SameOwns(t: Sat, t': Sat, slots: seq<seq<nat>>, s: nat)
    requires s < |slots| && Owns(t, slots, s) && t.num == t'.num && t.index == t'.index && t.last == t'.last
    ensures Owns(t', slots, s)
  {
  }

  lemma ChainedNext(link: seq<nat>, a: seq<nat>, b: seq<nat>)
    requires a != [] && Chained(link, a + b)
    ensures Last(a) < |link| && link[Last(a)] == Entry(b, 0)
  {
    assert LinkedOn(link, a + b, |a| - 1);
    PieceAt(a, [], b, |a|);
    assert a + [] + b == a + b;
  }

  // ----- The engine

  lemma EmptyMirrors(t: Sat, slots: seq<seq<nat>>)
    requires Shape(t, slots) && t.free == SAT_MAX_SIZE - 1 && t.link[0] == 0
    requires t.stack == seq(SAT_MAX_SIZE, i => SAT_MAX_SIZE - 1 - i)
    ensures Mirrors(t, slots, [])
  {
    hide Everyone;
    CountingDown(SAT_MAX_SIZE);
    assert t.stack == t.stack[..t.free] + [0];
    assert Chain(slots, []) == [0];
    assert LinkedOn(t.link, [0], 0);
  }

  datatype Op = Add(head: bool, count: nat, vram: bool) | Release(sprite: nat) | Depth(sprite: nat, value: int) | Define(sprite: nat, count: nat)

  class LegacyEngine {
    const sprites: SpriteList
    const vdp: SpriteCache
    /** Of every sprite: the number of hardware entries its definition asks for, `VDPSpriteIndex` and
        `lastVDPSprite`. */
    var num: seq<nat>
    var index: seq<nat>
    var last: seq<nat>

    /** The hardware entries of every sprite. */
    ghost var slots: seq<seq<nat>>

    ghost function Table(): Sat
      reads this, vdp
    {
      Sat(vdp.link, vdp.allocStack, vdp.free, num, index, last)
    }

    /** The free entries, as they are stacked. */
    ghost function Free(): seq<nat>
      reads vdp
    {
      if vdp.free <= |vdp.allocStack| then vdp.allocStack[..vdp.free] else []
    }

    lemma FreeIs()
      ensures Free() == if vdp.free <= |vdp.allocStack| then vdp.allocStack[..vdp.free] else []
    {
    }

    ghost predicate Valid()
      reads this, vdp, sprites
    {
      sprites.Valid() && sprites.State().Size() == |slots| && Mirrors(Table(), slots, sprites.list) && vdp.Covers()
    }

    /** `SPR_init`: no sprite, and the starter entry taken. */
    constructor (n: nat)
      ensures Valid() && sprites.list == [] && |slots| == n && vdp.free == SAT_MAX_SIZE - 1
      ensures fresh(sprites) && fresh(vdp)
    {
      hide *;
      sprites := new SpriteList(n);
      vdp := new SpriteCache();
      num, index, last, slots := seq(n, _ => 0), seq(n, _ => 0), seq(n, _ => 0), seq(n, _ => []);
      new;
      vdp.Start();
      TableIs();
      EmptyMirrors(Table(), slots);
    }

    /** What `Table` and `Valid` stand for. */
    lemma TableIs()
      ensures Table() == Sat(vdp.link, vdp.allocStack, vdp.free, num, index, last)
      ensures vdp.Shaped() && |slots| == |num| == |index| == |last| ==> Shape(Table(), slots)
      ensures Valid() <==> sprites.Valid() && sprites.State().Size() == |slots| && Mirrors(Table(), slots, sprites.list) && vdp.Covers()
    {
    }

    /** `releaseSprite`: the sprite leaves the list, and one link passes over its entries. */
    method Unhook(sprite: nat, ghost k: nat)
      requires sprites.Valid() && k < |sprites.list| && sprites.list[k] == sprite
      requires CanHook(Table(), At(sprites.list, k - 1), At(sprites.list, k + 1))
      requires EndOf(Table(), At(sprites.list, k - 1)) < |vdp.link|
      modifies sprites, vdp`link
      ensures sprites.Valid() && sprites.State().Size() == old(sprites.State().Size())
      ensures k < |old(sprites.list)| && sprites.list == RemoveAt(old(sprites.list), k) && sprites.depth == old(sprites.depth)
      ensures var t, l := old(Table()), old(sprites.list);
              vdp.link == t.link[EndOf(t, At(l, k - 1)) := StartOf(t, At(l, k + 1))]
    {
      hide *;
      ghost var t, l := Table(), sprites.list;
      TableIs();
      sprites.NeighboursAre(k);
      NullIs();
      var prev, next := sprites.prev[sprite], sprites.next[sprite];
      HookIs(t, prev, next);
      var lastVDPSprite := if prev != NULL then last[prev] else 0;
      vdp.link := vdp.link[lastVDPSprite := if next != NULL then index[next] else 0];
      var done;
      ghost var k';
      done, k' := sprites.ReleaseSprite(sprite);
      SameIndex(l, k, k');
    }

    /** `SPR_releaseSprite` (with automatic allocation of hardware sprites). */
    method ReleaseSprite(sprite: nat)
      requires Valid() && sprite < |slots|
      modifies sprites, vdp
      ensures Valid()
      ensures sprite !in old(sprites.list) ==> sprites.list == old(sprites.list)
      ensures sprite in old(sprites.list) ==>
                exists k :: 0 <= k < |old(sprites.list)| && old(sprites.list)[k] == sprite && sprites.list == RemoveAt(old(sprites.list), k)
      ensures Free() == if sprite in old(sprites.list) then old(Free()) + slots[sprite] else old(Free())
      ensures sprites.depth == old(sprites.depth)
    {
      hide *;
      ghost var t, l := Table(), sprites.list;
      TableIs();
      FreeIs();
      sprites.AllocatedIs(sprite);
      if !sprites.inUse[sprite] {
        return;
      }
      ghost var k: nat := IndexOf(l, sprite);
      ReleaseReady(t, slots, l, k);
      OwnsIs(t, slots, sprite);
      ShapeIs(t, slots, l);
      vdp.ShapedIs();
      ghost var p, q := At(l, k - 1), At(l, k + 1);
      HookIs(t, p, q);
      ghost var e, n := EndOf(t, p), StartOf(t, q);
      Unhook(sprite, k);
      TableIs();
      vdp.ShapedIs();
      vdp.Release(index[sprite], num[sprite], slots[sprite]);
      GaveBackIs(t, vdp.allocStack, slots[sprite]);
      TableIs();
      TakenBackIs(t, vdp.allocStack, e, n, num[sprite]);
      ReleaseMirrors(t, slots, l, k, vdp.allocStack);
      FreeIs();
    }

    /** `SPR_setDepth`: when the sprite moves in the list, its entries move in the chain. */
    method SetDepth(sprite: nat, value: int)
      requires Valid() && sprite in sprites.list && MIN_DEPTH <= value <= MAX_DEPTH
      modifies sprites, vdp`link
      ensures Valid()
      ensures sprite < |sprites.depth| && sprites.depth == old(sprites.depth)[sprite := value]
      ensures exists k: nat, j: nat :: MovedOnly(old(sprites.list), sprites.list, sprite, k, j)
    {
      hide *;
      ghost var t, l := Table(), sprites.list;
      TableIs();
      ghost var k0 := IndexOf(l, sprite);
      sprites.NeighboursAre(k0);
      NullIs();
      var prev, next := sprites.prev[sprite], sprites.next[sprite];
      var moved, after;
      ghost var k, j;
      moved, after, k, j := sprites.SetDepth(sprite, value);
      MovedIs(l, sprites.list, sprite, k, j);
      SameIndex(l, k, k0);
      TableIs();
      if moved {
        MoveMirrors(t, slots, l, k, j);
        HookIs(t, prev, next);
        HookIs(t, after, NULL);
        vdp.link := vdp.link[(if prev != NULL then last[prev] else 0) := if next != NULL then index[next] else 0];
        var e := if after != NULL then last[after] else 0;
        vdp.link := vdp.link[last[sprite] := vdp.link[e]];
        vdp.link := vdp.link[e := index[sprite]];
        TableIs();
      }
    }

    /** `setVDPSpriteIndex`: the entries `s` of sprite `k` are put into the chain between the last entry
        of its predecessor and the first one of its successor. */
    method SetIndex(sprite: nat, ind: nat, count: nat, ghost s: seq<nat>, ghost k: nat)
      requires sprites.Valid() && k < |sprites.list| && sprites.list[k] == sprite < |index| == |last|
      requires count >= 1 && |s| == count && s[0] == ind && Inner(vdp.link, s)
      requires CanHook(Table(), At(sprites.list, k - 1), At(sprites.list, k + 1))
      requires EndOf(Table(), At(sprites.list, k - 1)) < |vdp.link|
      modifies `index, `last, vdp`link
      ensures index == old(index)[sprite := ind] && s != [] && last == old(last)[sprite := Last(s)]
      ensures var t, l := old(Table()), old(sprites.list);
              && Last(s) < |t.link|
              && vdp.link == t.link[EndOf(t, At(l, k - 1)) := ind][Last(s) := StartOf(t, At(l, k + 1))]
    {
      hide *;
      ghost var t, l := Table(), sprites.list;
      TableIs();
      sprites.NeighboursAre(k);
      NullIs();
      NotNeighbours(l, k);
      var prev, next := sprites.prev[sprite], sprites.next[sprite];
      HookIs(t, prev, next);
      index := index[sprite := ind];
      var vdpSprite := vdp.FindLast(ind, count, s);
      InnerLast(vdp.link, s);
      vdp.link := vdp.link[(if prev != NULL then last[prev] else 0) := ind];
      vdp.link := vdp.link[vdpSprite := if next != NULL then index[next] else 0];
      last := last[sprite := vdpSprite];
    }

    /** New hardware entries for a sprite of the list (`VDP_allocateSprites`, `setVDPSpriteIndex`), when
        the links mirror the rest of the list but for the one that is to lead to them. */
    method GiveEntries(sprite: nat, count: nat, ghost l: seq<nat>, ghost k: nat) returns (ok: bool)
      requires sprites.Valid() && sprites.State().Size() == |slots|
      requires k <= |l| && sprite !in l && sprite < |slots| && count >= 1 && sprites.list == InsertAt(l, k, sprite)
      requires CanHook(Table(), At(l, k - 1), At(l, k)) && EndOf(Table(), At(l, k - 1)) < |vdp.link|
      requires Mirrors(Unhooked(Table(), At(l, k - 1), At(l, k)), slots, l)
      modifies `index, `last, `slots, vdp`link, vdp`free, vdp`highest
      ensures old(vdp.Covers()) ==> vdp.Covers()
      ensures ok <==> count <= old(vdp.free)
      ensures !ok ==> Table() == old(Table()) && slots == old(slots)
      ensures ok ==> |slots| == |old(slots)| == |num| && vdp.free == old(vdp.free) - count
      ensures ok ==> Mirrors(Table().(num := num[sprite := count]), slots, sprites.list)
      ensures ok ==> |vdp.allocStack| >= old(vdp.free) && slots == old(slots)[sprite := Popped(vdp.allocStack, old(vdp.free), count)]
    {
      hide *;
      ghost var t := Table();
      TableIs();
      HookIs(t, At(l, k - 1), At(l, k));
      ghost var e, n := EndOf(t, At(l, k - 1)), StartOf(t, At(l, k));
      EntriesReady(t, slots, l, k, sprite, e, n);
      vdp.ShapedIs();
      var ind := vdp.Allocate(count);
      if ind == -1 {
        TableIs();
        return false;
      }
      ghost var p := Popped(t.stack, t.free, count);
      StrungIs(t.link, vdp.link, p);
      AddMirrors(t, vdp.link, slots, l, k, sprite, p, e, n);
      GivenIs(t, vdp.link[Last(p) := n][e := p[0]], sprite, p);
      Swapped(vdp.link, Last(p), n, e, p[0]);
      TableIs();
      HookSame(t, Table(), At(l, k - 1), At(l, k));
      SetIndex(sprite, ind, count, p, k);
      slots := slots[sprite := p];
      TableIs();
      ok := true;
    }

    /** The way back of `SPR_addSpriteEx` when there is no video memory: `VDP_releaseSprites`, then
        `releaseSprite`. */
    method GiveUp(sprite: nat, ghost k: nat)
      requires Valid() && k < |sprites.list| && sprites.list[k] == sprite
      modifies sprites, vdp
      ensures Valid()
      ensures k < |old(sprites.list)| && sprites.list == RemoveAt(old(sprites.list), k)
      ensures sprite < |slots| && Free() == old(Free()) + slots[sprite] && sprites.depth == old(sprites.depth)
    {
      hide *;
      ghost var t, l := Table(), sprites.list;
      TableIs();
      FreeIs();
      ReleaseReady(t, slots, l, k);
      OwnsIs(t, slots, sprite);
      ShapeIs(t, slots, l);
      vdp.ShapedIs();
      ghost var p, q := At(l, k - 1), At(l, k + 1);
      HookIs(t, p, q);
      ghost var e, n := EndOf(t, p), StartOf(t, q);
      vdp.Release(index[sprite], num[sprite], slots[sprite]);
      GaveBackIs(t, vdp.allocStack, slots[sprite]);
      TableIs();
      HookSame(t, Table(), p, q);
      Unhook(sprite, k);
      TableIs();
      TakenBackIs(t, vdp.allocStack, e, n, num[sprite]);
      ReleaseMirrors(t, slots, l, k, vdp.allocStack);
      FreeIs();
    }

    /** The rest of `SPR_addSpriteEx`, when the sprite is in the list: its entries and its video memory, or the way
        back. */
    method Furnish(sprite: nat, count: nat, vram: bool, ghost l: seq<nat>, ghost k: nat) returns (ok: bool)
      requires sprites.Valid() && sprites.State().Size() == |slots| && vdp.Covers() && Mirrors(Table(), slots, l)
      requires k <= |l| && sprite !in l && sprite < |slots| && count >= 1 && sprites.list == InsertAt(l, k, sprite)
      modifies this, sprites, vdp
      ensures Valid() && |slots| == |old(slots)|
      ensures old(vdp.free) == |old(Free())| && (ok <==> count <= |old(Free())| && vram)
      ensures forall x :: 0 <= x < |slots| && x in l ==> slots[x] == old(slots)[x]
      ensures ok ==> sprites.list == old(sprites.list)
      ensures sprites.depth == old(sprites.depth)
      ensures ok ==> slots == old(slots)[sprite := Top(old(Free()), count)] && Free() == Below(old(Free()), count)
      ensures !ok ==> sprites.list == l
      ensures !ok ==> Free() == if count <= |old(Free())| then Below(old(Free()), count) + Top(old(Free()), count) else old(Free())
    {
      hide *;
      ghost var t := Table();
      TableIs();
      FreeIs();
      ShapeIs(t, slots, l);
      AddReady(t, slots, l, k, sprite);
      ghost var stack, free := vdp.allocStack, vdp.free;
      ok := GiveEntries(sprite, count, l, k);
      TableIs();
      FreeIs();
      if !ok {
        Unhook(sprite, k);
        TableIs();
        FreeIs();
        return false;
      }
      PoppedTop(stack, free, count);
      num := num[sprite := count];
      TableIs();
      FreeIs();
      if !vram {
        GiveUp(sprite, k);
        return false;
      }
    }

    /** `SPR_addSpriteEx` (with automatic allocation) for a definition of `count` hardware sprites;
        `vram` says whether the video memory for its tiles can be had. */
    method AddSprite(head: bool, count: nat, vram: bool) returns (result: int)
      requires Valid() && count >= 1
      modifies this, sprites, vdp
      ensures Valid() && |slots| == |old(slots)|
      ensures result == NULL <==> old(|sprites.list|) == |slots| || count > old(vdp.free) || !vram
      ensures old(vdp.free) == |old(Free())|
      ensures result == NULL ==> sprites.list == old(sprites.list)
      ensures |sprites.depth| == |old(sprites.depth)|
      ensures forall x :: 0 <= x < |sprites.depth| && x in old(sprites.list) ==> sprites.depth[x] == old(sprites.depth)[x]
      ensures result == NULL ==>
                Free() == if old(|sprites.list|) != |slots| && count <= |old(Free())| then Below(old(Free()), count) + Top(old(Free()), count) else old(Free())
      ensures forall x :: 0 <= x < |slots| && x in old(sprites.list) ==> slots[x] == old(slots)[x]
      ensures result != NULL ==>
                && 0 <= result < |slots| && result !in old(sprites.list)
                && sprites.list == (if head then [result] + old(sprites.list) else old(sprites.list) + [result])
                && count <= |old(Free())| && slots == old(slots)[result := Top(old(Free()), count)] && Free() == Below(old(Free()), count)
                && sprites.depth == old(sprites.depth)[result := if head then MIN_DEPTH else MAX_DEPTH]
    {
      hide *;
      ghost var t, l := Table(), sprites.list;
      TableIs();
      NullIs();
      ShapeIs(t, slots, l);
      FreeIs();
      sprites.InOrder();
      result := sprites.AddSprite(head);
      if result == NULL {
        TableIs();
        return;
      }
      ghost var k: nat := if head then 0 else |l|;
      InsertEnds(l, result);
      AddReady(t, slots, l, k, result);
      TableIs();
      var ok := Furnish(result, count, vram, l, k);
      if !ok {
        return NULL;
      }
    }

    /** `SPR_setDefinition` for a definition of `count` hardware sprites. When there are too few free entries it
        gives up with the old ones both free and in the chain; when there is no video memory, with the new ones
        in the chain under the old definition. The invariant holds afterwards if and only if it succeeded or
        the number of entries did not change. */
    method SetDefinition(sprite: nat, count: nat, vram: bool) returns (ok: bool)
      requires Valid() && sprite in sprites.list && count >= 1 && sprite < |num|
      modifies this, vdp
      ensures ok <==> vram && (count == old(num)[sprite] || count <= old(vdp.free) + old(num)[sprite])
      ensures ok ==> Valid() && num == old(num)[sprite := count] && |slots| == |old(slots)|
      ensures ok ==> forall x :: 0 <= x < |slots| && x != sprite ==> slots[x] == old(slots)[x]
      ensures old(vdp.free) == |old(Free())| && sprite < |old(slots)| && |old(slots)[sprite]| == old(num)[sprite]
      ensures ok && count == old(num)[sprite] ==> slots == old(slots) && Free() == old(Free())
      ensures ok && count != old(num)[sprite] ==>
                var f := old(Free()) + old(slots)[sprite];
                count <= |f| && slots == old(slots)[sprite := Top(f, count)] && Free() == Below(f, count)
      ensures Valid() <==> ok || count == old(num)[sprite]
      ensures !ok ==> num == old(num)
      ensures count != old(num)[sprite] && count > old(vdp.free) + old(num)[sprite] ==>
                && slots == old(slots) && vdp.link == old(vdp.link) && index == old(index) && last == old(last)
                && sprite < |slots| && vdp.free <= |vdp.allocStack| && old(vdp.free) <= |old(vdp.allocStack)|
                && vdp.allocStack[..vdp.free] == old(vdp.allocStack)[..old(vdp.free)] + slots[sprite]
      ensures !vram && (count == old(num)[sprite] || count <= old(vdp.free) + old(num)[sprite]) ==>
                sprite < |num| && Mirrors(Table().(num := num[sprite := count]), slots, sprites.list)
    {
      hide *;
      ghost var t, l := Table(), sprites.list;
      TableIs();
      FreeIs();
      ghost var k: nat := IndexOf(l, sprite);
      ShapeIs(t, slots, l);
      EntriesOf(t, slots, l, k);
      if count != num[sprite] {
        ReleaseReady(t, slots, l, k);
        OwnsIs(t, slots, sprite);
        ShapeIs(t, slots, l);
        vdp.ShapedIs();
        ghost var p, q := At(l, k - 1), At(l, k + 1);
        HookIs(t, p, q);
        vdp.Release(index[sprite], num[sprite], slots[sprite]);
        TableIs();
        ghost var t1 := Table();
        GaveBackIs(t, vdp.allocStack, slots[sprite]);
        ReleaseMirrors(t, slots, l, k, vdp.allocStack);
        RedefineReady(t, t1, slots, l, k);
        sprites.NeighboursAre(k);
        RemovedGone(l, k);
        PutBack(l, k);
        FreeIs();
        ghost var stack, free := vdp.allocStack, vdp.free;
        ok := GiveEntries(sprite, count, RemoveAt(l, k), k);
        TableIs();
        if !ok {
          TakenTwice(t, t1, slots, l);
          return;
        }
        FreeIs();
        PoppedTop(stack, free, count);
        WrongCount(Table(), slots, l, sprite, count);
      } else {
        assert num == num[sprite := count];
      }
      if !vram {
        return false;
      }
      num := num[sprite := count];
      TableIs();
      ok := true;
    }

    /** Any sequence of calls, those on sprites that are not in the list and definition changes that would fail
        left out: the hardware then visits
        the starter and the entries of the list in depth order, and nothing else, and all of them are within
        the part of the table that is sent. */
    method Run(ops: seq<Op>)
      requires Valid()
      modifies this, sprites, vdp
      ensures Valid() && sprites.Valid() && |slots| == |old(slots)|
      ensures InRange(sprites.list, |slots|) && Visit(vdp.link, 0, SAT_MAX_SIZE) == Chain(slots, sprites.list)
      ensures Sorted(sprites.depth, sprites.list)
      ensures forall i :: 0 <= i < |Chain(slots, sprites.list)| ==> Chain(slots, sprites.list)[i] <= vdp.highest
    {
      hide *;
      for i := 0 to |ops|
        invariant Valid() && |slots| == |old(slots)|
      {
        Apply(ops[i]);
      }
      TableIs();
      sprites.InOrder();
      MirrorsVisit(Table(), slots, sprites.list);
      MirrorsParts(Table(), slots, sprites.list);
      OwnedRange(Table(), slots, sprites.list);
      vdp.CoversIs();
      HighestIs(Chain(slots, sprites.list), vdp.allocStack, vdp.free, vdp.highest);
    }

    method Apply(op: Op)
      requires Valid()
      modifies this, sprites, vdp
      ensures Valid() && |slots| == |old(slots)|
    {
      hide *;
      TableIs();
      ShapeIs(Table(), slots, sprites.list);
      match op
      case Add(head, count, vram) =>
        if count >= 1 {
          var sprite := AddSprite(head, count, vram);
        }
      case Release(sprite) =>
        if sprite < |num| {
          ReleaseSprite(sprite);
        }
      case Depth(sprite, value) =>
        if sprite < |num| && MIN_DEPTH <= value <= MAX_DEPTH {
          sprites.AllocatedIs(sprite);
          if sprites.inUse[sprite] {
            SetDepth(sprite, value);
          }
        }
      case Define(sprite, count) =>
        if sprite < |num| && count >= 1 && (count == num[sprite] || count <= vdp.free + num[sprite]) {
          sprites.AllocatedIs(sprite);
          if sprites.inUse[sprite] {
            var ok := SetDefinition(sprite, count, true);
          }
        }
    }
  }

  /** The entries next taken from the free ones, and those left. */
  ghost function Top(free: seq<nat>, count: nat): seq<nat>
    requires count <= |free|
  {
    Popped(free, |free|, count)
  }

  ghost function Below(free: seq<nat>, count: nat): seq<nat>
    requires count <= |free|
  {
    free[..|free| - count]
  }

  lemma PoppedTop(stack: seq<nat>, free: nat, count: nat)
    requires count <= free <= |stack|
    ensures Popped(stack, free, count) == Top(stack[..free], count) && stack[..free - count] == Below(stack[..free], count)
  {
  }

  lemma EntriesOf(t: Sat, slots: seq<seq<nat>>, l: seq<nat>, k: nat)
    requires Mirrors(t, slots, l) && k < |l|
    ensures l[k] < |slots| && l[k] < |t.num| && |slots[l[k]]| == t.num[l[k]]
  {
    assert Owns(t, slots, l[k]);
  }

  lemma OwnedRange(t: Sat, slots: seq<seq<nat>>, l: seq<nat>)
    requires Owned(t, slots, l)
    ensures InRange(l, |slots|)
  {
  }

  /** The table with the link from the entries of `p` to those of `q` restored. */
  ghost function Unhooked(t: Sat, p: int, q: int): Sat
    requires CanHook(t, p, q) && EndOf(t, p) < |t.link|
  {
    t.(link := t.link[EndOf(t, p) := StartOf(t, q)])
  }

  lemma EntriesReady(t: Sat, slots: seq<seq<nat>>, l: seq<nat>, k: nat, s: nat, e: nat, n: nat)
    requires k <= |l| && s < |slots|
    requires CanHook(t, At(l, k - 1), At(l, k)) && e == EndOf(t, At(l, k - 1)) < |t.link| && n == StartOf(t, At(l, k))
    requires Mirrors(Unhooked(t, At(l, k - 1), At(l, k)), slots, l)
    ensures Owned(t, slots, l) && Mirrors(t.(link := t.link[e := n]), slots, l)
    ensures |t.link| == CACHE_SIZE && |t.stack| == SAT_MAX_SIZE && t.free <= SAT_MAX_SIZE
    ensures |slots| == |t.num| == |t.index| == |t.last|
    ensures Distinct(t.stack[..t.free]) && forall i :: 0 <= i < t.free ==> t.stack[i] < |t.link|
    ensures |InsertAt(l, k, s)| == |l| + 1 && InsertAt(l, k, s)[k] == s
    ensures At(InsertAt(l, k, s), k - 1) == At(l, k - 1) && At(InsertAt(l, k, s), k + 1) == At(l, k)
  {
    hide Everyone, Flatten, Chained, Chain, CanHook, EndOf, StartOf;
    InsertedAt(l, k, s, k - 1);
    InsertedAt(l, k, s, k + 1);
    var t' := Unhooked(t, At(l, k - 1), At(l, k));
    MirrorsParts(t', slots, l);
    hide InsertAt, At, Mirrors;
    OwnedElsewhere(t', t.link, slots, l);
  }

  /** After the entries of sprite `k` are back on the stack, only the link that led to them is left to
      be mended. */
  lemma RedefineReady(t: Sat, t1: Sat, slots: seq<seq<nat>>, l: seq<nat>, k: nat)
    requires k < |l| && l[k] < |slots| && CanHook(t, At(l, k - 1), At(l, k + 1)) && EndOf(t, At(l, k - 1)) < |t.link|
    requires Mirrors(TakenBack(t, t1.stack, EndOf(t, At(l, k - 1)), StartOf(t, At(l, k + 1)), |slots[l[k]]|), slots, RemoveAt(l, k))
    requires t1 == Sat(t.link, t1.stack, t.free + |slots[l[k]]|, t.num, t.index, t.last)
    ensures k <= |RemoveAt(l, k)|
    ensures CanHook(t1, At(RemoveAt(l, k), k - 1), At(RemoveAt(l, k), k)) && EndOf(t1, At(RemoveAt(l, k), k - 1)) < |t1.link|
    ensures Mirrors(Unhooked(t1, At(RemoveAt(l, k), k - 1), At(RemoveAt(l, k), k)), slots, RemoveAt(l, k))
  {
    hide Mirrors;
    RemovedAt(l, k, k - 1);
    RemovedAt(l, k, k);
  }

  /** Entries that are free again but still in the chain. */
  lemma TakenTwice(t: Sat, t1: Sat, slots: seq<seq<nat>>, l: seq<nat>)
    requires Mirrors(t, slots, l) && t1.free > t.free
    ensures !Mirrors(t1, slots, l)
  {
    hide Mirrors;
    MirrorsParts(t, slots, l);
    if Mirrors(t1, slots, l) {
      MirrorsParts(t1, slots, l);
    }
  }

  /** Entries that are not as many as the definition says. */
  lemma WrongCount(t: Sat, slots: seq<seq<nat>>, l: seq<nat>, s: nat, count: nat)
    requires s in l && s < |t.num| && t.num[s] != count && Mirrors(t.(num := t.num[s := count]), slots, l)
    ensures !Mirrors(t, slots, l)
  {
    hide Everyone, Chained;
    var k :| 0 <= k < |l| && l[k] == s;
    assert Owns(t.(num := t.num[s := count]), slots, l[k]);
    assert !Owns(t, slots, l[k]);
  }

  lemma InsertEnds(l: seq<nat>, s: nat)
    ensures InsertAt(l, 0, s) == [s] + l && InsertAt(l, |l|, s) == l + [s]
  {
  }

  lemma NotNeighbours(l: seq<nat>, k: nat)
    requires Distinct(l) && k < |l|
    ensures At(l, k - 1) != l[k] && At(l, k + 1) != l[k]
  {
  }

  lemma InnerLast(link: seq<nat>, s: seq<nat>)
    requires Inner(link, s) && s != []
    ensures Last(s) < |link|
  {
  }

  /** The chain where sprite `s` is to go in. */
  lemma AddReady(t: Sat, slots: seq<seq<nat>>, l: seq<nat>, k: nat, s: nat)
    requires Mirrors(t, slots, l) && k <= |l| && s < |slots|
    ensures CanHook(t, At(l, k - 1), At(l, k)) && EndOf(t, At(l, k - 1)) < |t.link|
    ensures t.link[EndOf(t, At(l, k - 1)) := StartOf(t, At(l, k))] == t.link
    ensures Unhooked(t, At(l, k - 1), At(l, k)) == t
    ensures |InsertAt(l, k, s)| == |l| + 1 && InsertAt(l, k, s)[k] == s && RemoveAt(InsertAt(l, k, s), k) == l
    ensures At(InsertAt(l, k, s), k - 1) == At(l, k - 1) && At(InsertAt(l, k, s), k + 1) == At(l, k)
  {
    hide Everyone, Flatten, Chained;
    InsertedAt(l, k, s, k - 1);
    InsertedAt(l, k, s, k + 1);
    Around(t, slots, l, k, s);
    assert Chain(slots, l[..k]) != [];
    hide Chain;
    ChainedNext(t.link, Chain(slots, l[..k]), Flatten(slots, l[k..]));
  }

  lemma StrungIs(link: seq<nat>, link': seq<nat>, p: seq<nat>)
    requires Strung(link, link', p)
    ensures |link'| == |link| && Inner(link', p)
  {
  }

  lemma GivenIs(t: Sat, link: seq<nat>, s: nat, p: seq<nat>)
    requires s < |t.num| && s < |t.index| && s < |t.last| && p != [] && |p| <= t.free
    ensures Given(t, link, s, p) == Sat(link, t.stack, t.free - |p|, t.num[s := |p|], t.index[s := p[0]], t.last[s := Last(p)])
  {
  }

  lemma Swapped(link: seq<nat>, f: nat, y: nat, e: nat, z: nat)
    requires e < |link| && f < |link| && e != f
    ensures link[f := y][e := z] == link[e := z][f := y]
  {
  }

  lemma HookSame(t: Sat, t': Sat, p: int, n: int)
    requires CanHook(t, p, n) && t.last == t'.last && t.index == t'.index
    ensures CanHook(t', p, n) && EndOf(t', p) == EndOf(t, p) && StartOf(t', n) == StartOf(t, n)
  {
  }

  lemma MovedIs(l: seq<nat>, l': seq<nat>, s: nat, k: nat, j: nat)
    requires MovedOnly(l, l', s, k, j)
    ensures k < |l| && l[k] == s && j < |l| && |RemoveAt(l, k)| == |l| - 1 && l' == InsertAt(RemoveAt(l, k), j, s)
  {
  }

  lemma ShapeIs(t: Sat, slots: seq<seq<nat>>, l: seq<nat>)
    requires Mirrors(t, slots, l)
    ensures |t.link| == CACHE_SIZE && |t.stack| == SAT_MAX_SIZE && t.free <= SAT_MAX_SIZE
    ensures |slots| == |t.num| == |t.index| == |t.last|
  {
  }

  lemma GaveBackIs(t: Sat, stack: seq<nat>, s: seq<nat>)
    requires t.free <= |t.stack|
    requires |stack| == SAT_MAX_SIZE && t.free + |s| <= SAT_MAX_SIZE && stack[..t.free + |s|] == t.stack[..t.free] + s
    ensures GaveBack(t, stack, s)
  {
  }

  lemma TakenBackIs(t: Sat, stack: seq<nat>, e: nat, n: nat, num: nat)
    requires e < |t.link|
    ensures TakenBack(t, stack, e, n, num) == Sat(t.link[e := n], stack, t.free + num, t.num, t.index, t.last)
  {
  }

  lemma SameIndex(l: seq<nat>, i: nat, j: nat)
    requires Distinct(l) && i < |l| && j < |l| && l[i] == l[j]
    ensures i == j
  {
  }

  lemma HookIs(t: Sat, p: int, n: int)
    requires CanHook(t, p, n)
    ensures p == NULL || 0 <= p < |t.last|
    ensures n == NULL || 0 <= n < |t.index|
    ensures EndOf(t, p) == if p != NULL then t.last[p] else 0
    ensures StartOf(t, n) == if n != NULL then t.index[n] else 0
  {
  }
}
