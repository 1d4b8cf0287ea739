/** The doubly linked, depth-sorted list that both sprite engines keep their sprites in
    (`src/sprite_eng.c` and `src/sprite_eng_legacy.c` have the same list code). Sprites are numbers
    into a pool, `NULL` stands for the null pointer. */
module SpriteLists {
  const NULL := -1

  /** `prev` and `next` of every sprite of the pool, and the two ends of the list. */
  datatype DList = DList(prev: seq<int>, next: seq<int>, first: int, last: int)

  ghost predicate Distinct(l: seq<nat>) {
    forall i, j :: 0 <= i < j < |l| ==> l[i] != l[j]
  }

  /** Following `next` from `first`, or `prev` from `last`, visits exactly the sprites `l` in order. */
  ghost predicate Linked(d: DList, l: seq<nat>) {
    && |d.prev| == |d.next|
    && Distinct(l)
    && d.first == At(l, 0)
    && d.last == At(l, |l| - 1)
    && forall i :: 0 <= i < |l| ==> Placed(d, l, i)
  }

  /** Sprite `i` of `l` has its two neighbours. */
  ghost predicate Placed(d: DList, l: seq<nat>, i: nat)
    requires i < |l|
  {
    InPool(d, l[i]) && d.next[l[i]] == At(l, i + 1) && d.prev[l[i]] == At(l, i - 1)
  }

  /** Element `i` of `l`, `NULL` past either end. */
  function At(l: seq<nat>, i: int): int {
    if 0 <= i < |l| then l[i] else NULL
  }

  function RemoveAt(l: seq<nat>, k: nat): seq<nat>
    requires k < |l|
  {
    l[..k] + l[k + 1..]
  }

  function InsertAt(l: seq<nat>, k: nat, s: nat): seq<nat>
    requires k <= |l|
  {
    l[..k] + [s] + l[k..]
  }

  // ----- Taking a sprite out and putting it in

  predicate InPool(d: DList, s: int) {
    |d.prev| == |d.next| && 0 <= s < |d.prev|
  }

  predicate CanUnlink(d: DList, s: int) {
    InPool(d, s) && (d.prev[s] == NULL || InPool(d, d.prev[s])) && (d.next[s] == NULL || InPool(d, d.next[s]))
  }

  /** The sprite `s` taken out of the list. */
  function Unlink(d: DList, s: nat): DList
    requires CanUnlink(d, s)
  {
    var p, n := d.prev[s], d.next[s];
    var d1 := if p != NULL then d.(next := d.next[p := n]) else d.(first := n);
    if n != NULL then d1.(prev := d1.prev[n := p]) else d1.(last := p)
  }

  /** Where a sprite may be put in. */
  predicate CanLink(d: DList, pos: int, s: int) {
    && InPool(d, s) && (pos == NULL || InPool(d, pos)) && (d.first == NULL || InPool(d, d.first))
    && (pos != NULL ==> d.next[pos] == NULL || InPool(d, d.next[pos]))
  }

  /** The sprite `s` put into the list after `pos`, or first when `pos` is `NULL`. */
  function LinkAfter(d: DList, pos: int, s: nat): DList
    requires CanLink(d, pos, s)
  {
    if pos != NULL then
      var n := d.next[pos];
      var d1 := d.(next := d.next[s := n], prev := d.prev[s := pos]);
      var d2 := if n != NULL then d1.(prev := d1.prev[n := s]) else d1.(last := s);
      d2.(next := d2.next[pos := s])
    else
      var d1 := d.(next := d.next[s := d.first], prev := d.prev[s := NULL]);
      var d2 := if d.first != NULL then d1.(prev := d1.prev[d.first := s]) else d1.(last := s);
      d2.(first := s)
  }

  lemma LinkedPool(d: DList, l: seq<nat>, k: nat)
    requires Linked(d, l) && k < |l|
    ensures InPool(d, l[k])
    ensures d.prev[l[k]] == At(l, k - 1) && d.next[l[k]] == At(l, k + 1)
    ensures d.prev[l[k]] == NULL || InPool(d, d.prev[l[k]])
    ensures d.next[l[k]] == NULL || InPool(d, d.next[l[k]])
    ensures d.first == NULL || InPool(d, d.first)
  {
    assert Placed(d, l, k);
    assert Placed(d, l, 0);
    assert k > 0 ==> Placed(d, l, k - 1);
    assert k + 1 < |l| ==> Placed(d, l, k + 1);
  }

  /** Element `i` of a list without element `k`. */
  lemma RemovedAt(l: seq<nat>, k: nat, i: int)
    requires k < |l|
    ensures |RemoveAt(l, k)| == |l| - 1
    ensures At(RemoveAt(l, k), i) == if i < k then At(l, i) else At(l, i + 1)
  {
  }

  /** Element `i` of a list with `s` put in as element `k`. */
  lemma InsertedAt(l: seq<nat>, k: nat, s: nat, i: int)
    requires k <= |l|
    ensures |InsertAt(l, k, s)| == |l| + 1
    ensures At(InsertAt(l, k, s), i) == if i < k then At(l, i) else if i == k then s else At(l, i - 1)
  {
  }

  lemma Apart(l: seq<nat>, i: nat, j: nat)
    requires Distinct(l) && i < |l| && j < |l| && i != j
    ensures l[i] != l[j]
  {
  }

  lemma UnlinkAt(d: DList, l: seq<nat>, k: nat, j: nat)
    requires Linked(d, l) && k < |l| && j < |l| && j != k
    requires CanUnlink(d, l[k])
    ensures var d' := Unlink(d, l[k]);
            && InPool(d', l[j]) && |d'.prev| == |d.prev|
            && d'.next[l[j]] == (if j + 1 == k then At(l, k + 1) else At(l, j + 1))
            && d'.prev[l[j]] == (if j == k + 1 then At(l, k - 1) else At(l, j - 1))
  {
    LinkedPool(d, l, k);
    LinkedPool(d, l, j);
    assert Distinct(l);
    hide Linked, Distinct;
    if k > 0 && j != k - 1 {
      Apart(l, j, k - 1);
    }
    if k + 1 < |l| && j != k + 1 {
      Apart(l, j, k + 1);
    }
  }

  /** Taking sprite `k` out leaves the others linked in the same order. */
  lemma UnlinkOk(d: DList, l: seq<nat>, k: nat)
    requires Linked(d, l) && k < |l|
    ensures CanUnlink(d, l[k])
    ensures Linked(Unlink(d, l[k]), RemoveAt(l, k)) && |Unlink(d, l[k]).prev| == |d.prev|
  {
    LinkedPool(d, l, k);
    var r, d' := RemoveAt(l, k), Unlink(d, l[k]);
    DistinctRemove(l, k);
    UnlinkEnds(d, l, k);
    assert |r| == |l| - 1;
    hide Linked, Distinct, RemoveAt, Unlink, Placed;
    forall i | 0 <= i < |r| ensures Placed(d', r, i) {
      UnlinkPlaced(d, l, k, i);
    }
    MadeLinked(d', r);
  }

  lemma UnlinkPlaced(d: DList, l: seq<nat>, k: nat, i: nat)
    requires Linked(d, l) && k < |l| && i < |l| - 1
    requires CanUnlink(d, l[k])
    ensures |RemoveAt(l, k)| == |l| - 1 && Placed(Unlink(d, l[k]), RemoveAt(l, k), i)
  {
    hide Linked, Distinct, RemoveAt, Unlink;
    RemovedAt(l, k, i);
    RemovedAt(l, k, i + 1);
    RemovedAt(l, k, i - 1);
    UnlinkAt(d, l, k, if i < k then i else i + 1);
  }

  lemma UnlinkEnds(d: DList, l: seq<nat>, k: nat)
    requires Linked(d, l) && k < |l|
    requires CanUnlink(d, l[k])
    ensures var r, d' := RemoveAt(l, k), Unlink(d, l[k]);
            && |d'.prev| == |d'.next| == |d.prev|
            && d'.first == At(r, 0) && d'.last == At(r, |r| - 1)
  {
    LinkedPool(d, l, k);
    assert d.first == At(l, 0) && d.last == At(l, |l| - 1);
    hide Linked;
  }

  lemma DistinctRemove(l: seq<nat>, k: nat)
    requires k < |l| && Distinct(l)
    ensures Distinct(RemoveAt(l, k))
  {
    var r := RemoveAt(l, k);
    forall i, j | 0 <= i < j < |r| ensures r[i] != r[j] {
      Apart(l, if i < k then i else i + 1, if j < k then j else j + 1);
    }
  }

  lemma DistinctInsert(l: seq<nat>, k: nat, s: nat)
    requires k <= |l| && Distinct(l) && s !in l
    ensures Distinct(InsertAt(l, k, s))
  {
  }

  lemma LinkAfterPool(d: DList, l: seq<nat>, k: nat, s: nat)
    requires Linked(d, l) && k <= |l| && s !in l && InPool(d, s)
    ensures CanLink(d, At(l, k - 1), s)
    ensures k > 0 ==> d.next[At(l, k - 1)] == At(l, k)
    ensures d.first == At(l, 0)
  {
    if k > 0 {
      LinkedPool(d, l, k - 1);
    }
    if l != [] {
      LinkedPool(d, l, 0);
    }
  }

  lemma LinkAfterAt(d: DList, l: seq<nat>, k: nat, s: nat, j: nat)
    requires Linked(d, l) && k <= |l| && s !in l && j < |l| && CanLink(d, At(l, k - 1), s)
    ensures var d' := LinkAfter(d, At(l, k - 1), s);
            && InPool(d', l[j])
            && d'.next[l[j]] == (if j + 1 == k then s else At(l, j + 1))
            && d'.prev[l[j]] == (if j == k then s else At(l, j - 1))
  {
    LinkAfterPool(d, l, k, s);
    LinkedPool(d, l, j);
    assert l[j] != s;
    assert Distinct(l);
    hide Linked, Distinct;
    if k > 0 && j != k - 1 {
      Apart(l, j, k - 1);
    }
    if k < |l| && j != k {
      Apart(l, j, k);
    }
  }

  /** Putting a new sprite after sprite `k - 1` (first when `k` is 0) makes it sprite `k`. */
  lemma LinkAfterOk(d: DList, l: seq<nat>, k: nat, s: nat)
    requires Linked(d, l) && k <= |l| && s !in l && InPool(d, s)
    ensures CanLink(d, At(l, k - 1), s)
    ensures Linked(LinkAfter(d, At(l, k - 1), s), InsertAt(l, k, s))
    ensures |LinkAfter(d, At(l, k - 1), s).prev| == |d.prev|
  {
    LinkAfterPool(d, l, k, s);
    var r, d' := InsertAt(l, k, s), LinkAfter(d, At(l, k - 1), s);
    assert Distinct(l);
    DistinctInsert(l, k, s);
    LinkAfterNew(d, l, k, s);
    assert |r| == |l| + 1;
    hide Linked, Distinct, InsertAt, LinkAfter, Placed;
    InsertedAt(l, k, s, 0);
    InsertedAt(l, k, s, |l|);
    forall i | 0 <= i < |r| ensures Placed(d', r, i) {
      LinkAfterPlaced(d, l, k, s, i);
    }
    MadeLinked(d', r);
  }

  lemma LinkAfterPlaced(d: DList, l: seq<nat>, k: nat, s: nat, i: nat)
    requires Linked(d, l) && k <= |l| && s !in l && i <= |l| && CanLink(d, At(l, k - 1), s)
    ensures |InsertAt(l, k, s)| == |l| + 1 && Placed(LinkAfter(d, At(l, k - 1), s), InsertAt(l, k, s), i)
  {
    hide Linked, Distinct, InsertAt, LinkAfter;
    InsertedAt(l, k, s, i);
    InsertedAt(l, k, s, i + 1);
    InsertedAt(l, k, s, i - 1);
    if i != k {
      LinkAfterAt(d, l, k, s, if i < k then i else i - 1);
    } else {
      LinkAfterNew(d, l, k, s);
    }
  }

  lemma MadeLinked(d: DList, l: seq<nat>)
    requires |d.prev| == |d.next| && Distinct(l)
    requires forall i :: 0 <= i < |l| ==> Placed(d, l, i)
    requires d.first == At(l, 0) && d.last == At(l, |l| - 1)
    ensures Linked(d, l)
  {
  }

  lemma LinkAfterNew(d: DList, l: seq<nat>, k: nat, s: nat)
    requires Linked(d, l) && k <= |l| && s !in l && CanLink(d, At(l, k - 1), s)
    ensures var d' := LinkAfter(d, At(l, k - 1), s);
            && |d'.prev| == |d'.next| == |d.prev|
            && d'.next[s] == At(l, k) && d'.prev[s] == At(l, k - 1)
            && d'.first == (if k == 0 then s else At(l, 0))
            && d'.last == (if k == |l| then s else At(l, |l| - 1))
  {
    LinkAfterPool(d, l, k, s);
    assert k > 0 ==> l[k - 1] != s;
    assert k < |l| ==> l[k] != s;
    assert d.last == At(l, |l| - 1);
  }

  // ----- Sorting by depth

  ghost predicate InRange(l: seq<nat>, n: nat) {
    forall i :: 0 <= i < |l| ==> l[i] < n
  }

  ghost predicate Sorted(depth: seq<int>, l: seq<nat>) {
    InRange(l, |depth|) && forall i, j :: 0 <= i < j < |l| ==> depth[l[i]] <= depth[l[j]]
  }

  /** The first index from `i` on whose sprite is at least as deep as `sdepth`. */
  ghost function Forward(depth: seq<int>, l: seq<nat>, i: nat, sdepth: int): (f: nat)
    requires InRange(l, |depth|) && i <= |l|
    ensures i <= f <= |l|
    decreases |l| - i
  {
    if i < |l| && depth[l[i]] < sdepth then Forward(depth, l, i + 1, sdepth) else i
  }

  /** The last index up to `i` whose sprite is at most as deep as `sdepth`, or -1. */
  ghost function Backward(depth: seq<int>, l: seq<nat>, i: int, sdepth: int): (b: int)
    requires InRange(l, |depth|) && -1 <= i < |l|
    ensures -1 <= b <= i
    decreases i + 1
  {
    if i >= 0 && depth[l[i]] > sdepth then Backward(depth, l, i - 1, sdepth) else i
  }

  lemma {:induction false} ForwardStops(depth: seq<int>, l: seq<nat>, i: nat, sdepth: int)
    requires InRange(l, |depth|) && i <= |l|
    ensures var f := Forward(depth, l, i, sdepth); f < |l| ==> depth[l[f]] >= sdepth
    ensures forall j :: i <= j < Forward(depth, l, i, sdepth) ==> depth[l[j]] < sdepth
    decreases |l| - i
  {
    if i < |l| && depth[l[i]] < sdepth {
      ForwardStops(depth, l, i + 1, sdepth);
    }
  }

  lemma {:induction false} BackwardStops(depth: seq<int>, l: seq<nat>, i: int, sdepth: int)
    requires InRange(l, |depth|) && -1 <= i < |l|
    ensures var b := Backward(depth, l, i, sdepth); b >= 0 ==> depth[l[b]] <= sdepth
    ensures forall j :: Backward(depth, l, i, sdepth) < j <= i ==> depth[l[j]] > sdepth
    decreases i + 1
  {
    if i >= 0 && depth[l[i]] > sdepth {
      BackwardStops(depth, l, i - 1, sdepth);
    }
  }

  /** Where among the other sprites `sortSprite` puts sprite `k`. */
  ghost function SortIndex(depth: seq<int>, l: seq<nat>, k: nat): (j: nat)
    requires InRange(l, |depth|) && k < |l|
    ensures j < |l|
  {
    var f := Forward(depth, l, k + 1, depth[l[k]]);
    if f != k + 1 then f - 1 else Backward(depth, l, k - 1, depth[l[k]]) + 1
  }

  /** The list after `sortSprite`: sprite `k` alone has moved. */
  ghost function Resorted(depth: seq<int>, l: seq<nat>, k: nat): seq<nat>
    requires InRange(l, |depth|) && k < |l|
  {
    InsertAt(RemoveAt(l, k), SortIndex(depth, l, k), l[k])
  }

  /** Sorting one sprite into a list that is sorted but for it sorts the whole list. */
  lemma ResortedSorted(depth: seq<int>, l: seq<nat>, k: nat)
    requires InRange(l, |depth|) && k < |l| && Sorted(depth, RemoveAt(l, k))
    ensures Sorted(depth, Resorted(depth, l, k))
  {
    var r, j, sd := RemoveAt(l, k), SortIndex(depth, l, k), depth[l[k]];
    forall i | 0 <= i < |r| ensures i < j ==> depth[r[i]] <= sd
                            ensures i >= j ==> depth[r[i]] >= sd
    {
      SortSides(depth, l, k, i);
    }
    hide SortIndex, Resorted, RemoveAt;
    InsertSorted(depth, r, j, l[k]);
  }

  /** The sprite passes only others of another depth: among its equals, and in a list that is sorted already, it stays
      where it is. */
  lemma PassesOnly(depth: seq<int>, l: seq<nat>, k: nat)
    requires InRange(l, |depth|) && k < |l|
    ensures forall i :: 0 <= i < |l| ==> l[i] < |depth|
    ensures forall i :: k < i <= SortIndex(depth, l, k) && i < |l| ==> depth[l[i]] < depth[l[k]]
    ensures forall i :: SortIndex(depth, l, k) <= i < k ==> depth[l[i]] > depth[l[k]]
    ensures Sorted(depth, l) ==> SortIndex(depth, l, k) == k && Resorted(depth, l, k) == l
  {
    ForwardStops(depth, l, k + 1, depth[l[k]]);
    BackwardStops(depth, l, k - 1, depth[l[k]]);
    PutBack(l, k);
    hide Forward, Backward, RemoveAt, InsertAt;
  }

  lemma InsertSorted(depth: seq<int>, r: seq<nat>, j: nat, s: nat)
    requires Sorted(depth, r) && j <= |r| && s < |depth|
    requires forall i :: 0 <= i < |r| ==> (i < j ==> depth[r[i]] <= depth[s]) && (i >= j ==> depth[r[i]] >= depth[s])
    ensures Sorted(depth, InsertAt(r, j, s))
  {
  }

  /** The other sprites on either side of the place found for sprite `k`. */
  lemma SortSides(depth: seq<int>, l: seq<nat>, k: nat, i: nat)
    requires InRange(l, |depth|) && k < |l| && Sorted(depth, RemoveAt(l, k)) && i < |l| - 1
    ensures |RemoveAt(l, k)| == |l| - 1
    ensures i < SortIndex(depth, l, k) ==> depth[RemoveAt(l, k)[i]] <= depth[l[k]]
    ensures i >= SortIndex(depth, l, k) ==> depth[RemoveAt(l, k)[i]] >= depth[l[k]]
  {
    var r, sd := RemoveAt(l, k), depth[l[k]];
    var f := Forward(depth, l, k + 1, sd);
    ForwardStops(depth, l, k + 1, sd);
    assert |r| == |l| - 1;
    assert f < |l| ==> r[f - 1] == l[f];
    assert i >= k ==> r[i] == l[i + 1];
    assert i < k ==> r[i] == l[i];
    if f != k + 1 {
      assert r[f - 2] == l[f - 1];
    } else {
      var b := Backward(depth, l, k - 1, sd);
      BackwardStops(depth, l, k - 1, sd);
      assert b >= 0 ==> r[b] == l[b];
    }
  }

  /** Taking a sprite out and putting it back elsewhere. */
  lemma MoveOk(d: DList, l: seq<nat>, k: nat, j: nat)
    requires Linked(d, l) && k < |l| && j < |l|
    ensures CanUnlink(d, l[k])
    ensures CanLink(Unlink(d, l[k]), At(RemoveAt(l, k), j - 1), l[k])
    ensures var r := RemoveAt(l, k);
            Linked(LinkAfter(Unlink(d, l[k]), At(r, j - 1), l[k]), InsertAt(r, j, l[k]))
  {
    var r, s := RemoveAt(l, k), l[k];
    LinkedPool(d, l, k);
    UnlinkOk(d, l, k);
    RemovedGone(l, k);
    RemovedAt(l, k, 0);
    hide Linked, RemoveAt, Unlink, LinkAfter, InsertAt;
    LinkAfterOk(Unlink(d, s), r, j, s);
  }

  lemma RemovedGone(l: seq<nat>, k: nat)
    requires Distinct(l) && k < |l|
    ensures l[k] !in RemoveAt(l, k)
    ensures multiset(RemoveAt(l, k)) == multiset(l) - multiset{l[k]}
  {
    assert l == l[..k] + [l[k]] + l[k + 1..];
  }

  // ----- The list in memory

  const MIN_DEPTH := -0x8000
  const MAX_DEPTH := 0x7FFF

  /** All sprites of a pool of `n`. */
  ghost function Everyone(n: nat): multiset<nat> {
    if n == 0 then multiset{} else Everyone(n - 1) + multiset{n - 1}
  }

  lemma {:induction false} EveryoneOnce(n: nat, x: nat)
    ensures Everyone(n)[x] == if x < n then 1 else 0
  {
    if n > 0 {
      EveryoneOnce(n - 1, x);
    }
  }

  /** Two sequences that share out the numbers below `n` have no number twice and none above. */
  lemma SharedOut(a: seq<nat>, b: seq<nat>, n: nat, x: nat)
    requires multiset(a) + multiset(b) == Everyone(n)
    ensures x in a ==> x < n && x !in b
    ensures x in b ==> x < n && x !in a
    ensures x < n ==> x in a || x in b
  {
    EveryoneOnce(n, x);
    assert (multiset(a) + multiset(b))[x] == multiset(a)[x] + multiset(b)[x];
    assert x in a <==> multiset(a)[x] > 0;
    assert x in b <==> multiset(b)[x] > 0;
  }

  lemma {:induction false} EveryoneSize(n: nat)
    ensures |Everyone(n)| == n
  {
    if n > 0 {
      EveryoneSize(n - 1);
    }
  }

  /** The sprites of a pool: their links, their depths, which are in use, and the allocation stack of
      the pool, of which the first `free` sprites can be had. */
  datatype Pool = Pool(links: DList, depth: seq<int>, inUse: seq<bool>, stack: seq<nat>, free: nat) {
    function Size(): nat {
      |links.prev|
    }
  }

  /** Everything but the order: the list `l` is linked both ways, and the sprites of the pool are
      exactly those of `l` and those that can be had. */
  ghost predicate Kept(p: Pool, l: seq<nat>) {
    && p.Size() == |p.links.next| == |p.depth| == |p.inUse| == |p.stack|
    && Linked(p.links, l)
    && p.free <= |p.stack|
    && multiset(p.stack[..p.free]) + multiset(l) == Everyone(p.Size())
    && Flags(p.inUse, l)
  }

  /** The sprites in use are those of the list. */
  ghost predicate Flags(inUse: seq<bool>, l: seq<nat>) {
    forall s: nat :: s < |inUse| ==> (inUse[s] <==> s in l)
  }

  lemma FlagsInsert(inUse: seq<bool>, l: seq<nat>, k: nat, s: nat)
    requires Flags(inUse, l) && k <= |l| && s < |inUse|
    ensures Flags(inUse[s := true], InsertAt(l, k, s))
  {
    var inUse', l' := inUse[s := true], InsertAt(l, k, s);
    forall t: nat | t < |inUse| ensures inUse'[t] <==> t in l' {
      InsertMember(l, k, s, t);
    }
  }

  lemma FlagsRemove(inUse: seq<bool>, l: seq<nat>, k: nat)
    requires Flags(inUse, l) && Distinct(l) && k < |l| && l[k] < |inUse|
    ensures Flags(inUse[l[k] := false], RemoveAt(l, k))
  {
    var inUse', r := inUse[l[k] := false], RemoveAt(l, k);
    RemovedGone(l, k);
    hide RemoveAt, Distinct;
    forall t: nat | t < |inUse| ensures inUse'[t] <==> t in r {
      RemoveMember(l, k, t);
    }
  }

  lemma FlagsSame(inUse: seq<bool>, l: seq<nat>, l': seq<nat>)
    requires Flags(inUse, l) && multiset(l) == multiset(l')
    ensures Flags(inUse, l')
  {
    forall t: nat | t < |inUse| ensures inUse[t] <==> t in l' {
      assert t in l <==> t in multiset(l);
      assert t in l' <==> t in multiset(l');
    }
  }

  ghost predicate Depths(depth: seq<int>) {
    forall s :: 0 <= s < |depth| ==> MIN_DEPTH <= depth[s] <= MAX_DEPTH
  }

  /** The list is kept, and in the order of the depths. */
  ghost predicate Ordered(p: Pool, l: seq<nat>) {
    Kept(p, l) && Depths(p.depth) && Sorted(p.depth, l)
  }

  lemma PoolSize(p: Pool, l: seq<nat>)
    requires Kept(p, l)
    ensures p.free + |l| == p.Size()
    ensures InRange(l, p.Size())
  {
    EveryoneSize(p.Size());
    assert |multiset(p.stack[..p.free]) + multiset(l)| == p.free + |l|;
    forall i | 0 <= i < |l| ensures l[i] < p.Size() {
      assert Placed(p.links, l, i);
    }
  }

  // ----- Adding a sprite

  /** The pool after its next sprite is put into the list after `pos` with depth `z`. */
  function Added(p: Pool, pos: int, z: int): Pool
    requires 0 < p.free <= |p.stack| && CanLink(p.links, pos, p.stack[p.free - 1])
    requires p.Size() == |p.depth| == |p.inUse|
  {
    var s := p.stack[p.free - 1];
    Pool(LinkAfter(p.links, pos, s), p.depth[s := z], p.inUse[s := true], p.stack, p.free - 1)
  }

  lemma NextSprite(p: Pool, l: seq<nat>)
    requires Kept(p, l) && 0 < p.free
    ensures p.stack[p.free - 1] < p.Size() && p.stack[p.free - 1] !in l
  {
    var s := p.stack[p.free - 1];
    assert p.stack[..p.free] == p.stack[..p.free - 1] + [s];
    SharedOut(p.stack[..p.free], l, p.Size(), s);
  }

  lemma AddedKept(p: Pool, l: seq<nat>, k: nat, z: int)
    requires Kept(p, l) && 0 < p.free && k <= |l|
    ensures CanLink(p.links, At(l, k - 1), p.stack[p.free - 1])
    ensures Kept(Added(p, At(l, k - 1), z), InsertAt(l, k, p.stack[p.free - 1]))
    ensures Added(p, At(l, k - 1), z).Size() == p.Size()
  {
    var s := p.stack[p.free - 1];
    NextSprite(p, l);
    LinkAfterOk(p.links, l, k, s);
    AddedOut(p, l, k);
    hide Linked, LinkAfter, Flags, Everyone, InsertAt;
    FlagsInsert(p.inUse, l, k, s);
  }

  lemma InsertMember(l: seq<nat>, k: nat, s: nat, t: nat)
    requires k <= |l|
    ensures t in InsertAt(l, k, s) <==> t in l || t == s
  {
    assert l == l[..k] + l[k..];
  }

  lemma {:induction false} AddedOut(p: Pool, l: seq<nat>, k: nat)
    requires Kept(p, l) && 0 < p.free && k <= |l|
    ensures multiset(p.stack[..p.free - 1]) + multiset(InsertAt(l, k, p.stack[p.free - 1])) == Everyone(p.Size())
  {
    hide Everyone, Linked;
    var s := p.stack[p.free - 1];
    assert p.stack[..p.free] == p.stack[..p.free - 1] + [s];
    assert l == l[..k] + l[k..];
  }

  /** A sprite put first with the smallest depth, or last with the largest, keeps the order. */
  lemma AddedOrdered(p: Pool, l: seq<nat>, head: bool)
    requires Ordered(p, l) && 0 < p.free
    ensures var k, z := if head then 0 else |l|, if head then MIN_DEPTH else MAX_DEPTH;
            && CanLink(p.links, At(l, k - 1), p.stack[p.free - 1])
            && Ordered(Added(p, At(l, k - 1), z), InsertAt(l, k, p.stack[p.free - 1]))
  {
    var s, k, z := p.stack[p.free - 1], if head then 0 else |l|, if head then MIN_DEPTH else MAX_DEPTH;
    NextSprite(p, l);
    AddedKept(p, l, k, z);
    PoolSize(p, l);
    SortedElsewhere(p.depth, l, s, z);
    hide Kept, Added, Sorted;
    AddedIs(p, At(l, k - 1), z);
    EndsSorted(p.depth[s := z], l, head, s);
  }

  lemma AddedIs(p: Pool, pos: int, z: int)
    requires 0 < p.free <= |p.stack| && CanLink(p.links, pos, p.stack[p.free - 1])
    requires p.Size() == |p.depth| == |p.inUse|
    ensures var s := p.stack[p.free - 1];
            Added(p, pos, z) == Pool(LinkAfter(p.links, pos, s), p.depth[s := z], p.inUse[s := true], p.stack, p.free - 1)
  {
  }

  lemma EndsSorted(depth: seq<int>, l: seq<nat>, head: bool, s: nat)
    requires Sorted(depth, l) && Depths(depth) && s < |depth|
    requires depth[s] == if head then MIN_DEPTH else MAX_DEPTH
    ensures Sorted(depth, InsertAt(l, if head then 0 else |l|, s))
  {
    InsertSorted(depth, l, if head then 0 else |l|, s);
  }

  /** Changing the depth of a sprite outside the list does not touch its order. */
  lemma SortedElsewhere(depth: seq<int>, l: seq<nat>, s: nat, z: int)
    requires Sorted(depth, l) && s < |depth| && s !in l
    ensures Sorted(depth[s := z], l)
  {
  }

  // ----- Releasing a sprite

  function Released(p: Pool, s: nat): Pool
    requires CanUnlink(p.links, s) && p.free < |p.stack| && p.Size() == |p.inUse|
  {
    Pool(Unlink(p.links, s), p.depth, p.inUse[s := false], p.stack[p.free := s], p.free + 1)
  }

  lemma {:induction false} ReleasedKept(p: Pool, l: seq<nat>, k: nat)
    requires Kept(p, l) && k < |l|
    ensures CanUnlink(p.links, l[k]) && p.free < |p.stack|
    ensures Kept(Released(p, l[k]), RemoveAt(l, k))
    ensures Released(p, l[k]).Size() == p.Size()
  {
    var s := l[k];
    PoolSize(p, l);
    UnlinkOk(p.links, l, k);
    ReleasedOut(p, l, k);
    LinkedDistinct(p.links, l);
    hide Linked, Unlink, Distinct, Everyone, RemoveAt, Flags;
    FlagsRemove(p.inUse, l, k);
  }

  lemma {:induction false} ReleasedOut(p: Pool, l: seq<nat>, k: nat)
    requires Kept(p, l) && k < |l| && p.free < |p.stack|
    ensures multiset(p.stack[p.free := l[k]][..p.free + 1]) + multiset(RemoveAt(l, k)) == Everyone(p.Size())
  {
    RemovedGone(l, k);
    hide Everyone, Linked, RemoveAt;
    assert p.stack[p.free := l[k]][..p.free + 1] == p.stack[..p.free] + [l[k]];
  }

  lemma RemoveMember(l: seq<nat>, k: nat, t: nat)
    requires k < |l|
    ensures t in l <==> t in RemoveAt(l, k) || t == l[k]
  {
    assert l == l[..k] + [l[k]] + l[k + 1..];
  }

  lemma RemovedSorted(depth: seq<int>, l: seq<nat>, k: nat)
    requires Sorted(depth, l) && k < |l|
    ensures Sorted(depth, RemoveAt(l, k))
  {
  }

  lemma ReleasedOrdered(p: Pool, l: seq<nat>, k: nat)
    requires Ordered(p, l) && k < |l|
    ensures CanUnlink(p.links, l[k]) && p.free < |p.stack|
    ensures Ordered(Released(p, l[k]), RemoveAt(l, k))
  {
    ReleasedKept(p, l, k);
    RemovedSorted(p.depth, l, k);
    assert Released(p, l[k]).depth == p.depth;
  }

  // ----- Moving a sprite

  /** Sprite `k` taken out of the list and put in after the first `j` others. */
  ghost function Moved(p: Pool, l: seq<nat>, k: nat, j: nat): Pool
    requires Linked(p.links, l) && k < |l| && j < |l|
  {
    MoveOk(p.links, l, k, j);
    p.(links := LinkAfter(Unlink(p.links, l[k]), At(RemoveAt(l, k), j - 1), l[k]))
  }

  lemma MovedKept(p: Pool, l: seq<nat>, k: nat, j: nat)
    requires Kept(p, l) && k < |l| && j < |l|
    ensures Kept(Moved(p, l, k, j), InsertAt(RemoveAt(l, k), j, l[k]))
    ensures Moved(p, l, k, j).Size() == p.Size()
  {
    var s, r := l[k], RemoveAt(l, k);
    assert Distinct(l);
    MoveOk(p.links, l, k, j);
    MoveSize(p.links, l, k, j);
    var p', l' := Moved(p, l, k, j), InsertAt(r, j, s);
    RemovedAt(l, k, 0);
    hide Linked, Unlink, LinkAfter, Distinct, Flags, Everyone, InsertAt;
    MovedMultiset(l, k, j);
    FlagsSame(p.inUse, l, l');
  }

  lemma MoveSize(d: DList, l: seq<nat>, k: nat, j: nat)
    requires Linked(d, l) && k < |l| && j < |l|
    ensures CanUnlink(d, l[k]) && CanLink(Unlink(d, l[k]), At(RemoveAt(l, k), j - 1), l[k])
    ensures var d' := LinkAfter(Unlink(d, l[k]), At(RemoveAt(l, k), j - 1), l[k]);
            |d'.prev| == |d'.next| == |d.prev|
  {
    MoveOk(d, l, k, j);
  }

  lemma MovedMultiset(l: seq<nat>, k: nat, j: nat)
    requires k < |l| && j < |l|
    ensures multiset(InsertAt(RemoveAt(l, k), j, l[k])) == multiset(l)
  {
    var r := RemoveAt(l, k);
    assert l == l[..k] + [l[k]] + l[k + 1..];
    assert multiset(r) + multiset{l[k]} == multiset(l);
    assert r == r[..j] + r[j..];
    assert multiset(InsertAt(r, j, l[k])) == multiset(r) + multiset{l[k]};
  }

  // ----- The list in memory

  class SpriteList {
    /** The fields of the sprites of the pool. */
    var prev: seq<int>
    var next: seq<int>
    var depth: seq<int>
    var inUse: seq<bool>
    var firstSprite: int
    var lastSprite: int
    /** The allocation stack of the pool. */
    var allocStack: seq<nat>
    var free: nat

    ghost var list: seq<nat>

    ghost function Links(): DList
      reads this
    {
      DList(prev, next, firstSprite, lastSprite)
    }

    ghost function State(): Pool
      reads this
    {
      Pool(Links(), depth, inUse, allocStack, free)
    }

    ghost predicate Valid()
      reads this
    {
      Ordered(State(), list)
    }

    /** An empty list over a pool of `n` sprites (`SPR_reset`, `POOL_reset`). */
    constructor (n: nat)
      ensures Valid() && list == [] && State().Size() == n
    {
      prev, next, depth := seq(n, _ => NULL), seq(n, _ => NULL), seq(n, _ => 0);
      inUse, allocStack := seq(n, _ => false), seq(n, i => i);
      firstSprite, lastSprite, free, list := NULL, NULL, n, [];
      new;
      Counting(n);
      assert allocStack[..free] == seq(n, i => i);
      assert Flags(inUse, []);
      assert Distinct(list);
    }

    /** The pointer part of `allocateSprite`: at the head or at the tail of the list. */
    method LinkEnd(head: bool, result: nat)
      requires CanLink(Links(), if head then NULL else lastSprite, result)
      requires (firstSprite == NULL <==> lastSprite == NULL) && firstSprite != result && lastSprite != result
      requires lastSprite != NULL ==> InPool(Links(), lastSprite) && next[lastSprite] == NULL
      modifies `prev, `next, `firstSprite, `lastSprite
      ensures Links() == LinkAfter(old(Links()), if head then NULL else old(lastSprite), result)
    {
      if head {
        if firstSprite != NULL {
          prev := prev[firstSprite := result];
        }
        prev := prev[result := NULL];
        next := next[result := firstSprite];
        if lastSprite == NULL {
          lastSprite := result;
        }
        firstSprite := result;
      } else {
        if lastSprite != NULL {
          next := next[lastSprite := result];
        }
        prev := prev[result := lastSprite];
        next := next[result := NULL];
        if firstSprite == NULL {
          firstSprite := result;
        }
        lastSprite := result;
      }
    }

    /** What `State`, `Links` and `Valid` stand for. */
    lemma StateIs()
      ensures Links() == DList(prev, next, firstSprite, lastSprite)
      ensures State() == Pool(Links(), depth, inUse, allocStack, free) && State().Size() == |prev|
      ensures Valid() <==> Ordered(State(), list)
      ensures Valid() ==> Kept(State(), list) && Linked(Links(), list) && |prev| == |next| == |depth| == |inUse| == |allocStack|
    {
    }

    /** The two neighbours of sprite `k` of the list. */
    lemma NeighboursAre(k: nat)
      requires Valid() && k < |list|
      ensures |prev| == |next| == |inUse| == State().Size() && list[k] < |prev|
      ensures prev[list[k]] == At(list, k - 1) && next[list[k]] == At(list, k + 1)
      ensures Distinct(list)
    {
      LinkedPool(Links(), list, k);
    }

    lemma FirstIs()
      requires Valid()
      ensures firstSprite == At(list, 0)
    {
    }

    /** The sprites in use are those of the list. */
    lemma AllocatedIs(sprite: nat)
      requires Valid() && sprite < State().Size()
      ensures sprite < |inUse| && (inUse[sprite] <==> sprite in list)
    {
    }

    /** The list is in the order of the depths. */
    lemma InOrder()
      requires Valid()
      ensures Sorted(depth, list) && |depth| == State().Size()
    {
    }

    /** `allocateSprite`, with the default depth `SPR_addSpriteEx` gives the sprite: a new sprite is put
        first with the smallest depth, or last with the largest. */
    method AddSprite(head: bool) returns (result: int)
      requires Valid()
      modifies this
      ensures Valid() && State().Size() == old(State().Size())
      ensures result == NULL <==> old(|list|) == State().Size()
      ensures result == NULL ==> list == old(list) && State() == old(State()) && depth == old(depth)
      ensures result != NULL ==>
                && 0 <= result < State().Size() && result !in old(list)
                && list == (if head then [result] + old(list) else old(list) + [result])
                && depth == old(depth)[result := if head then MIN_DEPTH else MAX_DEPTH]
    {
      hide *;
      ghost var p, l := State(), list;
      StateIs();
      PoolSize(p, l);
      NullIs();
      if free == 0 {
        return NULL;
      }
      ghost var k, z := if head then 0 else |l|, if head then MIN_DEPTH else MAX_DEPTH;
      NextSprite(p, l);
      AddedOrdered(p, l, head);
      AddedKept(p, l, k, z);
      AddedIs(p, At(l, k - 1), z);
      EndPlace(p.links, l, head, p.stack[p.free - 1]);
      free := free - 1;
      result := allocStack[free];
      StateIs();
      LinkEnd(head, result);
      StateIs();
      inUse := inUse[result := true];
      depth := depth[result := if head then MIN_DEPTH else MAX_DEPTH];
      list := InsertAt(list, k, result);
      StateIs();
    }

    /** The pointer part of `releaseSprite`. */
    method UnlinkSprite(sprite: nat)
      requires CanUnlink(Links(), sprite)
      modifies `prev, `next, `firstSprite, `lastSprite
      ensures Links() == Unlink(old(Links()), sprite)
    {
      var p, n := prev[sprite], next[sprite];
      if p != NULL {
        next := next[p := n];
      } else {
        firstSprite := n;
      }
      if n != NULL {
        prev := prev[n := p];
      } else {
        lastSprite := p;
      }
    }

    /** `releaseSprite`: a sprite that is not in use is left alone. */
    method ReleaseSprite(sprite: nat) returns (done: bool, ghost k: nat)
      requires Valid() && sprite < State().Size()
      modifies this
      ensures Valid() && State().Size() == old(State().Size()) && depth == old(depth)
      ensures done <==> sprite in old(list)
      ensures !done ==> list == old(list)
      ensures done ==> k < |old(list)| && old(list)[k] == sprite && list == RemoveAt(old(list), k)
    {
      hide *;
      ghost var p, l := State(), list;
      StateIs();
      InUseIs(p, l, sprite);
      k := 0;
      if !inUse[sprite] {
        return false, 0;
      }
      k := IndexOf(l, sprite);
      ReleasedOrdered(p, l, k);
      ReleasedKept(p, l, k);
      ReleasedIs(p, sprite);
      allocStack := allocStack[free := sprite];
      free := free + 1;
      StateIs();
      UnlinkSprite(sprite);
      StateIs();
      inUse := inUse[sprite := false];
      list := RemoveAt(l, k);
      StateIs();
      done := true;
    }

    /** `moveAfter`. */
    method MoveAfter(pos: int, sprite: nat)
      requires CanUnlink(Links(), sprite) && CanLink(Unlink(Links(), sprite), pos, sprite)
      modifies `prev, `next, `firstSprite, `lastSprite
      ensures Links() == LinkAfter(Unlink(old(Links()), sprite), pos, sprite)
    {
      UnlinkSprite(sprite);
      if pos != NULL {
        var n := next[pos];
        next := next[sprite := n];
        prev := prev[sprite := pos];
        if n != NULL {
          prev := prev[n := sprite];
        } else {
          lastSprite := sprite;
        }
        next := next[pos := sprite];
      } else {
        next := next[sprite := firstSprite];
        prev := prev[sprite := NULL];
        if firstSprite != NULL {
          prev := prev[firstSprite := sprite];
        } else {
          lastSprite := sprite;
        }
        firstSprite := sprite;
      }
    }

    /** The search of `sortSprite` towards the end of the list. */
    method FindForward(s0: int, sdepth: int, ghost i0: nat) returns (s: int)
      requires Linked(Links(), list) && InRange(list, |depth|)
      requires i0 <= |list| && s0 == At(list, i0)
      ensures s == At(list, Forward(depth, list, i0, sdepth))
    {
      hide Linked, Forward;
      s := s0;
      ghost var i := i0;
      while s != NULL && depth[s] < sdepth
        invariant i0 <= i <= |list| && s == At(list, i)
        invariant Forward(depth, list, i0, sdepth) == Forward(depth, list, i, sdepth)
        decreases |list| - i
      {
        ForwardHere(depth, list, i, sdepth);
        LinkedPool(Links(), list, i);
        s := next[s];
        i := i + 1;
      }
      ForwardHere(depth, list, i, sdepth);
    }

    /** The search of `sortSprite` towards the start of the list. */
    method FindBackward(s0: int, sdepth: int, ghost i0: int) returns (s: int)
      requires Linked(Links(), list) && InRange(list, |depth|)
      requires -1 <= i0 < |list| && s0 == At(list, i0)
      ensures s == At(list, Backward(depth, list, i0, sdepth))
    {
      hide Linked, Backward;
      s := s0;
      ghost var i := i0;
      while s != NULL && depth[s] > sdepth
        invariant -1 <= i <= i0 && s == At(list, i)
        invariant Backward(depth, list, i0, sdepth) == Backward(depth, list, i, sdepth)
        decreases i + 1
      {
        BackwardHere(depth, list, i, sdepth);
        LinkedPool(Links(), list, i);
        s := prev[s];
        i := i - 1;
      }
      BackwardHere(depth, list, i, sdepth);
    }

    /** The two searches of `sortSprite`: whether the sprite has to move, and behind which other. */
    method FindPlace(sprite: nat, ghost k: nat) returns (moved: bool, after: int)
      requires Linked(Links(), list) && InRange(list, |depth|) && k < |list| && list[k] == sprite
      ensures !moved ==> Resorted(depth, list, k) == list
      ensures moved ==> after == At(RemoveAt(list, k), SortIndex(depth, list, k) - 1)
    {
      hide *;
      StateIs();
      NullIs();
      LinkedPool(Links(), list, k);
      PoolIs(Links(), sprite);
      LinkedDistinct(Links(), list);
      SortCases(depth, list, k);
      var sdepth := depth[sprite];
      var s := FindForward(next[sprite], sdepth, k + 1);
      ghost var f := Forward(depth, list, k + 1, sdepth);
      SameAt(list, k + 1, f);
      if s != next[sprite] {
        BeforeIs(Links(), list, f);
        AtIs(list, f);
        moved, after := true, if s != NULL then prev[s] else lastSprite;
      } else {
        s := FindBackward(prev[sprite], sdepth, k - 1);
        SameAt(list, k - 1, Backward(depth, list, k - 1, sdepth));
        moved, after := s != prev[sprite], s;
      }
    }

    /** `sortSprite`: the sprite alone is moved, to where its depth belongs. */
    method SortSprite(sprite: nat, ghost k: nat) returns (moved: bool, after: int)
      requires Kept(State(), list) && k < |list| && list[k] == sprite
      modifies `prev, `next, `firstSprite, `lastSprite, `list
      ensures Kept(State(), list) && State().Size() == old(State().Size())
      ensures InRange(old(list), |depth|) && list == Resorted(depth, old(list), k)
      ensures !moved ==> list == old(list) && Links() == old(Links())
      ensures moved ==> after == At(RemoveAt(old(list), k), SortIndex(depth, old(list), k) - 1)
    {
      hide *;
      ghost var p, l := State(), list;
      StateIs();
      SortReady(p, l, k);
      moved, after := FindPlace(sprite, k);
      if moved {
        MoveAfter(after, sprite);
        StateIs();
        list := Resorted(depth, l, k);
        StateIs();
      }
    }

    /** `SPR_setDepth`: whether the sprite had to move, and behind which other. */
    method SetDepth(sprite: nat, value: int) returns (moved: bool, after: int, ghost k: nat, ghost j: nat)
      requires Valid() && sprite in list && MIN_DEPTH <= value <= MAX_DEPTH
      modifies this
      ensures Valid() && State().Size() == old(State().Size())
      ensures sprite < |depth| && depth == old(depth)[sprite := value]
      ensures MovedOnly(old(list), list, sprite, k, j)
      ensures !moved ==> list == old(list)
      ensures moved ==> k < |old(list)| && after == At(RemoveAt(old(list), k), j - 1)
    {
      hide *;
      ghost var p, l := State(), list;
      k := IndexOf(l, sprite);
      j := k;
      StateIs();
      PoolSize(p, l);
      InRangeAt(l, |depth|, k);
      DepthReady(p, l, k, value);
      NotMoved(l, k);
      moved, after := false, NULL;
      if depth[sprite] != value {
        depth := depth[sprite := value];
        StateIs();
        moved, after := SortSprite(sprite, k);
        j := SortIndex(depth, l, k);
        StateIs();
      }
    }
  }

  lemma {:induction false} Counting(n: nat)
    ensures multiset(seq(n, i => i)) == Everyone(n)
  {
    if n > 0 {
      Counting(n - 1);
      assert seq(n, i => i) == seq(n - 1, i => i) + [n - 1];
    }
  }

  lemma NullIs()
    ensures NULL == -1
  {
  }

  lemma EndPlace(d: DList, l: seq<nat>, head: bool, s: nat)
    requires Linked(d, l) && s !in l
    ensures (if head then NULL else d.last) == At(l, (if head then 0 else |l|) - 1)
    ensures (d.first == NULL <==> d.last == NULL) && d.first != s && d.last != s
    ensures d.last != NULL ==> InPool(d, d.last) && d.next[d.last] == NULL
    ensures InsertAt(l, 0, s) == [s] + l && InsertAt(l, |l|, s) == l + [s]
  {
    if l != [] {
      LinkedPool(d, l, |l| - 1);
      assert l[0] != s && l[|l| - 1] != s;
    }
  }

  lemma InUseIs(p: Pool, l: seq<nat>, s: nat)
    requires Kept(p, l) && s < p.Size()
    ensures s < |p.inUse| && (p.inUse[s] <==> s in l)
  {
  }

  lemma IndexOf(l: seq<nat>, x: nat) returns (k: nat)
    requires x in l
    ensures k < |l| && l[k] == x
  {
    k :| k < |l| && l[k] == x;
  }

  lemma ReleasedIs(p: Pool, s: nat)
    requires CanUnlink(p.links, s) && p.free < |p.stack| && p.Size() == |p.inUse|
    ensures Released(p, s) == Pool(Unlink(p.links, s), p.depth, p.inUse[s := false], p.stack[p.free := s], p.free + 1)
  {
  }

  lemma ForwardHere(depth: seq<int>, l: seq<nat>, i: nat, sdepth: int)
    requires InRange(l, |depth|) && i <= |l|
    ensures Forward(depth, l, i, sdepth) == if i < |l| && depth[l[i]] < sdepth then Forward(depth, l, i + 1, sdepth) else i
  {
  }

  lemma BackwardHere(depth: seq<int>, l: seq<nat>, i: int, sdepth: int)
    requires InRange(l, |depth|) && -1 <= i < |l|
    ensures Backward(depth, l, i, sdepth) == if i >= 0 && depth[l[i]] > sdepth then Backward(depth, l, i - 1, sdepth) else i
  {
  }

  /** `sortSprite` case by case. */
  lemma {:induction false} SortCases(depth: seq<int>, l: seq<nat>, k: nat)
    requires InRange(l, |depth|) && k < |l|
    ensures l[k] < |depth|
    ensures var f := Forward(depth, l, k + 1, depth[l[k]]);
            f != k + 1 ==> At(RemoveAt(l, k), SortIndex(depth, l, k) - 1) == At(l, f - 1)
    ensures var f := Forward(depth, l, k + 1, depth[l[k]]);
            var b := Backward(depth, l, k - 1, depth[l[k]]);
            f == k + 1 ==> At(RemoveAt(l, k), SortIndex(depth, l, k) - 1) == At(l, b)
    ensures var f := Forward(depth, l, k + 1, depth[l[k]]);
            var b := Backward(depth, l, k - 1, depth[l[k]]);
            f == k + 1 && b == k - 1 ==> Resorted(depth, l, k) == l
  {
    hide *;
    InRangeAt(l, |depth|, k);
    SortIndexIs(depth, l, k);
    var f := Forward(depth, l, k + 1, depth[l[k]]);
    if f != k + 1 {
      RemovedAt(l, k, f - 2);
    } else {
      RemovedAt(l, k, Backward(depth, l, k - 1, depth[l[k]]));
    }
    PutBack(l, k);
  }

  lemma SortIndexIs(depth: seq<int>, l: seq<nat>, k: nat)
    requires InRange(l, |depth|) && k < |l|
    ensures l[k] < |depth|
    ensures var f := Forward(depth, l, k + 1, depth[l[k]]);
            SortIndex(depth, l, k) == if f != k + 1 then f - 1 else Backward(depth, l, k - 1, depth[l[k]]) + 1
    ensures |RemoveAt(l, k)| == |l| - 1 && Resorted(depth, l, k) == InsertAt(RemoveAt(l, k), SortIndex(depth, l, k), l[k])
  {
    hide Forward, Backward, InsertAt;
  }

  lemma PutBack(l: seq<nat>, k: nat)
    requires k < |l|
    ensures |RemoveAt(l, k)| == |l| - 1 && InsertAt(RemoveAt(l, k), k, l[k]) == l
  {
  }

  /** Two places of a list hold the same sprite, or nothing, only if they are the same. */
  lemma SameAt(l: seq<nat>, i: int, j: int)
    requires Distinct(l) && (-1 <= i <= j <= |l| || -1 <= j <= i <= |l|) && (0 <= i || i >= j) && (i <= |l|)
    ensures At(l, i) == At(l, j) && (0 <= i < |l| || 0 <= j < |l|) ==> i == j
  {
  }

  lemma AtIs(l: seq<nat>, i: nat)
    requires i <= |l|
    ensures At(l, i) == if i < |l| then l[i] else NULL
  {
  }

  lemma PoolIs(d: DList, s: int)
    requires InPool(d, s)
    ensures 0 <= s < |d.prev| == |d.next|
  {
  }

  lemma BeforeIs(d: DList, l: seq<nat>, f: nat)
    requires Linked(d, l) && 0 < f <= |l|
    ensures f < |l| ==> 0 <= l[f] < |d.prev| && d.prev[l[f]] == At(l, f - 1)
    ensures f == |l| ==> d.last == At(l, f - 1)
  {
    if f < |l| {
      LinkedPool(d, l, f);
    }
  }

  lemma LinkedDistinct(d: DList, l: seq<nat>)
    requires Linked(d, l)
    ensures Distinct(l)
  {
  }

  lemma InRangeAt(l: seq<nat>, n: nat, k: nat)
    requires InRange(l, n) && k < |l|
    ensures l[k] < n
  {
  }

  /** What moving sprite `k` to its place does to the pool. */
  lemma SortReady(p: Pool, l: seq<nat>, k: nat)
    requires Kept(p, l) && k < |l|
    ensures InRange(l, |p.depth|) && Linked(p.links, l) && CanUnlink(p.links, l[k])
    ensures var r, j := RemoveAt(l, k), SortIndex(p.depth, l, k);
            && CanLink(Unlink(p.links, l[k]), At(r, j - 1), l[k])
            && Kept(p.(links := LinkAfter(Unlink(p.links, l[k]), At(r, j - 1), l[k])), Resorted(p.depth, l, k))
            && |LinkAfter(Unlink(p.links, l[k]), At(r, j - 1), l[k]).prev| == |p.links.prev|
  {
    PoolSize(p, l);
    var r, j := RemoveAt(l, k), SortIndex(p.depth, l, k);
    MoveOk(p.links, l, k, j);
    MovedKept(p, l, k, j);
    MoveSize(p.links, l, k, j);
    hide Linked, SortIndex, RemoveAt, InsertAt, Unlink, LinkAfter, CanLink, CanUnlink;
  }

  /** `l'` is `l` with `s`, at `k`, moved to where it has `j` of the others before it. */
  ghost predicate MovedOnly(l: seq<nat>, l': seq<nat>, s: nat, k: nat, j: nat) {
    k < |l| && l[k] == s && j < |l| && l' == InsertAt(RemoveAt(l, k), j, s)
  }

  lemma NotMoved(l: seq<nat>, k: nat)
    requires k < |l|
    ensures MovedOnly(l, l, l[k], k, k)
  {
    PutBack(l, k);
  }

  /** A new depth, and the list sorted again. */
  lemma DepthReady(p: Pool, l: seq<nat>, k: nat, value: int)
    requires Ordered(p, l) && k < |l| && MIN_DEPTH <= value <= MAX_DEPTH && l[k] < |p.depth|
    ensures var depth := p.depth[l[k] := value];
            && Kept(p.(depth := depth), l) && Depths(depth) && InRange(l, |depth|)
            && Sorted(depth, Resorted(depth, l, k))
            && MovedOnly(l, Resorted(depth, l, k), l[k], k, SortIndex(depth, l, k))
    ensures forall p': Pool, l' :: Kept(p', l') && Depths(p'.depth) && Sorted(p'.depth, l') ==> Ordered(p', l')
  {
    PoolSize(p, l);
    var depth := p.depth[l[k] := value];
    LinkedDistinct(p.links, l);
    RemovedSorted(p.depth, l, k);
    RemovedGone(l, k);
    SortedElsewhere(p.depth, RemoveAt(l, k), l[k], value);
    ResortedSorted(depth, l, k);
  }
}
