/** The sprite attribute table that `SPR_update` of `src/sprite_eng.c` builds from the sprite list,
    every frame anew. */
module SpriteTable {
  import opened Machine
  import opened Frames
  import opened SpriteLists
  import opened VdpSprites

  /** An entry of the table, without its link. */
  datatype Item = Item(y: int, size: nat, attribut: u16, x: int)

  /** An entry of the table. */
  datatype Hardware = Hardware(item: Item, link: nat)

  /** What the table shows of a sprite: `single` stands for a negative `numSprite`, a frame of one
      hardware sprite as large as the sprite. */
  datatype View = View(x: int, y: int, attribut: u16, visibility: u16, inUse: bool, single: bool, parts: seq<FrameSprite>)

  /** At most 16 hardware sprites per frame, one visibility bit for each. */
  predicate Fits(v: View) {
    |v.parts| <= 16 && (v.single ==> |v.parts| == 1)
  }

  /** Visibility bits count from the high one. */
  predicate VisibleAt(visibility: u16, i: nat)
    requires i < 16
  {
    (visibility / Pow2(15 - i)) % 2 == 1
  }

  /** Part `i`, drawn as the flip attributes of the sprite say, its tiles after those of the parts
      before it, shown or not. */
  function PartItem(v: View, i: nat): Item
    requires i < |v.parts|
  {
    var f := v.parts[i];
    Item(v.y + (if Flag(v.attribut, TILE_ATTR_VFLIP_MASK) then f.offsetYFlip else f.offsetY),
         f.size,
         Wrap16(v.attribut + Tiles(v.parts, i)),
         v.x + (if Flag(v.attribut, TILE_ATTR_HFLIP_MASK) then f.offsetXFlip else f.offsetX))
  }

  /** The visible parts from part `i` on. */
  function PartsFrom(v: View, i: nat): seq<Item>
    requires Fits(v) && i <= |v.parts|
    decreases |v.parts| - i
  {
    if i == |v.parts| then []
    else (if VisibleAt(v.visibility, i) then [PartItem(v, i)] else []) + PartsFrom(v, i + 1)
  }

  /** The entries of one sprite. */
  function Emitted(v: View): seq<Item>
    requires Fits(v)
  {
    if v.single then [Item(v.y, v.parts[0].size, v.attribut, v.x)] else PartsFrom(v, 0)
  }

  /** A frame of one hardware sprite as large as the sprite is what the general case makes of it. */
  lemma SingleAgrees(v: View)
    requires Fits(v) && v.single && VisibleAt(v.visibility, 0)
    requires var f := v.parts[0]; f.offsetX == 0 && f.offsetXFlip == 0 && f.offsetY == 0 && f.offsetYFlip == 0
    ensures Emitted(v) == Emitted(v.(single := false))
  {
    assert PartsFrom(v, 1) == [];
    assert Tiles(v.parts, 0) == 0;
    hide Flag, Pow2;
    PartsSame(v, v.(single := false), 0);
  }

  lemma {:induction false} PartsSame(v: View, v': View, i: nat)
    requires Fits(v) && Fits(v') && v' == v.(single := v'.single) && i <= |v.parts|
    ensures PartsFrom(v, i) == PartsFrom(v', i)
    decreases |v.parts| - i
  {
    if i < |v.parts| {
      PartsSame(v, v', i + 1);
    }
  }

  /** The visible parts before part `i`. */
  function VisibleBefore(v: View, i: nat): nat
    requires Fits(v) && i <= |v.parts|
  {
    if i == 0 then 0 else VisibleBefore(v, i - 1) + if VisibleAt(v.visibility, i - 1) then 1 else 0
  }

  /** Every visible part has an entry of its own, after those of the visible parts before it: at its offset from the
      sprite, plain or flipped, with its size, its tiles after those of all parts before it. */
  lemma EntryOfPart(v: View, i: nat)
    requires Fits(v) && !v.single && i < |v.parts| && VisibleAt(v.visibility, i)
    ensures var k, f := VisibleBefore(v, i), v.parts[i];
            && k < |Emitted(v)|
            && Emitted(v)[k].y == v.y + (if FlipsY(v.attribut) then f.offsetYFlip else f.offsetY)
            && Emitted(v)[k].x == v.x + (if FlipsX(v.attribut) then f.offsetXFlip else f.offsetX)
            && Emitted(v)[k].size == f.size
            && Emitted(v)[k].attribut == (v.attribut + Tiles(v.parts, i)) % 0x1_0000
  {
    PartsSplit(v, i);
    hide Tiles, VisibleAt;
    assert PartsFrom(v, i) == [PartItem(v, i)] + PartsFrom(v, i + 1);
  }

  lemma {:induction false} PartsSplit(v: View, i: nat)
    requires Fits(v) && i <= |v.parts|
    ensures |PartsFrom(v, 0)| == VisibleBefore(v, i) + |PartsFrom(v, i)|
    ensures PartsFrom(v, 0)[VisibleBefore(v, i)..] == PartsFrom(v, i)
  {
    hide VisibleAt, PartItem;
    if i > 0 {
      PartsSplit(v, i - 1);
      assert PartsFrom(v, i - 1) == (if VisibleAt(v.visibility, i - 1) then [PartItem(v, i - 1)] else []) + PartsFrom(v, i);
    }
  }

  /** And there are no others. */
  lemma EntryCount(v: View)
    requires Fits(v) && !v.single
    ensures |Emitted(v)| == VisibleBefore(v, |v.parts|)
  {
    PartsSplit(v, |v.parts|);
  }

  /** A sprite whose frame is one hardware sprite of its own size has one entry: its position, size and attribute. */
  lemma EntryOfSingle(v: View, count: nat)
    requires Fits(v) && v.single && v.visibility != 0 && v.inUse && count < SAT_MAX_SIZE
    ensures forall acc: seq<Item> :: |acc| == count ==>
              var t := Collected([v], acc);
              && |t| == count + 1 && t[..count] == acc
              && t[count].x == v.x && t[count].y == v.y && t[count].size == v.parts[0].size && t[count].attribut == v.attribut
  {
    forall acc: seq<Item> | |acc| == count
      ensures var t := Collected([v], acc); t == acc + [Item(v.y, v.parts[0].size, v.attribut, v.x)]
    {
      assert [v][1..] == [];
    }
  }

  predicate Wanted(v: View, count: nat) {
    v.visibility != 0 && v.inUse && count < SAT_MAX_SIZE
  }

  ghost predicate AllFit(views: seq<View>) {
    forall i :: 0 <= i < |views| ==> Fits(views[i])
  }

  /** The table after the sprites `views`, one after the other: one that starts below the size of the
      table is taken whole. */
  ghost function Collected(views: seq<View>, acc: seq<Item>): seq<Item>
    requires AllFit(views)
    decreases |views|
  {
    if views == [] then acc
    else Collected(views[1..], if Wanted(views[0], |acc|) then acc + Emitted(views[0]) else acc)
  }

  /** The entries of all sprites that are in use and have a visible part. */
  ghost function AllEntries(views: seq<View>): seq<Item>
    requires AllFit(views)
    decreases |views|
  {
    if views == [] then []
    else (if views[0].inUse && views[0].visibility != 0 then Emitted(views[0]) else []) + AllEntries(views[1..])
  }

  /** When they fit into the table, they are all there, in the order of the sprites. */
  lemma {:induction false} AllCollected(views: seq<View>, acc: seq<Item>)
    requires AllFit(views) && |acc| + |AllEntries(views)| < SAT_MAX_SIZE
    ensures Collected(views, acc) == acc + AllEntries(views)
    decreases |views|
  {
    hide Emitted;
    if views != [] {
      var mine := if views[0].inUse && views[0].visibility != 0 then Emitted(views[0]) else [];
      AllCollected(views[1..], acc + mine);
      assert (acc + mine) + AllEntries(views[1..]) == acc + (mine + AllEntries(views[1..]));
      assert acc + [] == acc;
    }
  }

  // ----- The table never overflows

  lemma {:induction false} PartsBound(v: View, i: nat)
    requires Fits(v) && i <= |v.parts|
    ensures |PartsFrom(v, i)| <= |v.parts| - i
    decreases |v.parts| - i
  {
    if i < |v.parts| {
      PartsBound(v, i + 1);
    }
  }

  lemma {:induction false} CollectedBound(views: seq<View>, acc: seq<Item>)
    requires AllFit(views) && |acc| < CACHE_SIZE
    ensures |acc| <= |Collected(views, acc)| < CACHE_SIZE
    decreases |views|
  {
    if views != [] {
      PartsBound(views[0], 0);
      CollectedBound(views[1..], if Wanted(views[0], |acc|) then acc + Emitted(views[0]) else acc);
    }
  }

  // ----- The visibility mask, shifted out bit by bit

  lemma {:induction false} PowAdd(a: nat, b: nat)
    ensures Pow2(a + b) == Pow2(a) * Pow2(b)
  {
    hide Pow2;
    PowNone();
    if a > 0 {
      PowAdd(a - 1, b);
      PowStep(a - 1);
      PowStep(a - 1 + b);
      Product(2, Pow2(a - 1), Pow2(b));
    }
  }

  lemma PowNone()
    ensures Pow2(0) == 1
  {
  }

  lemma PowStep(k: nat)
    ensures Pow2(k + 1) == 2 * Pow2(k)
  {
  }

  lemma PowWord()
    ensures Pow2(16) == 0x1_0000
  {
    assert Pow2(4) == 16;
    PowAdd(4, 4);
    PowAdd(8, 8);
  }

  /** The visibility bits of the parts from `i` on, as a number. */
  ghost function Left(visibility: u16, num: nat, i: nat): nat
    requires i <= num <= 16
  {
    (visibility / Pow2(16 - num)) % Pow2(num - i)
  }

  /** What the loop holds after `i` shifts: the bits left, at the top of a word. */
  ghost function Mask(visibility: u16, num: nat, i: nat): nat
    requires i <= num <= 16
  {
    Left(visibility, num, i) * Pow2(16 - num + i)
  }

  /** The highest bit left and the others. */
  lemma LeftStep(visibility: u16, num: nat, i: nat)
    requires i < num <= 16
    ensures Left(visibility, num, i) ==
            Left(visibility, num, i + 1) + if VisibleAt(visibility, i) then Pow2(num - i - 1) else 0
    ensures Left(visibility, num, i + 1) < Pow2(num - i - 1)
  {
    hide Pow2;
    PowAdd(16 - num, num - i - 1);
    PowStep(num - i - 1);
    LeftSplit(visibility, Pow2(16 - num), Pow2(num - i - 1), Pow2(15 - i));
  }

  lemma LeftSplit(v: nat, w: nat, p: nat, h: nat)
    requires w > 0 && p > 0 && h == w * p
    ensures h > 0 && (v / w) % (2 * p) == (v / w) % p + (if (v / h) % 2 == 1 then p else 0)
    ensures (v / w) % p < p
  {
    DivDiv(v, w, p);
    HalfSplit(v / w, p);
  }

  /** One turn of the loop: the high bit is the visibility of part `i`, and the shift drops it. */
  lemma MaskStep(visibility: u16, num: nat, i: nat)
    requires i < num <= 16
    ensures var m := Mask(visibility, num, i);
            && m < 0x1_0000
            && (m >= 0x8000 <==> VisibleAt(visibility, i))
            && Wrap16(2 * m) == Mask(visibility, num, i + 1)
  {
    hide *;
    var q', p, w := Left(visibility, num, i + 1), Pow2(num - i - 1), Pow2(16 - num + i);
    LeftStep(visibility, num, i);
    PowWord();
    PowAdd(num - i, 16 - num + i);
    PowStep(num - i - 1);
    PowStep(16 - num + i);
    MaskIs(visibility, num, i);
    MaskIs(visibility, num, i + 1);
    if VisibleAt(visibility, i) {
      TopBit(q', p, w, 1);
    } else {
      TopBit(q', p, w, 0);
    }
  }

  lemma MaskIs(visibility: u16, num: nat, i: nat)
    requires i <= num <= 16
    ensures Mask(visibility, num, i) == Left(visibility, num, i) * Pow2(16 - num + i)
  {
  }

  /** A word of `p * w` twice over, with `b` as its high bit. */
  lemma TopBit(q: nat, p: nat, w: nat, b: nat)
    requires q < p && (2 * p) * w == 0x1_0000 && b <= 1
    ensures var m := (q + b * p) * w;
            && m < 0x1_0000
            && (m >= 0x8000 <==> b == 1)
            && Wrap16(2 * m) == q * (2 * w)
  {
    Product(2, p, w);
    Product(2, q, w);
    Distribute(w, q, b * p);
    Product(b, p, w);
    MulMono(w, q + 1, p);
    Distribute(w, q, 1);
    assert w > 0;
    WrapIs(2 * ((q + b * p) * w), b);
  }

  /** The masking at the start keeps the bits of the first `num` parts. */
  lemma MaskStart(visibility: u16, num: nat)
    requires num <= 16
    ensures Mask(visibility, num, 0) == (visibility / Pow2(16 - num)) * Pow2(16 - num)
  {
    PowWord();
    PowAdd(num, 16 - num);
    hide Pow2;
    StartRemainder(visibility, Pow2(16 - num), Pow2(num));
  }

  lemma StartRemainder(v: nat, a: nat, b: nat)
    requires a > 0 && b > 0 && v < b * a
    ensures (v / a) % b == v / a
  {
    DivBound(v, a, b);
    DivUnique(v / a, b, 0, v / a);
  }

  lemma MaskNone(visibility: u16, num: nat)
    requires num <= 16
    ensures Mask(visibility, num, num) == 0
  {
    assert Pow2(0) == 1;
  }

  /** When no bits are left no more parts are shown. */
  lemma {:induction false} NoneLeft(v: View, i: nat)
    requires Fits(v) && i <= |v.parts| && Mask(v.visibility, |v.parts|, i) == 0
    ensures PartsFrom(v, i) == []
    decreases |v.parts| - i
  {
    if i < |v.parts| {
      MaskStep(v.visibility, |v.parts|, i);
      NoneLeft(v, i + 1);
    }
  }

  // ----- Building the table

  /** The entries written so far, each linked to the next. */
  ghost predicate Filled(cache: seq<Hardware>, acc: seq<Item>) {
    |acc| <= |cache| == CACHE_SIZE && forall j :: 0 <= j < |acc| ==> cache[j] == Hardware(acc[j], j + 1)
  }

  /** The finished table: the last entry links to 0. */
  ghost predicate Finished(cache: seq<Hardware>, acc: seq<Item>) {
    && |acc| <= |cache| == CACHE_SIZE
    && forall j :: 0 <= j < |acc| ==> cache[j] == Hardware(acc[j], if j + 1 < |acc| then j + 1 else 0)
  }

  function Links(cache: seq<Hardware>): seq<nat> {
    seq(|cache|, j requires 0 <= j < |cache| => cache[j].link)
  }

  /** From entry 0 the hardware visits every entry written, once, in order, and nothing else. */
  lemma FinishedVisits(cache: seq<Hardware>, acc: seq<Item>)
    requires Finished(cache, acc) && acc != []
    ensures Visit(Links(cache), 0, |acc|) == seq(|acc|, i => i)
  {
    var w: seq<nat> := seq(|acc|, i => i);
    forall i | 0 <= i < |w| ensures LinkedOn(Links(cache), w, i) {
    }
    VisitsChain(Links(cache), w, 0, |acc|);
    assert w[0..] == w;
  }

  lemma FilledStep(cache: seq<Hardware>, acc: seq<Item>, item: Item)
    requires Filled(cache, acc) && |acc| < CACHE_SIZE
    ensures Filled(cache[|acc| := Hardware(item, |acc| + 1)], acc + [item])
  {
  }

  lemma FilledFinished(cache: seq<Hardware>, acc: seq<Item>)
    requires Filled(cache, acc) && acc != []
    ensures Finished(cache[|acc| - 1 := cache[|acc| - 1].(link := 0)], acc)
  {
  }

  ghost function ViewsOf(views: seq<View>, l: seq<nat>): seq<View>
    requires InRange(l, |views|)
  {
    seq(|l|, i requires 0 <= i < |l| => views[l[i]])
  }

  lemma {:induction false} PartsNext(v: View, i: nat, got: seq<Item>)
    requires Fits(v) && i < |v.parts|
    ensures VisibleAt(v.visibility, i) ==> got + PartsFrom(v, i) == (got + [PartItem(v, i)]) + PartsFrom(v, i + 1)
    ensures !VisibleAt(v.visibility, i) ==> got + PartsFrom(v, i) == got + PartsFrom(v, i + 1)
  {
  }

  lemma {:induction false} CollectedNext(views: seq<View>, l: seq<nat>, i: nat, got: seq<Item>)
    requires InRange(l, |views|) && AllFit(ViewsOf(views, l)) && i < |l|
    ensures l[i] < |views| && Fits(views[l[i]]) && AllFit(ViewsOf(views, l)[i..]) && AllFit(ViewsOf(views, l)[i + 1..])
    ensures Collected(ViewsOf(views, l)[i..], got) ==
            Collected(ViewsOf(views, l)[i + 1..], if Wanted(views[l[i]], |got|) then got + Emitted(views[l[i]]) else got)
  {
    var vs := ViewsOf(views, l);
    assert vs[i] == views[l[i]];
    assert vs[i..][0] == views[l[i]] && vs[i..][1..] == vs[i + 1..];
    hide Emitted;
  }

  class Table {
    /** `vdpSpriteCache`. */
    var cache: seq<Hardware>

    constructor (cache: seq<Hardware>)
      ensures this.cache == cache
    {
      this.cache := cache;
    }

    /** The loop over the visible parts of a frame. */
    method EmitParts(v: View, start: nat, ghost acc: seq<Item>) returns (n: nat)
      requires Fits(v) && Filled(cache, acc) && start == |acc| < SAT_MAX_SIZE
      modifies this
      ensures Filled(cache, acc + PartsFrom(v, 0)) && n == |acc + PartsFrom(v, 0)|
    {
      hide Filled, PartsFrom, PartItem, Mask, VisibleAt, Pow2, Flag, Tiles;
      ghost var got := acc;
      var visibility: nat := (v.visibility / Pow2(16 - |v.parts|)) * Pow2(16 - |v.parts|);
      MaskStart(v.visibility, |v.parts|);
      MaskNone(v.visibility, |v.parts|);
      var attr, i: nat := v.attribut, 0;
      n := start;
      AttrStart(v);
      while visibility != 0
        invariant i <= |v.parts| && n == |got| <= |acc| + i
        invariant visibility == Mask(v.visibility, |v.parts|, i)
        invariant attr == Wrap16(v.attribut + Tiles(v.parts, i))
        invariant got + PartsFrom(v, i) == acc + PartsFrom(v, 0)
        invariant Filled(cache, got)
        decreases |v.parts| - i
      {
        FilledSize(cache, got);
        MaskStep(v.visibility, |v.parts|, i);
        PartsNext(v, i, got);
        AttrNext(v, i);
        PartIs(v, i);
        if visibility >= 0x8000 {
          var f := v.parts[i];
          var y := v.y + if Flag(v.attribut, TILE_ATTR_VFLIP_MASK) then f.offsetYFlip else f.offsetY;
          var x := v.x + if Flag(v.attribut, TILE_ATTR_HFLIP_MASK) then f.offsetXFlip else f.offsetX;
          FilledStep(cache, got, Item(y, f.size, attr, x));
          cache := cache[n := Hardware(Item(y, f.size, attr, x), n + 1)];
          got := got + [Item(y, f.size, attr, x)];
          n := n + 1;
        }
        attr := Wrap16(attr + v.parts[i].numTile);
        i := i + 1;
        visibility := Wrap16(2 * visibility);
      }
      NoneLeft(v, i);
      assert got + [] == got;
    }

    /** The entries of one sprite. */
    method Emit(v: View, start: nat, ghost acc: seq<Item>) returns (n: nat)
      requires Fits(v) && Filled(cache, acc) && start == |acc| < SAT_MAX_SIZE
      modifies this
      ensures Filled(cache, acc + Emitted(v)) && n == |acc + Emitted(v)|
    {
      hide PartsFrom;
      if v.single {
        var item := Item(v.y, v.parts[0].size, v.attribut, v.x);
        FilledStep(cache, acc, item);
        cache := cache[start := Hardware(item, start + 1)];
        n := start + 1;
      } else {
        n := EmitParts(v, start, acc);
      }
    }

    /** `SPR_update`: the table of the sprites `l`, visited along the list `d`. With the load monitor on,
        entry 0 is its own. The result is the number of entries sent. */
    method Update(d: DList, views: seq<View>, showFrameLoad: bool, ghost l: seq<nat>) returns (sent: nat)
      requires Linked(d, l) && InRange(l, |views|) && AllFit(ViewsOf(views, l)) && |cache| == CACHE_SIZE
      modifies this
      ensures var table := Collected(ViewsOf(views, l), if showFrameLoad then [old(cache)[0].item] else []);
              && |table| < CACHE_SIZE && |cache| == CACHE_SIZE
              && (table != [] ==> sent == |table| && Finished(cache, table))
              && (table == [] ==> sent == 1 && cache[0].item.y == 0 && cache[0].link == 0)
      ensures |l| == 1 && l[0] < |views| && !showFrameLoad ==>
                var v := views[l[0]];
                v.single && v.visibility != 0 && v.inUse ==>
                  sent == 1 && |v.parts| == 1 && |cache| > 0
                  && cache[0].item.x == v.x && cache[0].item.y == v.y && cache[0].item.size == v.parts[0].size && cache[0].item.attribut == v.attribut
    {
      ghost var acc := if showFrameLoad then [cache[0].item] else [];
      ghost var got := acc;
      var n := 0;
      if showFrameLoad {
        cache := cache[0 := cache[0].(link := 1)];
        n := 1;
      }
      assert Filled(cache, got);
      hide *;
      ListStart(d, l, ViewsOf(views, l));
      NullIs();
      var sprite := d.first;
      ghost var i := 0;
      CollectedBound(ViewsOf(views, l), acc);
      while sprite != NULL
        invariant i <= |l| && sprite == At(l, i) && n == |got| && Filled(cache, got)
        invariant AllFit(ViewsOf(views, l)[i..])
        invariant Collected(ViewsOf(views, l)[i..], got) == Collected(ViewsOf(views, l), acc)
        decreases |l| - i
      {
        ListNext(d, l, i);
        CollectedNext(views, l, i, got);
        WantedIs(views[sprite], n);
        if views[sprite].visibility != 0 && views[sprite].inUse && n + 1 <= SAT_MAX_SIZE {
          n := Emit(views[sprite], n, got);
          got := got + Emitted(views[sprite]);
        }
        sprite := d.next[sprite];
        i := i + 1;
      }
      ListEnd(l, i, ViewsOf(views, l), got);
      FilledSize(cache, got);
      if n > 0 {
        FilledFinished(cache, got);
        cache := cache[n - 1 := cache[n - 1].(link := 0)];
        sent := n;
      } else {
        cache := cache[n := cache[n].(item := cache[n].item.(y := 0), link := 0)];
        sent := 1;
      }
      if |l| == 1 && !showFrameLoad {
        LoneSingle(views, l, cache);
      }
    }
  }

  lemma LoneSingle(views: seq<View>, l: seq<nat>, cache: seq<Hardware>)
    requires |l| == 1 && InRange(l, |views|) && AllFit(ViewsOf(views, l))
    ensures var v := views[l[0]];
            v.single && v.visibility != 0 && v.inUse ==>
              && |v.parts| == 1 && |Collected(ViewsOf(views, l), [])| == 1
              && (Finished(cache, Collected(ViewsOf(views, l), [])) ==>
                    |cache| > 0 && cache[0].item.x == v.x && cache[0].item.y == v.y && cache[0].item.size == v.parts[0].size && cache[0].item.attribut == v.attribut)
  {
    var v := views[l[0]];
    assert ViewsOf(views, l) == [v];
    assert Fits(ViewsOf(views, l)[0]);
    if v.single && v.visibility != 0 && v.inUse {
      EntryOfSingle(v, 0);
      var acc: seq<Item> := [];
      assert |acc| == 0;
    }
  }

  lemma FilledSize(cache: seq<Hardware>, acc: seq<Item>)
    requires Filled(cache, acc)
    ensures |acc| <= |cache| == CACHE_SIZE
  {
  }

  lemma AttrStart(v: View)
    ensures Wrap16(v.attribut + Tiles(v.parts, 0)) == v.attribut
  {
  }

  lemma AttrNext(v: View, i: nat)
    requires i < |v.parts|
    ensures Wrap16(Wrap16(v.attribut + Tiles(v.parts, i)) + v.parts[i].numTile) == Wrap16(v.attribut + Tiles(v.parts, i + 1))
  {
    WrapAdd(v.attribut + Tiles(v.parts, i), v.parts[i].numTile);
  }

  lemma PartIs(v: View, i: nat)
    requires i < |v.parts|
    ensures var f := v.parts[i];
            PartItem(v, i) ==
            Item(v.y + (if Flag(v.attribut, TILE_ATTR_VFLIP_MASK) then f.offsetYFlip else f.offsetY), f.size,
                 Wrap16(v.attribut + Tiles(v.parts, i)),
                 v.x + (if Flag(v.attribut, TILE_ATTR_HFLIP_MASK) then f.offsetXFlip else f.offsetX))
  {
    hide Flag, Tiles, Wrap16;
  }

  lemma WantedIs(v: View, count: nat)
    ensures Wanted(v, count) <==> v.visibility != 0 && v.inUse && count + 1 <= SAT_MAX_SIZE
    ensures Wanted(v, count) ==> count < SAT_MAX_SIZE
  {
  }

  lemma ListStart(d: DList, l: seq<nat>, vs: seq<View>)
    requires Linked(d, l)
    ensures d.first == At(l, 0) && vs[0..] == vs && CACHE_SIZE == 96 && SAT_MAX_SIZE == 80
  {
  }

  lemma ListNext(d: DList, l: seq<nat>, i: nat)
    requires Linked(d, l) && i <= |l| && At(l, i) != NULL
    ensures i < |l| && At(l, i) == l[i] < |d.next| && d.next[l[i]] == At(l, i + 1)
  {
    LinkedPool(d, l, i);
  }

  lemma ListEnd(l: seq<nat>, i: nat, vs: seq<View>, got: seq<Item>)
    requires i <= |l| == |vs| && At(l, i) == NULL && AllFit(vs[i..])
    ensures Collected(vs[i..], got) == got
  {
    assert i == |l|;
    assert vs[i..] == [];
  }
}
