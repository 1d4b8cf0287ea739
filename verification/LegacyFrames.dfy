/** How a sprite of the legacy engine is written to its hardware entries (`src/sprite_eng_legacy.c`):
    frames change, updates are delayed, the sprite is hidden for a while, and the entries that a
    shorter frame no longer needs have to be hidden, once. */
module LegacyFrames {
  import opened Machine
  import opened Frames
  import opened SpriteLists
  import opened VdpSprites

  const VISIBILITY_ON := 0xFFFF

  /** The hardware sprites of an animation frame, and the size of its tile set. */
  datatype Frame = Frame(parts: seq<FrameSprite>, numTile: nat)

  /** A hardware entry, without its link. */
  datatype Attr = Attr(y: int, size: nat, attribut: nat, x: int)

  /** Bit `i` of a visibility mask. */
  function Bit(mask: nat, i: nat): bool {
    if i == 0 then mask % 2 == 1 else Bit(mask / 2, i - 1)
  }

  function ShownAt(visibility: nat, i: nat): bool {
    visibility == VISIBILITY_ON || Bit(visibility, i)
  }

  // ----- What an update is to write

  datatype Mode = All | Pos | Hide

  /** What the updates read of a sprite. */
  datatype View = View(x: int, y: int, attribut: u16, visibility: u16, parts: seq<FrameSprite>, toHide: int)

  /** The attribute of part `i`: only a full update moves on through the tiles. */
  function AttrAt(v: View, mode: Mode, i: nat): nat
    requires i <= |v.parts|
  {
    if mode == All then Wrap16(v.attribut + Tiles(v.parts, i)) else v.attribut
  }

  /** Part `i` of the frame written over the entry `e`. */
  function PartOver(v: View, mode: Mode, i: nat, e: Attr): Attr
    requires i < |v.parts|
  {
    var f, attr, shown := v.parts[i], AttrAt(v, mode, i), ShownAt(v.visibility, i);
    var y := if !shown then 0 else v.y + if Flag(attr, TILE_ATTR_VFLIP_MASK) then f.offsetYFlip else f.offsetY;
    var x := if !shown then e.x else v.x + if Flag(attr, TILE_ATTR_HFLIP_MASK) then f.offsetXFlip else f.offsetX;
    if mode == All then Attr(y, f.size, attr, x) else e.(y := y, x := x)
  }

  /** What an update makes of entry `i` of the sprite. */
  function Goal(v: View, mode: Mode, i: nat, e: Attr): Attr {
    if i < |v.parts| && mode != Hide then PartOver(v, mode, i, e)
    else if i < |v.parts| + v.toHide || i < |v.parts| then e.(y := 0)
    else e
  }

  /** The first `n` of the entries `slots` are updated, nothing else is. */
  ghost predicate Updated(c: seq<Attr>, c': seq<Attr>, slots: seq<nat>, v: View, mode: Mode, n: nat) {
    && |c'| == |c|
    && (forall i :: 0 <= i < |slots| ==> UpdatedAt(c, c', slots, v, mode, n, i))
    && (forall x: nat :: x < |c| && x !in slots ==> c'[x] == c[x])
  }

  ghost predicate UpdatedAt(c: seq<Attr>, c': seq<Attr>, slots: seq<nat>, v: View, mode: Mode, n: nat, i: nat)
    requires i < |slots| && |c| == |c'|
  {
    slots[i] < |c| && c'[slots[i]] == if i < n then Goal(v, mode, i, c[slots[i]]) else c[slots[i]]
  }

  lemma UpdatedStep(c: seq<Attr>, c': seq<Attr>, slots: seq<nat>, v: View, mode: Mode, n: nat)
    requires Updated(c, c', slots, v, mode, n) && Distinct(slots) && n < |slots|
    ensures slots[n] < |c| == |c'| && c'[slots[n]] == c[slots[n]]
    ensures Updated(c, c'[slots[n] := Goal(v, mode, n, c[slots[n]])], slots, v, mode, n + 1)
  {
    assert UpdatedAt(c, c', slots, v, mode, n, n);
    var c'', m := c'[slots[n] := Goal(v, mode, n, c[slots[n]])], n + 1;
    hide Goal;
    forall i | 0 <= i < |slots| ensures UpdatedAt(c, c'', slots, v, mode, m, i) {
      assert UpdatedAt(c, c', slots, v, mode, n, i);
      if i != n {
        Apart(slots, i, n);
      }
    }
  }

  /** Beyond the entries the update reaches nothing is to be done. */
  lemma UpdatedRest(c: seq<Attr>, c': seq<Attr>, slots: seq<nat>, v: View, mode: Mode, n: nat)
    requires Updated(c, c', slots, v, mode, n) && n <= |slots| && n >= |v.parts| && n >= |v.parts| + v.toHide
    ensures Updated(c, c', slots, v, mode, |slots|)
  {
    forall i | 0 <= i < |slots| ensures UpdatedAt(c, c', slots, v, mode, |slots|, i) {
      assert UpdatedAt(c, c', slots, v, mode, n, i);
    }
  }

  // ----- The number of entries that may still be seen

  /** The entries from `t` on are hidden. */
  ghost predicate HiddenFrom(c: seq<Attr>, slots: seq<nat>, t: int) {
    forall i :: 0 <= i < |slots| && i >= t ==> slots[i] < |c| && c[slots[i]].y == 0
  }

  /** A frame of `count` parts fits, and what is remembered of the frames before agrees with it: either
      it is the frame counted last, or none has been counted yet. */
  predicate Counted(max: nat, lastNum: nat, toHide: int, count: nat) {
    && count <= max
    && (count == lastNum || (lastNum == max && toHide == 0))
  }

  predicate Bounded(max: nat, lastNum: nat, toHide: int) {
    lastNum <= max && 0 <= lastNum + toHide <= max
  }

  /** Counting another frame leaves the number of entries that may still be seen as it is. */
  lemma CountNext(max: nat, lastNum: nat, toHide: int, count: nat)
    requires Bounded(max, lastNum, toHide) && count <= max
    ensures Bounded(max, count, toHide + (lastNum - count)) && Counted(max, count, toHide + (lastNum - count), count)
    ensures lastNum == max && toHide == 0 ==> Counted(max, lastNum, toHide, count)
  {
  }

  /** After an update the entries from the counted frame on are hidden. */
  lemma UpdatedHides(c: seq<Attr>, c': seq<Attr>, slots: seq<nat>, v: View, mode: Mode, lastNum: nat)
    requires Updated(c, c', slots, v, mode, |slots|)
    requires Bounded(|slots|, lastNum, v.toHide) && Counted(|slots|, lastNum, v.toHide, |v.parts|)
    requires HiddenFrom(c, slots, lastNum + v.toHide)
    ensures HiddenFrom(c', slots, lastNum)
  {
    forall i | 0 <= i < |slots| && i >= lastNum ensures slots[i] < |c'| && c'[slots[i]].y == 0 {
      assert UpdatedAt(c, c', slots, v, mode, |slots|, i);
    }
  }

  lemma {:induction false} BitShift(mask: nat, i: nat)
    ensures Bit(mask / 2, i) == Bit(mask, i + 1)
  {
  }

  /** Part `i`, whose attribute and visibility the loops have at hand. */
  lemma GoalPart(v: View, mode: Mode, i: nat, e: Attr)
    requires i < |v.parts| && mode != Hide
    ensures Goal(v, mode, i, e) == PartOver(v, mode, i, e)
  {
  }

  lemma GoalHide(v: View, mode: Mode, i: nat, e: Attr)
    requires i < |v.parts| + v.toHide || i < |v.parts|
    requires i >= |v.parts| || mode == Hide
    ensures Goal(v, mode, i, e) == e.(y := 0)
  {
  }

  lemma AttrStep(v: View, mode: Mode, i: nat)
    requires i < |v.parts|
    ensures mode == All ==> Wrap16(AttrAt(v, mode, i) + v.parts[i].numTile) == AttrAt(v, mode, i + 1)
    ensures mode != All ==> AttrAt(v, mode, i) == AttrAt(v, mode, i + 1) == v.attribut
  {
    var a, b: nat := v.attribut + Tiles(v.parts, i), v.parts[i].numTile;
    WrapAdd(a, b);
  }

  // ----- The loops over the entries

  /** The loops of `updateSpriteTableAll` and `updateSpriteTablePos` over the parts of the frame. */
  method DrawParts(c: seq<Attr>, link: seq<nat>, v: View, mode: Mode, index: nat, ghost slots: seq<nat>)
    returns (cache: seq<Attr>, vdpSprite: nat)
    requires mode != Hide && Inner(link, slots) && Distinct(slots) && |c| == |link|
    requires |v.parts| <= |slots| && (slots != [] ==> slots[0] == index)
    ensures |v.parts| < |slots| ==> vdpSprite == slots[|v.parts|]
    ensures Updated(c, cache, slots, v, mode, |v.parts|)
  {
    hide Updated, Distinct, Goal, AttrAt, ShownAt, Bit, Tiles, Flag, Shifted, Inner;
    UpdatedStart(c, link, slots, v, mode);
    ShiftedNone(v.visibility);
    cache, vdpSprite := c, index;
    var attr, visibility, i: nat := v.attribut, v.visibility, 0;
    FirstAttr(v, mode);
    while i < |v.parts|
      invariant i <= |v.parts| && |cache| == |link|
      invariant i < |slots| ==> vdpSprite == slots[i]
      invariant attr == AttrAt(v, mode, i)
      invariant v.visibility == VISIBILITY_ON ==> visibility == VISIBILITY_ON
      invariant v.visibility != VISIBILITY_ON ==> Shifted(v.visibility, visibility, i)
      invariant Updated(c, cache, slots, v, mode, i)
    {
      UpdatedStep(c, cache, slots, v, mode, i);
      InnerAt(link, slots, i);
      GoalPart(v, mode, i, cache[slots[i]]);
      AttrStep(v, mode, i);
      var f, e := v.parts[i], cache[vdpSprite];
      var shown := v.visibility == VISIBILITY_ON || visibility % 2 == 1;
      ShownIs(v, visibility, i);
      if shown {
        e := e.(y := v.y + if Flag(attr, TILE_ATTR_VFLIP_MASK) then f.offsetYFlip else f.offsetY);
        e := e.(x := v.x + if Flag(attr, TILE_ATTR_HFLIP_MASK) then f.offsetXFlip else f.offsetX);
      } else {
        e := e.(y := 0);
      }
      if mode == All {
        e := e.(size := f.size, attribut := attr);
        attr := Wrap16(attr + f.numTile);
      }
      cache := cache[vdpSprite := e];
      if v.visibility != VISIBILITY_ON {
        ShiftAll(v.visibility, visibility, i);
        visibility := visibility / 2;
      }
      vdpSprite := link[vdpSprite];
      i := i + 1;
    }
  }

  /** The loops that hide `num` entries from the one reached. */
  method HideParts(c0: seq<Attr>, link: seq<nat>, v: View, mode: Mode, at: nat, start: nat, num: int,
                   ghost slots: seq<nat>, ghost c: seq<Attr>) returns (cache: seq<Attr>)
    requires Inner(link, slots) && Distinct(slots) && |c0| == |link|
    requires start + num <= |slots| && (start < |slots| ==> at == slots[start])
    requires Updated(c, c0, slots, v, mode, start)
    requires start + num <= |v.parts| || start + num <= |v.parts| + v.toHide
    requires start >= |v.parts| || mode == Hide
    ensures Updated(c, cache, slots, v, mode, if num > 0 then start + num else start)
  {
    hide Updated, Distinct, Goal, Inner;
    cache := c0;
    if num > 0 {
      var vdpSprite, i := at, 0;
      while i < num
        invariant 0 <= i <= num && |cache| == |link|
        invariant start + i < |slots| ==> vdpSprite == slots[start + i]
        invariant Updated(c, cache, slots, v, mode, start + i)
      {
        UpdatedStep(c, cache, slots, v, mode, start + i);
        InnerAt(link, slots, start + i);
        GoalHide(v, mode, start + i, c[slots[start + i]]);
        cache := cache[vdpSprite := cache[vdpSprite].(y := 0)];
        vdpSprite := link[vdpSprite];
        i := i + 1;
      }
    }
  }

  // ----- A sprite

  /** The fields of a sprite that its entries depend on, and the bits of its `status`. */
  datatype Sprite = Sprite(
    x: int, y: int, attribut: u16, visibility: u16, frame: Option<Frame>, lastNumSprite: nat, spriteToHide: int,
    needPos: bool, needAll: bool, needVisibility: bool, needFrame: bool,
    autoVisibility: bool, fastVisibility: bool, autoTileUpload: bool, disableDelayed: bool)

  /** The argument of `SPR_setVisibility`. */
  datatype SpriteVisibility = VISIBLE | HIDDEN | AUTO_FAST | AUTO_SLOW

  /** What the next update of a sprite depends on: the frame its animation is at, what the DMA queue can take and
      holds, and the visibility computed for it. */
  datatype Input = Input(next: Frame, capacity: nat, queued: nat, visibility: u16)

  /** The frame has at most as many parts as the definition announces, and its tiles are in video memory. */
  predicate Fits(i: Input, max: nat, attribut: u16) {
    |i.next.parts| <= max && TilesFit(attribut, i.next.parts)
  }

  function See(s: Sprite): View
    requires s.frame.Some?
  {
    View(s.x, s.y, s.attribut, s.visibility, s.frame.value.parts, s.spriteToHide)
  }

  /** The tiles of the frame do not carry into the attributes above the tile index. */
  predicate TilesFit(attribut: u16, parts: seq<FrameSprite>) {
    attribut % 0x800 + Tiles(parts, |parts|) < 0x800
  }

  /** Entry `i` shows what the sprite wants there: its part, or nothing. */
  predicate ShownEntry(v: View, i: nat, e: Attr) {
    if i < |v.parts| && ShownAt(v.visibility, i) then e == PartOver(v, All, i, e) else e.y == 0
  }

  /** What that means: a visible part (bit `i` of the visibility, from the lowest one, or all) is at its offset from
      the sprite, plain or flipped, with its size, its tiles after those of the parts before it; any other entry
      is hidden. */
  lemma EntryIs(v: View, i: nat, e: Attr)
    requires ShownEntry(v, i, e) && TilesFit(v.attribut, v.parts)
    ensures if i < |v.parts| && (v.visibility == 0xFFFF || (v.visibility / Pow2(i)) % 2 == 1) then
              var f := v.parts[i];
              && e.y == v.y + (if FlipsY(v.attribut) then f.offsetYFlip else f.offsetY)
              && e.x == v.x + (if FlipsX(v.attribut) then f.offsetXFlip else f.offsetX)
              && e.size == f.size && e.attribut == v.attribut + Tiles(v.parts, i)
            else e.y == 0
  {
    hide *;
    VisibleIs(v.visibility, i);
    EntryFields(v, i, e);
    if i < |v.parts| {
      FlagsAt(v, i);
    }
  }

  lemma VisibleIs(visibility: nat, i: nat)
    ensures ShownAt(visibility, i) <==> visibility == 0xFFFF || (visibility / Pow2(i)) % 2 == 1
  {
    BitIs(visibility, i);
    hide Bit, Pow2;
  }

  lemma EntryFields(v: View, i: nat, e: Attr)
    requires ShownEntry(v, i, e)
    ensures if i < |v.parts| && ShownAt(v.visibility, i) then
              var f, a := v.parts[i], AttrAt(v, All, i);
              && e.y == v.y + (if Flag(a, TILE_ATTR_VFLIP_MASK) then f.offsetYFlip else f.offsetY)
              && e.x == v.x + (if Flag(a, TILE_ATTR_HFLIP_MASK) then f.offsetXFlip else f.offsetX)
              && e.size == f.size && e.attribut == a
            else e.y == 0
  {
    hide AttrAt, ShownAt, Flag;
  }

  lemma FlagsAt(v: View, i: nat)
    requires i < |v.parts| && TilesFit(v.attribut, v.parts)
    ensures TILE_ATTR_VFLIP_MASK > 0 && TILE_ATTR_HFLIP_MASK > 0
    ensures var a := AttrAt(v, All, i);
            && a == v.attribut + Tiles(v.parts, i)
            && Flag(a, TILE_ATTR_VFLIP_MASK) == FlipsY(v.attribut) && Flag(a, TILE_ATTR_HFLIP_MASK) == FlipsX(v.attribut)
  {
    SameFlips(v.attribut, v.parts, i);
    TilesGrow(v.parts, i, |v.parts|);
    hide Tiles;
    SameUpper(v.attribut, Tiles(v.parts, i));
  }

  lemma {:induction false} BitIs(mask: nat, i: nat)
    ensures Bit(mask, i) <==> (mask / Pow2(i)) % 2 == 1
  {
    if i > 0 {
      BitIs(mask / 2, i - 1);
      DivDiv(mask, 2, Pow2(i - 1));
    }
  }

  /** A sprite that moves takes all its visible parts along. */
  lemma EntryMoves(v: View, dx: int, dy: int, i: nat, e: Attr, e': Attr)
    requires ShownEntry(v, i, e) && ShownEntry(v.(x := v.x + dx, y := v.y + dy), i, e')
    requires i < |v.parts| && (v.visibility == 0xFFFF || (v.visibility / Pow2(i)) % 2 == 1)
    ensures e'.x == e.x + dx && e'.y == e.y + dy && e'.size == e.size && e'.attribut == e.attribut
  {
    var v' := v.(x := v.x + dx, y := v.y + dy);
    SameAttr(v, v', i);
    hide *;
    VisibleIs(v.visibility, i);
    EntryFields(v, i, e);
    EntryFields(v', i, e');
  }

  /** All entries of the sprite do. */
  ghost predicate Shown(v: View, c: seq<Attr>, slots: seq<nat>) {
    forall i: nat :: i < |slots| ==> slots[i] < |c| && ShownEntry(v, i, c[slots[i]])
  }

  /** Sizes and attributes are those of the frame. */
  ghost predicate Dressed(v: View, c: seq<Attr>, slots: seq<nat>) {
    forall i: nat :: i < |slots| && i < |v.parts| ==>
      slots[i] < |c| && c[slots[i]].size == v.parts[i].size && c[slots[i]].attribut == AttrAt(v, All, i)
  }

  /** What holds of a sprite between two calls; `drawn` says whether its entries have been written since it was
      given them, the tiles of a frame loaded. */
  ghost predicate Good(s: Sprite, drawn: bool, c: seq<Attr>, slots: seq<nat>) {
    && slots != [] && Bounded(|slots|, s.lastNumSprite, s.spriteToHide)
    && HiddenFrom(c, slots, s.lastNumSprite + s.spriteToHide)
    && (s.needVisibility ==> s.autoVisibility)
    && (s.frame.None? ==> s.lastNumSprite == |slots| && s.spriteToHide == 0 && s.needFrame && !drawn)
    && (s.frame.Some? ==>
          && Counted(|slots|, s.lastNumSprite, s.spriteToHide, |s.frame.value.parts|)
          && TilesFit(s.attribut, s.frame.value.parts))
    && (!s.needFrame || drawn ==> s.frame.Some? && s.lastNumSprite == |s.frame.value.parts|)
    && (!drawn && !s.needFrame ==> s.needAll)
    && (drawn && !s.needAll ==> Dressed(See(s), c, slots))
    && (drawn && s.visibility == 0 && !s.needPos ==> HiddenFrom(c, slots, 0))
    && (drawn && s.visibility != 0 && !s.needPos && !s.needAll ==> Shown(See(s), c, slots))
  }

  /** The flips do not depend on the tiles before. */
  lemma SameFlips(attribut: u16, parts: seq<FrameSprite>, i: nat)
    requires i <= |parts| && TilesFit(attribut, parts)
    ensures var a := Wrap16(attribut + Tiles(parts, i));
            && Flag(a, TILE_ATTR_VFLIP_MASK) == Flag(attribut, TILE_ATTR_VFLIP_MASK)
            && Flag(a, TILE_ATTR_HFLIP_MASK) == Flag(attribut, TILE_ATTR_HFLIP_MASK)
  {
    TilesGrow(parts, i, |parts|);
    hide Tiles;
    SameUpper(attribut, Tiles(parts, i));
  }

  lemma {:induction false} TilesGrow(parts: seq<FrameSprite>, i: nat, j: nat)
    requires i <= j <= |parts|
    ensures Tiles(parts, i) <= Tiles(parts, j)
  {
    if i < j {
      TilesGrow(parts, i, j - 1);
    }
  }

  lemma SameUpper(a: u16, n: nat)
    requires a % 0x800 + n < 0x800
    ensures Wrap16(a + n) == a + n && (a + n) / 0x800 == a / 0x800 && (a + n) / 0x1000 == a / 0x1000
  {
    DivUnique(a + n, 0x800, a / 0x800, a % 0x800 + n);
    DivDiv(a + n, 0x800, 2);
    DivDiv(a, 0x800, 2);
    WrapIs(a + n, 0);
  }

  /** A full update shows the sprite. */
  lemma AllShows(c: seq<Attr>, c': seq<Attr>, slots: seq<nat>, v: View)
    requires Updated(c, c', slots, v, All, |slots|) && HiddenFrom(c', slots, |v.parts|)
    ensures Shown(v, c', slots) && Dressed(v, c', slots)
  {
    hide AttrAt, Flag, ShownAt;
    forall i: nat | i < |slots|
      ensures slots[i] < |c'| && ShownEntry(v, i, c'[slots[i]])
      ensures i < |v.parts| ==> c'[slots[i]].size == v.parts[i].size && c'[slots[i]].attribut == AttrAt(v, All, i)
    {
      assert UpdatedAt(c, c', slots, v, All, |slots|, i);
    }
  }

  /** So does an update of the positions, when sizes and attributes are there already. */
  lemma PosShows(c: seq<Attr>, c': seq<Attr>, slots: seq<nat>, v: View)
    requires Updated(c, c', slots, v, Pos, |slots|) && HiddenFrom(c', slots, |v.parts|)
    requires Dressed(v, c, slots) && TilesFit(v.attribut, v.parts)
    ensures Shown(v, c', slots) && Dressed(v, c', slots)
  {
    hide AttrAt, TilesFit, ShownAt, PartOver, ShownEntry;
    forall i: nat | i < |slots|
      ensures slots[i] < |c'| && ShownEntry(v, i, c'[slots[i]])
      ensures i < |v.parts| ==> c'[slots[i]].size == v.parts[i].size && c'[slots[i]].attribut == AttrAt(v, All, i)
    {
      assert UpdatedAt(c, c', slots, v, Pos, |slots|, i);
      if i < |v.parts| {
        PosPart(v, i, c[slots[i]]);
      } else {
        RestEntry(v, i, c'[slots[i]]);
      }
    }
  }

  lemma PosPart(v: View, i: nat, e: Attr)
    requires i < |v.parts| && TilesFit(v.attribut, v.parts)
    requires e.size == v.parts[i].size && e.attribut == AttrAt(v, All, i)
    ensures var e' := PartOver(v, Pos, i, e);
            ShownEntry(v, i, e') && e'.size == e.size && e'.attribut == e.attribut
  {
    SameFlips(v.attribut, v.parts, i);
    hide Flag, ShownAt, TilesFit, Wrap16, Tiles;
  }

  lemma RestEntry(v: View, i: nat, e: Attr)
    requires i >= |v.parts| && e.y == 0
    ensures ShownEntry(v, i, e)
  {
  }

  /** Hiding hides everything, and leaves the rest of the entries. */
  lemma HideHides(c: seq<Attr>, c': seq<Attr>, slots: seq<nat>, v: View)
    requires Updated(c, c', slots, v, Hide, |slots|) && HiddenFrom(c', slots, |v.parts|)
    ensures HiddenFrom(c', slots, 0) && (Dressed(v, c, slots) ==> Dressed(v, c', slots))
  {
    forall i: nat | i < |slots|
      ensures slots[i] < |c| == |c'| && c'[slots[i]].y == 0
      ensures c'[slots[i]].size == c[slots[i]].size && c'[slots[i]].attribut == c[slots[i]].attribut
    {
      assert UpdatedAt(c, c', slots, v, Hide, |slots|, i);
    }
    hide AttrAt, UpdatedAt;
  }

  /** A sprite just given entries, or a new definition (`SPR_addSpriteEx`, `SPR_setDefinition`). */
  lemma FreshGood(s: Sprite, c: seq<Attr>, slots: seq<nat>)
    requires slots != [] && s.frame.None? && s.needFrame && s.lastNumSprite == |slots| && s.spriteToHide == 0
    requires s.needVisibility ==> s.autoVisibility
    ensures Good(s, false, c, slots)
  {
  }

  /** Entries elsewhere do not matter. */
  lemma GoodKept(s: Sprite, drawn: bool, c: seq<Attr>, c': seq<Attr>, slots: seq<nat>)
    requires Good(s, drawn, c, slots) && |c| == |c'|
    requires forall i :: 0 <= i < |slots| ==> slots[i] < |c| && c'[slots[i]] == c[slots[i]]
    ensures Good(s, drawn, c', slots)
  {
    hide ShownEntry, AttrAt, Bounded, Counted, TilesFit;
  }

  // ----- What the calls and an update make of the fields of a sprite

  /** The tiles of the frame are to be uploaded and do not fit into the DMA queue. */
  predicate Delayed(s: Sprite, i: Input) {
    s.autoTileUpload && !s.disableDelayed && i.capacity != 0 && i.queued + i.next.numTile * 32 > i.capacity
  }

  /** The next frame, counted; one that is delayed is set all the same if it is the first. */
  function Framed(s: Sprite, i: Input): Sprite {
    var n := |i.next.parts|;
    if Delayed(s, i) then
      s.(frame := if s.frame.None? then Some(i.next) else s.frame)
    else
      s.(frame := Some(i.next), lastNumSprite := n, spriteToHide := s.spriteToHide + (s.lastNumSprite - n),
         needFrame := false, needAll := true, needVisibility := s.needVisibility || s.autoVisibility)
  }

  function Watched(s: Sprite, visibility: u16): Sprite {
    s.(visibility := visibility, needPos := s.needPos || s.visibility != visibility)
  }

  /** A sprite when an update comes to its entries. */
  function Prepared(s: Sprite, i: Input): (p: Sprite)
    ensures p.x == s.x && p.y == s.y && p.attribut == s.attribut && p.autoVisibility == s.autoVisibility
    ensures p.needFrame == (s.needFrame && Delayed(s, i))
    ensures p.frame == if s.needFrame && (s.frame.None? || !Delayed(s, i)) then Some(i.next) else s.frame
    ensures p.visibility == if s.needVisibility || (s.needFrame && !Delayed(s, i) && s.autoVisibility) then i.visibility else s.visibility
    ensures p.needPos == (s.needPos || p.visibility != s.visibility)
    ensures p.needAll == (s.needAll || (s.needFrame && !Delayed(s, i)))
  {
    var f := if s.needFrame then Framed(s, i) else s;
    if f.needVisibility then Watched(f, i.visibility).(needVisibility := false) else f
  }

  /** The update its entries then get. */
  function Writes(p: Sprite): Option<Mode> {
    if p.visibility == 0 then (if p.needPos then Some(Hide) else None)
    else if p.needAll then Some(All) else if p.needPos then Some(Pos) else None
  }

  /** And the sprite after it: there is nothing left to write. */
  function Written(p: Sprite): Sprite {
    p.(needPos := false, needAll := p.needAll && p.visibility == 0, spriteToHide := if Writes(p) == None then p.spriteToHide else 0)
  }

  /** What becomes of its entry `a`. */
  function EntryAfter(p: Sprite, a: nat, e: Attr): Attr {
    if Writes(p) == None || p.frame.None? then e else Goal(See(p), Writes(p).value, a, e)
  }

  /** That becomes of all its entries. */
  ghost predicate EntriesAfter(c: seq<Attr>, c': seq<Attr>, slots: seq<nat>, p: Sprite) {
    |c'| == |c| && forall a: nat :: a < |slots| ==> slots[a] < |c| && c'[slots[a]] == EntryAfter(p, a, c[slots[a]])
  }

  /** And nothing of the others. */
  ghost predicate Rewritten(c: seq<Attr>, c': seq<Attr>, slots: seq<nat>, p: Sprite) {
    && EntriesAfter(c, c', slots, p)
    && (forall x: nat :: x < |c| && x !in slots ==> c'[x] == c[x])
  }

  /** The number of entries that hiding a sprite reaches. */
  function HiddenBy(p: Sprite): nat {
    if Writes(p) == None || p.frame.None? then 0
    else |p.frame.value.parts| + if p.spriteToHide > 0 then p.spriteToHide else 0
  }

  /** `SPR_setPosition`. */
  function Positioned(s: Sprite, x: int, y: int): Sprite {
    if s.x == x + 0x80 && s.y == y + 0x80 then s
    else s.(x := x + 0x80, y := y + 0x80, needPos := true, needVisibility := s.needVisibility || s.autoVisibility)
  }

  /** The setters of flips, priority and palette. */
  function Attributed(s: Sprite, attribut: u16): Sprite {
    if s.attribut == attribut then s
    else s.(attribut := attribut, needAll := true,
            needVisibility := s.needVisibility || (s.autoVisibility && !SameFlip(s.attribut, attribut)))
  }

  predicate SameFlip(a: u16, b: u16) {
    Flag(a, TILE_ATTR_VFLIP_MASK) == Flag(b, TILE_ATTR_VFLIP_MASK) && Flag(a, TILE_ATTR_HFLIP_MASK) == Flag(b, TILE_ATTR_HFLIP_MASK)
  }

  /** `SPR_setVisibility`. */
  function Revealed(s: Sprite, value: SpriteVisibility): Sprite {
    if value.AUTO_FAST? then
      if !s.autoVisibility || !s.fastVisibility then s.(autoVisibility := true, fastVisibility := true, needVisibility := true) else s
    else if value.AUTO_SLOW? then
      if !s.autoVisibility then s.(autoVisibility := true, needVisibility := true)
      else if s.fastVisibility then s.(fastVisibility := false, needVisibility := true)
      else s
    else
      var r := Watched(s, if value.VISIBLE? then VISIBILITY_ON else 0);
      if s.autoVisibility then r.(autoVisibility := false, fastVisibility := false, needVisibility := false) else r
  }

  /** A frame is delayed only if its tiles are to be uploaded, in time, and the queue has no room for their bytes. */
  lemma DelayedIs(s: Sprite, i: Input)
    ensures !s.autoTileUpload || s.disableDelayed || i.capacity == 0 ==> !Delayed(s, i)
    ensures i.queued + 32 * i.next.numTile <= i.capacity ==> !Delayed(s, i)
    ensures s.autoTileUpload && !s.disableDelayed && 0 < i.capacity < i.queued + 32 * i.next.numTile ==> Delayed(s, i)
  {
  }

  /** A sprite with automatic visibility that is moved or flipped has its visibility computed anew by the next
      update; the others keep theirs. */
  lemma AutoFollows(s: Sprite, i: Input, x: int, y: int, attribut: u16)
    ensures s.autoVisibility && (s.x != x + 0x80 || s.y != y + 0x80) ==> Prepared(Positioned(s, x, y), i).visibility == i.visibility
    ensures s.autoVisibility && (FlipsX(s.attribut) != FlipsX(attribut) || FlipsY(s.attribut) != FlipsY(attribut)) ==>
              Prepared(Attributed(s, attribut), i).visibility == i.visibility
    ensures !s.autoVisibility && !s.needVisibility ==>
              && Prepared(Positioned(s, x, y), i).visibility == s.visibility
              && Prepared(Attributed(s, attribut), i).visibility == s.visibility
    ensures FlipsX(s.attribut) == FlipsX(attribut) && FlipsY(s.attribut) == FlipsY(attribut) && !s.needVisibility && !s.needFrame ==>
              Prepared(Attributed(s, attribut), i).visibility == s.visibility
    ensures s.x == x + 0x80 && s.y == y + 0x80 ==> Positioned(s, x, y) == s
  {
    hide Delayed, Prepared;
  }

  /** A sprite shown or hidden keeps that visibility, and a change of it is written by the next update. */
  lemma ShownOrHidden(s: Sprite, i: Input)
    requires s.needVisibility ==> s.autoVisibility
    ensures var r := Prepared(Revealed(s, VISIBLE), i);
            r.visibility == 0xFFFF && !r.autoVisibility && (s.visibility != 0xFFFF ==> r.needPos)
    ensures var r := Prepared(Revealed(s, HIDDEN), i);
            r.visibility == 0 && !r.autoVisibility && (s.visibility != 0 ==> r.needPos)
  {
    hide Delayed, Prepared;
  }

  /** With automatic visibility it is computed anew by the next update, unless it was already computed that way. */
  lemma RevealedFast(s: Sprite, i: Input)
    ensures var r := Revealed(s, AUTO_FAST);
            && r.autoVisibility && r.fastVisibility && r.visibility == s.visibility
            && (!s.autoVisibility || !s.fastVisibility ==> Prepared(r, i).visibility == i.visibility)
            && (s.autoVisibility && s.fastVisibility ==> r == s)
  {
    hide Delayed, Prepared, Watched;
  }

  lemma RevealedSlow(s: Sprite, i: Input)
    ensures var r := Revealed(s, AUTO_SLOW);
            && r.autoVisibility && r.fastVisibility == (s.fastVisibility && !s.autoVisibility) && r.visibility == s.visibility
            && (!s.autoVisibility || s.fastVisibility ==> Prepared(r, i).visibility == i.visibility)
            && (s.autoVisibility && !s.fastVisibility ==> r == s)
  {
    hide Delayed, Prepared, Watched;
  }

  // ----- The operations on a sprite

  /** `updateFrame`: `next` is the frame of the current animation, and `capacity` and `queued` what the DMA
      queue can take and holds. */
  method UpdateFrame(s: Sprite, i: Input, ghost drawn: bool, ghost c: seq<Attr>, ghost slots: seq<nat>) returns (r: Sprite)
    requires Good(s, drawn, c, slots) && Fits(i, |slots|, s.attribut)
    ensures r == Framed(s, i)
    ensures Good(r, drawn, c, slots) && r.frame.Some?
    ensures r.lastNumSprite + r.spriteToHide == s.lastNumSprite + s.spriteToHide
  {
    hide *;
    FramedIs(s, i);
    FramedGood(s, i, drawn, c, slots);
    r := s;
    var next := i.next;
    if r.autoTileUpload && !r.disableDelayed {
      if i.capacity != 0 && i.queued + next.numTile * 32 > i.capacity {
        if s.frame.None? {
          r := r.(frame := Some(next));
        }
        return;
      }
    }
    var currentNumSprite := |next.parts|;
    r := r.(spriteToHide := r.spriteToHide + (r.lastNumSprite - currentNumSprite));
    r := r.(lastNumSprite := currentNumSprite, frame := Some(next));
    if r.autoVisibility {
      r := r.(needVisibility := true);
    }
    r := r.(needFrame := false, needAll := true);
  }

  lemma FramedIs(s: Sprite, i: Input)
    ensures var n := |i.next.parts|;
            Framed(s, i) ==
            if s.autoTileUpload && !s.disableDelayed && i.capacity != 0 && i.queued + i.next.numTile * 32 > i.capacity then
              s.(frame := if s.frame.None? then Some(i.next) else s.frame)
            else
              s.(frame := Some(i.next), lastNumSprite := n, spriteToHide := s.spriteToHide + (s.lastNumSprite - n),
                 needFrame := false, needAll := true, needVisibility := s.needVisibility || s.autoVisibility)
  {
  }

  /** A first frame that is delayed is set all the same; any other is counted. */
  lemma FramedGood(s: Sprite, i: Input, drawn: bool, c: seq<Attr>, slots: seq<nat>)
    requires Good(s, drawn, c, slots) && Fits(i, |slots|, s.attribut)
    ensures var r := Framed(s, i);
            && Good(r, drawn, c, slots) && r.frame.Some? && r.lastNumSprite + r.spriteToHide == s.lastNumSprite + s.spriteToHide
  {
    hide HiddenFrom, Shown, Dressed, TilesFit, Bounded, Counted, Delayed;
    CountNext(|slots|, s.lastNumSprite, s.spriteToHide, |i.next.parts|);
  }

  /** `setVisibility`. */
  method ChangeVisibility(s: Sprite, newVisibility: u16, ghost drawn: bool, ghost c: seq<Attr>, ghost slots: seq<nat>) returns (r: Sprite)
    requires Good(s, drawn, c, slots)
    ensures Good(r, drawn, c, slots) && r == Watched(s, newVisibility)
  {
    hide Good;
    r := s;
    GoodFlag(s, drawn, c, slots);
    if r.visibility != newVisibility {
      r := r.(visibility := newVisibility, needPos := true);
      MovedGood(s, r, drawn, c, slots);
    }
  }

  /** A sprite that is to be shown elsewhere, or in other parts. */
  lemma MovedGood(s: Sprite, r: Sprite, drawn: bool, c: seq<Attr>, slots: seq<nat>)
    requires Good(s, drawn, c, slots) && (r.needVisibility ==> r.autoVisibility)
    requires r == s.(x := r.x, y := r.y, visibility := r.visibility, needPos := true, needVisibility := r.needVisibility)
    ensures Good(r, drawn, c, slots)
  {
    hide HiddenFrom, Bounded, Counted, TilesFit;
    if s.frame.Some? {
      DressedView(s, r, c, slots);
    }
    hide Shown, Dressed;
  }

  /** How the visibility is computed does not matter to what is shown. */
  lemma FlagsGood(s: Sprite, r: Sprite, drawn: bool, c: seq<Attr>, slots: seq<nat>)
    requires Good(s, drawn, c, slots) && (r.needVisibility ==> r.autoVisibility)
    requires r == s.(needVisibility := r.needVisibility, autoVisibility := r.autoVisibility, fastVisibility := r.fastVisibility)
    ensures Good(r, drawn, c, slots)
  {
    hide HiddenFrom, Bounded, Counted, TilesFit, Shown, Dressed;
  }

  lemma GoodFlag(s: Sprite, drawn: bool, c: seq<Attr>, slots: seq<nat>)
    requires Good(s, drawn, c, slots)
    ensures s.needVisibility ==> s.autoVisibility
  {
  }

  /** `SPR_setVisibility`. */
  method SetVisibility(s: Sprite, value: SpriteVisibility, ghost drawn: bool, ghost c: seq<Attr>, ghost slots: seq<nat>) returns (r: Sprite)
    requires Good(s, drawn, c, slots)
    ensures Good(r, drawn, c, slots) && r == Revealed(s, value)
  {
    hide Good;
    r := s;
    GoodFlag(s, drawn, c, slots);
    if value == VISIBLE || value == HIDDEN {
      r := ChangeVisibility(r, if value == VISIBLE then VISIBILITY_ON else 0, drawn, c, slots);
    }
    ghost var w := r;
    if r.autoVisibility {
      match value
      case VISIBLE =>
        r := r.(autoVisibility := false, fastVisibility := false, needVisibility := false);
      case HIDDEN =>
        r := r.(autoVisibility := false, fastVisibility := false, needVisibility := false);
      case AUTO_FAST =>
        if !r.fastVisibility {
          r := r.(fastVisibility := true, needVisibility := true);
        }
      case AUTO_SLOW =>
        if r.fastVisibility {
          r := r.(fastVisibility := false, needVisibility := true);
        }
    } else {
      match value
      case AUTO_FAST =>
        r := r.(autoVisibility := true, fastVisibility := true, needVisibility := true);
      case AUTO_SLOW =>
        r := r.(autoVisibility := true, needVisibility := true);
      case _ =>
    }
    FlagsGood(w, r, drawn, c, slots);
  }

  /** Sizes and attributes depend on the frame and the attributes alone. */
  lemma DressedView(s: Sprite, r: Sprite, c: seq<Attr>, slots: seq<nat>)
    requires s.frame == r.frame && s.attribut == r.attribut && s.frame.Some?
    ensures Dressed(See(s), c, slots) <==> Dressed(See(r), c, slots)
  {
    var v, v' := See(s), See(r);
    assert v'.parts == v.parts && v'.attribut == v.attribut;
    hide AttrAt, See;
    forall i: nat | i < |v.parts| ensures AttrAt(v, All, i) == AttrAt(v', All, i) {
      SameAttr(v, v', i);
    }
  }

  lemma SameAttr(v: View, v': View, i: nat)
    requires v.parts == v'.parts && v.attribut == v'.attribut && i <= |v.parts|
    ensures AttrAt(v, All, i) == AttrAt(v', All, i)
  {
  }

  /** `SPR_setPosition`. */
  method SetPosition(s: Sprite, x: int, y: int, ghost drawn: bool, ghost c: seq<Attr>, ghost slots: seq<nat>) returns (r: Sprite)
    requires Good(s, drawn, c, slots)
    ensures Good(r, drawn, c, slots) && r == Positioned(s, x, y)
  {
    hide *;
    PositionedIs(s, x, y);
    GoodFlag(s, drawn, c, slots);
    r := s;
    if r.x != x + 0x80 || r.y != y + 0x80 {
      r := r.(x := x + 0x80, y := y + 0x80);
      if r.autoVisibility {
        r := r.(needVisibility := true);
      }
      r := r.(needPos := true);
      MovedGood(s, r, drawn, c, slots);
    }
  }

  lemma PositionedIs(s: Sprite, x: int, y: int)
    ensures Positioned(s, x, y) == if s.x == x + 0x80 && s.y == y + 0x80 then s
                                   else s.(x := x + 0x80, y := y + 0x80, needPos := true, needVisibility := s.needVisibility || s.autoVisibility)
  {
  }

  /** The setters of flips, priority and palette: the attributes above the tile index change. */
  method SetAttribut(s: Sprite, attribut: u16, ghost drawn: bool, ghost c: seq<Attr>, ghost slots: seq<nat>) returns (r: Sprite)
    requires Good(s, drawn, c, slots) && attribut % 0x800 == s.attribut % 0x800
    ensures Good(r, drawn, c, slots) && r == Attributed(s, attribut)
  {
    hide HiddenFrom, Bounded, Counted, Shown, Dressed, Tiles;
    r := s;
    if r.attribut != attribut {
      r := r.(attribut := attribut, needAll := true);
      if r.autoVisibility && !SameFlip(s.attribut, attribut) {
        r := r.(needVisibility := true);
      }
    }
  }

  /** `SPR_setAnimAndFrame` and the like: another frame is asked for. */
  method RequestFrame(s: Sprite, ghost drawn: bool, ghost c: seq<Attr>, ghost slots: seq<nat>) returns (r: Sprite)
    requires Good(s, drawn, c, slots)
    ensures Good(r, drawn, c, slots) && r == s.(needFrame := true)
  {
    hide HiddenFrom, Bounded, Counted, TilesFit, Shown, Dressed;
    r := s.(needFrame := true);
  }

  /** `updateSpriteTableAll`, `updateSpriteTablePos` and `updateSpriteTableHide`. */
  method UpdateTable(s: Sprite, c: seq<Attr>, link: seq<nat>, index: nat, mode: Mode, ghost slots: seq<nat>)
    returns (cache: seq<Attr>)
    requires s.frame.Some? && Inner(link, slots) && Distinct(slots) && |c| == |link| && slots != [] && slots[0] == index
    requires Bounded(|slots|, s.lastNumSprite, s.spriteToHide)
    requires Counted(|slots|, s.lastNumSprite, s.spriteToHide, |s.frame.value.parts|)
    requires HiddenFrom(c, slots, s.lastNumSprite + s.spriteToHide)
    ensures Updated(c, cache, slots, See(s), mode, |slots|) && HiddenFrom(cache, slots, s.lastNumSprite)
  {
    hide Updated, HiddenFrom, Inner, Distinct;
    var v := See(s);
    var n := |v.parts|;
    UpdatedStart(c, link, slots, v, mode);
    if mode == Hide {
      if s.spriteToHide > 0 {
        n := n + s.spriteToHide;
      }
      cache := HideParts(c, link, v, Hide, index, 0, n, slots, c);
    } else {
      var vdpSprite;
      cache, vdpSprite := DrawParts(c, link, v, mode, index, slots);
      UpdatedSize(c, cache, slots, v, mode, |v.parts|);
      cache := HideParts(cache, link, v, mode, vdpSprite, |v.parts|, s.spriteToHide, slots, c);
      if s.spriteToHide > 0 {
        n := n + s.spriteToHide;
      }
    }
    UpdatedRest(c, cache, slots, v, mode, n);
    UpdatedHides(c, cache, slots, v, mode, s.lastNumSprite);
  }

  /** The part of `SPR_update` that writes the entries of one sprite, if it has to. */
  method WriteTable(s: Sprite, c: seq<Attr>, link: seq<nat>, index: nat, ghost drawn: bool, ghost slots: seq<nat>)
    returns (r: Sprite, cache: seq<Attr>, written: Option<Mode>)
    requires Good(s, drawn, c, slots) && s.frame.Some?
    requires Inner(link, slots) && Distinct(slots) && |c| == |link| && slots[0] == index
    ensures Good(r, drawn || (written != None && !s.needFrame), cache, slots)
    ensures r == Written(s) && written == Writes(s)
    ensures written == None ==> cache == c
    ensures written != None ==> Updated(c, cache, slots, See(s), written.value, |slots|)
  {
    hide *;
    WritesIs(s);
    r, cache, written := s, c, None;
    if s.visibility == 0 {
      if s.needPos {
        written := Some(Hide);
      }
    } else {
      if s.needAll {
        written := Some(All);
      } else if s.needPos {
        written := Some(Pos);
      }
      r := r.(needAll := false);
    }
    r := r.(needPos := false);
    if written != None {
      GoodCounts(s, drawn, c, slots);
      cache := UpdateTable(s, c, link, index, written.value, slots);
      r := r.(spriteToHide := 0);
      WrittenGood(s, drawn, c, cache, slots, written.value);
    } else {
      UnwrittenGood(s, drawn, c, slots);
    }
  }

  lemma WritesIs(s: Sprite)
    ensures Writes(s) == if s.visibility == 0 then (if s.needPos then Some(Hide) else None)
                         else if s.needAll then Some(All) else if s.needPos then Some(Pos) else None
    ensures Written(s) == s.(needPos := false, needAll := s.needAll && s.visibility == 0,
                             spriteToHide := if Writes(s) == None then s.spriteToHide else 0)
  {
  }

  lemma GoodCounts(s: Sprite, drawn: bool, c: seq<Attr>, slots: seq<nat>)
    requires Good(s, drawn, c, slots) && s.frame.Some?
    ensures slots != [] && Bounded(|slots|, s.lastNumSprite, s.spriteToHide)
    ensures Counted(|slots|, s.lastNumSprite, s.spriteToHide, |s.frame.value.parts|)
    ensures HiddenFrom(c, slots, s.lastNumSprite + s.spriteToHide)
  {
  }

  lemma UnwrittenGood(s: Sprite, drawn: bool, c: seq<Attr>, slots: seq<nat>)
    requires Good(s, drawn, c, slots) && s.frame.Some? && Writes(s) == None
    ensures Good(Written(s), drawn, c, slots)
  {
    hide HiddenFrom, TilesFit, Shown, Dressed, Bounded, Counted;
  }

  /** An update, and what is remembered after it. */
  lemma WrittenGood(s: Sprite, drawn: bool, c: seq<Attr>, c': seq<Attr>, slots: seq<nat>, mode: Mode)
    requires Good(s, drawn, c, slots) && s.frame.Some?
    requires Updated(c, c', slots, See(s), mode, |slots|) && HiddenFrom(c', slots, s.lastNumSprite)
    requires Writes(s) == Some(mode)
    ensures Good(Written(s), drawn || !s.needFrame, c', slots)
  {
    var v, r := See(s), Written(s);
    hide Updated, HiddenFrom, TilesFit, Shown, Dressed;
    if drawn || !s.needFrame {
      ShownView(s, r, c', slots);
      match mode
      case All => AllShows(c, c', slots, v);
      case Pos => PosShows(c, c', slots, v);
      case Hide => HideHides(c, c', slots, v);
    }
  }

  /** What is still to be hidden does not matter to what is shown. */
  lemma ShownView(s: Sprite, r: Sprite, c: seq<Attr>, slots: seq<nat>)
    requires s.frame.Some? && r == s.(needPos := r.needPos, needAll := r.needAll, spriteToHide := r.spriteToHide)
    ensures Shown(See(s), c, slots) <==> Shown(See(r), c, slots)
    ensures Dressed(See(s), c, slots) <==> Dressed(See(r), c, slots)
  {
    DressedView(s, r, c, slots);
    var v, v' := See(s), See(r);
    assert v' == v.(toHide := v'.toHide);
    hide ShownEntry, See, Dressed;
    forall i: nat | i < |slots| && slots[i] < |c| ensures ShownEntry(v, i, c[slots[i]]) <==> ShownEntry(v', i, c[slots[i]]) {
      SameEntry(v, v'.toHide, i, c[slots[i]]);
    }
  }

  lemma SameEntry(v: View, toHide: int, i: nat, e: Attr)
    ensures ShownEntry(v, i, e) <==> ShownEntry(v.(toHide := toHide), i, e)
  {
    hide Flag, ShownAt, Wrap16, Tiles;
  }

  /** What `SPR_update` does for one sprite; `visibility` is what `updateVisibility` computes. Once its entries are
      drawn they show exactly its visible parts, or nothing when it is hidden, whether the next frame is delayed
      or not. Before, a hidden sprite leaves what its entries held, but for those that hiding reaches. */
  method Process(s: Sprite, c: seq<Attr>, link: seq<nat>, index: nat, i: Input, ghost drawn: bool, ghost slots: seq<nat>)
    returns (r: Sprite, cache: seq<Attr>, ghost drawn': bool)
    requires Good(s, drawn, c, slots) && (s.needFrame ==> Fits(i, |slots|, s.attribut))
    requires Inner(link, slots) && Distinct(slots) && |c| == |link| && slots[0] == index
    ensures Good(r, drawn', cache, slots)
    ensures r == Written(Prepared(s, i)) && Rewritten(c, cache, slots, Prepared(s, i))
    ensures drawn' <==> drawn || (Writes(Prepared(s, i)) != None && !r.needFrame)
    ensures drawn' ==> if r.visibility != 0 then r.frame.Some? && Shown(See(r), cache, slots) else HiddenFrom(cache, slots, 0)
    ensures r.visibility != 0 && !r.needFrame ==> drawn'
    ensures r.visibility == 0 ==> (HiddenFrom(cache, slots, 0) <==> HiddenFrom(c, slots, HiddenBy(Prepared(s, i))))
  {
    hide *;
    r, cache, drawn' := s, c, drawn;
    FrameIs(s, drawn, c, slots);
    ghost var p := Prepared(s, i);
    NothingToDo(s, i);
    if s.needPos || s.needAll || s.needVisibility || s.needFrame {
      r := Prepare(s, i, drawn, c, slots);
      var written;
      r, cache, written := WriteTable(r, c, link, index, drawn, slots);
      drawn' := drawn || (written != None && !p.needFrame);
    }
    WrittenIs(p);
    RewrittenBy(c, cache, link, slots, p);
    Settled(r, drawn', cache, slots);
  }

  /** The frame and the visibility of a sprite, before its entries are written. */
  method Prepare(s: Sprite, i: Input, ghost drawn: bool, ghost c: seq<Attr>, ghost slots: seq<nat>) returns (r: Sprite)
    requires Good(s, drawn, c, slots) && (s.needFrame ==> Fits(i, |slots|, s.attribut))
    ensures Good(r, drawn, c, slots) && r.frame.Some? && r == Prepared(s, i)
  {
    hide Good, Fits;
    r := s;
    FrameIs(s, drawn, c, slots);
    if r.needFrame {
      r := UpdateFrame(r, i, drawn, c, slots);
    }
    if r.needVisibility {
      r := ChangeVisibility(r, i.visibility, drawn, c, slots);
      ghost var w := r;
      r := r.(needVisibility := false);
      FlagsGood(w, r, drawn, c, slots);
    }
  }

  lemma FrameIs(s: Sprite, drawn: bool, c: seq<Attr>, slots: seq<nat>)
    requires Good(s, drawn, c, slots)
    ensures s.frame.None? ==> s.needFrame
  {
  }

  /** A sprite that needs nothing is left as it is. */
  lemma NothingToDo(s: Sprite, i: Input)
    ensures !(s.needPos || s.needAll || s.needVisibility || s.needFrame) ==> Prepared(s, i) == Written(s) == s && Writes(s) == None
  {
  }

  lemma WrittenIs(p: Sprite)
    ensures var r := Written(p);
            && !r.needPos && (r.visibility != 0 ==> !r.needAll)
            && r.visibility == p.visibility && r.needFrame == p.needFrame && r.frame == p.frame
  {
  }

  lemma RewrittenBy(c: seq<Attr>, c': seq<Attr>, link: seq<nat>, slots: seq<nat>, p: Sprite)
    requires p.frame.Some? && Inner(link, slots) && |c| == |link|
    requires if Writes(p) == None then c' == c else Updated(c, c', slots, See(p), Writes(p).value, |slots|)
    ensures Rewritten(c, c', slots, p)
    ensures p.visibility == 0 ==> (HiddenFrom(c', slots, 0) <==> HiddenFrom(c, slots, HiddenBy(p)))
  {
    hide Inner, Goal;
    forall a: nat | a < |slots| ensures slots[a] < |c| && c'[slots[a]] == EntryAfter(p, a, c[slots[a]]) {
      InnerAt(link, slots, a);
      if Writes(p) != None {
        assert UpdatedAt(c, c', slots, See(p), Writes(p).value, |slots|, a);
      }
    }
    if p.visibility == 0 {
      HidesExactly(c, c', slots, p);
    }
  }

  lemma HidesExactly(c: seq<Attr>, c': seq<Attr>, slots: seq<nat>, p: Sprite)
    requires EntriesAfter(c, c', slots, p) && p.frame.Some? && p.visibility == 0
    ensures HiddenFrom(c', slots, 0) <==> HiddenFrom(c, slots, HiddenBy(p))
  {
    var n := HiddenBy(p);
    forall a: nat | a < |slots| ensures c'[slots[a]].y == if a < n then 0 else c[slots[a]].y {
    }
    if HiddenFrom(c', slots, 0) {
      forall a | 0 <= a < |slots| && a >= n ensures slots[a] < |c| && c[slots[a]].y == 0 {
        assert c'[slots[a]].y == 0;
      }
    }
  }

  /** With nothing left to write, a sprite that is drawn is shown exactly, or hidden; and a visible one is drawn
      unless it still waits for its frame. */
  lemma Settled(s: Sprite, drawn: bool, c: seq<Attr>, slots: seq<nat>)
    requires Good(s, drawn, c, slots) && !s.needPos && (s.visibility != 0 ==> !s.needAll)
    ensures drawn && s.visibility != 0 ==> s.frame.Some? && Shown(See(s), c, slots)
    ensures drawn && s.visibility == 0 ==> HiddenFrom(c, slots, 0)
    ensures s.visibility != 0 && !s.needFrame ==> drawn
  {
  }

  lemma UpdatedSize(c: seq<Attr>, c': seq<Attr>, slots: seq<nat>, v: View, mode: Mode, n: nat)
    requires Updated(c, c', slots, v, mode, n)
    ensures |c'| == |c|
  {
  }

  lemma UpdatedStart(c: seq<Attr>, link: seq<nat>, slots: seq<nat>, v: View, mode: Mode)
    requires Inner(link, slots) && |c| == |link|
    ensures Updated(c, c, slots, v, mode, 0)
  {
  }

  /** `mask` is `mask0` with its first `i` bits shifted out. */
  ghost predicate Shifted(mask0: nat, mask: nat, i: nat) {
    forall j: nat :: Bit(mask, j) == Bit(mask0, i + j)
  }

  lemma ShiftedNone(mask: nat)
    ensures Shifted(mask, mask, 0)
  {
  }

  lemma FirstAttr(v: View, mode: Mode)
    ensures AttrAt(v, mode, 0) == v.attribut
  {
  }

  lemma ShownIs(v: View, mask: nat, i: nat)
    requires v.visibility != VISIBILITY_ON ==> Shifted(v.visibility, mask, i)
    ensures ShownAt(v.visibility, i) <==> v.visibility == VISIBILITY_ON || mask % 2 == 1
  {
    assert v.visibility != VISIBILITY_ON ==> Bit(mask, 0) == Bit(v.visibility, i + 0);
  }

  lemma ShiftAll(mask0: nat, mask: nat, i: nat)
    requires Shifted(mask0, mask, i)
    ensures Shifted(mask0, mask / 2, i + 1)
  {
    forall j: nat ensures Bit(mask / 2, j) == Bit(mask0, i + 1 + j) {
      BitShift(mask, j);
      assert Bit(mask, j + 1) == Bit(mask0, i + (j + 1));
    }
  }
}
