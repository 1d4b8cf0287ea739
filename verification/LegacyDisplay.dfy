/** The whole legacy sprite engine of `src/sprite_eng_legacy.c`: the list and its mirror in the hardware links
    (`LegacySprites`) together with what the entries hold (`LegacyFrames`). */
module LegacyDisplay {
  import opened Machine
  import opened SpriteLists
  import opened VdpSprites
  import opened LegacySprites
  import opened Frames
  import opened LegacyFrames

  // ----- Entries of different sprites

  lemma {:induction false} InFlatten(slots: seq<seq<nat>>, l: seq<nat>, s: nat, x: nat)
    requires InRange(l, |slots|) && s in l && s < |slots|
    ensures x in slots[s] ==> x in Flatten(slots, l)
  {
    if l[0] != s {
      assert l == [l[0]] + l[1..];
      InFlatten(slots, l[1..], s, x);
    }
  }

  /** No entry belongs to two sprites, and the starter to none. */
  lemma EntryOnce(t: Sat, slots: seq<seq<nat>>, l: seq<nat>, k: nat, x: nat)
    requires Mirrors(t, slots, l) && k < |l| && l[k] < |slots| && x in slots[l[k]]
    ensures x != 0 && forall j :: 0 <= j < |l| && j != k && l[j] < |slots| ==> x !in slots[l[j]]
  {
    hide Everyone, Flatten, Chained, Owns;
    MirrorsParts(t, slots, l);
    hide Mirrors;
    TakeOut(t, slots, l, k);
    var r := RemoveAt(l, k);
    var rest := Chain(slots, r);
    OnceIn(Chain(slots, l), rest, slots[l[k]], t.stack[..t.free], x);
    assert rest[0] == 0;
    OwnedRange(t, slots, r);
    forall j | 0 <= j < |l| && j != k && l[j] < |slots| ensures x !in slots[l[j]] {
      assert r[if j < k then j else j - 1] == l[j];
      InFlatten(slots, r, l[j], x);
    }
  }

  lemma OnceIn(w: seq<nat>, a: seq<nat>, b: seq<nat>, free: seq<nat>, x: nat)
    requires multiset(w) == multiset(a) + multiset(b) && multiset(w) + multiset(free) == Everyone(SAT_MAX_SIZE)
    requires x in b
    ensures x !in a
  {
    hide Everyone;
    EveryoneOnce(SAT_MAX_SIZE, x);
    assert multiset(b)[x] > 0;
    assert multiset(w)[x] + multiset(free)[x] <= 1;
    assert x in a <==> multiset(a)[x] > 0;
  }

  /** The entries of sprite `k`, fit to be written. */
  lemma PieceReady(t: Sat, slots: seq<seq<nat>>, l: seq<nat>, k: nat)
    requires Mirrors(t, slots, l) && k < |l|
    ensures l[k] < |slots| && l[k] < |t.num| && l[k] < |t.index| && |t.link| == CACHE_SIZE
    ensures Inner(t.link, slots[l[k]]) && Distinct(slots[l[k]])
    ensures slots[l[k]] != [] && slots[l[k]][0] == t.index[l[k]] && |slots[l[k]]| == t.num[l[k]]
  {
    hide Everyone, Flatten, Chained;
    MirrorsParts(t, slots, l);
    ShapeIs(t, slots, l);
    hide Mirrors;
    RemovedOwned(t, slots, l, k);
    OwnsIs(t, slots, l[k]);
    InnerOfChain(t, slots, l, k);
    DistinctPiece(t, slots, l, k);
  }

  lemma DistinctPiece(t: Sat, slots: seq<seq<nat>>, l: seq<nat>, k: nat)
    requires Owned(t, slots, l) && k < |l| && Distinct(Chain(slots, l))
    ensures l[k] < |slots| && Distinct(slots[l[k]])
  {
    RemovedOwned(t, slots, l, k);
    PutBack(l, k);
    var r := RemoveAt(l, k);
    hide RemoveAt, InsertAt, Owned, InRange;
    Around(t, slots, r, k, l[k]);
    var a, s, b := Chain(slots, r[..k]), slots[l[k]], Flatten(slots, r[k..]);
    hide Chain, Flatten;
    var w := a + s + b;
    forall i, j | 0 <= i < j < |s| ensures s[i] != s[j] {
      assert w[|a| + i] == s[i] && w[|a| + j] == s[j];
      Apart(w, |a| + i, |a| + j);
    }
  }

  // ----- All sprites

  ghost predicate AllGood(sp: seq<Sprite>, drawn: seq<bool>, c: seq<Attr>, slots: seq<seq<nat>>, l: seq<nat>) {
    && |sp| == |drawn| == |slots| && InRange(l, |slots|)
    && forall i :: 0 <= i < |l| ==> GoodAt(sp, drawn, c, slots, l[i])
  }

  ghost predicate GoodAt(sp: seq<Sprite>, drawn: seq<bool>, c: seq<Attr>, slots: seq<seq<nat>>, s: nat) {
    s < |sp| && s < |drawn| && s < |slots| && Good(sp[s], drawn[s], c, slots[s])
  }

  /** A list of some of the sprites. */
  lemma SomeGood(sp: seq<Sprite>, drawn: seq<bool>, c: seq<Attr>, slots: seq<seq<nat>>, l: seq<nat>, l': seq<nat>)
    requires AllGood(sp, drawn, c, slots, l) && forall i :: 0 <= i < |l'| ==> l'[i] in l
    ensures AllGood(sp, drawn, c, slots, l')
  {
    hide GoodAt;
    forall i | 0 <= i < |l'| ensures l'[i] < |slots| && GoodAt(sp, drawn, c, slots, l'[i]) {
      var j :| 0 <= j < |l| && l[j] == l'[i];
    }
  }

  /** A sprite with new entries. */
  lemma NewGood(sp: seq<Sprite>, drawn: seq<bool>, c: seq<Attr>, slots: seq<seq<nat>>, l: seq<nat>, l': seq<nat>,
                s: nat, n: Sprite, slots': seq<seq<nat>>)
    requires AllGood(sp, drawn, c, slots, l) && s < |slots| == |slots'|
    requires forall i :: 0 <= i < |l'| ==> l'[i] in l || l'[i] == s
    requires forall x :: 0 <= x < |slots| && x != s ==> slots'[x] == slots[x]
    requires slots'[s] != [] && n.frame.None? && n.needFrame && n.lastNumSprite == |slots'[s]| && n.spriteToHide == 0
    requires n.needVisibility ==> n.autoVisibility
    ensures AllGood(sp[s := n], drawn[s := false], c, slots', l')
  {
    FreshGood(n, c, slots'[s]);
    hide Good;
    forall i | 0 <= i < |l'| ensures l'[i] < |slots'| && GoodAt(sp[s := n], drawn[s := false], c, slots', l'[i]) {
      if l'[i] != s {
        var j :| 0 <= j < |l| && l[j] == l'[i];
        assert GoodAt(sp, drawn, c, slots, l[j]);
      }
    }
  }

  /** One sprite changed, and its own entries alone. */
  lemma OneGood(sp: seq<Sprite>, drawn: seq<bool>, c: seq<Attr>, slots: seq<seq<nat>>, l: seq<nat>, t: Sat, k: nat,
                r: Sprite, d: bool, c': seq<Attr>)
    requires AllGood(sp, drawn, c, slots, l) && Mirrors(t, slots, l) && k < |l| && l[k] < |slots|
    requires Good(r, d, c', slots[l[k]])
    requires |c'| == |c| == CACHE_SIZE && forall x: nat :: x < |c| && x !in slots[l[k]] ==> c'[x] == c[x]
    requires Distinct(l)
    ensures AllGood(sp[l[k] := r], drawn[l[k] := d], c', slots, l)
  {
    hide Mirrors, Good;
    forall i | 0 <= i < |l| ensures GoodAt(sp[l[k] := r], drawn[l[k] := d], c', slots, l[i]) {
      assert GoodAt(sp, drawn, c, slots, l[i]);
      if i != k {
        Apart(l, i, k);
        OtherEntries(slots, l, t, k, i, c, c');
        GoodKept(sp[l[i]], drawn[l[i]], c, c', slots[l[i]]);
      }
    }
  }

  lemma OtherEntries(slots: seq<seq<nat>>, l: seq<nat>, t: Sat, k: nat, i: nat, c: seq<Attr>, c': seq<Attr>)
    requires Mirrors(t, slots, l) && k < |l| && i < |l| && i != k && l[k] < |slots| && l[i] < |slots|
    requires |c'| == |c| == CACHE_SIZE && forall x: nat :: x < |c| && x !in slots[l[k]] ==> c'[x] == c[x]
    ensures forall a :: 0 <= a < |slots[l[i]]| ==> slots[l[i]][a] < |c| && c'[slots[l[i]][a]] == c[slots[l[i]][a]]
  {
    PieceReady(t, slots, l, i);
    hide Mirrors;
    forall a | 0 <= a < |slots[l[i]]| ensures slots[l[i]][a] < |c| && c'[slots[l[i]][a]] == c[slots[l[i]][a]] {
      EntryOnce(t, slots, l, i, slots[l[i]][a]);
    }
  }

  // ----- Runs

  /** The calls on a sprite, and all others. */
  datatype SpriteCall = Release | Depth(value: int) | Definition(count: nat, tile: nat) | Position(x: int, y: int) |
    Attributes(attribut: u16) | Visibility(visibility: SpriteVisibility) | Animate

  datatype Event =
    | Adding(head: bool, count: nat, vram: bool, x: int, y: int, attribut: u16,
             autoVisibility: bool, fastVisibility: bool, autoTileUpload: bool, disableDelayed: bool)
    | Updating(inputs: seq<Input>)
    | On(sprite: nat, call: SpriteCall)

  /** What there is to see of the engine between two calls: the list, the fields of the sprites, whether each was drawn
      since it was given its entries, those entries, the free ones, what all of them hold, and the depths. */
  datatype Shot = Shot(list: seq<nat>, sprites: seq<Sprite>, drawn: seq<bool>, slots: seq<seq<nat>>, free: seq<nat>, cache: seq<Attr>,
                       depth: seq<int>)

  ghost predicate Sized(a: Shot) {
    |a.sprites| == |a.drawn| == |a.slots| == |a.depth| && |a.cache| == CACHE_SIZE && InRange(a.list, |a.sprites|)
  }

  /** The sprite `SPR_addSpriteEx` makes. */
  function Created(e: Event): Sprite
    requires e.Adding?
  {
    Sprite(e.x + 0x80, e.y + 0x80, e.attribut, if e.autoVisibility then 0 else VISIBILITY_ON, None, e.count, 0,
           false, false, false, true, e.autoVisibility, e.fastVisibility, e.autoTileUpload, e.disableDelayed)
  }

  /** A sprite with a new definition of `count` hardware sprites, its tiles at `tile`. */
  function Redefined(s: Sprite, count: nat, tile: nat): Sprite
    requires tile < 0x800
  {
    s.(attribut := s.attribut - s.attribut % 0x800 + tile, frame := None, lastNumSprite := count, spriteToHide := 0, needFrame := true)
  }

  ghost predicate Joined(a: Shot, e: Event, b: Shot, s: nat)
    requires Sized(a) && e.Adding? && e.count <= |a.free|
  {
    && s < |a.sprites| && s !in a.list
    && b == Shot(if e.head then [s] + a.list else a.list + [s], a.sprites[s := Created(e)], a.drawn[s := false],
                 a.slots[s := Top(a.free, e.count)], Below(a.free, e.count), a.cache,
                 a.depth[s := if e.head then MIN_DEPTH else MAX_DEPTH])
  }

  /** A call that adds no sprite may still stack the free entries anew, and touch a sprite that is not in the list. */
  ghost predicate NotAdded(a: Shot, b: Shot) {
    && b == a.(slots := b.slots, free := b.free, depth := b.depth) && |b.slots| == |a.slots| && |b.depth| == |a.depth|
    && multiset(b.free) == multiset(a.free)
    && (forall s: nat :: s in a.list && s < |a.slots| ==> b.slots[s] == a.slots[s])
    && (forall s: nat :: s in a.list && s < |a.depth| ==> b.depth[s] == a.depth[s])
  }

  /** It succeeds exactly when there are a sprite, entries and video memory for it. */
  ghost predicate AddStep(a: Shot, e: Event, b: Shot)
    requires Sized(a) && e.Adding?
  {
    if e.count == 0 || |a.list| == |a.sprites| || e.count > |a.free| || !e.vram then NotAdded(a, b)
    else exists s :: Joined(a, e, b, s)
  }

  /** The frame is fit for the sprite, or not asked for. */
  predicate Ready(s: Sprite, entries: nat, i: Input) {
    s.needFrame ==> Fits(i, entries, s.attribut)
  }

  /** The fields and the entries of a sprite, untouched. */
  ghost predicate Same(a: Shot, b: Shot, s: nat)
    requires Sized(a) && Sized(b) && s < |a.sprites| && |b.sprites| == |a.sprites|
  {
    && b.sprites[s] == a.sprites[s] && b.drawn[s] == a.drawn[s]
    && forall k: nat :: k < |a.slots[s]| ==> a.slots[s][k] < CACHE_SIZE && b.cache[a.slots[s][k]] == a.cache[a.slots[s][k]]
  }

  /** The fields and the entries of a sprite, updated. */
  ghost predicate Turned(a: Shot, b: Shot, s: nat, i: Input)
    requires Sized(a) && Sized(b) && s < |a.sprites| && |b.sprites| == |a.sprites|
  {
    var p := Prepared(a.sprites[s], i);
    if !Ready(a.sprites[s], |a.slots[s]|, i) then Same(a, b, s)
    else
      && b.sprites[s] == Written(p)
      && b.drawn[s] == (a.drawn[s] || (Writes(p) != None && !p.needFrame))
      && EntriesAfter(a.cache, b.cache, a.slots[s], p)
  }

  /** `SPR_update`: every sprite of the list is brought up to date, and nothing else changes. */
  ghost predicate UpdateStep(a: Shot, inputs: seq<Input>, b: Shot)
    requires Sized(a) && |inputs| == |a.sprites|
  {
    && b == a.(sprites := b.sprites, drawn := b.drawn, cache := b.cache) && Sized(b)
    && (forall s: nat :: s in a.list ==> Turned(a, b, s, inputs[s]))
    && (forall s: nat :: s < |a.sprites| && s !in a.list ==> b.sprites[s] == a.sprites[s] && b.drawn[s] == a.drawn[s])
    && (forall x: nat :: x < CACHE_SIZE && (forall s: nat :: s in a.list ==> x !in a.slots[s]) ==> b.cache[x] == a.cache[x])
  }

  /** A call on a sprite of the list. Definition changes that would fail are left out. */
  ghost predicate CallStep(a: Shot, s: nat, call: SpriteCall, b: Shot)
    requires Sized(a) && s in a.list
  {
    match call
    case Release => exists k: nat :: Released(a, s, b, k)
    case Depth(value) =>
      if MIN_DEPTH <= value <= MAX_DEPTH then b == a.(list := b.list, depth := a.depth[s := value]) && exists k: nat, j: nat :: MovedOnly(a.list, b.list, s, k, j)
      else b == a
    case Definition(count, tile) => if CanDefine(a, s, count, tile) then Defined(a, s, count, tile, b) else b == a
    case Position(x, y) => b == Sets(a, s, Positioned(a.sprites[s], x, y))
    case Attributes(attribut) => b == if attribut % 0x800 == a.sprites[s].attribut % 0x800 then Sets(a, s, Attributed(a.sprites[s], attribut)) else a
    case Visibility(value) => b == Sets(a, s, Revealed(a.sprites[s], value))
    case Animate => b == Sets(a, s, a.sprites[s].(needFrame := true))
  }

  function Sets(a: Shot, s: nat, r: Sprite): Shot
    requires s < |a.sprites|
  {
    a.(sprites := a.sprites[s := r])
  }

  ghost predicate Released(a: Shot, s: nat, b: Shot, k: nat)
    requires Sized(a) && s in a.list
  {
    k < |a.list| && a.list[k] == s && b == a.(list := RemoveAt(a.list, k), free := a.free + a.slots[s])
  }

  ghost predicate CanDefine(a: Shot, s: nat, count: nat, tile: nat)
    requires s < |a.slots|
  {
    count >= 1 && tile < 0x800 && (count == |a.slots[s]| || count <= |a.free| + |a.slots[s]|)
  }

  ghost predicate Defined(a: Shot, s: nat, count: nat, tile: nat, b: Shot)
    requires Sized(a) && s < |a.sprites| && CanDefine(a, s, count, tile)
  {
    var f := a.free + a.slots[s];
    var c := a.(sprites := a.sprites[s := Redefined(a.sprites[s], count, tile)], drawn := a.drawn[s := false]);
    b == if count == |a.slots[s]| then c else c.(slots := a.slots[s := Top(f, count)], free := Below(f, count))
  }

  /** What one call does. Calls on sprites that are not in the list, and updates with inputs for other than all
      sprites, are none. */
  ghost predicate Step(a: Shot, e: Event, b: Shot) {
    && Sized(a)
    && match e
       case Adding(_, _, _, _, _, _, _, _, _, _) => AddStep(a, e, b)
       case Updating(inputs) => if |inputs| == |a.sprites| then UpdateStep(a, inputs, b) else b == a
       case On(s, call) => if s in a.list then CallStep(a, s, call, b) else b == a
  }

  /** What the entries of a sprite hold after an update, when its frame is fit for it: exactly its visible parts, or
      nothing if it is hidden. A delayed frame matters only to a sprite that was not drawn before; and so does
      being hidden, when hiding it has nothing to write. */
  ghost predicate OnScreen(a: Shot, b: Shot, s: nat, i: Input)
    requires Sized(a) && Sized(b) && s < |a.sprites| && |b.sprites| == |a.sprites|
  {
    var old', new' := a.sprites[s], b.sprites[s];
    Ready(old', |a.slots[s]|, i) ==>
      && (new'.visibility != 0 && (a.drawn[s] || !(old'.needFrame && Delayed(old', i))) ==>
            new'.frame.Some? && Shown(See(new'), b.cache, a.slots[s]))
      && (new'.visibility == 0 && a.drawn[s] ==> HiddenFrom(b.cache, a.slots[s], 0))
      && (new'.visibility == 0 ==>
            (HiddenFrom(b.cache, a.slots[s], 0) <==> HiddenFrom(a.cache, a.slots[s], HiddenBy(Prepared(old', i)))))
  }

  /** After an update that is true of all sprites of the list. */
  ghost predicate AllOnScreen(a: Shot, e: Event, b: Shot) {
    Sized(a) && e.Updating? && |e.inputs| == |a.sprites| ==>
      Sized(b) && |b.sprites| == |a.sprites| && forall s: nat :: s in a.list ==> OnScreen(a, b, s, e.inputs[s])
  }

  ghost predicate Sound(a: Shot) {
    Sized(a) && AllGood(a.sprites, a.drawn, a.cache, a.slots, a.list) && Sorted(a.depth, a.list)
  }

  ghost predicate Steps(trace: seq<Shot>, events: seq<Event>) {
    && |trace| == |events| + 1
    && (forall k :: 0 <= k < |trace| ==> Sound(trace[k]))
    && (forall k :: 0 <= k < |events| ==> Step(trace[k], events[k], trace[k + 1]))
  }

  // ----- The engine

  class Display {
    const engine: LegacyEngine
    /** `vdpSpriteCache`, without the links. */
    var cache: seq<Attr>
    /** The fields of the sprites of the pool. */
    var sprites: seq<Sprite>

    /** Whether a sprite was drawn since it was given its entries. */
    ghost var drawn: seq<bool>

    ghost predicate Valid()
      reads this, engine, engine.vdp, engine.sprites
    {
      && engine.Valid() && |cache| == CACHE_SIZE && cache[0].y == 0
      && AllGood(sprites, drawn, cache, engine.slots, engine.sprites.list)
    }

    ghost function Now(): Shot
      reads this, engine, engine.vdp, engine.sprites
    {
      Shot(engine.sprites.list, sprites, drawn, engine.slots, engine.Free(), cache, engine.sprites.depth)
    }

    /** What `Valid` and `Now` stand for. */
    lemma ValidIs()
      ensures Valid() <==>
                && engine.Valid() && |cache| == CACHE_SIZE && cache[0].y == 0
                && AllGood(sprites, drawn, cache, engine.slots, engine.sprites.list)
      ensures Now() == Shot(engine.sprites.list, sprites, drawn, engine.slots, engine.Free(), cache, engine.sprites.depth)
    {
      hide AllGood;
    }

    lemma NowIs()
      ensures Now() == Shot(engine.sprites.list, sprites, drawn, engine.slots, engine.Free(), cache, engine.sprites.depth)
    {
    }

    lemma SizedNow()
      requires Valid()
      ensures Sized(Now()) && Sound(Now()) && engine.vdp.free == |engine.Free()|
      ensures forall s :: s in engine.sprites.list ==> s < |engine.num| && s < |engine.slots| && |engine.slots[s]| == engine.num[s]
    {
      hide *;
      ValidIs();
      engine.TableIs();
      engine.FreeIs();
      var l := engine.sprites.list;
      ShapeIs(engine.Table(), engine.slots, l);
      GoodSizes(sprites, drawn, cache, engine.slots, l);
      Constants();
      engine.sprites.InOrder();
      SoundIs(Now());
      forall s | s in l ensures s < |engine.num| && s < |engine.slots| && |engine.slots[s]| == engine.num[s] {
        var k: nat := IndexOf(l, s);
        EntriesOf(engine.Table(), engine.slots, l, k);
      }
    }

    /** `SPR_init`: the starter is hidden, whatever the table holds. */
    constructor (n: nat, cache: seq<Attr>, sprites: seq<Sprite>)
      requires |cache| == CACHE_SIZE && |sprites| == n
      ensures Valid() && fresh(engine) && fresh(engine.vdp) && fresh(engine.sprites)
      ensures Now().list == [] && Now().sprites == sprites && |Now().free| == SAT_MAX_SIZE - 1
      ensures |Now().cache| == |cache| > 0 && forall x :: 0 < x < |cache| ==> Now().cache[x] == cache[x]
    {
      hide *;
      engine := new LegacyEngine(n);
      this.cache := if |cache| > 0 then cache[0 := cache[0].(y := 0)] else cache;
      this.sprites, drawn := sprites, seq(n, _ => false);
      new;
      Constants();
      NoneGood(this.sprites, drawn, this.cache, engine.slots);
      ValidIs();
      SizedNow();
    }

    /** `SPR_addSpriteEx` (with automatic allocation). */
    method AddSprite(e: Event) returns (result: int)
      requires Valid() && e.Adding? && e.count >= 1
      modifies this, engine, engine.vdp, engine.sprites
      ensures Valid() && Step(old(Now()), e, Now())
      ensures if result == NULL then engine.sprites.list == old(engine.sprites.list)
              else result >= 0 && engine.sprites.list == if e.head then [result] + old(engine.sprites.list) else old(engine.sprites.list) + [result]
      ensures result != NULL ==>
                && 0 <= result < |sprites|
                && var s := sprites[result];
                && s.x == e.x + 0x80 && s.y == e.y + 0x80 && s.attribut == e.attribut
                && s.visibility == (if e.autoVisibility then 0 else 0xFFFF) && s.frame == None && s.needFrame
                && s.autoVisibility == e.autoVisibility && s.fastVisibility == e.fastVisibility
                && s.autoTileUpload == e.autoTileUpload && s.disableDelayed == e.disableDelayed
    {
      hide *;
      ghost var l, slots, a := engine.sprites.list, engine.slots, Now();
      ValidIs();
      Constants();
      SizedNow();
      result := engine.AddSprite(e.head, e.count, e.vram);
      NullIs();
      GoodSizes(sprites, drawn, cache, slots, l);
      if result == NULL {
        KeptSlots(sprites, drawn, cache, slots, l, engine.slots);
        ValidIs();
        AddedNone(a, e, Now());
        return;
      }
      var s := Created(e);
      CreatedFresh(e);
      EndsMembers(l, result, e.head);
      TopSize(a.free, e.count);
      NewGood(sprites, drawn, cache, slots, l, engine.sprites.list, result, s, engine.slots);
      sprites := sprites[result := s];
      drawn := drawn[result := false];
      ValidIs();
      AddedOne(a, e, Now(), result);
    }

    /** `SPR_releaseSprite`. */
    method ReleaseSprite(sprite: nat)
      requires Valid() && sprite < |sprites|
      modifies engine.vdp, engine.sprites
      ensures Valid() && Step(old(Now()), On(sprite, SpriteCall.Release), Now())
    {
      hide *;
      ghost var l, a := engine.sprites.list, Now();
      ValidIs();
      SizedNow();
      GoodSizes(sprites, drawn, cache, engine.slots, l);
      engine.ReleaseSprite(sprite);
      ghost var k: nat := 0;
      if sprite in l {
        k :| k < |l| && l[k] == sprite && engine.sprites.list == RemoveAt(l, k);
        RemoveMembers(l, k);
      }
      SomeGood(sprites, drawn, cache, engine.slots, l, engine.sprites.list);
      ValidIs();
      ReleasedOne(a, sprite, Now(), k);
    }

    /** `SPR_setDepth`. */
    method SetDepth(sprite: nat, value: int)
      requires Valid() && sprite in engine.sprites.list && MIN_DEPTH <= value <= MAX_DEPTH
      modifies engine.vdp`link, engine.sprites
      ensures Valid() && Step(old(Now()), On(sprite, SpriteCall.Depth(value)), Now())
    {
      hide *;
      ghost var l, a := engine.sprites.list, Now();
      ValidIs();
      SizedNow();
      engine.FreeIs();
      engine.SetDepth(sprite, value);
      engine.FreeIs();
      ghost var k: nat, j: nat :| MovedOnly(l, engine.sprites.list, sprite, k, j);
      MovedMembers(l, engine.sprites.list, sprite, k, j);
      SomeGood(sprites, drawn, cache, engine.slots, l, engine.sprites.list);
      ValidIs();
      DeepOne(a, sprite, value, Now(), k, j);
    }

    /** `SPR_setDefinition`; like the original it leaves things half done when it fails. */
    method SetDefinition(sprite: nat, count: nat, tile: nat, vram: bool) returns (ok: bool)
      requires Valid() && sprite in engine.sprites.list && count >= 1 && tile < 0x800
      requires sprite < |sprites| && sprite < |engine.num|
      modifies this, engine, engine.vdp
      ensures ok <==> vram && (count == old(engine.num)[sprite] || count <= old(engine.vdp.free) + old(engine.num)[sprite])
      ensures ok ==> Valid() && Step(old(Now()), On(sprite, Definition(count, tile)), Now())
      ensures ok ==>
                && sprite < |sprites| == |old(sprites)|
                && var r, r' := old(sprites)[sprite], sprites[sprite];
                && r'.attribut % 0x800 == tile && r'.attribut / 0x800 == r.attribut / 0x800
                && r'.x == r.x && r'.y == r.y && r'.visibility == r.visibility && r'.frame == None && r'.needFrame
    {
      hide *;
      ghost var l, slots, a := engine.sprites.list, engine.slots, Now();
      ValidIs();
      SizedNow();
      GoodSizes(sprites, drawn, cache, slots, l);
      ghost var k: nat := IndexOf(l, sprite);
      GoodOne(sprites, drawn, cache, slots, l, k);
      GoodFlag(sprites[sprite], drawn[sprite], cache, slots[sprite]);
      RedefinedFresh(sprites[sprite], count, tile);
      ok := engine.SetDefinition(sprite, count, vram);
      if ok {
        var s := Redefined(sprites[sprite], count, tile);
        engine.TableIs();
        PieceReady(engine.Table(), engine.slots, l, k);
        NewGood(sprites, drawn, cache, slots, l, l, sprite, s, engine.slots);
        sprites := sprites[sprite := s];
        drawn := drawn[sprite := false];
        ValidIs();
        DefinedOne(a, sprite, count, tile, Now());
      }
    }

    /** What is known of the sprite at place `k` of the list, and what its own entries can be changed to. */
    lemma SpriteIs(k: nat)
      requires Valid() && k < |engine.sprites.list|
      ensures var s, slots := engine.sprites.list[k], engine.slots;
              && s < |sprites| == |drawn| == |slots| && s < |engine.num| && s < |engine.index|
              && Good(sprites[s], drawn[s], cache, slots[s])
              && Inner(engine.vdp.link, slots[s]) && Distinct(slots[s]) && |cache| == |engine.vdp.link| == CACHE_SIZE
              && slots[s] != [] && slots[s][0] == engine.index[s] && |slots[s]| == engine.num[s]
      ensures 0 !in engine.slots[engine.sprites.list[k]] && Mirrors(engine.Table(), engine.slots, engine.sprites.list)
      ensures Distinct(engine.sprites.list)
    {
      hide *;
      ValidIs();
      engine.TableIs();
      engine.sprites.NeighboursAre(k);
      var l := engine.sprites.list;
      GoodSizes(sprites, drawn, cache, engine.slots, l);
      GoodOne(sprites, drawn, cache, engine.slots, l, k);
      PieceReady(engine.Table(), engine.slots, l, k);
      if 0 in engine.slots[l[k]] {
        EntryOnce(engine.Table(), engine.slots, l, k, 0);
      }
    }

    /** The sprite at place `k` replaced, and its entries rewritten. */
    method Replace(sprite: nat, ghost k: nat, r: Sprite, c: seq<Attr>, ghost d: bool)
      requires Valid() && k < |engine.sprites.list| && engine.sprites.list[k] == sprite
      requires sprite < |sprites| == |drawn| == |engine.slots| && Good(r, d, c, engine.slots[sprite])
      requires |c| == |cache| && forall x: nat :: x < |c| && x !in engine.slots[sprite] ==> c[x] == cache[x]
      modifies this
      ensures Valid() && sprites == old(sprites)[sprite := r] && cache == c && drawn == old(drawn)[sprite := d]
    {
      hide *;
      SpriteIs(k);
      ValidIs();
      Constants();
      OneGood(sprites, drawn, cache, engine.slots, engine.sprites.list, engine.Table(), k, r, d, c);
      sprites, cache, drawn := sprites[sprite := r], c, drawn[sprite := d];
      ValidIs();
    }

    /** A call that only sets fields. */
    method Set(sprite: nat, ghost k: nat, r: Sprite, ghost call: SpriteCall)
      requires Valid() && k < |engine.sprites.list| && engine.sprites.list[k] == sprite
      requires sprite < |sprites| == |drawn| == |engine.slots| && Good(r, drawn[sprite], cache, engine.slots[sprite])
      requires Asks(sprites[sprite], call, r)
      modifies this
      ensures Valid() && Step(old(Now()), On(sprite, call), Now())
      ensures engine.sprites.list == old(engine.sprites.list) && |sprites| == |old(sprites)|
    {
      hide *;
      ghost var a := Now();
      ValidIs();
      SizedNow();
      Replace(sprite, k, r, cache, drawn[sprite]);
      ValidIs();
      SameDrawn(a.drawn, sprite);
      SetOne(a, sprite, call, r, Now());
    }

    /** `SPR_setPosition`. */
    method SetPosition(sprite: nat, x: int, y: int)
      requires Valid() && sprite in engine.sprites.list
      modifies this
      ensures Valid() && Step(old(Now()), On(sprite, Position(x, y)), Now())
    {
      hide *;
      ghost var k: nat := IndexOf(engine.sprites.list, sprite);
      SpriteIs(k);
      var r := LegacyFrames.SetPosition(sprites[sprite], x, y, drawn[sprite], cache, engine.slots[sprite]);
      AsksIs(sprites[sprite], Position(x, y), r);
      Set(sprite, k, r, Position(x, y));
    }

    /** The setters of flips, priority and palette. */
    method SetAttribut(sprite: nat, attribut: u16)
      requires Valid() && sprite in engine.sprites.list && sprite < |sprites| && attribut % 0x800 == sprites[sprite].attribut % 0x800
      modifies this
      ensures Valid() && Step(old(Now()), On(sprite, Attributes(attribut)), Now())
    {
      hide *;
      ghost var k: nat := IndexOf(engine.sprites.list, sprite);
      SpriteIs(k);
      var r := LegacyFrames.SetAttribut(sprites[sprite], attribut, drawn[sprite], cache, engine.slots[sprite]);
      AsksIs(sprites[sprite], Attributes(attribut), r);
      Set(sprite, k, r, Attributes(attribut));
    }

    /** `SPR_setVisibility`. */
    method SetVisibility(sprite: nat, value: SpriteVisibility)
      requires Valid() && sprite in engine.sprites.list
      modifies this
      ensures Valid() && Step(old(Now()), On(sprite, Visibility(value)), Now())
    {
      hide *;
      ghost var k: nat := IndexOf(engine.sprites.list, sprite);
      SpriteIs(k);
      var r := LegacyFrames.SetVisibility(sprites[sprite], value, drawn[sprite], cache, engine.slots[sprite]);
      AsksIs(sprites[sprite], Visibility(value), r);
      Set(sprite, k, r, Visibility(value));
    }

    /** `SPR_setAnimAndFrame` and the like. */
    method RequestFrame(sprite: nat)
      requires Valid() && sprite in engine.sprites.list
      modifies this
      ensures Valid() && Step(old(Now()), On(sprite, Animate), Now())
    {
      hide *;
      ghost var k: nat := IndexOf(engine.sprites.list, sprite);
      SpriteIs(k);
      var r := LegacyFrames.RequestFrame(sprites[sprite], drawn[sprite], cache, engine.slots[sprite]);
      AsksIs(sprites[sprite], Animate, r);
      Set(sprite, k, r, Animate);
    }

    /** One turn of `SPR_update`, for the sprite at place `k`: those before it have been brought up to date since `a`,
        the others not yet. */
    method UpdateOne(sprite: nat, inputs: seq<Input>, ghost k: nat, ghost a: Shot)
      requires Valid() && k < |engine.sprites.list| && engine.sprites.list[k] == sprite
      requires Midway(a, inputs, Now(), k)
      modifies this
      ensures Valid() && Midway(a, inputs, Now(), k + 1)
    {
      hide *;
      SpriteIs(k);
      ValidIs();
      SizedNow();
      ghost var b := Now();
      MidwaySizes(a, inputs, b, k);
      var i := inputs[sprite];
      ReadyIs(sprites[sprite], engine.num[sprite], i);
      if !sprites[sprite].needFrame || Fits(i, engine.num[sprite], sprites[sprite].attribut) {
        var r, c;
        ghost var d;
        r, c, d := Process(sprites[sprite], cache, engine.vdp.link, engine.index[sprite], i, drawn[sprite], engine.slots[sprite]);
        RewrittenIs(cache, c, engine.slots[sprite], Prepared(sprites[sprite], i));
        WrittenIs(Prepared(sprites[sprite], i));
        Replace(sprite, k, r, c, d);
        ValidIs();
        engine.FreeIs();
        MidwayDone(a, inputs, b, Now(), k, engine.Table());
      } else {
        MidwayLeft(a, inputs, b, k);
      }
    }

    lemma ListReady()
      requires Valid()
      ensures Distinct(engine.sprites.list) && Mirrors(engine.Table(), engine.slots, engine.sprites.list)
    {
      hide *;
      ValidIs();
      engine.TableIs();
      NoneTwice(engine.sprites.list);
      if engine.sprites.list != [] {
        SpriteIs(0);
      }
    }

    /** `SPR_update`: along the list, every sprite is brought up to date. The hardware, following the links from
        the hidden starter, then visits the entries of the sprites in list order, and what they show is told
        by `OnScreen`. */
    method Update(inputs: seq<Input>)
      requires Valid() && |inputs| == |sprites|
      modifies this
      ensures Valid() && Step(old(Now()), Updating(inputs), Now()) && AllOnScreen(old(Now()), Updating(inputs), Now())
      ensures engine.sprites.list == old(engine.sprites.list)
    {
      hide *;
      ghost var a := Now();
      ValidIs();
      SizedNow();
      NullIs();
      ghost var l := engine.sprites.list;
      ListReady();
      MidwayStart(a, inputs, engine.Table());
      engine.TableIs();
      engine.sprites.FirstIs();
      var sprite := engine.sprites.firstSprite;
      ghost var i: nat := 0;
      while sprite != NULL
        invariant Valid() && i <= |l| && sprite == At(l, i)
        invariant Midway(a, inputs, Now(), i)
        decreases |l| - i
      {
        AtIs(l, i);
        engine.sprites.NeighboursAre(i);
        UpdateOne(sprite, inputs, i, a);
        sprite := engine.sprites.next[sprite];
        i := i + 1;
      }
      AtIs(l, i);
      ValidIs();
      SizedNow();
      MidwayEnd(a, inputs, Now());
      AllShown(a, inputs, Now());
    }

    /** Any sequence of calls does, one after the other, what `Step` says, and every update shows what `OnScreen` says. At its end the hardware visits the entries of the sprites in list order, after the
        starter, which is hidden. */
    method Run(events: seq<Event>) returns (ghost trace: seq<Shot>)
      requires Valid()
      modifies this, engine, engine.vdp, engine.sprites
      ensures Valid() && Steps(trace, events) && (forall k :: 0 <= k < |events| ==> AllOnScreen(trace[k], events[k], trace[k + 1]))
      ensures trace[0] == old(Now()) && trace[|events|] == Now()
      ensures InRange(Now().list, |Now().slots|)
      ensures Visit(engine.vdp.link, 0, SAT_MAX_SIZE) == Chain(Now().slots, Now().list) && |cache| > 0 && cache[0].y == 0
    {
      hide *;
      trace := [Now()];
      SizedNow();
      NoSteps(trace, events);
      for i := 0 to |events|
        invariant Valid() && |trace| == i + 1 && trace[i] == Now() && trace[0] == old(Now())
        invariant Steps(trace, events[..i])
      {
        Apply(events[i]);
        SizedNow();
        StepsOn(trace, events, i, Now());
        trace := trace + [Now()];
      }
      assert events[..|events|] == events;
      StepsShow(trace, events);
      Visited();
    }

    lemma Visited()
      requires Valid()
      ensures InRange(Now().list, |Now().slots|) && |cache| > 0 && cache[0].y == 0
      ensures Visit(engine.vdp.link, 0, SAT_MAX_SIZE) == Chain(Now().slots, Now().list)
    {
      hide *;
      ValidIs();
      Constants();
      engine.TableIs();
      var l := engine.sprites.list;
      MirrorsVisit(engine.Table(), engine.slots, l);
      MirrorsParts(engine.Table(), engine.slots, l);
      OwnedRange(engine.Table(), engine.slots, l);
    }

    method Apply(e: Event)
      requires Valid()
      modifies this, engine, engine.vdp, engine.sprites
      ensures Valid() && Step(old(Now()), e, Now())
    {
      hide *;
      ghost var a := Now();
      SizedNow();
      ValidIs();
      match e
      case Adding(head, count, vram, x, y, attribut, autoVisibility, fastVisibility, autoTileUpload, disableDelayed) =>
        if count >= 1 {
          var sprite := AddSprite(e);
        } else {
          AddedNone(a, e, a);
        }
      case Updating(inputs) =>
        if |inputs| == |sprites| {
          Update(inputs);
        } else {
          NothingDone(a, e);
        }
      case On(sprite, call) =>
        var listed := false;
        if sprite < |sprites| {
          listed := IsListed(sprite);
        }
        ListedSize(a, sprite);
        if listed {
          Call(sprite, call);
        } else {
          NothingDone(a, e);
        }
    }

    method IsListed(sprite: nat) returns (listed: bool)
      requires Valid() && sprite < |sprites|
      ensures listed <==> sprite in engine.sprites.list
    {
      hide *;
      ValidIs();
      engine.TableIs();
      GoodSizes(sprites, drawn, cache, engine.slots, engine.sprites.list);
      engine.sprites.AllocatedIs(sprite);
      listed := engine.sprites.inUse[sprite];
    }

    method Call(sprite: nat, call: SpriteCall)
      requires Valid() && sprite in engine.sprites.list && sprite < |sprites|
      modifies this, engine, engine.vdp, engine.sprites
      ensures Valid() && Step(old(Now()), On(sprite, call), Now())
    {
      hide *;
      ghost var k: nat := IndexOf(engine.sprites.list, sprite);
      ghost var a := Now();
      SpriteIs(k);
      ValidIs();
      SizedNow();
      match call
      case Release =>
        ReleaseSprite(sprite);
      case Depth(value) =>
        if MIN_DEPTH <= value <= MAX_DEPTH {
          SetDepth(sprite, value);
        } else {
          NotDeep(a, sprite, value);
        }
      case Definition(count, tile) =>
        if count >= 1 && tile < 0x800 && (count == engine.num[sprite] || count <= engine.vdp.free + engine.num[sprite]) {
          var ok := SetDefinition(sprite, count, tile, true);
        } else {
          NotDefined(a, sprite, count, tile);
        }
      case Position(x, y) =>
        SetPosition(sprite, x, y);
      case Attributes(attribut) =>
        if attribut % 0x800 == sprites[sprite].attribut % 0x800 {
          SetAttribut(sprite, attribut);
        } else {
          NotColoured(a, sprite, attribut);
        }
      case Visibility(value) =>
        SetVisibility(sprite, value);
      case Animate =>
        RequestFrame(sprite);
    }
  }

  // ----- What the steps stand for

  lemma SoundIs(a: Shot)
    requires AllGood(a.sprites, a.drawn, a.cache, a.slots, a.list) && Sorted(a.depth, a.list)
    requires |a.cache| == CACHE_SIZE && |a.depth| == |a.sprites|
    ensures Sized(a) && Sound(a)
  {
  }

  lemma AddedNone(a: Shot, e: Event, b: Shot)
    requires Sized(a) && e.Adding? && (e.count == 0 || |a.list| == |a.sprites| || e.count > |a.free| || !e.vram)
    requires b == a.(slots := b.slots, free := b.free, depth := b.depth) && |b.slots| == |a.slots| && |b.depth| == |a.depth|
    requires forall s: nat :: s < |a.slots| && s in a.list ==> b.slots[s] == a.slots[s]
    requires forall s: nat :: s < |a.depth| && s in a.list ==> b.depth[s] == a.depth[s]
    requires b.free == a.free || (e.count <= |a.free| && b.free == Below(a.free, e.count) + Top(a.free, e.count))
    ensures Step(a, e, b)
  {
    if e.count <= |a.free| {
      Restacked(a.free, e.count);
    }
  }

  lemma Restacked(f: seq<nat>, n: nat)
    requires n <= |f|
    ensures multiset(Below(f, n) + Top(f, n)) == multiset(f)
  {
    PoppedOut(f, |f|, n);
    assert f[..|f|] == f;
  }

  lemma AddedOne(a: Shot, e: Event, b: Shot, s: nat)
    requires Sized(a) && e.Adding? && e.vram && 0 < e.count <= |a.free| && |a.list| != |a.sprites| && s < |a.sprites| && s !in a.list
    requires b.list == if e.head then [s] + a.list else a.list + [s]
    requires b.sprites == a.sprites[s := Created(e)] && b.drawn == a.drawn[s := false] && b.cache == a.cache
    requires b.slots == a.slots[s := Top(a.free, e.count)] && b.free == Below(a.free, e.count)
    requires b.depth == a.depth[s := if e.head then MIN_DEPTH else MAX_DEPTH]
    ensures Step(a, e, b)
  {
    hide Top, Below;
    assert Joined(a, e, b, s);
  }

  lemma CreatedFresh(e: Event)
    requires e.Adding?
    ensures var s := Created(e);
            && s.frame.None? && s.needFrame && s.lastNumSprite == e.count && s.spriteToHide == 0 && !s.needVisibility
            && s.x == e.x + 0x80 && s.y == e.y + 0x80 && s.attribut == e.attribut
            && s.visibility == (if e.autoVisibility then 0 else 0xFFFF)
            && s.autoVisibility == e.autoVisibility && s.fastVisibility == e.fastVisibility
            && s.autoTileUpload == e.autoTileUpload && s.disableDelayed == e.disableDelayed
  {
  }

  lemma RedefinedFresh(s: Sprite, count: nat, tile: nat)
    requires tile < 0x800
    ensures var r := Redefined(s, count, tile);
            && r.frame.None? && r.needFrame && r.lastNumSprite == count && r.spriteToHide == 0
            && r.needVisibility == s.needVisibility && r.autoVisibility == s.autoVisibility
            && r.attribut % 0x800 == tile && r.attribut / 0x800 == s.attribut / 0x800
            && r.x == s.x && r.y == s.y && r.visibility == s.visibility
  {
    var r := Redefined(s, count, tile);
    Divide(s.attribut, 0x800);
    DivUnique(r.attribut, 0x800, s.attribut / 0x800, tile);
  }

  lemma TopSize(f: seq<nat>, n: nat)
    requires n <= |f|
    ensures |Top(f, n)| == n
  {
  }

  lemma ReleasedOne(a: Shot, s: nat, b: Shot, k: nat)
    requires Sized(a)
    requires s !in a.list ==> b == a
    requires s in a.list ==> k < |a.list| && a.list[k] == s && b == a.(list := RemoveAt(a.list, k), free := a.free + a.slots[s])
    ensures Step(a, On(s, SpriteCall.Release), b)
  {
    hide RemoveAt;
    assert s in a.list ==> Released(a, s, b, k);
  }

  lemma DeepOne(a: Shot, s: nat, value: int, b: Shot, k: nat, j: nat)
    requires Sized(a) && s in a.list && MIN_DEPTH <= value <= MAX_DEPTH
    requires MovedOnly(a.list, b.list, s, k, j) && b == a.(list := b.list, depth := a.depth[s := value])
    ensures Step(a, On(s, SpriteCall.Depth(value)), b)
  {
    hide MovedOnly;
  }

  lemma NotDeep(a: Shot, s: nat, value: int)
    requires Sized(a) && s in a.list && !(MIN_DEPTH <= value <= MAX_DEPTH)
    ensures Step(a, On(s, SpriteCall.Depth(value)), a)
  {
  }

  lemma DefinedOne(a: Shot, s: nat, count: nat, tile: nat, b: Shot)
    requires Sized(a) && s in a.list && count >= 1 && tile < 0x800 && (count == |a.slots[s]| || count <= |a.free| + |a.slots[s]|)
    requires b.sprites == a.sprites[s := Redefined(a.sprites[s], count, tile)]
    requires b.list == a.list && b.cache == a.cache && b.drawn == a.drawn[s := false] && b.depth == a.depth
    requires count == |a.slots[s]| ==> b.slots == a.slots && b.free == a.free
    requires count != |a.slots[s]| ==>
               b.slots == a.slots[s := Top(a.free + a.slots[s], count)] && b.free == Below(a.free + a.slots[s], count)
    ensures Step(a, On(s, Definition(count, tile)), b)
  {
    hide Top, Below, Redefined;
  }

  lemma NotDefined(a: Shot, s: nat, count: nat, tile: nat)
    requires Sized(a) && s in a.list
    requires !(count >= 1 && tile < 0x800 && (count == |a.slots[s]| || count <= |a.free| + |a.slots[s]|))
    ensures Step(a, On(s, Definition(count, tile)), a)
  {
  }

  lemma NotColoured(a: Shot, s: nat, attribut: u16)
    requires Sized(a) && s in a.list && attribut % 0x800 != a.sprites[s].attribut % 0x800
    ensures Step(a, On(s, Attributes(attribut)), a)
  {
  }

  lemma NothingDone(a: Shot, e: Event)
    requires Sized(a)
    requires (e.Updating? && |e.inputs| != |a.sprites|) || (e.On? && e.sprite !in a.list)
    ensures Step(a, e, a)
  {
  }

  lemma ListedSize(a: Shot, s: nat)
    requires Sized(a)
    ensures s in a.list ==> s < |a.sprites|
  {
  }

  /** What a call that only sets fields makes of them. */
  predicate Asks(s: Sprite, call: SpriteCall, r: Sprite) {
    match call
    case Position(x, y) => r == Positioned(s, x, y)
    case Attributes(attribut) => attribut % 0x800 == s.attribut % 0x800 && r == Attributed(s, attribut)
    case Visibility(value) => r == Revealed(s, value)
    case Animate => r == s.(needFrame := true)
    case _ => false
  }

  lemma AsksIs(s: Sprite, call: SpriteCall, r: Sprite)
    ensures call.Position? ==> (Asks(s, call, r) <==> r == Positioned(s, call.x, call.y))
    ensures call.Attributes? ==> (Asks(s, call, r) <==> call.attribut % 0x800 == s.attribut % 0x800 && r == Attributed(s, call.attribut))
    ensures call.Visibility? ==> (Asks(s, call, r) <==> r == Revealed(s, call.visibility))
    ensures call.Animate? ==> (Asks(s, call, r) <==> r == s.(needFrame := true))
  {
    hide Positioned, Attributed, Revealed;
  }

  lemma SetOne(a: Shot, s: nat, call: SpriteCall, r: Sprite, b: Shot)
    requires Sized(a) && s in a.list && Asks(a.sprites[s], call, r) && b == a.(sprites := a.sprites[s := r])
    ensures Step(a, On(s, call), b)
  {
    hide Positioned, Attributed, Revealed;
  }

  lemma SameDrawn(drawn: seq<bool>, s: nat)
    requires s < |drawn|
    ensures drawn[s := drawn[s]] == drawn
  {
  }

  lemma NoSteps(trace: seq<Shot>, events: seq<Event>)
    requires |trace| == 1 && Sound(trace[0])
    ensures Steps(trace, events[..0])
  {
  }

  lemma StepsOn(trace: seq<Shot>, events: seq<Event>, i: nat, b: Shot)
    requires i < |events| && Steps(trace, events[..i]) && |trace| == i + 1
    requires Step(trace[i], events[i], b) && Sound(b)
    ensures Steps(trace + [b], events[..i + 1])
  {
    hide Step, Sound;
    var t, es := trace + [b], events[..i + 1];
    forall k | 0 <= k < |es| ensures Step(t[k], es[k], t[k + 1]) {
      if k < i {
        assert es[k] == events[..i][k] && t[k] == trace[k] && t[k + 1] == trace[k + 1];
      }
    }
  }

  lemma StepsShow(trace: seq<Shot>, events: seq<Event>)
    requires Steps(trace, events)
    ensures forall k :: 0 <= k < |events| ==> AllOnScreen(trace[k], events[k], trace[k + 1])
  {
    hide UpdateStep, AddStep, CallStep, Sound, AllOnScreen;
    forall k | 0 <= k < |events| ensures AllOnScreen(trace[k], events[k], trace[k + 1]) {
      assert Step(trace[k], events[k], trace[k + 1]) && Sound(trace[k]) && Sound(trace[k + 1]);
      StepShows(trace[k], events[k], trace[k + 1]);
    }
  }

  lemma StepShows(a: Shot, e: Event, b: Shot)
    requires Step(a, e, b) && Sound(a) && Sound(b)
    ensures AllOnScreen(a, e, b)
  {
    hide UpdateStep, Sound, OnScreen;
    if e.Updating? && |e.inputs| == |a.sprites| {
      AllShown(a, e.inputs, b);
    }
  }

  /** After an update every sprite of the list is shown. */
  lemma AllShown(a: Shot, inputs: seq<Input>, b: Shot)
    requires Sound(a) && Sound(b) && |inputs| == |a.sprites| && UpdateStep(a, inputs, b)
    ensures AllOnScreen(a, Updating(inputs), b)
  {
    hide Good, Turned, OnScreen;
    forall s: nat | s in a.list ensures OnScreen(a, b, s, inputs[s]) {
      var k: nat := IndexOf(a.list, s);
      assert GoodAt(a.sprites, a.drawn, a.cache, a.slots, a.list[k]) && GoodAt(b.sprites, b.drawn, b.cache, b.slots, b.list[k]);
      OneShown(a, b, s, inputs[s]);
    }
  }

  lemma OneShown(a: Shot, b: Shot, s: nat, i: Input)
    requires Sized(a) && Sized(b) && s < |a.sprites| == |b.sprites| && b.slots == a.slots
    requires Turned(a, b, s, i)
    requires Good(a.sprites[s], a.drawn[s], a.cache, a.slots[s]) && Good(b.sprites[s], b.drawn[s], b.cache, a.slots[s])
    ensures OnScreen(a, b, s, i)
  {
    hide Good, EntriesAfter, HiddenFrom, Shown, HiddenBy, Writes, Same, Fits, Delayed;
    var p := Prepared(a.sprites[s], i);
    if Ready(a.sprites[s], |a.slots[s]|, i) {
      FrameIs(a.sprites[s], a.drawn[s], a.cache, a.slots[s]);
      WrittenIs(p);
      hide Written;
      Settled(b.sprites[s], b.drawn[s], b.cache, a.slots[s]);
      if p.visibility == 0 {
        HidesExactly(a.cache, b.cache, a.slots[s], p);
      }
    }
  }

  lemma NoneTwice(l: seq<nat>)
    ensures l == [] ==> Distinct(l)
  {
  }

  // ----- Halfway through an update

  ghost predicate Midway(a: Shot, inputs: seq<Input>, b: Shot, i: nat) {
    && Sized(a) && Sized(b) && |inputs| == |a.sprites| && Distinct(a.list)
    && b == a.(sprites := b.sprites, drawn := b.drawn, cache := b.cache) && |b.sprites| == |a.sprites|
    && (forall j :: 0 <= j < |a.list| && j < i ==> Turned(a, b, a.list[j], inputs[a.list[j]]))
    && (forall j :: i <= j < |a.list| ==> Same(a, b, a.list[j]))
    && (forall s: nat :: s < |a.sprites| && s !in a.list ==> b.sprites[s] == a.sprites[s] && b.drawn[s] == a.drawn[s])
    && (forall x: nat :: x < CACHE_SIZE && (forall s: nat :: s in a.list ==> x !in a.slots[s]) ==> b.cache[x] == a.cache[x])
  }

  lemma MidwaySizes(a: Shot, inputs: seq<Input>, b: Shot, i: nat)
    requires Midway(a, inputs, b, i)
    ensures Sized(a) && Sized(b) && |inputs| == |a.sprites| == |b.sprites| && b.list == a.list && b.slots == a.slots
    ensures i < |a.list| ==> a.list[i] < |a.sprites| && b.sprites[a.list[i]] == a.sprites[a.list[i]] && b.drawn[a.list[i]] == a.drawn[a.list[i]]
  {
  }

  lemma ReadyIs(s: Sprite, entries: nat, i: Input)
    ensures Ready(s, entries, i) <==> (s.needFrame ==> Fits(i, entries, s.attribut))
  {
  }

  lemma RewrittenIs(c: seq<Attr>, c': seq<Attr>, slots: seq<nat>, p: Sprite)
    requires Rewritten(c, c', slots, p)
    ensures EntriesAfter(c, c', slots, p) && |c'| == |c| && forall x: nat :: x < |c| && x !in slots ==> c'[x] == c[x]
  {
    hide EntryAfter;
  }

  lemma MidwayStart(a: Shot, inputs: seq<Input>, t: Sat)
    requires Sized(a) && Mirrors(t, a.slots, a.list) && |inputs| == |a.sprites| && Distinct(a.list)
    ensures Midway(a, inputs, a, 0)
  {
    hide Mirrors, Turned;
    forall j | 0 <= j < |a.list| ensures Same(a, a, a.list[j]) {
      OwnEntries(t, a.slots, a.list, j);
    }
  }

  lemma OwnEntries(t: Sat, slots: seq<seq<nat>>, l: seq<nat>, k: nat)
    requires Mirrors(t, slots, l) && k < |l|
    ensures l[k] < |slots| && forall x :: 0 <= x < |slots[l[k]]| ==> slots[l[k]][x] < CACHE_SIZE
  {
    PieceReady(t, slots, l, k);
  }

  lemma MidwayDone(a: Shot, inputs: seq<Input>, b: Shot, c: Shot, k: nat, t: Sat)
    requires Midway(a, inputs, b, k) && k < |a.list| && a.list[k] < |b.sprites| && Mirrors(t, a.slots, a.list)
    requires var s, p := a.list[k], Prepared(b.sprites[a.list[k]], inputs[a.list[k]]);
             && Ready(b.sprites[s], |b.slots[s]|, inputs[s])
             && c == b.(sprites := b.sprites[s := Written(p)],
                        drawn := b.drawn[s := b.drawn[s] || (Writes(p) != None && !p.needFrame)], cache := c.cache)
             && EntriesAfter(b.cache, c.cache, b.slots[s], p)
             && (forall x: nat :: x < |b.cache| && x !in b.slots[s] ==> c.cache[x] == b.cache[x])
    ensures Midway(a, inputs, c, k + 1)
  {
    hide Mirrors, Ready, Prepared, Written, Writes, EntryAfter;
    var s, l := a.list[k], a.list;
    forall j | 0 <= j < |l| && j != k
      ensures j < k ==> Turned(a, c, l[j], inputs[l[j]])
      ensures j > k ==> Same(a, c, l[j])
    {
      Apart(l, j, k);
      OtherEntries(a.slots, l, t, k, j, b.cache, c.cache);
      if j < k {
        assert Turned(a, b, l[j], inputs[l[j]]);
      } else {
        assert Same(a, b, l[j]);
      }
    }
    assert Same(a, b, s);
    assert Turned(a, c, s, inputs[s]);
  }

  lemma MidwayLeft(a: Shot, inputs: seq<Input>, b: Shot, k: nat)
    requires Midway(a, inputs, b, k) && k < |a.list| && a.list[k] < |a.sprites|
    requires !Ready(a.sprites[a.list[k]], |a.slots[a.list[k]]|, inputs[a.list[k]])
    ensures Midway(a, inputs, b, k + 1)
  {
    hide Ready, Prepared, Written, Writes, EntryAfter;
    assert Same(a, b, a.list[k]);
    assert Turned(a, b, a.list[k], inputs[a.list[k]]);
  }

  lemma MidwayEnd(a: Shot, inputs: seq<Input>, b: Shot)
    requires Midway(a, inputs, b, |a.list|)
    ensures UpdateStep(a, inputs, b) && Step(a, Updating(inputs), b)
  {
    hide Turned, Same;
    forall s: nat | s in a.list ensures Turned(a, b, s, inputs[s]) {
      var j: nat := IndexOf(a.list, s);
      assert a.list[j] == s;
    }
  }

  lemma Constants()
    ensures CACHE_SIZE == 96 && SAT_MAX_SIZE == 80 && VISIBILITY_ON == 0xFFFF
  {
  }

  lemma NoneGood(sp: seq<Sprite>, drawn: seq<bool>, c: seq<Attr>, slots: seq<seq<nat>>)
    requires |sp| == |drawn| == |slots|
    ensures AllGood(sp, drawn, c, slots, [])
  {
  }

  lemma GoodOne(sp: seq<Sprite>, drawn: seq<bool>, c: seq<Attr>, slots: seq<seq<nat>>, l: seq<nat>, k: nat)
    requires AllGood(sp, drawn, c, slots, l) && k < |l|
    ensures l[k] < |sp| == |drawn| == |slots| && Good(sp[l[k]], drawn[l[k]], c, slots[l[k]])
  {
    assert GoodAt(sp, drawn, c, slots, l[k]);
  }

  lemma GoodSizes(sp: seq<Sprite>, drawn: seq<bool>, c: seq<Attr>, slots: seq<seq<nat>>, l: seq<nat>)
    requires AllGood(sp, drawn, c, slots, l)
    ensures |sp| == |drawn| == |slots| && InRange(l, |slots|)
  {
  }

  lemma KeptSlots(sp: seq<Sprite>, drawn: seq<bool>, c: seq<Attr>, slots: seq<seq<nat>>, l: seq<nat>, slots': seq<seq<nat>>)
    requires AllGood(sp, drawn, c, slots, l) && |slots'| == |slots|
    requires forall x :: 0 <= x < |slots| && x in l ==> slots'[x] == slots[x]
    ensures AllGood(sp, drawn, c, slots', l)
  {
    hide Good;
    forall i | 0 <= i < |l| ensures GoodAt(sp, drawn, c, slots', l[i]) {
      assert GoodAt(sp, drawn, c, slots, l[i]);
    }
  }

  lemma RemoveMembers(l: seq<nat>, k: nat)
    requires k < |l|
    ensures forall i :: 0 <= i < |RemoveAt(l, k)| ==> RemoveAt(l, k)[i] in l
  {
  }

  lemma MovedMembers(l: seq<nat>, l': seq<nat>, s: nat, k: nat, j: nat)
    requires MovedOnly(l, l', s, k, j)
    ensures forall i :: 0 <= i < |l'| ==> l'[i] in l
  {
    MovedMultiset(l, k, j);
    forall i | 0 <= i < |l'| ensures l'[i] in l {
      assert l'[i] in multiset(l');
    }
  }

  lemma EndsMembers(l: seq<nat>, s: nat, head: bool)
    ensures var l' := if head then [s] + l else l + [s];
            forall i :: 0 <= i < |l'| ==> l'[i] in l || l'[i] == s
  {
  }
  // ----- What was set last

  datatype Kind = Leaving | Sorting | Defining | Placing | Colouring | Revealing | Animating

  function KindOf(call: SpriteCall): Kind {
    match call
    case Release => Leaving
    case Depth(_) => Sorting
    case Definition(_, _) => Defining
    case Position(_, _) => Placing
    case Attributes(_) => Colouring
    case Visibility(_) => Revealing
    case Animate => Animating
  }

  predicate Calls(e: Event, s: nat, kind: Kind) {
    e.On? && e.sprite == s && KindOf(e.call) == kind
  }

  /** The kinds of the calls on the sprite among the events [`k`, `n`). */
  function Called(events: seq<Event>, s: nat, k: nat, n: nat): set<Kind>
    requires n <= |events|
    decreases n
  {
    if n <= k then {} else Called(events, s, k, n - 1) + CalledBy(events[n - 1], s)
  }

  function CalledBy(e: Event, s: nat): set<Kind> {
    if e.On? && e.sprite == s then {KindOf(e.call)} else {}
  }

  lemma {:induction false} CalledIs(events: seq<Event>, s: nat, k: nat, n: nat, kind: Kind)
    requires n <= |events|
    ensures kind in Called(events, s, k, n) <==> exists j :: k <= j < n && Calls(events[j], s, kind)
    decreases n
  {
    if n > k {
      CalledIs(events, s, k, n - 1, kind);
    }
  }

  lemma CalledPart(events: seq<Event>, s: nat, k: nat, m: nat, n: nat)
    requires n <= |events| && m <= n
    ensures Called(events, s, k, m) <= Called(events, s, k, n)
    decreases n
  {
    if m < n {
      CalledPart(events, s, k, m, n - 1);
    }
  }

  /** What an event makes of the fields of a sprite of the list. */
  ghost function SpriteAfter(a: Shot, e: Event, s: nat): Sprite
    requires Sized(a) && s in a.list
  {
    var r := a.sprites[s];
    if e.Updating? && |e.inputs| == |a.sprites| && Ready(r, |a.slots[s]|, e.inputs[s]) then Written(Prepared(r, e.inputs[s]))
    else if e.On? && e.sprite == s then
      match e.call
      case Definition(count, tile) => if CanDefine(a, s, count, tile) then Redefined(r, count, tile) else r
      case Position(x, y) => Positioned(r, x, y)
      case Attributes(attribut) => if attribut % 0x800 == r.attribut % 0x800 then Attributed(r, attribut) else r
      case Visibility(value) => Revealed(r, value)
      case Animate => r.(needFrame := true)
      case _ => r
    else r
  }

  /** A sprite stays in the list until it is released, and only its own calls and updates change it. */
  lemma StepSprite(a: Shot, e: Event, b: Shot, s: nat)
    requires Step(a, e, b) && s in a.list && !Calls(e, s, Leaving)
    ensures |b.sprites| == |a.sprites| && s < |a.sprites| && s in b.list && b.sprites[s] == SpriteAfter(a, e, s)
  {
    hide Created, Redefined, Prepared, Written, Positioned, Attributed, Revealed, Ready, EntriesAfter, Top, Below;
    match e
    case Adding(_, _, _, _, _, _, _, _, _, _) =>
      if !(e.count == 0 || |a.list| == |a.sprites| || e.count > |a.free| || !e.vram) {
        var s' :| Joined(a, e, b, s');
      }
    case Updating(inputs) =>
      if |inputs| == |a.sprites| {
        assert Turned(a, b, s, inputs[s]);
      }
    case On(s', call) =>
      if s' in a.list {
        OthersStay(a, s', call, b, s);
      }
  }

  lemma OthersStay(a: Shot, s': nat, call: SpriteCall, b: Shot, s: nat)
    requires Sized(a) && s' in a.list && s in a.list && CallStep(a, s', call, b) && !(call.Release? && s == s')
    ensures |b.sprites| == |a.sprites| && s in b.list && b.sprites[s] == SpriteAfter(a, On(s', call), s)
  {
    hide Redefined, Positioned, Attributed, Revealed, Ready, Top, Below, MovedOnly;
    match call
    case Release =>
      var k: nat :| Released(a, s', b, k);
      StillIn(a.list, k, s);
    case Depth(value) =>
      if MIN_DEPTH <= value <= MAX_DEPTH {
        var k: nat, j: nat :| MovedOnly(a.list, b.list, s', k, j);
        MovedKeeps(a.list, b.list, s', k, j, s);
      }
    case _ =>
  }

  lemma StillIn(l: seq<nat>, k: nat, s: nat)
    requires k < |l| && s in l && l[k] != s
    ensures s in RemoveAt(l, k)
  {
    var i: nat := IndexOf(l, s);
    assert RemoveAt(l, k)[if i < k then i else i - 1] == s;
  }

  lemma MovedKeeps(l: seq<nat>, l': seq<nat>, s': nat, k: nat, j: nat, s: nat)
    requires MovedOnly(l, l', s', k, j) && s in l
    ensures s in l'
  {
    MovedMultiset(l, k, j);
    assert s in multiset(l);
  }

  /** What stays of a sprite when no other kinds of calls come. */
  predicate Keeps(r: Sprite, r': Sprite, called: set<Kind>) {
    && (Placing !in called ==> r'.x == r.x && r'.y == r.y)
    && (Colouring !in called && Defining !in called ==> r'.attribut == r.attribut)
    && (Revealing !in called && !r.autoVisibility ==> !r'.autoVisibility && r'.visibility == r.visibility)
    && (Animating !in called && Defining !in called && !r.needFrame ==> !r'.needFrame && r'.frame == r.frame)
  }

  lemma KeepsOn(r: Sprite, r': Sprite, r'': Sprite, a: set<Kind>, b: set<Kind>)
    requires Keeps(r, r', a) && Keeps(r', r'', b)
    ensures Keeps(r, r'', a + b)
  {
  }

  /** One event: what no call on the sprite is about stays as it is. */
  lemma StepKeeps(a: Shot, e: Event, b: Shot, s: nat)
    requires Sound(a) && Step(a, e, b) && s in a.list && !Calls(e, s, Leaving)
    ensures |b.sprites| == |a.sprites| && s < |a.sprites| && s in b.list && Keeps(a.sprites[s], b.sprites[s], CalledBy(e, s))
  {
    StepSprite(a, e, b, s);
    var k: nat := IndexOf(a.list, s);
    GoodOne(a.sprites, a.drawn, a.cache, a.slots, a.list, k);
    GoodFlag(a.sprites[s], a.drawn[s], a.cache, a.slots[s]);
    hide Step, Sound, Good, Ready, Prepared, Written, Keeps;
    if e.Updating? && s < |e.inputs| {
      UpdateKeeps(a.sprites[s], e.inputs[s]);
    }
    if e.On? && e.sprite == s {
      CallKeeps(a, s, e.call);
    }
    NoneKeeps(a.sprites[s]);
  }

  lemma NoneKeeps(r: Sprite)
    ensures Keeps(r, r, {})
  {
  }

  lemma UpdateKeeps(s: Sprite, i: Input)
    requires s.needVisibility ==> s.autoVisibility
    ensures Keeps(s, Written(Prepared(s, i)), {})
  {
    hide Delayed;
  }

  lemma CallKeeps(a: Shot, s: nat, call: SpriteCall)
    requires Sized(a) && s in a.list
    ensures Keeps(a.sprites[s], SpriteAfter(a, On(s, call), s), {KindOf(call)})
  {
    hide Positioned, Attributed, Revealed, Redefined, Keeps;
    var r := a.sprites[s];
    StillKeeps(r, KindOf(call));
    match call
    case Position(x, y) => PositionedKeeps(r, x, y);
    case Attributes(attribut) => AttributedKeeps(r, attribut);
    case Visibility(value) => RevealedKeeps(r, value);
    case Definition(count, tile) =>
      if CanDefine(a, s, count, tile) {
        RedefinedKeeps(r, count, tile);
        assert SpriteAfter(a, On(s, call), s) == Redefined(r, count, tile);
      } else {
        assert SpriteAfter(a, On(s, call), s) == r;
      }
    case Animate => AnimatedKeeps(r);
    case _ =>
  }

  lemma StillKeeps(r: Sprite, kind: Kind)
    ensures Keeps(r, r, {kind})
  {
  }

  lemma PositionedKeeps(r: Sprite, x: int, y: int)
    ensures Keeps(r, Positioned(r, x, y), {Placing})
  {
  }

  lemma AttributedKeeps(r: Sprite, attribut: u16)
    ensures Keeps(r, Attributed(r, attribut), {Colouring})
  {
    hide SameFlip;
  }

  lemma RevealedKeeps(r: Sprite, value: SpriteVisibility)
    ensures Keeps(r, Revealed(r, value), {Revealing})
  {
  }

  lemma RedefinedKeeps(r: Sprite, count: nat, tile: nat)
    requires tile < 0x800
    ensures Keeps(r, Redefined(r, count, tile), {Defining})
  {
  }

  lemma AnimatedKeeps(r: Sprite)
    ensures Keeps(r, r.(needFrame := true), {Animating})
  {
  }

  /** Many events. */
  lemma {:induction false} Stays(trace: seq<Shot>, events: seq<Event>, s: nat, k: nat, n: nat)
    requires Steps(trace, events) && k <= n <= |events| && s in trace[k].list && Leaving !in Called(events, s, k, n)
    ensures s < |trace[k].sprites| == |trace[n].sprites| && s in trace[n].list
    ensures Keeps(trace[k].sprites[s], trace[n].sprites[s], Called(events, s, k, n))
    decreases n
  {
    StepsAt(trace, events, k);
    hide Step, Sound, Keeps, Steps;
    if k < n {
      Stays(trace, events, s, k, n - 1);
      StepsAt(trace, events, n - 1);
      StepKeeps(trace[n - 1], events[n - 1], trace[n], s);
      KeepsOn(trace[k].sprites[s], trace[n - 1].sprites[s], trace[n].sprites[s], Called(events, s, k, n - 1), CalledBy(events[n - 1], s));
    } else {
      NoneKeeps(trace[k].sprites[s]);
    }
  }

  lemma StepsAt(trace: seq<Shot>, events: seq<Event>, k: nat)
    requires Steps(trace, events) && k <= |events|
    ensures |trace| == |events| + 1 && Sound(trace[k]) && Sized(trace[k]) && (k < |events| ==> Step(trace[k], events[k], trace[k + 1]))
    ensures forall s :: s in trace[k].list ==> s < |trace[k].sprites| == |trace[k].slots|
  {
    hide AllGood, Step;
  }

  /** What the call at `k` set. */
  lemma SetBy(trace: seq<Shot>, events: seq<Event>, s: nat, k: nat)
    requires Steps(trace, events) && k < |events| && s in trace[k].list && !Calls(events[k], s, Leaving)
    ensures |trace| == |events| + 1 && Sized(trace[k]) && s in trace[k + 1].list && s < |trace[k].sprites| == |trace[k + 1].sprites|
    ensures trace[k + 1].sprites[s] == SpriteAfter(trace[k], events[k], s)
  {
    hide *;
    StepsAt(trace, events, k);
    StepSprite(trace[k], events[k], trace[k + 1], s);
  }

  /** The sprite an event adds, in its own terms. */
  lemma NewFields(a: Shot, e: Event, b: Shot, s: nat)
    requires Step(a, e, b) && e.Adding? && s in b.list && s !in a.list
    ensures |b.sprites| == |b.slots| && s < |b.sprites| && |b.slots[s]| == e.count
    ensures var r := b.sprites[s];
            && r.x == e.x + 0x80 && r.y == e.y + 0x80 && r.attribut == e.attribut
            && r.visibility == (if e.autoVisibility then 0 else 0xFFFF) && r.autoVisibility == e.autoVisibility
            && r.frame == None && r.needFrame
  {
    CreatedFresh(e);
    hide Created, Below;
    var s' :| Joined(a, e, b, s');
    assert s' == s;
  }

  /** A sprite that was never moved is where it was added, one that was never given others has the attributes it was
      added with, and one that was added visible, and never hidden, is. */
  lemma AsAdded(trace: seq<Shot>, events: seq<Event>, s: nat, k: nat, n: nat)
    requires Steps(trace, events) && k < n <= |events| && events[k].Adding? && s !in trace[k].list && s in trace[k + 1].list
    requires Leaving !in Called(events, s, k + 1, n)
    ensures s in trace[n].list && s < |trace[n].sprites|
    ensures var e, r := events[k], trace[n].sprites[s];
            && (Placing !in Called(events, s, k + 1, n) ==> r.x == e.x + 0x80 && r.y == e.y + 0x80)
            && (Colouring !in Called(events, s, k + 1, n) && Defining !in Called(events, s, k + 1, n) ==> r.attribut == e.attribut)
            && (Revealing !in Called(events, s, k + 1, n) && !e.autoVisibility ==> r.visibility == 0xFFFF)
  {
    hide *;
    StepsAt(trace, events, k);
    StepsAt(trace, events, n);
    NewFields(trace[k], events[k], trace[k + 1], s);
    Stays(trace, events, s, k + 1, n);
    KeepsIs(trace[k + 1].sprites[s], trace[n].sprites[s], Called(events, s, k + 1, n));
  }

  /** A new definition leaves the sprite where it is, with its flips, priority and palette, and its tiles where they
      are put; it then has the entries the definition asks for, and waits for its first frame. */
  lemma DefinedAs(a: Shot, s: nat, count: nat, tile: nat, b: Shot)
    requires Step(a, On(s, Definition(count, tile)), b) && s in a.list && s < |a.slots|
    requires count >= 1 && tile < 0x800 && (count == |a.slots[s]| || count <= |a.free| + |a.slots[s]|)
    ensures s < |a.sprites| == |b.sprites| == |b.slots| && |b.slots[s]| == count
    ensures var r, r' := a.sprites[s], b.sprites[s];
            && r'.attribut % 0x800 == tile && r'.attribut / 0x800 == r.attribut / 0x800
            && r'.x == r.x && r'.y == r.y && r'.visibility == r.visibility && r'.frame == None && r'.needFrame
  {
    RedefinedFresh(a.sprites[s], count, tile);
    hide Redefined, Below;
  }

  /** A sprite is where it was put last. */
  lemma LastPosition(trace: seq<Shot>, events: seq<Event>, s: nat, k: nat, n: nat)
    requires Steps(trace, events) && k < n <= |events| && s in trace[k].list && Calls(events[k], s, Placing)
    requires Leaving !in Called(events, s, k + 1, n) && Placing !in Called(events, s, k + 1, n)
    ensures s in trace[n].list && s < |trace[n].sprites|
    ensures trace[n].sprites[s].x == events[k].call.x + 0x80 && trace[n].sprites[s].y == events[k].call.y + 0x80
  {
    hide *;
    CallIs(events[k], s, Placing);
    SetBy(trace, events, s, k);
    AfterIs(trace[k], events[k], s);
    Stays(trace, events, s, k + 1, n);
    KeepsIs(trace[k + 1].sprites[s], trace[n].sprites[s], Called(events, s, k + 1, n));
  }

  /** It has the attributes it was given last. */
  lemma LastAttributes(trace: seq<Shot>, events: seq<Event>, s: nat, k: nat, n: nat)
    requires Steps(trace, events) && k < n <= |events| && s in trace[k].list && s < |trace[k].sprites| && Calls(events[k], s, Colouring)
    requires events[k].call.attribut % 0x800 == trace[k].sprites[s].attribut % 0x800
    requires Leaving !in Called(events, s, k + 1, n) && Colouring !in Called(events, s, k + 1, n) && Defining !in Called(events, s, k + 1, n)
    ensures s in trace[n].list && s < |trace[n].sprites| && trace[n].sprites[s].attribut == events[k].call.attribut
  {
    hide *;
    CallIs(events[k], s, Colouring);
    SetBy(trace, events, s, k);
    AfterIs(trace[k], events[k], s);
    Stays(trace, events, s, k + 1, n);
    KeepsIs(trace[k + 1].sprites[s], trace[n].sprites[s], Called(events, s, k + 1, n));
  }

  /** It is at the depth it was given last, or with which it was added, among the others in the order of the depths. */
  lemma {:induction false} DepthStays(trace: seq<Shot>, events: seq<Event>, s: nat, k: nat, n: nat)
    requires Steps(trace, events) && k <= n <= |events| && s in trace[k].list
    requires Leaving !in Called(events, s, k, n) && Sorting !in Called(events, s, k, n)
    ensures s in trace[n].list && s < |trace[k].depth| == |trace[n].depth| && trace[n].depth[s] == trace[k].depth[s]
    ensures Sorted(trace[n].depth, trace[n].list)
    decreases n
  {
    hide *;
    StepsAt(trace, events, k);
    StepsAt(trace, events, n);
    SoundSorted(trace[k]);
    SoundSorted(trace[n]);
    if k < n {
      CalledNext(events, s, k, n);
      DepthStays(trace, events, s, k, n - 1);
      StepsAt(trace, events, n - 1);
      StepSprite(trace[n - 1], events[n - 1], trace[n], s);
      StepDepth(trace[n - 1], events[n - 1], trace[n], s);
    }
  }

  lemma CalledNext(events: seq<Event>, s: nat, k: nat, n: nat)
    requires k < n <= |events|
    ensures Called(events, s, k, n - 1) <= Called(events, s, k, n)
    ensures forall kind :: kind !in Called(events, s, k, n) ==> !Calls(events[n - 1], s, kind)
  {
    hide KindOf;
  }

  lemma SoundSorted(a: Shot)
    requires Sound(a)
    ensures Sorted(a.depth, a.list) && |a.depth| == |a.sprites|
  {
  }

  lemma StepDepth(a: Shot, e: Event, b: Shot, s: nat)
    requires Step(a, e, b) && s in a.list
    ensures s < |a.depth| == |b.depth|
    ensures !Calls(e, s, Sorting) ==> b.depth[s] == a.depth[s]
    ensures Calls(e, s, Sorting) && MIN_DEPTH <= e.call.value <= MAX_DEPTH ==> b.depth[s] == e.call.value
    ensures e.Adding? ==> forall t: nat :: t in b.list && t !in a.list ==> t < |b.depth| && b.depth[t] == if e.head then MIN_DEPTH else MAX_DEPTH
  {
    hide Created, Redefined, Positioned, Attributed, Revealed, Turned, Top, Below, MovedOnly;
  }

  /** One that was shown or hidden stays so. */
  lemma LastVisibility(trace: seq<Shot>, events: seq<Event>, s: nat, k: nat, n: nat)
    requires Steps(trace, events) && k < n <= |events| && s in trace[k].list && Calls(events[k], s, Revealing)
    requires events[k].call.visibility == VISIBLE || events[k].call.visibility == HIDDEN
    requires Leaving !in Called(events, s, k + 1, n) && Revealing !in Called(events, s, k + 1, n)
    ensures s in trace[n].list && s < |trace[n].sprites|
    ensures trace[n].sprites[s].visibility == if events[k].call.visibility == VISIBLE then VISIBILITY_ON else 0
  {
    hide *;
    CallIs(events[k], s, Revealing);
    SetBy(trace, events, s, k);
    AfterIs(trace[k], events[k], s);
    Stays(trace, events, s, k + 1, n);
    KeepsIs(trace[k + 1].sprites[s], trace[n].sprites[s], Called(events, s, k + 1, n));
  }

  /** The update at `k` gives the sprite the frame it waited for. */
  ghost predicate GetsFrame(trace: seq<Shot>, events: seq<Event>, s: nat, k: nat)
    requires k < |events| && k < |trace|
  {
    && Sized(trace[k]) && s in trace[k].list && events[k].Updating? && |events[k].inputs| == |trace[k].sprites|
    && trace[k].sprites[s].needFrame && Fits(events[k].inputs[s], |trace[k].slots[s]|, trace[k].sprites[s].attribut)
    && !Delayed(trace[k].sprites[s], events[k].inputs[s])
  }

  /** It keeps the frame until another is asked for. */
  lemma LastFrame(trace: seq<Shot>, events: seq<Event>, s: nat, k: nat, n: nat)
    requires Steps(trace, events) && k < n <= |events| && GetsFrame(trace, events, s, k)
    requires Leaving !in Called(events, s, k + 1, n) && Animating !in Called(events, s, k + 1, n) && Defining !in Called(events, s, k + 1, n)
    ensures s in trace[n].list && s < |trace[n].sprites|
    ensures !trace[n].sprites[s].needFrame && trace[n].sprites[s].frame == Some(events[k].inputs[s].next)
  {
    hide *;
    StepsAt(trace, events, k);
    GetsFrameIs(trace, events, s, k);
    SetBy(trace, events, s, k);
    Stays(trace, events, s, k + 1, n);
    KeepsIs(trace[k + 1].sprites[s], trace[n].sprites[s], Called(events, s, k + 1, n));
  }

  /** After an update, a visible sprite that was drawn before, or is not delayed, shows in each of its entries its part:
      at its offset from the sprite, plain or flipped (bits 12 and 11 of the attribute), with its size and its
      tiles, when the visibility has its bit; all other entries are hidden. */
  lemma ScreenEntry(a: Shot, inputs: seq<Input>, b: Shot, s: nat, i: nat)
    requires Step(a, Updating(inputs), b) && Sound(a) && Sound(b) && |inputs| == |a.sprites| && s in a.list
    requires s < |a.sprites| == |b.sprites| == |a.drawn| == |b.slots| && i < |b.slots[s]|
    requires (a.sprites[s].needFrame ==> Fits(inputs[s], |b.slots[s]|, a.sprites[s].attribut))
    requires b.sprites[s].visibility != 0 && (a.drawn[s] || !(a.sprites[s].needFrame && Delayed(a.sprites[s], inputs[s])))
    ensures b.sprites[s].frame.Some? && b.slots[s][i] < |b.cache|
    ensures var r, e := b.sprites[s], b.cache[b.slots[s][i]];
            if i < |r.frame.value.parts| && (r.visibility == 0xFFFF || (r.visibility / Pow2(i)) % 2 == 1) then
              var f := r.frame.value.parts[i];
              && e.y == r.y + (if (r.attribut / 0x1000) % 2 == 1 then f.offsetYFlip else f.offsetY)
              && e.x == r.x + (if (r.attribut / 0x800) % 2 == 1 then f.offsetXFlip else f.offsetX)
              && e.size == f.size && e.attribut == r.attribut + Tiles(r.frame.value.parts, i)
            else e.y == 0
  {
    hide *;
    SameSlots(a, inputs, b);
    SoundSized(a);
    SoundSized(b);
    StepShows(a, Updating(inputs), b);
    ReadyIs(a.sprites[s], |a.slots[s]|, inputs[s]);
    OnScreenIs(a, inputs, b, s);
    GoodFits(b, s);
    PartsAt(b.sprites[s], b.cache, b.slots[s], i);
  }

  lemma GoodFits(a: Shot, s: nat)
    requires Sound(a) && s in a.list && s < |a.sprites|
    ensures a.sprites[s].frame.Some? ==> TilesFit(a.sprites[s].attribut, a.sprites[s].frame.value.parts)
  {
    var k: nat := IndexOf(a.list, s);
    GoodOne(a.sprites, a.drawn, a.cache, a.slots, a.list, k);
    hide AllGood, HiddenFrom, Shown, Dressed, Bounded, Counted;
  }

  lemma PartsAt(r: Sprite, c: seq<Attr>, slots: seq<nat>, i: nat)
    requires r.frame.Some? && Shown(See(r), c, slots) && TilesFit(r.attribut, r.frame.value.parts) && i < |slots|
    ensures slots[i] < |c|
    ensures var e := c[slots[i]];
            if i < |r.frame.value.parts| && (r.visibility == 0xFFFF || (r.visibility / Pow2(i)) % 2 == 1) then
              var f := r.frame.value.parts[i];
              && e.y == r.y + (if (r.attribut / 0x1000) % 2 == 1 then f.offsetYFlip else f.offsetY)
              && e.x == r.x + (if (r.attribut / 0x800) % 2 == 1 then f.offsetXFlip else f.offsetX)
              && e.size == f.size && e.attribut == r.attribut + Tiles(r.frame.value.parts, i)
            else e.y == 0
  {
    hide ShownEntry, TilesFit, Tiles, Pow2;
    EntryIs(See(r), i, c[slots[i]]);
  }

  /** After an update, a sprite that was last put at a position, last shown, and given a frame since it was last asked
      for one, shows every part of that frame at its offset from that position, plain or flipped (bits 12 and 11
      of its attribute), with its size and its tiles, and nothing else. */
  lemma ShownAsSet(trace: seq<Shot>, events: seq<Event>, s: nat, p: nat, v: nat, f: nat)
    requires Steps(trace, events) && p < |events| && v < |events| && f < |events|
    requires s in trace[p].list && Calls(events[p], s, Placing)
    requires Leaving !in Called(events, s, p + 1, |events|) && Placing !in Called(events, s, p + 1, |events|)
    requires s in trace[v].list && Calls(events[v], s, Revealing) && events[v].call.visibility == VISIBLE
    requires Leaving !in Called(events, s, v + 1, |events|) && Revealing !in Called(events, s, v + 1, |events|)
    requires GetsFrame(trace, events, s, f) && Leaving !in Called(events, s, f + 1, |events|)
    requires Animating !in Called(events, s, f + 1, |events|) && Defining !in Called(events, s, f + 1, |events|)
    requires events[|events| - 1].Updating? && |events[|events| - 1].inputs| == |trace[|events| - 1].sprites|
    ensures var b := trace[|events|];
            && Sized(b) && s in b.list && s < |b.sprites| == |b.slots|
            && var attr, parts := b.sprites[s].attribut, events[f].inputs[s].next.parts;
            && forall i: nat :: i < |b.slots[s]| ==>
                 && b.slots[s][i] < |b.cache|
                 && var e := b.cache[b.slots[s][i]];
                 if i < |parts| then
                   && e.y == events[p].call.y + 0x80 + (if (attr / 0x1000) % 2 == 1 then parts[i].offsetYFlip else parts[i].offsetY)
                   && e.x == events[p].call.x + 0x80 + (if (attr / 0x800) % 2 == 1 then parts[i].offsetXFlip else parts[i].offsetX)
                   && e.size == parts[i].size && e.attribut == attr + Tiles(parts, i)
                 else e.y == 0
  {
    hide *;
    Constants();
    var n := |events| - 1;
    StepsAt(trace, events, n);
    StepsAt(trace, events, n + 1);
    var a, b := trace[n], trace[n + 1];
    var inputs := events[n].inputs;
    CallIs(events[p], s, Placing);
    CallIs(events[v], s, Revealing);
    StepsAt(trace, events, f);
    GetsFrameIs(trace, events, s, f);
    LastPosition(trace, events, s, p, n + 1);
    LastVisibility(trace, events, s, v, n + 1);
    LastFrame(trace, events, s, f, n + 1);
    SameSlots(a, inputs, b);
    if f < n {
      CalledPart(events, s, f + 1, n, n + 1);
      LastFrame(trace, events, s, f, n);
    }
    ReadyIs(a.sprites[s], |a.slots[s]|, inputs[s]);
    SoundSized(a);
    SoundSized(b);
    forall i: nat | i < |b.slots[s]|
      ensures b.slots[s][i] < |b.cache|
      ensures var e, attr, parts := b.cache[b.slots[s][i]], b.sprites[s].attribut, events[f].inputs[s].next.parts;
              if i < |parts| then
                && e.y == events[p].call.y + 0x80 + (if (attr / 0x1000) % 2 == 1 then parts[i].offsetYFlip else parts[i].offsetY)
                && e.x == events[p].call.x + 0x80 + (if (attr / 0x800) % 2 == 1 then parts[i].offsetXFlip else parts[i].offsetX)
                && e.size == parts[i].size && e.attribut == attr + Tiles(parts, i)
              else e.y == 0
    {
      ScreenEntry(a, inputs, b, s, i);
    }
  }

  lemma OnScreenIs(a: Shot, inputs: seq<Input>, b: Shot, s: nat)
    requires AllOnScreen(a, Updating(inputs), b) && Sized(a) && |inputs| == |a.sprites| && s in a.list
    ensures s < |a.sprites| == |b.sprites| == |a.drawn| && Sized(b)
    ensures Ready(a.sprites[s], |a.slots[s]|, inputs[s]) && b.sprites[s].visibility != 0
            && (a.drawn[s] || !(a.sprites[s].needFrame && Delayed(a.sprites[s], inputs[s]))) ==>
              b.sprites[s].frame.Some? && Shown(See(b.sprites[s]), b.cache, a.slots[s])
  {
    hide Ready, Delayed, Shown, HiddenFrom, HiddenBy, Prepared;
    assert OnScreen(a, b, s, inputs[s]);
  }

  lemma GetsFrameIs(trace: seq<Shot>, events: seq<Event>, s: nat, k: nat)
    requires k < |events| && k < |trace| && GetsFrame(trace, events, s, k)
    ensures Sized(trace[k]) && s in trace[k].list && s < |trace[k].sprites| && events[k].Updating? && |events[k].inputs| == |trace[k].sprites|
    ensures Ready(trace[k].sprites[s], |trace[k].slots[s]|, events[k].inputs[s]) && !Delayed(trace[k].sprites[s], events[k].inputs[s])
    ensures !Calls(events[k], s, Leaving)
    ensures var r := SpriteAfter(trace[k], events[k], s); !r.needFrame && r.frame == Some(events[k].inputs[s].next)
  {
    hide Fits, Delayed, Written;
    WrittenIs(Prepared(trace[k].sprites[s], events[k].inputs[s]));
  }

  lemma CallIs(e: Event, s: nat, kind: Kind)
    requires Calls(e, s, kind)
    ensures e.On? && e.sprite == s && (kind != Leaving ==> !Calls(e, s, Leaving))
    ensures kind == Placing ==> e.call.Position?
    ensures kind == Colouring ==> e.call.Attributes?
    ensures kind == Revealing ==> e.call.Visibility?
  {
  }

  /** What the setters leave. */
  lemma AfterIs(a: Shot, e: Event, s: nat)
    requires Sized(a) && s in a.list && e.On? && e.sprite == s
    ensures s < |a.sprites|
    ensures var r := SpriteAfter(a, e, s);
            && (e.call.Position? ==> r.x == e.call.x + 0x80 && r.y == e.call.y + 0x80)
            && (e.call.Attributes? && e.call.attribut % 0x800 == a.sprites[s].attribut % 0x800 ==> r.attribut == e.call.attribut)
            && (e.call.Visibility? && (e.call.visibility == VISIBLE || e.call.visibility == HIDDEN) ==>
                  !r.autoVisibility && r.visibility == if e.call.visibility == VISIBLE then VISIBILITY_ON else 0)
  {
    hide SameFlip, CanDefine;
  }

  lemma KeepsIs(r: Sprite, r': Sprite, called: set<Kind>)
    requires Keeps(r, r', called)
    ensures Placing !in called ==> r'.x == r.x && r'.y == r.y
    ensures Colouring !in called && Defining !in called ==> r'.attribut == r.attribut
    ensures Revealing !in called && !r.autoVisibility ==> r'.visibility == r.visibility
    ensures Animating !in called && Defining !in called && !r.needFrame ==> !r'.needFrame && r'.frame == r.frame
  {
  }

  lemma SameSlots(a: Shot, inputs: seq<Input>, b: Shot)
    requires Step(a, Updating(inputs), b) && |inputs| == |a.sprites|
    ensures b.list == a.list && b.slots == a.slots && |b.sprites| == |a.sprites|
  {
  }

  // ----- A sprite hidden from the start

  function OnePart(): Input {
    Input(Frame([FrameSprite(0, 0, 0, 0, 0, 1)], 1), 0, 0, 0)
  }

  /** The only sprite, of one part, at (0, 0), visible or, with automatic visibility, not yet. */
  function Lone(auto: bool): Event {
    Adding(false, 1, true, 0, 0, 0, auto, false, false, false)
  }

  /** A visible sprite is drawn and released; the next one gets its entry, and is off the screen from the start: it is
      never written, and the hardware goes on showing what the other left. */
  lemma StaleEntries(trace: seq<Shot>, events: seq<Event>, inputs: seq<Input>, s: nat)
    requires |inputs| > 0 && forall k :: 0 <= k < |inputs| ==> inputs[k] == OnePart()
    requires events == [Lone(false), Updating(inputs), On(s, SpriteCall.Release), Lone(true), Updating(inputs)]
    requires Steps(trace, events) && trace[0].list == [] && |trace[0].sprites| == |inputs| && trace[0].free != []
    requires s in trace[1].list
    ensures var b := trace[5];
            && Sized(b) && |b.list| == 1
            && var r := b.list[0];
            && b.sprites[r].visibility == 0 && |b.slots[r]| == 1 && b.slots[r][0] < |b.cache| && b.cache[b.slots[r][0]].y == 0x80
  {
    StepsAt(trace, events, 0);
    StepsAt(trace, events, 1);
    StepsAt(trace, events, 2);
    StepsAt(trace, events, 3);
    StepsAt(trace, events, 4);
    StepsAt(trace, events, 5);
    hide *;
    LoneIs();
    ListedAlone(trace[0], trace[1], s);
    FiveSteps(trace[0], trace[1], trace[2], trace[3], trace[4], trace[5], inputs, s);
  }

  lemma ListedAlone(a: Shot, b: Shot, s: nat)
    requires Step(a, Lone(false), b) && a.list == [] && a.sprites != [] && a.free != [] && s in b.list
    ensures b.list == [s]
  {
    var e := LoneAdded(a, false, b);
    hide *;
    assert b.list == [b.list[0]];
  }

  lemma FiveSteps(t0: Shot, t1: Shot, t2: Shot, t3: Shot, t4: Shot, t5: Shot, inputs: seq<Input>, s: nat)
    requires Sound(t0) && Sound(t1) && Sound(t2) && Sound(t3) && Sound(t4) && Sound(t5)
    requires Step(t0, Lone(false), t1) && Step(t1, Updating(inputs), t2) && Step(t2, On(s, SpriteCall.Release), t3)
    requires Step(t3, Lone(true), t4) && Step(t4, Updating(inputs), t5)
    requires t0.list == [] && |t0.sprites| == |inputs| > 0 && t0.free != [] && t1.list == [s]
    requires forall k :: 0 <= k < |inputs| ==> inputs[k] == OnePart()
    ensures Sized(t5) && |t5.list| == 1
    ensures var r := t5.list[0]; t5.sprites[r].visibility == 0 && |t5.slots[r]| == 1 && t5.slots[r][0] < |t5.cache| && t5.cache[t5.slots[r][0]].y == 0x80
  {
    hide *;
    var e := LoneAdded(t0, false, t1);
    LoneDrawn(t1, inputs, t2, e);
    LoneReleased(t2, s, t3, e);
    var e' := LoneAdded(t3, true, t4);
    SoundSized(t5);
    LoneKept(t4, inputs, t5);
  }

  lemma SoundSized(a: Shot)
    requires Sound(a)
    ensures Sized(a) && |a.sprites| == |a.slots| == |a.drawn| && InRange(a.list, |a.sprites|)
  {
    hide AllGood, InRange;
  }

  lemma LoneAdded(a: Shot, auto: bool, b: Shot) returns (x: nat)
    requires Step(a, Lone(auto), b) && a.list == [] && a.sprites != [] && a.free != []
    ensures x == a.free[|a.free| - 1] && |b.list| == 1 && Sized(a) && |b.sprites| == |a.sprites| && b.list[0] < |a.sprites| == |b.slots|
    ensures b.sprites[b.list[0]] == Created(Lone(auto)) && b.slots[b.list[0]] == [x] && b.cache == a.cache
  {
    hide Created;
    x := a.free[|a.free| - 1];
    var s :| Joined(a, Lone(auto), b, s);
    assert Top(a.free, 1) == [x];
  }

  lemma LoneDrawn(a: Shot, inputs: seq<Input>, b: Shot, x: nat)
    requires Step(a, Updating(inputs), b) && Sound(a) && Sound(b) && |a.list| == 1 && |inputs| == |a.sprites| && a.list[0] < |a.sprites|
    requires a.sprites[a.list[0]] == Created(Lone(false)) && a.slots[a.list[0]] == [x] && inputs[a.list[0]] == OnePart()
    ensures b.list == a.list && b.slots == a.slots && |b.sprites| == |a.sprites| && x < |b.cache| && b.cache[x].y == 0x80
  {
    var s := a.list[0];
    StepShows(a, Updating(inputs), b);
    SameSlots(a, inputs, b);
    assert s in a.list;
    OneFits();
    StepSprite(a, Updating(inputs), b, s);
    WrittenIs(Prepared(a.sprites[s], inputs[s]));
    assert OnScreen(a, b, s, inputs[s]);
    var r := b.sprites[s];
    hide *;
    LoneShown(r, b.cache, x);
  }

  lemma LoneReleased(a: Shot, s: nat, b: Shot, x: nat)
    requires Step(a, On(s, SpriteCall.Release), b) && a.list == [s] && s < |a.slots| && a.slots[s] == [x]
    ensures b.list == [] && b.cache == a.cache && b.sprites == a.sprites && b.free != [] && b.free[|b.free| - 1] == x
  {
    var k: nat :| Released(a, s, b, k);
  }

  lemma LoneKept(a: Shot, inputs: seq<Input>, b: Shot)
    requires Step(a, Updating(inputs), b) && |a.list| == 1 && |inputs| == |a.sprites| && a.list[0] < |a.sprites| && Sized(b)
    requires a.sprites[a.list[0]] == Created(Lone(true)) && |a.slots[a.list[0]]| == 1 && inputs[a.list[0]] == OnePart()
    ensures b.list == a.list && b.slots == a.slots && |b.sprites| == |a.sprites| && b.sprites[b.list[0]].visibility == 0
    ensures a.slots[a.list[0]][0] < |b.cache| && b.cache[a.slots[a.list[0]][0]] == a.cache[a.slots[a.list[0]][0]]
  {
    var s := a.list[0];
    SameSlots(a, inputs, b);
    OneFits();
    assert s in a.list && Turned(a, b, s, inputs[s]);
  }

  lemma OneFits()
    ensures Ready(Created(Lone(false)), 1, OnePart()) && Ready(Created(Lone(true)), 1, OnePart())
  {
    assert Tiles(OnePart().next.parts, 1) == Tiles(OnePart().next.parts, 0) + 1;
  }

  lemma LoneShown(r: Sprite, c: seq<Attr>, x: nat)
    requires r.frame == Some(OnePart().next) && Shown(See(r), c, [x]) && r.y == 0x80 && r.visibility == VISIBILITY_ON
    ensures x < |c| && c[x].y == 0x80
  {
    assert [x][0] == x;
    assert ShownEntry(See(r), 0, c[x]);
  }

  /** The calls of `StaleEntries`. */
  method StaleRun(cache: seq<Attr>, sprites: seq<Sprite>) returns (d: Display, sprite: nat)
    requires |cache| == CACHE_SIZE && sprites != []
    ensures fresh(d) && d.Valid() && d.Now().list == [sprite] && sprite < |d.Now().sprites| == |d.Now().slots|
    ensures d.Now().sprites[sprite].visibility == 0 && d.Now().slots[sprite] != []
    ensures var x := d.Now().slots[sprite][0];
            && x in Visit(d.engine.vdp.link, 0, SAT_MAX_SIZE)
            && x < |d.cache| && d.cache[x].y == 0x80
  {
    hide *;
    Constants();
    NullIs();
    d := new Display(|sprites|, cache, sprites);
    var inputs := seq(|sprites|, _ => OnePart());
    LoneIs();
    d.NowIs();
    ghost var t0 := d.Now();
    d.SizedNow();
    var s := d.AddSprite(Lone(false));
    ghost var t1 := d.Now();
    d.SizedNow();
    d.NowIs();
    LoneCount(t0, false, t1, s);
    d.Update(inputs);
    ghost var t2 := d.Now();
    d.SizedNow();
    SameSlots(t1, inputs, t2);
    d.NowIs();
    d.ReleaseSprite(s);
    ghost var t3 := d.Now();
    d.SizedNow();
    LoneGone(t2, s, t3);
    d.NowIs();
    var s' := d.AddSprite(Lone(true));
    ghost var t4 := d.Now();
    d.SizedNow();
    d.NowIs();
    LoneCount(t3, true, t4, s');
    sprite := s';
    d.Update(inputs);
    d.SizedNow();
    SameSlots(t4, inputs, d.Now());
    FiveSteps(t0, t1, t2, t3, t4, d.Now(), inputs, s);
    d.Visited();
    d.NowIs();
    SizedIs(d.Now());
    InFlatten(d.Now().slots, d.Now().list, s', d.Now().slots[s'][0]);
    ChainHas(d.Now().slots, d.Now().list, d.Now().slots[s'][0]);
  }

  lemma LoneIs()
    ensures Lone(false).Adding? && Lone(false).count == 1 && !Lone(false).head && Lone(true).Adding? && Lone(true).count == 1 && !Lone(true).head
  {
  }

  lemma SizedIs(a: Shot)
    requires Sized(a)
    ensures |a.sprites| == |a.drawn| == |a.slots| && |a.cache| == CACHE_SIZE && InRange(a.list, |a.sprites|)
  {
  }

  lemma LoneGone(a: Shot, s: nat, b: Shot)
    requires Step(a, On(s, SpriteCall.Release), b) && a.list == [s] && s < |a.slots| && a.slots[s] != []
    ensures b.list == [] && b.sprites == a.sprites && b.free != []
  {
    var k: nat :| Released(a, s, b, k);
  }

  lemma LoneCount(a: Shot, auto: bool, b: Shot, s: int)
    requires Step(a, Lone(auto), b) && a.list == [] && a.sprites != [] && a.free != []
    requires if s == NULL then b.list == a.list else s >= 0 && b.list == [s]
    ensures s >= 0 && b.list == [s] && |b.sprites| == |a.sprites| && s < |b.sprites| == |b.slots| && |b.slots[s]| == 1
  {
    var x := LoneAdded(a, auto, b);
  }

  lemma ChainHas(slots: seq<seq<nat>>, l: seq<nat>, x: nat)
    requires InRange(l, |slots|) && x in Flatten(slots, l)
    ensures x in Chain(slots, l)
  {
  }
}
