/** The hardware sprites that make up an animation frame, as both sprite engines use them. */
module Frames {
  import opened Machine

  const TILE_ATTR_VFLIP_MASK := 0x1000
  const TILE_ATTR_HFLIP_MASK := 0x0800

  /** One hardware sprite of a frame: where it is drawn, plain or flipped, and how many tiles it has. */
  datatype FrameSprite = FrameSprite(offsetY: int, offsetYFlip: int, offsetX: int, offsetXFlip: int, size: nat, numTile: nat)

  function Flag(attr: nat, bit: nat): bool
    requires bit > 0
  {
    (attr / bit) % 2 == 1
  }

  /** Bit 12 of the attribute flips vertically, bit 11 horizontally. */
  predicate FlipsY(attribut: u16) {
    (attribut / 0x1000) % 2 == 1
  }

  predicate FlipsX(attribut: u16) {
    (attribut / 0x800) % 2 == 1
  }

  function Pow2(k: nat): (p: nat)
    ensures p > 0
  {
    if k == 0 then 1 else 2 * Pow2(k - 1)
  }

  /** The tiles of the parts before part `i`. */
  function Tiles(parts: seq<FrameSprite>, i: nat): nat
    requires i <= |parts|
  {
    if i == 0 then 0 else Tiles(parts, i - 1) + parts[i - 1].numTile
  }

  lemma WrapAdd(a: nat, b: nat)
    ensures Wrap16(Wrap16(a) + b) == Wrap16(a + b)
  {
    var k := a / 0x1_0000;
    assert a == 0x1_0000 * k + Wrap16(a);
    AddMultiple(Wrap16(a) + b, 0x1_0000, k);
  }
}
