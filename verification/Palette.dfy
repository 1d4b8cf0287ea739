/** The palette fade of `src/pal.c`: every channel of every colour moves in equal steps of an 8-bit
    fraction from its source to its destination level. */
module Palette {
  import opened Machine

  const ROUND_VAL := 127

  // ----- Colours

  /** The levels of a colour, 0 to 7. */
  function Red(c: u16): nat {
    (c / 2) % 8
  }

  function Green(c: u16): nat {
    (c / 32) % 8
  }

  function Blue(c: u16): nat {
    (c / 512) % 8
  }

  /** The levels are bits 1 to 3, 5 to 7 and 9 to 11. */
  lemma LevelsAre(r: nat, g: nat, b: nat, x0: nat, x4: nat, x8: nat, high: nat)
    requires r < 8 && g < 8 && b < 8 && x0 < 2 && x4 < 2 && x8 < 2 && high < 16
    ensures var c := x0 + 2 * r + 16 * x4 + 32 * g + 256 * x8 + 512 * b + 4096 * high;
            Red(c) == r && Green(c) == g && Blue(c) == b && Masked(c) == 2 * r + 32 * g + 512 * b
  {
    var c := x0 + 2 * r + 16 * x4 + 32 * g + 256 * x8 + 512 * b + 4096 * high;
    DivUnique(c, 2, r + 8 * (x4 + 2 * g + 16 * x8 + 32 * b + 256 * high), x0);
    DivUnique(c / 2, 8, x4 + 2 * g + 16 * x8 + 32 * b + 256 * high, r);
    DivUnique(c, 32, g + 8 * (x8 + 2 * b + 16 * high), x0 + 2 * r + 16 * x4);
    DivUnique(c / 32, 8, x8 + 2 * b + 16 * high, g);
    DivUnique(c, 512, b + 8 * high, x0 + 2 * r + 16 * x4 + 32 * g + 256 * x8);
    DivUnique(c / 512, 8, high, b);
    Kept(r);
    Kept(g);
    Kept(b);
  }

  /** The colour with the given levels, of which three bits are kept. */
  function Compose(r: nat, g: nat, b: nat): (c: u16) {
    (r % 8) * 2 + (g % 8) * 32 + (b % 8) * 512
  }

  /** A colour gives its levels back. */
  lemma ComposeLevels(r: nat, g: nat, b: nat)
    requires r < 8 && g < 8 && b < 8
    ensures var c := Compose(r, g, b); Red(c) == r && Green(c) == g && Blue(c) == b
  {
    Kept(r);
    Kept(g);
    Kept(b);
    var c := Compose(r, g, b);
    assert c == r * 2 + g * 32 + b * 512;
    hide Compose;
    DivUnique(c, 2, r + g * 16 + b * 256, 0);
    DivUnique(c / 2, 8, g * 2 + b * 32, r);
    DivUnique(c, 32, g + b * 16, r * 2);
    DivUnique(c / 32, 8, b * 2, g);
    DivUnique(c, 512, b, r * 2 + g * 32);
    Kept(c / 512);
  }

  lemma Kept(x: nat)
    requires x < 8
    ensures x % 8 == x
  {
  }

  /** A colour masked with 0x0EEE. */
  function Masked(c: u16): u16 {
    Compose(Red(c), Green(c), Blue(c))
  }

  // ----- One channel

  /** Division that truncates toward zero. */
  function Truncated(a: int, n: nat): int
    requires n > 0
  {
    if a >= 0 then a / n else -((-a) / n)
  }

  function Step(s: nat, d: nat, n: nat): int
    requires n > 0
  {
    Truncated(d * 256 - s * 256, n)
  }

  /** The step for a number of frames read as a signed 16-bit number. */
  function SignedStep(s: nat, d: nat, m: int): int
    requires m != 0
  {
    if m > 0 then Step(s, d, m) else -Step(s, d, -m)
  }

  /** The fraction a channel has reached after `k` steps. */
  function Fraction(s: nat, d: nat, n: nat, k: nat): int
    requires n > 0
  {
    s * 256 + ROUND_VAL + k * Step(s, d, n)
  }

  function Level(s: nat, d: nat, n: nat, k: nat): int
    requires n > 0
  {
    Fraction(s, d, n, k) / 256
  }

  /** What the steps fall short of the way. */
  function Rest(s: nat, d: nat, n: nat): nat
    requires n > 0
  {
    if d >= s then ((d - s) * 256) % n else ((s - d) * 256) % n
  }

  lemma StepRest(s: nat, d: nat, n: nat)
    requires n > 0
    ensures d >= s ==> Step(s, d, n) >= 0 && n * Step(s, d, n) == (d - s) * 256 - Rest(s, d, n)
    ensures d <= s ==> Step(s, d, n) <= 0 && n * Step(s, d, n) == (d - s) * 256 + Rest(s, d, n)
    ensures Rest(s, d, n) < n
  {
    var a: nat := if d >= s then (d - s) * 256 else (s - d) * 256;
    Divide(a, n);
    assert d * 256 - s * 256 == (d - s) * 256;
    if d < s {
      Negative(n, a / n);
    }
  }

  lemma Negative(n: nat, q: int)
    ensures n * -q == -(n * q)
  {
  }

  /** After all steps the channel is at its destination if and only if what the steps fall short of fits
      into the rounding. */
  lemma LevelEnds(s: nat, d: nat, n: nat)
    requires n > 0
    ensures Level(s, d, n, n) == d <==> Rest(s, d, n) <= if d >= s then 127 else 128
  {
    StepRest(s, d, n);
    var r := Rest(s, d, n);
    hide Step, Rest;
    assert Fraction(s, d, n, n) == if d >= s then d * 256 + 127 - r else d * 256 + 127 + r;
  }

  /** Before the first step it is at its source. */
  lemma LevelStarts(s: nat, d: nat, n: nat)
    requires n > 0
    ensures Level(s, d, n, 0) == s
  {
    FractionStart(s, d, n);
    hide Fraction;
    DivUnique(s * 256 + 127, 256, s, 127);
  }

  /** In particular within 128 steps. */
  lemma LevelEndsSoon(s: nat, d: nat, n: nat)
    requires 1 <= n <= 128
    ensures Level(s, d, n, n) == d
  {
    StepRest(s, d, n);
    LevelEnds(s, d, n);
  }

  /** With every step the level moves towards the destination or stays, and never passes it. */
  lemma LevelMoves(s: nat, d: nat, n: nat, k: nat)
    requires n > 0 && k < n
    ensures d >= s ==> s <= Level(s, d, n, k) <= Level(s, d, n, k + 1) <= d
    ensures d <= s ==> s >= Level(s, d, n, k) >= Level(s, d, n, k + 1) >= d
  {
    StepRest(s, d, n);
    var e := Step(s, d, n);
    hide Step, Rest;
    Distribute(e, k, 1);
    if d >= s {
      MulMono(e, 0, k);
      MulMono(e, k + 1, n);
    } else {
      var f: nat := -e;
      MulMono(f, 0, k);
      MulMono(f, k + 1, n);
      Negative(k, f);
      Negative(k + 1, f);
      Negative(n, f);
    }
  }

  // ----- The fade

  /** Colour `i` after `k` of `n` steps. */
  function ColorAt(s: u16, d: u16, n: nat, k: nat): u16
    requires 0 < n && k <= n
  {
    LevelBounds(s, d, n, k);
    Compose(Level(Red(s), Red(d), n, k), Level(Green(s), Green(d), n, k), Level(Blue(s), Blue(d), n, k))
  }

  lemma LevelBound(s: nat, d: nat, n: nat, k: nat)
    requires 0 < n && k <= n && s < 8 && d < 8
    ensures 0 <= Level(s, d, n, k) < 8 && 0 <= Fraction(s, d, n, k) < 2048
  {
    if k < n {
      LevelMoves(s, d, n, k);
    } else {
      LevelMoves(s, d, n, k - 1);
    }
    hide Step;
  }

  lemma LevelBounds(s: u16, d: u16, n: nat, k: nat)
    requires 0 < n && k <= n
    ensures 0 <= Level(Red(s), Red(d), n, k) < 8 && 0 <= Level(Green(s), Green(d), n, k) < 8 && 0 <= Level(Blue(s), Blue(d), n, k) < 8
    ensures 0 <= Fraction(Red(s), Red(d), n, k) < 2048 && 0 <= Fraction(Green(s), Green(d), n, k) < 2048 && 0 <= Fraction(Blue(s), Blue(d), n, k) < 2048
  {
    LevelBound(Red(s), Red(d), n, k);
    LevelBound(Green(s), Green(d), n, k);
    LevelBound(Blue(s), Blue(d), n, k);
  }

  /** The fade of a colour ends at the destination, masked, if and only if all its channels do. */
  lemma FadeEnds(s: u16, d: u16, n: nat)
    requires n > 0
    ensures ColorAt(s, d, n, n) == Masked(d) <==>
            && Rest(Red(s), Red(d), n) <= (if Red(d) >= Red(s) then 127 else 128)
            && Rest(Green(s), Green(d), n) <= (if Green(d) >= Green(s) then 127 else 128)
            && Rest(Blue(s), Blue(d), n) <= (if Blue(d) >= Blue(s) then 127 else 128)
  {
    LevelEnds(Red(s), Red(d), n);
    LevelEnds(Green(s), Green(d), n);
    LevelEnds(Blue(s), Blue(d), n);
    LevelBounds(s, d, n, n);
    var r, g, b := Level(Red(s), Red(d), n, n), Level(Green(s), Green(d), n, n), Level(Blue(s), Blue(d), n, n);
    ComposeLevels(r, g, b);
    ComposeLevels(Red(d), Green(d), Blue(d));
    hide Level, Rest, Compose, Red, Green, Blue;
  }

  lemma FadeEndsSoon(s: u16, d: u16, n: nat)
    requires 1 <= n <= 128
    ensures ColorAt(s, d, n, n) == Masked(d)
  {
    LevelEndsSoon(Red(s), Red(d), n);
    LevelEndsSoon(Green(s), Green(d), n);
    LevelEndsSoon(Blue(s), Blue(d), n);
    hide Level, Red, Green, Blue, Compose;
  }

  /** A slower fade may miss the destination: from black to the next red in 300 steps nothing moves. */
  lemma SlowFadeMisses()
    ensures ColorAt(0x000, 0x002, 300, 300) != Masked(0x002)
  {
    hide *;
    SlowParts();
    FadeEnds(0x000, 0x002, 300);
  }

  lemma SlowParts()
    ensures Red(0x000) == 0 && Red(0x002) == 1 && Rest(0, 1, 300) == 256
  {
  }

  /** Every step moves each channel of the colour towards its destination, or leaves it. */
  lemma ColorMoves(s: u16, d: u16, n: nat, k: nat)
    requires n > 0 && k < n
    ensures var c, c' := ColorAt(s, d, n, k), ColorAt(s, d, n, k + 1);
            && Between(Red(s), Red(c), Red(c'), Red(d))
            && Between(Green(s), Green(c), Green(c'), Green(d))
            && Between(Blue(s), Blue(c), Blue(c'), Blue(d))
  {
    LevelMoves(Red(s), Red(d), n, k);
    LevelMoves(Green(s), Green(d), n, k);
    LevelMoves(Blue(s), Blue(d), n, k);
    LevelBounds(s, d, n, k);
    LevelBounds(s, d, n, k + 1);
    ComposeLevels(Level(Red(s), Red(d), n, k), Level(Green(s), Green(d), n, k), Level(Blue(s), Blue(d), n, k));
    ComposeLevels(Level(Red(s), Red(d), n, k + 1), Level(Green(s), Green(d), n, k + 1), Level(Blue(s), Blue(d), n, k + 1));
    hide Level, Red, Green, Blue, Compose;
  }

  /** In one direction from `a` to `d`. */
  predicate Between(a: nat, b: nat, c: nat, d: nat) {
    a <= b <= c <= d || a >= b >= c >= d
  }

  /** The fractions and the steps of all colours, channel by channel. */
  datatype Channels = Channels(r: seq<int>, g: seq<int>, b: seq<int>, sr: seq<int>, sg: seq<int>, sb: seq<int>)

  /** Colour `i` is on its way, `k` of `n` steps done. */
  ghost predicate OnWay(c: Channels, src: seq<u16>, dst: seq<u16>, n: nat, k: nat, i: nat)
    requires i < |src| == |dst| && n > 0
  {
    && i < |c.r| == |c.g| == |c.b| && i < |c.sr| == |c.sg| == |c.sb|
    && c.sr[i] == Step(Red(src[i]), Red(dst[i]), n) && c.r[i] == Fraction(Red(src[i]), Red(dst[i]), n, k)
    && c.sg[i] == Step(Green(src[i]), Green(dst[i]), n) && c.g[i] == Fraction(Green(src[i]), Green(dst[i]), n, k)
    && c.sb[i] == Step(Blue(src[i]), Blue(dst[i]), n) && c.b[i] == Fraction(Blue(src[i]), Blue(dst[i]), n, k)
  }

  ghost predicate AllOnWay(c: Channels, src: seq<u16>, dst: seq<u16>, n: nat, k: nat) {
    && |src| == |dst| == |c.r| == |c.g| == |c.b| == |c.sr| == |c.sg| == |c.sb| && n > 0
    && forall i: nat :: i < |src| ==> OnWay(c, src, dst, n, k, i)
  }

  lemma FractionStep(s: nat, d: nat, n: nat, k: nat)
    requires n > 0
    ensures Fraction(s, d, n, k) + Step(s, d, n) == Fraction(s, d, n, k + 1)
  {
    hide Step;
    Distribute(Step(s, d, n), k, 1);
  }

  lemma FractionStart(s: nat, d: nat, n: nat)
    requires n > 0
    ensures Fraction(s, d, n, 0) == s * 256 + ROUND_VAL
  {
    hide Step;
  }

  /** The loop of `PAL_initFade`. */
  method Prepare(src: seq<u16>, dst: seq<u16>, m: int) returns (c: Channels)
    requires |src| == |dst| && m != 0
    ensures m > 0 ==> AllOnWay(c, src, dst, m, 0)
  {
    hide Step, Fraction, Red, Green, Blue;
    ghost var n := if m > 0 then m else 1;
    c := Channels([], [], [], [], [], []);
    var i: nat := 0;
    while i < |src|
      invariant i <= |src| && |c.r| == |c.g| == |c.b| == |c.sr| == |c.sg| == |c.sb| == i
      invariant m > 0 ==> forall j: nat :: j < i ==> OnWay(c, src, dst, n, 0, j)
    {
      var s, d := src[i], dst[i];
      FractionStart(Red(s), Red(d), n);
      FractionStart(Green(s), Green(d), n);
      FractionStart(Blue(s), Blue(d), n);
      ghost var before := c;
      c := Channels(c.r + [Red(s) * 256 + ROUND_VAL], c.g + [Green(s) * 256 + ROUND_VAL], c.b + [Blue(s) * 256 + ROUND_VAL],
                    c.sr + [SignedStep(Red(s), Red(d), m)], c.sg + [SignedStep(Green(s), Green(d), m)],
                    c.sb + [SignedStep(Blue(s), Blue(d), m)]);
      if m > 0 {
        forall j: nat | j < i ensures OnWay(c, src, dst, n, 0, j) {
          assert OnWay(before, src, dst, n, 0, j);
        }
      }
      i := i + 1;
    }
  }

  /** The loop of `PAL_doFadeStep`: the next fractions, and their colours. */
  method Advance(c: Channels, ghost src: seq<u16>, ghost dst: seq<u16>, ghost n: nat, ghost k: nat) returns (c': Channels, colors: seq<u16>)
    requires AllOnWay(c, src, dst, n, k) && k < n
    ensures AllOnWay(c', src, dst, n, k + 1) && c'.sr == c.sr && c'.sg == c.sg && c'.sb == c.sb
    ensures |colors| == |src| && forall i: nat :: i < |src| ==> colors[i] == ColorAt(src[i], dst[i], n, k + 1)
  {
    hide Step, Fraction, Red, Green, Blue, Compose;
    c' := Channels([], [], [], c.sr, c.sg, c.sb);
    colors := [];
    ghost var m: nat := k + 1;
    var i: nat := 0;
    while i < |c.r|
      invariant i <= |c.r| && |c'.r| == |c'.g| == |c'.b| == |colors| == i && c'.sr == c.sr && c'.sg == c.sg && c'.sb == c.sb
      invariant forall j: nat :: j < i ==> OnWay(c', src, dst, n, m, j)
      invariant forall j: nat :: j < i ==> colors[j] == ColorAt(src[j], dst[j], n, k + 1)
    {
      assert OnWay(c, src, dst, n, k, i);
      FractionStep(Red(src[i]), Red(dst[i]), n, k);
      FractionStep(Green(src[i]), Green(dst[i]), n, k);
      FractionStep(Blue(src[i]), Blue(dst[i]), n, k);
      LevelBounds(src[i], dst[i], n, k + 1);
      var r: nat, g: nat, b: nat := c.r[i] + c.sr[i], c.g[i] + c.sg[i], c.b[i] + c.sb[i];
      ghost var before := c';
      c' := c'.(r := c'.r + [r], g := c'.g + [g], b := c'.b + [b]);
      colors := colors + [Compose(r / 256, g / 256, b / 256)];
      forall j: nat | j < i ensures OnWay(c', src, dst, n, m, j) {
        assert OnWay(before, src, dst, n, m, j);
      }
      i := i + 1;
    }
  }

  class Fade {
    var current: seq<u16>
    var channels: Channels
    var counter: int

    /** The palettes and the number of steps asked for. */
    ghost var src: seq<u16>
    ghost var dst: seq<u16>
    ghost var frames: nat

    ghost predicate Valid()
      reads this
    {
      && 0 < frames && counter <= frames && |src| == |dst| == |current|
      && (counter < 0 ==> current == src)
      && (counter >= 0 ==> AllOnWay(channels, src, dst, frames, frames - counter))
      && (counter >= 0 ==> forall i: nat :: i < |src| ==>
            current[i] == if counter == frames then src[i] else ColorAt(src[i], dst[i], frames, frames - counter))
    }

    constructor ()
      ensures Valid() && counter == 0
    {
      current, channels, counter := [], Channels([], [], [], [], [], []), 0;
      src, dst, frames := [], [], 1;
    }

    /** `PAL_initFade`: nothing fades in no steps, and a fade of 32768 steps or more, whose counter is negative,
        never leaves its source. */
    method Init(palSrc: seq<u16>, palDst: seq<u16>, numFrame: u16) returns (ok: bool)
      requires Valid() && |palSrc| == |palDst|
      modifies this
      ensures Valid() && (ok <==> numFrame != 0)
      ensures ok ==> src == palSrc && dst == palDst && frames == numFrame && current == palSrc
      ensures ok ==> counter == if numFrame < 0x8000 then numFrame else numFrame - 0x1_0000
      ensures !ok ==> current == old(current) && counter == old(counter)
    {
      if numFrame == 0 {
        return false;
      }
      hide AllOnWay, ColorAt;
      current, counter := palSrc, if numFrame < 0x8000 then numFrame else numFrame - 0x1_0000;
      src, dst, frames := palSrc, palDst, numFrame;
      channels := Prepare(palSrc, palDst, counter);
      ok := true;
    }

    /** `PAL_doFadeStep`: one more step, and whether there are more to come. After `frames` of them every
        colour is that of `ColorAt` after `frames` steps. */
    method DoStep() returns (more: bool)
      requires Valid()
      modifies `current, `channels, `counter
      ensures Valid() && (more <==> counter > 0)
      ensures counter == (if old(counter) <= 0 then old(counter) else old(counter) - 1)
      ensures old(counter) <= 0 ==> current == old(current)
      ensures old(counter) > 0 ==> forall i: nat :: i < |src| ==> current[i] == ColorAt(src[i], dst[i], frames, frames - counter)
    {
      if counter <= 0 {
        return false;
      }
      hide AllOnWay, ColorAt;
      ghost var k: nat := frames - counter;
      var c, colors := Advance(channels, src, dst, frames, k);
      channels, current := c, colors;
      counter := counter - 1;
      more := counter > 0;
    }
  }
}
