/** The scaler `BMP_scale` of `src/bmp.c`: two error accumulators stand in for the divisions. */
module BitmapScale {
  import opened Machine

  // ----- One accumulator

  /** Exact division of `x * w` by `to`, and its remainder. */
  function Quo(w: nat, to: nat, x: nat): nat
    requires to > 0
  {
    Divide(x * w, to);
    x * w / to
  }

  function Err(w: nat, to: nat, x: nat): nat
    requires to > 0
  {
    Divide(x * w, to);
    (x * w) % to
  }

  /** What the loop holds: the source position, and the error term in 16 bits. */
  datatype Cursor = Cursor(pos: int, err: s16)

  /** One turn of the loop. */
  function Advance(c: Cursor, d: nat, r: nat, to: nat): Cursor {
    var e := S16(c.err + r);
    if e >= S16(to) then Cursor(c.pos + d + 1, S16(e - to)) else Cursor(c.pos + d, e)
  }

  function PerStep(w: nat, to: nat): nat
    requires to > 0
  {
    Divide(w, to);
    w / to
  }

  function ErrorPerStep(w: nat, to: nat): (r: nat)
    requires to > 0
    ensures r < to
  {
    w % to
  }

  /** The loop after `x` turns. */
  function Walk(w: nat, to: nat, x: nat): Cursor
    requires to > 0
  {
    if x == 0 then Cursor(0, 0) else Advance(Walk(w, to, x - 1), PerStep(w, to), ErrorPerStep(w, to), to)
  }

  /** The signed 16-bit comparison of an error sum with the divisor says what the exact one does. */
  predicate Compares(v: nat, to: nat) {
    S16(v) >= S16(to) <==> v >= to
  }

  /** It does so at every turn. */
  ghost predicate ErrorsFit(w: nat, to: nat)
    requires to > 0
  {
    forall x: nat :: x < to ==> FitsAt(w, to, x)
  }

  predicate FitsAt(w: nat, to: nat, x: nat)
    requires to > 0
  {
    Compares(Err(w, to, x) + ErrorPerStep(w, to), to)
  }

  lemma QuoErr(w: nat, to: nat, x: nat)
    requires to > 0
    ensures x * w == to * Quo(w, to, x) + Err(w, to, x) && Err(w, to, x) < to
  {
    Divide(x * w, to);
  }

  lemma QuoIs(w: nat, to: nat, x: nat, q: nat, e: nat)
    requires e < to && x * w == to * q + e
    ensures Quo(w, to, x) == q && Err(w, to, x) == e
  {
    DivUnique(x * w, to, q, e);
  }

  /** One step of exact division. */
  lemma QuoNext(w: nat, to: nat, x: nat)
    requires to > 0
    ensures var v, q := Err(w, to, x) + ErrorPerStep(w, to), Quo(w, to, x) + PerStep(w, to);
            && (v < to ==> Quo(w, to, x + 1) == q && Err(w, to, x + 1) == v)
            && (v >= to ==> Quo(w, to, x + 1) == q + 1 && Err(w, to, x + 1) == v - to)
  {
    Divide(w, to);
    var d, r := PerStep(w, to), ErrorPerStep(w, to);
    assert w == to * d + r;
    hide PerStep, ErrorPerStep, Quo, Err;
    QuoErr(w, to, x);
    var q, e := Quo(w, to, x), Err(w, to, x);
    Accumulate(x, w, to, q, e, d, r);
    if e + r < to {
      QuoIs(w, to, x + 1, q + d, e + r);
    } else {
      QuoIs(w, to, x + 1, q + d + 1, e + r - to);
    }
  }

  lemma Accumulate(x: nat, w: nat, to: nat, q: nat, e: nat, d: nat, r: nat)
    requires to > 0 && x * w == to * q + e && e < to && w == to * d + r && r < to
    ensures e + r < to ==> (x + 1) * w == to * (q + d) + (e + r)
    ensures e + r >= to ==> (x + 1) * w == to * (q + d + 1) + (e + r - to) && e + r - to < to
  {
    Distribute(w, x, 1);
    Distribute(to, q, d);
    Distribute(to, q + d, 1);
  }

  lemma QuoStart(w: nat, to: nat)
    requires to > 0
    ensures Quo(w, to, 0) == 0 && Err(w, to, 0) == 0 && Walk(w, to, 0) == Cursor(0, 0) && S16(0) == 0
  {
    QuoIs(w, to, 0, 0, 0);
  }

  /** As long as the comparisons are right the loop is at the exact quotient. */
  ghost predicate Right(w: nat, to: nat, x: nat)
    requires to > 0
  {
    Walk(w, to, x) == Cursor(Quo(w, to, x), S16(Err(w, to, x)))
  }

  /** A right turn leads to a right place, a wrong one to the place next to it. */
  lemma WalkNext(w: nat, to: nat, x: nat)
    requires to > 0 && Right(w, to, x)
    ensures FitsAt(w, to, x) ==> Right(w, to, x + 1)
    ensures !FitsAt(w, to, x) ==> Walk(w, to, x + 1).pos != Quo(w, to, x + 1)
  {
    hide *;
    var d, r, e, q := PerStep(w, to), ErrorPerStep(w, to), Err(w, to, x), Quo(w, to, x);
    RightMeans(w, to, x);
    RightMeans(w, to, x + 1);
    WalkStep(w, to, x);
    QuoNext(w, to, x);
    S16Step(e, r);
    var back: int := 0 - to;
    S16Step(e + r, back);
    AdvanceIs(Cursor(q, S16(e)), d, r, to);
    FitsMeans(w, to, x);
  }

  lemma RightMeans(w: nat, to: nat, x: nat)
    requires to > 0
    ensures Right(w, to, x) <==> Walk(w, to, x) == Cursor(Quo(w, to, x), S16(Err(w, to, x)))
  {
  }

  lemma WalkStep(w: nat, to: nat, x: nat)
    requires to > 0
    ensures Walk(w, to, x + 1) == Advance(Walk(w, to, x), PerStep(w, to), ErrorPerStep(w, to), to)
  {
  }

  lemma AdvanceIs(c: Cursor, d: nat, r: nat, to: nat)
    ensures var e := S16(c.err + r);
            Advance(c, d, r, to) == if e >= S16(to) then Cursor(c.pos + d + 1, S16(e - to)) else Cursor(c.pos + d, e)
  {
  }

  lemma FitsMeans(w: nat, to: nat, x: nat)
    requires to > 0
    ensures var v := Err(w, to, x) + ErrorPerStep(w, to);
            FitsAt(w, to, x) <==> (S16(v) >= S16(to) <==> v >= to)
  {
  }

  lemma {:induction false} WalkRight(w: nat, to: nat, x: nat)
    requires to > 0 && forall j: nat :: j < x ==> FitsAt(w, to, j)
    ensures Right(w, to, x)
  {
    hide FitsAt, Right;
    if x == 0 {
      RightStart(w, to);
    } else {
      WalkRight(w, to, x - 1);
      WalkNext(w, to, x - 1);
    }
  }

  lemma RightStart(w: nat, to: nat)
    requires to > 0
    ensures Right(w, to, 0)
  {
    QuoStart(w, to);
  }

  /** The last turn of a line is right if the others are: the error sum is then 0 or the divisor. */
  lemma LastFits(w: nat, to: nat)
    requires to > 0 && (to > 1 ==> FitsAt(w, to, 0))
    ensures FitsAt(w, to, to - 1)
  {
    QuoNext(w, to, to - 1);
    QuoIs(w, to, to, w, 0);
    QuoStart(w, to);
    hide Quo, Err, ErrorPerStep, PerStep, Walk;
    SmallS16(to);
  }

  lemma SmallS16(to: nat)
    ensures to == 1 ==> S16(to) == 1
    ensures S16(0) == 0
  {
  }

  /** All positions of a line are exact if and only if all comparisons are right. */
  lemma PositionsExact(w: nat, to: nat)
    requires to > 0
    ensures (forall x: nat :: x < to ==> Walk(w, to, x).pos == Quo(w, to, x)) <==> ErrorsFit(w, to)
  {
    hide FitsAt, Right, Walk, Quo;
    if ErrorsFit(w, to) {
      forall x: nat | x < to ensures Walk(w, to, x).pos == Quo(w, to, x) {
        WalkRight(w, to, x);
        RightIs(w, to, x);
      }
    } else {
      var x: nat :| x < to && !FitsAt(w, to, x);
      var y := FirstMisfit(w, to, x);
      WalkRight(w, to, y);
      WalkNext(w, to, y);
      if y == to - 1 {
        LastFits(w, to);
      }
      assert y + 1 < to && Walk(w, to, y + 1).pos != Quo(w, to, y + 1);
    }
  }

  lemma RightIs(w: nat, to: nat, x: nat)
    requires to > 0 && Right(w, to, x)
    ensures Walk(w, to, x).pos == Quo(w, to, x)
  {
  }

  lemma {:induction false} FirstMisfit(w: nat, to: nat, x: nat) returns (y: nat)
    requires to > 0 && !FitsAt(w, to, x)
    ensures y <= x && !FitsAt(w, to, y) && forall j: nat :: j < y ==> FitsAt(w, to, j)
  {
    hide FitsAt;
    if j: nat :| j < x && !FitsAt(w, to, j) {
      y := FirstMisfit(w, to, j);
    } else {
      y := x;
    }
  }

  // ----- When the comparisons are right

  /** The greatest common divisor. */
  function Gcd(a: nat, b: nat): nat
    decreases b
  {
    if b == 0 then a else Gcd(b, a % b)
  }

  lemma {:induction false} GcdDivides(a: nat, b: nat) returns (k: nat, l: nat)
    requires a > 0 || b > 0
    ensures Gcd(a, b) > 0 && a == Gcd(a, b) * k && b == Gcd(a, b) * l
    decreases b
  {
    if b == 0 {
      k, l := 1, 0;
    } else {
      var m;
      l, m := GcdDivides(b, a % b);
      k := a / b * l + m;
      Divide(a, b);
      Combined(Gcd(b, a % b), a / b, l, m);
    }
  }

  lemma Combined(g: nat, q: nat, l: nat, m: nat)
    ensures (g * l) * q + g * m == g * (q * l + m)
  {
    Distribute(g, q * l, m);
  }

  lemma {:induction false} Bezout(a: nat, b: nat) returns (u: int, v: int)
    ensures Gcd(a, b) == u * a + v * b
    decreases b
  {
    if b == 0 {
      u, v := 1, 0;
    } else {
      var s, t := Bezout(b, a % b);
      u, v := t, s - t * (a / b);
      Divide(a, b);
      Exchanged(b, a / b, a % b, s, t);
    }
  }

  lemma Exchanged(b: nat, q: nat, r: nat, s: int, t: int)
    ensures s * b + t * r == t * (b * q + r) + (s - t * q) * b
  {
    assert t * (b * q + r) == t * (b * q) + t * r;
    assert (s - t * q) * b == s * b - (t * q) * b;
    assert (t * q) * b == t * (b * q);
  }

  /** The remainders of a line are multiples of the greatest common divisor. */
  lemma ErrBelow(w: nat, to: nat, x: nat)
    requires to > 0
    ensures Gcd(w, to) <= to && Err(w, to, x) <= to - Gcd(w, to)
  {
    var k, l := GcdDivides(w, to);
    var g, q, e := Gcd(w, to), Quo(w, to, x), Err(w, to, x);
    QuoErr(w, to, x);
    hide Gcd, Quo, Err;
    Multiple(g, k, l, x, q, e);
  }

  lemma Multiple(g: nat, k: nat, l: nat, x: nat, q: nat, e: nat)
    requires g > 0 && x * (g * k) == g * l * q + e && e < g * l
    ensures e <= g * l - g && g <= g * l
  {
    var m := x * k - l * q;
    assert x * (g * k) == g * (x * k);
    assert g * l * q == g * (l * q);
    assert e == g * m;
    if m >= l {
      MulMono(g, l, m);
    } else {
      MulMono(g, m, l - 1);
      Distribute(g, l - 1, 1);
    }
    if l >= 1 {
      MulMono(g, 1, l);
    }
  }

  /** And the largest one comes up. */
  lemma ErrReached(w: nat, to: nat) returns (x: nat)
    requires to > 0
    ensures x < to && Gcd(w, to) <= to && Err(w, to, x) == to - Gcd(w, to)
  {
    var k, l := GcdDivides(w, to);
    ErrBelow(w, to, 0);
    var u, v := Bezout(w, to);
    var g := Gcd(w, to);
    hide Gcd;
    var t := -u / to;
    x := -u - to * t;
    Turned(w, to, u, v, t, g);
    DivUnique(x * w, to, v - t * w - 1, to - g);
  }

  lemma Turned(w: nat, to: nat, u: int, v: int, t: int, g: nat)
    requires g == u * w + v * to
    ensures (-u - to * t) * w == to * (v - t * w - 1) + (to - g)
  {
    assert (-u - to * t) * w == -(u * w) - (to * t) * w;
    assert (to * t) * w == to * (t * w);
    assert to * (v - t * w - 1) == to * v - to * (t * w) - to;
  }

  /** What a caller can check: the largest error sum, and for sizes that are negative in 16 bits the smallest one too,
      are on the right side. */
  predicate FitsIn16(w: nat, to: nat)
    requires to > 0
  {
    var r := w % to;
    var top := to - Gcd(w, to) + r;
    if to < 0x8000 then top < 0x8000 else r >= 0x8000 && top < 0x1_8000
  }

  lemma FitsExactly(w: nat, to: nat)
    requires 0 < to < 0x1_0000
    ensures ErrorsFit(w, to) <==> FitsIn16(w, to)
  {
    var y := ErrReached(w, to);
    var r, g := ErrorPerStep(w, to), Gcd(w, to);
    QuoStart(w, to);
    GcdAtLeast(w, to);
    hide Gcd, Err, S16;
    if FitsIn16(w, to) {
      forall x: nat | x < to ensures FitsAt(w, to, x) {
        ErrBelow(w, to, x);
        ComparesIn16(Err(w, to, x) + r, to, r);
      }
    } else {
      ComparesOut(to - g + r, to);
      ComparesLow(r, to);
      assert !FitsAt(w, to, y) || !FitsAt(w, to, 0);
    }
  }

  lemma GcdAtLeast(w: nat, to: nat)
    requires to > 0
    ensures Gcd(w, to) >= 1
  {
    var k, l := GcdDivides(w, to);
  }

  lemma ComparesIn16(v: nat, to: nat, r: nat)
    requires r <= v && 0 < to < 0x1_0000
    requires if to < 0x8000 then v < 0x8000 else r >= 0x8000 && v < 0x1_8000
    ensures Compares(v, to)
  {
    hide S16;
    S16Is(v, if v < 0x8000 then 0 else 1);
    S16Is(to, if to < 0x8000 then 0 else 1);
  }

  lemma ComparesOut(v: nat, to: nat)
    requires 0 < to < 0x1_0000 && v < 2 * to
    ensures v >= (if to < 0x8000 then 0x8000 else 0x1_8000) ==> !Compares(v, to)
  {
    hide S16;
    if to < 0x8000 && v >= 0x8000 {
      S16Is(v, 1);
      S16Is(to, 0);
    } else if v >= 0x1_8000 {
      S16Is(v, 2);
      S16Is(to, 1);
    }
  }

  lemma ComparesLow(r: nat, to: nat)
    requires r < to < 0x1_0000
    ensures to >= 0x8000 && r < 0x8000 ==> !Compares(r, to)
  {
    hide S16;
    if to >= 0x8000 && r < 0x8000 {
      S16Is(r, 0);
      S16Is(to, 1);
    }
  }

  /** They are right for every size up to 16384, and for whole multiples up to 32767. */
  lemma SmallFit(w: nat, to: nat)
    requires 0 < to <= 0x4000 || (0 < to < 0x8000 && w % to == 0)
    ensures ErrorsFit(w, to)
  {
    FitsExactly(w, to);
    GcdAtLeast(w, to);
    ErrBelow(w, to, 0);
    hide Gcd, ErrorsFit;
  }

  /** A larger size can go wrong: two remainders of 20000 add up to a negative number. */
  lemma LargeMisfit()
    ensures !ErrorsFit(40001, 20001)
  {
    QuoIs(40001, 20001, 1, 1, 20000);
    DivUnique(40001, 20001, 1, 20000);
    assert ErrorPerStep(40001, 20001) == 20000;
    hide Quo, Err, ErrorPerStep, S16;
    S16Is(40000, 1);
    S16Is(20001, 0);
    assert !FitsAt(40001, 20001, 1);
  }

  // ----- Pictures

  /** A source picture of `w` bytes by `h` lines with `pitch` bytes from line to line, and the size it is
      scaled to. */
  datatype Scaling = Scaling(w: u16, h: u16, pitch: u16, toW: u16, toH: u16)

  /** The divisions by the size scaled to are defined. */
  predicate Sized(s: Scaling) {
    0 < s.toW && 0 < s.toH
  }

  /** The source column of column `x` and the source line of line `y`. */
  function Column(s: Scaling, x: nat): nat
    requires Sized(s)
  {
    Quo(s.w, s.toW, x)
  }

  function Line(s: Scaling, y: nat): nat
    requires Sized(s)
  {
    Quo(s.h, s.toH, y)
  }

  /** The column and the line the loops are at. */
  function WalkColumn(s: Scaling, x: nat): int
    requires Sized(s)
  {
    Walk(s.w, s.toW, x).pos
  }

  function WalkLine(s: Scaling, y: nat): int
    requires Sized(s)
  {
    Walk(s.h, s.toH, y).pos
  }

  /** Where the scaler reads line `y`: the padding of a line, and what the inner loop is off by, are added
      once per destination line. */
  function Origin(s: Scaling, y: nat): int
    requires Sized(s)
  {
    WalkLine(s, y) * s.w + y * (s.pitch - s.w + (WalkColumn(s, s.toW) - s.w))
  }

  /** Where line `y` of the source picture should be read. */
  function LineStart(s: Scaling, y: nat): int
    requires Sized(s)
  {
    Line(s, y) * s.pitch
  }

  /** All bytes the scaler reads are in the source buffer. */
  ghost predicate Readable(s: Scaling, size: nat)
    requires Sized(s)
  {
    forall x: nat, y: nat :: x < s.toW && y < s.toH ==> 0 <= Origin(s, y) + WalkColumn(s, x) < size
  }

  /** Both loops make right comparisons only. */
  ghost predicate Exact(s: Scaling)
    requires Sized(s)
  {
    ErrorsFit(s.w, s.toW) && ErrorsFit(s.h, s.toH)
  }

  /** In an exact scaling the loops are at the exact quotients. */
  lemma ExactWalk(s: Scaling, x: nat, y: nat)
    requires Sized(s) && Exact(s) && x <= s.toW && y <= s.toH
    ensures WalkColumn(s, x) == Column(s, x) && WalkLine(s, y) == Line(s, y)
    ensures WalkColumn(s, s.toW) == s.w
  {
    hide FitsAt, Quo, Walk, Right;
    WalkRight(s.w, s.toW, x);
    WalkRight(s.h, s.toH, y);
    WalkRight(s.w, s.toW, s.toW);
    RightIs(s.w, s.toW, x);
    RightIs(s.h, s.toH, y);
    RightIs(s.w, s.toW, s.toW);
    QuoIs(s.w, s.toW, s.toW, s.w, 0);
  }

  /** The scaler then reads the right line if and only if the pitch is the width, or the line has not moved. */
  lemma OriginRight(s: Scaling, y: nat)
    requires Sized(s) && Exact(s) && y <= s.toH
    ensures Origin(s, y) == LineStart(s, y) <==> s.pitch == s.w || Line(s, y) == y
  {
    hide Line, WalkLine, WalkColumn, Exact;
    ExactWalk(s, 0, y);
    var l: int, d: int, m: int := Line(s, y), s.pitch - s.w, y;
    Distribute(l, s.w, d);
    assert LineStart(s, y) - Origin(s, y) == l * d - m * d;
    Difference(l, m, d);
    ZeroProduct(l - m, d);
  }

  /** A picture without padding: every byte is read at the exact column and line. */
  lemma ReadsExact(s: Scaling, x: nat, y: nat)
    requires Sized(s) && Exact(s) && s.pitch == s.w && x < s.toW && y < s.toH
    ensures Origin(s, y) + WalkColumn(s, x) == Line(s, y) * s.w + Column(s, x)
    ensures s.w > 0 && s.h > 0 ==> Column(s, x) < s.w && Line(s, y) < s.h
  {
    ExactWalk(s, x, y);
    OriginRight(s, y);
    if s.w > 0 && s.h > 0 {
      Fraction(s.w, s.toW, x);
      Fraction(s.h, s.toH, y);
    }
    hide Line, Column, WalkColumn, Origin;
  }

  /** It is read within its bounds. */
  lemma ReadsPicture(s: Scaling)
    requires Sized(s) && Exact(s) && s.pitch == s.w > 0 && s.h > 0
    ensures Readable(s, s.w * s.h)
  {
    hide Exact, Line, Column, Origin, WalkColumn;
    forall x: nat, y: nat | x < s.toW && y < s.toH ensures 0 <= Origin(s, y) + WalkColumn(s, x) < s.w * s.h {
      ReadsExact(s, x, y);
      InArea(Line(s, y), Column(s, x), s.w, s.h);
    }
  }

  lemma InArea(l: nat, c: nat, w: nat, h: nat)
    requires l < h && c < w
    ensures 0 <= l * w + c < w * h
  {
    MulMono(w, l + 1, h);
    Distribute(w, l, 1);
    MulMono(w, 0, l);
  }

  lemma Fraction(w: nat, to: nat, x: nat)
    requires x < to && w > 0
    ensures Quo(w, to, x) < w
  {
    QuoErr(w, to, x);
    var q := Quo(w, to, x);
    hide Quo, Err;
    MulMono(w, x + 1, to);
    Distribute(w, x, 1);
    if q >= w {
      MulMono(to, w, q);
    }
  }

  lemma Difference(a: int, b: int, d: int)
    ensures (a - b) * d == a * d - b * d
  {
  }

  lemma ZeroProduct(a: int, b: int)
    ensures a * b == 0 <==> a == 0 || b == 0
  {
  }

  /** The inner loop: one line, read from `off` on and written from `at` on. */
  method ScaleLine(s: Scaling, src: seq<u8>, off: int, dst: array<u8>, at: nat) returns (end: int)
    requires Sized(s) && at + s.toW <= dst.Length
    requires forall x: nat :: x < s.toW ==> 0 <= off + WalkColumn(s, x) < |src|
    modifies dst
    ensures end == off + WalkColumn(s, s.toW)
    ensures forall x: nat :: x < s.toW ==> dst[at + x] == src[off + WalkColumn(s, x)]
    ensures forall i :: 0 <= i < dst.Length && !(at <= i < at + s.toW) ==> dst[i] == old(dst[i])
  {
    hide PerStep, ErrorPerStep, Walk, S16;
    var xd, xr := PerStep(s.w, s.toW), ErrorPerStep(s.w, s.toW);
    var p: int, x: nat, xe: s16 := off, 0, 0;
    QuoStart(s.w, s.toW);
    while x < s.toW
      invariant x <= s.toW && Walk(s.w, s.toW, x) == Cursor(p - off, xe)
      invariant forall j: nat :: j < x ==> dst[at + j] == src[off + WalkColumn(s, j)]
      invariant forall i :: 0 <= i < dst.Length && !(at <= i < at + x) ==> dst[i] == old(dst[i])
    {
      WalkStep(s.w, s.toW, x);
      assert WalkColumn(s, x) == p - off;
      dst[at + x] := src[p];
      p := p + xd;
      xe := S16(xe + xr);
      if xe >= S16(s.toW) {
        xe := S16(xe - s.toW);
        p := p + 1;
      }
      x := x + 1;
    }
    end := p;
  }

  // ----- The destination

  /** Byte `x` of line `y` of the destination. */
  function Dest(base: nat, pitch: nat, y: nat, x: nat): (i: nat) {
    base + y * pitch + x
  }

  predicate Outside(s: Scaling, base: nat, pitch: nat, i: nat)
    requires pitch > 0
  {
    i < base || (i - base) / pitch >= s.toH || (i - base) % pitch >= s.toW
  }

  /** Line `y` holds the bytes read for it. */
  ghost predicate LineDone(s: Scaling, src: seq<u8>, dst: seq<u8>, base: nat, pitch: nat, y: nat)
    requires Sized(s)
  {
    forall x: nat :: x < s.toW ==>
      && Dest(base, pitch, y, x) < |dst| && 0 <= Origin(s, y) + WalkColumn(s, x) < |src|
      && dst[Dest(base, pitch, y, x)] == src[Origin(s, y) + WalkColumn(s, x)]
  }

  /** In an exact scaling of a picture without padding, byte `x` of line `y` is that of column `x * w / toW` and line
      `y * h / toH`, the quotients rounded down. */
  lemma ScaledExactly(s: Scaling, src: seq<u8>, dst: seq<u8>, base: nat, pitch: nat, x: nat, y: nat)
    requires Sized(s) && Exact(s) && s.pitch == s.w && x < s.toW && y < s.toH && LineDone(s, src, dst, base, pitch, y)
    ensures s.toW > 0 && s.toH > 0
    ensures var c, l := (x * s.w) / s.toW, (y * s.h) / s.toH;
            0 <= base + pitch * y + x < |dst| && 0 <= l * s.w + c < |src| && dst[base + pitch * y + x] == src[l * s.w + c]
  {
    ReadsExact(s, x, y);
    hide Exact, Origin, WalkColumn;
    assert Dest(base, pitch, y, x) == base + pitch * y + x;
  }

  lemma LineFits(s: Scaling, base: nat, pitch: nat, y: nat, size: nat)
    requires Sized(s) && y < s.toH && base + (s.toH - 1) * pitch + s.toW <= size
    ensures Dest(base, pitch, y, 0) + s.toW <= size
  {
    MulMono(pitch, y, s.toH - 1);
  }

  /** A later line does not touch an earlier one. */
  lemma LineKept(s: Scaling, src: seq<u8>, dst: seq<u8>, dst': seq<u8>, base: nat, pitch: nat, y: nat, at: nat)
    requires Sized(s) && s.toW <= pitch && LineDone(s, src, dst, base, pitch, y) && |dst| == |dst'|
    requires base + (y + 1) * pitch <= at
    requires forall i :: 0 <= i < at && i < |dst| ==> dst'[i] == dst[i]
    ensures LineDone(s, src, dst', base, pitch, y)
  {
    forall x: nat | x < s.toW ensures Dest(base, pitch, y, x) < at {
      Distribute(pitch, y, 1);
    }
    hide Origin, WalkColumn, Dest;
  }

  lemma InsideLine(s: Scaling, base: nat, pitch: nat, y: nat, x: nat)
    requires y < s.toH && x < s.toW <= pitch
    ensures !Outside(s, base, pitch, Dest(base, pitch, y, 0) + x)
  {
    DivUnique(y * pitch + x, pitch, y, x);
  }

  /** How far the outer loop moves the source after a line. */
  function LineMove(s: Scaling): int
    requires Sized(s)
  {
    PerStep(s.h, s.toH) * s.w - s.w
  }

  /** One turn of the outer loop. */
  lemma LineStep(s: Scaling, y: nat, e: s16)
    requires Sized(s) && Walk(s.h, s.toH, y) == Cursor(WalkLine(s, y), e)
    ensures var e', o := S16(e + ErrorPerStep(s.h, s.toH)), Origin(s, y) + WalkColumn(s, s.toW) + (s.pitch - s.w) + LineMove(s);
            if e' >= S16(s.toH)
            then Walk(s.h, s.toH, y + 1) == Cursor(WalkLine(s, y + 1), S16(e' - s.toH)) && Origin(s, y + 1) == o + s.w
            else Walk(s.h, s.toH, y + 1) == Cursor(WalkLine(s, y + 1), e') && Origin(s, y + 1) == o
  {
    WalkStep(s.h, s.toH, y);
    var l, l': int, d := WalkLine(s, y), WalkLine(s, y + 1), PerStep(s.h, s.toH);
    hide Walk, S16, PerStep, ErrorPerStep, WalkColumn;
    OriginNext(s, y, l' - l);
    Distribute(s.w, d, 1);
  }

  lemma OriginNext(s: Scaling, y: nat, step: int)
    requires Sized(s) && WalkLine(s, y + 1) == WalkLine(s, y) + step
    ensures Origin(s, y + 1) == Origin(s, y) + step * s.w + (s.pitch - s.w + (WalkColumn(s, s.toW) - s.w))
  {
    hide WalkLine, WalkColumn;
    Distribute(s.w, WalkLine(s, y), step);
    Distribute(s.pitch - s.w + (WalkColumn(s, s.toW) - s.w), y, 1);
  }

  /** `BMP_scale`, for every size: every destination byte is the source byte the loops are at. */
  method Scale(s: Scaling, src: seq<u8>, dst: array<u8>, base: nat, pitch: u16)
    requires Sized(s) && Readable(s, |src|) && s.toW <= pitch
    requires base + (s.toH - 1) * pitch + s.toW <= dst.Length
    modifies dst
    ensures forall y: nat :: y < s.toH ==> LineDone(s, src, dst[..], base, pitch, y)
    ensures forall i: nat :: i < dst.Length && Outside(s, base, pitch, i) ==> dst[i] == old(dst[i])
  {
    hide *;
    Positive(s);
    FirstOrigin(s, base, pitch);
    var yd, yr := LineMove(s), ErrorPerStep(s.h, s.toH);
    var adjSrc: int, adjDst: int := s.pitch - s.w, pitch - s.toW;
    var p: int, d: nat, y: nat, ye: s16 := 0, base, 0, 0;
    while y < s.toH
      invariant y <= s.toH && Walk(s.h, s.toH, y) == Cursor(WalkLine(s, y), ye) && p == Origin(s, y)
      invariant d == Dest(base, pitch, y, 0)
      invariant forall j: nat :: j < y ==> LineDone(s, src, dst[..], base, pitch, j)
      invariant forall i: nat :: i < dst.Length && Outside(s, base, pitch, i) ==> dst[i] == old(dst[i])
    {
      LineFits(s, base, pitch, y, dst.Length);
      ReadableLine(s, |src|, y);
      LineStep(s, y, ye);
      ghost var before := dst[..];
      p := ScaleLine(s, src, p, dst, d);
      LineWritten(s, src, before, dst[..], base, pitch, y, d);
      p := p + adjSrc;
      d := d + s.toW + adjDst;
      p := p + yd;
      ye := S16(ye + yr);
      if ye >= S16(s.toH) {
        ye := S16(ye - s.toH);
        p := p + s.w;
      }
      y := y + 1;
    }
  }

  lemma Positive(s: Scaling)
    requires Sized(s)
    ensures 0 < s.toW && 0 < s.toH
  {
  }

  lemma ReadableLine(s: Scaling, size: nat, y: nat)
    requires Sized(s) && Readable(s, size) && y < s.toH
    ensures forall x: nat :: x < s.toW ==> 0 <= Origin(s, y) + WalkColumn(s, x) < size
  {
  }

  lemma FirstOrigin(s: Scaling, base: nat, pitch: nat)
    requires Sized(s)
    ensures Origin(s, 0) == 0 && Dest(base, pitch, 0, 0) == base
    ensures Walk(s.h, s.toH, 0) == Cursor(WalkLine(s, 0), 0)
  {
    QuoStart(s.h, s.toH);
    hide WalkColumn;
  }

  lemma LineWritten(s: Scaling, src: seq<u8>, dst: seq<u8>, dst': seq<u8>, base: nat, pitch: nat, y: nat, at: nat)
    requires Sized(s) && s.toW <= pitch && |dst| == |dst'| && y < s.toH && Readable(s, |src|)
    requires at == Dest(base, pitch, y, 0) && at + s.toW <= |dst|
    requires forall j: nat :: j < y ==> LineDone(s, src, dst, base, pitch, j)
    requires forall x: nat :: x < s.toW ==> 0 <= Origin(s, y) + WalkColumn(s, x) < |src| && dst'[at + x] == src[Origin(s, y) + WalkColumn(s, x)]
    requires forall i :: 0 <= i < |dst| && !(at <= i < at + s.toW) ==> dst'[i] == dst[i]
    ensures forall j: nat :: j <= y ==> LineDone(s, src, dst', base, pitch, j)
    ensures forall i: nat :: i < |dst| && Outside(s, base, pitch, i) ==> dst'[i] == dst[i]
    ensures Dest(base, pitch, y + 1, 0) == at + pitch
  {
    Distribute(pitch, y, 1);
    hide Origin, WalkColumn, LineDone, Outside, Readable;
    forall j: nat | j < y ensures LineDone(s, src, dst', base, pitch, j) {
      MulMono(pitch, j + 1, y);
      LineKept(s, src, dst, dst', base, pitch, j, at);
    }
    LineMade(s, src, dst', base, pitch, y, at);
    forall i: nat | i < |dst| && Outside(s, base, pitch, i) ensures dst'[i] == dst[i] {
      if at <= i < at + s.toW {
        InsideLine(s, base, pitch, y, i - at);
        assert false;
      }
    }
  }

  lemma LineMade(s: Scaling, src: seq<u8>, dst: seq<u8>, base: nat, pitch: nat, y: nat, at: nat)
    requires Sized(s) && at == Dest(base, pitch, y, 0) && at + s.toW <= |dst|
    requires forall x: nat :: x < s.toW ==> 0 <= Origin(s, y) + WalkColumn(s, x) < |src| && dst[at + x] == src[Origin(s, y) + WalkColumn(s, x)]
    ensures LineDone(s, src, dst, base, pitch, y)
  {
    hide Origin, WalkColumn;
    forall x: nat | x < s.toW
      ensures && Dest(base, pitch, y, x) < |dst| && 0 <= Origin(s, y) + WalkColumn(s, x) < |src|
              && dst[Dest(base, pitch, y, x)] == src[Origin(s, y) + WalkColumn(s, x)]
    {
      assert Dest(base, pitch, y, x) == at + x;
    }
  }
}
