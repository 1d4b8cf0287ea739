/** The fixed-width integers of the 68000, their wrap-around, and the arithmetic it takes. */
module Machine {
  type u8 = x: int | 0 <= x < 0x100
  type u16 = x: int | 0 <= x < 0x1_0000
  type s16 = x: int | -0x8000 <= x < 0x8000

  datatype Option<T> = None | Some(value: T)

  /** The value a 16-bit register keeps of `x`. */
  function Wrap16(x: int): u16 {
    x % 0x1_0000
  }

  lemma Fits16(x: int)
    requires 0 <= x < 0x1_0000
    ensures Wrap16(x) == x
  {
  }

  // ----- Quotients and remainders

  lemma {:induction false} AddMultiple(a: int, n: nat, k: nat)
    requires n > 0
    ensures (a + n * k) % n == a % n
  {
    if k > 0 {
      AddMultiple(a, n, k - 1);
      assert a + n * k == (a + n * (k - 1)) + n;
      AddOnce(a + n * (k - 1), n);
    }
  }

  lemma AddOnce(a: int, n: nat)
    requires n > 0
    ensures (a + n) % n == a % n
  {
    assert a + n == n * (a / n + 1) + a % n;
    DivUnique(a + n, n, a / n + 1, a % n);
  }

  lemma DivUnique(a: int, n: nat, q: int, r: int)
    requires 0 <= r < n && a == n * q + r
    ensures a % n == r && a / n == q
  {
    assert n * (a / n) + a % n == a;
    var e := a / n - q;
    assert n * e == r - a % n;
    MultipleOf(n, e);
  }

  lemma MultipleOf(n: nat, e: int)
    ensures e >= 1 ==> n * e >= n
    ensures e <= -1 ==> n * e + n <= 0
  {
  }

  lemma WrapIs(x: int, k: int)
    requires 0 <= x - 0x1_0000 * k < 0x1_0000
    ensures Wrap16(x) == x - 0x1_0000 * k
  {
    DivUnique(x, 0x1_0000, k, x - 0x1_0000 * k);
  }

  lemma Distribute(a: int, x: int, y: int)
    ensures a * (x + y) == a * x + a * y && (x + y) * a == x * a + y * a
  {
  }

  lemma Product(a: int, b: int, c: int)
    ensures a * (b * c) == (a * b) * c && b * (a * c) == (a * b) * c
  {
  }

  lemma MulMono(a: nat, x: int, y: int)
    requires x <= y
    ensures a * x <= a * y && x * a <= y * a
  {
  }

  /** A quotient of a quotient. */
  lemma DivDiv(v: nat, a: nat, b: nat)
    requires a > 0 && b > 0
    ensures a * b > 0 && (v / a) / b == v / (a * b)
  {
    var q, r := v / a, v % a;
    var q', r' := q / b, q % b;
    MulMono(a, 1, b);
    NestedParts(v, a, b, q, r, q', r');
    DivUnique(v, a * b, q', a * r' + r);
  }

  lemma NestedParts(v: nat, a: nat, b: nat, q: nat, r: nat, q': nat, r': nat)
    requires v == a * q + r && r < a && q == b * q' + r' && r' < b
    ensures v == (a * b) * q' + (a * r' + r) && 0 <= a * r' + r < a * b
  {
    Distribute(a, b * q', r');
    Product(a, b, q');
    MulMono(a, r', b - 1);
    Distribute(a, b, -1);
    MulMono(a, 0, r');
  }

  /** The remainder by an even number, from that by its half. */
  lemma HalfSplit(a: nat, p: nat)
    requires p > 0
    ensures a % (2 * p) == a % p + if (a / p) % 2 == 1 then p else 0
  {
    var q, r := a / p, a % p;
    var h, b := q / 2, q % 2;
    NestedParts(a, p, 2, q, r, h, b);
    assert p * b == if b == 1 then p else 0;
    DivUnique(a, 2 * p, h, p * b + r);
  }

  lemma DivBound(v: nat, a: nat, b: nat)
    requires a > 0 && v < b * a
    ensures v / a < b
  {
    assert a * (v / a) <= v;
    MulMono(a, b, if v / a < b then b else v / a);
  }

  /** Quotient and remainder. */
  lemma Divide(a: nat, n: nat)
    requires n > 0
    ensures a / n >= 0 && a == n * (a / n) + a % n == (a / n) * n + a % n && 0 <= a % n < n
  {
  }

  // ----- Signed 16-bit numbers

  /** The value a signed 16-bit variable keeps of `x`. */
  function S16(x: int): s16 {
    (x + 0x8000) % 0x1_0000 - 0x8000
  }

  lemma S16Is(c: int, k: int)
    requires -0x8000 <= c - 0x1_0000 * k < 0x8000
    ensures S16(c) == c - 0x1_0000 * k
  {
    DivUnique(c + 0x8000, 0x1_0000, k, c - 0x1_0000 * k + 0x8000);
  }

  /** Values that differ by whole turns are the same in 16 bits. */
  lemma S16Turns(c: int, k: int)
    ensures S16(c + 0x1_0000 * k) == S16(c)
  {
    var q := (c + 0x8000) / 0x1_0000;
    assert c + 0x8000 == 0x1_0000 * q + (c + 0x8000) % 0x1_0000;
    S16Is(c, q);
    S16Is(c + 0x1_0000 * k, q + k);
  }

  lemma S16Step(c: int, k: int)
    ensures S16(S16(c) + k) == S16(c + k)
  {
    var q := (c + 0x8000) / 0x1_0000;
    S16Turns(c + k, -q);
  }

  lemma S16Minus(a: int, b: int)
    ensures S16(a - S16(b)) == S16(a - b)
  {
    var q := (b + 0x8000) / 0x1_0000;
    S16Turns(a - b, q);
  }
}
