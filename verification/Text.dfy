/** The number printing and reading of `src/str.c`. */
module Text {
  import opened Machine

  // ----- Numerals

  function DigitChar(d: nat): char
    requires d < 16
  {
    if d < 10 then '0' + d as char else 'A' + (d - 10) as char
  }

  function Max(a: nat, b: nat): nat {
    if a < b then b else a
  }

  function Quot(v: nat, base: nat): nat
    requires base > 0
  {
    Divide(v, base);
    v / base
  }

  function Rem(v: nat, base: nat): nat
    requires base > 0
  {
    Divide(v, base);
    v % base
  }

  lemma QuotRem(v: nat, base: nat)
    requires 2 <= base
    ensures v == Quot(v, base) * base + Rem(v, base) && Rem(v, base) < base
    ensures v > 0 ==> Quot(v, base) < v
    ensures v == 0 ==> Quot(v, base) == 0
  {
    Divide(v, base);
    MulMono(Quot(v, base), 2, base);
  }

  lemma QuotIs(v: nat, base: nat, q: nat, r: nat)
    requires r < base && v == q * base + r
    ensures Quot(v, base) == q && Rem(v, base) == r
  {
    DivUnique(v, base, q, r);
  }

  /** The last `n` digits of `v`, zeros in front. */
  function Numeral(base: nat, v: nat, n: nat): (s: seq<char>)
    requires 2 <= base <= 16
    ensures |s| == n
  {
    QuotRem(v, base);
    if n == 0 then [] else Numeral(base, Quot(v, base), n - 1) + [DigitChar(Rem(v, base))]
  }

  /** The number of digits of `v`; 0 has none. */
  function Digits(base: nat, v: nat): nat
    requires 2 <= base <= 16
  {
    QuotRem(v, base);
    if v == 0 then 0 else 1 + Digits(base, Quot(v, base))
  }

  function DigitValue(c: char): nat {
    if '0' <= c <= '9' then (c - '0') as nat else if 'A' <= c <= 'F' then (c - 'A') as nat + 10 else 0
  }

  /** The number a numeral stands for. */
  function ValueOf(base: nat, s: seq<char>): nat {
    if s == [] then 0 else ValueOf(base, s[..|s| - 1]) * base + DigitValue(s[|s| - 1])
  }

  lemma {:induction false} ValueAppend(base: nat, s: seq<char>, c: char)
    ensures ValueOf(base, s + [c]) == ValueOf(base, s) * base + DigitValue(c)
  {
    assert (s + [c])[..|s|] == s;
  }

  lemma DigitBack(d: nat)
    requires d < 16
    ensures DigitValue(DigitChar(d)) == d
  {
  }

  /** The digits are the decimal ones and the capital letters from A on. */
  lemma DigitCharIs(d: nat)
    requires d < 16
    ensures DigitChar(d) == "0123456789ABCDEF"[d]
  {
  }

  /** A number with as many digits as it needs does not begin with a zero. */
  lemma {:induction false} NoZeroFront(base: nat, v: nat)
    requires 2 <= base <= 16 && v > 0
    ensures Digits(base, v) > 0 && Numeral(base, v, Digits(base, v))[0] != '0'
    decreases v
  {
    hide Numeral, Digits, Quot, Rem;
    DigitsStep(base, v);
    QuotRem(v, base);
    NumeralNext(base, v, Digits(base, v));
    var q := Quot(v, base);
    if q > 0 {
      NoZeroFront(base, q);
    } else {
      DigitsStep(base, 0);
      NoDigits(base, 0);
    }
  }

  lemma {:induction false} DigitsStep(base: nat, v: nat)
    requires 2 <= base <= 16
    ensures Digits(base, v) == if v == 0 then 0 else 1 + Digits(base, Quot(v, base))
    ensures v == 0 ==> Quot(v, base) == 0
  {
    QuotRem(v, base);
  }

  /** With room for all its digits, the numeral of a number stands for it. */
  lemma {:induction false} NumeralValue(base: nat, v: nat, n: nat)
    requires 2 <= base <= 16 && Digits(base, v) <= n
    ensures ValueOf(base, Numeral(base, v, n)) == v
    decreases n
  {
    hide *;
    DigitsStep(base, v);
    if n == 0 {
      NoDigits(base, v);
    } else {
      QuotRem(v, base);
      var q, r := Quot(v, base), Rem(v, base);
      NumeralNext(base, v, n);
      NumeralValue(base, q, n - 1);
      ValueAppend(base, Numeral(base, q, n - 1), DigitChar(r));
      DigitBack(r);
    }
  }

  lemma NoDigits(base: nat, v: nat)
    requires 2 <= base <= 16
    ensures Numeral(base, v, 0) == [] && ValueOf(base, []) == 0
  {
  }

  lemma {:induction false} NumeralNext(base: nat, v: nat, n: nat)
    requires 2 <= base <= 16 && n > 0
    ensures Rem(v, base) < base && Numeral(base, v, n) == Numeral(base, Quot(v, base), n - 1) + [DigitChar(Rem(v, base))]
  {
    QuotRem(v, base);
    hide Quot, Rem;
  }

  /** Two numerals one after the other, the second with all the digits of its power. */
  function Power(base: nat, k: nat): nat {
    if k == 0 then 1 else base * Power(base, k - 1)
  }

  lemma {:induction false} NumeralJoin(base: nat, a: nat, b: nat, n: nat, k: nat)
    requires 2 <= base <= 16 && b < Power(base, k)
    ensures Numeral(base, a * Power(base, k) + b, n + k) == Numeral(base, a, n) + Numeral(base, b, k)
    decreases k
  {
    hide Quot, Rem, DigitChar;
    if k == 0 {
      assert Power(base, 0) == 1;
      assert Numeral(base, b, 0) == [];
    } else {
      var p := Power(base, k - 1);
      assert Power(base, k) == base * p;
      hide Numeral, Power;
      JoinStep(base, a, b, p);
      NumeralNext(base, a * (base * p) + b, n + k);
      NumeralNext(base, b, k);
      NumeralJoin(base, a, Quot(b, base), n, k - 1);
    }
  }

  lemma JoinStep(base: nat, a: nat, b: nat, p: nat)
    requires 2 <= base && b < base * p
    ensures a * (base * p) >= 0 && a * p >= 0 && Quot(b, base) < p
    ensures Quot(a * (base * p) + b, base) == a * p + Quot(b, base) && Rem(a * (base * p) + b, base) == Rem(b, base)
  {
    QuotRem(b, base);
    MulMono(a, 0, p);
    Product(base, a, p);
    Distribute(base, a * p, Quot(b, base));
    DivBound(b, base, p);
    assert Quot(b, base) == b / base;
    MulMono(base, 0, a * p);
    QuotIs(a * (base * p) + b, base, a * p + Quot(b, base), Rem(b, base));
  }

  // ----- Counting digits

  lemma {:induction false} DigitsIs(base: nat, v: nat, d: nat)
    requires 2 <= base <= 16 && d >= 1 && Power(base, d - 1) <= v < Power(base, d)
    ensures Digits(base, v) == d
    decreases d
  {
    hide Quot, Digits;
    assert Power(base, d) == base * Power(base, d - 1);
    QuotRange(base, v, Power(base, d - 1), d == 1);
    DigitsStep(base, v);
    if d == 1 {
      DigitsStep(base, 0);
    } else {
      assert Power(base, d - 1) == base * Power(base, d - 2);
      QuotRange(base, v, Power(base, d - 2), false);
      DigitsIs(base, Quot(v, base), d - 1);
    }
  }

  lemma QuotRange(base: nat, v: nat, p: nat, one: bool)
    requires 2 <= base && (one ==> p == 1 && v < base)
    ensures one ==> Quot(v, base) == 0
    ensures v < base * p ==> Quot(v, base) < p
    ensures v >= base * p ==> Quot(v, base) >= p
  {
    QuotRem(v, base);
    if v < base * p {
      DivBound(v, base, p);
      assert Quot(v, base) == v / base;
    } else {
      MulMono(base, Quot(v, base) + 1, if Quot(v, base) < p then p else Quot(v, base) + 1);
      Distribute(base, Quot(v, base), 1);
    }
  }

  /** `digits10`: the length of a 16-bit number, at least 1. */
  function Digits10(v: u16): nat {
    if v < 100 then (if v < 10 then 1 else 2)
    else if v < 1000 then 3
    else if v < 10000 then 4
    else 5
  }

  lemma Digits10Is(v: u16)
    ensures Digits10(v) == Max(1, Digits(10, v))
  {
    PowersOfTen();
    DigitsStep(10, 0);
    hide Digits, Power;
    if v > 0 {
      DigitsIs(10, v, Digits10(v));
    }
  }

  lemma PowersOfTen()
    ensures Power(10, 0) == 1 && Power(10, 1) == 10 && Power(10, 2) == 100 && Power(10, 3) == 1000
    ensures Power(10, 4) == 10000 && Power(10, 5) == 100000
  {
    assert Power(10, 1) == 10 * Power(10, 0);
    assert Power(10, 2) == 10 * Power(10, 1);
    assert Power(10, 3) == 10 * Power(10, 2);
    assert Power(10, 4) == 10 * Power(10, 3);
    assert Power(10, 5) == 10 * Power(10, 4);
  }

  // ----- Printing

  /** The table of all pairs of digits. */
  function PairChar(j: nat): char
    requires j < 200
  {
    if j % 2 == 0 then DigitChar((j / 2) / 10) else DigitChar((j / 2) % 10)
  }

  /** Two digits at a time. */
  lemma TwoDigits(v: nat, r: nat)
    requires r >= 2
    ensures var i := (v % 100) * 2;
            Numeral(10, v, r) == Numeral(10, v / 100, r - 2) + [PairChar(i), PairChar(i + 1)]
    ensures v >= 100 ==> Digits(10, v) == 2 + Digits(10, v / 100)
  {
    hide *;
    var q, t := v / 100, v % 100;
    PairIs(t);
    Hundreds(v);
    NumeralNext(10, v, r);
    NumeralNext(10, q * 10 + t / 10, r - 1);
    DigitsStep(10, v);
    DigitsStep(10, q * 10 + t / 10);
  }

  lemma PairIs(t: nat)
    requires t < 100
    ensures PairChar(t * 2) == DigitChar(t / 10) && PairChar(t * 2 + 1) == DigitChar(t % 10)
  {
  }

  lemma Hundreds(v: nat)
    ensures var m: nat := (v / 100) * 10 + (v % 100) / 10;
            && Quot(v, 10) == m && Rem(v, 10) == (v % 100) % 10
            && Quot(m, 10) == v / 100 && Rem(m, 10) == (v % 100) / 10
  {
    var q, t := v / 100, v % 100;
    QuotIs(v, 10, q * 10 + t / 10, t % 10);
    QuotIs(q * 10 + t / 10, 10, q, t / 10);
  }

  lemma LastTwo(v: nat, r: nat)
    requires r >= 2 && v < 100
    ensures Numeral(10, v, r) == Numeral(10, 0, r - 2) + [PairChar(v * 2), PairChar(v * 2 + 1)]
  {
    hide *;
    TwoDigits(v, r);
  }

  lemma OneDigit(v: nat, r: nat)
    requires r >= 1 && v < 10
    ensures Numeral(10, v, r) == Numeral(10, 0, r - 1) + [DigitChar(v)]
  {
    QuotIs(v, 10, 0, v);
    hide Numeral, Quot, Rem, DigitChar;
    NumeralNext(10, v, r);
  }

  lemma ZeroFront(r: nat)
    requires r >= 1
    ensures Numeral(10, 0, r) == Numeral(10, 0, r - 1) + ['0']
  {
    OneDigit(0, r);
  }

  lemma DigitsRoom(v: nat, r: nat)
    requires Digits(10, v) <= r
    ensures v >= 10 ==> r >= 2
    ensures v >= 100 ==> r >= 3
  {
    hide Digits, Quot;
    DigitsStep(10, v);
    if v >= 10 {
      QuotRange(10, v, 1, false);
      DigitsStep(10, Quot(v, 10));
    }
    if v >= 100 {
      QuotRange(10, v, 10, false);
      QuotRange(10, Quot(v, 10), 1, false);
      DigitsStep(10, Quot(Quot(v, 10), 10));
    }
  }

  /** One more character written in front. */
  lemma InFront(whole: seq<char>, rest: seq<char>, c: char, s: seq<char>, d: nat, end: nat)
    requires 0 < d <= end <= |s| && whole == (rest + [c]) + s[d..end]
    ensures whole == rest + s[d - 1 := c][d - 1..end]
  {
    assert s[d - 1 := c][d - 1..end] == [c] + s[d..end];
  }

  /** `uint16ToStr`, written from `at` on: the numeral of the value, with zeros in front up to `minsize`. */
  method Uint16ToStr(value: u16, str: array<char>, at: nat, minsize: u16) returns (length: nat)
    requires at + Max(Digits10(value), minsize) < str.Length
    modifies str
    ensures length == Max(Digits10(value), minsize)
    ensures str[at..at + length] == Numeral(10, value, length) && str[at + length] == '\0'
    ensures forall i :: 0 <= i < str.Length && !(at <= i <= at + length) ==> str[i] == old(str[i])
  {
    hide Numeral, Digits, DigitChar, PairChar;
    length := Digits10(value);
    if length < minsize {
      length := minsize;
    }
    Digits10Is(value);
    ghost var whole := Numeral(10, value, length);
    var end := at + length;
    var dst := end;
    str[dst] := '\0';
    var v: nat := value;
    assert str[dst..end] == [];
    while v >= 100
      invariant at < dst <= end && Digits(10, v) <= dst - at && str[end] == '\0'
      invariant whole == Numeral(10, v, dst - at) + str[dst..end]
      invariant forall i :: 0 <= i < str.Length && !(at <= i <= end) ==> str[i] == old(str[i])
    {
      DigitsRoom(v, dst - at);
      TwoDigits(v, dst - at);
      var quot: nat, i: nat := v / 100, (v % 100) * 2;
      WritePair(str, dst, end, i, whole, Numeral(10, quot, dst - at - 2));
      v := quot;
      dst := dst - 2;
    }
    dst := WriteLast(str, at, dst, end, v, whole);
    Pad(str, at, dst, end, whole);
  }

  /** One character, in front of `dst`. */
  method WriteOne(str: array<char>, dst: nat, end: nat, c: char, ghost whole: seq<char>, ghost rest: seq<char>)
    requires 1 <= dst <= end <= str.Length && whole == rest + [c] + str[dst..end]
    modifies str
    ensures whole == rest + str[dst - 1..end]
    ensures forall j :: 0 <= j < str.Length && j != dst - 1 ==> str[j] == old(str[j])
  {
    InFront(whole, rest, c, str[..], dst, end);
    str[dst - 1] := c;
  }

  /** The two digits of pair `i`, in front of `dst`. */
  method WritePair(str: array<char>, dst: nat, end: nat, i: nat, ghost whole: seq<char>, ghost rest: seq<char>)
    requires 2 <= dst <= end <= str.Length && i + 1 < 200
    requires whole == rest + [PairChar(i), PairChar(i + 1)] + str[dst..end]
    modifies str
    ensures whole == rest + str[dst - 2..end]
    ensures forall j :: 0 <= j < str.Length && j != dst - 1 && j != dst - 2 ==> str[j] == old(str[j])
  {
    hide PairChar;
    assert rest + [PairChar(i), PairChar(i + 1)] == (rest + [PairChar(i)]) + [PairChar(i + 1)];
    WriteOne(str, dst, end, PairChar(i + 1), whole, rest + [PairChar(i)]);
    WriteOne(str, dst - 1, end, PairChar(i), whole, rest);
  }

  /** The last one or two digits. */
  method WriteLast(str: array<char>, at: nat, dst0: nat, end: nat, v: nat, ghost whole: seq<char>) returns (dst: nat)
    requires at < dst0 <= end < str.Length && v < 100 && Digits(10, v) <= dst0 - at
    requires whole == Numeral(10, v, dst0 - at) + str[dst0..end]
    modifies str
    ensures at <= dst <= dst0 && whole == Numeral(10, 0, dst - at) + str[dst..end]
    ensures forall j :: 0 <= j < str.Length && !(at <= j < dst0) ==> str[j] == old(str[j])
  {
    hide *;
    DigitsRoom(v, dst0 - at);
    if v < 10 {
      dst := dst0 - 1;
      OneDigit(v, dst0 - at);
      WriteOne(str, dst0, end, DigitChar(v), whole, Numeral(10, 0, dst - at));
    } else {
      dst := dst0 - 2;
      LastTwo(v, dst0 - at);
      WritePair(str, dst0, end, v * 2, whole, Numeral(10, 0, dst - at));
    }
  }

  /** The zeros in front. */
  method Pad(str: array<char>, at: nat, dst0: nat, end: nat, ghost whole: seq<char>)
    requires at <= dst0 <= end < str.Length && whole == Numeral(10, 0, dst0 - at) + str[dst0..end]
    modifies str
    ensures str[at..end] == whole
    ensures forall i :: 0 <= i < str.Length && !(at <= i < dst0) ==> str[i] == old(str[i])
  {
    hide Numeral;
    var dst := dst0;
    while dst != at
      invariant at <= dst <= dst0 && whole == Numeral(10, 0, dst - at) + str[dst..end]
      invariant forall i :: 0 <= i < str.Length && !(at <= i < dst0) ==> str[i] == old(str[i])
    {
      ZeroFront(dst - at);
      WriteOne(str, dst, end, '0', whole, Numeral(10, 0, dst - at - 1));
      dst := dst - 1;
    }
    NoDigits(10, 0);
  }

  /** How long the numeral that `uintToStr` writes is. */
  function Length(value: nat, minsize: nat): nat {
    Max(Max(1, Digits(10, value)), minsize)
  }

  /** It is the smallest length, at least 1 and `minsize`, that has room for the value. */
  lemma LengthLeast(value: nat, minsize: nat)
    ensures var n := Length(value, minsize);
            && n >= 1 && n >= minsize && value < Power(10, n)
            && (n > 1 && n > minsize ==> value >= Power(10, n - 1))
  {
    DigitsBounds(10, value);
    var n := Length(value, minsize);
    PowerMono(10, Digits(10, value), n);
    hide Power, Digits;
  }

  lemma {:induction false} DigitsBounds(base: nat, v: nat)
    requires 2 <= base <= 16
    ensures v < Power(base, Digits(base, v)) && (v > 0 ==> Digits(base, v) > 0 && v >= Power(base, Digits(base, v) - 1))
    decreases v
  {
    hide Digits, Quot;
    DigitsStep(base, v);
    QuotRem(v, base);
    if v > 0 {
      var q := Quot(v, base);
      DigitsBounds(base, q);
      var n := Digits(base, q);
      MulMono(base, q + 1, Power(base, n));
      Distribute(base, q, 1);
      if q > 0 {
        MulMono(base, Power(base, n - 1), q);
      } else {
        DigitsStep(base, 0);
      }
    }
  }

  lemma {:induction false} PowerMono(base: nat, a: nat, b: nat)
    requires base >= 2 && a <= b
    ensures 0 < Power(base, a) <= Power(base, b)
  {
    if a < b {
      PowerMono(base, a, b - 1);
    } else if a > 0 {
      PowerMono(base, a - 1, a - 1);
    }
  }

  /** A number beyond 10000 is printed in two parts, four digits in the second. */
  lemma TwoParts(value: nat, minsize: nat)
    requires 10000 < value <= 500000000
    ensures value / 10000 < 0x1_0000
    ensures var n := Max(Digits10(value / 10000), if minsize > 4 then minsize - 4 else 1);
            && n + 4 == Length(value, minsize)
            && Numeral(10, value / 10000, n) + Numeral(10, value % 10000, 4) == Numeral(10, value, n + 4)
  {
    hide Numeral, Digits, Power, Quot, Digits10;
    var a, b := value / 10000, value % 10000;
    var n := Max(Digits10(a), if minsize > 4 then minsize - 4 else 1);
    PowersOfTen();
    NumeralJoin(10, a, b, n, 4);
    Digits10Is(a);
    FourMore(value);
  }

  lemma FourMore(value: nat)
    requires value >= 10000
    ensures Digits(10, value) == 4 + Digits(10, value / 10000) && Digits(10, value / 10000) >= 1
  {
    hide Numeral, Digits, Quot, Power;
    TwoDigits(value, 2);
    TwoDigits(value / 100, 2);
    DigitsStep(10, value / 10000);
    assert (value / 100) / 100 == value / 10000;
  }

  /** `uintToStr` for values up to 500000000: the numeral that stands for the value, as long as its digits or
      `minsize`. */
  method UintToDecimal(value: nat, str: array<char>, at: nat, minsize: u16) returns (len: nat)
    requires value <= 500000000 && at + Length(value, minsize) < str.Length
    modifies str
    ensures len == Length(value, minsize)
    ensures str[at..at + len] == Numeral(10, value, len) && str[at + len] == '\0'
    ensures forall i :: 0 <= i < str.Length && !(at <= i <= at + len) ==> str[i] == old(str[i])
  {
    hide Numeral, Digits, Digits10;
    if value > 10000 {
      TwoParts(value, minsize);
      FourDigits(value % 10000);
      var v1, v2 := value / 10000, value % 10000;
      len := Uint16ToStr(v1, str, at, if minsize > 4 then minsize - 4 else 1);
      ghost var front := str[at..at + len];
      var more := Uint16ToStr(v2, str, at + len, 4);
      assert str[at..at + len] == front;
      assert str[at..at + len + 4] == str[at..at + len] + str[at + len..at + len + 4];
      len := len + more;
    } else {
      Digits10Is(value);
      len := Uint16ToStr(value, str, at, minsize);
    }
  }

  /** The base and the length of what `uintToStr` prints: it falls back to hexadecimal. */
  function BaseOf(value: nat): nat {
    if value > 500000000 then 16 else 10
  }

  function LengthOf(value: nat, minsize: nat): nat {
    if value > 500000000 then HexLength(value, minsize) else Length(value, minsize)
  }

  /** `uintToStr`: what it prints stands for the value. */
  method UintToStr(value: nat, str: array<char>, at: nat, minsize: u16) returns (len: nat)
    requires value < 0x1_0000_0000 && at + LengthOf(value, minsize) < str.Length
    modifies str
    ensures len == LengthOf(value, minsize)
    ensures str[at..at + len] == Numeral(BaseOf(value), value, len) && str[at + len] == '\0'
    ensures value <= 500000000 ==> ValueOf(10, str[at..at + len]) == value && len == Length(value, minsize)
    ensures value > 500000000 ==> ValueOf(16, str[at..at + len]) == value && len == HexLength(value, minsize)
    ensures forall i :: 0 <= i < str.Length && !(at <= i <= at + len) ==> str[i] == old(str[i])
  {
    hide Numeral, Digits, Digits10, ValueOf;
    if value > 500000000 {
      len := IntToHex(value, str, at, minsize);
    } else {
      len := UintToDecimal(value, str, at, minsize);
    }
    NumeralValue(BaseOf(value), value, len);
  }

  lemma FourDigits(v: u16)
    requires v < 10000
    ensures Max(Digits10(v), 4) == 4
  {
  }

  // ----- Hexadecimal

  lemma {:induction false} DigitsAtMost(base: nat, v: nat, d: nat)
    requires 2 <= base <= 16 && v < Power(base, d)
    ensures Digits(base, v) <= d
    decreases d
  {
    hide Quot, Digits;
    DigitsStep(base, v);
    if d > 0 {
      assert Power(base, d) == base * Power(base, d - 1);
      QuotRange(base, v, Power(base, d - 1), false);
      DigitsAtMost(base, Quot(v, base), d - 1);
    }
  }

  lemma EightDigits(value: nat)
    requires value < 0x1_0000_0000
    ensures Digits(16, value) <= 8
  {
    assert Power(16, 1) == 16 * Power(16, 0) && Power(16, 2) == 16 * Power(16, 1);
    assert Power(16, 3) == 16 * Power(16, 2) && Power(16, 4) == 16 * Power(16, 3);
    assert Power(16, 5) == 16 * Power(16, 4) && Power(16, 6) == 16 * Power(16, 5);
    assert Power(16, 7) == 16 * Power(16, 6) && Power(16, 8) == 16 * Power(16, 7);
    hide Power, Digits;
    DigitsAtMost(16, value, 8);
  }

  /** `intToHex` pads to at most 15 digits, and prints nothing for 0 unless asked to. */
  function HexLength(value: nat, minsize: nat): nat {
    Max(Digits(16, value), if minsize > 15 then 15 else minsize)
  }

  /** It is the smallest length, at least `minsize` and at least 15 for a larger one, that has room for the value. */
  lemma HexLengthLeast(value: nat, minsize: nat)
    ensures var n := HexLength(value, minsize);
            && value < Power(16, n)
            && (minsize <= 15 ==> n >= minsize) && (minsize > 15 ==> n >= 15)
            && (n > minsize || n > 15 ==> n > 0 && value >= Power(16, n - 1))
  {
    DigitsBounds(16, value);
    PowerMono(16, Digits(16, value), HexLength(value, minsize));
    hide Power, Digits;
  }

  /** The digits of a value, in the 16 characters there are for them. */
  method HexDigits(value: nat, minsize: u16) returns (data: seq<char>)
    requires value < 0x1_0000_0000
    ensures data == Numeral(16, value, HexLength(value, minsize)) && |data| <= 16
  {
    hide Numeral, Digits, Quot, Rem, DigitChar;
    EightDigits(value);
    ghost var length := HexLength(value, minsize);
    var res, left: int := value, if minsize > 15 then 15 else minsize;
    data := [];
    while res != 0
      invariant Digits(16, res) + |data| == Digits(16, value)
      invariant |data| <= length && left == (if minsize > 15 then 15 else minsize) - |data|
      invariant Numeral(16, value, length) == Numeral(16, res, length - |data|) + data
      decreases res
    {
      DigitsStep(16, res);
      NumeralNext(16, res, length - |data|);
      QuotRem(res, 16);
      var c := Rem(res, 16);
      ghost var rest := Numeral(16, Quot(res, 16), length - |data| - 1);
      assert (rest + [DigitChar(c)]) + data == rest + ([DigitChar(c)] + data);
      data := [DigitChar(c)] + data;
      left := left - 1;
      res := Quot(res, 16);
    }
    DigitsStep(16, 0);
    while left > 0
      invariant |data| <= length && length - |data| == (if left > 0 then left else 0)
      invariant Numeral(16, value, length) == Numeral(16, 0, length - |data|) + data
    {
      QuotRem(0, 16);
      NumeralNext(16, 0, length - |data|);
      ZeroChar();
      ghost var rest := Numeral(16, 0, length - |data| - 1);
      assert (rest + ['0']) + data == rest + (['0'] + data);
      data := ['0'] + data;
      left := left - 1;
    }
    NoDigits(16, 0);
    assert [] + data == data;
  }

  lemma ZeroChar()
    ensures DigitChar(0) == '0' && Rem(0, 16) == 0
  {
  }

  /** `intToHex`. */
  method IntToHex(value: nat, str: array<char>, at: nat, minsize: u16) returns (len: nat)
    requires value < 0x1_0000_0000 && at + HexLength(value, minsize) < str.Length
    modifies str
    ensures len == HexLength(value, minsize)
    ensures str[at..at + len] == Numeral(16, value, len) && str[at + len] == '\0'
    ensures forall i :: 0 <= i < str.Length && !(at <= i <= at + len) ==> str[i] == old(str[i])
  {
    hide Numeral, Digits;
    var data := HexDigits(value, minsize);
    var k := 0;
    while k < |data|
      invariant 0 <= k <= |data| && str[at..at + k] == data[..k]
      invariant forall i :: 0 <= i < str.Length && !(at <= i < at + k) ==> str[i] == old(str[i])
    {
      str[at + k] := data[k];
      assert str[at..at + k + 1] == str[at..at + k] + [data[k]];
      k := k + 1;
    }
    len := k;
    str[at + k] := '\0';
    assert str[at..at + k] == data[..k] == data;
  }

  // ----- Reading

  predicate IsDigit(c: char) {
    '0' <= c <= '9'
  }

  /** Where the digits from `p` on end. */
  function RunEnd(s: seq<char>, p: nat): (e: nat)
    requires p <= |s|
    ensures p <= e <= |s|
    ensures e < |s| ==> !IsDigit(s[e])
    ensures forall i :: p <= i < e ==> IsDigit(s[i])
    decreases |s| - p
  {
    if p < |s| && IsDigit(s[p]) then RunEnd(s, p + 1) else p
  }

  /** `SGDK_skip_atoi`: the number the digits stand for, in 16 bits, and where they end. */
  method SkipAtoi(s: seq<char>, start: nat) returns (i: u16, p: nat)
    requires start <= |s| && RunEnd(s, start) < |s|
    ensures p == RunEnd(s, start) && i == Wrap16(ValueOf(10, s[start..p]))
    ensures start <= p < |s| && !('0' <= s[p] <= '9') && forall k :: start <= k < p ==> '0' <= s[k] <= '9'
  {
    hide ValueOf;
    i, p := 0, start;
    NoDigits(10, 0);
    assert s[start..start] == [];
    while IsDigit(s[p])
      invariant start <= p < |s| && RunEnd(s, p) == RunEnd(s, start)
      invariant i == Wrap16(ValueOf(10, s[start..p]))
      decreases |s| - p
    {
      assert s[start..p + 1] == s[start..p] + [s[p]];
      ValueAppend(10, s[start..p], s[p]);
      WrapDigit(ValueOf(10, s[start..p]), DigitValue(s[p]));
      i := Wrap16(i * 10 + (s[p] - '0') as nat);
      p := p + 1;
    }
  }

  lemma WrapDigit(x: nat, d: nat)
    ensures Wrap16(Wrap16(x) * 10 + d) == Wrap16(x * 10 + d)
  {
    var k := x / 0x1_0000;
    assert x == 0x1_0000 * k + Wrap16(x);
    AddMultiple(Wrap16(x) * 10 + d, 0x1_0000, 10 * k);
  }

  lemma {:induction false} NumeralIsDigits(v: nat, n: nat)
    ensures forall i :: 0 <= i < n ==> IsDigit(Numeral(10, v, n)[i])
    decreases n
  {
    if n > 0 {
      NumeralIsDigits(Quot(v, 10), n - 1);
      QuotRem(v, 10);
    }
  }

  /** What `uintToStr` printed is read back: the value itself up to 65535, its lower 16 bits beyond. */
  lemma ReadBack(value: nat, s: seq<char>, at: nat, len: nat)
    requires at + len < |s| && s[at..at + len] == Numeral(10, value, len) && s[at + len] == '\0'
    requires Digits(10, value) <= len
    ensures RunEnd(s, at) == at + len && Wrap16(ValueOf(10, s[at..RunEnd(s, at)])) == value % 0x1_0000
  {
    NumeralIsDigits(value, len);
    hide Numeral, ValueOf, Digits, RunEnd;
    forall i | at <= i < at + len ensures IsDigit(s[i]) {
      assert s[i] == s[at..at + len][i - at];
    }
    NumeralValue(10, value, len);
  }
}
