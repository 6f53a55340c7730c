/**
  Two flipped bits.  The powers of x modulo the generator repeat with period
  32767, so a register misses a pair of flipped bits exactly when their distance
  is a multiple of that.
 */
module CrcPeriod {
  import opened Arithmetic
  import opened Crc16
  import opened Words

  const PERIOD := 32767

  // ----- powers of x

  function One(): Register {
    Zeros(15) + [true]
  }

  /** x^n, reduced. */
  function Power(n: nat): Register {
    ShiftBy(One(), n)
  }

  lemma {:induction false} ShiftBySum(r: Register, m: nat, n: nat)
    ensures ShiftBy(r, m + n) == ShiftBy(ShiftBy(r, m), n)
    decreases m
  {
    hide Shift;
    if m > 0 {
      ShiftBySum(Shift(r), m - 1, n);
    }
  }

  lemma PowerNext(n: nat)
    ensures Power(n + 1) == Shift(Power(n))
  {
    hide Shift;
    ShiftByLast(One(), n + 1);
  }

  /** Shifting loses nothing. */
  lemma ShiftByInjective(a: Register, b: Register, n: nat)
    requires ShiftBy(a, n) == ShiftBy(b, n)
    ensures a == b
  {
    hide ShiftBy, Shift;
    ShiftByLinear(a, b, n);
    XorSelf(ShiftBy(a, n));
    if Xor(a, b) == Zeros(16) {
      XorZero(a, b);
    } else {
      ShiftByKeepsNonZero(Xor(a, b), n);
    }
  }

  // ----- squares

  /** The part of a square that the coefficients from index i on make: that of x^k goes to x^2k. */
  function SquareFrom(r: Register, i: nat): Register
    requires i <= 16
    decreases 16 - i
  {
    if i == 16 then Zeros(16)
    else Xor(if r[i] then Power(30 - 2 * i) else Zeros(16), SquareFrom(r, i + 1))
  }

  function Square(r: Register): Register {
    SquareFrom(r, 0)
  }

  lemma XorSwap(a: Register, b: Register, c: Register, d: Register)
    ensures Xor(Xor(a, b), Xor(c, d)) == Xor(Xor(a, c), Xor(b, d))
  {
  }

  lemma XorWithZeros(a: Register)
    ensures Xor(Zeros(16), a) == Xor(a, Zeros(16)) == a
  {
  }

  lemma {:induction false} SquareLinear(a: Register, b: Register, i: nat)
    requires i <= 16
    ensures SquareFrom(Xor(a, b), i) == Xor(SquareFrom(a, i), SquareFrom(b, i))
    decreases 16 - i
  {
    hide Power;
    if i == 16 {
      XorSelf(Zeros(16));
    } else {
      SquareLinear(a, b, i + 1);
      var p := Power(30 - 2 * i);
      var x, y := if a[i] then p else Zeros(16), if b[i] then p else Zeros(16);
      XorSelf(p);
      XorWithZeros(p);
      XorWithZeros(Zeros(16));
      XorSwap(x, y, SquareFrom(a, i + 1), SquareFrom(b, i + 1));
    }
  }

  /** Times x^2. */
  lemma {:induction false} SquareOfShifted(r: Register, i: nat)
    requires i <= 15
    ensures SquareFrom(r[1..] + [false], i) == ShiftBy(SquareFrom(r, i + 1), 2)
    decreases 15 - i
  {
    hide Power, ShiftBy, Xor;
    XorWithZeros(Zeros(16));
    ShiftByZero(2);
    if i < 15 {
      SquareOfShifted(r, i + 1);
      var first := if r[i + 1] then Power(28 - 2 * i) else Zeros(16);
      PowerSum(28 - 2 * i, 2);
      ShiftByLinear(first, SquareFrom(r, i + 2), 2);
    }
  }

  lemma PowerSum(m: nat, n: nat)
    ensures Power(m + n) == ShiftBy(Power(m), n)
  {
    ShiftBySum(One(), m, n);
  }

  lemma PowerWord(n: nat)
    ensures Power(n) == Coefficients(TableShiftBy(1, n))
  {
    hide Coefficients, ShiftBy, TableShiftBy;
    OneWord();
    TableShiftByIsShiftBy(1, n);
  }

  lemma OneWord()
    ensures Coefficients(1) == One()
  {
  }

  /** The square of x^16 and of what it reduces to are the same. */
  lemma SquareOfGenerator()
    ensures Square(Generator()) == Power(32)
  {
    hide *;
    GeneratorParts(Generator());
    PowerWord(24);
    PowerWord(10);
    PowerWord(0);
    PowerWord(32);
    Words32();
    SumOfThree(TableShiftBy(1, 24), TableShiftBy(1, 10), TableShiftBy(1, 0), TableShiftBy(1, 32));
  }

  lemma SumOfThree(a: bv16, b: bv16, c: bv16, sum: bv16)
    requires sum == a ^ (b ^ c)
    ensures Coefficients(sum) == Xor(Coefficients(a), Xor(Coefficients(b), Coefficients(c)))
  {
    hide Coefficients;
    var bc := b ^ c;
    XorMeans(b, c, bc);
    XorMeans(a, bc, sum);
  }

  lemma GeneratorParts(g: Register)
    requires g == Generator()
    ensures Square(g) == Xor(Power(24), Xor(Power(10), Power(0)))
  {
    hide Power, Xor, SquareFrom;
    NoPart(g, 0, 3);
    NoPart(g, 4, 10);
    NoPart(g, 11, 15);
    OnePart(g, 3);
    OnePart(g, 10);
    OnePart(g, 15);
    XorWithZeros(Power(0));
    NothingFrom(g);
  }

  lemma OnePart(r: Register, i: nat)
    requires i < 16 && r[i]
    ensures SquareFrom(r, i) == Xor(Power(30 - 2 * i), SquareFrom(r, i + 1))
  {
  }

  lemma NothingFrom(r: Register)
    ensures SquareFrom(r, 16) == Zeros(16)
  {
  }

  lemma Words32()
    ensures TableShiftBy(1, 24) ^ (TableShiftBy(1, 10) ^ TableShiftBy(1, 0)) == TableShiftBy(1, 32)
  {
  }

  /** Zero coefficients add nothing to the square. */
  lemma {:induction false} NoPart(r: Register, low: nat, high: nat)
    requires low <= high <= 16 && forall i :: low <= i < high ==> !r[i]
    ensures SquareFrom(r, low) == SquareFrom(r, high)
    decreases high - low
  {
    hide Power;
    if low < high {
      NoPart(r, low + 1, high);
      XorWithZeros(SquareFrom(r, low + 1));
    }
  }

  /** Squaring and multiplying by x: the square of a product. */
  lemma SquareOfShift(r: Register)
    ensures Square(Shift(r)) == ShiftBy(Square(r), 2)
  {
    hide Shift, ShiftBy, Power, Xor, Generator;
    ShiftIsReduction(r);
    var carry := if r[0] then Generator() else Zeros(16);
    SquareLinear(r[1..] + [false], carry, 0);
    SquareOfShifted(r, 0);
    SquareOfGenerator();
    NoPart(Zeros(16), 0, 16);
    PowerSum(30, 2);
    ShiftByZero(2);
    var first := if r[0] then Power(30) else Zeros(16);
    ShiftByLinear(first, SquareFrom(r, 1), 2);
    XorCommutes(ShiftBy(SquareFrom(r, 1), 2), ShiftBy(first, 2));
  }

  lemma XorCommutes(a: Register, b: Register)
    ensures Xor(a, b) == Xor(b, a)
  {
  }

  /** The square of x^n is x^2n. */
  lemma {:induction false} PowerDoubles(n: nat)
    ensures Power(2 * n) == Square(Power(n))
    decreases n
  {
    hide Power, Square, Shift, ShiftBy;
    if n == 0 {
      SquareOfOne();
    } else {
      PowerDoubles(n - 1);
      PowerNext(n - 1);
      SquareOfShift(Power(n - 1));
      PowerSum(2 * (n - 1), 2);
    }
  }

  lemma SquareOfOne()
    ensures Square(Power(0)) == Power(0)
  {
    NoPart(One(), 0, 15);
    XorWithZeros(One());
  }

  // ----- powers as words

  /** x^2k for the coefficient of x^k with index i. */
  function Column(i: nat): bv16
    requires i < 16
  {
    match i
    case 0 => 0x0dcc case 1 => 0x0373 case 2 => 0xccc4 case 3 => 0x3331
    case 4 => 0x48c4 case 5 => 0x1231 case 6 => 0x4084 case 7 => 0x1021
    case 8 => 0x4000 case 9 => 0x1000 case 10 => 0x0400 case 11 => 0x0100
    case 12 => 0x0040 case 13 => 0x0010 case 14 => 0x0004 case 15 => 0x0001
  }

  lemma {:induction false} ColumnIsPower(i: nat)
    requires i < 16
    ensures TableShiftBy(1, 30 - 2 * i) == Column(i)
    decreases 16 - i
  {
    if i < 15 {
      ColumnIsPower(i + 1);
      NextColumn(i);
    }
  }

  lemma NextColumn(i: nat)
    requires i < 15
    ensures Column(i) == TableShift(TableShift(Column(i + 1)))
  {
  }

  function Plus(a: bv16, b: bv16): bv16 {
    a ^ b
  }

  function Part(x: bv16, mask: bv16, column: bv16): bv16 {
    if Bit(x, mask) then column else 0
  }

  function SquareWordFrom(x: bv16, i: nat): bv16
    requires i <= 16
    decreases 16 - i
  {
    if i == 16 then 0 else Plus(Part(x, Mask(i), Column(i)), SquareWordFrom(x, i + 1))
  }

  lemma PartIsPower(x: bv16, i: nat)
    requires i < 16
    ensures Coefficients(Part(x, Mask(i), Column(i))) == if Coefficients(x)[i] then Power(30 - 2 * i) else Zeros(16)
  {
    hide TableShiftBy, Power, Column, Bit, Mask;
    ZeroWord(0);
    ColumnIsPower(i);
    PowerWord(30 - 2 * i);
  }

  lemma PlusIsXor(a: bv16, b: bv16)
    ensures Coefficients(Plus(a, b)) == Xor(Coefficients(a), Coefficients(b))
  {
    hide Coefficients, Xor;
    XorIsXor(a, b);
  }

  lemma {:induction false} SquareWordIsSquare(x: bv16, i: nat)
    requires i <= 16
    ensures Coefficients(SquareWordFrom(x, i)) == SquareFrom(Coefficients(x), i)
    decreases 16 - i
  {
    hide Plus, Part, Power, Xor, Column, Coefficients, Mask;
    if i == 16 {
      ZeroWord(0);
    } else {
      SquareWordIsSquare(x, i + 1);
      PartIsPower(x, i);
      PlusIsXor(Part(x, Mask(i), Column(i)), SquareWordFrom(x, i + 1));
    }
  }

  /** Four parts at once. */
  function FourParts(x: bv16, i: nat, rest: bv16): bv16
    requires i <= 12
  {
    Plus(Part(x, Mask(i), Column(i)), Plus(Part(x, Mask(i + 1), Column(i + 1)),
      Plus(Part(x, Mask(i + 2), Column(i + 2)), Plus(Part(x, Mask(i + 3), Column(i + 3)), rest))))
  }

  function SquareWord(x: bv16): bv16 {
    FourParts(x, 0, FourParts(x, 4, FourParts(x, 8, FourParts(x, 12, 0))))
  }

  lemma UnrollFour(x: bv16, i: nat)
    requires i <= 12
    ensures SquareWordFrom(x, i) == FourParts(x, i, SquareWordFrom(x, i + 4))
  {
    hide Plus, Part, Mask, Column;
    assert SquareWordFrom(x, i + 2) == Plus(Part(x, Mask(i + 2), Column(i + 2)), SquareWordFrom(x, i + 3));
  }

  lemma NoParts(x: bv16)
    ensures SquareWordFrom(x, 16) == 0
  {
  }

  lemma SquareWordIsFrom(x: bv16)
    ensures SquareWordFrom(x, 0) == SquareWord(x)
  {
    hide FourParts, SquareWordFrom;
    NoParts(x);
    UnrollFour(x, 0);
    UnrollFour(x, 4);
    UnrollFour(x, 8);
    UnrollFour(x, 12);
  }

  /** From x^n to x^2n and x^(2n+1). */
  lemma Climb(n: nat, x: bv16)
    requires Power(n) == Coefficients(x)
    ensures Power(2 * n) == Coefficients(SquareWord(x))
    ensures Power(2 * n + 1) == Coefficients(TableShift(SquareWord(x)))
  {
    hide Coefficients, Power, SquareWordFrom, SquareWord, TableShift, Shift;
    SquareWordIsSquare(x, 0);
    SquareWordIsFrom(x);
    PowerDoubles(n);
    PowerNext(2 * n);
    TableShiftIsShift(SquareWord(x));
  }

  lemma Power217()
    ensures Power(217) == Coefficients(0x48e3)
  {
    hide Power, Coefficients;
    PowerOne();
    Climb(1, 0x0002);
    assert TableShift(SquareWord(0x0002)) == 0x0008;
    Climb(3, 0x0008);
    assert SquareWord(0x0008) == 0x0040;
    Climb(6, 0x0040);
    assert TableShift(SquareWord(0x0040)) == 0x2000;
    Climb(13, 0x2000);
    assert TableShift(SquareWord(0x2000)) == 0x89a9;
    Climb(27, 0x89a9);
    assert SquareWord(0x89a9) == 0x1168;
    Climb(54, 0x1168);
    assert SquareWord(0x1168) == 0x3750;
    Climb(108, 0x3750);
    assert TableShift(SquareWord(0x3750)) == 0x48e3;
  }

  lemma Power1057()
    ensures Power(1057) == Coefficients(0xf2af)
  {
    hide Power, Coefficients;
    PowerOne();
    Climb(1, 0x0002);
    assert SquareWord(0x0002) == 0x0004;
    Climb(2, 0x0004);
    assert SquareWord(0x0004) == 0x0010;
    Climb(4, 0x0010);
    assert SquareWord(0x0010) == 0x0100;
    Climb(8, 0x0100);
    assert SquareWord(0x0100) == 0x1021;
    Climb(16, 0x1021);
    assert TableShift(SquareWord(0x1021)) == 0x6e60;
    Climb(33, 0x6e60);
    assert SquareWord(0x6e60) == 0xc1c6;
    Climb(66, 0xc1c6);
    assert SquareWord(0xc1c6) == 0x4e8a;
    Climb(132, 0x4e8a);
    assert SquareWord(0x4e8a) == 0x5946;
    Climb(264, 0x5946);
    assert SquareWord(0x5946) == 0x78b3;
    Climb(528, 0x78b3);
    assert TableShift(SquareWord(0x78b3)) == 0xf2af;
  }

  lemma Power4681()
    ensures Power(4681) == Coefficients(0x2c42)
  {
    hide Power, Coefficients;
    PowerOne();
    Climb(1, 0x0002);
    assert SquareWord(0x0002) == 0x0004;
    Climb(2, 0x0004);
    assert SquareWord(0x0004) == 0x0010;
    Climb(4, 0x0010);
    assert TableShift(SquareWord(0x0010)) == 0x0200;
    Climb(9, 0x0200);
    assert SquareWord(0x0200) == 0x4084;
    Climb(18, 0x4084);
    assert SquareWord(0x4084) == 0x4363;
    Climb(36, 0x4363);
    assert TableShift(SquareWord(0x4363)) == 0x8fa6;
    Climb(73, 0x8fa6);
    assert SquareWord(0x8fa6) == 0x4388;
    Climb(146, 0x4388);
    assert SquareWord(0x4388) == 0x1396;
    Climb(292, 0x1396);
    assert TableShift(SquareWord(0x1396)) == 0x4500;
    Climb(585, 0x4500);
    assert SquareWord(0x4500) == 0x0163;
    Climb(1170, 0x0163);
    assert SquareWord(0x0163) == 0x0424;
    Climb(2340, 0x0424);
    assert TableShift(SquareWord(0x0424)) == 0x2c42;
  }

  lemma Power32767()
    ensures Power(32767) == Coefficients(0x0001)
  {
    hide Power, Coefficients;
    PowerOne();
    Climb(1, 0x0002);
    assert TableShift(SquareWord(0x0002)) == 0x0008;
    Climb(3, 0x0008);
    assert TableShift(SquareWord(0x0008)) == 0x0080;
    Climb(7, 0x0080);
    assert TableShift(SquareWord(0x0080)) == 0x8000;
    Climb(15, 0x8000);
    assert TableShift(SquareWord(0x8000)) == 0x1b98;
    Climb(31, 0x1b98);
    assert TableShift(SquareWord(0x1b98)) == 0xd420;
    Climb(63, 0xd420);
    assert TableShift(SquareWord(0xd420)) == 0x577e;
    Climb(127, 0x577e);
    assert TableShift(SquareWord(0x577e)) == 0xcf04;
    Climb(255, 0xcf04);
    assert TableShift(SquareWord(0xcf04)) == 0x09fe;
    Climb(511, 0x09fe);
    assert TableShift(SquareWord(0x09fe)) == 0x1b62;
    Climb(1023, 0x1b62);
    assert TableShift(SquareWord(0x1b62)) == 0x7ea8;
    Climb(2047, 0x7ea8);
    assert TableShift(SquareWord(0x7ea8)) == 0x554f;
    Climb(4095, 0x554f);
    assert TableShift(SquareWord(0x554f)) == 0x440e;
    Climb(8191, 0x440e);
    assert TableShift(SquareWord(0x440e)) == 0x222c;
    Climb(16383, 0x222c);
    assert TableShift(SquareWord(0x222c)) == 0x0001;
  }

  lemma PowerOne()
    ensures Power(1) == Coefficients(0x0002)
  {
    hide Coefficients;
    PowerWord(1);
  }

  // ----- the period

  predicate Period(k: nat) {
    Power(k) == One()
  }

  lemma {:induction false} PeriodTimes(b: nat, q: nat)
    requires Period(b)
    ensures Period(q * b)
    decreases q
  {
    hide ShiftBy;
    if q == 0 {
      PowerOfNothing();
    } else {
      PeriodTimes(b, q - 1);
      PowerSum((q - 1) * b, b);
      assert (q - 1) * b + b == q * b;
    }
  }

  lemma PowerOfNothing()
    ensures Power(0) == One()
  {
  }

  lemma PeriodRest(a: nat, b: nat)
    requires b > 0 && Period(a) && Period(b)
    ensures Period(a % b)
  {
    hide ShiftBy;
    PeriodTimes(b, a / b);
    PowerSum(a / b * b, a % b);
    assert a == a / b * b + a % b;
  }

  /** The greatest common divisor of two numbers, as a combination of them; of two periods it is a period. */
  lemma {:induction false} Euclid(a: nat, b: nat) returns (g: nat, m: nat, n: nat, x: int, y: int)
    requires a > 0
    ensures g > 0 && a == m * g && b == n * g && g == x * a + y * b
    ensures Period(a) && Period(b) ==> Period(g)
    decreases b
  {
    hide Period;
    if b == 0 {
      g, m, n, x, y := a, 1, 0, 1, 0;
    } else {
      var q, r := a / b, a % b;
      if Period(a) && Period(b) {
        PeriodRest(a, b);
      }
      var m', n', x', y';
      g, m', n', x', y' := Euclid(b, r);
      m, n, x, y := q * m' + n', m', y', x' - q * y';
      Recombined(a, b, q, r, g, m', n', x', y');
    }
  }

  lemma Recombined(a: int, b: int, q: int, r: int, g: int, m: int, n: int, x: int, y: int)
    requires a == q * b + r && b == m * g && r == n * g && g == x * b + y * r
    ensures a == (q * m + n) * g && g == y * a + (x - q * y) * b
  {
    assert q * (m * g) == q * m * g;
    assert y * (q * b + r) == y * q * b + y * r;
  }

  /** A prime that does not divide one factor divides the other. */
  lemma DividesOther(p: nat, m: nat, g: nat, rest: nat) returns (h: nat)
    requires p in {7, 31, 151} && m > 0 && m * g == p * rest && m % p != 0
    ensures g == p * h && m * h == rest
  {
    var d, k, n, x, y := Euclid(m, p);
    OnlyFactors(p, n, d);
    if d == p {
      ModUnique(k * p, k, 0, p);
    }
    h := CancelPrime(p, m, g, rest, x, y);
  }

  lemma OnlyFactors(p: nat, n: nat, d: nat)
    requires p in {7, 31, 151} && p == n * d
    ensures d == 1 || d == p
  {
    if n <= 12 {
      NoSmallFactor(p, n, d);
    } else if d <= 12 {
      NoSmallFactor(p, d, n);
    } else {
      assert n * d >= 13 * 13 by { Grows(n, d); }
    }
  }

  lemma Grows(n: nat, d: nat)
    requires n >= 13 && d >= 13
    ensures n * d >= 13 * 13
  {
  }

  lemma NoSmallFactor(p: nat, f: nat, other: nat)
    requires p in {7, 31, 151} && p == f * other && f <= 12
    ensures f == 1 || f == p
  {
    assert f in {0, 1, 2, 3, 4, 5, 6, 7, 8, 9, 10, 11, 12};
  }

  lemma CancelPrime(p: nat, m: nat, g: nat, rest: nat, x: int, y: int) returns (h: nat)
    requires p > 0 && m * g == p * rest && 1 == x * m + y * p
    ensures g == p * h && m * h == rest
  {
    var t := x * rest + y * g;
    assert p * t == x * (p * rest) + y * p * g;
    assert x * (m * g) == x * m * g;
    assert g == (x * m + y * p) * g == x * m * g + y * p * g;
    assert g == p * t;
    h := t;
    assert m * (p * h) == p * (m * h);
  }

  lemma NotPeriods()
    ensures Period(PERIOD) && !Period(4681) && !Period(1057) && !Period(217)
  {
    hide Power, Coefficients;
    OneWord();
    Power217();
    Power1057();
    Power4681();
    Power32767();
    DifferentWords(0x48e3, 1);
    DifferentWords(0xf2af, 1);
    DifferentWords(0x2c42, 1);
  }

  lemma DifferentWords(a: bv16, b: bv16)
    requires a != b
    ensures Coefficients(a) != Coefficients(b)
  {
    hide Coefficients;
    XorIsXor(a, b);
    ZeroWord(a ^ b);
    if Coefficients(a) == Coefficients(b) {
      XorSelf(Coefficients(a));
      SameWords(a, b);
    }
  }

  lemma SameWords(a: bv16, b: bv16)
    requires a ^ b == 0
    ensures a == b
  {
  }

  /** A proper divisor of 7 * 31 * 151 divides a product of two of the three. */
  lemma ProperDivisor(m: nat, g: nat) returns (k: nat)
    requires m * g == PERIOD && m >= 2
    ensures k * g in {4681, 1057, 217}
  {
    if m % 7 == 0 {
      k := m / 7;
      assert 7 * (k * g) == m * g;
    } else if m % 31 == 0 {
      k := m / 31;
      assert 31 * (k * g) == m * g;
    } else {
      var h := DividesOther(7, m, g, 4681);
      var h' := DividesOther(31, m, h, 151);
      OnlyFactors(151, m, h');
      assert m == 151 && h' == 1;
      k := 1;
    }
  }

  /** The powers of x repeat exactly every 32767 steps. */
  lemma PeriodIs32767(k: nat)
    ensures Period(k) <==> k % PERIOD == 0
  {
    hide Period;
    NotPeriods();
    if k % PERIOD == 0 {
      PeriodTimes(PERIOD, k / PERIOD);
    } else if Period(k) {
      var g, m, n, _, _ := Euclid(PERIOD, k);
      if m == 1 {
        ModUnique(k, n, 0, PERIOD);
      } else {
        var j := ProperDivisor(m, g);
        PeriodTimes(g, j);
      }
      assert false;
    }
  }

  // ----- two flipped bits

  /** The set bits of an error are i and j. */
  ghost predicate IsPair(error: seq<bool>, i: nat, j: nat) {
    i < j < |error| && forall k :: 0 <= k < |error| ==> (error[k] <==> k == i || k == j)
  }

  lemma PairShape(error: seq<bool>, i: nat, j: nat)
    requires IsPair(error, i, j)
    ensures error == Zeros(i) + ([true] + (Zeros(j - i - 1) + ([true] + Zeros(|error| - j - 1))))
  {
  }

  /** A one enters at the top, which is x^16. */
  lemma FeedOne(n: nat)
    ensures Feed(Zeros(16), true) == Power(16)
    ensures Feed(Power(n), true) == Xor(Power(n + 1), Power(16))
  {
    hide Shift, ShiftBy, Xor;
    var top := [true] + Zeros(15);
    TopIsPower();
    PowerNext(15);
    PowerNext(n);
    assert Zeros(16)[0 := true] == top;
    ShiftLinear(Power(n), top);
    TopFlipped(Power(n));
  }

  lemma TopFlipped(r: Register)
    ensures r[0 := r[0] != true] == Xor(r, [true] + Zeros(15))
  {
  }

  lemma TopIsPower()
    ensures Power(15) == [true] + Zeros(15)
  {
    ShiftOutZeros(One(), 15);
  }

  /** Two powers are equal when their distance is a multiple of the period. */
  lemma SamePower(n: nat, d: nat)
    ensures Power(n + d) == Power(n) <==> d % PERIOD == 0
  {
    hide ShiftBy, One;
    PowerSum(d, n);
    PowerSum(0, n);
    PowerOfNothing();
    PeriodIs32767(d);
    if Power(n + d) == Power(n) {
      ShiftByInjective(Power(d), Power(0), n);
    }
  }

  lemma PairDivides(error: seq<bool>, i: nat, j: nat)
    requires IsPair(error, i, j)
    ensures Divide(Zeros(16), error) == Zeros(16) <==> (j - i) % PERIOD == 0
  {
    hide Divide, ShiftBy, Shift, Feed, Xor, One;
    var m, d := |error| - j - 1, j - i;
    PairShape(error, i, j);
    DivideAppend(Zeros(16), Zeros(i), [true] + (Zeros(d - 1) + ([true] + Zeros(m))));
    DivideZeros(Zeros(16), i);
    ShiftByZero(i);
    DivideOne(Zeros(16), Zeros(d - 1) + ([true] + Zeros(m)));
    FeedOne(15 + d);
    DivideAppend(Power(16), Zeros(d - 1), [true] + Zeros(m));
    DivideZeros(Power(16), d - 1);
    PowerSum(16, d - 1);
    DivideOne(Power(15 + d), Zeros(m));
    var r := Xor(Power(16 + d), Power(16));
    DivideZeros(r, m);
    SamePower(16, d);
    if r == Zeros(16) {
      ShiftByZero(m);
      XorZero(Power(16 + d), Power(16));
    } else {
      ShiftByKeepsNonZero(r, m);
      XorSelf(Power(16));
    }
  }

  lemma DivideOne(r: Register, rest: seq<bool>)
    ensures Divide(r, [true] + rest) == Divide(Feed(r, true), rest)
  {
    assert ([true] + rest)[1..] == rest;
  }

  /** Two flipped bits of a field are missed exactly when their distance is a multiple of 32767. */
  lemma TwoBitErrors(crc: bv16, good: seq<byte>, bad: seq<byte>, i: nat, j: nat)
    requires |good| == |bad| && IsPair(Difference(good, bad), i, j)
    ensures CrcOf(crc, bad) == CrcOf(crc, good) <==> (j - i) % PERIOD == 0
  {
    hide Coefficients, Divide, Difference;
    PairDivides(Difference(good, bad), i, j);
    DifferenceDivides(crc, good, bad);
    var a, b := CrcOf(crc, good), CrcOf(crc, bad);
    if Xor(Coefficients(a), Coefficients(b)) == Zeros(16) {
      XorZero(Coefficients(a), Coefficients(b));
      if a != b {
        DifferentWords(a, b);
      }
    } else {
      XorSelf(Coefficients(a));
    }
  }

  /** So none are missed in fields of up to 4095 bytes, CRC included: every pair lies closer. */
  lemma PairsInFields(crc: bv16, good: seq<byte>, bad: seq<byte>, i: nat, j: nat)
    requires |good| == |bad| <= 4095 && IsPair(Difference(good, bad), i, j)
    ensures CrcOf(crc, bad) != CrcOf(crc, good)
  {
    hide CrcOf;
    TwoBitErrors(crc, good, bad, i, j);
  }
}
