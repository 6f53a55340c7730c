/**
  CRC-16-CCITT over disk fields.  The reference definition divides bit by bit,
  as in section 2 of ITU-T V.41 (generator x^16 + x^12 + x^5 + 1), on registers
  written as sixteen coefficients.  The table-driven code is proved to compute
  it, and what a zero register at the end of a field detects is proved about it.
 */
module Crc16 {
  import opened Words

  const POLYNOMIAL: bv16 := 0x1021
  const INIT_CRC: bv16 := 0xffff
  const A1A1A1: bv16 := 0xcdb4

  // ----- the reference: polynomial division, one bit at a time

  /** A register's coefficients, that of x^15 first. */
  type Register = r: seq<bool> | |r| == 16 witness seq(16, _ => false)

  function Xor(a: seq<bool>, b: seq<bool>): (r: seq<bool>)
    requires |a| == |b|
    ensures |r| == |a|
  {
    seq(|a|, i requires 0 <= i < |a| => a[i] != b[i])
  }

  /** Times x, reduced: the x^16 that leaves the register comes back as x^12 + x^5 + 1. */
  function Shift(r: Register): Register {
    seq(16, i requires 0 <= i < 16 => (i < 15 && r[i + 1]) != (r[0] && (i == 3 || i == 10 || i == 15)))
  }

  function Feed(r: Register, bit: bool): Register {
    Shift(r[0 := r[0] != bit])
  }

  function Divide(r: Register, bits: seq<bool>): Register
    decreases |bits|
  {
    if bits == [] then r else Divide(Feed(r, bits[0]), bits[1..])
  }

  function ShiftBy(r: Register, n: nat): Register
    decreases n
  {
    if n == 0 then r else ShiftBy(Shift(r), n - 1)
  }

  lemma DivideAppend(r: Register, p: seq<bool>, q: seq<bool>)
    ensures Divide(r, p + q) == Divide(Divide(r, p), q)
    decreases |p|
  {
    if p == [] {
      assert p + q == q;
    } else {
      assert (p + q)[1..] == p[1..] + q;
      DivideAppend(Feed(r, p[0]), p[1..], q);
    }
  }

  lemma ShiftLinear(a: Register, b: Register)
    ensures Shift(Xor(a, b)) == Xor(Shift(a), Shift(b))
  {
  }

  lemma {:induction false} ShiftByLinear(a: Register, b: Register, n: nat)
    ensures ShiftBy(Xor(a, b), n) == Xor(ShiftBy(a, n), ShiftBy(b, n))
    decreases n
  {
    if n > 0 {
      ShiftLinear(a, b);
      ShiftByLinear(Shift(a), Shift(b), n - 1);
    }
  }

  /** Division is linear: the difference of two registers is the register of the difference. */
  lemma {:induction false} DivideLinear(a: Register, b: Register, p: seq<bool>, q: seq<bool>)
    requires |p| == |q|
    ensures Divide(Xor(a, b), Xor(p, q)) == Xor(Divide(a, p), Divide(b, q))
    decreases |p|
  {
    if p != [] {
      var a', b' := a[0 := a[0] != p[0]], b[0 := b[0] != q[0]];
      assert Xor(a, b)[0 := Xor(a, b)[0] != Xor(p, q)[0]] == Xor(a', b');
      ShiftLinear(a', b');
      DivideLinear(Shift(a'), Shift(b'), p[1..], q[1..]);
      assert Xor(p, q)[1..] == Xor(p[1..], q[1..]);
    }
  }

  /** Up to sixteen bits can be added to the register at once and shifted out afterwards. */
  lemma {:induction false} DivideAhead(r: Register, bits: seq<bool>)
    requires |bits| <= 16
    ensures Divide(r, bits) == ShiftBy(Xor(r, bits + Zeros(16 - |bits|)), |bits|)
    decreases |bits|
  {
    var all := bits + Zeros(16 - |bits|);
    if bits == [] {
      assert Xor(r, all) == r;
    } else {
      var rest := bits[1..] + Zeros(17 - |bits|);
      var first := r[0 := r[0] != bits[0]];
      DivideAhead(Shift(first), bits[1..]);
      assert Xor(r, all) == Xor(first, all[0 := false]);
      ShiftLinear(first, all[0 := false]);
      assert Shift(all[0 := false]) == rest;
    }
  }

  lemma FirstSet(error: seq<bool>) returns (i: nat)
    requires error != Zeros(|error|)
    ensures i < |error| && error[i]
    decreases |error|
  {
    assert error == [error[0]] + error[1..];
    if error[0] {
      i := 0;
    } else {
      assert Zeros(|error|) == [false] + Zeros(|error| - 1);
      i := FirstSet(error[1..]);
      i := i + 1;
    }
  }

  /** The zero-feed step is invertible; all that is needed is that it loses nothing. */
  lemma ShiftKeepsNonZero(r: Register)
    requires r != Zeros(16)
    ensures Shift(r) != Zeros(16)
  {
    var i := FirstSet(r);
    if i == 0 || r[0] {
      assert Shift(r)[15];
    } else {
      assert Shift(r)[i - 1];
    }
  }

  lemma {:induction false} ShiftByKeepsNonZero(r: Register, n: nat)
    requires r != Zeros(16)
    ensures ShiftBy(r, n) != Zeros(16)
    decreases n
  {
    if n > 0 {
      ShiftKeepsNonZero(r);
      ShiftByKeepsNonZero(Shift(r), n - 1);
    }
  }

  lemma {:induction false} DivideZeros(r: Register, n: nat)
    ensures Divide(r, Zeros(n)) == ShiftBy(r, n)
    decreases n
  {
    if n > 0 {
      assert r[0 := r[0] != false] == r;
      assert Zeros(n)[1..] == Zeros(n - 1);
      DivideZeros(Shift(r), n - 1);
    }
  }

  lemma {:induction false} ShiftByZero(n: nat)
    ensures ShiftBy(Zeros(16), n) == Zeros(16)
    decreases n
  {
    if n > 0 {
      assert Shift(Zeros(16)) == Zeros(16);
      ShiftByZero(n - 1);
    }
  }

  // ----- what a register detects

  /** An error pattern whose set bits all lie in one window of sixteen. */
  ghost predicate IsBurst(error: seq<bool>, start: nat) {
    forall i :: 0 <= i < |error| && error[i] ==> start <= i < start + 16
  }

  /** No burst, however far from the end of the field it falls, divides to zero. */
  lemma BurstIsNotMultiple(error: seq<bool>, start: nat)
    requires IsBurst(error, start) && error != Zeros(|error|)
    ensures Divide(Zeros(16), error) != Zeros(16)
  {
    hide Divide, ShiftBy, Shift, Zeros;
    var i := FirstSet(error);
    var end := if start + 16 <= |error| then start + 16 else |error|;
    var window, n := error[start..end], |error| - end;
    BurstShape(error, start, end);
    DivideAppend(Zeros(16), Zeros(start), window + Zeros(n));
    DivideZeros(Zeros(16), start);
    ShiftByZero(start);
    DivideAppend(Zeros(16), window, Zeros(n));
    WindowIsNotMultiple(window, i - start);
    DivideZeros(Divide(Zeros(16), window), n);
    ShiftByKeepsNonZero(Divide(Zeros(16), window), n);
  }

  lemma WindowIsNotMultiple(window: seq<bool>, i: nat)
    requires i < |window| <= 16 && window[i]
    ensures Divide(Zeros(16), window) != Zeros(16)
  {
    hide Divide, ShiftBy, Shift;
    DivideAhead(Zeros(16), window);
    var loaded := Xor(Zeros(16), window + Zeros(16 - |window|));
    assert loaded[i];
    ShiftByKeepsNonZero(loaded, |window|);
  }

  lemma BurstShape(error: seq<bool>, start: nat, end: nat)
    requires IsBurst(error, start) && start <= end <= |error| && (end == |error| || end == start + 16)
    ensures error == Zeros(start) + (error[start..end] + Zeros(|error| - end))
  {
  }

  /** Odd parity of a bit string. */
  function Odd(bits: seq<bool>): bool
    decreases |bits|
  {
    if bits == [] then false else bits[0] != Odd(bits[1..])
  }

  lemma {:induction false} OddXor(a: seq<bool>, b: seq<bool>)
    requires |a| == |b|
    ensures Odd(Xor(a, b)) == (Odd(a) != Odd(b))
    decreases |a|
  {
    if a != [] {
      OddXor(a[1..], b[1..]);
      assert Xor(a, b)[1..] == Xor(a[1..], b[1..]);
    }
  }

  lemma {:induction false} OddAppendZero(bits: seq<bool>)
    ensures Odd(bits + [false]) == Odd(bits)
    decreases |bits|
  {
    if bits == [] {
      assert [false][1..] == [];
    } else {
      OddAppendZero(bits[1..]);
      assert (bits + [false])[1..] == bits[1..] + [false];
    }
  }

  /** The terms of the generator but the first: x^12, x^5 and 1. */
  function Generator(): Register {
    seq(16, i => i == 3 || i == 10 || i == 15)
  }

  lemma OddGenerator()
    ensures Odd(Generator())
  {
    var g := Generator();
    assert Odd(g[15..]) && g[15];
    ZerosAhead(g, 11, 15);
    ZerosAhead(g, 4, 10);
    ZerosAhead(g, 0, 3);
  }

  lemma {:induction false} ZerosAhead(g: seq<bool>, low: nat, high: nat)
    requires low <= high <= |g| && forall i :: low <= i < high ==> !g[i]
    ensures Odd(g[low..]) == Odd(g[high..])
    decreases high - low
  {
    if low < high {
      ZerosAhead(g, low + 1, high);
      assert g[low..][1..] == g[low + 1..];
    }
  }

  lemma ShiftIsReduction(r: Register)
    ensures Shift(r) == Xor(r[1..] + [false], if r[0] then Generator() else Zeros(16))
  {
  }

  /** The generator has an even number of terms, so a shift keeps parity. */
  lemma ShiftParity(r: Register)
    ensures Odd(Shift(r)) == Odd(r)
  {
    hide Shift, Xor, Generator;
    ShiftIsReduction(r);
    OddXor(r[1..] + [false], if r[0] then Generator() else Zeros(16));
    OddAppendZero(r[1..]);
    OddGenerator();
    OddZeros(16);
  }

  /** So feeding a bit moves parity by exactly that bit. */
  lemma FeedParity(r: Register, bit: bool)
    ensures Odd(Feed(r, bit)) == (Odd(r) != bit)
  {
    hide Shift;
    ShiftParity(r[0 := r[0] != bit]);
    assert r[0 := r[0] != bit][1..] == r[1..];
  }

  lemma {:induction false} DivideParity(r: Register, bits: seq<bool>)
    ensures Odd(Divide(r, bits)) == (Odd(r) != Odd(bits))
    decreases |bits|
  {
    if bits != [] {
      FeedParity(r, bits[0]);
      DivideParity(Feed(r, bits[0]), bits[1..]);
    }
  }

  lemma OddZeros(n: nat)
    ensures !Odd(Zeros(n))
    decreases n
  {
    if n > 0 {
      assert Zeros(n)[1..] == Zeros(n - 1);
      OddZeros(n - 1);
    }
  }

  // ----- the register as a machine word

  /** The bit of the coefficient with index i. */
  function Mask(i: nat): bv16
    requires i < 16
  {
    match i
    case 0 => 0x8000 case 1 => 0x4000 case 2 => 0x2000 case 3 => 0x1000
    case 4 => 0x0800 case 5 => 0x0400 case 6 => 0x0200 case 7 => 0x0100
    case 8 => 0x0080 case 9 => 0x0040 case 10 => 0x0020 case 11 => 0x0010
    case 12 => 0x0008 case 13 => 0x0004 case 14 => 0x0002 case 15 => 0x0001
  }

  predicate Bit(x: bv16, mask: bv16) {
    x & mask != 0
  }

  function Coefficients(x: bv16): Register {
    seq(16, i requires 0 <= i < 16 => Bit(x, Mask(i)))
  }

  lemma MaskIsSingle(i: nat)
    requires i < 16
    ensures Mask(i) != 0 && Mask(i) & (Mask(i) - 1) == 0
  {
  }

  lemma MaskNext(i: nat)
    requires i < 16
    ensures i < 15 ==> Mask(i) >> 1 == Mask(i + 1) && Mask(i) != 1
    ensures i == 15 ==> Mask(i) == 1
  {
  }

  lemma MaskFar(i: nat)
    requires i < 16
    ensures i < 8 ==> Mask(i) >> 8 == Mask(i + 8) && Mask(i + 8) << 8 == Mask(i) && Mask(i) & 0xff == 0
    ensures i >= 8 ==> Mask(i) & 0xff00 == 0
  {
  }

  lemma XorBit(x: bv16, y: bv16, mask: bv16)
    requires mask & (mask - 1) == 0
    ensures Bit(x ^ y, mask) == (Bit(x, mask) != Bit(y, mask))
  {
  }

  lemma ShiftBit(x: bv16, mask: bv16)
    requires mask & (mask - 1) == 0
    ensures Bit(x << 1, mask) == (mask != 1 && Bit(x, mask >> 1))
  {
  }

  lemma ShiftBit8(x: bv16, mask: bv16)
    ensures mask & 0xff == 0 ==> Bit(x << 8, mask) == Bit(x, mask >> 8)
    ensures mask & 0xff00 == 0 ==> !Bit(x << 8, mask) && Bit(x >> 8, mask) == Bit(x, mask << 8)
    ensures mask & 0xff == 0 ==> !Bit(x >> 8, mask)
  {
  }

  lemma XorIsXor(x: bv16, y: bv16)
    ensures Coefficients(x ^ y) == Xor(Coefficients(x), Coefficients(y))
  {
    hide Bit, Mask;
    forall i | 0 <= i < 16
      ensures Bit(x ^ y, Mask(i)) == (Bit(x, Mask(i)) != Bit(y, Mask(i)))
    {
      MaskIsSingle(i);
      XorBit(x, y, Mask(i));
    }
  }

  lemma ShiftedOnce(x: bv16)
    ensures Coefficients(x << 1) == Coefficients(x)[1..] + [false]
  {
    hide Bit, Mask;
    var shifted := Coefficients(x << 1);
    forall i | 0 <= i < 16
      ensures shifted[i] == (i < 15 && Coefficients(x)[i + 1])
    {
      MaskIsSingle(i);
      MaskNext(i);
      ShiftBit(x, Mask(i));
    }
  }

  lemma ShiftedByte(x: bv16)
    ensures Coefficients(x << 8) == Coefficients(x)[8..] + Zeros(8)
    ensures Coefficients(x >> 8) == Zeros(8) + Coefficients(x)[..8]
  {
    hide Bit, Mask;
    var left, right := Coefficients(x << 8), Coefficients(x >> 8);
    forall i | 0 <= i < 16
      ensures left[i] == (i < 8 && Coefficients(x)[i + 8])
      ensures right[i] == (i >= 8 && Coefficients(x)[i - 8])
    {
      MaskFar(i);
      ShiftBit8(x, Mask(i));
      if i >= 8 {
        MaskFar(i - 8);
      }
    }
  }

  lemma Reduction()
    ensures Coefficients(POLYNOMIAL) == Generator()
  {
  }

  /** The inner loop of the table construction. */
  function TableShift(crc: bv16): bv16 {
    (crc << 1) ^ (if crc & 0x8000 != 0 then POLYNOMIAL else 0)
  }

  lemma TopCoefficient(x: bv16)
    ensures Coefficients(x)[0] == (x & 0x8000 != 0)
  {
  }

  lemma TableShiftCarry(x: bv16)
    requires x & 0x8000 != 0
    ensures TableShift(x) == (x << 1) ^ POLYNOMIAL
  {
  }

  lemma TableShiftPlain(x: bv16)
    requires x & 0x8000 == 0
    ensures TableShift(x) == x << 1
  {
  }

  lemma TableShiftIsShift(x: bv16)
    ensures Coefficients(TableShift(x)) == Shift(Coefficients(x))
  {
    hide Coefficients, TableShift;
    TopCoefficient(x);
    ShiftedOnce(x);
    Reduction();
    if x & 0x8000 != 0 {
      TableShiftCarry(x);
      XorIsXor(x << 1, POLYNOMIAL);
    } else {
      TableShiftPlain(x);
    }
  }

  lemma SomeBit(x: bv16)
    requires x != 0
    ensures Coefficients(x) != Zeros(16)
  {
    var c := Coefficients(x);
    assert c[0] || c[1] || c[2] || c[3] || c[4] || c[5] || c[6] || c[7]
        || c[8] || c[9] || c[10] || c[11] || c[12] || c[13] || c[14] || c[15];
  }

  // ----- the code

  function TableShiftBy(x: bv16, n: nat): bv16
    decreases n
  {
    if n == 0 then x else TableShift(TableShiftBy(x, n - 1))
  }

  /** The table's entry for a byte, held in the low half of a word. */
  function Entry(index: bv16): bv16 {
    TableShiftBy(index << 8, 8)
  }

  /** CRC16::add(byte). */
  function AddByte(crc: bv16, b: byte): bv16 {
    (crc << 8) ^ Entry(Index(crc, b))
  }

  /** The register after a whole field. */
  function CrcOf(crc: bv16, data: seq<byte>): bv16
    decreases |data|
  {
    if data == [] then crc else CrcOf(AddByte(crc, data[0]), data[1..])
  }

  function BitsOf(data: seq<byte>): (r: seq<bool>)
    ensures |r| == 8 * |data|
  {
    if data == [] then [] else ByteBits(data[0]) + BitsOf(data[1..])
  }

  lemma ShiftByLast(r: Register, n: nat)
    requires n > 0
    ensures ShiftBy(r, n) == Shift(ShiftBy(r, n - 1))
    decreases n
  {
    if n > 1 {
      ShiftByLast(Shift(r), n - 1);
    }
  }

  lemma TableShiftByIsShiftBy(x: bv16, n: nat)
    ensures Coefficients(TableShiftBy(x, n)) == ShiftBy(Coefficients(x), n)
    decreases n
  {
    hide Coefficients, TableShift, Shift;
    if n > 0 {
      TableShiftByIsShiftBy(x, n - 1);
      TableShiftIsShift(TableShiftBy(x, n - 1));
      ShiftByLast(Coefficients(x), n);
    }
  }

  /** Leading zero coefficients are just shifted out. */
  lemma {:induction false} ShiftOutZeros(r: Register, n: nat)
    requires n <= 16 && r[..n] == Zeros(n)
    ensures ShiftBy(r, n) == r[n..] + Zeros(n)
    decreases n
  {
    if n > 0 {
      assert !r[..n][0];
      var s := Shift(r);
      assert s == r[1..] + [false];
      assert s[..n - 1] == r[..n][1..] == Zeros(n - 1);
      ShiftOutZeros(s, n - 1);
      assert s[n - 1..] + Zeros(n - 1) == r[n..] + Zeros(n);
    }
  }

  lemma WideBit(b: byte, i: nat)
    requires i < 16
    ensures Bit(b as bv16, Mask(i)) == (i >= 8 && ByteBit(b, i - 8))
  {
  }

  lemma ByteCoefficients(b: byte)
    ensures Coefficients(b as bv16) == Zeros(8) + ByteBits(b)
  {
    hide Bit, Mask, ByteBit;
    forall i | 0 <= i < 16
      ensures Coefficients(b as bv16)[i] == (Zeros(8) + ByteBits(b))[i]
    {
      WideBit(b, i);
    }
  }

  /** The table index that AddByte computes. */
  function Index(x: bv16, b: byte): bv16 {
    ((x >> 8) ^ (b as bv16)) & 0xff
  }

  lemma IndexUnmasked(x: bv16, b: byte)
    ensures Index(x, b) == (x >> 8) ^ (b as bv16)
  {
  }

  lemma XorMeans(x: bv16, y: bv16, z: bv16)
    requires z == x ^ y
    ensures Coefficients(z) == Xor(Coefficients(x), Coefficients(y))
  {
    XorIsXor(x, y);
  }

  lemma SplitLow(p: seq<bool>, q: seq<bool>)
    requires |p| == |q| == 8
    ensures Xor(Zeros(8) + p, Zeros(8) + q) == Zeros(8) + Xor(p, q)
  {
  }

  lemma IndexCoefficients(x: bv16, b: byte)
    ensures Coefficients(Index(x, b)) == Zeros(8) + Xor(Coefficients(x)[..8], ByteBits(b))
  {
    hide Coefficients, ByteBits, Index;
    IndexUnmasked(x, b);
    ShiftedByte(x);
    ByteCoefficients(b);
    XorMeans(x >> 8, b as bv16, Index(x, b));
    SplitLow(Coefficients(x)[..8], ByteBits(b));
  }

  lemma SplitHalves(r: Register, bits: seq<bool>)
    requires |bits| == 8
    ensures Xor(r, bits + Zeros(8)) == Xor(Xor(r[..8], bits) + Zeros(8), Zeros(8) + r[8..])
  {
  }

  /** One table step is eight steps of the division. */
  lemma AddByteIsDivide(x: bv16, b: byte)
    ensures Coefficients(AddByte(x, b)) == Divide(Coefficients(x), ByteBits(b))
  {
    hide Coefficients, ByteBits, Entry, Shift, Index;
    var index := Index(x, b);
    var r, bits := Coefficients(x), ByteBits(b);
    IndexCoefficients(x, b);
    ShiftedByte(index);
    EntryIsShiftBy(index);
    ShiftedByte(x);
    XorIsXor(x << 8, Entry(index));
    DivideAhead(r, bits);
    var top, low := Coefficients(index << 8), Zeros(8) + r[8..];
    SplitHalves(r, bits);
    assert top == Xor(r[..8], bits) + Zeros(8);
    ShiftByLinear(top, low, 8);
    ShiftOutZeros(low, 8);
    assert low[8..] == r[8..];
    assert Xor(ShiftBy(top, 8), r[8..] + Zeros(8)) == Xor(r[8..] + Zeros(8), ShiftBy(top, 8));
  }

  lemma EntryIsShiftBy(index: bv16)
    ensures Coefficients(Entry(index)) == ShiftBy(Coefficients(index << 8), 8)
  {
    TableShiftByIsShiftBy(index << 8, 8);
  }

  /** The table-driven register refines the bit-serial division, for every field and every initial value. */
  lemma {:induction false} CrcIsDivision(crc: bv16, data: seq<byte>)
    ensures Coefficients(CrcOf(crc, data)) == Divide(Coefficients(crc), BitsOf(data))
    decreases |data|
  {
    hide Coefficients, ByteBits, AddByte;
    if data != [] {
      AddByteIsDivide(crc, data[0]);
      CrcIsDivision(AddByte(crc, data[0]), data[1..]);
      DivideAppend(Coefficients(crc), ByteBits(data[0]), BitsOf(data[1..]));
    }
  }

  // ----- fields

  lemma CrcOfAppend(crc: bv16, p: seq<byte>, q: seq<byte>)
    ensures CrcOf(crc, p + q) == CrcOf(CrcOf(crc, p), q)
    decreases |p|
  {
    hide AddByte;
    if p == [] {
      assert p + q == q;
    } else {
      assert (p + q)[1..] == p[1..] + q;
      CrcOfAppend(AddByte(crc, p[0]), p[1..], q);
    }
  }

  lemma CrcOfNone(crc: bv16)
    ensures CrcOf(crc, []) == crc
  {
  }

  lemma CrcOfPush(crc: bv16, data: seq<byte>, b: byte)
    ensures CrcOf(crc, data + [b]) == AddByte(CrcOf(crc, data), b)
  {
    hide AddByte;
    CrcOfAppend(crc, data, [b]);
    assert [b][1..] == [];
  }

  lemma {:induction false} BitsOfInjective(p: seq<byte>, q: seq<byte>)
    requires |p| == |q| && BitsOf(p) == BitsOf(q)
    ensures p == q
  {
    hide ByteBits;
    if p != [] {
      assert BitsOf(p)[..8] == ByteBits(p[0]) && BitsOf(q)[..8] == ByteBits(q[0]);
      assert BitsOf(p)[8..] == BitsOf(p[1..]) && BitsOf(q)[8..] == BitsOf(q[1..]);
      SameBits(p[0], q[0]);
      BitsOfInjective(p[1..], q[1..]);
    }
  }

  /** The bits in which two fields of one length differ. */
  function Difference(p: seq<byte>, q: seq<byte>): seq<bool>
    requires |p| == |q|
  {
    Xor(BitsOf(p), BitsOf(q))
  }

  lemma DifferenceDivides(crc: bv16, p: seq<byte>, q: seq<byte>)
    requires |p| == |q|
    ensures Xor(Coefficients(CrcOf(crc, p)), Coefficients(CrcOf(crc, q))) == Divide(Zeros(16), Difference(p, q))
  {
    hide Coefficients, ByteBits, AddByte;
    CrcIsDivision(crc, p);
    CrcIsDivision(crc, q);
    DivideLinear(Coefficients(crc), Coefficients(crc), BitsOf(p), BitsOf(q));
    assert Xor(Coefficients(crc), Coefficients(crc)) == Zeros(16);
  }

  lemma NoDifference(p: seq<byte>, q: seq<byte>)
    requires |p| == |q| && Difference(p, q) == Zeros(8 * |p|)
    ensures p == q
  {
    hide BitsOf;
    forall i | 0 <= i < 8 * |p|
      ensures BitsOf(p)[i] == BitsOf(q)[i]
    {
      assert !Difference(p, q)[i];
    }
    BitsOfInjective(p, q);
  }

  lemma XorSelf(r: Register)
    ensures Xor(r, r) == Zeros(16)
  {
  }

  lemma XorZero(r: Register, s: Register)
    requires Xor(r, s) == Zeros(16)
    ensures r == s
  {
    forall i | 0 <= i < 16
      ensures r[i] == s[i]
    {
      assert !Xor(r, s)[i];
    }
  }

  /** Damage confined to sixteen consecutive bits, at any bit offset of a field of any length, changes the register. */
  lemma BurstDetected(crc: bv16, good: seq<byte>, bad: seq<byte>, start: nat)
    requires |good| == |bad| && good != bad && IsBurst(Difference(good, bad), start)
    ensures CrcOf(crc, bad) != CrcOf(crc, good)
  {
    hide Coefficients, ByteBits, AddByte;
    if Difference(good, bad) == Zeros(|Difference(good, bad)|) {
      NoDifference(good, bad);
    } else {
      BurstIsNotMultiple(Difference(good, bad), start);
      DifferenceDivides(crc, good, bad);
      XorSelf(Coefficients(CrcOf(crc, good)));
    }
  }

  /** Any odd number of flipped bits, anywhere in a field, changes the register. */
  lemma OddErrorDetected(crc: bv16, good: seq<byte>, bad: seq<byte>)
    requires |good| == |bad| && Odd(Difference(good, bad))
    ensures CrcOf(crc, bad) != CrcOf(crc, good)
  {
    hide Coefficients, ByteBits, AddByte;
    DifferenceDivides(crc, good, bad);
    DivideParity(Zeros(16), Difference(good, bad));
    OddZeros(16);
    XorSelf(Coefficients(CrcOf(crc, good)));
  }

  function Msb(crc: bv16): byte {
    (crc >> 8) as byte
  }

  function Lsb(crc: bv16): byte {
    (crc & 0xff) as byte
  }

  lemma BytesWidened(crc: bv16)
    ensures Msb(crc) as bv16 == crc >> 8
    ensures Lsb(crc) as bv16 == crc & 0xff
  {
  }

  lemma BytesOfWord(crc: bv16)
    ensures ByteBits(Msb(crc)) == Coefficients(crc)[..8]
    ensures ByteBits(Lsb(crc)) == Coefficients(crc)[8..]
  {
    hide Coefficients, ByteBits, Msb, Lsb;
    BytesWidened(crc);
    ByteCoefficients(Msb(crc));
    ByteCoefficients(Lsb(crc));
    ShiftedByte(crc);
    LowByteOnly(crc);
    assert (Zeros(8) + ByteBits(Msb(crc)))[8..] == (Zeros(8) + Coefficients(crc)[..8])[8..];
    assert (Zeros(8) + ByteBits(Lsb(crc)))[8..] == Coefficients(crc & 0xff)[8..];
  }

  lemma LowBit(x: bv16, mask: bv16)
    requires mask & 0xff00 == 0
    ensures Bit(x & 0xff, mask) == Bit(x, mask)
  {
  }

  lemma LowByteOnly(x: bv16)
    ensures Coefficients(x & 0xff)[8..] == Coefficients(x)[8..]
  {
    hide Bit, Mask;
    var low, c := Coefficients(x & 0xff), Coefficients(x);
    forall i | 8 <= i < 16
      ensures low[i] == c[i]
    {
      MaskFar(i);
      LowBit(x, Mask(i));
    }
  }

  /** A field followed by two bytes leaves register zero exactly when those bytes are its CRC, high byte first. */
  lemma ZeroResidue(crc: bv16, data: seq<byte>, high: byte, low: byte)
    ensures CrcOf(crc, data + [high, low]) == 0 <==> high == Msb(CrcOf(crc, data)) && low == Lsb(CrcOf(crc, data))
  {
    hide Coefficients, ByteBits, AddByte, Msb, Lsb, Shift;
    var c := CrcOf(crc, data);
    var r, bits := Coefficients(c), ByteBits(high) + ByteBits(low);
    CrcOfAppend(crc, data, [high, low]);
    CrcIsDivision(c, [high, low]);
    TwoBytes(high, low);
    DivideAhead(r, bits);
    assert bits + Zeros(0) == bits;
    BytesOfWord(c);
    ZeroWord(CrcOf(c, [high, low]));
    if Xor(r, bits) == Zeros(16) {
      ShiftByZero(16);
      XorZero(r, bits);
      SameBits(high, Msb(c));
      SameBits(low, Lsb(c));
    } else {
      ShiftByKeepsNonZero(Xor(r, bits), 16);
      XorSelf(r);
      assert r == r[..8] + r[8..];
    }
  }

  lemma TwoBytes(high: byte, low: byte)
    ensures BitsOf([high, low]) == ByteBits(high) + ByteBits(low)
  {
  }

  lemma ZeroWord(x: bv16)
    ensures Coefficients(x) == Zeros(16) <==> x == 0
  {
    if x != 0 {
      SomeBit(x);
    }
  }

  /** The constant for three sync bytes. */
  lemma SyncConstant()
    ensures CrcOf(0xffff, [0xa1, 0xa1, 0xa1]) == 0xcdb4 && INIT_CRC == 0xffff && A1A1A1 == 0xcdb4
  {
  }

  /** The running register over a shared lookup table. */
  class CRC16 {
    const lookup: array<bv16>
    var crc: bv16

    ghost predicate Valid()
      reads this, lookup
    {
      lookup.Length == 256 && IsTable(lookup[..])
    }

    constructor (lookup: array<bv16>, init: bv16)
      requires lookup.Length == 256 && (lookup[0] == 0 || IsTable(lookup[..]))
      modifies lookup
      ensures this.lookup == lookup && Valid() && crc == init
    {
      this.lookup, crc := lookup, init;
      new;
      InitCrcTable(lookup);
    }

    method Add(b: byte) returns (r: bv16)
      requires Valid()
      modifies this`crc
      ensures crc == AddByte(old(crc), b) && r == crc
    {
      crc := (crc << 8) ^ lookup[(((crc >> 8) ^ (b as bv16)) & 0xff) as int];
      return crc;
    }

    method AddRepeated(b: byte, len0: int) returns (r: bv16)
      requires Valid()
      modifies this`crc
      ensures crc == CrcOf(old(crc), seq(if len0 < 0 then 0 else len0, _ => b)) && r == crc
    {
      var len := len0;
      while len > 0
        invariant len <= len0 && (len0 >= 0 ==> len >= 0)
        invariant Valid()
        invariant crc == CrcOf(old(crc), seq(if len0 < 0 then 0 else len0 - len, _ => b))
      {
        ghost var done := seq(len0 - len, _ => b);
        CrcOfAppend(old(crc), done, [b]);
        assert done + [b] == seq(len0 - len + 1, _ => b);
        len := len - 1;
        var _ := Add(b);
      }
      return crc;
    }

    method AddBlock(buf: seq<byte>, len: int) returns (r: bv16)
      requires Valid() && len <= |buf|
      modifies this`crc
      ensures crc == CrcOf(old(crc), if len < 0 then [] else buf[..len]) && r == crc
    {
      var i := 0;
      while i < len
        invariant 0 <= i <= |buf| && (0 <= len ==> i <= len) && (len < 0 ==> i == 0)
        invariant Valid()
        invariant crc == CrcOf(old(crc), buf[..i])
      {
        CrcOfAppend(old(crc), buf[..i], [buf[i]]);
        assert buf[..i + 1] == buf[..i] + [buf[i]];
        var _ := Add(buf[i]);
        i := i + 1;
      }
      return crc;
    }
  }

  /** Every byte's entry is in place. */
  ghost predicate IsTable(lookup: seq<bv16>) {
    |lookup| == 256 && forall x: bv16 :: x < 256 ==> lookup[x as int] == Entry(x)
  }

  /** init_crc_table, which takes a non-zero first entry to mean that the table is there already. */
  method InitCrcTable(lookup: array<bv16>)
    requires lookup.Length == 256 && (lookup[0] == 0 || IsTable(lookup[..]))
    modifies lookup
    ensures IsTable(lookup[..])
  {
    hide TableShift;
    if lookup[0] == 0 {
      for i := 0 to 256
        invariant forall k :: 0 <= k < i ==> lookup[k] == Entry(k as bv16)
      {
        var crc := (i as bv16) << 8;
        for j := 0 to 8
          invariant crc == TableShiftBy((i as bv16) << 8, j)
        {
          crc := TableShift(crc);
        }
        lookup[i] := crc;
      }
    }
  }
}
