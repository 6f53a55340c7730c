/**
  What the sync patterns are that realignment looks for: address marks, whose
  clock bits no encoded byte has.
 */
module SyncMarks {
  import opened Arithmetic
  import opened BitBuffers
  import opened TrackBuilding
  import opened Words

  // ----- cells

  /** The raw bits with these clock and data bits; FM has a filler behind each of them. */
  function Cells(e: Encoding, clock: byte, data: byte): (r: seq<bool>)
    requires !e.Raw?
    ensures |r| == Unit(e)
  {
    if e.FM? then
      seq(32, i requires 0 <= i < 32 =>
            if i % 4 == 0 then ByteBit(clock, i / 4) else i % 4 == 2 && ByteBit(data, i / 4))
    else
      seq(16, i requires 0 <= i < 16 => if i % 2 == 0 then ByteBit(clock, i / 2) else ByteBit(data, i / 2))
  }

  /** read_byte finds the data bits in them. */
  lemma CellsHoldData(e: Encoding, clock: byte, data: byte, k: nat)
    requires !e.Raw? && k < 8
    ensures DataBit(e, k) < Unit(e) && Cells(e, clock, data)[DataBit(e, k)] == ByteBit(data, k)
  {
  }

  /** The bit before a data bit. */
  function Before(bits: seq<bool>, last: bool, k: nat): bool
    requires k < |bits|
  {
    if k == 0 then last else bits[k - 1]
  }

  /** MFM has a clock bit between two zeros and nowhere else, FM before every bit. */
  lemma {:induction false} EncodedClock(e: Encoding, bits: seq<bool>, last: bool, k: nat)
    requires !e.Raw? && k < |bits|
    ensures e.MFM? ==> Encoded(e, bits, last)[2 * k] == !(Before(bits, last, k) || bits[k])
    ensures e.FM? ==>
              && Encoded(e, bits, last)[4 * k] && !Encoded(e, bits, last)[4 * k + 1]
              && !Encoded(e, bits, last)[4 * k + 3]
    decreases |bits|
  {
    if k > 0 {
      EncodedClock(e, bits[1..], bits[0], k - 1);
    }
  }

  /** Encoded MFM never has two ones in a row, nor four zeros. */
  lemma MFMRuns(bits: seq<bool>, last: bool, i: nat)
    requires i + 1 < 2 * |bits|
    ensures !(Encoded(MFM, bits, last)[i] && Encoded(MFM, bits, last)[i + 1])
    ensures i + 3 < 2 * |bits| ==>
              Encoded(MFM, bits, last)[i] || Encoded(MFM, bits, last)[i + 1] || Encoded(MFM, bits, last)[i + 2]
              || Encoded(MFM, bits, last)[i + 3]
  {
    var k := i / 2;
    CellOf(bits, last, k);
    if k + 1 < |bits| {
      CellOf(bits, last, k + 1);
    }
    if k + 2 < |bits| {
      CellOf(bits, last, k + 2);
    }
  }

  lemma CellOf(bits: seq<bool>, last: bool, k: nat)
    requires k < |bits|
    ensures Encoded(MFM, bits, last)[2 * k] == !(Before(bits, last, k) || bits[k])
    ensures Encoded(MFM, bits, last)[2 * k + 1] == bits[k]
  {
    hide Encoded;
    EncodedClock(MFM, bits, last, k);
    EncodedDataBit(MFM, bits, last, k);
  }

  // ----- the patterns as numbers

  lemma {:induction false} ValueUnique(a: seq<bool>, b: seq<bool>)
    requires |a| == |b| && Value(a) == Value(b)
    ensures a == b
    decreases |a|
  {
    if a != [] {
      var n := |a| - 1;
      ValueUnique(a[..n], b[..n]);
      assert a == a[..n] + [a[n]] && b == b[..n] + [b[n]];
    }
  }

  function Digit(bit: bool): nat {
    if bit then 1 else 0
  }

  lemma ValuePush(bits: seq<bool>, bit: bool)
    ensures Value(bits + [bit]) == 2 * Value(bits) + Digit(bit)
  {
    assert (bits + [bit])[..|bits|] == bits;
  }

  lemma ValueNibble(bits: seq<bool>, a: bool, b: bool, c: bool, d: bool)
    ensures Value(bits + [a, b, c, d]) == 16 * Value(bits) + 8 * Digit(a) + 4 * Digit(b) + 2 * Digit(c) + Digit(d)
  {
    hide Value;
    ValuePush(bits, a);
    ValuePush(bits + [a], b);
    ValuePush(bits + [a] + [b], c);
    ValuePush(bits + [a] + [b] + [c], d);
    assert bits + [a] + [b] + [c] + [d] == bits + [a, b, c, d];
  }

  function Nibble(raw: seq<bool>, n: nat): nat
    requires 4 * n + 4 <= |raw|
  {
    8 * Digit(raw[4 * n]) + 4 * Digit(raw[4 * n + 1]) + 2 * Digit(raw[4 * n + 2]) + Digit(raw[4 * n + 3])
  }

  lemma ValueGrows(raw: seq<bool>, n: nat)
    requires 4 * n + 4 <= |raw|
    ensures Value(raw[..4 * n + 4]) == 16 * Value(raw[..4 * n]) + Nibble(raw, n)
  {
    hide Value;
    ValueNibble(raw[..4 * n], raw[4 * n], raw[4 * n + 1], raw[4 * n + 2], raw[4 * n + 3]);
    assert raw[..4 * n + 4] == raw[..4 * n] + [raw[4 * n], raw[4 * n + 1], raw[4 * n + 2], raw[4 * n + 3]];
  }

  /** Four nibbles more. */
  lemma ValueOf16(raw: seq<bool>, n: nat)
    requires 4 * n + 16 <= |raw|
    ensures Value(raw[..4 * n + 16])
         == 0x1_0000 * Value(raw[..4 * n]) + 0x1000 * Nibble(raw, n) + 0x100 * Nibble(raw, n + 1)
            + 0x10 * Nibble(raw, n + 2) + Nibble(raw, n + 3)
  {
    hide Value, Nibble;
    ValueGrows(raw, n);
    ValueGrows(raw, n + 1);
    ValueGrows(raw, n + 2);
    ValueGrows(raw, n + 3);
  }

  lemma ValueOfWord(raw: seq<bool>)
    requires |raw| == 16
    ensures Value(raw) == 0x1000 * Nibble(raw, 0) + 0x100 * Nibble(raw, 1) + 0x10 * Nibble(raw, 2) + Nibble(raw, 3)
  {
    hide Value, Nibble;
    ValueOf16(raw, 0);
    assert raw[..0] == [] && raw[..16] == raw;
    NoValue();
  }

  lemma ValueOfLong(raw: seq<bool>)
    requires |raw| == 32
    ensures Value(raw)
         == 0x1000_0000 * Nibble(raw, 0) + 0x100_0000 * Nibble(raw, 1) + 0x10_0000 * Nibble(raw, 2)
            + 0x1_0000 * Nibble(raw, 3) + 0x1000 * Nibble(raw, 4) + 0x100 * Nibble(raw, 5) + 0x10 * Nibble(raw, 6)
            + Nibble(raw, 7)
  {
    hide Value, Nibble;
    ValueOf16(raw, 0);
    ValueOf16(raw, 4);
    assert raw[..0] == [] && raw[..32] == raw;
    NoValue();
  }

  lemma NoValue()
    ensures Value([]) == 0
  {
  }

  lemma CellNibbles(clock: byte, data: byte, n: nat)
    ensures n < 4 ==>
              Nibble(Cells(MFM, clock, data), n)
              == 8 * Digit(ByteBit(clock, 2 * n)) + 4 * Digit(ByteBit(data, 2 * n))
                 + 2 * Digit(ByteBit(clock, 2 * n + 1)) + Digit(ByteBit(data, 2 * n + 1))
    ensures n < 8 ==>
              Nibble(Cells(FM, clock, data), n) == 8 * Digit(ByteBit(clock, n)) + 2 * Digit(ByteBit(data, n))
  {
    hide ByteBit;
  }

  // ----- MFM: 0xa1 without one of its clock bits

  lemma SyncValue(clock: byte)
    requires clock == 0x0a || clock == 0x0e
    ensures Value(Cells(MFM, clock, 0xa1)) == if clock == 0x0a then 0x4489 else 0x44a9
  {
    hide Value, Nibble, Cells;
    ValueOfWord(Cells(MFM, clock, 0xa1));
    CellNibbles(clock, 0xa1, 0);
    CellNibbles(clock, 0xa1, 1);
    CellNibbles(clock, 0xa1, 2);
    CellNibbles(clock, 0xa1, 3);
  }

  /** The register's low half when a mark is seen: 0xa1, with one of its clock bits left out or, by option, in place. */
  lemma MFMMark(a1sync: bool, dword: seq<bool>)
    requires |dword| == 32
    ensures IsMark(MFM, a1sync, dword)
       <==> dword[16..] == Cells(MFM, 0x0a, 0xa1) || (a1sync && dword[16..] == Cells(MFM, 0x0e, 0xa1))
  {
    hide Value, Cells;
    var half, sync, full := dword[16..], Cells(MFM, 0x0a, 0xa1), Cells(MFM, 0x0e, 0xa1);
    SyncValue(0x0a);
    OneClockApart();
    assert dword[26 := false][16..] == half[10 := false];
    var seen := if a1sync then half[10 := false] else half;
    assert sync[10 := false] == sync == full[10 := false];
    assert IsMark(MFM, a1sync, dword) <==> Value(seen) == 0x4489;
    if Value(seen) == 0x4489 {
      ValueUnique(seen, sync);
      ClockRestored(half, sync, full);
    }
  }

  lemma ClockRestored(half: seq<bool>, sync: seq<bool>, full: seq<bool>)
    requires |half| == |sync| == |full| == 16 && full[10 := false] == sync == half[10 := false] && full[10]
    ensures half == if half[10] then full else sync
  {
    forall i | 0 <= i < 16
      ensures half[i] == if half[10] then full[i] else sync[i]
    {
      assert i != 10 ==> half[10 := false][i] == half[i] && full[10 := false][i] == full[i];
    }
  }

  /** The two differ in the clock bit between the fifth and the sixth data bit. */
  lemma OneClockApart()
    ensures Cells(MFM, 0x0e, 0xa1)[10 := false] == Cells(MFM, 0x0a, 0xa1)
    ensures Cells(MFM, 0x0e, 0xa1)[10] && !Cells(MFM, 0x0a, 0xa1)[10]
    ensures !ByteBit(0xa1, 4) && !ByteBit(0xa1, 5)
  {
    assert ByteBit(0x0e, 5) && !ByteBit(0x0a, 5);
    forall k | 0 <= k < 8 && k != 5
      ensures ByteBit(0x0e, k) == ByteBit(0x0a, k)
    {
    }
  }

  /** No encoded byte has the pattern, whatever its last bit before; 0xa1 has the other one. */
  lemma NoByteIsMark(b: byte, last: bool)
    ensures Encoded(MFM, ByteBits(b), last) != Cells(MFM, 0x0a, 0xa1)
    ensures Encoded(MFM, ByteBits(0xa1), last) == Cells(MFM, 0x0e, 0xa1)
  {
    hide Encoded, Cells, ByteBits;
    OneClockApart();
    var raw, sync := Encoded(MFM, ByteBits(b), last), Cells(MFM, 0x0a, 0xa1);
    CellOf(ByteBits(b), last, 4);
    CellOf(ByteBits(b), last, 5);
    CellsHoldData(MFM, 0x0a, 0xa1, 4);
    CellsHoldData(MFM, 0x0a, 0xa1, 5);
    A1Encoded(last);
  }

  lemma A1Encoded(last: bool)
    ensures Encoded(MFM, ByteBits(0xa1), last) == Cells(MFM, 0x0e, 0xa1)
  {
    hide Encoded;
    var raw, cells, bits := Encoded(MFM, ByteBits(0xa1), last), Cells(MFM, 0x0e, 0xa1), ByteBits(0xa1);
    forall i | 0 <= i < 16
      ensures raw[i] == cells[i]
    {
      CellOf(bits, last, i / 2);
    }
  }

  // ----- FM: address marks

  /** The data bits of the address marks, and their clock bits. */
  predicate IsAddressMark(clock: byte, data: byte) {
    if data == 0xfc then clock == 0xd7 else 0xf8 <= data <= 0xfe && clock == 0xc7
  }

  lemma AddressMarkValue(clock: byte, data: byte)
    requires IsAddressMark(clock, data)
    ensures Value(Cells(FM, clock, data)) == MarkWord(data)
  {
    hide Value, Nibble, Cells, ByteBit, Digit;
    AddressMarkBits(clock, data);
    ValueOfLong(Cells(FM, clock, data));
    CellNibbles(clock, data, 0);
    CellNibbles(clock, data, 1);
    CellNibbles(clock, data, 2);
    CellNibbles(clock, data, 3);
    CellNibbles(clock, data, 4);
    CellNibbles(clock, data, 5);
    CellNibbles(clock, data, 6);
    CellNibbles(clock, data, 7);
  }

  /** All but the last three bits of a mark's data are ones; its clock is 1100 0111, or with one bit more. */
  lemma AddressMarkBits(clock: byte, data: byte)
    requires IsAddressMark(clock, data)
    ensures forall k :: 0 <= k < 8 ==>
              Digit(ByteBit(clock, k)) == if k in {2, 4} || (k == 3 && data != 0xfc) then 0 else 1
    ensures forall k :: 0 <= k < 5 ==> Digit(ByteBit(data, k)) == 1
    ensures Digit(ByteBit(data, 5)) == if data in {0xfc, 0xfd, 0xfe} then 1 else 0
    ensures Digit(ByteBit(data, 6)) == if data in {0xfa, 0xfb, 0xfe} then 1 else 0
    ensures Digit(ByteBit(data, 7)) == if data in {0xf9, 0xfb, 0xfd} then 1 else 0
  {
  }

  function MarkWord(data: byte): nat {
    match data
    case 0xf8 => 0xaa222888
    case 0xf9 => 0xaa22288a
    case 0xfa => 0xaa2228a8
    case 0xfb => 0xaa2228aa
    case 0xfc => 0xaa2a2a88
    case 0xfd => 0xaa222a8a
    case 0xfe => 0xaa222aa8
    case _ => 0
  }

  /** The register when a mark is seen: one of the address marks 0xf8 to 0xfe with its clock bits. */
  lemma FMMark(a1sync: bool, dword: seq<bool>)
    requires |dword| == 32
    ensures IsMark(FM, a1sync, dword)
       <==> exists clock, data :: IsAddressMark(clock, data) && dword == Cells(FM, clock, data)
  {
    hide Value, Cells;
    if IsMark(FM, a1sync, dword) {
      var clock, data := WhichMark(Value(dword));
      AddressMarkValue(clock, data);
      ValueUnique(dword, Cells(FM, clock, data));
    }
    if clock, data :| IsAddressMark(clock, data) && dword == Cells(FM, clock, data) {
      AddressMarkValue(clock, data);
    }
  }

  lemma WhichMark(word: nat) returns (clock: byte, data: byte)
    requires word in {0xaa222888, 0xaa22288a, 0xaa2228a8, 0xaa2228aa, 0xaa2a2a88, 0xaa222a8a, 0xaa222aa8}
    ensures IsAddressMark(clock, data) && MarkWord(data) == word
  {
    clock := if word == 0xaa2a2a88 then 0xd7 else 0xc7;
    data := match word
      case 0xaa222888 => 0xf8
      case 0xaa22288a => 0xf9
      case 0xaa2228a8 => 0xfa
      case 0xaa2228aa => 0xfb
      case 0xaa2a2a88 => 0xfc
      case 0xaa222a8a => 0xfd
      case _ => 0xfe;
  }

  /** An encoded byte has all its clock bits, so none is a mark. */
  lemma NoByteIsAddressMark(b: byte, last: bool, clock: byte, data: byte)
    requires IsAddressMark(clock, data)
    ensures Encoded(FM, ByteBits(b), last) == Cells(FM, 0xff, b) != Cells(FM, clock, data)
  {
    var raw, cells := Encoded(FM, ByteBits(b), last), Cells(FM, 0xff, b);
    forall i | 0 <= i < 32
      ensures raw[i] == cells[i]
    {
      EncodedClock(FM, ByteBits(b), last, i / 4);
      EncodedDataBit(FM, ByteBits(b), last, i / 4);
    }
    assert !ByteBit(clock, 2);
    assert cells[8] && !Cells(FM, clock, data)[8];
  }

  // ----- marks in a buffer

  /** A mark is complete after f reads when the last unit read is one. */
  lemma MarkIsWindow(a1sync: bool, bits: seq<bool>, f: nat)
    requires bits != [] && f > 0
    ensures Found(MFM, a1sync, bits, f)
       <==> var w := Window(bits, f - 16, 16);
            w == Cells(MFM, 0x0a, 0xa1) || (a1sync && w == Cells(MFM, 0x0e, 0xa1))
    ensures Found(FM, a1sync, bits, f)
       <==> exists clock, data :: IsAddressMark(clock, data) && Window(bits, f - 32, 32) == Cells(FM, clock, data)
  {
    hide Cells, Window, Register, IsMark;
    RegisterEnd(bits, f, 16);
    RegisterEnd(bits, f, 32);
    MFMMark(a1sync, Register(bits, f));
    FMMark(a1sync, Register(bits, f));
    assert Register(bits, f)[0..] == Register(bits, f);
  }

  lemma {:induction false} WindowsAt(bits: seq<bool>, ws: seq<int>, unit: nat, i: nat)
    requires bits != [] && i < |ws|
    ensures 0 <= unit * i <= unit * i + unit <= |Windows(bits, ws, unit)|
    ensures Windows(bits, ws, unit)[unit * i..unit * i + unit] == Window(bits, ws[i], unit)
    decreases |ws|
  {
    hide Window, Windows;
    var n := |ws| - 1;
    WindowsPush(bits, ws[..n], ws[n], unit);
    assert ws == ws[..n] + [ws[n]];
    UnitsFit(unit, i, n);
    if i < n {
      WindowsAt(bits, ws[..n], unit, i);
    }
  }

  lemma {:induction false} UnitsFit(unit: nat, i: nat, n: nat)
    ensures 0 <= unit * i
    ensures i < n ==> unit * i + unit <= unit * n
    decreases n
  {
    if i < n {
      UnitsFit(unit, i, n - 1);
      OneUnitMore(unit, n - 1);
    }
  }

  lemma OneUnitMore(unit: nat, n: nat)
    ensures unit * (n + 1) == unit * n + unit
  {
  }

  /** What realignment is for: every mark that stands alone is a unit of the realigned data. */
  lemma MarkAligned(e: Encoding, a1sync: bool, bits: seq<bool>, ws: seq<int>, t: nat, f: nat) returns (i: nat)
    requires bits != [] && MarksKept(e, a1sync, bits, ws, t) && 0 < f <= t && Lone(e, a1sync, bits, f, t)
    ensures i < |ws| && 0 <= Unit(e) * i <= Unit(e) * i + Unit(e) <= |Windows(bits, ws, Unit(e))|
    ensures Windows(bits, ws, Unit(e))[Unit(e) * i..Unit(e) * i + Unit(e)] == Window(bits, f - Unit(e), Unit(e))
  {
    hide Window, Windows, Lone;
    i :| 0 <= i < |ws| && ws[i] == f - Unit(e);
    WindowsAt(bits, ws, Unit(e), i);
  }

  /** Data that is left as it is has its lone marks at whole units already. */
  lemma UnmodifiedIsAligned(e: Encoding, a1sync: bool, bits: seq<bool>, ws: seq<int>, t: nat, f: nat)
    requires bits != [] && MarksKept(e, a1sync, bits, ws, t) && 0 < f <= t && Lone(e, a1sync, bits, f, t)
    requires forall i :: 0 <= i < |ws| ==> ws[i] == i * Unit(e)
    ensures f % Unit(e) == 0
  {
    hide Lone, Unit;
    var i :| 0 <= i < |ws| && ws[i] == f - Unit(e);
    assert f == (i + 1) * Unit(e);
    UnitPositive(e);
    ModUnique(f, i + 1, 0, Unit(e));
  }

  lemma UnitPositive(e: Encoding)
    ensures Unit(e) > 0
  {
  }

  lemma SyncEndsInOne()
    ensures Cells(MFM, 0x0a, 0xa1)[15]
  {
    assert ByteBit(0xa1, 7);
  }

  /** A mark behind 17 zeros is seen at read 33 and stands alone, so the data is realigned. */
  lemma MarkBehind17(bits: seq<bool>, t: nat)
    requires bits == Zeros(17) + Cells(MFM, 0x0a, 0xa1) + Zeros(15) && 48 <= t
    ensures Lone(MFM, false, bits, 33, t) && 33 % Unit(MFM) != 0
  {
    hide Found, Around, Cells;
    var sync := Cells(MFM, 0x0a, 0xa1);
    SyncEndsInOne();
    MarkIsWindow(false, bits, 33);
    forall j | 0 <= j < 16
      ensures Window(bits, 17, 16)[j] == sync[j]
    {
      AroundInside(bits, 17 + j);
    }
    forall g | 33 < g < 49
      ensures !Found(MFM, false, bits, g)
    {
      MarkIsWindow(false, bits, g);
      AroundInside(bits, g - 1);
      assert !bits[g - 1] && g - 16 + 15 == g - 1;
      assert !Window(bits, g - 16, 16)[15];
    }
  }
}
