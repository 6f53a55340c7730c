/**
  The bit buffer: bits packed into bytes, least significant bit first, with a
  cursor that wraps round at the end of the data.
 */
module BitBuffers {
  import opened Arithmetic
  import opened Words

  /** The encodings whose bytes the model reads; Raw stands for the ones that read_byte takes eight plain bits for. */
  datatype Encoding = MFM | FM | Raw

  function BitMask(j: nat): byte
    requires j < 8
  {
    match j
    case 0 => 0x01 case 1 => 0x02 case 2 => 0x04 case 3 => 0x08
    case 4 => 0x10 case 5 => 0x20 case 6 => 0x40 case 7 => 0x80
  }

  predicate BitOf(b: byte, j: nat)
    requires j < 8
  {
    b & BitMask(j) != 0
  }

  function WithBit(b: byte, j: nat, bit: bool): byte
    requires j < 8
  {
    if bit then b | BitMask(j) else b & !BitMask(j)
  }

  lemma MasksDisjoint(i: nat, j: nat)
    requires i < 8 && j < 8 && i != j
    ensures BitMask(i) & BitMask(j) == 0
  {
  }

  lemma MaskNonZero(i: nat)
    requires i < 8
    ensures BitMask(i) != 0
  {
  }

  lemma SetMask(b: byte, m: byte, bit: bool)
    requires m != 0
    ensures ((if bit then b | m else b & !m) & m != 0) == bit
  {
  }

  lemma OtherMask(b: byte, m: byte, k: byte, bit: bool)
    requires m & k == 0
    ensures (if bit then b | m else b & !m) & k == b & k
  {
  }

  lemma WithBitSets(b: byte, j: nat, bit: bool, i: nat)
    requires j < 8 && i < 8
    ensures BitOf(WithBit(b, j, bit), i) == if i == j then bit else BitOf(b, i)
  {
    hide BitMask;
    if i == j {
      MaskNonZero(j);
      SetMask(b, BitMask(j), bit);
    } else {
      MasksDisjoint(j, i);
      OtherMask(b, BitMask(j), BitMask(i), bit);
    }
  }

  /** Bit i of packed data. */
  predicate Packed(data: seq<byte>, i: nat)
    requires i < 8 * |data|
  {
    BitOf(data[i / 8], i % 8)
  }

  /** A byte holds its bits least significant first. */
  lemma PackedByte(data: seq<byte>, q: nat, j: nat)
    requires q < |data| && j < 8
    ensures Packed(data, 8 * q + j) == ByteBit(data[q], 7 - j)
  {
  }

  function Unpacked(data: seq<byte>, n: nat): (r: seq<bool>)
    requires n <= 8 * |data|
    ensures |r| == n
  {
    seq(n, i requires 0 <= i < n => Packed(data, i))
  }

  lemma StoreBit(data: seq<byte>, i: nat, bit: bool, k: nat)
    requires i < 8 * |data| && k < 8 * |data|
    ensures Packed(data[i / 8 := WithBit(data[i / 8], i % 8, bit)], k) == if k == i then bit else Packed(data, k)
  {
    if k / 8 == i / 8 {
      WithBitSets(data[i / 8], i % 8, bit, k % 8);
      assert k == i <==> k % 8 == i % 8;
    }
  }

  /** The content after a bit is written at a cursor that may stand inside it or at its end. */
  function Written(bits: seq<bool>, pos: nat, bit: bool): (r: seq<bool>)
    requires pos <= |bits|
  {
    if pos < |bits| then bits[pos := bit] else bits + [bit]
  }

  lemma GrowKeeps(data: seq<byte>, k: nat, n: nat)
    requires n <= 8 * |data|
    ensures Unpacked(data + seq(k, _ => 0), n) == Unpacked(data, n)
  {
    hide BitOf;
  }

  lemma StoreWrites(data: seq<byte>, n: nat, pos: nat, bit: bool)
    requires pos <= n <= 8 * |data| && pos < 8 * |data|
    ensures Unpacked(data[pos / 8 := WithBit(data[pos / 8], pos % 8, bit)], if n > pos + 1 then n else pos + 1)
         == Written(Unpacked(data, n), pos, bit)
  {
    hide BitOf, WithBit, Packed;
    var size := if n > pos + 1 then n else pos + 1;
    var now := Unpacked(data[pos / 8 := WithBit(data[pos / 8], pos % 8, bit)], size);
    forall k | 0 <= k < size
      ensures now[k] == Written(Unpacked(data, n), pos, bit)[k]
    {
      StoreBit(data, pos, bit, k);
    }
  }

  /** The first listed index beyond pos, or the end. */
  function NextIndex(indexes: seq<int>, pos: int, end: int): int {
    if indexes == [] then end
    else if indexes[0] > pos then indexes[0]
    else NextIndex(indexes[1..], pos, end)
  }

  /** Nothing listed before it lies beyond pos, and where nothing does it is the end. */
  lemma {:induction false} NextIndexIsFirst(indexes: seq<int>, pos: int, end: int) returns (i: nat)
    ensures i <= |indexes| && forall k :: 0 <= k < i ==> indexes[k] <= pos
    ensures if i < |indexes| then NextIndex(indexes, pos, end) == indexes[i] > pos
            else NextIndex(indexes, pos, end) == end
  {
    i := 0;
    if indexes != [] && indexes[0] <= pos {
      i := NextIndexIsFirst(indexes[1..], pos, end);
      i := i + 1;
    }
  }

  /** The cursor after a read. */
  function Next(pos: nat, size: nat): nat
    requires pos < size
  {
    if pos + 1 == size then 0 else pos + 1
  }

  /** The cursor after k reads from the start of the data. */
  function Cursor(k: nat, size: nat): nat
    requires 0 < size
    ensures Cursor(k, size) < size
  {
    k % size
  }

  /** The bit that the k-th read returns, counting from a read at the start of the data. */
  function Around(bits: seq<bool>, k: nat): bool
    requires bits != []
  {
    bits[Cursor(k, |bits|)]
  }

  lemma CursorIs(k: nat, size: nat)
    requires 0 < size
    ensures Cursor(k, size) == k % size
  {
  }

  lemma NextRead(k: nat, size: nat)
    requires 0 < size
    ensures Next(Cursor(k, size), size) == Cursor(k + 1, size)
    ensures Cursor(k + 1, size) == 0 ==> k + 1 >= size
    ensures k + 1 == size ==> Cursor(k + 1, size) == 0
  {
    hide Cursor;
    CursorIs(k, size);
    CursorIs(k + 1, size);
    NextRemainder(k, size, k / size, k % size);
    if k + 1 == size {
      ModUnique(k + 1, 1, 0, size);
    }
  }

  lemma NextRemainder(k: nat, size: nat, q: nat, r: nat)
    requires 0 < size && r < size && k == q * size + r
    ensures (k + 1) % size == if r + 1 == size then 0 else r + 1
    ensures r + 1 == size ==> k + 1 >= size
  {
    if r + 1 == size {
      assert k + 1 == (q + 1) * size;
      MultipleIsFar(q + 1, size);
      ModUnique(k + 1, q + 1, 0, size);
    } else {
      ModUnique(k + 1, q, r + 1, size);
    }
  }

  /** The raw bits that read_byte consumes, and the ones among them it takes as data. */
  function RawBits(e: Encoding): nat {
    match e
    case FM => 32
    case MFM => 16
    case Raw => 8
  }

  function DataBit(e: Encoding, k: nat): nat {
    match e
    case FM => 4 * k + 2
    case MFM => 2 * k + 1
    case Raw => k
  }

  /** The data bits of the byte that is read starting with the t-th read. */
  function DataBits(e: Encoding, bits: seq<bool>, t: nat, n: nat): (r: seq<bool>)
    requires bits != []
    ensures |r| == n
  {
    seq(n, k requires 0 <= k < n => Around(bits, t + DataBit(e, k)))
  }

  lemma PushDataBit(e: Encoding, bits: seq<bool>, t: nat, n: nat)
    requires bits != []
    ensures ByteOf(DataBits(e, bits, t, n + 1))
         == PushBit(ByteOf(DataBits(e, bits, t, n)), Around(bits, t + DataBit(e, n)))
  {
    assert DataBits(e, bits, t, n + 1)[..n] == DataBits(e, bits, t, n);
  }

  lemma CursorInside(k: nat, size: nat)
    requires k < size
    ensures Cursor(k, size) == k
  {
  }

  // ----- sync marks

  /** bits_per_byte: the raw bits of one encoded byte. */
  function Unit(e: Encoding): nat {
    if e.FM? then 32 else 16
  }

  /** The number that bits, most significant first, stand for. */
  function Value(bits: seq<bool>): nat {
    if bits == [] then 0 else 2 * Value(bits[..|bits| - 1]) + (if bits[|bits| - 1] then 1 else 0)
  }

  /** The sync patterns that align looks for in the last 32 bits; the a1sync option masks out bit 5. */
  predicate IsMark(e: Encoding, a1sync: bool, dword: seq<bool>)
    requires |dword| == 32
  {
    match e
    case MFM => Value((if a1sync then dword[26 := false] else dword)[16..]) == 0x4489
    case FM => Value(dword) in {0xaa222888, 0xaa22288a, 0xaa2228a8, 0xaa2228aa, 0xaa2a2a88, 0xaa222a8a, 0xaa222aa8}
    case Raw => false
  }

  /** The shift register after t reads from the start of the data. */
  function Register(bits: seq<bool>, t: nat): (r: seq<bool>)
    requires bits != []
    ensures |r| == 32
  {
    seq(32, j requires 0 <= j < 32 => t + j >= 32 && Around(bits, t + j - 32))
  }

  /** A sync mark is complete after t reads. */
  predicate Found(e: Encoding, a1sync: bool, bits: seq<bool>, t: nat)
    requires bits != []
  {
    t > 0 && IsMark(e, a1sync, Register(bits, t))
  }

  /** The unit of the cyclically read data that starts at read w, with zeros ahead of the first read. */
  function Window(bits: seq<bool>, w: int, unit: nat): (r: seq<bool>)
    requires bits != []
    ensures |r| == unit
  {
    seq(unit, j requires 0 <= j < unit => w + j >= 0 && Around(bits, w + j))
  }

  function Windows(bits: seq<bool>, ws: seq<int>, unit: nat): (r: seq<bool>)
    requires bits != []
    ensures |r| == unit * |ws|
    decreases |ws|
  {
    if ws == [] then [] else
      assert unit * |ws| == unit * (|ws| - 1) + unit;
      Windows(bits, ws[..|ws| - 1], unit) + Window(bits, ws[|ws| - 1], unit)
  }

  /** Windows in source order that do not overlap. */
  ghost predicate Disjoint(ws: seq<int>, unit: nat) {
    forall i, j :: 0 <= i < j < |ws| ==> ws[i] + unit <= ws[j]
  }

  /** Every mark complete by read t, unless another follows it within a unit, is a window of its own. */
  ghost predicate MarksKept(e: Encoding, a1sync: bool, bits: seq<bool>, ws: seq<int>, t: nat)
    requires bits != []
  {
    forall f :: 0 < f <= t && Lone(e, a1sync, bits, f, t) ==> f - Unit(e) in ws
  }

  /** A mark complete after f reads, with no other complete within a unit of it and by read t. */
  ghost predicate Lone(e: Encoding, a1sync: bool, bits: seq<bool>, f: nat, t: nat)
    requires bits != []
  {
    Found(e, a1sync, bits, f) && forall g :: f < g <= t && g < f + Unit(e) ==> !Found(e, a1sync, bits, g)
  }

  /** What holds between two units of the alignment loop. */
  ghost predicate AlignedSoFar(e: Encoding, a1sync: bool, bits: seq<bool>, ws: seq<int>, t: nat)
    requires bits != []
  {
    && Disjoint(ws, Unit(e))
    && (if ws == [] then t == 0 else ws[|ws| - 1] + Unit(e) == t && ws[0] >= -1)
    && MarksKept(e, a1sync, bits, ws, t)
  }

  /** A mark is complete inside the first unit. */
  ghost predicate EarlyMark(e: Encoding, a1sync: bool, bits: seq<bool>)
    requires bits != []
  {
    exists f :: 0 < f < Unit(e) && Found(e, a1sync, bits, f)
  }

  /**
    Until a unit is cut the windows lie end to end from the start; from then on
    the last lies further on.  Only a mark in the first unit puts zeros ahead.
   */
  ghost predicate Regular(ws: seq<int>, unit: nat, total: nat, modified: bool, early: bool) {
    if modified then
      ws != [] && total > (if early then |ws| - 1 else |ws|) * unit && (!early ==> ws[0] >= 0)
    else total == |ws| * unit && forall i :: 0 <= i < |ws| ==> ws[i] == i * unit
  }

  lemma RegularFull(ws: seq<int>, unit: nat, total: nat, modified: bool, early: bool)
    requires Regular(ws, unit, total, modified, early)
    ensures Regular(ws + [total], unit, total + unit, modified, early)
  {
    assert (|ws| + 1) * unit == |ws| * unit + unit;
  }

  lemma RegularCut(ws: seq<int>, unit: nat, total: nat, modified: bool, early: bool, count: nat)
    requires Regular(ws, unit, total, modified, early) && 0 < count < unit && (ws == [] ==> early)
    ensures Regular(ButLast(ws) + [total + count - unit], unit, total + count, true, early)
  {
    if ws != [] {
      assert |ws| * unit == (|ws| - 1) * unit + unit;
    }
  }

  lemma AlignStart(e: Encoding, a1sync: bool, bits: seq<bool>)
    requires bits != []
    ensures AlignedSoFar(e, a1sync, bits, [], 0)
    ensures forall early :: Regular([], Unit(e), 0, false, early)
    ensures Windows(bits, [], Unit(e)) == [] && Register(bits, 0) == seq(32, _ => false)
    ensures Cursor(0, |bits|) == 0
  {
  }

  /** A full unit is a new window. */
  lemma AlignFull(e: Encoding, a1sync: bool, bits: seq<bool>, ws: seq<int>, t: nat)
    requires bits != [] && AlignedSoFar(e, a1sync, bits, ws, t)
    requires forall f :: t < f < t + Unit(e) ==> !Found(e, a1sync, bits, f)
    ensures AlignedSoFar(e, a1sync, bits, ws + [t], t + Unit(e))
  {
    hide Found;
    var t', ws' := t + Unit(e), ws + [t];
    forall f | 0 < f <= t' && Lone(e, a1sync, bits, f, t')
      ensures f - Unit(e) in ws'
    {
      if f == t' {
        assert ws'[|ws|] == f - Unit(e);
      } else {
        assert Lone(e, a1sync, bits, f, t);
      }
    }
  }

  /** What is left of the windows when the last, if there is one, is removed. */
  function ButLast(ws: seq<int>): seq<int> {
    if ws == [] then [] else ws[..|ws| - 1]
  }

  /** A unit cut short by a mark replaces the window before it, if there is one. */
  lemma AlignCut(e: Encoding, a1sync: bool, bits: seq<bool>, ws: seq<int>, t: nat, count: nat)
    requires bits != [] && AlignedSoFar(e, a1sync, bits, ws, t) && 0 < count < Unit(e)
    requires forall f :: t < f < t + count ==> !Found(e, a1sync, bits, f)
    requires Found(e, a1sync, bits, t + count)
    ensures AlignedSoFar(e, a1sync, bits, ButLast(ws) + [t + count - Unit(e)], t + count)
  {
    hide Found, Lone;
    FirstUnitMark(e, a1sync, bits, count);
    var t', kept := t + count, ButLast(ws);
    forall f | 0 < f <= t' && Lone(e, a1sync, bits, f, t')
      ensures f - Unit(e) in kept + [t' - Unit(e)]
    {
      CutMark(e, a1sync, bits, ws, t, count, f);
    }
  }

  /** One mark's share of AlignCut: it is the new one, or its window is not the one replaced. */
  lemma CutMark(e: Encoding, a1sync: bool, bits: seq<bool>, ws: seq<int>, t: nat, count: nat, f: nat)
    requires bits != [] && MarksKept(e, a1sync, bits, ws, t)
    requires if ws == [] then t == 0 else ws[|ws| - 1] + Unit(e) == t
    requires 0 < count < Unit(e) && Found(e, a1sync, bits, t + count)
    requires forall g :: t < g < t + count ==> !Found(e, a1sync, bits, g)
    requires 0 < f <= t + count && Lone(e, a1sync, bits, f, t + count)
    ensures f - Unit(e) in ButLast(ws) + [t + count - Unit(e)]
  {
    hide Found, Unit;
    var kept := ButLast(ws);
    if f == t + count {
      assert (kept + [f - Unit(e)])[|kept|] == f - Unit(e);
    } else {
      assert Lone(e, a1sync, bits, f, t);
      InPrefix(ws, f - Unit(e));
    }
  }

  /** The alignment loop between two units, with the bits put out so far. */
  ghost predicate Aligning(e: Encoding, a1sync: bool, bits: seq<bool>, ws: seq<int>, t: nat, modified: bool,
                           out: seq<bool>)
    requires bits != []
  {
    && AlignedSoFar(e, a1sync, bits, ws, t)
    && Regular(ws, Unit(e), t, modified, EarlyMark(e, a1sync, bits))
    && out == Windows(bits, ws, Unit(e))
  }

  /** The bits before the last unit put out, or none. */
  function Removed(out: seq<bool>, unit: nat): seq<bool> {
    if |out| < unit then [] else out[..|out| - unit]
  }

  /** One iteration, which reads count bits. */
  lemma AlignStep(e: Encoding, a1sync: bool, bits: seq<bool>, ws: seq<int>, t: nat, modified: bool, out: seq<bool>,
                  count: nat)
    requires bits != [] && Aligning(e, a1sync, bits, ws, t, modified, out) && 0 < count <= Unit(e)
    requires forall f :: t < f < t + count ==> !Found(e, a1sync, bits, f)
    requires count < Unit(e) ==> Found(e, a1sync, bits, t + count)
    ensures
      var last := [t + count - Unit(e)];
      var unit := Register(bits, t + count)[32 - Unit(e)..];
      if count == Unit(e) then Aligning(e, a1sync, bits, ws + last, t + count, modified, out + unit)
      else Aligning(e, a1sync, bits, ButLast(ws) + last, t + count, true, Removed(out, Unit(e)) + unit)
  {
    hide Found, Windows, MarksKept, Register, Disjoint, Regular;
    var unit, early := Unit(e), EarlyMark(e, a1sync, bits);
    RegisterEnd(bits, t + count, unit);
    if count == unit {
      AlignFull(e, a1sync, bits, ws, t);
      RegularFull(ws, unit, t, modified, early);
      WindowsPush(bits, ws, t, unit);
    } else {
      AlignCut(e, a1sync, bits, ws, t, count);
      RegularCut(ws, unit, t, modified, early, count);
      WindowsDropLast(bits, ws, unit);
      WindowsPush(bits, ButLast(ws), t + count - unit, unit);
    }
  }

  // ----- when the first unit can hold a whole mark

  function Pow2(n: nat): nat {
    if n == 0 then 1 else 2 * Pow2(n - 1)
  }

  lemma Pow2Byte(n: nat)
    ensures Pow2(n + 8) == 0x100 * Pow2(n)
  {
    assert Pow2(n + 2) == 4 * Pow2(n);
    assert Pow2(n + 4) == 4 * Pow2(n + 2);
    assert Pow2(n + 6) == 4 * Pow2(n + 4);
    assert Pow2(n + 8) == 4 * Pow2(n + 6);
  }

  lemma ValueBound(bits: seq<bool>)
    ensures Value(bits) < Pow2(|bits|)
    decreases |bits|
  {
    if bits != [] {
      ValueBound(bits[..|bits| - 1]);
    }
  }

  lemma ValueLeadingZero(bits: seq<bool>)
    requires bits != [] && !bits[0]
    ensures Value(bits) == Value(bits[1..])
    decreases |bits|
  {
    if |bits| > 1 {
      ValueLeadingZero(bits[..|bits| - 1]);
      assert bits[..|bits| - 1][1..] == bits[1..][..|bits| - 2];
    }
  }

  /** In FM no mark can be complete inside the first unit, so no zeros are ever put ahead of the data. */
  lemma FirstUnitCleanFM(a1sync: bool, bits: seq<bool>, f: nat)
    requires bits != [] && f < 32
    ensures !Found(FM, a1sync, bits, f)
  {
    var dword := Register(bits, f);
    ValueLeadingZero(dword);
    ValueBound(dword[1..]);
    assert Pow2(7) == 0x80;
    Pow2Byte(7);
    Pow2Byte(15);
    Pow2Byte(23);
  }

  /** In MFM it can only be complete one read early, because its pattern has one leading zero. */
  lemma FirstUnitMFM(a1sync: bool, bits: seq<bool>, f: nat)
    requires bits != [] && f < 16 && Found(MFM, a1sync, bits, f)
    ensures f == 15
  {
    hide Value, Pow2;
    var dword := Register(bits, f);
    var low := (if a1sync then dword[26 := false] else dword)[16..];
    if f < 15 {
      ValueLeadingZeros(low, 16 - f);
      ValueBound(low[16 - f..]);
      Pow2Grows(f, 14);
    }
  }

  lemma {:induction false} ValueLeadingZeros(bits: seq<bool>, n: nat)
    requires n <= |bits| && forall i :: 0 <= i < n ==> !bits[i]
    ensures Value(bits) == Value(bits[n..])
    decreases n
  {
    if n > 0 {
      ValueLeadingZero(bits);
      ValueLeadingZeros(bits[1..], n - 1);
      assert bits[1..][n - 1..] == bits[n..];
    }
  }

  lemma Pow2Grows(m: nat, n: nat)
    requires m <= n
    ensures Pow2(m) <= Pow2(n)
    ensures Pow2(14) == 0x4000
  {
    Pow2Byte(6);
  }

  lemma FirstUnitMark(e: Encoding, a1sync: bool, bits: seq<bool>, f: nat)
    requires bits != []
    ensures 0 < f < Unit(e) && Found(e, a1sync, bits, f) ==> e.MFM? && f == 15
  {
    if 0 < f < Unit(e) && Found(e, a1sync, bits, f) {
      match e {
        case FM => FirstUnitCleanFM(a1sync, bits, f);
        case MFM => FirstUnitMFM(a1sync, bits, f);
        case Raw =>
      }
    }
  }

  lemma FoundNow(e: Encoding, a1sync: bool, bits: seq<bool>, t: nat)
    requires bits != [] && t > 0
    ensures Found(e, a1sync, bits, t) == IsMark(e, a1sync, Register(bits, t))
  {
  }

  lemma AroundNow(bits: seq<bool>, k: nat)
    requires bits != []
    ensures Around(bits, k) == bits[Cursor(k, |bits|)]
  {
  }

  lemma InPrefix(ws: seq<int>, w: int)
    requires ws != [] && w in ws && w != ws[|ws| - 1]
    ensures w in ws[..|ws| - 1]
  {
  }

  lemma RegisterNext(bits: seq<bool>, t: nat)
    requires bits != []
    ensures Register(bits, t + 1) == Register(bits, t)[1..] + [Around(bits, t)]
  {
  }

  lemma RegisterEnd(bits: seq<bool>, t: nat, unit: nat)
    requires bits != [] && unit <= 32
    ensures Register(bits, t)[32 - unit..] == Window(bits, t - unit, unit)
  {
  }

  lemma WindowsPush(bits: seq<bool>, ws: seq<int>, w: int, unit: nat)
    requires bits != []
    ensures Windows(bits, ws + [w], unit) == Windows(bits, ws, unit) + Window(bits, w, unit)
  {
  }

  lemma WindowsDropLast(bits: seq<bool>, ws: seq<int>, unit: nat)
    requires bits != []
    ensures
      Windows(bits, ButLast(ws), unit) == Removed(Windows(bits, ws, unit), unit)
  {
  }

  class BitBuffer {
    var encoding: Encoding
    var data: seq<byte>
    var indexes: seq<int>
    var bitsize: nat
    var bitpos: nat
    var nextIndex: int
    var wrappedRound: bool

    ghost predicate Valid()
      reads this`data, this`bitpos, this`bitsize
    {
      data != [] && bitpos <= bitsize <= 8 * |data|
    }

    /** The bits held. */
    ghost function Content(): (r: seq<bool>)
      requires Valid()
      reads this`data, this`bitpos, this`bitsize
      ensures |r| == bitsize
    {
      Unpacked(data, bitsize)
    }

    constructor (encoding: Encoding, capacity: nat)
      requires capacity > 0
      ensures Valid() && Content() == [] && this.encoding == encoding && indexes == []
      ensures bitpos == 0 && nextIndex == -1 && !wrappedRound
    {
      this.encoding := encoding;
      data := seq(capacity, _ => 0);
      indexes, bitsize, bitpos, nextIndex, wrappedRound := [], 0, 0, -1, false;
    }

    predicate Wrapped()
      reads this`wrappedRound, this`bitsize
    {
      wrappedRound || bitsize == 0
    }

    /** Write a bit at the cursor, doubling the storage when it is full. */
    method Add(bit: bool)
      requires Valid()
      modifies this`data, this`bitpos, this`bitsize
      ensures Valid() && bitpos == old(bitpos) + 1
      ensures Content() == Written(old(Content()), old(bitpos), bit)
    {
      hide WithBit, Unpacked;
      var offset := bitpos / 8;
      if offset >= |data| {
        GrowKeeps(data, |data|, bitsize);
        data := data + seq(|data|, _ => 0);
      }
      StoreWrites(data, bitsize, bitpos, bit);
      data := data[offset := WithBit(data[offset], bitpos % 8, bit)];
      bitpos := bitpos + 1;
      bitsize := if bitsize > bitpos then bitsize else bitpos;
    }

    /** Drop the bits before the cursor, and everything behind it. */
    method Remove(numBits: nat)
      requires Valid()
      modifies this`bitpos, this`bitsize
      ensures Valid() && bitpos == bitsize == (if numBits <= old(bitpos) then old(bitpos) - numBits else 0)
      ensures Content() == old(Content())[..bitpos]
    {
      bitpos := bitpos - (if numBits < bitpos then numBits else bitpos);
      bitsize := bitpos;
    }

    method SetNextIndex()
      modifies this`nextIndex
      ensures nextIndex == NextIndex(indexes, bitpos, bitsize)
    {
      var i := 0;
      while i < |indexes|
        invariant 0 <= i <= |indexes|
        invariant NextIndex(indexes, bitpos, bitsize) == NextIndex(indexes[i..], bitpos, bitsize)
      {
        if indexes[i] > bitpos {
          nextIndex := indexes[i];
          return;
        }
        i := i + 1;
      }
      nextIndex := bitsize;
    }

    method Seek(offset: nat) returns (exact: bool)
      requires Valid()
      modifies this`bitpos, this`wrappedRound, this`nextIndex
      ensures Valid() && Content() == old(Content())
      ensures bitpos == (if offset < bitsize then offset else bitsize) && exact == (offset <= bitsize)
      ensures !wrappedRound && nextIndex == NextIndex(indexes, bitpos, bitsize)
    {
      wrappedRound := false;
      bitpos := if offset < bitsize then offset else bitsize;
      SetNextIndex();
      exact := bitpos == offset;
    }

    /** Whether the cursor has come to the next index, which is then the one beyond it. */
    method Index() returns (r: bool)
      modifies this`nextIndex
      ensures r == (bitpos >= old(nextIndex))
      ensures nextIndex == if r then NextIndex(indexes, bitpos, bitsize) else old(nextIndex)
    {
      if bitpos < nextIndex {
        return false;
      }
      SetNextIndex();
      return true;
    }

    method AddIndex()
      modifies this`indexes
      ensures indexes == old(indexes) + [bitpos]
    {
      indexes := indexes + [bitpos];
    }

    method Read1() returns (bit: bool)
      requires Valid() && bitpos < bitsize
      modifies this`bitpos, this`wrappedRound
      ensures Valid() && Content() == old(Content())
      ensures bit == Content()[old(bitpos)]
      ensures bitpos == Next(old(bitpos), bitsize)
      ensures wrappedRound == (old(wrappedRound) || bitpos == 0)
    {
      bit := Packed(data, bitpos);
      bitpos := bitpos + 1;
      if bitpos == bitsize {
        bitpos := 0;
        wrappedRound := true;
      }
    }

    /** One read, in terms of the reads since a known one. */
    method ReadNext(ghost t: nat) returns (bit: bool)
      requires Valid() && bitsize > 0 && bitpos == Cursor(t, bitsize)
      modifies this`bitpos, this`wrappedRound
      ensures Valid() && Content() == old(Content()) && bitpos == Cursor(t + 1, bitsize)
      ensures bit == Around(Content(), t)
    {
      hide Cursor, Around;
      NextRead(t, bitsize);
      AroundNow(Content(), t);
      bit := Read1();
    }

    /** The raw reads for one data bit. */
    method ReadDataBit(ghost t: nat) returns (bit: bool)
      requires Valid() && bitsize > 0 && bitpos == Cursor(t, bitsize)
      modifies this`bitpos, this`wrappedRound
      ensures Valid() && Content() == old(Content())
      ensures bitpos == Cursor(t + DataBit(encoding, 1) - DataBit(encoding, 0), bitsize)
      ensures bit == Around(Content(), t + DataBit(encoding, 0))
    {
      hide Cursor, Around;
      match encoding {
        case FM =>
          var _ := ReadNext(t);
          var _ := ReadNext(t + 1);
          bit := ReadNext(t + 2);
          var _ := ReadNext(t + 3);
        case MFM =>
          var _ := ReadNext(t);
          bit := ReadNext(t + 1);
        case Raw =>
          bit := ReadNext(t);
      }
    }

    method ReadByte() returns (b: byte)
      requires Valid() && bitpos < bitsize
      modifies this`bitpos, this`wrappedRound
      ensures Valid() && Content() == old(Content()) && bitpos == Cursor(old(bitpos) + RawBits(encoding), bitsize)
      ensures b == ByteOf(DataBits(encoding, Content(), old(bitpos), 8))
    {
      hide Cursor, Around, PushBit;
      b := 0;
      ghost var bits, start := Content(), bitpos;
      ghost var t: nat := start;
      CursorInside(start, bitsize);
      for i := 0 to 8
        invariant Valid() && Content() == bits && bitpos == Cursor(t, bitsize)
        invariant t == start + DataBit(encoding, i) - DataBit(encoding, 0)
        invariant b == ByteOf(DataBits(encoding, bits, start, i))
      {
        var bit := ReadDataBit(t);
        t := t + DataBit(encoding, 1) - DataBit(encoding, 0);
        PushDataBit(encoding, bits, start, i);
        b := PushBit(b, bit);
      }
    }

    /** The inner loop of align: read up to one unit, stopping behind a mark. */
    method ReadUnit(a1sync: bool, dword0: seq<bool>, bitsPerByte: nat, ghost start: nat)
      returns (dword: seq<bool>, count: nat)
      requires Valid() && bitsize > 0 && bitpos == Cursor(start, bitsize) && wrappedRound == (start >= bitsize)
      requires dword0 == Register(Content(), start) && 0 < bitsPerByte
      modifies this`bitpos, this`wrappedRound
      ensures Valid() && Content() == old(Content())
      ensures 0 < count <= bitsPerByte
      ensures bitpos == Cursor(start + count, bitsize) && wrappedRound == (start + count >= bitsize)
      ensures dword == Register(Content(), start + count)
      ensures forall f :: start < f < start + count ==> !Found(encoding, a1sync, Content(), f)
      ensures count < bitsPerByte ==> Found(encoding, a1sync, Content(), start + count)
    {
      hide IsMark, Found, Register, Around, Cursor;
      var foundAm := false;
      dword, count := dword0, 0;
      ghost var bits := Content();
      while !foundAm && count < bitsPerByte
        invariant 0 <= count <= bitsPerByte
        invariant Valid() && Content() == bits
        invariant bitpos == Cursor(start + count, bitsize) && wrappedRound == (start + count >= bitsize)
        invariant dword == Register(bits, start + count)
        invariant forall f :: start < f < start + count ==> !Found(encoding, a1sync, bits, f)
        invariant foundAm == (count > 0 && Found(encoding, a1sync, bits, start + count))
      {
        NextRead(start + count, bitsize);
        RegisterNext(bits, start + count);
        FoundNow(encoding, a1sync, bits, start + count + 1);
        AroundNow(bits, start + count);
        var bit := Read1();
        dword := dword[1..] + [bit];
        count := count + 1;
        foundAm := IsMark(encoding, a1sync, dword);
      }
    }

    /** The output loop of align: the last n bits of dword, oldest first. */
    method AddLast(dword: seq<bool>, n: nat)
      requires Valid() && |dword| == 32 && n <= 32 && bitpos == bitsize
      modifies this`data, this`bitpos, this`bitsize
      ensures Valid() && bitpos == bitsize && Content() == old(Content()) + dword[32 - n..]
    {
      var i := n;
      while i > 0
        invariant 0 <= i <= n
        invariant Valid() && bitpos == bitsize && Content() == old(Content()) + dword[32 - n..32 - i]
      {
        i := i - 1;
        assert dword[32 - n..32 - i] == dword[32 - n..31 - i] + [dword[31 - i]];
        Add(dword[31 - i]);
      }
    }

    /** What align does with a unit: put it behind the others, or in place of the last if it was cut short. */
    method PlaceUnit(dword: seq<bool>, bitsPerByte: nat, full: bool)
      requires Valid() && |dword| == 32 && bitsPerByte <= 32 && bitpos == bitsize
      modifies this`data, this`bitpos, this`bitsize
      ensures Valid() && bitpos == bitsize
      ensures Content()
           == (if full then old(Content()) else Removed(old(Content()), bitsPerByte)) + dword[32 - bitsPerByte..]
    {
      if !full {
        Remove(bitsPerByte);
      }
      AddLast(dword, bitsPerByte);
    }

    /** The outer loop of align, from a cursor at the start of the data into an empty buffer. */
    method AlignInto(newbuf: BitBuffer, a1sync: bool) returns (modified: bool, ghost ws: seq<int>, ghost total: nat)
      requires newbuf != this && newbuf.Valid() && newbuf.Content() == [] && newbuf.bitpos == 0
      requires Valid() && bitsize > 0 && bitpos == 0 && !wrappedRound
      modifies this`bitpos, this`wrappedRound, newbuf`data, newbuf`bitpos, newbuf`bitsize
      ensures Valid() && newbuf.Valid()
      ensures bitsize <= total < bitsize + Unit(encoding)
      ensures AlignedSoFar(encoding, a1sync, Content(), ws, total)
      ensures Regular(ws, Unit(encoding), total, modified, EarlyMark(encoding, a1sync, Content()))
      ensures newbuf.Content() == Windows(Content(), ws, Unit(encoding))
      ensures bitpos == Cursor(total, bitsize) && wrappedRound && newbuf.bitpos == newbuf.bitsize
    {
      hide Found, Windows, AlignedSoFar, Register, Cursor, Regular, EarlyMark, Unpacked;
      modified := false;
      var bitsPerByte := if encoding.FM? then 32 else 16;
      var dword := seq(32, _ => false);
      ghost var bits := Content();
      ws, total := [], 0;
      AlignStart(encoding, a1sync, bits);
      while !Wrapped()
        invariant Valid() && newbuf.Valid() && Content() == bits
        invariant bitpos == Cursor(total, bitsize) && wrappedRound == (total >= bitsize)
        invariant dword == Register(bits, total)
        invariant newbuf.bitpos == newbuf.bitsize
        invariant Aligning(encoding, a1sync, bits, ws, total, modified, newbuf.Content())
        invariant total < bitsize + bitsPerByte
        decreases bitsize - total
      {
        var count;
        dword, count := ReadUnit(a1sync, dword, bitsPerByte, total);
        AlignStep(encoding, a1sync, bits, ws, total, modified, newbuf.Content(), count);
        newbuf.PlaceUnit(dword, bitsPerByte, count == bitsPerByte);
        modified := modified || count != bitsPerByte;
        total := total + count;
        ws := (if count == bitsPerByte then ws else ButLast(ws)) + [total - bitsPerByte];
      }
    }

    /** This buffer's share of the exchange at the end of align. */
    method TakeOver(other: BitBuffer)
      requires other.Valid()
      modifies this
      ensures Valid() && Content() == other.Content()
      ensures encoding == other.encoding && indexes == other.indexes && bitpos == other.bitpos
              && bitsize == other.bitsize
      ensures nextIndex == other.nextIndex && wrappedRound == other.wrappedRound
    {
      encoding, data, indexes := other.encoding, other.data, other.indexes;
      bitsize, bitpos, nextIndex, wrappedRound := other.bitsize, other.bitpos, other.nextIndex, other.wrappedRound;
    }

    /**
      Realign the data to its sync marks.  The ghost results are the windows of
      the source that the realigned data consists of, and the number of reads.
      Index positions are corrected in the buffer that the exchange discards, so
      the surviving list is the old one.
     */
    method Align(a1sync: bool) returns (modified: bool, ghost ws: seq<int>, ghost total: nat)
      requires Valid()
      modifies this
      ensures Valid() && encoding == old(encoding) && indexes == old(indexes)
      ensures old(bitsize) == 0 ==> !modified && Content() == []
      ensures old(bitsize) > 0 ==>
                && old(bitsize) <= total < old(bitsize) + Unit(encoding)
                && Disjoint(ws, Unit(encoding)) && ws != [] && ws[|ws| - 1] + Unit(encoding) == total
                && ws[0] >= -1
                && MarksKept(encoding, a1sync, old(Content()), ws, total)
                && (modified ==>
                      && Content() == Windows(old(Content()), ws, Unit(encoding))
                      && Regular(ws, Unit(encoding), total, true, EarlyMark(encoding, a1sync, old(Content())))
                      && bitpos == bitsize && !wrappedRound)
                && (!modified ==>
                      && Content() == old(Content()) && (forall i :: 0 <= i < |ws| ==> ws[i] == i * Unit(encoding))
                      && bitpos == Cursor(total, bitsize) && wrappedRound)
    {
      hide Found, Windows, MarksKept, Disjoint, Cursor, Unpacked;
      var newbuf := new BitBuffer(encoding, |data|);
      newbuf.indexes := indexes;
      var _ := Seek(0);
      modified, ws, total := false, [], 0;
      if !Wrapped() {
        modified, ws, total := AlignInto(newbuf, a1sync);
      }
      if modified {
        TakeOver(newbuf);
      }
    }
  }
}
