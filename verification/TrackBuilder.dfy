/**
  Building a track's bitstream: bytes encoded with their clock bits, and the CRC
  that closes a field.
 */
module TrackBuilding {
  import opened BitBuffers
  import opened Crc16
  import opened Words

  /** The raw bits of data bits after a data bit last: MFM puts a reversal between two zeros, FM before every bit. */
  function Encoded(e: Encoding, bits: seq<bool>, last: bool): (r: seq<bool>)
    requires !e.Raw?
    ensures |r| == |bits| * (if e.FM? then 4 else 2)
    decreases |bits|
  {
    if bits == [] then []
    else if e.FM? then [true, false, bits[0], false] + Encoded(e, bits[1..], bits[0])
    else [!last && !bits[0], bits[0]] + Encoded(e, bits[1..], bits[0])
  }

  /** The data bits, found where read_byte looks for them. */
  lemma {:induction false} EncodedDataBit(e: Encoding, bits: seq<bool>, last: bool, k: nat)
    requires !e.Raw? && k < |bits|
    ensures DataBit(e, k) < |Encoded(e, bits, last)| && Encoded(e, bits, last)[DataBit(e, k)] == bits[k]
    decreases |bits|
  {
    if k > 0 {
      EncodedDataBit(e, bits[1..], bits[0], k - 1);
    }
  }

  /** bits with the stretch from pos on replaced, and extended if need be, by more. */
  function Overwritten(bits: seq<bool>, pos: nat, more: seq<bool>): (r: seq<bool>)
    requires pos <= |bits|
  {
    bits[..pos] + more + (if pos + |more| < |bits| then bits[pos + |more|..] else [])
  }

  lemma OverwriteOne(bits: seq<bool>, pos: nat, more: seq<bool>, bit: bool)
    requires pos <= |bits|
    ensures pos + |more| <= |Overwritten(bits, pos, more)|
    ensures Written(Overwritten(bits, pos, more), pos + |more|, bit) == Overwritten(bits, pos, more + [bit])
  {
  }

  lemma OverwriteNothing(bits: seq<bool>, pos: nat)
    requires pos <= |bits|
    ensures Overwritten(bits, pos, []) == bits
  {
  }

  /** What was written is found where it was put. */
  lemma OverwrittenWith(bits: seq<bool>, pos: nat, a: seq<bool>, b: seq<bool>)
    requires pos <= |bits|
    ensures pos + |a| + |b| <= |Overwritten(bits, pos, a + b)|
    ensures Overwritten(bits, pos, a + b)[pos..pos + |a|] == a
    ensures Overwritten(bits, pos, a + b)[pos + |a|..pos + |a| + |b|] == b
  {
  }

  /** The raw bits of n bytes. */
  function RawSpan(e: Encoding, n: nat): nat {
    match e
    case FM => 32 * n
    case MFM => 16 * n
    case Raw => 8 * n
  }

  /** The bytes of a field of n bytes that a reader finds from bit position pos on. */
  function FieldAt(e: Encoding, bits: seq<bool>, pos: nat, n: nat): (r: seq<byte>)
    requires n > 0 ==> bits != []
    ensures |r| == n
    decreases n
  {
    if n == 0 then [] else FieldAt(e, bits, pos, n - 1) + [ByteOf(DataBits(e, bits, pos + RawSpan(e, n - 1), 8))]
  }

  lemma FieldGrows(e: Encoding, bits: seq<bool>, pos: nat, n: nat)
    requires bits != []
    ensures FieldAt(e, bits, pos, n + 1)
         == FieldAt(e, bits, pos, n) + [ByteOf(DataBits(e, bits, pos + RawSpan(e, n), 8))]
  {
  }

  lemma AroundInside(bits: seq<bool>, k: nat)
    requires k < |bits|
    ensures Around(bits, k) == bits[k]
  {
  }

  /** A field is unaffected by what is written behind it. */
  lemma {:induction false} FieldUnaffected(e: Encoding, bits: seq<bool>, more: seq<bool>, pos: nat, n: nat, end: nat)
    requires !e.Raw? && pos + RawSpan(e, n) <= end <= |bits|
    ensures n > 0 ==> Overwritten(bits, end, more) != []
    ensures FieldAt(e, Overwritten(bits, end, more), pos, n) == FieldAt(e, bits, pos, n)
    decreases n
  {
    hide Around;
    var written := Overwritten(bits, end, more);
    if n > 0 {
      FieldUnaffected(e, bits, more, pos, n - 1, end);
      var t := pos + RawSpan(e, n - 1);
      forall k | 0 <= k < 8
        ensures Around(written, t + DataBit(e, k)) == Around(bits, t + DataBit(e, k))
      {
        AroundInside(bits, t + DataBit(e, k));
        AroundInside(written, t + DataBit(e, k));
      }
      assert DataBits(e, written, t, 8) == DataBits(e, bits, t, 8);
    }
  }

  /** An encoded byte is read back where it was written. */
  lemma ReadsBack(e: Encoding, bits: seq<bool>, pos: nat, b: byte, last: bool)
    requires !e.Raw? && pos + RawSpan(e, 1) <= |bits| && bits[pos..pos + RawSpan(e, 1)] == Encoded(e, ByteBits(b), last)
    ensures ByteOf(DataBits(e, bits, pos, 8)) == b
  {
    hide Around, ByteBits, Encoded;
    var raw := Encoded(e, ByteBits(b), last);
    forall k | 0 <= k < 8
      ensures Around(bits, pos + DataBit(e, k)) == ByteBits(b)[k]
    {
      EncodedDataBit(e, ByteBits(b), last, k);
      AroundInside(bits, pos + DataBit(e, k));
      assert bits[pos..pos + RawSpan(e, 1)][DataBit(e, k)] == bits[pos + DataBit(e, k)];
    }
    assert DataBits(e, bits, pos, 8) == ByteBits(b);
    ByteOfBits(b);
  }

  /** A field followed by its encoded CRC, read from the buffer, leaves the register zero. */
  lemma CrcClosesField(e: Encoding, bits: seq<bool>, pos: nat, n: nat, end: nat, last: bool, last': bool)
    requires !e.Raw? && end <= |bits| && pos + RawSpan(e, n) == end
    ensures
      var crc := CrcOf(INIT_CRC, FieldAt(e, bits, pos, n));
      var raw := Encoded(e, ByteBits(Msb(crc)), last) + Encoded(e, ByteBits(Lsb(crc)), last');
      var written := Overwritten(bits, end, raw);
      written != [] && CrcOf(INIT_CRC, FieldAt(e, written, pos, n + 2)) == 0
  {
    hide ByteBits, Encoded, CrcOf, Msb, Lsb, DataBits, ByteOf, FieldAt, Overwritten;
    var field := FieldAt(e, bits, pos, n);
    var crc := CrcOf(INIT_CRC, field);
    var high, low := Encoded(e, ByteBits(Msb(crc)), last), Encoded(e, ByteBits(Lsb(crc)), last');
    var written := Overwritten(bits, end, high + low);
    FieldUnaffected(e, bits, high + low, pos, n, end);
    OverwrittenWith(bits, end, high, low);
    var next := end + RawSpan(e, 1);
    ReadsBack(e, written, end, Msb(crc), last);
    ReadsBack(e, written, next, Lsb(crc), last');
    FieldGrows(e, written, pos, n);
    FieldGrows(e, written, pos, n + 1);
    assert field + [Msb(crc)] + [Lsb(crc)] == field + [Msb(crc), Lsb(crc)];
    ZeroResidue(INIT_CRC, field, Msb(crc), Lsb(crc));
  }

  /** The raw bits of a CRC, high byte first. */
  function EncodedCrc(e: Encoding, crc: bv16, last: bool): seq<bool>
    requires !e.Raw?
  {
    Encoded(e, ByteBits(Msb(crc)), last) + Encoded(e, ByteBits(Lsb(crc)), ByteBits(Msb(crc))[7])
  }

  lemma OverwriteMore(bits: seq<bool>, pos: nat, a: seq<bool>, b: seq<bool>)
    requires pos <= |bits|
    ensures pos + |a| <= |Overwritten(bits, pos, a)|
    ensures Overwritten(Overwritten(bits, pos, a), pos + |a|, b) == Overwritten(bits, pos, a + b)
  {
  }

  /** The field and the register after its CRC is written in two bytes. */
  lemma CrcWritten(e: Encoding, bits: seq<bool>, pos: nat, n: nat, end: nat, last: bool)
    requires !e.Raw? && end <= |bits| && pos + RawSpan(e, n) == end
    ensures
      var field := FieldAt(e, bits, pos, n);
      var crc := CrcOf(INIT_CRC, field);
      var high := Encoded(e, ByteBits(Msb(crc)), last);
      var low := Encoded(e, ByteBits(Lsb(crc)), ByteBits(Msb(crc))[7]);
      var written := Overwritten(bits, end, EncodedCrc(e, crc, last));
      && end + |high| <= |Overwritten(bits, end, high)|
      && Overwritten(Overwritten(bits, end, high), end + |high|, low) == written
      && |high| + |low| == RawSpan(e, 2)
      && written != [] && FieldAt(e, written, pos, n) == field
      && CrcOf(INIT_CRC, FieldAt(e, written, pos, n + 2)) == 0
  {
    hide Overwritten, Encoded, CrcOf, DataBits, ByteOf, ByteBits, Msb, Lsb, FieldAt;
    var crc := CrcOf(INIT_CRC, FieldAt(e, bits, pos, n));
    CrcClosesField(e, bits, pos, n, end, last, ByteBits(Msb(crc))[7]);
    FieldUnaffected(e, bits, EncodedCrc(e, crc, last), pos, n, end);
    OverwriteMore(bits, end, Encoded(e, ByteBits(Msb(crc)), last),
      Encoded(e, ByteBits(Lsb(crc)), ByteBits(Msb(crc))[7]));
  }

  lemma EncodedOne(e: Encoding, bit: bool, last: bool)
    requires !e.Raw?
    ensures Encoded(e, [bit], last) == if e.FM? then [true, false, bit, false] else [!last && !bit, bit]
  {
  }

  lemma NothingYet(e: Encoding, bits: seq<bool>, pos: nat, last: bool)
    requires !e.Raw? && pos <= |bits|
    ensures Encoded(e, [], last) == [] && Overwritten(bits, pos, []) == bits
  {
  }

  lemma {:induction false} EncodedPush(e: Encoding, bits: seq<bool>, last: bool, bit: bool)
    requires !e.Raw?
    ensures Encoded(e, bits + [bit], last)
         == Encoded(e, bits, last) + Encoded(e, [bit], if bits == [] then last else bits[|bits| - 1])
    decreases |bits|
  {
    if bits == [] {
      assert bits + [bit] == [bit];
    } else {
      assert (bits + [bit])[1..] == bits[1..] + [bit];
      EncodedPush(e, bits[1..], bits[0], bit);
    }
  }

  /** The bits of a byte, shifted out from the top. */
  lemma ShiftedOut(b: byte, data: seq<bool>, i: nat)
    requires |data| == 8 && i < 8 && ByteBits(b)[..8 - i] == data[i..]
    ensures ByteBits(b)[0] == data[i] && ByteBits(PushBit(b, false))[..7 - i] == data[i + 1..]
    ensures data[..i + 1] == data[..i] + [data[i]]
  {
    hide ByteBits, PushBit;
    BitsOfPush(b, false);
    assert ByteBits(b)[0] == ByteBits(b)[..8 - i][0];
    assert data[i..][1..] == data[i + 1..];
  }

  lemma TopBit(b: byte)
    ensures ByteBits(b)[0] == (b & 0x80 != 0)
  {
  }

  class BitstreamTrackBuilder {
    const buffer: BitBuffer
    var lastbit: bool

    ghost predicate Valid()
      reads this, buffer
    {
      buffer.Valid() && !buffer.encoding.Raw?
    }

    constructor (encoding: Encoding, capacity: nat)
      requires capacity > 0 && !encoding.Raw?
      ensures Valid() && buffer.Content() == [] && fresh(buffer) && buffer.encoding == encoding
    {
      buffer := new BitBuffer(encoding, capacity);
      lastbit := false;
    }

    method AddBit(bit: bool)
      requires Valid()
      modifies buffer
      ensures Valid() && buffer.encoding == old(buffer.encoding)
      ensures
        var raw := if buffer.encoding.FM? then [bit, false] else [bit];
        && buffer.bitpos == old(buffer.bitpos) + |raw|
        && buffer.Content() == Overwritten(old(buffer.Content()), old(buffer.bitpos), raw)
    {
      hide Overwritten, Written;
      ghost var bits, pos := buffer.Content(), buffer.bitpos;
      OverwriteNothing(bits, pos);
      OverwriteOne(bits, pos, [], bit);
      assert [] + [bit] == [bit];
      buffer.Add(bit);
      if buffer.encoding.FM? {
        OverwriteOne(bits, pos, [bit], false);
        assert [bit] + [false] == [bit, false];
        buffer.Add(false);
      }
    }

    method AddDataBit(bit: bool)
      requires Valid()
      modifies buffer, this`lastbit
      ensures Valid() && buffer.encoding == old(buffer.encoding) && lastbit == bit
      ensures
        var raw := Encoded(buffer.encoding, [bit], old(lastbit));
        && buffer.bitpos == old(buffer.bitpos) + |raw|
        && buffer.Content() == Overwritten(old(buffer.Content()), old(buffer.bitpos), raw)
    {
      hide Overwritten, Encoded;
      ghost var bits, pos := buffer.Content(), buffer.bitpos;
      if buffer.encoding.FM? {
        AddBit(true);
        AddBit(bit);
        OverwriteMore(bits, pos, [true, false], [bit, false]);
        assert [true, false] + [bit, false] == [true, false, bit, false];
      } else {
        AddBit(!lastbit && !bit);
        AddBit(bit);
        OverwriteMore(bits, pos, [!lastbit && !bit], [bit]);
        assert [!lastbit && !bit] + [bit] == [!lastbit && !bit, bit];
      }
      EncodedOne(buffer.encoding, bit, lastbit);
      lastbit := bit;
    }

    method AddByte(b0: byte)
      requires Valid()
      modifies buffer, this`lastbit
      ensures Valid() && buffer.encoding == old(buffer.encoding)
      ensures
        var raw := Encoded(buffer.encoding, ByteBits(b0), old(lastbit));
        && buffer.bitpos == old(buffer.bitpos) + |raw|
        && buffer.Content() == Overwritten(old(buffer.Content()), old(buffer.bitpos), raw)
      ensures lastbit == ByteBits(b0)[7]
    {
      hide ByteBits, Overwritten, Encoded;
      var b := b0;
      ghost var bits, pos, last, data := buffer.Content(), buffer.bitpos, lastbit, ByteBits(b0);
      NothingYet(buffer.encoding, bits, pos, last);
      for i := 0 to 8
        invariant Valid() && buffer.encoding == old(buffer.encoding)
        invariant ByteBits(b)[..8 - i] == data[i..]
        invariant lastbit == if i == 0 then last else data[i - 1]
        invariant buffer.bitpos == pos + |Encoded(buffer.encoding, data[..i], last)|
        invariant buffer.Content() == Overwritten(bits, pos, Encoded(buffer.encoding, data[..i], last))
      {
        TopBit(b);
        ShiftedOut(b, data, i);
        EncodedPush(buffer.encoding, data[..i], last, data[i]);
        OverwriteMore(bits, pos, Encoded(buffer.encoding, data[..i], last),
                      Encoded(buffer.encoding, [data[i]], lastbit));
        AddDataBit(b & 0x80 != 0);
        b := PushBit(b, false);
      }
      assert data[..8] == data;
    }

    /** The CRC of size bytes from the cursor on. */
    method FieldCrc(size: nat) returns (crc: bv16)
      requires Valid() && buffer.bitpos + RawSpan(buffer.encoding, size) <= buffer.bitsize
      modifies buffer`bitpos, buffer`wrappedRound
      ensures Valid() && buffer.Content() == old(buffer.Content())
      ensures crc == CrcOf(INIT_CRC, FieldAt(buffer.encoding, buffer.Content(), old(buffer.bitpos), size))
    {
      hide Cursor, CrcOf, DataBits, ByteOf;
      ghost var e, bits, start := buffer.encoding, buffer.Content(), buffer.bitpos;
      crc := INIT_CRC;
      CrcOfNone(INIT_CRC);
      for i := 0 to size
        invariant Valid() && buffer.Content() == bits
        invariant i < size ==> buffer.bitpos == start + RawSpan(e, i)
        invariant crc == CrcOf(INIT_CRC, FieldAt(e, bits, start, i))
      {
        if i + 1 < size {
          CursorInside(start + RawSpan(e, i + 1), buffer.bitsize);
        }
        var b := buffer.ReadByte();
        CrcOfPush(INIT_CRC, FieldAt(e, bits, start, i), b);
        crc := Crc16.AddByte(crc, b);
      }
    }

    /** Append the CRC of the size bytes before the cursor, high byte first. */
    method AddCrc(size: nat)
      requires Valid() && RawSpan(buffer.encoding, size) <= buffer.bitpos
      modifies buffer, this`lastbit
      ensures Valid() && buffer.encoding == old(buffer.encoding)
      ensures buffer.bitpos == old(buffer.bitpos) + RawSpan(buffer.encoding, 2)
      ensures
        var start := old(buffer.bitpos) - RawSpan(buffer.encoding, size);
        var field := FieldAt(buffer.encoding, old(buffer.Content()), start, size);
        && FieldAt(buffer.encoding, buffer.Content(), start, size) == field
        && CrcOf(INIT_CRC, FieldAt(buffer.encoding, buffer.Content(), start, size + 2)) == 0
        && buffer.Content() == Overwritten(old(buffer.Content()), old(buffer.bitpos),
                                           EncodedCrc(buffer.encoding, CrcOf(INIT_CRC, field), old(lastbit)))
    {
      hide Overwritten, Encoded, CrcOf, FieldAt, ByteBits, Msb, Lsb;
      var oldBitpos := buffer.bitpos;
      var start := oldBitpos - RawSpan(buffer.encoding, size);
      CrcWritten(buffer.encoding, buffer.Content(), start, size, oldBitpos, lastbit);
      var _ := buffer.Seek(start);
      var crc := FieldCrc(size);
      var _ := buffer.Seek(oldBitpos);
      AddByte(Msb(crc));
      AddByte(Lsb(crc));
    }
  }
}
