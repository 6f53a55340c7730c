/**
  The byte vector with a cursor that may stand between any two bits.  Bits are
  numbered from the most significant of the first byte on.
 */
module BitVectors {
  import opened Words

  // ----- operations on bytes, bit by bit

  /** The low n bits of a byte. */
  function LowBits(b: byte, n: nat): (r: seq<bool>)
    requires n <= 8
    ensures |r| == n
  {
    ByteBits(b)[8 - n..]
  }

  function Shl(b: byte, n: nat): byte
    requires n <= 8
  {
    match n
    case 0 => b case 1 => b << 1 case 2 => b << 2 case 3 => b << 3
    case 4 => b << 4 case 5 => b << 5 case 6 => b << 6 case 7 => b << 7 case 8 => 0
  }

  function Shr(b: byte, n: nat): byte
    requires n <= 8
  {
    match n
    case 0 => b case 1 => b >> 1 case 2 => b >> 2 case 3 => b >> 3
    case 4 => b >> 4 case 5 => b >> 5 case 6 => b >> 6 case 7 => b >> 7 case 8 => 0
  }

  lemma BitOfShl(b: byte, n: nat, i: nat)
    requires n <= 8 && i < 8
    ensures ByteBit(Shl(b, n), i) == (i + n < 8 && ByteBit(b, i + n))
  {
  }

  lemma BitOfShr(b: byte, n: nat, i: nat)
    requires n <= 8 && i < 8
    ensures ByteBit(Shr(b, n), i) == (i >= n && ByteBit(b, i - n))
  {
    match n
    case 0 => case 1 => case 2 => case 3 => case 4 => case 5 => case 6 => case 7 => case 8 =>
  }

  /** The bitwise operations, named so that proofs need not look inside them. */
  function Or(a: byte, b: byte): byte {
    a | b
  }

  function And(a: byte, b: byte): byte {
    a & b
  }

  function AndNot(a: byte, b: byte): byte {
    a & !b
  }

  lemma BitOfOr(a: byte, b: byte, i: nat)
    requires i < 8
    ensures ByteBit(Or(a, b), i) == (ByteBit(a, i) || ByteBit(b, i))
  {
  }

  lemma BitOfAnd(a: byte, b: byte, i: nat)
    requires i < 8
    ensures ByteBit(And(a, b), i) == (ByteBit(a, i) && ByteBit(b, i))
    ensures ByteBit(AndNot(a, b), i) == (ByteBit(a, i) && !ByteBit(b, i))
  {
  }

  lemma BitOfOnes(i: nat)
    requires i < 8
    ensures ByteBit(0xff, i) && !ByteBit(0, i)
  {
  }

  // ----- the vector's content

  function Content(bytes: seq<byte>): (r: seq<bool>)
    ensures |r| == 8 * |bytes|
  {
    seq(8 * |bytes|, i requires 0 <= i < 8 * |bytes| => ByteBit(bytes[i / 8], i % 8))
  }

  /** bits with those from pos on replaced by field. */
  function Put(bits: seq<bool>, pos: nat, field: seq<bool>): (r: seq<bool>)
    requires pos + |field| <= |bits|
    ensures |r| == |bits|
  {
    bits[..pos] + field + bits[pos + |field|..]
  }

  /** bits followed by as few whole bytes of zeros as make at least n bits. */
  function Grown(bits: seq<bool>, n: nat): (r: seq<bool>)
    requires |bits| % 8 == 0
    ensures |r| >= n && |r| % 8 == 0 && |r| >= |bits|
    ensures |r| == |bits| || |r| < n + 8
  {
    if n <= |bits| then bits else bits + Zeros(8 * ((n - |bits| + 7) / 8))
  }

  lemma ContentOfByte(bytes: seq<byte>, q: nat)
    requires q < |bytes|
    ensures Content(bytes)[8 * q..8 * q + 8] == ByteBits(bytes[q])
  {
  }

  lemma ContentUpdate(bytes: seq<byte>, q: nat, b: byte)
    requires q < |bytes|
    ensures Content(bytes[q := b]) == Put(Content(bytes), 8 * q, ByteBits(b))
  {
    hide ByteBit;
    forall i | 0 <= i < 8 * |bytes|
      ensures Content(bytes[q := b])[i] == Put(Content(bytes), 8 * q, ByteBits(b))[i]
    {
      if i / 8 == q {
        assert i == 8 * q + i % 8;
      }
    }
  }

  lemma ContentResize(bytes: seq<byte>, k: nat)
    ensures Content(bytes + seq(k, _ => 0)) == Content(bytes) + Zeros(8 * k)
  {
    hide ByteBit;
    forall i | 0 <= i < 8 * (|bytes| + k)
      ensures Content(bytes + seq(k, _ => 0))[i] == (Content(bytes) + Zeros(8 * k))[i]
    {
      BitOfOnes(i % 8);
    }
  }

  /** Writing twice over is writing once; writing one after the other is writing both. */
  lemma PutPut(bits: seq<bool>, pos: nat, a: seq<bool>, b: seq<bool>)
    requires pos + |a| + |b| <= |bits|
    ensures Put(Put(bits, pos, a), pos + |a|, b) == Put(bits, pos, a + b)
  {
  }

  // ----- reading

  /** PeekByteAtPosition. */
  function Peek(bytes: seq<byte>, pos: nat): byte
    requires pos + 8 <= 8 * |bytes|
  {
    if pos % 8 == 0 then bytes[pos / 8]
    else Or(Shl(bytes[pos / 8], pos % 8), Shr(bytes[pos / 8 + 1], 8 - pos % 8))
  }

  /** It is the byte that begins at the cursor, whatever the phase. */
  lemma PeekIsField(bytes: seq<byte>, pos: nat)
    requires pos + 8 <= 8 * |bytes|
    ensures ByteBits(Peek(bytes, pos)) == Content(bytes)[pos..pos + 8]
    ensures Peek(bytes, pos) == ByteOf(Content(bytes)[pos..pos + 8])
  {
    hide ByteBit, Shl, Shr, Or;
    var q, r := pos / 8, pos % 8;
    forall i | 0 <= i < 8
      ensures ByteBits(Peek(bytes, pos))[i] == Content(bytes)[pos..pos + 8][i]
    {
      if r > 0 {
        BitOfOr(Shl(bytes[q], r), Shr(bytes[q + 1], 8 - r), i);
        BitOfShl(bytes[q], r, i);
        BitOfShr(bytes[q + 1], 8 - r, i);
      }
    }
    ByteOfUnique(Content(bytes)[pos..pos + 8], Peek(bytes, pos));
  }

  /** A field of n bits at pos reaches into the next byte. */
  predicate Straddles(pos: nat, n: nat) {
    pos % 8 + n > 8
  }

  /** The bits that ReadBits yields for a field at pos: a straddling one is shifted too far. */
  function Got(pos: nat, field: seq<bool>): (r: seq<bool>)
    requires |field| < 8
    ensures |r| == |field|
  {
    if Straddles(pos, |field|) then Zeros(pos % 8 + |field| - 8) + field[..8 - pos % 8] else field
  }

  /** ReadBits is right exactly when the field does not straddle a byte or is zero. */
  lemma GotIsField(pos: nat, field: seq<bool>)
    requires |field| < 8
    ensures Got(pos, field) == field <==> !Straddles(pos, |field|) || field == Zeros(|field|)
  {
    if Straddles(pos, |field|) {
      var k, n := pos % 8 + |field| - 8, |field|;
      if Got(pos, field) == field {
        AllShiftedOut(field, k);
      }
    }
  }

  /** What is read is the field without its last bits, as many as lie in the second byte. */
  lemma GotIsShifted(pos: nat, field: seq<bool>)
    requires |field| < 8
    ensures ByteOf(Got(pos, field))
         == if pos % 8 + |field| > 8 then Shr(ByteOf(field), pos % 8 + |field| - 8) else ByteOf(field)
  {
    hide ByteOf, ByteBits, Shr, Zeros;
    if pos % 8 + |field| > 8 {
      FieldShifted(field, Got(pos, field), pos % 8 + |field| - 8);
    }
  }

  lemma FieldShifted(field: seq<bool>, got: seq<bool>, k: nat)
    requires k <= |field| <= 8 && got == Zeros(k) + field[..|field| - k]
    ensures ByteOf(got) == Shr(ByteOf(field), k)
  {
    hide *;
    ByteOfLowBits(field);
    ByteOfLowBits(got);
    ShiftedRight(ByteOf(field), k);
    ShiftedField(field, k);
    SameBits(ByteOf(got), Shr(ByteOf(field), k));
  }

  lemma ShiftedField(field: seq<bool>, k: nat)
    requires k <= |field| <= 8
    ensures Zeros(8 - |field|) + (Zeros(k) + field[..|field| - k]) == Zeros(k) + (Zeros(8 - |field|) + field)[..8 - k]
  {
  }

  /** The two bits at position 7 of the bytes 0x01 and 0x00 make 2, and 1 is read. */
  lemma StraddlingMisread()
    ensures ByteOf(Content([0x01, 0x00])[7..9]) == 2
    ensures ByteOf(Got(7, Content([0x01, 0x00])[7..9])) == 1
  {
    assert Content([0x01, 0x00])[7..9] == [true, false];
    assert [true, false][..1] == [true] && [true][..0] == [];
    assert [false, true][..1] == [false] && [false][..0] == [];
  }

  /** A field equal to itself shifted is zero. */
  lemma AllShiftedOut(field: seq<bool>, k: nat)
    requires 0 < k <= |field| && Zeros(k) + field[..|field| - k] == field
    ensures field == Zeros(|field|)
  {
    forall i | 0 <= i < |field|
      ensures !field[i]
    {
      ShiftedOut(field, k, i);
    }
  }

  lemma {:induction false} ShiftedOut(field: seq<bool>, k: nat, i: nat)
    requires 0 < k <= |field| && Zeros(k) + field[..|field| - k] == field && i < |field|
    ensures !field[i]
    decreases i
  {
    var shifted := Zeros(k) + field[..|field| - k];
    assert shifted[i] == field[i];
    if i >= k {
      ShiftedOut(field, k, i - k);
    }
  }

  // ----- shifts, masks and merges of bytes, as sequences of bits

  lemma ShiftedRight(a: byte, n: nat)
    requires n <= 8
    ensures ByteBits(Shr(a, n)) == Zeros(n) + ByteBits(a)[..8 - n]
  {
    hide Or, And, AndNot, ByteBit, Shr;
    forall i | 0 <= i < 8
      ensures ByteBits(Shr(a, n))[i] == (Zeros(n) + ByteBits(a)[..8 - n])[i]
    {
      BitOfShr(a, n, i);
    }
  }

  lemma ShiftedLeft(a: byte, n: nat)
    requires n <= 8
    ensures ByteBits(Shl(a, n)) == ByteBits(a)[n..] + Zeros(n)
  {
    hide Or, And, AndNot, ByteBit, Shl;
    forall i | 0 <= i < 8
      ensures ByteBits(Shl(a, n))[i] == (ByteBits(a)[n..] + Zeros(n))[i]
    {
      BitOfShl(a, n, i);
    }
  }

  /** Two bytes whose ones are in different places, put together. */
  lemma Joined(a: byte, b: byte, n: nat, left: seq<bool>, right: seq<bool>)
    requires n <= 8 && |left| == n && |right| == 8 - n
    requires ByteBits(a) == left + Zeros(8 - n) && ByteBits(b) == Zeros(n) + right
    ensures ByteBits(Or(a, b)) == ByteBits(Or(b, a)) == left + right
  {
    hide Or, And, AndNot, ByteBit;
    forall i | 0 <= i < 8
      ensures ByteBits(Or(a, b))[i] == ByteBits(Or(b, a))[i] == (left + right)[i]
    {
      BitOfOr(a, b, i);
      BitOfOr(b, a, i);
      assert ByteBits(a)[i] == (left + Zeros(8 - n))[i] && ByteBits(b)[i] == (Zeros(n) + right)[i];
    }
  }

  /** WriteBits writes the bits that count least. */
  lemma LowBitsValue(b: byte, n: nat)
    requires n <= 8
    ensures ByteOf(LowBits(b, n)) == And(b, Shr(0xff, 8 - n))
  {
    hide ByteOf, ByteBit, Shr, And;
    LowMask(b, 8 - n);
    ByteOfUnique(LowBits(b, n), And(b, Shr(0xff, 8 - n)));
  }

  /** The masks: the n high bits, the bits from n on. */
  lemma HighMask(a: byte, n: nat)
    requires n <= 8
    ensures ByteBits(And(a, Shl(0xff, 8 - n))) == ByteBits(a)[..n] + Zeros(8 - n)
  {
    hide Or, And, AndNot, ByteBit, Shl;
    var mask := Shl(0xff, 8 - n);
    forall i | 0 <= i < 8
      ensures ByteBits(And(a, mask))[i] == (ByteBits(a)[..n] + Zeros(8 - n))[i]
    {
      BitOfAnd(a, mask, i);
      BitOfShl(0xff, 8 - n, i);
      if i < n {
        BitOfOnes(i + 8 - n);
      }
    }
  }

  lemma LowMask(a: byte, n: nat)
    requires n <= 8
    ensures ByteBits(And(a, Shr(0xff, n))) == Zeros(n) + ByteBits(a)[n..]
  {
    hide Or, And, AndNot, ByteBit, Shr;
    forall i | 0 <= i < 8
      ensures ByteBits(And(a, Shr(0xff, n)))[i] == (Zeros(n) + ByteBits(a)[n..])[i]
    {
      BitOfAnd(a, Shr(0xff, n), i);
      BitOfShr(0xff, n, i);
      if i >= n {
        BitOfOnes(i - n);
      }
    }
  }

  /** The mask of WriteBits inside one byte: everything but n bits from r on. */
  function Outside(r: nat, n: nat): byte
    requires r + n <= 8
  {
    Or(Shl(0xff, 8 - r), Shr(0xff, r + n))
  }

  lemma BitOfOutside(r: nat, n: nat, i: nat)
    requires r + n <= 8 && i < 8
    ensures ByteBit(Outside(r, n), i) == !(r <= i < r + n)
  {
    hide Or, And, AndNot, ByteBit, Shl, Shr;
    BitOfOr(Shl(0xff, 8 - r), Shr(0xff, r + n), i);
    BitOfShl(0xff, 8 - r, i);
    BitOfShr(0xff, r + n, i);
    if i < r {
      BitOfOnes(i + 8 - r);
    }
    if i >= r + n {
      BitOfOnes(i - r - n);
    }
  }

  /** Bits taken from one byte inside a mask and from another outside it. */
  lemma BitOfMerge(a: byte, b: byte, mask: byte, i: nat)
    requires i < 8
    ensures ByteBit(Or(And(a, mask), AndNot(b, mask)), i) == if ByteBit(mask, i) then ByteBit(a, i) else ByteBit(b, i)
  {
    hide Or, And, AndNot, ByteBit;
    BitOfOr(And(a, mask), AndNot(b, mask), i);
    BitOfAnd(a, mask, i);
    BitOfAnd(b, mask, i);
  }

  lemma BitOfMergedOutside(a: byte, bits: byte, r: nat, n: nat, i: nat)
    requires r + n <= 8 && i < 8
    ensures ByteBit(Or(And(a, Outside(r, n)), AndNot(Shl(bits, 8 - r - n), Outside(r, n))), i)
         == if r <= i < r + n then ByteBit(bits, i + 8 - r - n) else ByteBit(a, i)
  {
    hide Or, And, AndNot, ByteBit, Shl, Outside;
    BitOfMerge(a, Shl(bits, 8 - r - n), Outside(r, n), i);
    BitOfOutside(r, n, i);
    BitOfShl(bits, 8 - r - n, i);
  }

  lemma MergedOutside(a: byte, bits: byte, r: nat, n: nat)
    requires r + n <= 8
    ensures ByteBits(Or(And(a, Outside(r, n)), AndNot(Shl(bits, 8 - r - n), Outside(r, n))))
         == ByteBits(a)[..r] + LowBits(bits, n) + ByteBits(a)[r + n..]
  {
    hide Or, And, AndNot, ByteBit, Shl, Outside;
    var merged := Or(And(a, Outside(r, n)), AndNot(Shl(bits, 8 - r - n), Outside(r, n)));
    var whole := ByteBits(a)[..r] + LowBits(bits, n) + ByteBits(a)[r + n..];
    forall i | 0 <= i < 8
      ensures ByteBits(merged)[i] == whole[i]
    {
      BitOfMergedOutside(a, bits, r, n, i);
    }
  }

  /** The mask of WriteBits across two bytes is the one from the start of a byte. */
  lemma MaskAcross(n: nat)
    requires n <= 8
    ensures Shr(0xff, n) == Outside(0, n)
  {
  }

  lemma SubSlice(c: seq<bool>, from: nat, len: nat, r: nat, n: nat)
    requires from + len <= |c| && r + n <= len
    ensures c[from..from + len][r..r + n] == c[from + r..from + r + n]
  {
    var a, b := c[from..from + len][r..r + n], c[from + r..from + r + n];
    forall i | 0 <= i < n
      ensures a[i] == b[i]
    {
      assert a[i] == c[from..from + len][r + i];
    }
  }

  lemma BitOfExtracted(a: byte, r: nat, n: nat, i: nat)
    requires r + n <= 8 && i < 8
    ensures ByteBit(Shr(And(a, Shr(0xff, r)), 8 - r - n), i) == (i >= 8 - n && ByteBit(a, i - (8 - r - n)))
  {
    hide ByteBit, Shr, And;
    var s := 8 - r - n;
    BitOfShr(And(a, Shr(0xff, r)), s, i);
    if i >= s {
      BitOfAnd(a, Shr(0xff, r), i - s);
      BitOfShr(0xff, r, i - s);
      if i - s >= r {
        BitOfOnes(i - s - r);
      }
    }
  }

  /** A field of one byte, masked and shifted down. */
  lemma Extracted(a: byte, r: nat, n: nat)
    requires r + n <= 8
    ensures ByteBits(Shr(And(a, Shr(0xff, r)), 8 - r - n)) == Zeros(8 - n) + ByteBits(a)[r..r + n]
  {
    hide ByteBit, Shr, And;
    var m, field := Shr(And(a, Shr(0xff, r)), 8 - r - n), ByteBits(a)[r..r + n];
    forall i | 0 <= i < 8
      ensures ByteBits(m)[i] == (Zeros(8 - n) + field)[i]
    {
      BitOfExtracted(a, r, n, i);
      assert i >= 8 - n ==> field[i - (8 - n)] == ByteBits(a)[r + i - (8 - n)];
    }
  }

  /** The field that ReadBits takes out of one byte. */
  lemma ReadInByte(bytes: seq<byte>, pos: nat, n: nat)
    requires 0 < n < 8 && !Straddles(pos, n) && pos + n <= 8 * |bytes|
    ensures Shr(And(bytes[pos / 8], Shr(0xff, pos % 8)), 8 - pos % 8 - n) == ByteOf(Content(bytes)[pos..pos + n])
  {
    hide Or, And, AndNot, Shr, ByteBits, Content, ByteOf;
    var q, r, c := pos / 8, pos % 8, Content(bytes);
    Extracted(bytes[q], r, n);
    ContentOfByte(bytes, q);
    SubSlice(c, 8 * q, 8, r, n);
    assert 8 * q + r == pos;
    ByteOfUnique(c[pos..pos + n], Shr(And(bytes[q], Shr(0xff, r)), 8 - r - n));
  }

  lemma ShiftedAcross(p: byte, r: nat, n: nat)
    requires r <= 8 && n <= 8 && r + n >= 8
    ensures ByteBits(Shr(p, r)) == Zeros(8 - n) + (Zeros(r + n - 8) + ByteBits(p)[..8 - r])
  {
    hide ByteBits, Shr;
    ShiftedRight(p, r);
    assert Zeros(r) == Zeros(8 - n) + Zeros(r + n - 8);
  }

  /** A byte that a field reaches into is there. */
  lemma StraddleHasRoom(pos: nat, n: nat, size: nat)
    requires Straddles(pos, n) && n <= 8 && pos + n <= 8 * size
    ensures pos + 8 <= 8 * size
  {
  }

  /** What ReadBits makes of a straddling field. */
  lemma ReadAcross(bytes: seq<byte>, pos: nat, n: nat)
    requires 0 < n < 8 && Straddles(pos, n) && pos + n <= 8 * |bytes|
    ensures pos + 8 <= 8 * |bytes|
    ensures Shr(Peek(bytes, pos), pos % 8) == ByteOf(Got(pos, Content(bytes)[pos..pos + n]))
  {
    StraddleHasRoom(pos, n, |bytes|);
    GotByte(bytes, pos, n);
  }

  lemma GotByte(bytes: seq<byte>, pos: nat, n: nat)
    requires 0 < n < 8 && Straddles(pos, n) && pos + 8 <= 8 * |bytes|
    ensures Shr(Peek(bytes, pos), pos % 8) == ByteOf(Got(pos, Content(bytes)[pos..pos + n]))
  {
    hide Or, And, AndNot, Shr, ByteBits, Content, ByteOf, Peek;
    var p, r, c := Peek(bytes, pos), pos % 8, Content(bytes);
    PeekIsField(bytes, pos);
    SubSlice(c, pos, 8, 0, 8 - r);
    SubSlice(c, pos, n, 0, 8 - r);
    ShiftedAcross(p, r, n);
    ByteOfUnique(Got(pos, c[pos..pos + n]), Shr(p, r));
  }

  lemma LowBitsOfField(field: seq<bool>)
    requires |field| <= 8
    ensures LowBits(ByteOf(field), |field|) == field
  {
    ByteOfLowBits(field);
  }

  // ----- writing

  lemma PutAcross(c: seq<bool>, pos: nat, r: nat, f: seq<bool>)
    requires r <= 8 && |f| == 8 && r <= pos && pos - r + 16 <= |c|
    ensures Put(c, pos - r,
            c[pos - r..pos - r + 8][..r] + f[..8 - r] + (f[8 - r..] + c[pos - r + 8..pos - r + 16][r..]))
         == Put(c, pos, f)
  {
  }

  /** The byte that keeps its r high bits and takes the others from b. */
  lemma HighByte(a: byte, b: byte, r: nat)
    requires r <= 8
    ensures ByteBits(Or(And(a, Shl(0xff, 8 - r)), Shr(b, r))) == ByteBits(a)[..r] + ByteBits(b)[..8 - r]
  {
    hide Or, And, Shl, Shr, ByteBits;
    HighMask(a, r);
    ShiftedRight(b, r);
    Joined(And(a, Shl(0xff, 8 - r)), Shr(b, r), r, ByteBits(a)[..r], ByteBits(b)[..8 - r]);
  }

  /** The byte that takes its r high bits from b and keeps the others. */
  lemma LowByte(a: byte, b: byte, r: nat)
    requires r <= 8
    ensures ByteBits(Or(And(a, Shr(0xff, r)), Shl(b, 8 - r))) == ByteBits(b)[8 - r..] + ByteBits(a)[r..]
  {
    hide Or, And, Shl, Shr, ByteBits;
    LowMask(a, r);
    ShiftedLeft(b, 8 - r);
    Joined(Shl(b, 8 - r), And(a, Shr(0xff, r)), r, ByteBits(b)[8 - r..], ByteBits(a)[r..]);
  }

  /** StoreByteAtPosition on two bytes. */
  lemma StoreAcross(bytes: seq<byte>, pos: nat, b: byte)
    requires pos % 8 > 0 && pos / 8 + 1 < |bytes|
    ensures
      var q, r := pos / 8, pos % 8;
      Content(bytes[q := Or(And(bytes[q], Shl(0xff, 8 - r)), Shr(b, r))]
                   [q + 1 := Or(And(bytes[q + 1], Shr(0xff, r)), Shl(b, 8 - r))])
      == Put(Content(bytes), pos, ByteBits(b))
  {
    hide Or, And, AndNot, Shl, Shr, ByteBits, Content, Put;
    var q, r, c, f := pos / 8, pos % 8, Content(bytes), ByteBits(b);
    var high, low := Or(And(bytes[q], Shl(0xff, 8 - r)), Shr(b, r)), Or(And(bytes[q + 1], Shr(0xff, r)), Shl(b, 8 - r));
    ContentOfByte(bytes, q);
    ContentOfByte(bytes, q + 1);
    HighByte(bytes[q], b, r);
    LowByte(bytes[q + 1], b, r);
    ContentUpdate(bytes, q, high);
    ContentUpdate(bytes[q := high], q + 1, low);
    PutPut(c, 8 * q, ByteBits(high), ByteBits(low));
    PutAcross(c, pos, r, f);
  }

  lemma PutInside(c: seq<bool>, pos: nat, r: nat, f: seq<bool>)
    requires r + |f| <= 8 && r <= pos && pos - r + 8 <= |c|
    ensures Put(c, pos - r, c[pos - r..pos - r + 8][..r] + f + c[pos - r..pos - r + 8][r + |f|..]) == Put(c, pos, f)
  {
  }

  /** WriteBits inside one byte. */
  lemma WriteInByte(bytes: seq<byte>, pos: nat, bits: byte, n: nat)
    requires 0 < n < 8 && !Straddles(pos, n) && pos + n <= 8 * |bytes|
    ensures
      var q, r := pos / 8, pos % 8;
      var mask := Outside(r, n);
      Content(bytes[q := Or(And(bytes[q], mask), AndNot(Shl(bits, 8 - r - n), mask))])
      == Put(Content(bytes), pos, LowBits(bits, n))
  {
    hide Or, And, AndNot, Shl, Outside, ByteBits, Content, Put;
    var q, r := pos / 8, pos % 8;
    MergedOutside(bytes[q], bits, r, n);
    ContentOfByte(bytes, q);
    ContentUpdate(bytes, q, Or(And(bytes[q], Outside(r, n)), AndNot(Shl(bits, 8 - r - n), Outside(r, n))));
    PutInside(Content(bytes), pos, r, LowBits(bits, n));
  }

  /** WriteBits across two bytes: the byte to store. */
  lemma MergedByte(bytes: seq<byte>, pos: nat, bits: byte, n: nat)
    requires 0 < n < 8 && pos + 8 <= 8 * |bytes|
    ensures
      var mask := Shr(0xff, n);
      ByteBits(Or(And(Peek(bytes, pos), mask), AndNot(Shl(bits, 8 - n), mask)))
      == LowBits(bits, n) + Content(bytes)[pos + n..pos + 8]
  {
    hide Or, And, AndNot, Shl, Shr, Outside, ByteBits, Content, Peek;
    MaskAcross(n);
    MergedOutside(Peek(bytes, pos), bits, 0, n);
    PeekIsField(bytes, pos);
    assert Content(bytes)[pos..pos + 8][n..] == Content(bytes)[pos + n..pos + 8];
  }

  lemma PutKeepsTail(c: seq<bool>, pos: nat, field: seq<bool>)
    requires pos + 8 <= |c| && |field| <= 8
    ensures Put(c, pos, field + c[pos + |field|..pos + 8]) == Put(c, pos, field)
  {
  }

  lemma NoBits(pos: nat, c: seq<bool>)
    requires pos <= |c|
    ensures ByteOf(Got(pos, c[pos..pos])) == 0
  {
  }

  lemma NothingWritten(c: seq<bool>, pos: nat, bits: byte)
    requires |c| % 8 == 0 && pos <= |c|
    ensures Grown(c, pos) == c && Put(c, pos, LowBits(bits, 0)) == c
  {
  }

  lemma GrownAlready(c: seq<bool>, n: nat)
    requires |c| % 8 == 0 && n <= |c|
    ensures Grown(c, n) == c
  {
  }

  /** What WriteBits grows by. */
  lemma GrownEnough(c: seq<bool>, pos: nat, n: nat)
    requires |c| % 8 == 0 && pos <= |c|
    ensures
      var remaining := |c| - pos;
      Grown(c, pos + n) == c + Zeros(if remaining < n then 8 * ((n - remaining - 1) / 8 + 1) else 0)
  {
  }

  lemma PutNothing(c: seq<bool>, pos: nat)
    requires pos <= |c|
    ensures Put(c, pos, []) == c
  {
  }

  /** A write behind what has been written, into a vector that is large enough. */
  lemma AppendPut(target: seq<bool>, start: nat, done: seq<bool>, more: seq<bool>)
    requires |target| % 8 == 0 && start + |done| + |more| <= |target|
    ensures
      var was := Put(target, start, done);
      Put(Grown(was, start + |done| + |more|), start + |done|, more) == Put(target, start, done + more)
  {
  }

  // ----- copying

  /** The bits that CopyBitsFrom copies to reach a byte boundary. */
  function Head(to: nat, len: nat): (r: nat)
    ensures r <= len && r < 8
  {
    if to % 8 == 0 then 0 else if 8 - to % 8 < len then 8 - to % 8 else len
  }

  /** The head ends at a byte boundary of the target or with the copy, and is empty at a boundary. */
  lemma HeadReachesBoundary(to: nat, len: nat)
    ensures (to + Head(to, len)) % 8 == 0 || (Head(to, len) == len && to % 8 + len < 8)
    ensures to % 8 == 0 ==> Head(to, len) == 0
  {
  }

  /** What CopyBitsFrom copies of the bits from on: head and tail as ReadBits yields them. */
  function Copied(bits: seq<bool>, from: nat, to: nat, len: nat): (r: seq<bool>)
    requires from + len <= |bits|
    ensures |r| == len
  {
    var head := from + Head(to, len);
    var tail := from + len - (from + len - head) % 8;
    Got(from, bits[from..head]) + bits[head..tail] + Got(tail, bits[tail..from + len])
  }

  lemma NothingCopied(c: seq<bool>, pos: nat, bits: seq<bool>, from: nat)
    requires |c| % 8 == 0 && pos <= |c| && from <= |bits|
    ensures Put(Grown(c, pos), pos, Copied(bits, from, pos, 0)) == c
  {
    hide Got, Copied;
    assert |Copied(bits, from, pos, 0)| == 0;
    PutNothing(c, pos);
    GrownAlready(c, pos);
  }

  /**
    The copy is exact exactly when neither the head nor the tail is a field that straddles a source
    byte and is not zero.
   */
  lemma CopyExactIff(bits: seq<bool>, from: nat, to: nat, len: nat)
    requires from + len <= |bits|
    ensures
      var head := from + Head(to, len);
      var tail := from + len - (from + len - head) % 8;
      Copied(bits, from, to, len) == bits[from..from + len]
      <==> && (Straddles(from, head - from) ==> bits[from..head] == Zeros(head - from))
           && (Straddles(tail, from + len - tail) ==> bits[tail..from + len] == Zeros(from + len - tail))
  {
    hide Got;
    var head := from + Head(to, len);
    var tail := from + len - (from + len - head) % 8;
    GotIsField(from, bits[from..head]);
    GotIsField(tail, bits[tail..from + len]);
    ThreeParts(bits, from, head, tail, from + len, Got(from, bits[from..head]), Got(tail, bits[tail..from + len]));
  }

  lemma ThreeParts(bits: seq<bool>, a: nat, b: nat, c: nat, d: nat, first: seq<bool>, last: seq<bool>)
    requires a <= b <= c <= d <= |bits| && |first| == b - a && |last| == d - c
    ensures first + bits[b..c] + last == bits[a..d] <==> first == bits[a..b] && last == bits[c..d]
  {
    var whole, part := first + bits[b..c] + last, bits[a..d];
    if whole == part {
      assert first == whole[..b - a] == part[..b - a] == bits[a..b];
      assert last == whole[c - a..] == part[c - a..] == bits[c..d];
    }
    if first == bits[a..b] && last == bits[c..d] {
      assert whole == part;
    }
  }

  /** With equal phases neither head nor tail straddles a byte. */
  lemma EqualPhase(from: nat, to: nat, len: nat)
    requires from % 8 == to % 8
    ensures !Straddles(from, Head(to, len))
    ensures !Straddles(from + len - (len - Head(to, len)) % 8, (len - Head(to, len)) % 8)
  {
    var rest := len - Head(to, len);
    if rest > 0 {
      assert (from + Head(to, len)) % 8 == 0;
      assert (from + len - rest % 8) % 8 == 0;
    }
  }

  /** So cursors of equal phase always copy exactly. */
  lemma EqualPhaseCopies(bits: seq<bool>, from: nat, to: nat, len: nat)
    requires from + len <= |bits| && from % 8 == to % 8
    ensures Copied(bits, from, to, len) == bits[from..from + len]
  {
    hide Copied, Straddles, Head;
    EqualPhase(from, to, len);
    CopyExactIff(bits, from, to, len);
  }

  /** A write changes the addressed bits and no others; new ones are zero. */
  lemma WriteIsLocal(bits: seq<bool>, pos: nat, field: seq<bool>, k: nat)
    requires |bits| % 8 == 0 && pos <= |bits| && k < |Grown(bits, pos + |field|)|
    ensures Put(Grown(bits, pos + |field|), pos, field)[k]
         == if pos <= k < pos + |field| then field[k - pos] else k < |bits| && bits[k]
    ensures |Grown(bits, pos + |field|)| == if pos + |field| <= |bits| then |bits| else (pos + |field| + 7) / 8 * 8
  {
  }

  // ----- doubling

  /** Every bit twice. */
  function Doubled(bits: seq<bool>): (r: seq<bool>)
    ensures |r| == 2 * |bits|
  {
    seq(2 * |bits|, i requires 0 <= i < 2 * |bits| => bits[i / 2])
  }

  lemma DoubledSum(a: seq<bool>, b: seq<bool>)
    ensures Doubled(a + b) == Doubled(a) + Doubled(b)
  {
  }

  function Double4Bits(bits: byte): byte {
    ((bits & 8) * 0x18) | ((bits & 4) * 0xc) | ((bits & 2) * 0x6) | ((bits & 1) * 0x3)
  }

  lemma BitOfDouble(bits: byte, i: nat)
    requires i < 8
    ensures ByteBit(Double4Bits(bits), i) == ByteBit(bits, 4 + i / 2)
  {
  }

  /** Double4Bits doubles the low bits, any number of them up to four. */
  lemma DoublesLowBits(bits: byte, m: nat)
    requires m <= 4
    ensures LowBits(Double4Bits(bits), 2 * m) == Doubled(LowBits(bits, m))
  {
    hide ByteBit, Double4Bits, LowBits;
    var doubled := Double4Bits(bits);
    forall i | 0 <= i < 2 * m
      ensures LowBits(doubled, 2 * m)[i] == Doubled(LowBits(bits, m))[i]
    {
      LowBitAt(doubled, 2 * m, i);
      LowBitAt(bits, m, i / 2);
      BitOfDouble(bits, 8 - 2 * m + i);
      assert 4 + (8 - 2 * m + i) / 2 == 8 - m + i / 2;
    }
  }

  lemma LowBitAt(b: byte, n: nat, i: nat)
    requires n <= 8 && i < n
    ensures LowBits(b, n)[i] == ByteBit(b, 8 - n + i)
  {
  }

  /** The high one of the nibbles that a field of four bits or more is split into. */
  lemma HighNibble(field: seq<bool>)
    requires 4 <= |field| <= 8
    ensures LowBits(Shr(ByteOf(field), |field| - 4), 4) == field[..4]
    ensures LowBits(ByteOf(field), |field| - 4) == field[4..]
  {
    hide Shr, ByteBits, ByteOf;
    ByteOfLowBits(field);
    ShiftedRight(ByteOf(field), |field| - 4);
    Nibbles(field, Zeros(8 - |field|) + field);
  }

  lemma Nibbles(field: seq<bool>, bits: seq<bool>)
    requires 4 <= |field| <= 8 && bits == Zeros(8 - |field|) + field
    ensures (Zeros(|field| - 4) + bits[..12 - |field|])[4..] == field[..4]
    ensures bits[12 - |field|..] == field[4..]
  {
  }

  /** What CopyBitsDoubledFrom writes for the bits from on. */
  function CopiedDoubled(bits: seq<bool>, from: nat, len: nat): (r: seq<bool>)
    requires from + len <= |bits|
    ensures |r| == 2 * len
  {
    var tail := from + len - len % 8;
    Doubled(bits[from..tail]) + Doubled(Got(tail, bits[tail..from + len]))
  }

  lemma DoubledInjective(a: seq<bool>, b: seq<bool>)
    requires Doubled(a) == Doubled(b)
    ensures a == b
  {
    assert 2 * |a| == 2 * |b|;
    forall i | 0 <= i < |a|
      ensures a[i] == b[i]
    {
      assert Doubled(a)[2 * i] == Doubled(b)[2 * i];
    }
  }

  lemma NothingDoubled(c: seq<bool>, pos: nat, bits: seq<bool>, from: nat)
    requires |c| % 8 == 0 && pos <= |c| && from <= |bits|
    ensures Put(Grown(c, pos), pos, CopiedDoubled(bits, from, 0)) == c
  {
  }

  lemma AllLowBits(b: byte)
    ensures LowBits(b, 8) == ByteBits(b)
  {
  }

  lemma LowNibble(b: byte)
    ensures LowBits(And(b, 0xf), 4) == LowBits(b, 4) == ByteBits(b)[4..]
    ensures LowBits(Double4Bits(And(b, 0xf)), 8) == ByteBits(Double4Bits(And(b, 0xf)))
    ensures LowBits(Double4Bits(Shr(b, 4)), 8) == ByteBits(Double4Bits(Shr(b, 4)))
  {
  }

  /** Every bit is written twice, in order, exactly when the tail does not straddle a source byte or is zero. */
  lemma DoublingExactIff(bits: seq<bool>, from: nat, len: nat)
    requires from + len <= |bits|
    ensures
      var tail := from + len - len % 8;
      CopiedDoubled(bits, from, len) == Doubled(bits[from..from + len])
      <==> (Straddles(tail, len % 8) ==> bits[tail..from + len] == Zeros(len % 8))
  {
    hide Got, Doubled;
    var tail := from + len - len % 8;
    var field, got := bits[tail..from + len], Got(tail, bits[tail..from + len]);
    GotIsField(tail, field);
    DoubledSum(bits[from..tail], got);
    assert bits[from..from + len] == bits[from..tail] + field;
    if CopiedDoubled(bits, from, len) == Doubled(bits[from..from + len]) {
      DoubledInjective(bits[from..tail] + got, bits[from..tail] + field);
      assert (bits[from..tail] + got)[tail - from..] == (bits[from..tail] + field)[tail - from..];
    }
  }

  class BitPositionableByteVector {
    var bytes: seq<byte>
    var pos: nat

    ghost predicate Valid()
      reads this
    {
      pos <= 8 * |bytes|
    }

    ghost function Bits(): (r: seq<bool>)
      reads this`bytes
      ensures |r| == 8 * |bytes|
    {
      Content(bytes)
    }

    constructor (bytes: seq<byte>)
      ensures Valid() && this.bytes == bytes && pos == 0
    {
      this.bytes, pos := bytes, 0;
    }

    function RemainingByteLength(): nat
      requires Valid()
      reads this
    {
      |bytes| - (pos / 8 + if pos % 8 > 0 then 1 else 0)
    }

    function RemainingBitLength(): nat
      requires Valid()
      reads this
    {
      8 * |bytes| - pos
    }

    method Resize(k: nat)
      modifies this`bytes
      ensures Bits() == old(Bits()) + Zeros(8 * k) && |bytes| == old(|bytes|) + k
    {
      ContentResize(bytes, k);
      bytes := bytes + seq(k, _ => 0);
    }

    /** Make room for n bits from the cursor on. */
    method Reserve(n: nat)
      requires Valid()
      modifies this`bytes
      ensures Valid() && Bits() == Grown(old(Bits()), pos + n)
    {
      hide Content, Grown;
      GrownEnough(Bits(), pos, n);
      var remaining := RemainingBitLength();
      if remaining < n {
        Resize((n - remaining - 1) / 8 + 1);
      }
      assert Bits() == Bits() + Zeros(0);
    }

    method ReadByte() returns (b: byte)
      requires Valid() && pos + 8 <= 8 * |bytes|
      modifies this`pos
      ensures Valid() && pos == old(pos) + 8 && b == ByteOf(Bits()[old(pos)..pos])
              && ByteBits(b) == Bits()[old(pos)..pos]
    {
      PeekIsField(bytes, pos);
      b := Peek(bytes, pos);
      pos := pos + 8;
    }

    method StoreByteAtPosition(b: byte)
      requires Valid()
      modifies this`bytes
      ensures Valid() && Bits() == Put(Grown(old(Bits()), pos + 8), pos, ByteBits(b))
    {
      hide Or, And, AndNot, Content, Put, Shl, Shr;
      if RemainingByteLength() < 1 {
        Resize(1);
      }
      assert Bits() == Grown(old(Bits()), pos + 8);
      var bytePosition, bitPosition := pos / 8, pos % 8;
      if bitPosition == 0 {
        ContentUpdate(bytes, bytePosition, b);
        bytes := bytes[bytePosition := b];
      } else {
        StoreAcross(bytes, pos, b);
        bytes := bytes[bytePosition := Or(And(bytes[bytePosition], Shl(0xff, 8 - bitPosition)), Shr(b, bitPosition))];
        bytePosition := bytePosition + 1;
        bytes := bytes[bytePosition := Or(And(bytes[bytePosition], Shr(0xff, bitPosition)), Shl(b, 8 - bitPosition))];
      }
    }

    method WriteByte(b: byte)
      requires Valid()
      modifies this
      ensures Valid() && pos == old(pos) + 8 && Bits() == Put(Grown(old(Bits()), pos), old(pos), ByteBits(b))
    {
      StoreByteAtPosition(b);
      pos := pos + 8;
    }

    /** A read of fewer than 8 bits; what it yields is the field's value only if Got is the field. */
    method ReadBits(bitsLen: nat) returns (bits: byte)
      requires Valid() && bitsLen < 8 && pos + bitsLen <= 8 * |bytes|
      modifies this`pos
      ensures Valid() && pos == old(pos) + bitsLen && bits == ByteOf(Got(old(pos), Bits()[old(pos)..pos]))
    {
      hide Or, And, AndNot, Shr, Peek, Content, ByteOf;
      if bitsLen == 0 {
        NoBits(pos, Bits());
        return 0;
      }
      var remainingBitsInByte := 8 - pos % 8;
      if bitsLen > remainingBitsInByte {
        ReadAcross(bytes, pos, bitsLen);
        bits := Shr(Peek(bytes, pos), pos % 8);
      } else {
        ReadInByte(bytes, pos, bitsLen);
        bits := Shr(And(bytes[pos / 8], Shr(0xff, pos % 8)), remainingBitsInByte - bitsLen);
      }
      pos := pos + bitsLen;
    }

    /** A field across a byte boundary: a whole byte at the cursor is read, merged and stored. */
    method MergeAcross(bits: byte, bitsLen: nat)
      requires Valid() && 0 < bitsLen < 8 && Straddles(pos, bitsLen) && pos + 8 <= 8 * |bytes|
      modifies this
      ensures Valid() && pos == old(pos)
      ensures Bits() == Put(old(Bits()), pos, LowBits(bits, bitsLen))
    {
      hide Or, And, AndNot, Content, Shl, Shr, Peek, LowBits, ByteBits, Grown, Put;
      var bitMask := Shr(0xff, bitsLen);
      MergedByte(bytes, pos, bits, bitsLen);
      PutKeepsTail(Bits(), pos, LowBits(bits, bitsLen));
      var peekByte := Or(And(Peek(bytes, pos), bitMask), AndNot(Shl(bits, 8 - bitsLen), bitMask));
      GrownAlready(Bits(), pos + 8);
      StoreByteAtPosition(peekByte);
    }

    /** Write the low bitsLen bits. */
    method WriteBits(bits: byte, bitsLen: nat)
      requires Valid() && bitsLen < 8
      modifies this
      ensures Valid() && pos == old(pos) + bitsLen
      ensures Bits() == Put(Grown(old(Bits()), pos), old(pos), LowBits(bits, bitsLen))
    {
      hide Or, And, AndNot, Content, Shl, Shr, Peek, Outside, LowBits, ByteBits, Grown, Put;
      if bitsLen == 0 {
        NothingWritten(Bits(), pos, bits);
        return;
      }
      Reserve(bitsLen);
      var bytePosition, bitPosition := pos / 8, pos % 8;
      var remainingBitsInByte := 8 - bitPosition;
      if bitsLen > remainingBitsInByte {
        MergeAcross(bits, bitsLen);
      } else {
        WriteInByte(bytes, pos, bits, bitsLen);
        var bitMask := Outside(bitPosition, bitsLen);
        bytes := bytes[bytePosition := Or(And(bytes[bytePosition], bitMask),
                                          AndNot(Shl(bits, remainingBitsInByte - bitsLen), bitMask))];
      }
      pos := pos + bitsLen;
    }

    /** Copy one field, appending to what has been written from start on. */
    method CopyField(src: BitPositionableByteVector, n: nat, ghost target: seq<bool>, ghost start: nat,
        ghost done: seq<bool>)
      requires src != this && Valid() && src.Valid() && n < 8 && src.pos + n <= 8 * |src.bytes|
      requires |target| % 8 == 0 && pos == start + |done| && pos + n <= |target| && Bits() == Put(target, start, done)
      modifies this, src`pos
      ensures Valid() && src.Valid() && pos == old(pos) + n && src.pos == old(src.pos) + n
      ensures Bits() == Put(target, start, done + Got(old(src.pos), src.Bits()[old(src.pos)..src.pos]))
    {
      hide Content, Put, Grown, LowBits, Got, ByteOf;
      ghost var got := Got(src.pos, src.Bits()[src.pos..src.pos + n]);
      LowBitsOfField(got);
      AppendPut(target, start, done, got);
      var bits := src.ReadBits(n);
      WriteBits(bits, n);
    }

    method CopyByte(src: BitPositionableByteVector, ghost target: seq<bool>, ghost start: nat, ghost done: seq<bool>)
      requires src != this && Valid() && src.Valid() && src.pos + 8 <= 8 * |src.bytes|
      requires |target| % 8 == 0 && pos == start + |done| && pos + 8 <= |target| && Bits() == Put(target, start, done)
      modifies this, src`pos
      ensures Valid() && src.Valid() && pos == old(pos) + 8 && src.pos == old(src.pos) + 8
      ensures Bits() == Put(target, start, done + src.Bits()[old(src.pos)..src.pos])
    {
      hide Content, Put, Grown, ByteBits, ByteOf;
      AppendPut(target, start, done, src.Bits()[src.pos..src.pos + 8]);
      var b := src.ReadByte();
      WriteByte(b);
    }

    /** The loop over whole bytes. */
    method CopyWholeBytes(src: BitPositionableByteVector, byteLen: nat,
                          ghost target: seq<bool>, ghost start: nat, ghost done: seq<bool>)
      requires src != this && Valid() && src.Valid() && src.pos + 8 * byteLen <= 8 * |src.bytes|
      requires |target| % 8 == 0 && pos == start + |done| && pos + 8 * byteLen <= |target|
      requires Bits() == Put(target, start, done)
      modifies this, src`pos
      ensures Valid() && src.Valid() && pos == old(pos) + 8 * byteLen && src.pos == old(src.pos) + 8 * byteLen
      ensures Bits() == Put(target, start, done + src.Bits()[old(src.pos)..src.pos])
    {
      hide Content, Put, Grown;
      ghost var s, from := src.Bits(), src.pos;
      assert done + s[from..from] == done;
      for i := 0 to byteLen
        invariant Valid() && src.Valid() && src.Bits() == s
        invariant pos == start + |done| + 8 * i && src.pos == from + 8 * i
        invariant Bits() == Put(target, start, done + s[from..src.pos])
      {
        ghost var so := done + s[from..src.pos];
        CopyByte(src, target, start, so);
        assert so + s[src.pos - 8..src.pos] == done + s[from..src.pos];
      }
    }

    /** Copy bitsLen bits: a head up to a byte boundary of this vector, whole bytes, and a tail. */
    method CopyBitsFrom(src: BitPositionableByteVector, bitsLen0: nat)
      requires src != this && Valid() && src.Valid() && src.RemainingBitLength() >= bitsLen0
      modifies this, src`pos
      ensures Valid() && src.Valid() && pos == old(pos) + bitsLen0 && src.pos == old(src.pos) + bitsLen0
      ensures Bits() == Put(Grown(old(Bits()), pos), old(pos), Copied(src.Bits(), old(src.pos), old(pos), bitsLen0))
    {
      hide Content, Put, Grown, Got;
      var bitsLen := bitsLen0;
      if bitsLen == 0 {
        NothingCopied(Bits(), pos, src.Bits(), src.pos);
        return;
      }
      ghost var target, start, from, s := Grown(Bits(), pos + bitsLen), pos, src.pos, src.Bits();
      Reserve(bitsLen);
      PutNothing(target, start);
      bitsLen := CopyHead(src, bitsLen, target, start);
      CopyTail(src, bitsLen, target, start, Got(from, s[from..src.pos]));
    }

    /** The first part of CopyBitsFrom: bits up to a byte boundary of this vector. */
    method CopyHead(src: BitPositionableByteVector, bitsLen: nat, ghost target: seq<bool>, ghost start: nat)
      returns (rest: nat)
      requires src != this && Valid() && src.Valid() && src.pos + bitsLen <= 8 * |src.bytes|
      requires |target| % 8 == 0 && pos == start && pos + bitsLen <= |target| && Bits() == Put(target, start, [])
      modifies this, src`pos
      ensures Valid() && src.Valid() && rest == bitsLen - Head(start, bitsLen)
      ensures pos == old(pos) + Head(start, bitsLen) && src.pos == old(src.pos) + Head(start, bitsLen)
      ensures Bits() == Put(target, start, Got(old(src.pos), src.Bits()[old(src.pos)..src.pos]))
    {
      hide Content, Put, Got;
      rest := bitsLen;
      ghost var s, from := src.Bits(), src.pos;
      assert [] + Got(from, s[from..from + Head(start, bitsLen)]) == Got(from, s[from..from + Head(start, bitsLen)]);
      if pos % 8 > 0 {
        var n := if 8 - pos % 8 < bitsLen then 8 - pos % 8 else bitsLen;
        CopyField(src, n, target, start, []);
        rest := bitsLen - n;
      } else {
        assert Got(from, s[from..from]) == [];
      }
    }

    /** Its other parts: whole bytes, and the remaining bits. */
    method CopyTail(src: BitPositionableByteVector, bitsLen: nat, ghost target: seq<bool>, ghost start: nat,
        ghost done: seq<bool>)
      requires src != this && Valid() && src.Valid() && src.pos + bitsLen <= 8 * |src.bytes|
      requires |target| % 8 == 0 && pos == start + |done| && pos + bitsLen <= |target| && Bits() == Put(target,
               start, done)
      modifies this, src`pos
      ensures Valid() && src.Valid() && pos == old(pos) + bitsLen && src.pos == old(src.pos) + bitsLen
      ensures
        var from := old(src.pos);
        var tail := from + bitsLen - bitsLen % 8;
        Bits() == Put(target, start, done + src.Bits()[from..tail] + Got(tail, src.Bits()[tail..from + bitsLen]))
    {
      hide Content, Put, Got;
      var rest := bitsLen;
      ghost var s, from, tail := src.Bits(), src.pos, src.pos + bitsLen - bitsLen % 8;
      ghost var so := done + s[from..tail];
      if bitsLen >= 8 {
        CopyWholeBytes(src, bitsLen / 8, target, start, done);
        rest := rest - bitsLen / 8 * 8;
      } else {
        assert so == done;
      }
      if rest > 0 {
        CopyField(src, rest, target, start, so);
      } else {
        assert so + Got(tail, s[tail..tail]) == so;
      }
    }

    /** Append a byte to what has been written from start on. */
    method AppendByte(b: byte, ghost target: seq<bool>, ghost start: nat, ghost done: seq<bool>, ghost more: seq<bool>)
      requires Valid() && ByteBits(b) == more
      requires |target| % 8 == 0 && pos == start + |done| && pos + 8 <= |target| && Bits() == Put(target, start, done)
      modifies this
      ensures Valid() && pos == old(pos) + 8 && Bits() == Put(target, start, done + more)
    {
      hide Content, Put, Grown, ByteBits;
      AppendPut(target, start, done, more);
      WriteByte(b);
    }

    method AppendBits(b: byte, n: nat, ghost target: seq<bool>, ghost start: nat, ghost done: seq<bool>,
        ghost more: seq<bool>)
      requires Valid() && n < 8 && LowBits(b, n) == more
      requires |target| % 8 == 0 && pos == start + |done| && pos + n <= |target| && Bits() == Put(target, start, done)
      modifies this
      ensures Valid() && pos == old(pos) + n && Bits() == Put(target, start, done + more)
    {
      hide Content, Put, Grown, LowBits;
      AppendPut(target, start, done, more);
      WriteBits(b, n);
    }

    /** One byte of the source, doubled. */
    method CopyByteDoubled(src: BitPositionableByteVector, ghost target: seq<bool>, ghost start: nat,
        ghost done: seq<bool>)
      requires src != this && Valid() && src.Valid() && src.pos + 8 <= 8 * |src.bytes|
      requires |target| % 8 == 0 && pos == start + |done| && pos + 16 <= |target| && Bits() == Put(target, start, done)
      modifies this, src`pos
      ensures Valid() && src.Valid() && pos == old(pos) + 16 && src.pos == old(src.pos) + 8
      ensures Bits() == Put(target, start, done + Doubled(src.Bits()[old(src.pos)..src.pos]))
    {
      hide Content, Put, Doubled, ByteOf, Double4Bits, Shr, ByteBits, And;
      ghost var field := src.Bits()[src.pos..src.pos + 8];
      var b := src.ReadByte();
      HighNibble(field);
      DoublesLowBits(Shr(b, 4), 4);
      AppendByte(Double4Bits(Shr(b, 4)), target, start, done, Doubled(field[..4]));
      LowNibble(b);
      DoublesLowBits(And(b, 0xf), 4);
      AppendByte(Double4Bits(And(b, 0xf)), target, start, done + Doubled(field[..4]), Doubled(field[4..]));
      DoubledSum(field[..4], field[4..]);
      assert field[..4] + field[4..] == field;
      assert done + Doubled(field[..4]) + Doubled(field[4..]) == done + (Doubled(field[..4]) + Doubled(field[4..]));
    }

    /** The remaining bits of the source, fewer than eight, doubled. */
    method CopyTailDoubled(src: BitPositionableByteVector, n: nat, ghost target: seq<bool>, ghost start: nat,
        ghost done: seq<bool>)
      requires src != this && Valid() && src.Valid() && 0 < n < 8 && src.pos + n <= 8 * |src.bytes|
      requires |target| % 8 == 0 && pos == start + |done| && pos + 2 * n <= |target| && Bits() == Put(target, start,
               done)
      modifies this, src`pos
      ensures Valid() && src.Valid() && pos == old(pos) + 2 * n && src.pos == old(src.pos) + n
      ensures Bits() == Put(target, start, done + Doubled(Got(old(src.pos), src.Bits()[old(src.pos)..src.pos])))
    {
      hide Content, Put, Doubled, ByteOf, Double4Bits, Shr, ByteBits, LowBits, Got;
      ghost var got := Got(src.pos, src.Bits()[src.pos..src.pos + n]);
      var bits := src.ReadBits(n);
      var dstBitsLen := 2 * n;
      if dstBitsLen >= 8 {
        HighNibble(got);
        DoublesLowBits(Shr(bits, n - 4), 4);
        DoublesLowBits(bits, n - 4);
        AllLowBits(Double4Bits(Shr(bits, n - 4)));
        AppendByte(Double4Bits(Shr(bits, n - 4)), target, start, done, Doubled(got[..4]));
        dstBitsLen := dstBitsLen - 8;
        AppendBits(Double4Bits(bits), dstBitsLen, target, start, done + Doubled(got[..4]), Doubled(got[4..]));
        DoubledSum(got[..4], got[4..]);
        assert got[..4] + got[4..] == got;
        assert done + Doubled(got[..4]) + Doubled(got[4..]) == done + (Doubled(got[..4]) + Doubled(got[4..]));
      } else {
        LowBitsOfField(got);
        DoublesLowBits(bits, n);
        AppendBits(Double4Bits(bits), dstBitsLen, target, start, done, Doubled(got));
      }
    }

    /** Copy bitsLen bits, each written twice. */
    method CopyBitsDoubledFrom(src: BitPositionableByteVector, bitsLen0: nat)
      requires src != this && Valid() && src.Valid() && src.RemainingBitLength() >= bitsLen0
      modifies this, src`pos
      ensures Valid() && src.Valid() && pos == old(pos) + 2 * bitsLen0 && src.pos == old(src.pos) + bitsLen0
      ensures Bits() == Put(Grown(old(Bits()), pos), old(pos), CopiedDoubled(src.Bits(), old(src.pos), bitsLen0))
    {
      hide Content, Put, Grown, Got, Doubled;
      var bitsLen := bitsLen0;
      ghost var target, start, from, s := Grown(Bits(), pos + 2 * bitsLen), pos, src.pos, src.Bits();
      if bitsLen == 0 {
        NothingDoubled(Bits(), pos, s, from);
        return;
      }
      Reserve(2 * bitsLen);
      PutNothing(target, start);
      CopyWholeBytesDoubled(src, bitsLen / 8, target, start);
      bitsLen := bitsLen % 8;
      if bitsLen > 0 {
        CopyTailDoubled(src, bitsLen, target, start, Doubled(s[from..src.pos]));
      } else {
        assert Doubled(s[from..src.pos]) + Doubled(Got(src.pos, s[src.pos..src.pos])) == Doubled(s[from..src.pos]);
      }
    }

    /** The loop over whole bytes. */
    method CopyWholeBytesDoubled(src: BitPositionableByteVector, byteLen: nat, ghost target: seq<bool>,
        ghost start: nat)
      requires src != this && Valid() && src.Valid() && src.pos + 8 * byteLen <= 8 * |src.bytes|
      requires |target| % 8 == 0 && pos == start && pos + 16 * byteLen <= |target| && Bits() == Put(target, start, [])
      modifies this, src`pos
      ensures Valid() && src.Valid() && pos == start + 16 * byteLen && src.pos == old(src.pos) + 8 * byteLen
      ensures Bits() == Put(target, start, Doubled(src.Bits()[old(src.pos)..src.pos]))
    {
      hide Content, Put, Grown, Doubled;
      ghost var s, from := src.Bits(), src.pos;
      assert Doubled(s[from..from]) == [];
      for i := 0 to byteLen
        invariant Valid() && src.Valid() && src.Bits() == s
        invariant pos == start + 16 * i && src.pos == from + 8 * i
        invariant Bits() == Put(target, start, Doubled(s[from..src.pos]))
      {
        ghost var at := src.pos;
        DoubledSum(s[from..at], s[at..at + 8]);
        assert s[from..at] + s[at..at + 8] == s[from..at + 8];
        CopyByteDoubled(src, target, start, Doubled(s[from..at]));
      }
    }
  }
}
