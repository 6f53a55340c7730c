/**
  Decoding the 6-and-2 data fields of Apple disks: code bytes to six-bit values,
  the running exclusive-or, and the bytes put together from six bits and two.
 */
module AppleGcr {
  import opened Words

  const NIBBLES := 343
  const SECTOR := 256
  const PAIRS := 86

  /** The value of a code byte, 128 for an invalid one; by high and low half. */
  function Gcr6And2(b: byte): byte {
    match b >> 4
    case 9 => Row9(b & 15)
    case 10 => RowA(b & 15)
    case 11 => RowB(b & 15)
    case 12 => RowC(b & 15)
    case 13 => RowD(b & 15)
    case 14 => RowE(b & 15)
    case 15 => RowF(b & 15)
    case _ => 128
  }

  function Row9(low: byte): byte {
    match low
    case 6 => 0 case 7 => 1 case 10 => 2 case 11 => 3 case 13 => 4 case 14 => 5 case 15 => 6
    case _ => 128
  }

  function RowA(low: byte): byte {
    match low
    case 6 => 7 case 7 => 8 case 10 => 8 case 11 => 9 case 12 => 10 case 13 => 11 case 14 => 12 case 15 => 13
    case _ => 128
  }

  function RowB(low: byte): byte {
    match low
    case 2 => 14 case 3 => 15 case 4 => 16 case 5 => 17 case 6 => 18 case 7 => 19
    case 9 => 20 case 10 => 21 case 11 => 22 case 12 => 23 case 13 => 24 case 14 => 25
    case 15 => 26
    case _ => 128
  }

  function RowC(low: byte): byte {
    match low
    case 11 => 27 case 13 => 28 case 14 => 29 case 15 => 30
    case _ => 128
  }

  function RowD(low: byte): byte {
    match low
    case 3 => 31 case 6 => 32 case 7 => 33 case 9 => 34 case 10 => 35 case 11 => 36
    case 12 => 37 case 13 => 38 case 14 => 39 case 15 => 40
    case _ => 128
  }

  function RowE(low: byte): byte {
    match low
    case 5 => 41 case 6 => 42 case 7 => 43 case 9 => 44 case 10 => 45 case 11 => 46
    case 12 => 47 case 13 => 48 case 14 => 49 case 15 => 50
    case _ => 128
  }

  function RowF(low: byte): byte {
    match low
    case 2 => 51 case 3 => 52 case 4 => 53 case 5 => 54 case 6 => 55 case 7 => 56
    case 9 => 57 case 10 => 58 case 11 => 59 case 12 => 60 case 13 => 61 case 14 => 62
    case 15 => 63
    case _ => 128
  }

  /** The code byte for a six-bit value: the 64 listed codes in order. */
  function Code6(v: byte): byte {
    Codes(v >> 3, v & 7)
  }

  /** The list in rows of eight. */
  function Codes(row: byte, low: byte): byte {
    match row
    case 0 => Codes0(low)
    case 1 => Codes1(low)
    case 2 => Codes2(low)
    case 3 => Codes3(low)
    case 4 => Codes4(low)
    case 5 => Codes5(low)
    case 6 => Codes6(low)
    case 7 => Codes7(low)
    case _ => 0
  }

  function Codes0(low: byte): byte {
    match low
    case 0 => 0x96 case 1 => 0x97 case 2 => 0x9a case 3 => 0x9b case 4 => 0x9d case 5 => 0x9e
    case 6 => 0x9f case 7 => 0xa6 case _ => 0
  }

  function Codes1(low: byte): byte {
    match low
    case 0 => 0xa7 case 1 => 0xab case 2 => 0xac case 3 => 0xad case 4 => 0xae case 5 => 0xaf
    case 6 => 0xb2 case 7 => 0xb3 case _ => 0
  }

  function Codes2(low: byte): byte {
    match low
    case 0 => 0xb4 case 1 => 0xb5 case 2 => 0xb6 case 3 => 0xb7 case 4 => 0xb9 case 5 => 0xba
    case 6 => 0xbb case 7 => 0xbc case _ => 0
  }

  function Codes3(low: byte): byte {
    match low
    case 0 => 0xbd case 1 => 0xbe case 2 => 0xbf case 3 => 0xcb case 4 => 0xcd case 5 => 0xce
    case 6 => 0xcf case 7 => 0xd3 case _ => 0
  }

  function Codes4(low: byte): byte {
    match low
    case 0 => 0xd6 case 1 => 0xd7 case 2 => 0xd9 case 3 => 0xda case 4 => 0xdb case 5 => 0xdc
    case 6 => 0xdd case 7 => 0xde case _ => 0
  }

  function Codes5(low: byte): byte {
    match low
    case 0 => 0xdf case 1 => 0xe5 case 2 => 0xe6 case 3 => 0xe7 case 4 => 0xe9 case 5 => 0xea
    case 6 => 0xeb case 7 => 0xec case _ => 0
  }

  function Codes6(low: byte): byte {
    match low
    case 0 => 0xed case 1 => 0xee case 2 => 0xef case 3 => 0xf2 case 4 => 0xf3 case 5 => 0xf4
    case 6 => 0xf5 case 7 => 0xf6 case _ => 0
  }

  function Codes7(low: byte): byte {
    match low
    case 0 => 0xf7 case 1 => 0xf9 case 2 => 0xfa case 3 => 0xfb case 4 => 0xfc case 5 => 0xfd
    case 6 => 0xfe case 7 => 0xff case _ => 0
  }

  /** Every code listed decodes to its place in the list. */
  lemma CodeDecodes(v: byte)
    requires v < 64
    ensures Gcr6And2(Code6(v)) == v
  {
  }

  /** A byte of the list. */
  ghost predicate Listed(b: byte) {
    exists v: byte :: v < 64 && Code6(v) == b
  }

  /** What the table accepts: the listed codes, and 0xaa, which it takes for 0xa7. */
  lemma AcceptedCodes(b: byte)
    ensures Gcr6And2(b) < 64 || Gcr6And2(b) == 128
    ensures Gcr6And2(b) < 64 <==> Listed(b) || b == 0xaa
    ensures Listed(b) ==> Code6(Gcr6And2(b)) == b
    ensures Listed(0xa7) && !Listed(0xaa) && Gcr6And2(0xaa) == Gcr6And2(0xa7)
  {
    hide Gcr6And2, Code6;
    AcceptedByRow(b);
    TwiceEight();
    forall v: byte | v < 64
      ensures Gcr6And2(Code6(v)) == v
    {
      CodeDecodes(v);
    }
    if Gcr6And2(b) < 64 && b != 0xaa {
      assert Code6(Gcr6And2(b)) == b;
    }
  }

  lemma TwiceEight()
    ensures Gcr6And2(0xaa) == 8 && Gcr6And2(0xa7) == 8 && Code6(8) == 0xa7
  {
  }

  lemma AcceptedByRow(b: byte)
    ensures Gcr6And2(b) < 64 || Gcr6And2(b) == 128
    ensures Gcr6And2(b) < 64 ==> b == Code6(Gcr6And2(b)) || b == 0xaa
  {
  }

  /** The list is in ascending order. */
  lemma CodesAscend(u: byte, v: byte)
    requires u < v < 64
    ensures Code6(u) < Code6(v)
  {
    hide Code6;
    CodeAbove(v);
    if u + 1 < v {
      CodesAscend(u, v - 1);
    }
  }

  lemma CodeAbove(v: byte)
    requires 0 < v < 64
    ensures Code6(v - 1) < Code6(v)
  {
    hide Codes;
    if v & 7 != 0 {
      WithinRow(v);
      RowAscends(v >> 3, v & 7);
    } else {
      BetweenRows(v);
      RowsMeet(v >> 3);
    }
  }

  lemma WithinRow(v: byte)
    requires v < 64 && v & 7 != 0
    ensures v >> 3 < 8 && 0 < v & 7 < 8 && (v - 1) >> 3 == v >> 3 && (v - 1) & 7 == (v & 7) - 1
  {
  }

  lemma BetweenRows(v: byte)
    requires 0 < v < 64 && v & 7 == 0
    ensures 0 < v >> 3 < 8 && (v - 1) >> 3 == (v >> 3) - 1 && (v - 1) & 7 == 7
  {
  }

  lemma RowAscends(row: byte, low: byte)
    requires row < 8 && 0 < low < 8
    ensures Codes(row, low - 1) < Codes(row, low)
  {
    match low
    case 1 => case 2 => case 3 => case 4 => case 5 => case 6 => case 7 =>
  }

  lemma RowsMeet(row: byte)
    requires 0 < row < 8
    ensures Codes(row - 1, 7) < Codes(row, 0)
  {
  }

  /** A one and the same next to it, in the bits that mask selects; bit k of the result stands for bits k and k + 1. */
  function AdjacentOnes(b: byte, mask: byte): byte {
    b & (b >> 1) & mask
  }

  /** Which bytes are listed: the top bit and two ones in a row behind it, and at most one pair of zeros in a row. */
  lemma CodeRule(b: byte)
    ensures Listed(b)
       <==> && b >= 0x80 && AdjacentOnes(b, 0x3f) != 0
            && var pairs := AdjacentOnes(!b, 0x7f); pairs & (pairs - 1) == 0
  {
    hide Code6, Listed;
    AcceptedCodes(b);
    AcceptedRule(b);
  }

  lemma AcceptedRule(b: byte)
    ensures Gcr6And2(b) < 64 && b != 0xaa
       <==> && b >= 0x80 && AdjacentOnes(b, 0x3f) != 0
            && var pairs := AdjacentOnes(!b, 0x7f); pairs & (pairs - 1) == 0
  {
  }

  // ----- the decoder

  function Xor(a: byte, b: byte): byte {
    a ^ b
  }

  /** A byte counting the values whose top bit is set. */
  function Count(invalid: byte, x: byte): byte {
    invalid + (x >> 7)
  }

  /** The running exclusive-or of the values of the first k code bytes. */
  function Chain(gcr: seq<byte>, k: nat): byte
    requires k <= |gcr|
  {
    if k == 0 then 0 else Xor(Chain(gcr, k - 1), Gcr6And2(gcr[k - 1]))
  }

  function Invalid(gcr: seq<byte>, k: nat): nat
    requires k <= |gcr|
  {
    if k == 0 then 0 else Invalid(gcr, k - 1) + (if Gcr6And2(gcr[k - 1]) == 128 then 1 else 0)
  }

  /** The two bits that go with byte i, out of the pairs that the first 86 values hold. */
  function TwoBits(dec: seq<byte>, i: nat): byte
    requires i < SECTOR && |dec| >= NIBBLES
  {
    if i < PAIRS then dec[i] & 3
    else if i < 2 * PAIRS then (dec[i - PAIRS] >> 2) & 3
    else (dec[i - 2 * PAIRS] >> 4) & 3
  }

  function Join(six: byte, bits: byte): byte {
    (six << 2) | ((bits & 2) >> 1) | ((bits & 1) << 1)
  }

  function Dec(gcr: seq<byte>): (r: seq<byte>)
    requires |gcr| >= NIBBLES
    ensures |r| == NIBBLES
  {
    seq(NIBBLES, k requires 0 <= k < NIBBLES => Chain(gcr, k + 1))
  }

  /** The sector that a data field decodes to. */
  function Out(dec: seq<byte>): (r: seq<byte>)
    requires |dec| >= NIBBLES
    ensures |r| == SECTOR
  {
    seq(SECTOR, i requires 0 <= i < SECTOR => Join(dec[i + PAIRS], TwoBits(dec, i)))
  }

  /**
    Where the bits of a byte come from: six from its own value, and the last two,
    in the other order, from the value that it shares with up to two more bytes.
   */
  lemma BitsOfOut(dec: seq<byte>, i: nat)
    requires i < SECTOR && |dec| >= NIBBLES
    ensures forall k :: 0 <= k < 6 ==> ByteBit(Out(dec)[i], k) == ByteBit(dec[i + 86], k + 2)
    ensures ByteBit(Out(dec)[i], 6) == ByteBit(dec[i % 86], 7 - 2 * (i / 86))
    ensures ByteBit(Out(dec)[i], 7) == ByteBit(dec[i % 86], 6 - 2 * (i / 86))
  {
    hide Join, TwoBits;
    PairBits(dec, i);
    BitsOfJoin(dec[i + 86], TwoBits(dec, i));
  }

  lemma BitsOfJoin(six: byte, bits: byte)
    requires bits < 4
    ensures forall k :: 0 <= k < 6 ==> ByteBit(Join(six, bits), k) == ByteBit(six, k + 2)
    ensures ByteBit(Join(six, bits), 6) == ByteBit(bits, 7) && ByteBit(Join(six, bits), 7) == ByteBit(bits, 6)
  {
  }

  lemma PairBits(dec: seq<byte>, i: nat)
    requires i < SECTOR && |dec| >= NIBBLES
    ensures TwoBits(dec, i) < 4
    ensures ByteBit(TwoBits(dec, i), 7) == ByteBit(dec[i % 86], 7 - 2 * (i / 86))
    ensures ByteBit(TwoBits(dec, i), 6) == ByteBit(dec[i % 86], 6 - 2 * (i / 86))
  {
    assert i / 86 == if i < 86 then 0 else if i < 172 then 1 else 2;
  }

  method Decode(gcrdata: seq<byte>) returns (outdata: seq<byte>, cksum: byte, invalid: byte)
    requires |gcrdata| >= NIBBLES
    ensures outdata == Out(Dec(gcrdata)) && cksum == Chain(gcrdata, NIBBLES)
    ensures invalid as nat == Invalid(gcrdata, NIBBLES) % 256
  {
    var decdata := new byte[|gcrdata|];
    cksum, invalid := Unchain(gcrdata, decdata);
    outdata := Recombine(decdata);
  }

  /** GCR decoding and checksumming. */
  method Unchain(gcrdata: seq<byte>, decdata: array<byte>) returns (cksum: byte, invalid: byte)
    requires NIBBLES <= |gcrdata| == decdata.Length
    modifies decdata
    ensures decdata[..NIBBLES] == Dec(gcrdata) && cksum == Chain(gcrdata, NIBBLES)
    ensures Counted(gcrdata, NIBBLES, invalid)
  {
    hide Gcr6And2, Chain, Counted, Dec, Xor, Count;
    cksum, invalid := 0, 0;
    ChainStarts(gcrdata);
    ghost var dec := Dec(gcrdata);
    for i := 0 to NIBBLES
      invariant cksum == Chain(gcrdata, i)
      invariant forall k :: 0 <= k < i ==> decdata[k] == dec[k]
      invariant Counted(gcrdata, i, invalid)
    {
      ChainNext(gcrdata, i, invalid);
      var x := Gcr6And2(gcrdata[i]);
      cksum := Xor(cksum, x);
      decdata[i] := cksum;
      invalid := Count(invalid, x);
    }
  }

  /** invalid is the count of invalid codes, in a byte. */
  predicate Counted(gcr: seq<byte>, k: nat, invalid: byte)
    requires k <= |gcr|
  {
    invalid as nat == Invalid(gcr, k) % 256
  }

  lemma ChainStarts(gcr: seq<byte>)
    ensures Chain(gcr, 0) == 0 && Counted(gcr, 0, 0)
  {
  }

  lemma ChainNext(gcr: seq<byte>, i: nat, invalid: byte)
    requires i < |gcr| && Counted(gcr, i, invalid)
    ensures Chain(gcr, i + 1) == Xor(Chain(gcr, i), Gcr6And2(gcr[i]))
    ensures NIBBLES <= |gcr| && i < NIBBLES ==> Dec(gcr)[i] == Chain(gcr, i + 1)
    ensures Counted(gcr, i + 1, Count(invalid, Gcr6And2(gcr[i])))
  {
    hide Gcr6And2;
    AcceptedCodes(gcr[i]);
    CountsInvalid(Gcr6And2(gcr[i]), invalid, Invalid(gcr, i));
  }

  /** 6-and-2 de-nibblizing. */
  method Recombine(decdata: array<byte>) returns (outdata: seq<byte>)
    requires decdata.Length >= NIBBLES
    ensures outdata == Out(decdata[..NIBBLES])
  {
    hide Join;
    var out := new byte[SECTOR];
    for i := 0 to SECTOR
      invariant forall k :: 0 <= k < i ==> out[k] == Join(decdata[k + PAIRS], TwoBits(decdata[..NIBBLES], k))
    {
      var bits: byte;
      if i < PAIRS {
        bits := decdata[i] & 3;
      } else if i < 2 * PAIRS {
        bits := (decdata[i - PAIRS] >> 2) & 3;
      } else {
        bits := (decdata[i - 2 * PAIRS] >> 4) & 3;
      }
      out[i] := Join(decdata[i + PAIRS], bits);
    }
    outdata := out[..];
  }

  /** The count of invalid codes is a byte, and wraps. */
  lemma CountsInvalid(x: byte, invalid: byte, n: nat)
    requires x < 64 || x == 128
    requires invalid as nat == n % 256
    ensures (invalid + (x >> 7)) as nat == (n + if x == 128 then 1 else 0) % 256
  {
    if x == 128 {
      assert x >> 7 == 1;
      AddOne(invalid);
    } else {
      assert x >> 7 == 0;
    }
  }

  lemma AddOne(b: byte)
    ensures (b + 1) as nat == if b == 255 then 0 else b as nat + 1
  {
  }

  // ----- the encoder that the decoder inverts

  /** The low two bits of a byte, exchanged. */
  function Pair(b: byte): byte {
    ((b & 1) << 1) | ((b & 2) >> 1)
  }

  /** The k-th six-bit value of a sector: pairs of bits first, then the upper six, and a zero for the checksum. */
  function Six(data: seq<byte>, k: nat): byte
    requires |data| == SECTOR && k < NIBBLES
  {
    if k + 2 * PAIRS < SECTOR then Pair(data[k]) | (Pair(data[k + PAIRS]) << 2) | (Pair(data[k + 2 * PAIRS]) << 4)
    else if k < PAIRS then Pair(data[k]) | (Pair(data[k + PAIRS]) << 2)
    else if k < PAIRS + SECTOR then data[k - PAIRS] >> 2
    else 0
  }

  function Nibblized(data: seq<byte>): (r: seq<byte>)
    requires |data| == SECTOR
    ensures |r| == NIBBLES
  {
    seq(NIBBLES, k requires 0 <= k < NIBBLES => Code6(Six(data, k) ^ Before(data, k)))
  }

  lemma SixBits(a: byte, b: byte, c: byte)
    ensures Pair(a) | (Pair(b) << 2) | (Pair(c) << 4) < 64 && Pair(a) | (Pair(b) << 2) < 16 && a >> 2 < 64
    ensures Pair(a) < 4
  {
  }

  lemma SixIsSix(data: seq<byte>, k: nat)
    requires |data| == SECTOR && k < NIBBLES
    ensures Six(data, k) < 64
    ensures 2 * PAIRS + k >= SECTOR && k < PAIRS ==> Six(data, k) < 16
    ensures k == NIBBLES - 1 ==> Six(data, k) == 0
  {
    hide Pair;
    if k + 2 * PAIRS < SECTOR {
      SixBits(data[k], data[k + PAIRS], data[k + 2 * PAIRS]);
    } else if k < PAIRS {
      SixBits(data[k], data[k + PAIRS], 0);
    } else if k < PAIRS + SECTOR {
      SixBits(data[k - PAIRS], 0, 0);
    }
  }

  lemma XorSix(a: byte, b: byte)
    ensures a < 64 && b < 64 ==> a ^ b < 64
    ensures b ^ (a ^ b) == a && (b ^ a) ^ b == a && a ^ 0 == a && 0 ^ a == a
  {
  }

  function Before(data: seq<byte>, k: nat): byte
    requires |data| == SECTOR && k <= NIBBLES
  {
    if k == 0 then 0 else Six(data, k - 1)
  }

  lemma NibbleAt(data: seq<byte>, k: nat)
    requires |data| == SECTOR && k < NIBBLES
    ensures Gcr6And2(Nibblized(data)[k]) == Six(data, k) ^ Before(data, k) != 128
    ensures Before(data, k) ^ (Six(data, k) ^ Before(data, k)) == Six(data, k)
  {
    hide Gcr6And2, Code6, Six;
    SixIsSix(data, k);
    if k > 0 {
      SixIsSix(data, k - 1);
    }
    XorSix(Six(data, k), Before(data, k));
    CodeDecodes(Six(data, k) ^ Before(data, k));
  }

  /** The chain of a nibblized sector gives back its six-bit values, all of them valid. */
  lemma {:induction false} ChainOfNibblized(data: seq<byte>, k: nat)
    requires |data| == SECTOR && k <= NIBBLES
    ensures Chain(Nibblized(data), k) == Before(data, k)
    ensures Invalid(Nibblized(data), k) == 0
    decreases k
  {
    hide Gcr6And2, Code6, Six, Nibblized;
    if k > 0 {
      ChainOfNibblized(data, k - 1);
      NibbleAt(data, k - 1);
    }
  }

  lemma OutOfSix(data: seq<byte>, dec: seq<byte>, i: nat)
    requires |data| == SECTOR && |dec| == NIBBLES && i < SECTOR
    requires forall k :: 0 <= k < NIBBLES ==> dec[k] == Six(data, k)
    ensures Join(dec[i + PAIRS], TwoBits(dec, i)) == data[i]
  {
  }

  /** Decoding inverts nibblizing: the sector comes back, the checksum is zero, no code is invalid. */
  lemma DecodeInvertsNibblizing(data: seq<byte>)
    requires |data| == SECTOR
    ensures Out(Dec(Nibblized(data))) == data
    ensures Chain(Nibblized(data), NIBBLES) == 0 && Invalid(Nibblized(data), NIBBLES) == 0
  {
    hide Six, Join, TwoBits, Nibblized, Chain, Invalid;
    var dec := Dec(Nibblized(data));
    forall k | 0 <= k < NIBBLES
      ensures dec[k] == Six(data, k)
    {
      ChainOfNibblized(data, k + 1);
    }
    forall i | 0 <= i < SECTOR
      ensures Out(dec)[i] == data[i]
    {
      OutOfSix(data, dec, i);
    }
    ChainOfNibblized(data, NIBBLES);
    SixIsSix(data, NIBBLES - 1);
  }

  // ----- the other way round

  lemma PairOfJoin(six: byte, bits: byte)
    requires six < 64 && bits < 4
    ensures Pair(Join(six, bits)) == bits && Join(six, bits) >> 2 == six
  {
  }

  lemma SixFromPairs(d: byte)
    ensures d < 64 ==> (d & 3) | (((d >> 2) & 3) << 2) | (((d >> 4) & 3) << 4) == d
    ensures d < 16 ==> (d & 3) | (((d >> 2) & 3) << 2) == d
    ensures d & 3 < 4 && (d >> 2) & 3 < 4 && (d >> 4) & 3 < 4
  {
  }

  lemma TwoBitsSmall(dec: seq<byte>, i: nat)
    requires |dec| == NIBBLES && i < SECTOR
    ensures TwoBits(dec, i) < 4
  {
  }

  /** The values of a decoded sector, if they use no more bits than there are. */
  lemma SixOfOut(dec: seq<byte>, k: nat)
    requires |dec| == NIBBLES && k < NIBBLES && (forall i :: 0 <= i < NIBBLES ==> dec[i] < 64)
    requires dec[84] < 16 && dec[85] < 16 && dec[NIBBLES - 1] == 0
    ensures Six(Out(dec), k) == dec[k]
  {
    hide Pair, Join, TwoBits;
    if k < PAIRS {
      PairAt(dec, k);
      PairAt(dec, k + PAIRS);
      TwoBitsOf(dec, k);
      SixFromPairs(dec[k]);
      if k + 2 * PAIRS < SECTOR {
        PairAt(dec, k + 2 * PAIRS);
      }
    } else if k < PAIRS + SECTOR {
      TwoBitsSmall(dec, k - PAIRS);
      PairOfJoin(dec[k], TwoBits(dec, k - PAIRS));
    }
  }

  lemma PairAt(dec: seq<byte>, i: nat)
    requires |dec| == NIBBLES && i < SECTOR && dec[i + PAIRS] < 64
    ensures Pair(Out(dec)[i]) == TwoBits(dec, i)
  {
  }

  lemma TwoBitsOf(dec: seq<byte>, k: nat)
    requires |dec| == NIBBLES && k < PAIRS
    ensures TwoBits(dec, k) == dec[k] & 3 && TwoBits(dec, k + PAIRS) == (dec[k] >> 2) & 3
    ensures k + 2 * PAIRS < SECTOR ==> TwoBits(dec, k + 2 * PAIRS) == (dec[k] >> 4) & 3
  {
  }

  lemma {:induction false} ChainSmall(gcr: seq<byte>, k: nat)
    requires k <= |gcr| && forall i :: 0 <= i < |gcr| ==> Gcr6And2(gcr[i]) < 64
    ensures Chain(gcr, k) < 64
    decreases k
  {
    hide Gcr6And2;
    if k > 0 {
      ChainSmall(gcr, k - 1);
      XorSix(Chain(gcr, k - 1), Gcr6And2(gcr[k - 1]));
    }
  }

  /** What only a field from the encoder satisfies. */
  ghost predicate Canonical(gcr: seq<byte>)
    requires |gcr| == NIBBLES
  {
    && (forall k :: 0 <= k < NIBBLES ==> Listed(gcr[k]))
    && Chain(gcr, NIBBLES) == 0 && Chain(gcr, 85) < 16 && Chain(gcr, 86) < 16
  }

  lemma SixesAgain(gcr: seq<byte>)
    requires |gcr| == NIBBLES && Canonical(gcr)
    ensures Nibblized(Out(Dec(gcr))) == gcr
  {
    hide Gcr6And2, Code6, Chain, Six, Listed, Out;
    forall k | 0 <= k < NIBBLES
      ensures Gcr6And2(gcr[k]) < 64 && Code6(Gcr6And2(gcr[k])) == gcr[k]
    {
      AcceptedCodes(gcr[k]);
    }
    var dec, data := Dec(gcr), Out(Dec(gcr));
    forall k | 0 <= k < NIBBLES
      ensures dec[k] < 64
    {
      ChainSmall(gcr, k + 1);
    }
    forall k | 0 <= k < NIBBLES
      ensures Nibblized(data)[k] == gcr[k]
    {
      SixOfOut(dec, k);
      ChainStep(gcr, k);
      if k > 0 {
        SixOfOut(dec, k - 1);
      }
    }
  }

  lemma ChainStep(gcr: seq<byte>, k: nat)
    requires k < |gcr|
    ensures Chain(gcr, k + 1) ^ Chain(gcr, k) == Gcr6And2(gcr[k]) && Chain(gcr, 0) == 0
  {
  }

  /**
    Nibblizing what was decoded gives back the field exactly when all its codes
    are listed, its checksum holds, and the bits that no byte uses are zero.
   */
  lemma NibblizingInvertsDecoding(gcr: seq<byte>)
    requires |gcr| == NIBBLES
    ensures Nibblized(Out(Dec(gcr))) == gcr <==> Canonical(gcr)
  {
    hide Gcr6And2, Code6, Six, Dec, Out;
    var data := Out(Dec(gcr));
    if Nibblized(data) == gcr {
      DecodeInvertsNibblizing(data);
      forall k | 0 <= k < NIBBLES
        ensures Listed(gcr[k])
      {
        SixIsSix(data, k);
        if k > 0 {
          SixIsSix(data, k - 1);
        }
        XorSix(Six(data, k), Before(data, k));
        assert gcr[k] == Code6(Six(data, k) ^ Before(data, k));
      }
      ChainOfNibblized(data, 85);
      ChainOfNibblized(data, 86);
      SixIsSix(data, 84);
      SixIsSix(data, 85);
    }
    if Canonical(gcr) {
      SixesAgain(gcr);
    }
  }

  // ----- the count of invalid codes

  lemma {:induction false} InvalidBound(gcr: seq<byte>, k: nat)
    requires k <= |gcr|
    ensures Invalid(gcr, k) <= k
    decreases k
  {
    if k > 0 {
      InvalidBound(gcr, k - 1);
    }
  }

  /** The count reported tells whether a code was invalid, unless 256 of them were. */
  lemma InvalidReported(gcr: seq<byte>)
    requires |gcr| >= NIBBLES
    ensures (Invalid(gcr, NIBBLES) % 256 != 0 <==> exists k :: 0 <= k < NIBBLES && Gcr6And2(gcr[k]) == 128)
       <==> Invalid(gcr, NIBBLES) != 256
  {
    hide Gcr6And2;
    InvalidBound(gcr, NIBBLES);
    SomeInvalid(gcr, NIBBLES);
  }

  lemma {:induction false} SomeInvalid(gcr: seq<byte>, n: nat)
    requires n <= |gcr|
    ensures Invalid(gcr, n) > 0 <==> exists k :: 0 <= k < n && Gcr6And2(gcr[k]) == 128
    decreases n
  {
    hide Gcr6And2;
    if n > 0 {
      SomeInvalid(gcr, n - 1);
      if Gcr6And2(gcr[n - 1]) != 128 {
        assert forall k :: 0 <= k < n && Gcr6And2(gcr[k]) == 128 ==> k < n - 1;
      }
    }
  }

  /** What read_byte yields in the Apple encoding: it shifts until the top bit is set. */
  predicate Readable(gcr: seq<byte>) {
    forall i :: 0 <= i < |gcr| ==> gcr[i] >= 0x80
  }

  /** A field of 256 invalid codes and then the code for zero, all of them bytes that can be read. */
  predicate MostlyInvalid(gcr: seq<byte>) {
    |gcr| == NIBBLES && forall i :: 0 <= i < NIBBLES ==> gcr[i] == if i < 256 then 0x80 else 0x96
  }

  lemma {:induction false} ChainOfInvalid(gcr: seq<byte>, k: nat)
    requires MostlyInvalid(gcr) && k <= NIBBLES
    ensures Chain(gcr, k) == if k < 256 && k % 2 == 1 then 128 else 0
    ensures Invalid(gcr, k) == if k < 256 then k else 256
    decreases k
  {
    if k > 0 {
      ChainOfInvalid(gcr, k - 1);
      InvalidAndFirst();
    }
  }

  lemma InvalidAndFirst()
    ensures Gcr6And2(0x80) == 128 && Gcr6And2(0x96) == 0
  {
  }

  /** Such a field can be read, and passes for a good one. */
  lemma GarbageAccepted(gcr: seq<byte>)
    requires MostlyInvalid(gcr)
    ensures Readable(gcr)
    ensures Chain(gcr, NIBBLES) == 0 && Invalid(gcr, NIBBLES) == 256 && Invalid(gcr, NIBBLES) % 256 == 0
  {
    ChainOfInvalid(gcr, NIBBLES);
  }
}
