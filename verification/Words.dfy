/** The machine words shared by the modules, the bits of bytes, and a few functions of general use. */
module Words {

  datatype Option<+T> = None | Some(value: T)

  type byte = bv8

  type uint32 = n: nat | n < 0x1_0000_0000

  function Min(a: int, b: int): int {
    if a < b then a else b
  }

  function Max(a: int, b: int): int {
    if a > b then a else b
  }

  function Zeros(n: nat): (r: seq<bool>)
    ensures |r| == n
  {
    seq(n, _ => false)
  }

  // ----- sums

  function Sum(s: seq<nat>): nat
    decreases |s|
  {
    if s == [] then 0 else Sum(s[..|s| - 1]) + s[|s| - 1]
  }

  lemma SumOfNothing()
    ensures Sum([]) == 0
  {
  }

  lemma {:induction false} SumConcat(a: seq<nat>, b: seq<nat>)
    ensures Sum(a + b) == Sum(a) + Sum(b)
    decreases |b|
  {
    if b == [] {
      assert a + b == a;
    } else {
      assert (a + b)[..|a + b| - 1] == a + b[..|b| - 1];
      SumConcat(a, b[..|b| - 1]);
    }
  }

  lemma SumFirst(s: seq<nat>)
    requires s != []
    ensures Sum(s) == s[0] + Sum(s[1..])
  {
    assert s == [s[0]] + s[1..] && [s[0]][..0] == [];
    SumConcat([s[0]], s[1..]);
  }

  // ----- bytes as bits

  function ByteMask(i: nat): byte
    requires i < 8
  {
    match i
    case 0 => 0x80 case 1 => 0x40 case 2 => 0x20 case 3 => 0x10
    case 4 => 0x08 case 5 => 0x04 case 6 => 0x02 case 7 => 0x01
  }

  /** Bit i of a byte, counted from the most significant. */
  predicate ByteBit(b: byte, i: nat)
    requires i < 8
  {
    b & ByteMask(i) != 0
  }

  /** The bits of a byte, most significant first. */
  function ByteBits(b: byte): (r: seq<bool>)
    ensures |r| == 8
  {
    seq(8, i requires 0 <= i < 8 => ByteBit(b, i))
  }

  function PushBit(b: byte, bit: bool): byte {
    if bit then (b << 1) | 1 else b << 1
  }

  /** The byte that up to eight bits read most significant first make. */
  function ByteOf(bits: seq<bool>): byte
    decreases |bits|
  {
    if bits == [] then 0 else PushBit(ByteOf(bits[..|bits| - 1]), bits[|bits| - 1])
  }

  lemma BitOfPush(b: byte, bit: bool, i: nat)
    requires i < 8
    ensures ByteBit(PushBit(b, bit), i) == if i == 7 then bit else ByteBit(b, i + 1)
  {
  }

  lemma BitsOfPush(b: byte, bit: bool)
    ensures ByteBits(PushBit(b, bit)) == ByteBits(b)[1..] + [bit]
  {
    hide ByteBit, PushBit;
    forall i | 0 <= i < 8
      ensures ByteBits(PushBit(b, bit))[i] == (ByteBits(b)[1..] + [bit])[i]
    {
      BitOfPush(b, bit, i);
    }
  }

  lemma BitsOfZero()
    ensures ByteBits(0) == Zeros(8)
  {
  }

  /** A byte is its bits. */
  lemma SameBits(a: byte, b: byte)
    requires ByteBits(a) == ByteBits(b)
    ensures a == b
  {
    forall i | 0 <= i < 8
      ensures ByteBit(a, i) == ByteBit(b, i)
    {
      assert ByteBits(a)[i] == ByteBits(b)[i];
    }
    SameMasked(a, b);
  }

  lemma SameMasked(a: byte, b: byte)
    requires forall i :: 0 <= i < 8 ==> ByteBit(a, i) == ByteBit(b, i)
    ensures a == b
  {
    assert ByteBit(a, 0) == ByteBit(b, 0) && ByteBit(a, 1) == ByteBit(b, 1);
    assert ByteBit(a, 2) == ByteBit(b, 2) && ByteBit(a, 3) == ByteBit(b, 3);
    assert ByteBit(a, 4) == ByteBit(b, 4) && ByteBit(a, 5) == ByteBit(b, 5);
    assert ByteBit(a, 6) == ByteBit(b, 6) && ByteBit(a, 7) == ByteBit(b, 7);
  }

  /** The byte whose low bits are the given ones. */
  lemma {:induction false} ByteOfLowBits(bits: seq<bool>)
    requires |bits| <= 8
    ensures ByteBits(ByteOf(bits)) == Zeros(8 - |bits|) + bits
    decreases |bits|
  {
    hide ByteBits, PushBit;
    var n := |bits|;
    if n == 0 {
      BitsOfZero();
    } else {
      ByteOfLowBits(bits[..n - 1]);
      BitsOfPush(ByteOf(bits[..n - 1]), bits[n - 1]);
      assert (Zeros(9 - n) + bits[..n - 1])[1..] == Zeros(8 - n) + bits[..n - 1];
      assert bits == bits[..n - 1] + [bits[n - 1]];
    }
  }

  /** Low bits determine the byte when there are no others. */
  lemma ByteOfUnique(bits: seq<bool>, b: byte)
    requires |bits| <= 8 && ByteBits(b) == Zeros(8 - |bits|) + bits
    ensures b == ByteOf(bits)
  {
    hide ByteBits, ByteOf;
    ByteOfLowBits(bits);
    SameBits(b, ByteOf(bits));
  }

  /** Reading a byte's bits back gives the byte. */
  lemma ByteOfBits(b: byte)
    ensures ByteOf(ByteBits(b)) == b
  {
    hide ByteBits, ByteOf;
    assert Zeros(0) + ByteBits(b) == ByteBits(b);
    ByteOfUnique(ByteBits(b), b);
  }
}
