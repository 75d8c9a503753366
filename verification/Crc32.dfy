/** The CRC of PNG chunks: the bit-at-a-time register of section 3.4 of RFC 2083, and the
    lazily filled table that computes it a byte at a time. */
module Crc32 {
  import opened Bytes

  const POLYNOMIAL: word := 0xedb88320
  const ALL_ONES: word := 0xffffffff

  /** The polynomial added to `half` when a one fell out of the register. */
  function Reduce(one: bool, half: nat): nat {
    if one then Xor(POLYNOMIAL, half) else half
  }

  /** One shift of the register. */
  function Shift(c: nat): nat {
    Reduce(c % 2 == 1, c / 2)
  }

  function Shifts(c: nat, k: nat): nat
    decreases k
  {
    if k == 0 then c else Shifts(Shift(c), k - 1)
  }

  /** The register after one data bit: the bit is added to the one that falls out. */
  function FeedBit(c: nat, bit: bool): nat {
    Reduce((c % 2 == 1) != bit, c / 2)
  }

  function FeedBits(c: nat, bits: seq<bool>): nat
    decreases |bits|
  {
    if bits == [] then c else FeedBits(FeedBit(c, bits[0]), bits[1..])
  }

  /** The low `k` bits of `b`, least significant first, as a PNG stream sends them. */
  function Bits(b: nat, k: nat): seq<bool>
    decreases k
  {
    if k == 0 then [] else [b % 2 == 1] + Bits(b / 2, k - 1)
  }

  function BitStream(data: seq<byte>): seq<bool> {
    if data == [] then [] else Bits(data[0], 8) + BitStream(data[1..])
  }

  /** The CRC of a byte sequence by its definition, one bit at a time. */
  function Crc(data: seq<byte>): nat {
    Xor(FeedBits(ALL_ONES, BitStream(data)), ALL_ONES)
  }

  // ------------------------------------------------------------------------- linearity

  lemma ReduceLinear(x: bool, y: bool, a: nat, b: nat)
    ensures Xor(Reduce(x, a), Reduce(y, b)) == Reduce(x != y, Xor(a, b))
  {
    var p := POLYNOMIAL;
    if x && y {
      // (p ^ a) ^ (p ^ b)
      XorCommutes(p, a);
      XorAssociates(a, p, Xor(p, b));
      XorCancels(p, b);
    } else if x {
      XorAssociates(p, a, b);
    } else if y {
      XorAssociates(a, p, b);
      XorCommutes(a, p);
      XorAssociates(p, a, b);
    }
  }

  lemma ShiftLinear(a: nat, b: nat)
    ensures Shift(Xor(a, b)) == Xor(Shift(a), Shift(b))
  {
    XorBits(a, b);
    hide Xor, Reduce;
    ReduceLinear(a % 2 == 1, b % 2 == 1, a / 2, b / 2);
  }

  lemma {:induction false} ShiftsLinear(a: nat, b: nat, k: nat)
    ensures Shifts(Xor(a, b), k) == Xor(Shifts(a, k), Shifts(b, k))
    decreases k
  {
    if k > 0 {
      ShiftLinear(a, b);
      ShiftsLinear(Shift(a), Shift(b), k - 1);
    }
  }

  /** A number with `k` low zero bits is only shifted. */
  lemma {:induction false} ShiftsHigh(h: nat, k: nat)
    ensures Shifts(ShiftLeft(h, k), k) == h
    decreases k
  {
    if k > 0 {
      assert Shift(ShiftLeft(h, k)) == ShiftLeft(h, k - 1);
      ShiftsHigh(h, k - 1);
    }
  }

  /** Feeding the bits of `b` one at a time is adding all of `b` first. */
  lemma {:induction false} FeedIsXor(c: nat, b: nat, k: nat)
    requires b < PowerOfTwo(k)
    ensures FeedBits(c, Bits(b, k)) == Shifts(Xor(c, b), k)
    decreases k
  {
    if k == 0 {
      XorZero(c);
    } else {
      var c' := FeedBit(c, b % 2 == 1);
      hide Xor, Reduce;
      HalfFits(b, k);
      FeedIsXor(c', b / 2, k - 1);
      XorBits(c, b);
      hide PowerOfTwo;
      assert Bits(b, k)[1..] == Bits(b / 2, k - 1);
      // Shift(c ^ b) is FeedBit(c, low bit of b) ^ (b / 2)
      ReduceLinear((c % 2 == 1) != (b % 2 == 1), false, c / 2, b / 2);
    }
  }

  // ------------------------------------------------------------------ the lookup table

  function TableEntry(n: nat): nat {
    Shifts(n, 8)
  }

  /** What the table-driven loop makes of one byte. */
  function FeedByte(c: nat, b: nat): nat {
    Xor(TableEntry(Xor(c, b) % 256), c / 256)
  }

  /** The table-driven step is eight bit steps. */
  lemma FeedByteIsBits(c: nat, b: byte)
    ensures FeedByte(c, b) == FeedBits(c, Bits(b, 8))
  {
    hide Xor, Shifts, FeedBits, Bits;
    var x := Xor(c, b);
    ShiftLeftByte(c / 256);
    ShiftLeftByte(x / 256);
    XorLow(c % 256, c / 256, b, 8);
    XorBound(c % 256, b, 256, 8);
    assert x / 256 == c / 256;
    FeedIsXor(c, b, 8);
    XorDisjoint(x % 256, x / 256, 8);
    ShiftsLinear(x % 256, x / 256 * 256, 8);
    ShiftsHigh(x / 256, 8);
  }

  function FeedBytes(c: nat, data: seq<byte>): nat
    decreases |data|
  {
    if data == [] then c else FeedBytes(FeedByte(c, data[0]), data[1..])
  }

  lemma {:induction false} FeedBitsConcat(c: nat, a: seq<bool>, b: seq<bool>)
    ensures FeedBits(c, a + b) == FeedBits(FeedBits(c, a), b)
    decreases |a|
  {
    if a == [] {
      assert a + b == b;
    } else {
      assert (a + b)[1..] == a[1..] + b;
      FeedBitsConcat(FeedBit(c, a[0]), a[1..], b);
    }
  }

  /** The table-driven CRC is the bit-at-a-time CRC of every byte sequence. */
  lemma {:induction false} FeedBytesIsBits(c: nat, data: seq<byte>)
    ensures FeedBytes(c, data) == FeedBits(c, BitStream(data))
    decreases |data|
  {
    if data != [] {
      FeedByteIsBits(c, data[0]);
      FeedBitsConcat(c, Bits(data[0], 8), BitStream(data[1..]));
      FeedBytesIsBits(FeedByte(c, data[0]), data[1..]);
    }
  }

  lemma {:induction false} FeedBytesSnoc(c: nat, data: seq<byte>, b: byte)
    ensures FeedBytes(c, data + [b]) == FeedByte(FeedBytes(c, data), b)
    decreases |data|
  {
    if data == [] {
      assert data + [b] == [b];
      assert FeedBytes(FeedByte(c, b), [b][1..]) == FeedByte(c, b);
    } else {
      assert (data + [b])[1..] == data[1..] + [b];
      FeedBytesSnoc(FeedByte(c, data[0]), data[1..], b);
    }
  }

  // -------------------------------------------------------------------- 32-bit registers

  lemma ShiftWord(c: word)
    ensures Shift(c) < TWO_TO_THE_32
  {
    XorWord(POLYNOMIAL, c / 2);
  }

  lemma {:induction false} ShiftsWord(c: word, k: nat)
    ensures Shifts(c, k) < TWO_TO_THE_32
    decreases k
  {
    if k > 0 {
      ShiftWord(c);
      ShiftsWord(Shift(c), k - 1);
    }
  }

  lemma FeedByteWord(c: word, b: byte)
    ensures FeedByte(c, b) < TWO_TO_THE_32
  {
    var n := Xor(c, b) % 256;
    ShiftsWord(n, 8);
    XorWord(TableEntry(n), c / 256);
  }

  lemma {:induction false} FeedBytesWord(c: word, data: seq<byte>)
    ensures FeedBytes(c, data) < TWO_TO_THE_32
    decreases |data|
  {
    if data != [] {
      FeedByteWord(c, data[0]);
      FeedBytesWord(FeedByte(c, data[0]), data[1..]);
    }
  }

  lemma CrcWord(data: seq<byte>)
    ensures Crc(data) < TWO_TO_THE_32
  {
    FeedBytesIsBits(ALL_ONES, data);
    FeedBytesWord(ALL_ONES, data);
    XorWord(FeedBytes(ALL_ONES, data), ALL_ONES);
  }

  // -------------------------------------------------------------------- error detection

  /** Only a register that lost a one has its top bit set after a shift. */
  lemma ShiftInjective(a: word, b: word)
    requires Shift(a) == Shift(b)
    ensures a == b
  {
    TopBit(a / 2);
    TopBit(b / 2);
    XorCancels(POLYNOMIAL, a / 2);
    XorCancels(POLYNOMIAL, b / 2);
  }

  lemma TopBit(half: nat)
    requires half < TWO_TO_THE_31
    ensures Xor(POLYNOMIAL, half) >= TWO_TO_THE_31
  {
    hide Xor;
    ShiftLeftThirtyOne();
    XorLow(POLYNOMIAL - TWO_TO_THE_31, 1, half, 31);
  }

  lemma ShiftLeftThirtyOne()
    ensures ShiftLeft(1, 31) == PowerOfTwo(31) == TWO_TO_THE_31
  {
    assert ShiftLeft(1, 8) == PowerOfTwo(8) == 0x100;
    assert ShiftLeft(1, 16) == PowerOfTwo(16) == 0x1_0000;
    assert ShiftLeft(1, 24) == PowerOfTwo(24) == 0x100_0000;
  }

  lemma {:induction false} ShiftsInjective(a: word, b: word, k: nat)
    requires Shifts(a, k) == Shifts(b, k)
    ensures a == b
    decreases k
  {
    if k > 0 {
      ShiftWord(a);
      ShiftWord(b);
      ShiftsInjective(Shift(a), Shift(b), k - 1);
      ShiftInjective(a, b);
    }
  }

  lemma XorInjective(a: nat, x: nat, y: nat)
    requires Xor(a, x) == Xor(a, y)
    ensures x == y
  {
    XorCancels(a, x);
    XorCancels(a, y);
  }

  lemma FeedByteShifts(c: nat, b: byte)
    ensures FeedByte(c, b) == Shifts(Xor(c, b), 8)
  {
    ShiftLeftByte(0);
    FeedByteIsBits(c, b);
    FeedIsXor(c, b, 8);
  }

  /** Registers that differ still differ after the same data. */
  lemma {:induction false} FeedBytesInjective(a: word, b: word, data: seq<byte>)
    requires FeedBytes(a, data) == FeedBytes(b, data)
    ensures a == b
    decreases |data|
  {
    if data != [] {
      var d := data[0];
      FeedByteWord(a, d);
      FeedByteWord(b, d);
      FeedBytesInjective(FeedByte(a, d), FeedByte(b, d), data[1..]);
      FeedByteShifts(a, d);
      FeedByteShifts(b, d);
      XorWord(a, d);
      XorWord(b, d);
      ShiftsInjective(Xor(a, d), Xor(b, d), 8);
      XorCommutes(a, d);
      XorCommutes(b, d);
      XorInjective(d, a, b);
    }
  }

  lemma {:induction false} FeedBytesConcat(c: nat, a: seq<byte>, b: seq<byte>)
    ensures FeedBytes(c, a + b) == FeedBytes(FeedBytes(c, a), b)
    decreases |a|
  {
    if a == [] {
      assert a + b == b;
    } else {
      assert (a + b)[1..] == a[1..] + b;
      FeedBytesConcat(FeedByte(c, a[0]), a[1..], b);
    }
  }

  /** Replacing one byte of a sequence by another changes its CRC. */
  lemma DetectsByteChange(front: seq<byte>, x: byte, y: byte, back: seq<byte>)
    requires x != y
    ensures Crc(front + [x] + back) != Crc(front + [y] + back)
  {
    if Crc(front + [x] + back) == Crc(front + [y] + back) {
      var c := FeedBytes(ALL_ONES, front);
      FeedBytesWord(ALL_ONES, front);
      AfterByte(front, x, back);
      AfterByte(front, y, back);
      var a, b := FeedByte(c, x), FeedByte(c, y);
      XorCommutes(FeedBytes(a, back), ALL_ONES);
      XorCommutes(FeedBytes(b, back), ALL_ONES);
      XorInjective(ALL_ONES, FeedBytes(a, back), FeedBytes(b, back));
      FeedByteWord(c, x);
      FeedByteWord(c, y);
      FeedBytesInjective(a, b, back);
      FeedByteShifts(c, x);
      FeedByteShifts(c, y);
      XorWord(c, x);
      XorWord(c, y);
      ShiftsInjective(Xor(c, x), Xor(c, y), 8);
      XorInjective(c, x, y);
    }
  }

  lemma AfterByte(front: seq<byte>, x: byte, back: seq<byte>)
    ensures Crc(front + [x] + back) == Xor(FeedBytes(FeedByte(FeedBytes(ALL_ONES, front), x), back), ALL_ONES)
  {
    FeedBytesConcat(ALL_ONES, front + [x], back);
    FeedBytesSnoc(ALL_ONES, front, x);
    FeedBytesIsBits(ALL_ONES, front + [x] + back);
  }

  // ------------------------------------------------------------------------ the encoder

  /** One step of the inner loop of make_crc_table. */
  method ShiftRight(c: word) returns (r: word)
    ensures r == Shift(c)
  {
    ShiftWord(c);
    hide Xor;
    if c % 2 == 1 {
      r := Xor(POLYNOMIAL, c / 2);
    } else {
      r := c / 2;
    }
  }

  /** The static table of the generator and the flag that says it is filled. */
  class CrcTable {
    const entries: array<word>
    var computed: bool

    /** Whenever the flag is set every entry is the CRC of its index. */
    ghost predicate Valid()
      reads this, entries
    {
      entries.Length == 256 && (computed ==> forall n :: 0 <= n < 256 ==> entries[n] == TableEntry(n))
    }

    constructor ()
      ensures Valid() && !computed && fresh(entries)
    {
      entries := new word[256](_ => 0);
      computed := false;
    }

    /** make_crc_table */
    method Make()
      requires Valid()
      modifies this, entries
      ensures Valid() && computed
    {
      hide Xor;
      if computed {
        return;
      }
      for n := 0 to 256
        invariant !computed
        invariant forall m :: 0 <= m < n ==> entries[m] == TableEntry(m)
      {
        var c: word := n;
        for k := 0 to 8
          modifies {}
          invariant Shifts(c, 8 - k) == TableEntry(n)
        {
          c := ShiftRight(c);
        }
        assert c == TableEntry(n);
        entries[n] := c;
      }
      computed := true;
    }

    /** crc32 */
    method Compute(data: seq<byte>) returns (r: word)
      requires Valid()
      modifies this, entries
      ensures Valid() && computed
      ensures r == Crc(data)
    {
      Make();
      var c: word := ALL_ONES;
      for i := 0 to |data|
        invariant Valid() && computed
        invariant c == FeedBytes(ALL_ONES, data[..i])
      {
        var b := data[i];
        assert data[..i + 1] == data[..i] + [b];
        FeedBytesSnoc(ALL_ONES, data[..i], b);
        FeedByteWord(c, b);
        c := Xor(entries[Xor(c, b) % 256], c / 256);
      }
      assert data[..|data|] == data;
      FeedBytesIsBits(ALL_ONES, data);
      CrcWord(data);
      r := Xor(c, ALL_ONES);
    }
  }
}
