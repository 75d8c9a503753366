/** Bytes, words, byte vectors, and exclusive or. */
module Bytes {

  type byte = x: int | 0 <= x < 256

  const TWO_TO_THE_31 := 0x8000_0000
  const TWO_TO_THE_32 := 0x1_0000_0000

  type word = x: int | 0 <= x < TWO_TO_THE_32

  /** A growable vector of bytes, written in place by the encoders. */
  class ByteVector {
    var bytes: seq<byte>

    constructor ()
      ensures bytes == []
    {
      bytes := [];
    }

    method PushBack(b: byte)
      modifies this
      ensures bytes == old(bytes) + [b]
    {
      bytes := bytes + [b];
    }

    method Insert(data: seq<byte>)
      modifies this
      ensures bytes == old(bytes) + data
    {
      bytes := bytes + data;
    }
  }

  /** Addition of 32-bit words. */
  function Sum32(x: word, y: word): (r: word)
    ensures x + y < TWO_TO_THE_32 ==> r == x + y
  {
    (x + y) % TWO_TO_THE_32
  }

  // -------------------------------------------------------------------- big-endian words

  /** The four bytes of a word, most significant first. */
  function BigEndian(value: word): (r: seq<byte>)
    ensures |r| == 4
  {
    [value / 0x100_0000, value / 0x1_0000 % 0x100, value / 0x100 % 0x100, value % 0x100]
  }

  function ReadBigEndian(s: seq<byte>): word
    requires |s| >= 4
  {
    (s[0] as int) * 0x100_0000 + (s[1] as int) * 0x1_0000 + (s[2] as int) * 0x100 + s[3]
  }

  lemma WordParts(value: word)
    ensures value == value / 0x100_0000 * 0x100_0000 + value / 0x1_0000 % 0x100 * 0x1_0000 + value / 0x100 % 0x100 * 0x100 + value % 0x100
  {
    assert value / 0x1_0000 == value / 0x100_0000 * 0x100 + value / 0x1_0000 % 0x100;
    assert value / 0x100 == value / 0x1_0000 * 0x100 + value / 0x100 % 0x100;
  }

  lemma ReadWritten(value: word, rest: seq<byte>)
    ensures ReadBigEndian(BigEndian(value) + rest) == value
    ensures (BigEndian(value) + rest)[4..] == rest
  {
    WordParts(value);
    var s, t := BigEndian(value), BigEndian(value) + rest;
    assert t[0] == s[0] && t[1] == s[1] && t[2] == s[2] && t[3] == s[3];
  }

  /** write_uint32_be */
  method WriteUint32Be(data: ByteVector, value: word)
    modifies data
    ensures data.bytes == old(data.bytes) + BigEndian(value)
  {
    data.PushBack(value / 0x100_0000 % 0x100);
    data.PushBack(value / 0x1_0000 % 0x100);
    data.PushBack(value / 0x100 % 0x100);
    data.PushBack(value % 0x100);
  }

  // ------------------------------------------------------------------------ exclusive or

  /** Bitwise exclusive or of two non-negative numbers. */
  function Xor(a: nat, b: nat): (r: nat)
    decreases a + b
  {
    if a == 0 && b == 0 then 0 else (a % 2 + b % 2) % 2 + 2 * Xor(a / 2, b / 2)
  }

  lemma XorBits(a: nat, b: nat)
    ensures Xor(a, b) % 2 == (a % 2 + b % 2) % 2
    ensures Xor(a, b) / 2 == Xor(a / 2, b / 2)
  {
  }

  lemma {:induction false} XorCommutes(a: nat, b: nat)
    ensures Xor(a, b) == Xor(b, a)
    decreases a + b
  {
    if a != 0 || b != 0 {
      XorCommutes(a / 2, b / 2);
    }
  }

  lemma {:induction false} XorZero(a: nat)
    ensures Xor(a, 0) == a
    decreases a
  {
    if a != 0 {
      XorZero(a / 2);
    }
  }

  lemma {:induction false} XorSelf(a: nat)
    ensures Xor(a, a) == 0
    decreases a
  {
    if a != 0 {
      XorSelf(a / 2);
    }
  }

  /** Exclusive or of two numbers given by their low bits and the rest. */
  lemma XorCompose(x: nat, x0: nat, y: nat, y0: nat)
    requires x0 < 2 && y0 < 2
    ensures Xor(2 * x + x0, 2 * y + y0) == 2 * Xor(x, y) + (x0 + y0) % 2
  {
    assert (2 * x + x0) / 2 == x && (2 * y + y0) / 2 == y;
    assert (2 * x + x0) % 2 == x0 && (2 * y + y0) % 2 == y0;
  }

  lemma {:induction false} XorAssociates(a: nat, b: nat, c: nat)
    ensures Xor(Xor(a, b), c) == Xor(a, Xor(b, c))
    decreases a + b + c
  {
    if a != 0 || b != 0 || c != 0 {
      var a1, b1, c1 := a / 2, b / 2, c / 2;
      XorAssociates(a1, b1, c1);
      XorAssociatesStep(a1, a % 2, b1, b % 2, c1, c % 2);
    }
  }

  lemma XorAssociatesStep(a: nat, a0: nat, b: nat, b0: nat, c: nat, c0: nat)
    requires a0 < 2 && b0 < 2 && c0 < 2
    requires Xor(Xor(a, b), c) == Xor(a, Xor(b, c))
    ensures var x, y, z := 2 * a + a0, 2 * b + b0, 2 * c + c0; Xor(Xor(x, y), z) == Xor(x, Xor(y, z))
  {
    hide Xor;
    XorCompose(a, a0, b, b0);
    XorCompose(b, b0, c, c0);
    XorCompose(Xor(a, b), (a0 + b0) % 2, c, c0);
    XorCompose(a, a0, Xor(b, c), (b0 + c0) % 2);
  }

  /** Exclusive or never sets a bit above those of its operands. */
  lemma {:induction false} XorBound(a: nat, b: nat, bound: nat, k: nat)
    requires bound == PowerOfTwo(k) && a < bound && b < bound
    ensures Xor(a, b) < bound
    decreases k
  {
    if a != 0 || b != 0 {
      XorBound(a / 2, b / 2, bound / 2, k - 1);
    }
  }

  function ShiftLeft(x: nat, k: nat): nat
    decreases k
  {
    if k == 0 then x else 2 * ShiftLeft(x, k - 1)
  }

  lemma ShiftLeftByte(x: nat)
    ensures ShiftLeft(x, 8) == 256 * x && PowerOfTwo(8) == 256
  {
    assert ShiftLeft(x, 4) == 16 * x && PowerOfTwo(4) == 16;
  }

  /** The low bits of a number and the rest of it do not overlap. */
  lemma {:induction false} XorDisjoint(low: nat, high: nat, k: nat)
    requires low < PowerOfTwo(k)
    ensures Xor(low, ShiftLeft(high, k)) == ShiftLeft(high, k) + low
    decreases k
  {
    if k == 0 {
      XorCommutes(0, high);
      XorZero(high);
    } else {
      var half := ShiftLeft(high, k - 1);
      ShiftedHalf(high, k);
      HalfFits(low, k);
      hide Xor, ShiftLeft, PowerOfTwo;
      XorDisjoint(low / 2, high, k - 1);
      XorEven(low, half);
    }
  }

  lemma XorEven(a: nat, b: nat)
    ensures Xor(a, 2 * b) == 2 * Xor(a / 2, b) + a % 2
  {
    hide Xor;
    XorCompose(a / 2, a % 2, b, 0);
  }

  /** Adding a number of `k` bits leaves what is above them alone. */
  lemma ShiftedHalf(x: nat, k: nat)
    requires k > 0
    ensures ShiftLeft(x, k) == 2 * ShiftLeft(x, k - 1)
  {
  }

  lemma HalfFits(b: nat, k: nat)
    requires k > 0 && b < PowerOfTwo(k)
    ensures b / 2 < PowerOfTwo(k - 1)
  {
  }

  lemma XorNothing(high: nat, low: nat, b: nat)
    requires low < PowerOfTwo(0) && b < PowerOfTwo(0)
    ensures Xor(ShiftLeft(high, 0) + low, b) == ShiftLeft(high, 0) + Xor(low, b)
  {
    XorZero(high);
    assert Xor(0, 0) == 0;
  }

  lemma {:induction false} XorLow(low: nat, high: nat, b: nat, k: nat)
    requires low < PowerOfTwo(k) && b < PowerOfTwo(k)
    ensures Xor(ShiftLeft(high, k) + low, b) == ShiftLeft(high, k) + Xor(low, b)
    decreases k
  {
    hide Xor, ShiftLeft, PowerOfTwo;
    if k == 0 {
      XorNothing(high, low, b);
    } else {
      var half := ShiftLeft(high, k - 1);
      ShiftedHalf(high, k);
      HalfFits(low, k);
      HalfFits(b, k);
      XorLow(low / 2, high, b / 2, k - 1);
      XorCompose(half + low / 2, low % 2, b / 2, b % 2);
      XorCompose(low / 2, low % 2, b / 2, b % 2);
    }
  }

  /** Bitwise or of two non-negative numbers. */
  function Or(a: nat, b: nat): (r: nat)
    decreases a + b
  {
    if a == 0 && b == 0 then 0 else (if a % 2 + b % 2 > 0 then 1 else 0) + 2 * Or(a / 2, b / 2)
  }

  /** Numbers whose exclusive or is their sum share no bit, so their or is the sum too. */
  lemma {:induction false} OrOfDisjoint(a: nat, b: nat)
    ensures Xor(a, b) <= a + b
    ensures Xor(a, b) == a + b ==> Or(a, b) == a + b
    decreases a + b
  {
    if a != 0 || b != 0 {
      OrOfDisjoint(a / 2, b / 2);
    }
  }

  function PowerOfTwo(k: nat): (r: nat)
    ensures r > 0
  {
    if k == 0 then 1 else 2 * PowerOfTwo(k - 1)
  }

  /** a ^ (a ^ b) == b */
  lemma XorCancels(a: nat, b: nat)
    ensures Xor(a, Xor(a, b)) == b
  {
    XorAssociates(a, a, b);
    XorSelf(a);
    XorCommutes(0, b);
    XorZero(b);
  }

  lemma XorWord(a: word, b: word)
    ensures Xor(a, b) < TWO_TO_THE_32
  {
    assert PowerOfTwo(32) == TWO_TO_THE_32 by {
      assert PowerOfTwo(8) == 256;
      assert PowerOfTwo(16) == 65536;
      assert PowerOfTwo(24) == 0x100_0000;
    }
    XorBound(a, b, TWO_TO_THE_32, 32);
  }
}
