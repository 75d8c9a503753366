/** Values that the standards publish or that follow from their text, for the constants that a writer
    and its reader share. */
module CheckValues {
  import opened Bytes
  import opened Crc32
  import opened Zlib
  import opened Png
  import opened Base64

  // ------------------------------------------------------------------------------ the CRC

  /** The exponents below 32 of the generator polynomial (section 3.4 of RFC 2083). */
  const EXPONENTS: seq<nat> := [0, 1, 2, 4, 5] + [7, 8, 10, 11, 12] + [16, 22, 23, 26]

  /** The word whose bit 31 - e is set for every exponent e: the register holds the highest power in
      its lowest bit. */
  function Terms(exponents: seq<nat>): nat {
    if exponents == [] then 0
    else (if exponents[0] <= 31 then PowerOfTwo(31 - exponents[0]) else 0) + Terms(exponents[1..])
  }

  lemma {:induction false} TermsJoin(a: seq<nat>, b: seq<nat>)
    ensures Terms(a + b) == Terms(a) + Terms(b)
    decreases |a|
  {
    hide PowerOfTwo;
    if a == [] {
      assert a + b == b;
    } else {
      assert (a + b)[1..] == a[1..] + b;
      TermsJoin(a[1..], b);
    }
  }

  lemma FourTerms(a: nat, b: nat, c: nat, d: nat)
    requires a <= 31 && b <= 31 && c <= 31 && d <= 31
    ensures Terms([a, b, c, d]) == PowerOfTwo(31 - a) + PowerOfTwo(31 - b) + PowerOfTwo(31 - c) + PowerOfTwo(31 - d)
  {
    hide PowerOfTwo;
    assert [a, b, c, d][1..] == [b, c, d] && [b, c, d][1..] == [c, d] && [c, d][1..] == [d] && [d][1..] == [];
    assert Terms([d]) == PowerOfTwo(31 - d);
    assert Terms([c, d]) == PowerOfTwo(31 - c) + Terms([d]);
  }

  lemma FiveTerms(a: nat, b: nat, c: nat, d: nat, e: nat)
    requires a <= 31 && b <= 31 && c <= 31 && d <= 31 && e <= 31
    ensures Terms([a, b, c, d, e]) ==
            PowerOfTwo(31 - a) + PowerOfTwo(31 - b) + PowerOfTwo(31 - c) + PowerOfTwo(31 - d) + PowerOfTwo(31 - e)
  {
    hide PowerOfTwo;
    assert [a, b, c, d, e][1..] == [b, c, d, e];
    FourTerms(b, c, d, e);
  }

  lemma PowersOfTwo()
    ensures PowerOfTwo(9) == 0x200 && PowerOfTwo(8) == 0x100 && PowerOfTwo(5) == 0x20
    ensures PowerOfTwo(15) == 0x8000 && PowerOfTwo(16) == 0x1_0000 && PowerOfTwo(19) == 0x8_0000
    ensures PowerOfTwo(20) == 0x10_0000 && PowerOfTwo(21) == 0x20_0000 && PowerOfTwo(23) == 0x80_0000
    ensures PowerOfTwo(24) == 0x100_0000 && PowerOfTwo(26) == 0x400_0000 && PowerOfTwo(27) == 0x800_0000
    ensures PowerOfTwo(29) == 0x2000_0000 && PowerOfTwo(30) == 0x4000_0000 && PowerOfTwo(31) == 0x8000_0000
    ensures PowerOfTwo(32) == 0x1_0000_0000 && PowerOfTwo(0) == 1
  {
    assert PowerOfTwo(9) == 0x200;
    assert PowerOfTwo(15) == 0x40 * PowerOfTwo(9);
    assert PowerOfTwo(21) == 0x40 * PowerOfTwo(15);
    assert PowerOfTwo(27) == 0x40 * PowerOfTwo(21);
    assert PowerOfTwo(32) == 0x20 * PowerOfTwo(27);
  }

  lemma PolynomialTerms()
    ensures POLYNOMIAL == Terms(EXPONENTS)
  {
    PowersOfTwo();
    hide PowerOfTwo, Terms;
    TermsJoin([0, 1, 2, 4, 5] + [7, 8, 10, 11, 12], [16, 22, 23, 26]);
    TermsJoin([0, 1, 2, 4, 5], [7, 8, 10, 11, 12]);
    FiveTerms(0, 1, 2, 4, 5);
    FiveTerms(7, 8, 10, 11, 12);
    FourTerms(16, 22, 23, 26);
  }

  /** Ones leave nothing of the ones in the register. */
  lemma {:induction false} OnesCancel(j: nat, k: nat)
    ensures FeedBits(PowerOfTwo(j + k) - 1, Bits(PowerOfTwo(j) - 1, j)) == PowerOfTwo(k) - 1
    decreases j
  {
    if j > 0 {
      var c, b := PowerOfTwo(j + k) - 1, PowerOfTwo(j) - 1;
      assert c % 2 == 1 && c / 2 == PowerOfTwo(j - 1 + k) - 1;
      assert b % 2 == 1 && b / 2 == PowerOfTwo(j - 1) - 1;
      assert Bits(b, j)[1..] == Bits(b / 2, j - 1);
      OnesCancel(j - 1, k);
    }
  }

  lemma FullByte(m: nat, k: nat, b: byte)
    requires m == 8 + k && b == PowerOfTwo(8) - 1
    ensures FeedByte(PowerOfTwo(m) - 1, b) == PowerOfTwo(k) - 1
  {
    hide *;
    OnesCancel(8, k);
    FeedByteIsBits(PowerOfTwo(m) - 1, b);
  }

  /** The complement of a word. */
  lemma {:induction false} XorOnes(x: nat, k: nat)
    requires x < PowerOfTwo(k)
    ensures Xor(x, PowerOfTwo(k) - 1) == PowerOfTwo(k) - 1 - x
    decreases k
  {
    if k > 0 {
      var c := PowerOfTwo(k) - 1;
      assert c % 2 == 1 && c / 2 == PowerOfTwo(k - 1) - 1;
      XorOnes(x / 2, k - 1);
      XorBits(x, c);
    }
  }

  predicate IsFull(data: seq<byte>) {
    forall i :: 0 <= i < |data| ==> data[i] == 255
  }

  lemma {:induction false} FullBytes(data: seq<byte>, m: nat, k: nat)
    requires IsFull(data) && m == 8 * |data| + k
    ensures FeedBytes(PowerOfTwo(m) - 1, data) == PowerOfTwo(k) - 1
    decreases |data|
  {
    if data != [] {
      var rest := data[1..];
      PowersOfTwo();
      FullByte(m, m - 8, data[0]);
      FullBytes(rest, m - 8, k);
      hide PowerOfTwo, FeedByte;
    }
  }

  /** A bit alone leaves the polynomial when it falls out. */
  lemma {:induction false} LoneBit(k: nat)
    ensures Shifts(PowerOfTwo(k), k + 1) == POLYNOMIAL
    decreases k
  {
    if k == 0 {
      XorZero(POLYNOMIAL);
      assert Shifts(Shift(1), 0) == Shift(1);
    } else {
      assert Shift(PowerOfTwo(k)) == PowerOfTwo(k - 1);
      LoneBit(k - 1);
    }
  }

  /** The last bit of a byte is its highest. */
  lemma HighestBit(c: nat, b: byte)
    requires c < 1 && b == PowerOfTwo(7)
    ensures FeedByte(c, b) == POLYNOMIAL
  {
    hide *;
    NothingXor(c, b);
    LoneBit(7);
    FeedSmall(c, b);
  }

  lemma NothingXor(c: nat, x: nat)
    requires c < 1
    ensures Xor(c, x) == x && Xor(x, c) == x
  {
    XorZero(x);
    XorCommutes(x, 0);
    hide Xor;
  }

  lemma FeedSmall(c: nat, b: byte)
    requires c < 1 && Xor(c, b) == b
    ensures FeedByte(c, b) == Shifts(b, 8)
  {
    hide Xor, Shifts;
    NothingXor(c / 256, TableEntry(b));
    assert b % 256 == b && c / 256 == c;
  }

  lemma Complement(x: word)
    ensures Xor(x, ALL_ONES) == ALL_ONES - x
  {
    PowersOfTwo();
    XorOnes(x, 32);
    hide Xor, PowerOfTwo;
  }

  /** The checksum is the complement of the register. */
  lemma CrcIs(data: seq<byte>)
    ensures Crc(data) == ALL_ONES - FeedBytes(ALL_ONES, data)
  {
    FeedBytesIsBits(ALL_ONES, data);
    FeedBytesWord(ALL_ONES, data);
    hide BitStream, FeedBits, Xor, FeedBytes;
    Complement(FeedBytes(ALL_ONES, data));
  }

  /** Two values of the CRC, the second with the polynomial in it. */
  lemma CrcValues(data: seq<byte>, b: byte)
    requires |data| == 4 && IsFull(data) && b == 128
    ensures Crc(data) == 0xFFFF_FFFF
    ensures Crc(data + [b]) == 0x1247_7CDF && Terms(EXPONENTS) == 0xFFFF_FFFF - 0x1247_7CDF
  {
    hide Crc, FeedBytes, FeedByte, Terms, Xor, PowerOfTwo, IsFull;
    PolynomialTerms();
    FullRegister(data, b);
    FeedBytesSnoc(ALL_ONES, data, b);
    CrcIs(data);
    CrcIs(data + [b]);
  }

  lemma SeventhPower()
    ensures PowerOfTwo(7) == 128
  {
  }

  lemma FullRegister(data: seq<byte>, b: byte)
    requires |data| == 4 && IsFull(data) && b == 128
    ensures FeedBytes(ALL_ONES, data) < 1 && FeedByte(FeedBytes(ALL_ONES, data), b) == POLYNOMIAL
  {
    SeventhPower();
    PowersOfTwo();
    hide FeedBytes, FeedByte, Xor, PowerOfTwo, IsFull;
    FullBytes(data, 32, 0);
    HighestBit(FeedBytes(ALL_ONES, data), b);
  }

  // ------------------------------------------------------------------------- the checksum

  lemma {:induction false} FullSums(data: seq<byte>)
    requires IsFull(data)
    ensures ByteSum(data) == 255 * |data| && 2 * WeightedSum(data) == 255 * |data| * (|data| + 1)
    decreases |data|
  {
    if data != [] {
      FullSums(data[1..]);
      var n := |data|;
      assert |data[1..]| == n - 1;
      assert 255 * n * (n + 1) == 255 * (n - 1) * n + 2 * (255 * n);
    }
  }

  /** A value of Adler-32 in which both sums have passed the modulus. */
  lemma AdlerValue(data: seq<byte>)
    requires |data| == 257 && IsFull(data)
    ensures Adler(data) == 0x080F_000F
  {
    FullSums(data);
    hide ByteSum, WeightedSum, IsFull;
  }

  // -------------------------------------------------------------------------------- base64

  /** Texts of section 10 of RFC 4648, and the last two characters of the alphabet. */
  lemma Base64Values(f: byte, o: byte, b: byte)
    requires f == 102 && o == 111 && b == 98
    ensures Encode([f]) == "Zg==" && Encode([f, o]) == "Zm8=" && Encode([f, o, o]) == "Zm9v"
    ensures Encode([f, o, o, b]) == "Zm9vYg=="
    ensures Encode([251, 255]) == "+/8="
  {
    assert [f, o, o][3..] == [] && [f, o, o, b][3..] == [b];
  }

  // --------------------------------------------------------------------------- the PNG file

  /** The signature, the header chunk up to its width, the names of the other chunks, and the end. */
  lemma FileBytes(bitmap: seq<byte>, size: word)
    requires size > 0
    ensures var png := PngBytes(bitmap, size); var n := |png|;
            && 57 <= n
            && png[..8] == [137, 80, 78, 71, 13, 10, 26, 10]
            && png[8..16] == [0, 0, 0, 13, 73, 72, 68, 82]
            && png[24..29] == [8, 0, 0, 0, 0]
            && png[37..41] == [73, 68, 65, 84]
            && png[n - 12..n - 4] == [0, 0, 0, 0, 73, 69, 78, 68]
  {
    var a, b, c := ChunkBytes(Chunk(IHDR, HeaderData(size))), ChunkBytes(Chunk(IDAT, Deflate(Filter(bitmap, size)))),
                   ChunkBytes(Chunk(IEND, []));
    assert PngBytes(bitmap, size) == SIGNATURE + a + b + c;
    HeaderChunk(size);
    EndChunk();
    ChunkParts(IDAT, Deflate(Filter(bitmap, size)));
    FileSlices(SIGNATURE, a, b, c);
    hide PngBytes, ChunkBytes, Deflate, Filter, HeaderData;
  }

  lemma HeaderChunk(size: word)
    ensures var a := ChunkBytes(Chunk(IHDR, HeaderData(size)));
            |a| == 25 && a[..8] == [0, 0, 0, 13, 73, 72, 68, 82] && a[16..21] == [8, 0, 0, 0, 0]
  {
    var d := HeaderData(size);
    ChunkParts(IHDR, d);
    assert |d| == 13 && d[8..13] == [8, 0, 0, 0, 0];
    assert BigEndian(13) == [0, 0, 0, 13];
    var a := ChunkBytes(Chunk(IHDR, d));
    hide ChunkBytes, HeaderData, BigEndian;
    assert a[8..21] == d;
    ChunkStart(a);
    assert a[16..21] == a[8..21][8..13];
  }

  lemma EndChunk()
    ensures var c := ChunkBytes(Chunk(IEND, [])); |c| == 12 && c[..8] == [0, 0, 0, 0, 73, 69, 78, 68]
  {
    ChunkParts(IEND, []);
    assert BigEndian(0) == [0, 0, 0, 0];
    var c := ChunkBytes(Chunk(IEND, []));
    hide ChunkBytes, BigEndian;
    ChunkStart(c);
  }

  lemma ChunkStart(c: seq<byte>)
    requires |c| >= 8
    ensures c[..8] == c[..4] + c[4..8]
  {
  }

  lemma FileSlices(sig: seq<byte>, a: seq<byte>, b: seq<byte>, c: seq<byte>)
    requires |sig| == 8 && |a| == 25 && |b| >= 12 && |c| == 12
    ensures var png := sig + a + b + c; var n := |png|;
            && 57 <= n && png[..8] == sig && png[8..16] == a[..8] && png[24..29] == a[16..21]
            && png[37..41] == b[4..8] && png[n - 12..n - 4] == c[..8]
  {
  }

  lemma ChunkParts(kind: seq<byte>, data: seq<byte>)
    requires |kind| == 4
    ensures var s := ChunkBytes(Chunk(kind, data));
            |s| == 12 + |data| && s[..4] == BigEndian(|data| % TWO_TO_THE_32) && s[4..8] == kind && s[8..8 + |data|] == data
  {
    CrcWord(kind + data);
    hide Crc, BigEndian;
  }
}
