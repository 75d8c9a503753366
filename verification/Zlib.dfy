/** The zlib stream of section 2.2 of RFC 1950 around the stored blocks of section 3.2.4 of
    RFC 1951: a decoder, and the encoder that compresses nothing. */
module Zlib {
  import opened Wrappers
  import opened Bytes

  const MOD_ADLER := 65521
  const MAX_STORED := 65535

  // --------------------------------------------------------------------------- Adler-32

  function ByteSum(data: seq<byte>): nat {
    if data == [] then 0 else data[0] + ByteSum(data[1..])
  }

  /** Every byte counted once for each position from its own to the end. */
  function WeightedSum(data: seq<byte>): nat {
    if data == [] then 0 else |data| * data[0] + WeightedSum(data[1..])
  }

  /** The two sums of the checksum in closed form. */
  function AdlerA(data: seq<byte>): (r: nat)
    ensures r < MOD_ADLER
  {
    (1 + ByteSum(data)) % MOD_ADLER
  }

  function AdlerB(data: seq<byte>): (r: nat)
    ensures r < MOD_ADLER
  {
    (|data| + WeightedSum(data)) % MOD_ADLER
  }

  /** The second sum in the high half of the word, the first in the low half. */
  function Adler(data: seq<byte>): word {
    AdlerB(data) * 0x1_0000 + AdlerA(data)
  }

  lemma {:induction false} SumsSnoc(data: seq<byte>, b: byte)
    ensures ByteSum(data + [b]) == ByteSum(data) + b
    ensures WeightedSum(data + [b]) == WeightedSum(data) + ByteSum(data) + b
    decreases |data|
  {
    var e := data + [b];
    if data == [] {
      assert e[1..] == [];
    } else {
      var n, x, rest := |data|, data[0], data[1..];
      assert e[0] == x && e[1..] == rest + [b];
      SumsSnoc(rest, b);
      assert |e| * x == n * x + x;
    }
  }

  lemma ModSum(x: nat, y: nat)
    ensures (x % MOD_ADLER + y) % MOD_ADLER == (x + y) % MOD_ADLER
  {
    assert x == x / MOD_ADLER * MOD_ADLER + x % MOD_ADLER;
  }

  /** One byte of the running sums. */
  lemma AdlerSnoc(data: seq<byte>, b: byte)
    ensures AdlerA(data + [b]) == (AdlerA(data) + b) % MOD_ADLER
    ensures AdlerB(data + [b]) == (AdlerB(data) + AdlerA(data + [b])) % MOD_ADLER
  {
    SumsSnoc(data, b);
    assert |data + [b]| == |data| + 1;
    hide ByteSum, WeightedSum;
    RunningSums(1 + ByteSum(data), |data| + WeightedSum(data), b);
  }

  lemma RunningSums(a: nat, w: nat, b: nat)
    ensures (a + b) % MOD_ADLER == (a % MOD_ADLER + b) % MOD_ADLER
    ensures (w + (a + b)) % MOD_ADLER == (w % MOD_ADLER + (a + b) % MOD_ADLER) % MOD_ADLER
  {
    ModSum(a, b);
    ModSum(w, a + b);
    ModSum(a + b, w % MOD_ADLER);
  }

  /** adler32: no sum leaves 32 bits, and the two halves of the result do not overlap. */
  method Adler32(data: seq<byte>) returns (r: word)
    ensures r == Adler(data)
  {
    var a: word, b: word := 1, 0;
    AdlerEmpty();
    hide Xor, Or, ShiftLeft, AdlerA, AdlerB, Sum32;
    for i := 0 to |data|
      invariant a == AdlerA(data[..i]) && b == AdlerB(data[..i])
    {
      AdlerSnoc(data[..i], data[i]);
      assert data[..i + 1] == data[..i] + [data[i]];
      assert a + data[i] < TWO_TO_THE_32;
      a := Sum32(a, data[i]) % MOD_ADLER;
      assert b + a < TWO_TO_THE_32;
      b := Sum32(b, a) % MOD_ADLER;
    }
    assert data[..|data|] == data;
    Halves(b, a);
    r := Or(ShiftLeft(b, 16), a);
  }

  lemma AdlerEmpty()
    ensures AdlerA([]) == 1 && AdlerB([]) == 0
  {
  }

  lemma ShiftLeftHalf(x: nat)
    ensures ShiftLeft(x, 16) == 0x1_0000 * x && PowerOfTwo(16) == 0x1_0000
  {
    assert ShiftLeft(x, 8) == 0x100 * x && PowerOfTwo(8) == 0x100;
  }

  /** The halves of a word do not overlap, so joining them bit by bit adds them. */
  lemma Halves(high: nat, low: nat)
    requires low < 0x1_0000
    ensures Or(ShiftLeft(high, 16), low) == high * 0x1_0000 + low
  {
    ShiftLeftHalf(high);
    XorDisjoint(low, high, 16);
    hide Xor, Or, ShiftLeft, PowerOfTwo;
    XorCommutes(low, ShiftLeft(high, 16));
    OrOfDisjoint(ShiftLeft(high, 16), low);
  }

  // ------------------------------------------------------------------------ the decoder

  datatype StoredBlock = StoredBlock(final: bool, payload: seq<byte>)

  datatype Inflated = Inflated(blocks: seq<StoredBlock>, rest: seq<byte>)

  /** One stored block: the header bits, the length and its complement, the bytes. */
  function ReadBlock(s: seq<byte>): Option<(StoredBlock, seq<byte>)> {
    if |s| < 5 then None
    else
      var len := s[1] as int + 0x100 * s[2] as int;
      var nlen := s[3] as int + 0x100 * s[4] as int;
      if s[0] / 2 % 4 != 0 || nlen != 0xFFFF - len || |s| < 5 + len then None
      else Some((StoredBlock(s[0] % 2 == 1, s[5..5 + len]), s[5 + len..]))
  }

  /** The blocks up to and including the one marked final. */
  function ReadBlocks(s: seq<byte>): Option<Inflated>
    decreases |s|
  {
    var (b, rest) :- ReadBlock(s);
    if b.final then Some(Inflated([b], rest))
    else
      var more :- ReadBlocks(rest);
      Some(Inflated([b] + more.blocks, more.rest))
  }

  function Payload(blocks: seq<StoredBlock>): seq<byte> {
    if blocks == [] then [] else blocks[0].payload + Payload(blocks[1..])
  }

  /** The first two bytes of a zlib stream. */
  predicate IsHeader(cmf: byte, flags: byte) {
    cmf % 16 == 8 && cmf / 16 <= 7 && (cmf * 256 + flags) % 31 == 0 && flags / 32 % 2 == 0
  }

  /** A whole zlib stream: header, blocks, checksum, and nothing after it. */
  function Inflate(z: seq<byte>): Option<seq<byte>> {
    if |z| < 2 then None
    else if !IsHeader(z[0], z[1]) then None
    else
      var r :- ReadBlocks(z[2..]);
      var data := Payload(r.blocks);
      if |r.rest| == 4 && ReadBigEndian(r.rest) == Adler(data) then Some(data) else None
  }

  // ------------------------------------------------------------------------ the encoder

  function BlockHeader(final: bool, len: nat): seq<byte>
    requires len <= MAX_STORED
  {
    var nlen := 0xFFFF - len;
    [if final then 1 else 0, len % 0x100, len / 0x100, nlen % 0x100, nlen / 0x100]
  }

  /** The data cut into pieces of 65535 bytes, the last one marked. */
  function Pieces(data: seq<byte>): seq<StoredBlock>
    decreases |data|
  {
    if data == [] then []
    else if |data| <= MAX_STORED then [StoredBlock(true, data)]
    else [StoredBlock(false, data[..MAX_STORED])] + Pieces(data[MAX_STORED..])
  }

  function WriteBlocks(blocks: seq<StoredBlock>): seq<byte>
    requires forall b :: b in blocks ==> |b.payload| <= MAX_STORED
  {
    if blocks == [] then []
    else BlockHeader(blocks[0].final, |blocks[0].payload|) + blocks[0].payload + WriteBlocks(blocks[1..])
  }

  lemma {:induction false} PiecesFit(data: seq<byte>)
    ensures forall b :: b in Pieces(data) ==> |b.payload| <= MAX_STORED
    decreases |data|
  {
    if |data| > MAX_STORED {
      PiecesFit(data[MAX_STORED..]);
    }
  }

  function StoredBlocks(data: seq<byte>): seq<byte> {
    PiecesFit(data);
    WriteBlocks(Pieces(data))
  }

  function Deflate(data: seq<byte>): seq<byte> {
    [0x78, 0x01] + StoredBlocks(data) + BigEndian(Adler(data))
  }

  /** Exactly ceil(n / 65535) pieces; only the last is final; together they are the data. */
  lemma {:induction false} PiecesCover(data: seq<byte>)
    ensures Payload(Pieces(data)) == data
    ensures |Pieces(data)| == (|data| + MAX_STORED - 1) / MAX_STORED
    ensures forall i :: 0 <= i < |Pieces(data)| ==> (Pieces(data)[i].final <==> i == |Pieces(data)| - 1)
    decreases |data|
  {
    if data == [] {
    } else if |data| <= MAX_STORED {
      assert [StoredBlock(true, data)][1..] == [];
      assert data + [] == data;
    } else {
      PiecesCover(data[MAX_STORED..]);
    }
  }

  lemma ReadWrittenBlock(b: StoredBlock, rest: seq<byte>)
    requires |b.payload| <= MAX_STORED
    ensures ReadBlock(BlockHeader(b.final, |b.payload|) + b.payload + rest) == Some((b, rest))
  {
    var len := |b.payload|;
    var h := BlockHeader(b.final, len);
    var s := h + b.payload + rest;
    assert s[0] == h[0] && s[1] == h[1] && s[2] == h[2] && s[3] == h[3] && s[4] == h[4];
    assert s[5..5 + len] == b.payload && s[5 + len..] == rest;
  }

  /** The decoder finds the pieces again, however many there are. */
  lemma {:induction false} ReadStored(data: seq<byte>, rest: seq<byte>)
    requires data != []
    ensures ReadBlocks(StoredBlocks(data) + rest) == Some(Inflated(Pieces(data), rest))
    decreases |data|
  {
    PiecesFit(data);
    var b, more := Pieces(data)[0], Pieces(data)[1..];
    var h := BlockHeader(b.final, |b.payload|);
    var after := WriteBlocks(more) + rest;
    assert StoredBlocks(data) + rest == h + b.payload + after;
    ReadWrittenBlock(b, after);
    if |data| <= MAX_STORED {
      assert more == [];
      assert after == rest;
    } else {
      assert more == Pieces(data[MAX_STORED..]);
      ReadStored(data[MAX_STORED..], rest);
    }
  }

  /** Inflating what was deflated gives the data back exactly when there was some: no
      block is written for empty data, and a stream without a final block is not one. */
  lemma InflateDeflate(data: seq<byte>)
    ensures Inflate(Deflate(data)) == Some(data) <==> data != []
  {
    var z, trailer := Deflate(data), BigEndian(Adler(data));
    var body := StoredBlocks(data) + trailer;
    assert z == [0x78, 0x01] + body;
    InflateBody(z, body);
    hide Inflate, Deflate, Adler, BigEndian, StoredBlocks;
    if data != [] {
      assert trailer + [] == trailer;
      ReadWritten(Adler(data), []);
      ReadStored(data, trailer);
      PiecesCover(data);
    } else {
      NoBlock(Adler(data));
      assert body == trailer;
    }
  }

  /** What stands behind the two bytes of a stream's header decides. */
  lemma InflateBody(z: seq<byte>, body: seq<byte>)
    requires z == [0x78, 0x01] + body
    ensures var r := ReadBlocks(body);
            Inflate(z) == if r.Some? && |r.value.rest| == 4 && ReadBigEndian(r.value.rest) == Adler(Payload(r.value.blocks))
                          then Some(Payload(r.value.blocks)) else None
  {
    assert IsHeader(0x78, 0x01);
    hide IsHeader, ReadBlocks, ReadBigEndian, Adler, Payload;
    assert z[0] == 0x78 && z[1] == 0x01 && z[2..] == body;
  }

  /** A check value alone is not a block. */
  lemma NoBlock(w: word)
    ensures ReadBlock(BigEndian(w)).None?
  {
  }

  /** One iteration of the encoder writes the first piece of what is left. */
  lemma StoredStep(data: seq<byte>, n: nat, final: bool)
    requires data != [] && n == (if MAX_STORED < |data| then MAX_STORED else |data|) && (final <==> n == |data|)
    ensures StoredBlocks(data) == BlockHeader(final, n) + data[..n] + StoredBlocks(data[n..])
  {
    PiecesFit(data);
    if |data| <= MAX_STORED {
      assert data[..n] == data && data[n..] == [];
      assert Pieces(data)[1..] == [];
    } else {
      assert Pieces(data)[1..] == Pieces(data[n..]);
    }
  }

  lemma ComplementBytes(n: nat, nlen: nat)
    requires n <= MAX_STORED && nlen == (0x1_0000_0000_0000_0000 - 1 - n) % 0x1_0000
    ensures nlen == 0xFFFF - n
  {
  }

  lemma TrailerBytes(front: seq<byte>, adler: word)
    ensures front + [adler / 0x100_0000 % 0x100] + [adler / 0x1_0000 % 0x100] + [adler / 0x100 % 0x100] + [adler % 0x100] ==
            front + BigEndian(adler)
  {
    assert adler / 0x100_0000 % 0x100 == adler / 0x100_0000;
  }

  /** simple_deflate */
  method SimpleDeflate(data: seq<byte>) returns (result: seq<byte>)
    ensures result == Deflate(data)
  {
    hide StoredBlocks;
    result := [0x78];
    result := result + [0x01];
    var pos := 0;
    assert data[0..] == data;
    while pos < |data|
      invariant 0 <= pos <= |data|
      invariant [0x78, 0x01] + StoredBlocks(data) == result + StoredBlocks(data[pos..])
    {
      var blockSize := if MAX_STORED < |data| - pos then MAX_STORED else |data| - pos;
      var isLast := pos + blockSize >= |data|;
      StoredStep(data[pos..], blockSize, isLast);
      result := WriteBlock(result, data, pos, blockSize, isLast);
      assert data[pos..][..blockSize] == data[pos..pos + blockSize];
      assert data[pos..][blockSize..] == data[pos + blockSize..];
      pos := pos + blockSize;
    }
    StoredNothing();
    assert data[pos..] == [];
    var adler := Adler32(data);
    TrailerBytes(result, adler);
    result := result + [adler / 0x100_0000 % 0x100];
    result := result + [adler / 0x1_0000 % 0x100];
    result := result + [adler / 0x100 % 0x100];
    result := result + [adler % 0x100];
  }

  lemma StoredNothing()
    ensures StoredBlocks([]) == []
  {
  }

  lemma HeaderPushed(start: seq<byte>, final: bool, n: nat, nlen: nat)
    requires n <= MAX_STORED && nlen == 0xFFFF - n
    ensures start + [if final then 0x01 else 0x00] + [n % 0x100] + [n / 0x100 % 0x100] + [nlen % 0x100] + [nlen / 0x100 % 0x100] ==
            start + BlockHeader(final, n)
  {
  }

  /** The bytes of one block, pushed one by one. */
  method WriteBlock(start: seq<byte>, data: seq<byte>, pos: nat, blockSize: nat, isLast: bool) returns (result: seq<byte>)
    requires pos + blockSize <= |data| && blockSize <= MAX_STORED
    ensures result == start + (BlockHeader(isLast, blockSize) + data[pos..pos + blockSize])
  {
    result := start + [if isLast then 0x01 else 0x00];
    result := result + [blockSize % 0x100];
    result := result + [blockSize / 0x100 % 0x100];
    var nlen := (0x1_0000_0000_0000_0000 - 1 - blockSize) % 0x1_0000;
    ComplementBytes(blockSize, nlen);
    result := result + [nlen % 0x100];
    result := result + [nlen / 0x100 % 0x100];
    HeaderPushed(start, isLast, blockSize, nlen);
    result := result + data[pos..pos + blockSize];
  }
}
