/** The PNG files the server writes: signature, IHDR, one IDAT and IEND chunk (sections 3.2,
    4.1 and 15 of RFC 2083), with a decoder that checks lengths, CRCs, header fields and
    filter bytes. */
module Png {
  import opened Wrappers
  import opened Sequences
  import opened Bytes
  import opened Crc32
  import opened Zlib

  const SIGNATURE: seq<byte> := [0x89, 0x50, 0x4E, 0x47, 0x0D, 0x0A, 0x1A, 0x0A]
  const IHDR: seq<byte> := [0x49, 0x48, 0x44, 0x52]
  const IDAT: seq<byte> := [0x49, 0x44, 0x41, 0x54]
  const IEND: seq<byte> := [0x49, 0x45, 0x4E, 0x44]

  datatype Chunk = Chunk(kind: seq<byte>, data: seq<byte>)

  datatype Image = Image(width: nat, height: nat, pixels: seq<byte>)

  // ------------------------------------------------------------------------- the decoder

  /** One chunk whose length is legal and whose CRC agrees. */
  function ReadChunk(s: seq<byte>): Option<(Chunk, seq<byte>)> {
    if |s| < 12 then None
    else
      var len := ReadBigEndian(s);
      if len >= TWO_TO_THE_31 || |s| < 12 + len then None
      else
        var kind, data, rest := s[4..8], s[8..8 + len], s[8 + len..];
        if ReadBigEndian(rest) == Crc(kind + data) then Some((Chunk(kind, data), rest[4..])) else None
  }

  function ReadChunks(s: seq<byte>): Option<seq<Chunk>>
    decreases |s|
  {
    if s == [] then Some([])
    else
      var (c, rest) :- ReadChunk(s);
      var more :- ReadChunks(rest);
      Some([c] + more)
  }

  /** The concatenated data of a run of IDAT chunks. */
  function ImageData(cs: seq<Chunk>): Option<seq<byte>> {
    if cs == [] then Some([])
    else if cs[0].kind != IDAT then None
    else
      var more :- ImageData(cs[1..]);
      Some(cs[0].data + more)
  }

  /** Rows of `width` pixels, each after a filter byte of type None. */
  function Unfilter(raw: seq<byte>, width: nat, height: nat): Option<seq<byte>> {
    if height == 0 then if raw == [] then Some([]) else None
    else if |raw| < 1 + width || raw[0] != 0 then None
    else
      var more :- Unfilter(raw[1 + width..], width, height - 1);
      Some(raw[1..1 + width] + more)
  }

  /** A complete non-interlaced 8-bit greyscale image. */
  function DecodePng(png: seq<byte>): Option<Image> {
    if |png| < 8 || png[..8] != SIGNATURE then None
    else
      var cs :- ReadChunks(png[8..]);
      var n := |cs|;
      if n < 3 || cs[0].kind != IHDR || |cs[0].data| != 13 || cs[n - 1] != Chunk(IEND, []) then None
      else
        var h := cs[0].data;
        var width, height := ReadBigEndian(h), ReadBigEndian(h[4..]);
        if width == 0 || height == 0 || h[8..] != [8, 0, 0, 0, 0] then None
        else
          var z :- ImageData(cs[1..n - 1]);
          var raw :- Inflate(z);
          var pixels :- Unfilter(raw, width, height);
          Some(Image(width, height, pixels))
  }

  // ------------------------------------------------------------------------- the encoder

  function ChunkBytes(c: Chunk): seq<byte> {
    CrcWord(c.kind + c.data);
    BigEndian(|c.data| % TWO_TO_THE_32) + c.kind + c.data + BigEndian(Crc(c.kind + c.data))
  }

  /** Rows of `width` pixels with a zero byte before each. */
  function Filter(pixels: seq<byte>, width: nat): seq<byte>
    decreases |pixels|
  {
    if width == 0 || |pixels| < width then []
    else [0] + pixels[..width] + Filter(pixels[width..], width)
  }

  function HeaderData(size: word): seq<byte> {
    BigEndian(size) + BigEndian(size) + [8, 0, 0, 0, 0]
  }

  function PngBytes(bitmap: seq<byte>, size: word): seq<byte> {
    SIGNATURE
    + ChunkBytes(Chunk(IHDR, HeaderData(size)))
    + ChunkBytes(Chunk(IDAT, Deflate(Filter(bitmap, size))))
    + ChunkBytes(Chunk(IEND, []))
  }

  /** A laid-out chunk is accepted exactly when its CRC is that of its type and data. */
  lemma ReadLaidOut(n: nat, body: seq<byte>, crc: word, rest: seq<byte>)
    requires n < TWO_TO_THE_31 && |body| == 4 + n
    ensures ReadChunk(BigEndian(n) + (body + (BigEndian(crc) + rest))) ==
            if crc == Crc(body) then Some((Chunk(body[..4], body[4..]), rest)) else None
  {
    hide Crc, BigEndian, ReadBigEndian;
    var after := BigEndian(crc) + rest;
    var s := BigEndian(n) + (body + after);
    ReadWritten(n, body + after);
    ReadWritten(crc, rest);
    assert s[4..8] == body[..4] && s[8..8 + n] == body[4..] && s[8 + n..] == after;
    assert body[..4] + body[4..] == body;
  }

  /** The chunk writer's output is read back as the chunk that was written. */
  lemma ReadWrittenChunk(c: Chunk, rest: seq<byte>)
    requires |c.kind| == 4 && |c.data| < TWO_TO_THE_31
    ensures ReadChunk(ChunkBytes(c) + rest) == Some((c, rest))
  {
    CrcWord(c.kind + c.data);
    hide Crc, BigEndian, ReadBigEndian, ReadChunk;
    var n, body := |c.data|, c.kind + c.data;
    ReadLaidOut(n, body, Crc(body), rest);
    assert ChunkBytes(c) + rest == BigEndian(n) + (body + (BigEndian(Crc(body)) + rest));
    assert body[..4] == c.kind && body[4..] == c.data;
  }

  /** A chunk in which one byte of the type or data was replaced is refused. */
  lemma CorruptChunkRefused(c: Chunk, i: nat, b: byte, rest: seq<byte>)
    requires |c.kind| == 4 && |c.data| < TWO_TO_THE_31
    requires 4 <= i < 8 + |c.data| && ChunkBytes(c)[i] != b
    ensures ReadChunk(ChunkBytes(c)[i := b] + rest).None?
  {
    CrcWord(c.kind + c.data);
    hide Crc, BigEndian, ReadBigEndian, ReadChunk;
    var n, good := |c.data|, c.kind + c.data;
    var bad := good[i - 4 := b];
    assert ChunkBytes(c) == BigEndian(n) + (good + BigEndian(Crc(good)));
    assert ChunkBytes(c)[i] == good[i - 4];
    assert ChunkBytes(c)[i := b] + rest == BigEndian(n) + (bad + (BigEndian(Crc(good)) + rest));
    ReadLaidOut(n, bad, Crc(good), rest);
    var front, back := good[..i - 4], good[i - 3..];
    assert good == front + [good[i - 4]] + back && bad == front + [b] + back;
    DetectsByteChange(front, good[i - 4], b, back);
  }

  lemma {:induction false} UnfilterFilter(pixels: seq<byte>, width: nat, height: nat)
    requires width > 0 && |pixels| == width * height
    ensures Unfilter(Filter(pixels, width), width, height) == Some(pixels)
    ensures height > 0 ==> Filter(pixels, width) != []
    decreases height
  {
    if height == 0 {
      assert |pixels| == 0;
    } else {
      var row, below := pixels[..width], pixels[width..];
      assert width * height == width + width * (height - 1);
      UnfilterFilter(below, width, height - 1);
      var raw := Filter(pixels, width);
      assert raw == [0] + row + Filter(below, width);
      assert raw[0] == 0 && raw[1..1 + width] == row && raw[1 + width..] == Filter(below, width);
      assert pixels == row + below;
    }
  }

  lemma HeaderFields(size: word)
    ensures var h := HeaderData(size);
            |h| == 13 && ReadBigEndian(h) == size && ReadBigEndian(h[4..]) == size && h[8..] == [8, 0, 0, 0, 0]
  {
    hide BigEndian, ReadBigEndian;
    var tail: seq<byte> := [8, 0, 0, 0, 0];
    var h := HeaderData(size);
    assert h == BigEndian(size) + (BigEndian(size) + tail);
    ReadWritten(size, BigEndian(size) + tail);
    ReadWritten(size, tail);
    assert h[8..] == h[4..][4..];
  }

  /** The three chunks of a file are read back. */
  lemma ReadThree(a: Chunk, b: Chunk, c: Chunk)
    requires |a.kind| == |b.kind| == |c.kind| == 4
    requires |a.data| < TWO_TO_THE_31 && |b.data| < TWO_TO_THE_31 && |c.data| < TWO_TO_THE_31
    ensures ReadChunks(ChunkBytes(a) + (ChunkBytes(b) + ChunkBytes(c))) == Some([a, b, c])
  {
    NoChunks();
    hide ChunkBytes, ReadChunks;
    ReadOneMore(c, [], []);
    assert ChunkBytes(c) + [] == ChunkBytes(c) && [c] + [] == [c];
    ReadOneMore(b, ChunkBytes(c), [c]);
    assert [b] + [c] == [b, c];
    ReadOneMore(a, ChunkBytes(b) + ChunkBytes(c), [b, c]);
    assert [a] + [b, c] == [a, b, c];
  }

  lemma NoChunks()
    ensures ReadChunks([]) == Some([])
  {
  }

  lemma ReadOneMore(c: Chunk, rest: seq<byte>, cs: seq<Chunk>)
    requires |c.kind| == 4 && |c.data| < TWO_TO_THE_31
    requires ReadChunks(rest) == Some(cs)
    ensures ReadChunks(ChunkBytes(c) + rest) == Some([c] + cs)
  {
    ReadWrittenChunk(c, rest);
    assert ReadChunks([]) == Some([]);
    assert ChunkBytes(c) + rest != [];
    hide ChunkBytes, ReadChunk;
  }

  /** What the decoder makes of a file with the writer's three chunks. */
  lemma DecodeThree(png: seq<byte>, body: seq<byte>, size: word, z: seq<byte>, raw: seq<byte>, pixels: seq<byte>)
    requires png == SIGNATURE + body && size > 0
    requires ReadChunks(body) == Some([Chunk(IHDR, HeaderData(size)), Chunk(IDAT, z), Chunk(IEND, [])])
    requires Inflate(z) == Some(raw) && Unfilter(raw, size, size) == Some(pixels)
    ensures DecodePng(png) == Some(Image(size, size, pixels))
  {
    HeaderFields(size);
    hide ReadChunks, Inflate, Unfilter, HeaderData, ReadBigEndian, ImageData;
    assert png[..8] == SIGNATURE && png[8..] == body;
    var b := Chunk(IDAT, z);
    var cs := [Chunk(IHDR, HeaderData(size)), b, Chunk(IEND, [])];
    assert cs[1..2] == [b];
    SingleImageData(b);
  }

  /** A written image decodes to its pixels while the IDAT chunk keeps a legal length. */
  lemma DecodeWritten(bitmap: seq<byte>, size: word)
    requires size > 0 && |bitmap| == size * size
    requires |Deflate(Filter(bitmap, size))| < TWO_TO_THE_31
    ensures DecodePng(PngBytes(bitmap, size)) == Some(Image(size, size, bitmap))
  {
    var raw := Filter(bitmap, size);
    UnfilterFilter(bitmap, size, size);
    hide Deflate, Inflate, Filter, Unfilter, ChunkBytes, ReadChunks, DecodePng;
    InflateDeflate(raw);
    HeaderFields(size);
    var a, b, c := Chunk(IHDR, HeaderData(size)), Chunk(IDAT, Deflate(raw)), Chunk(IEND, []);
    ReadThree(a, b, c);
    var body := ChunkBytes(a) + (ChunkBytes(b) + ChunkBytes(c));
    Regroup(SIGNATURE, ChunkBytes(a), ChunkBytes(b), ChunkBytes(c));
    DecodeThree(SIGNATURE + body, body, size, Deflate(raw), raw, bitmap);
  }

  lemma SingleImageData(b: Chunk)
    requires b.kind == IDAT
    ensures ImageData([b]) == Some(b.data)
  {
    assert [b][1..] == [];
    assert b.data + [] == b.data;
  }

  /** write_png_chunk */
  method WritePngChunk(png: ByteVector, kind: seq<byte>, data: seq<byte>, table: CrcTable)
    requires table.Valid()
    modifies png, table, table.entries
    ensures table.Valid()
    ensures png.bytes == old(png.bytes) + ChunkBytes(Chunk(kind, data))
  {
    hide Crc, BigEndian;
    WriteUint32Be(png, |data| % TWO_TO_THE_32);
    var typeAndData := kind + data;
    png.Insert(typeAndData);
    var crc := table.Compute(typeAndData);
    WriteUint32Be(png, crc);
  }

  lemma HeaderBytes(size: word)
    ensures [] + BigEndian(size) + BigEndian(size) + [8] + [0] + [0] + [0] + [0] == HeaderData(size)
  {
    hide BigEndian;
  }

  /** create_simple_png */
  method CreateSimplePng(bitmap: seq<byte>, size: nat, table: CrcTable) returns (png: seq<byte>)
    requires size < TWO_TO_THE_32 && |bitmap| == size * size
    requires table.Valid()
    modifies table, table.entries
    ensures table.Valid()
    ensures png == PngBytes(bitmap, size)
  {
    hide Crc, BigEndian, ChunkBytes, Deflate, Filter;
    var out := new ByteVector();
    out.Insert([0x89, 0x50, 0x4E, 0x47, 0x0D, 0x0A, 0x1A, 0x0A]);

    var header := new ByteVector();
    WriteUint32Be(header, size);
    WriteUint32Be(header, size);
    header.PushBack(8);
    header.PushBack(0);
    header.PushBack(0);
    header.PushBack(0);
    header.PushBack(0);
    HeaderBytes(size);
    hide HeaderData;
    WritePngChunk(out, IHDR, header.bytes, table);

    var raw := AddFilterBytes(bitmap, size);
    var compressed := SimpleDeflate(raw);
    WritePngChunk(out, IDAT, compressed, table);

    WritePngChunk(out, IEND, [], table);
    png := out.bytes;
  }

  /** The two loops that copy the bitmap row by row. */
  method AddFilterBytes(bitmap: seq<byte>, size: nat) returns (raw: seq<byte>)
    requires |bitmap| == size * size
    ensures raw == Filter(bitmap, size)
  {
    hide Filter;
    raw := [];
    assert bitmap[0..] == bitmap;
    for y := 0 to size
      invariant y * size <= |bitmap|
      invariant Filter(bitmap, size) == raw + Filter(bitmap[y * size..], size)
    {
      RowEnd(y, size);
      ghost var start, below := raw, bitmap[y * size..];
      raw := raw + [0];
      for x := 0 to size
        invariant raw == start + [0] + below[..x]
      {
        assert below[..x + 1] == below[..x] + [bitmap[y * size + x]];
        raw := raw + [bitmap[y * size + x]];
      }
      FilterRow(start, below, size);
      assert below[size..] == bitmap[(y + 1) * size..];
    }
    FilterNothing(size);
    assert bitmap[size * size..] == [];
  }

  lemma FilterRow(start: seq<byte>, pixels: seq<byte>, width: nat)
    requires 0 < width <= |pixels|
    ensures start + Filter(pixels, width) == start + [0] + pixels[..width] + Filter(pixels[width..], width)
  {
  }

  lemma FilterNothing(width: nat)
    ensures Filter([], width) == []
  {
  }

  lemma RowEnd(y: nat, size: nat)
    requires y < size
    ensures y * size + size == (y + 1) * size <= size * size
  {
  }
}
