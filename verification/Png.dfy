/** The monochrome PNG writer, and a reader for the files it writes.

    `Decode` is written from RFC 2083: it walks the chunks, checks each length and CRC, insists on the header
    fields, inflates the image data, and unpacks one bit per pixel from rows whose filter byte is None. */
module Png {
  import opened Bytes
  import opened Option
  import opened Sequences
  import Crc
  import Zlib

  const SIGNATURE: seq<u8> := [0x89, 0x50, 0x4E, 0x47, 0x0D, 0x0A, 0x1A, 0x0A]
  const IHDR: seq<u8> := [0x49, 0x48, 0x44, 0x52]
  const IDAT: seq<u8> := [0x49, 0x44, 0x41, 0x54]
  const IEND: seq<u8> := [0x49, 0x45, 0x4E, 0x44]

  /** RFC 2083, section 3.2: a chunk holds at most 2^31 - 1 bytes. */
  const MAX_CHUNK := 0x7FFF_FFFF

  /** `white[y][x]` is the sample at column x of row y. */
  datatype Image = Image(width: nat, height: nat, white: seq<seq<bool>>)

  // ----- The reader -----

  datatype Chunk = Chunk(kind: seq<u8>, data: seq<u8>)
  datatype ReadChunk = ReadChunk(chunk: Chunk, rest: seq<u8>)

  function CrcValue(data: seq<u8>): (n: nat)
    ensures n < 0x1_0000_0000
  {
    Crc.Checksum(data) as nat
  }

  function TakeChunk(s: seq<u8>): (r: Option<ReadChunk>)
    ensures r.Some? ==> |r.value.rest| + 12 <= |s|
  {
    if |s| < 12 then None else
    var len := FromBigEndian(s[..4]);
    if len > MAX_CHUNK || |s| < 12 + len then None else
    var kind, data, crc, rest := s[4..8], s[8..8 + len], s[8 + len..12 + len], s[12 + len..];
    if FromBigEndian(crc) != CrcValue(kind + data) then None
    else Some(ReadChunk(Chunk(kind, data), rest))
  }

  /** The chunks of `s`, the last of which is the only IEND. */
  function TakeChunks(s: seq<u8>): Option<seq<Chunk>>
    decreases |s|
  {
    var r := TakeChunk(s);
    if r.None? then None
    else if r.value.chunk.kind == IEND then (if r.value.rest == [] then Some([r.value.chunk]) else None)
    else
      var tail := TakeChunks(r.value.rest);
      if tail.None? then None else Some([r.value.chunk] + tail.value)
  }

  function CeilDiv8(n: nat): nat { (n + 7) / 8 }

  /** Bit 7 of each byte is its leftmost pixel. */
  function Mask(bit: nat): u8
    requires bit < 8
  {
    match bit
    case 0 => 0x01
    case 1 => 0x02
    case 2 => 0x04
    case 3 => 0x08
    case 4 => 0x10
    case 5 => 0x20
    case 6 => 0x40
    case 7 => 0x80
  }

  predicate BitSet(b: u8, bit: nat)
    requires bit < 8
  {
    b & Mask(bit) != 0
  }

  function Unpack(width: nat, row: seq<u8>): (samples: seq<bool>)
    requires |row| == CeilDiv8(width)
    ensures |samples| == width
  {
    seq(width, x requires 0 <= x < width => BitSet(row[x / 8], 7 - x % 8))
  }

  function TakeRows(width: nat, height: nat, s: seq<u8>): (r: Option<seq<seq<bool>>>)
    ensures r.Some? ==> |r.value| == height
  {
    var n := CeilDiv8(width);
    if height == 0 then (if s == [] then Some([]) else None)
    else if |s| < n + 1 || s[0] != 0 then None
    else
      var tail := TakeRows(width, height - 1, s[n + 1..]);
      if tail.None? then None else Some([Unpack(width, s[1..n + 1])] + tail.value)
  }

  function Decode(s: seq<u8>): Option<Image> {
    if |s| < 8 || s[..8] != SIGNATURE then None else
    var r := TakeChunks(s[8..]);
    if r.None? || |r.value| != 3 then None else
    var header, idat, end := r.value[0], r.value[1], r.value[2];
    if header.kind != IHDR || idat.kind != IDAT || |header.data| != 13 || header.data[8..] != [1, 0, 0, 0, 0] ||
      end.data != [] then None else
    var width, height := FromBigEndian(header.data[..4]), FromBigEndian(header.data[4..8]);
    var raw := Zlib.Inflate(idat.data);
    if width == 0 || height == 0 || raw.None? then None else
    var rows := TakeRows(width, height, raw.value);
    if rows.None? then None else Some(Image(width, height, rows.value))
  }

  // ----- The writer -----

  function SaturateU32(n: nat): nat {
    if n <= 0xFFFF_FFFF then n else 0xFFFF_FFFF
  }

  function ChunkBytes(kind: seq<u8>, data: seq<u8>): seq<u8> {
    BigEndian(SaturateU32(|data|), 4) + kind + data + BigEndian(CrcValue(kind + data), 4)
  }

  method WriteChunk(before: seq<u8>, kind: seq<u8>, data: seq<u8>) returns (out: seq<u8>)
    requires |kind| == 4
    ensures out == before + ChunkBytes(kind, data)
  {
    out := before;
    out := out + BigEndian(SaturateU32(|data|), 4);
    out := out + kind;
    out := out + data;
    var crcInput := [];
    crcInput := crcInput + kind;
    crcInput := crcInput + data;
    assert crcInput == kind + data;
    var crc := Crc.Crc32(crcInput);
    out := out + BigEndian(crc as nat, 4);
    Associate(before, BigEndian(SaturateU32(|data|), 4), kind, data, BigEndian(crc as nat, 4));
  }

  /** The first `height` rows of the buffer, each behind a filter byte. */
  function Scanlines(pixels: seq<u8>, rowBytes: nat, height: nat): (raw: seq<u8>)
    requires height * rowBytes <= |pixels|
    ensures |raw| == height * (rowBytes + 1)
  {
    if height == 0 then [] else
    RowEnd(height, rowBytes, |pixels|);
    Scanlines(pixels, rowBytes, height - 1) + ([0x00] + pixels[(height - 1) * rowBytes..height * rowBytes])
  }

  lemma RowEnd(height: nat, rowBytes: nat, size: nat)
    requires 0 < height && height * rowBytes <= size
    ensures (height - 1) * rowBytes + rowBytes == height * rowBytes <= size
    ensures (height - 1) * (rowBytes + 1) + (rowBytes + 1) == height * (rowBytes + 1)
  {}

  function Header(width: nat, height: nat): seq<u8> {
    BigEndian(width, 4) + BigEndian(height, 4) + [1, 0, 0, 0, 0]
  }

  function PngBytes(width: nat, height: nat, pixels: seq<u8>, rowBytes: nat): seq<u8>
    requires height * rowBytes <= |pixels|
  {
    SIGNATURE + ChunkBytes(IHDR, Header(width, height))
              + ChunkBytes(IDAT, Zlib.Stored(Scanlines(pixels, rowBytes, height)))
              + ChunkBytes(IEND, [])
  }

  method EncodeMonoPng(width: nat, height: nat, pixels: seq<u8>, rowBytes: nat) returns (out: seq<u8>)
    requires height * rowBytes <= |pixels|
    ensures out == PngBytes(width, height, pixels, rowBytes)
  {
    hide BigEndian, ChunkBytes, Scanlines, Header, Zlib.Stored, CrcValue, PngBytes;
    var raw: seq<u8> := [];
    NoScanlines(pixels, rowBytes);
    var y := 0;
    while y < height
      invariant 0 <= y <= height && y * rowBytes <= height * rowBytes
      invariant raw == Scanlines(pixels, rowBytes, y)
    {
      RowBound(y, height, rowBytes);
      NextScanline(pixels, rowBytes, y);
      raw := raw + [0x00];
      raw := raw + pixels[y * rowBytes..(y + 1) * rowBytes];
      y := y + 1;
    }
    out := [];
    out := out + SIGNATURE;
    var ihdr := [];
    ihdr := ihdr + BigEndian(width, 4);
    ihdr := ihdr + BigEndian(height, 4);
    ihdr := ihdr + [1, 0, 0, 0, 0];
    HeaderBytes(width, height);
    out := WriteChunk(out, IHDR, ihdr);
    var idat := Zlib.ZlibStored(raw);
    out := WriteChunk(out, IDAT, idat);
    out := WriteChunk(out, IEND, []);
    ThreeChunks(width, height, pixels, rowBytes);
  }

  lemma NoScanlines(pixels: seq<u8>, rowBytes: nat)
    ensures Scanlines(pixels, rowBytes, 0) == []
  {}

  lemma NextScanline(pixels: seq<u8>, rowBytes: nat, y: nat)
    requires y * rowBytes <= (y + 1) * rowBytes <= |pixels|
    ensures Scanlines(pixels, rowBytes, y + 1)
         == Scanlines(pixels, rowBytes, y) + [0x00] + pixels[y * rowBytes..(y + 1) * rowBytes]
  {}

  lemma HeaderBytes(width: nat, height: nat)
    ensures [] + BigEndian(width, 4) + BigEndian(height, 4) + [1, 0, 0, 0, 0] == Header(width, height)
  {}

  lemma ThreeChunks(width: nat, height: nat, pixels: seq<u8>, rowBytes: nat)
    requires height * rowBytes <= |pixels|
    ensures PngBytes(width, height, pixels, rowBytes)
         == [] + SIGNATURE + ChunkBytes(IHDR, Header(width, height))
            + ChunkBytes(IDAT, Zlib.Stored(Scanlines(pixels, rowBytes, height))) + ChunkBytes(IEND, [])
  {
    hide ChunkBytes, Scanlines, Header, Zlib.Stored;
  }

  lemma RowBound(y: nat, height: nat, rowBytes: nat)
    requires y < height
    ensures y * rowBytes + rowBytes == (y + 1) * rowBytes <= height * rowBytes
  {}

  // ----- The reader undoes the writer -----

  /** The image a packed buffer holds. */
  function Picture(width: nat, height: nat, pixels: seq<u8>): Image
    requires height * CeilDiv8(width) <= |pixels|
  {
    Image(width, height, Rows(width, height, pixels))
  }

  function Rows(width: nat, height: nat, pixels: seq<u8>): (rows: seq<seq<bool>>)
    requires height * CeilDiv8(width) <= |pixels|
    ensures |rows| == height
  {
    if height == 0 then [] else
    RowEnd(height, CeilDiv8(width), |pixels|);
    Rows(width, height - 1, pixels) + [Unpack(width, pixels[(height - 1) * CeilDiv8(width)..height * CeilDiv8(width)])]
  }

  lemma ChunkFields(kind: seq<u8>, data: seq<u8>, rest: seq<u8>)
    requires |kind| == 4 && |data| <= MAX_CHUNK
    ensures var s := ChunkBytes(kind, data) + rest;
            && |s| == 12 + |data| + |rest|
            && FromBigEndian(s[..4]) == |data|
            && s[4..8] == kind && s[8..8 + |data|] == data && s[12 + |data|..] == rest
            && FromBigEndian(s[8 + |data|..12 + |data|]) == CrcValue(kind + data)
  {
    hide BigEndian, FromBigEndian, CrcValue;
    var s := ChunkBytes(kind, data) + rest;
    Powers();
    BigEndianRoundTrip(|data|, 4);
    BigEndianRoundTrip(CrcValue(kind + data), 4);
    assert s[..4] == BigEndian(|data|, 4);
    assert s[8 + |data|..12 + |data|] == BigEndian(CrcValue(kind + data), 4);
  }

  lemma TakeWritten(kind: seq<u8>, data: seq<u8>, rest: seq<u8>)
    requires |kind| == 4 && |data| <= MAX_CHUNK
    ensures TakeChunk(ChunkBytes(kind, data) + rest) == Some(ReadChunk(Chunk(kind, data), rest))
  {
    hide ChunkBytes, FromBigEndian, CrcValue;
    ChunkFields(kind, data, rest);
  }

  lemma {:induction false} RowsPrepend(width: nat, height: nat, pixels: seq<u8>, rows: seq<seq<bool>>, s: seq<u8>,
      more: nat)
    requires height * CeilDiv8(width) <= |pixels|
    requires TakeRows(width, more, s) == Some(rows)
    ensures TakeRows(width, height + more, Scanlines(pixels, CeilDiv8(width), height) + s)
         == Some(Rows(width, height, pixels) + rows)
    decreases height
  {
    hide Unpack, TakeRows;
    var n := CeilDiv8(width);
    if height == 0 {
      assert [] + s == s && [] + rows == rows;
    } else {
      RowEnd(height, n, |pixels|);
      var row := pixels[(height - 1) * n..height * n];
      var line := [0x00] + row;
      TakeLine(width, more, row, s);
      RowsPrepend(width, height - 1, pixels, [Unpack(width, row)] + rows, line + s, more + 1);
      Regroup(Scanlines(pixels, n, height - 1), line, s);
      Regroup(Rows(width, height - 1, pixels), [Unpack(width, row)], rows);
    }
  }

  lemma TakeLine(width: nat, more: nat, row: seq<u8>, s: seq<u8>)
    requires |row| == CeilDiv8(width) && TakeRows(width, more, s).Some?
    ensures TakeRows(width, more + 1, [0x00] + row + s) == Some([Unpack(width, row)] + TakeRows(width, more, s).value)
  {
    hide Unpack;
    var t := [0x00] + row + s;
    assert t[1..|row| + 1] == row && t[|row| + 1..] == s;
  }

  lemma TakeScanlines(width: nat, height: nat, pixels: seq<u8>)
    requires height * CeilDiv8(width) <= |pixels|
    ensures TakeRows(width, height, Scanlines(pixels, CeilDiv8(width), height)) == Some(Rows(width, height, pixels))
  {
    hide Scanlines, Rows;
    var raw := Scanlines(pixels, CeilDiv8(width), height);
    assert TakeRows(width, 0, []) == Some([]);
    assert Rows(width, height, pixels) + [] == Rows(width, height, pixels);
    RowsPrepend(width, height, pixels, [], [], 0);
    assert raw + [] == raw;
  }

  lemma HeaderFields(width: nat, height: nat)
    requires width <= 0xFFFF_FFFF && height <= 0xFFFF_FFFF
    ensures var h := Header(width, height);
            && |h| == 13 && h[8..] == [1, 0, 0, 0, 0]
            && FromBigEndian(h[..4]) == width && FromBigEndian(h[4..8]) == height
  {
    hide BigEndian, FromBigEndian;
    Powers();
    BigEndianRoundTrip(width, 4);
    BigEndianRoundTrip(height, 4);
    var h := Header(width, height);
    assert h[..4] == BigEndian(width, 4) && h[4..8] == BigEndian(height, 4);
  }

  lemma TakeOneMore(kind: seq<u8>, data: seq<u8>, rest: seq<u8>)
    requires |kind| == 4 && |data| <= MAX_CHUNK && kind != IEND && TakeChunks(rest).Some?
    ensures TakeChunks(ChunkBytes(kind, data) + rest) == Some([Chunk(kind, data)] + TakeChunks(rest).value)
  {
    hide ChunkBytes, TakeChunk;
    TakeWritten(kind, data, rest);
  }

  lemma TakeLast()
    ensures TakeChunks(ChunkBytes(IEND, [])) == Some([Chunk(IEND, [])])
  {
    hide ChunkBytes, TakeChunk;
    TakeWritten(IEND, [], []);
    assert ChunkBytes(IEND, []) + [] == ChunkBytes(IEND, []);
  }

  lemma TakeThree(a: seq<u8>, b: seq<u8>)
    requires |a| <= MAX_CHUNK && |b| <= MAX_CHUNK
    ensures TakeChunks(ChunkBytes(IHDR, a) + ChunkBytes(IDAT, b) + ChunkBytes(IEND, []))
         == Some([Chunk(IHDR, a), Chunk(IDAT, b), Chunk(IEND, [])])
  {
    hide ChunkBytes, TakeChunks;
    var x, y, z := ChunkBytes(IHDR, a), ChunkBytes(IDAT, b), ChunkBytes(IEND, []);
    assert IHDR[1] != IEND[1] && IDAT[1] != IEND[1];
    assert x + y + z == x + (y + z);
    TakeLast();
    TakeOneMore(IDAT, b, z);
    TakeOneMore(IHDR, a, y + z);
    assert [Chunk(IHDR, a)] + ([Chunk(IDAT, b)] + [Chunk(IEND, [])]) ==
           [Chunk(IHDR, a), Chunk(IDAT, b), Chunk(IEND, [])];
  }

  lemma DecodeParts(body: seq<u8>, header: seq<u8>, idat: seq<u8>, raw: seq<u8>, width: nat, height: nat,
      rows: seq<seq<bool>>)
    requires TakeChunks(body) == Some([Chunk(IHDR, header), Chunk(IDAT, idat), Chunk(IEND, [])])
    requires |header| == 13 && header[8..] == [1, 0, 0, 0, 0]
    requires 0 < width && FromBigEndian(header[..4]) == width && 0 < height && FromBigEndian(header[4..8]) == height
    requires Zlib.Inflate(idat) == Some(raw) && TakeRows(width, height, raw) == Some(rows)
    ensures Decode(SIGNATURE + body) == Some(Image(width, height, rows))
  {
    hide TakeChunks, TakeRows, Zlib.Inflate, FromBigEndian;
    assert (SIGNATURE + body)[..8] == SIGNATURE && (SIGNATURE + body)[8..] == body;
  }

  /** Whatever the buffer holds, the written file decodes to exactly that picture. */
  lemma DecodeUndoesEncode(width: nat, height: nat, pixels: seq<u8>)
    requires 0 < width <= 0xFFFF_FFFF && 0 < height <= 0xFFFF_FFFF
    requires height * CeilDiv8(width) <= |pixels|
    requires |Zlib.Stored(Scanlines(pixels, CeilDiv8(width), height))| <= MAX_CHUNK
    ensures Decode(PngBytes(width, height, pixels, CeilDiv8(width))) == Some(Picture(width, height, pixels))
  {
    hide ChunkBytes, TakeChunks, TakeRows, Scanlines, Rows, Header, Zlib.Stored, Zlib.Inflate, FromBigEndian, Decode;
    var raw := Scanlines(pixels, CeilDiv8(width), height);
    var idat := Zlib.Stored(raw);
    var body := ChunkBytes(IHDR, Header(width, height)) + ChunkBytes(IDAT, idat) + ChunkBytes(IEND, []);
    assert PngBytes(width, height, pixels, CeilDiv8(width)) == SIGNATURE + body;
    HeaderFields(width, height);
    TakeThree(Header(width, height), idat);
    Zlib.InflateUndoesStored(raw);
    TakeScanlines(width, height, pixels);
    DecodeParts(body, Header(width, height), idat, raw, width, height, Rows(width, height, pixels));
  }

  // ----- The fixed bytes of a file -----

  /** The signature and the kind names are those of RFC 2083, sections 3.1 and 3.2. */
  lemma NamesAre()
    ensures |SIGNATURE| == 8 && forall i :: 0 <= i < 8 ==> Val(SIGNATURE[i]) == [137, 80, 78, 71, 13, 10, 26, 10][i]
    ensures |IHDR| == 4 && forall i :: 0 <= i < 4 ==> Val(IHDR[i]) == "IHDR"[i] as int
    ensures |IDAT| == 4 && forall i :: 0 <= i < 4 ==> Val(IDAT[i]) == "IDAT"[i] as int
    ensures |IEND| == 4 && forall i :: 0 <= i < 4 ==> Val(IEND[i]) == "IEND"[i] as int
  {}

  /** The last chunk: no data, its kind, and the checksum of the kind. */
  lemma LastChunkIs()
    ensures var s := ChunkBytes(IEND, []);
            |s| == 12 && forall i :: 0 <= i < 12 ==> Val(s[i]) == [0, 0, 0, 0, 73, 69, 78, 68, 174, 66, 96, 130][i]
  {
    hide Val, BigEndian;
    NamesAre();
    Crc.CheckValue();
    assert IEND + [] == IEND;
    assert CrcValue(IEND) == 0xAE42_6082 by { CheckNumber(); }
    var s := ChunkBytes(IEND, []);
    assert s == BigEndian(0, 4) + IEND + BigEndian(0xAE42_6082, 4);
    forall i | 0 <= i < 4
      ensures Val(s[i]) == 0
    {
      BigEndianAt(0, 4, i);
      NoBytes(3 - i);
    }
    CheckBytes();
  }

  lemma CheckNumber()
    ensures CrcValue(IEND) == 0xAE42_6082
  {
    hide Crc.Checksum;
    Crc.CheckValue();
  }

  lemma {:induction false} NoBytes(k: nat)
    ensures Shifted(0, k) == 0
  {
    if k > 0 {
      NoBytes(k - 1);
    }
  }

  lemma CheckBytes()
    ensures var s := BigEndian(0xAE42_6082, 4);
            |s| == 4 && Val(s[0]) == 174 && Val(s[1]) == 66 && Val(s[2]) == 96 && Val(s[3]) == 130
  {
    hide Val, BigEndian;
    BigEndianAt(0xAE42_6082, 4, 0);
    BigEndianAt(0xAE42_6082, 4, 1);
    BigEndianAt(0xAE42_6082, 4, 2);
    BigEndianAt(0xAE42_6082, 4, 3);
    assert Shifted(0xAE42_6082, 1) == 0xAE_4260 && Shifted(0xAE42_6082, 2) == 0xAE42;
    assert Shifted(0xAE42_6082, 3) == Shifted(0xAE_4260, 2) == Shifted(0xAE42, 1) == 0xAE;
  }

  /** The header: width, height, one bit for each sample of gray, and the standard methods. */
  lemma HeaderIs(width: nat, height: nat)
    ensures var h := Header(width, height);
            && |h| == 13
            && (forall k :: 0 <= k < 4 ==> Val(h[k]) == Shifted(width, 3 - k) % 256)
            && (forall k :: 4 <= k < 8 ==> Val(h[k]) == Shifted(height, 7 - k) % 256)
            && Val(h[8]) == 1 && forall k :: 9 <= k < 13 ==> Val(h[k]) == 0
  {
    hide BigEndian, Shifted, Val;
    var h := Header(width, height);
    forall k | 0 <= k < 4
      ensures Val(h[k]) == Shifted(width, 3 - k) % 256
    {
      BigEndianAt(width, 4, k);
    }
    forall k | 4 <= k < 8
      ensures Val(h[k]) == Shifted(height, 7 - k) % 256
    {
      BigEndianAt(height, 4, k - 4);
    }
    SmallBytes();
  }

  /** The length field of a chunk saturates. */
  lemma LengthField(kind: seq<u8>, data: seq<u8>)
    ensures FromBigEndian(ChunkBytes(kind, data)[..4]) == if |data| < 0x1_0000_0000 then |data| else 0xFFFF_FFFF
  {
    hide BigEndian, FromBigEndian;
    var n := SaturateU32(|data|);
    BigEndianRoundTrip(n, 4);
    Powers();
    assert ChunkBytes(kind, data)[..4] == BigEndian(n, 4);
  }

  lemma SmallBytes()
    ensures Val(0) == 0 && Val(1) == 1
  {}
}
