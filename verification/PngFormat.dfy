/**
 The Portable Network Graphics stream of RFC 2083, as far as 8-bit palette pictures without filters or ancillary
 chunks need it: byte order, check values, chunks, and a reader.
 */
module PngFormat {
  import opened Bytes
  import opened Utils

  // ---- section 2.1: integers, most significant byte first ----

  function NetworkOrder(u: uint32): (r: seq<byte>)
    ensures |r| == 4
  {
    [(u / 0x100_0000) as byte, (u / 0x1_0000 % 256) as byte, (u / 0x100 % 256) as byte, (u % 256) as byte]
  }

  function FromNetworkOrder(b: seq<byte>): nat
    requires |b| == 4
  {
    b[0] as nat * 0x100_0000 + b[1] as nat * 0x1_0000 + b[2] as nat * 0x100 + b[3] as nat
  }

  lemma NetworkOrderInverse(u: uint32)
    ensures FromNetworkOrder(NetworkOrder(u)) == u as nat
  {
    var n := u as int;
    assert n / 0x1_0000 == n / 0x100 / 0x100 && n / 0x100_0000 == n / 0x100 / 0x100 / 0x100;
  }

  lemma LastDigit(n: nat, d: nat)
    requires d < 0x100
    ensures (n * 0x100 + d) / 0x100 == n && (n * 0x100 + d) % 0x100 == d
  {
  }

  lemma FromNetworkOrderInverse(b: seq<byte>)
    requires |b| == 4
    ensures FromNetworkOrder(b) < WRAP && NetworkOrder(FromNetworkOrder(b) as uint32) == b
  {
    var n3 := b[0] as nat;
    var n2 := n3 * 0x100 + b[1] as nat;
    var n1 := n2 * 0x100 + b[2] as nat;
    var n := FromNetworkOrder(b);
    assert n == n1 * 0x100 + b[3] as nat;
    LastDigit(n1, b[3] as nat);
    LastDigit(n2, b[2] as nat);
    LastDigit(n3, b[1] as nat);
    assert n / 0x100 == n1 && n1 / 0x100 == n2 && n2 / 0x100 == n3;
    assert n / 0x1_0000 == n / 0x100 / 0x100 && n / 0x100_0000 == n / 0x100 / 0x100 / 0x100;
  }

  // ---- section 3.4: the check value ----

  function CrcBits(c: bv32, k: nat): bv32
    decreases k
  {
    if k == 0 then c else CrcBits(if c & 1 == 1 then (c >> 1) ^ 0xedb8_8320 else c >> 1, k - 1)
  }

  function CrcBytes(c: bv32, data: seq<byte>): bv32
    decreases |data|
  {
    if data == [] then c else CrcBytes(CrcByte(c, data[0]), data[1..])
  }

  function CrcByte(c: bv32, b: byte): bv32 { CrcBits(c ^ (b as bv32), 8) }

  function Complement(c: bv32): bv32 { c ^ 0xffff_ffff }

  /** The running check value, ones' complemented on the way in and on the way out. */
  function Crc32(crc: bv32, data: seq<byte>): bv32 {
    Complement(CrcBytes(Complement(crc), data))
  }

  lemma {:induction false} CrcBytesAppend(c: bv32, a: seq<byte>, b: seq<byte>)
    ensures CrcBytes(c, a + b) == CrcBytes(CrcBytes(c, a), b)
    decreases |a|
  {
    hide CrcByte;
    if a == [] {
      assert a + b == b;
    } else {
      assert (a + b)[1..] == a[1..] + b;
      CrcBytesAppend(CrcByte(c, a[0]), a[1..], b);
    }
  }

  lemma ComplementTwice(c: bv32)
    ensures Complement(Complement(c)) == c
  {
  }

  /** Continuing a check value over more data is the check value of all of it. */
  lemma CrcContinues(crc: bv32, a: seq<byte>, b: seq<byte>)
    ensures Crc32(Crc32(crc, a), b) == Crc32(crc, a + b)
  {
    CrcBytesAppend(Complement(crc), a, b);
    ComplementTwice(CrcBytes(Complement(crc), a));
    hide CrcBytes, Complement;
  }

  function CrcField(crc: bv32): (r: seq<byte>)
    ensures |r| == 4
  {
    NetworkOrder(crc as int as uint32)
  }

  // ---- section 3.2: chunks ----

  const SIGNATURE: seq<byte> := [0x89, 0x50, 0x4e, 0x47, 0x0d, 0x0a, 0x1a, 0x0a]

  const IHDR: uint32 := 0x49484452
  const PLTE: uint32 := 0x504C5445
  const IDAT: uint32 := 0x49444154
  const IEND: uint32 := 0x49454E44

  datatype Chunk = Chunk(kind: seq<byte>, data: seq<byte>)

  /** Length, type, data, and the check value of type and data. */
  function Layout(kind: uint32, data: seq<byte>): seq<byte>
    requires |data| < WRAP
  {
    LaidOut(Chunk(NetworkOrder(kind), data))
  }

  function LaidOut(c: Chunk): (r: seq<byte>)
    requires |c.data| < WRAP
    ensures |r| == |c.kind| + |c.data| + 8
  {
    NetworkOrder(|c.data| as uint32) + c.kind + c.data + CrcField(Crc32(0, c.kind + c.data))
  }

  /** The chunks of a stream up to and including IEND, each with a valid check value and nothing behind the last. */
  function ReadChunks(stream: seq<byte>): Option<seq<Chunk>>
    decreases |stream|
  {
    if |stream| < 12 then None else
      var length := FromNetworkOrder(stream[..4]);
      if |stream| < 12 + length then None else
        var kind := stream[4..8];
        var data := stream[8..8 + length];
        if stream[8 + length..12 + length] != CrcField(Crc32(0, kind + data)) then None
        else if kind == NetworkOrder(IEND) then
          if length == 0 && |stream| == 12 then Some([Chunk(kind, data)]) else None
        else
          match ReadChunks(stream[12 + length..])
          case None => None
          case Some(rest) => Some([Chunk(kind, data)] + rest)
  }

  /** The fields of a stream's first chunk, taken apart. */
  ghost predicate BeginsWith(stream: seq<byte>, kind: seq<byte>, data: seq<byte>, rest: seq<byte>) {
    && |stream| == 12 + |data| + |rest|
    && FromNetworkOrder(stream[..4]) == |data| && stream[4..8] == kind && stream[8..8 + |data|] == data
    && stream[8 + |data|..12 + |data|] == CrcField(Crc32(0, kind + data)) && stream[12 + |data|..] == rest
  }

  lemma FirstChunkIsRead(stream: seq<byte>, kind: seq<byte>, data: seq<byte>, rest: seq<byte>)
    requires BeginsWith(stream, kind, data, rest)
    ensures kind != NetworkOrder(IEND) ==>
              ReadChunks(stream)
              == match ReadChunks(rest) case None => None case Some(chunks) => Some([Chunk(kind, data)] + chunks)
    ensures kind == NetworkOrder(IEND) && data == [] == rest ==> ReadChunks(stream) == Some([Chunk(kind, data)])
  {
    hide NetworkOrder, FromNetworkOrder, Crc32, CrcField;
  }

  lemma LayoutIsRead(kind: uint32, data: seq<byte>, rest: seq<byte>)
    requires |data| < WRAP && NetworkOrder(kind) != NetworkOrder(IEND)
    ensures ReadChunks(Layout(kind, data) + rest)
            == match ReadChunks(rest)
               case None => None
               case Some(chunks) => Some([Chunk(NetworkOrder(kind), data)] + chunks)
  {
    LayoutBegins(kind, data, rest);
    FirstChunkIsRead(Layout(kind, data) + rest, NetworkOrder(kind), data, rest);
  }

  lemma LastLayoutIsRead()
    ensures ReadChunks(Layout(IEND, [])) == Some([Chunk(NetworkOrder(IEND), [])])
  {
    LayoutBegins(IEND, [], []);
    assert Layout(IEND, []) + [] == Layout(IEND, []);
    FirstChunkIsRead(Layout(IEND, []), NetworkOrder(IEND), [], []);
  }

  lemma LayoutBegins(kind: uint32, data: seq<byte>, rest: seq<byte>)
    requires |data| < WRAP
    ensures BeginsWith(Layout(kind, data) + rest, NetworkOrder(kind), data, rest)
  {
    ChunkBegins(Chunk(NetworkOrder(kind), data), rest);
    hide BeginsWith, LaidOut;
  }

  lemma ChunkBegins(c: Chunk, rest: seq<byte>)
    requires |c.kind| == 4 && |c.data| < WRAP
    ensures BeginsWith(LaidOut(c) + rest, c.kind, c.data, rest)
  {
    hide NetworkOrder, FromNetworkOrder, Crc32, CrcField;
    NetworkOrderInverse(|c.data| as uint32);
    FourFields(NetworkOrder(|c.data| as uint32), c.kind, c.data, CrcField(Crc32(0, c.kind + c.data)), rest);
  }

  lemma FourFields(length: seq<byte>, kind: seq<byte>, data: seq<byte>, crc: seq<byte>, rest: seq<byte>)
    requires |length| == |kind| == |crc| == 4
    ensures var s := length + kind + data + crc + rest; var n := |data|;
            && s[..4] == length && s[4..8] == kind && s[8..8 + n] == data && s[8 + n..12 + n] == crc
                && s[12 + n..] == rest
  {
  }

  /** Chunks of a type and not too much data, the only IEND being the last one, which is empty. */
  predicate ChunkList(chunks: seq<Chunk>) {
    && chunks != [] && (forall c :: c in chunks ==> |c.kind| == 4 && |c.data| < WRAP)
    && chunks[|chunks| - 1] == Chunk(NetworkOrder(IEND), [])
    && forall k :: 0 <= k < |chunks| - 1 ==> chunks[k].kind != NetworkOrder(IEND)
  }

  function AllLaidOut(chunks: seq<Chunk>): seq<byte>
    requires forall c :: c in chunks ==> |c.data| < WRAP
  {
    if chunks == [] then [] else LaidOut(chunks[0]) + AllLaidOut(chunks[1..])
  }

  /** The reader accepts exactly the streams that are such chunks laid out one after the other, and gives them back. */
  lemma {:induction false} ReaderIsExact(stream: seq<byte>, chunks: seq<Chunk>)
    ensures ReadChunks(stream) == Some(chunks) <==> ChunkList(chunks) && stream == AllLaidOut(chunks)
    decreases |stream|
  {
    hide NetworkOrder, FromNetworkOrder, Crc32, CrcField, AllLaidOut, ReadChunks;
    if ReadChunks(stream) == Some(chunks) {
      ReadIsLaidOut(stream, chunks);
    }
    if ChunkList(chunks) && stream == AllLaidOut(chunks) {
      LaidOutIsRead(chunks);
    }
  }

  lemma {:induction false} LaidOutIsRead(chunks: seq<Chunk>)
    requires ChunkList(chunks)
    ensures ReadChunks(AllLaidOut(chunks)) == Some(chunks)
  {
    hide NetworkOrder, FromNetworkOrder, Crc32, CrcField, ReadChunks;
    var c, rest := chunks[0], chunks[1..];
    assert c in chunks && forall d :: d in rest ==> d in chunks;
    ChunkBegins(c, AllLaidOut(rest));
    FirstChunkIsRead(AllLaidOut(chunks), c.kind, c.data, AllLaidOut(rest));
    if |chunks| > 1 {
      assert rest[|rest| - 1] == chunks[|chunks| - 1];
      LaidOutIsRead(rest);
      assert [c] + rest == chunks;
    } else {
      assert chunks == [c];
    }
  }

  lemma {:induction false} ReadIsLaidOut(stream: seq<byte>, chunks: seq<Chunk>)
    requires ReadChunks(stream) == Some(chunks)
    ensures ChunkList(chunks) && stream == AllLaidOut(chunks)
    decreases |stream|
  {
    hide NetworkOrder, FromNetworkOrder, Crc32, CrcField, ReadChunks;
    var c, rest := FirstRead(stream);
    if c.kind == NetworkOrder(IEND) {
      assert chunks == [c] && AllLaidOut(chunks[1..]) == [];
    } else {
      var others := ReadChunks(rest).value;
      ReadIsLaidOut(rest, others);
      assert chunks[1..] == others;
      assert forall k :: 1 <= k < |chunks| ==> chunks[k] == others[k - 1];
    }
  }

  /** What the reader has made of the beginning of a stream that it accepts. */
  lemma FirstRead(stream: seq<byte>) returns (c: Chunk, rest: seq<byte>)
    requires ReadChunks(stream).Some?
    ensures |c.kind| == 4 && |c.data| < WRAP && stream == LaidOut(c) + rest
    ensures if c.kind == NetworkOrder(IEND) then c.data == [] && rest == [] && ReadChunks(stream) == Some([c])
            else ReadChunks(rest).Some? && ReadChunks(stream) == Some([c] + ReadChunks(rest).value)
  {
    hide NetworkOrder, FromNetworkOrder, Crc32, CrcField;
    var length := FromNetworkOrder(stream[..4]);
    FromNetworkOrderInverse(stream[..4]);
    c, rest := Chunk(stream[4..8], stream[8..8 + length]), stream[12 + length..];
    Rebuilt(stream, length);
  }

  lemma Rebuilt(stream: seq<byte>, length: nat)
    requires 12 + length <= |stream|
    ensures stream == stream[..4] + stream[4..8] + stream[8..8 + length] + stream[8 + length..12 + length]
                      + stream[12 + length..]
  {
  }

  /** A stream of chunks that ends early is never read. */
  lemma {:induction false} TruncatedIsNotRead(stream: seq<byte>, m: nat)
    requires m < |stream|
    ensures ReadChunks(stream).Some? ==> ReadChunks(stream[..m]) == None
    decreases |stream|
  {
    hide NetworkOrder, FromNetworkOrder, Crc32, CrcField;
    if 4 <= m {
      var length := FromNetworkOrder(stream[..4]);
      if 12 + length <= m {
        SamePrefix(stream, m, length);
        TruncatedIsNotRead(stream[12 + length..], m - 12 - length);
      } else {
        assert stream[..m][..4] == stream[..4];
      }
    }
  }

  /** What the reader looks at first in a stream that was cut behind it. */
  lemma SamePrefix(stream: seq<byte>, m: nat, length: nat)
    requires 12 + length <= m <= |stream|
    ensures var p := stream[..m];
            && p[..4] == stream[..4] && p[4..8] == stream[4..8] && p[8..8 + length] == stream[8..8 + length]
            && p[8 + length..12 + length] == stream[8 + length..12 + length]
            && p[12 + length..] == stream[12 + length..][..m - 12 - length]
  {
  }

  // ---- sections 4.1 and 6.2: the picture ----

  datatype Colour = Colour(red: byte, green: byte, blue: byte)

  datatype Picture = Picture(width: nat, height: nat, palette: seq<Colour>, rows: seq<seq<byte>>)

  /** A header for 8-bit palette pictures: compression 0, filter method 0, no interlace. */
  predicate PaletteHeader(data: seq<byte>) {
    |data| == 13 && data[8..] == [8, 3, 0, 0, 0] && FromNetworkOrder(data[..4]) > 0 && FromNetworkOrder(data[4..8]) > 0
  }

  function ReadPalette(data: seq<byte>): seq<Colour>
    requires |data| % 3 == 0
  {
    seq(|data| / 3, i requires 0 <= i < |data| / 3 => Colour(data[3 * i], data[3 * i + 1], data[3 * i + 2]))
  }

  /** Rows of one filter-type byte, which must be 0, and width pixels; all of the data, and the right number of rows. */
  function ReadRows(raw: seq<byte>, width: nat, height: nat): Option<seq<seq<byte>>>
    decreases height
  {
    if height == 0 then if raw == [] then Some([]) else None
    else if |raw| < 1 + width || raw[0] != 0 then None
    else
      match ReadRows(raw[1 + width..], width, height - 1)
      case None => None
      case Some(rows) => Some([raw[1..1 + width]] + rows)
  }

  /** The data of consecutive IDAT chunks, joined. */
  function JoinedData(chunks: seq<Chunk>): Option<seq<byte>> {
    if chunks == [] then Some([])
    else if chunks[0].kind != NetworkOrder(IDAT) then None
    else
      match JoinedData(chunks[1..])
      case None => None
      case Some(rest) => Some(chunks[0].data + rest)
  }

  /** The picture in a stream: IHDR, PLTE, IDAT chunks, IEND. */
  function ReadPicture(stream: seq<byte>, inflate: seq<byte> -> Option<seq<byte>>): Option<Picture> {
    if |stream| < 8 || stream[..8] != SIGNATURE then None else
      match ReadChunks(stream[8..])
      case None => None
      case Some(chunks) =>
        if |chunks| < 4 || chunks[0].kind != NetworkOrder(IHDR) || chunks[1].kind != NetworkOrder(PLTE) then None
        else if !PaletteHeader(chunks[0].data) || |chunks[1].data| % 3 != 0 then None
        else
          match JoinedData(chunks[2..|chunks| - 1])
          case None => None
          case Some(z) =>
            match inflate(z)
            case None => None
            case Some(raw) =>
              var width, height := FromNetworkOrder(chunks[0].data[..4]), FromNetworkOrder(chunks[0].data[4..8]);
              match ReadRows(raw, width, height)
              case None => None
              case Some(rows) => Some(Picture(width, height, ReadPalette(chunks[1].data), rows))
  }

  lemma NoPicture(stream: seq<byte>, inflate: seq<byte> -> Option<seq<byte>>)
    requires |stream| < 8 || ReadChunks(stream[8..]) == None
    ensures ReadPicture(stream, inflate) == None
  {
    hide NetworkOrder, FromNetworkOrder, ReadChunks, ReadRows, ReadPalette, PaletteHeader, JoinedData;
  }

  /** A stream of four good chunks. */
  lemma PictureIsRead(stream: seq<byte>, inflate: seq<byte> -> Option<seq<byte>>,
                      header: seq<byte>, colours: seq<byte>, z: seq<byte>, raw: seq<byte>, rows: seq<seq<byte>>)
    requires |stream| >= 8 && stream[..8] == SIGNATURE
    requires ReadChunks(stream[8..]) == Some([Chunk(NetworkOrder(IHDR), header), Chunk(NetworkOrder(PLTE), colours),
                                              Chunk(NetworkOrder(IDAT), z), Chunk(NetworkOrder(IEND), [])])
    requires PaletteHeader(header) && |colours| % 3 == 0 && inflate(z) == Some(raw)
    requires ReadRows(raw, FromNetworkOrder(header[..4]), FromNetworkOrder(header[4..8])) == Some(rows)
    ensures ReadPicture(stream, inflate)
            == Some(Picture(FromNetworkOrder(header[..4]), FromNetworkOrder(header[4..8]), ReadPalette(colours), rows))
  {
    hide NetworkOrder, FromNetworkOrder, ReadChunks, ReadRows, ReadPalette, PaletteHeader;
    var chunks := ReadChunks(stream[8..]).value;
    assert chunks[2..|chunks| - 1] == [Chunk(NetworkOrder(IDAT), z)];
    var data := chunks[2..|chunks| - 1];
    assert data[1..] == [] && JoinedData(data[1..]) == Some([]);
    assert JoinedData(data) == Some(z + []) && z + [] == z;
  }
}
