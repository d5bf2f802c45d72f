/** Writing an 8-bit palette picture as a PNG file, and reading back what was written. */
module PngWriter {
  import opened Bytes
  import opened PngFormat
  import PngCheck
  import opened Utils

  // ---- what is to be written ----

  datatype RgbQuad = RgbQuad(blue: byte, green: byte, red: byte, reserved: byte)

  /** A bitmap whose rows lie scan bytes apart. */
  datatype Source = Source(width: nat, height: nat, rgb: seq<RgbQuad>, bitmap: seq<byte>, scan: nat)

  predicate Proper(s: Source) {
    && 0 < s.width <= s.scan && 0 < s.height
    && RawSize(s.width, s.height) < 0x8000_0000
    && |s.rgb| == 256
    && forall i :: 0 <= i < s.height ==> RowStart(i, s.scan) + s.width <= |s.bitmap|
  }

  function RawSize(width: nat, rows: nat): nat { (width + 1) * rows }

  function RowStart(i: nat, scan: nat): nat { i * scan }

  lemma NextRow(width: nat, scan: nat, i: nat)
    ensures RawSize(width, i + 1) == RawSize(width, i) + width + 1
    ensures RowStart(i + 1, scan) == RowStart(i, scan) + scan
    ensures RawSize(width, 0) == 0 == RowStart(0, scan)
  {
  }

  lemma RawSizeMonotone(width: nat, i: nat, h: nat)
    requires i <= h
    ensures RawSize(width, i) <= RawSize(width, h)
    ensures i <= RawSize(width, i)
  {
    assert (width + 1) * h == (width + 1) * i + (width + 1) * (h - i);
    assert (width + 1) * i == width * i + i;
  }

  function RowOf(s: Source, i: nat): (r: seq<byte>)
    requires Proper(s) && i < s.height
    ensures |r| == s.width
  {
    s.bitmap[RowStart(i, s.scan)..RowStart(i, s.scan) + s.width]
  }

  /** The picture the bitmap shows: padding behind the rows and the reserved palette bytes are not part of it. */
  function PictureOf(s: Source): Picture
    requires Proper(s)
  {
    Picture(s.width, s.height,
            seq(256, i requires 0 <= i < 256 => Colour(s.rgb[i].red, s.rgb[i].green, s.rgb[i].blue)),
            Rows(s, 0))
  }

  function Rows(s: Source, from: nat): seq<seq<byte>>
    requires Proper(s) && from <= s.height
    decreases s.height - from
  {
    if from == s.height then [] else [RowOf(s, from)] + Rows(s, from + 1)
  }

  // ---- the compressor ----

  /** compress takes the data and the room for its result, and may fail. */
  datatype Zlib = Zlib(compress: (seq<byte>, nat) -> Option<seq<byte>>, inflate: seq<byte> -> Option<seq<byte>>)

  ghost predicate Lossless(z: Zlib) {
    forall raw, room :: z.compress(raw, room).Some? ==>
      |z.compress(raw, room).value| <= room && z.inflate(z.compress(raw, room).value) == Some(raw)
  }

  // ---- the byte stream ----

  /** The first n rows, each behind filter type 0. */
  function Unfiltered(s: Source, n: nat): (r: seq<byte>)
    requires Proper(s) && n <= s.height
  {
    if n == 0 then [] else Unfiltered(s, n - 1) + [0] + RowOf(s, n - 1)
  }

  function Room(s: Source): nat {
    RawSize(s.width, s.height) * 11 / 10 + 12
  }

  /** The compressor has a tenth more than the data, in whole bytes, and twelve bytes. */
  lemma RoomIsTenthMore(s: Source)
    ensures 11 * ((s.width + 1) * s.height) < 10 * (Room(s) - 11) <= 11 * ((s.width + 1) * s.height) + 10
  {
    hide RawSize;
    assert RawSize(s.width, s.height) == (s.width + 1) * s.height by { RawSizeIs(s.width, s.height); }
  }

  lemma RawSizeIs(width: nat, rows: nat)
    ensures RawSize(width, rows) == (width + 1) * rows
  {
  }

  function Header(s: Source): (r: seq<byte>)
    requires Proper(s)
    ensures |r| == 13
  {
    RawSizeBoundsSides(s);
    NetworkOrder(s.width as uint32) + NetworkOrder(s.height as uint32) + [8, 3, 0, 0, 0]
  }

  lemma RawSizeBoundsSides(s: Source)
    requires Proper(s)
    ensures s.width < WRAP && s.height < WRAP && Room(s) < WRAP
  {
    RawSizeMonotone(s.width, s.height, s.height);
    RawSizeMonotone(s.width, 1, s.height);
    assert RawSize(s.width, 1) == s.width + 1;
  }

  function PaletteBytes(rgb: seq<RgbQuad>, n: nat): (r: seq<byte>)
    requires n <= |rgb|
    ensures |r| == 3 * n
  {
    if n == 0 then [] else PaletteBytes(rgb, n - 1) + [rgb[n - 1].red, rgb[n - 1].green, rgb[n - 1].blue]
  }

  /** A complete file. */
  function Encoding(s: Source, z: seq<byte>): (r: seq<byte>)
    requires Proper(s) && |z| < WRAP
    ensures |r| >= 8
  {
    SIGNATURE
    + (Layout(IHDR, Header(s)) + (Layout(PLTE, PaletteBytes(s.rgb, 256)) + (Layout(IDAT, z) + Layout(IEND, []))))
  }

  // ---- reading it back ----

  lemma {:induction false} UnfilteredFromFront(s: Source, from: nat, tail: seq<byte>)
    requires Proper(s) && from <= s.height
    requires tail == FromRow(s, from)
    ensures ReadRows(tail, s.width, s.height - from) == Some(Rows(s, from))
    decreases s.height - from
  {
    if from < s.height {
      var rest := FromRow(s, from + 1);
      assert tail == [0] + RowOf(s, from) + rest;
      assert tail[1 + s.width..] == rest && tail[1..1 + s.width] == RowOf(s, from);
      UnfilteredFromFront(s, from + 1, rest);
    }
  }

  function FromRow(s: Source, from: nat): seq<byte>
    requires Proper(s) && from <= s.height
    decreases s.height - from
  {
    if from == s.height then [] else [0] + RowOf(s, from) + FromRow(s, from + 1)
  }

  lemma Regrouped(a: seq<byte>, b: seq<byte>, c: seq<byte>, d: seq<byte>)
    ensures a + b + c + d == a + (b + c + d)
  {
  }

  lemma OneRow(s: Source, n: nat)
    requires Proper(s) && 0 < n <= s.height
    ensures Unfiltered(s, n) == Unfiltered(s, n - 1) + [0] + RowOf(s, n - 1)
    ensures FromRow(s, n - 1) == [0] + RowOf(s, n - 1) + FromRow(s, n)
  {
    hide RowOf;
  }

  lemma {:induction false} UnfilteredSplit(s: Source, n: nat)
    requires Proper(s) && n <= s.height
    ensures Unfiltered(s, n) + FromRow(s, n) == FromRow(s, 0)
  {
    if n == 0 {
      assert [] + FromRow(s, 0) == FromRow(s, 0);
    } else {
      OneRow(s, n);
      hide RowOf, Proper, Unfiltered, FromRow;
      UnfilteredSplit(s, n - 1);
      Regrouped(Unfiltered(s, n - 1), [0], RowOf(s, n - 1), FromRow(s, n));
    }
  }

  lemma RowsAreRead(s: Source)
    requires Proper(s)
    ensures ReadRows(Unfiltered(s, s.height), s.width, s.height) == Some(PictureOf(s).rows)
  {
    UnfilteredSplit(s, s.height);
    assert Unfiltered(s, s.height) + FromRow(s, s.height) == Unfiltered(s, s.height);
    UnfilteredFromFront(s, 0, FromRow(s, 0));
  }

  lemma {:induction false} PaletteByteAt(rgb: seq<RgbQuad>, n: nat, i: nat)
    requires i < n <= |rgb|
    ensures var p := PaletteBytes(rgb, n);
            p[3 * i] == rgb[i].red && p[3 * i + 1] == rgb[i].green && p[3 * i + 2] == rgb[i].blue
  {
    if i < n - 1 { PaletteByteAt(rgb, n - 1, i); }
  }

  lemma PaletteIsRead(s: Source)
    requires Proper(s)
    ensures ReadPalette(PaletteBytes(s.rgb, 256)) == PictureOf(s).palette
  {
    forall i | 0 <= i < 256 ensures ReadPalette(PaletteBytes(s.rgb, 256))[i] == PictureOf(s).palette[i] {
      PaletteByteAt(s.rgb, 256, i);
    }
  }

  lemma HeaderIsRead(s: Source)
    requires Proper(s)
    ensures var h := Header(s);
            PaletteHeader(h) && FromNetworkOrder(h[..4]) == s.width && FromNetworkOrder(h[4..8]) == s.height
  {
    RawSizeBoundsSides(s);
    NetworkOrderInverse(s.width as uint32);
    NetworkOrderInverse(s.height as uint32);
    hide NetworkOrder, FromNetworkOrder;
    var h := Header(s);
    assert h[..4] == NetworkOrder(s.width as uint32) && h[4..8] == NetworkOrder(s.height as uint32)
        && h[8..] == [8, 3, 0, 0, 0];
  }

  lemma KindsDiffer()
    ensures NetworkOrder(IHDR) == [73, 72, 68, 82] && NetworkOrder(PLTE) == [80, 76, 84, 69]
    ensures NetworkOrder(IDAT) == [73, 68, 65, 84] && NetworkOrder(IEND) == [73, 69, 78, 68]
  {
  }

  /** The chunks of a written file are exactly header, palette, data and end, in this order, with valid check values. */
  lemma ChunksInOrder(s: Source, z: seq<byte>)
    requires Proper(s) && |z| < WRAP
    ensures Encoding(s, z)[..8] == SIGNATURE
    ensures ReadChunks(Encoding(s, z)[8..])
            == Some([Chunk(NetworkOrder(IHDR), Header(s)), Chunk(NetworkOrder(PLTE), PaletteBytes(s.rgb, 256)),
                     Chunk(NetworkOrder(IDAT), z), Chunk(NetworkOrder(IEND), [])])
  {
    KindsDiffer();
    hide NetworkOrder, Layout, Header, PaletteBytes, ReadChunks;
    var four := Layout(IEND, []);
    var three := Layout(IDAT, z) + four;
    var two := Layout(PLTE, PaletteBytes(s.rgb, 256)) + three;
    assert Encoding(s, z)[8..] == Layout(IHDR, Header(s)) + two;
    LastLayoutIsRead();
    LayoutIsRead(IDAT, z, four);
    LayoutIsRead(PLTE, PaletteBytes(s.rgb, 256), three);
    LayoutIsRead(IHDR, Header(s), two);
    var c0, c1 := Chunk(NetworkOrder(IHDR), Header(s)), Chunk(NetworkOrder(PLTE), PaletteBytes(s.rgb, 256));
    var c2, c3 := Chunk(NetworkOrder(IDAT), z), Chunk(NetworkOrder(IEND), []);
    assert ReadChunks(four) == Some([c3]);
    assert ReadChunks(three) == Some([c2] + [c3]);
    assert ReadChunks(two) == Some([c1] + ([c2] + [c3]));
    assert [c0] + ([c1] + ([c2] + [c3])) == [c0, c1, c2, c3];
  }

  /** A written file reads back as the picture: its size, palette and every pixel, whatever the stride. */
  lemma RoundTrip(s: Source, zlib: Zlib)
    requires Proper(s) && Lossless(zlib)
    requires zlib.compress(Unfiltered(s, s.height), Room(s)).Some?
    ensures var z := zlib.compress(Unfiltered(s, s.height), Room(s)).value;
            |z| < WRAP && ReadPicture(Encoding(s, z), zlib.inflate) == Some(PictureOf(s))
  {
    var z := zlib.compress(Unfiltered(s, s.height), Room(s)).value;
    RawSizeBoundsSides(s);
    ChunksInOrder(s, z);
    KindsDiffer();
    HeaderIsRead(s);
    PaletteIsRead(s);
    RowsAreRead(s);
    hide NetworkOrder, FromNetworkOrder, Header, PaletteBytes, PaletteHeader, ReadPalette, ReadRows, Encoding,
        ReadChunks, Unfiltered;
    PictureIsRead(Encoding(s, z), zlib.inflate, Header(s), PaletteBytes(s.rgb, 256), z, Unfiltered(s, s.height),
        PictureOf(s).rows);
  }

  // ---- the bytes themselves ----

  lemma {:induction false} UnfilteredGrows(s: Source, n: nat, m: nat)
    requires Proper(s) && n <= m <= s.height
    ensures |Unfiltered(s, n)| == RawSize(s.width, n) <= |Unfiltered(s, m)|
    ensures Unfiltered(s, m)[..RawSize(s.width, n)] == Unfiltered(s, n)
    decreases m
  {
    if n == m {
      UnfilteredSize(s, n);
    } else {
      UnfilteredGrows(s, n, m - 1);
      OneRow(s, m);
      hide Unfiltered, RawSize;
    }
  }

  lemma {:induction false} UnfilteredSize(s: Source, n: nat)
    requires Proper(s) && n <= s.height
    ensures |Unfiltered(s, n)| == RawSize(s.width, n)
  {
    NextRow(s.width, s.scan, 0);
    if n > 0 {
      UnfilteredSize(s, n - 1);
      NextRow(s.width, s.scan, n - 1);
      hide RawSize;
    }
  }

  /** What is compressed: row i begins with a 0, and its pixel c is byte c of row i of the bitmap. */
  lemma CompressedBytes(s: Source, i: nat, c: nat, row: nat, pixel: nat)
    requires Proper(s) && i < s.height && c < s.width
    requires row == i * (s.width + 1) && pixel == i * s.scan + c
    ensures var raw := Unfiltered(s, s.height);
            && row + s.width < |raw| && pixel < |s.bitmap|
            && raw[row] == 0 && raw[row + 1 + c] == s.bitmap[pixel]
  {
    Places(s, i, row, pixel - c);
    PixelOfRow(s, i, c);
    hide *;
    UpToRow(s, i);
    LastRow(Unfiltered(s, s.height), Unfiltered(s, i), RowOf(s, i), c);
  }

  lemma UpToRow(s: Source, i: nat)
    requires Proper(s) && i < s.height
    ensures var raw, before := Unfiltered(s, s.height), Unfiltered(s, i);
            && |before| == RawSize(s.width, i) && |before| + 1 + s.width <= |raw|
            && raw[..|before| + 1 + s.width] == before + [0] + RowOf(s, i)
  {
    hide Unfiltered, RawSize, RowOf;
    UnfilteredSize(s, i);
    UnfilteredGrows(s, i + 1, s.height);
    OneRow(s, i + 1);
  }

  lemma Places(s: Source, i: nat, row: nat, start: nat)
    requires row == i * (s.width + 1) && start == i * s.scan
    ensures RawSize(s.width, i) == row && RowStart(i, s.scan) == start && RawSize(s.width, i + 1) == row + 1 + s.width
  {
    NextRow(s.width, s.scan, i);
  }

  lemma PixelOfRow(s: Source, i: nat, c: nat)
    requires Proper(s) && i < s.height && c < s.width
    ensures RowStart(i, s.scan) + c < |s.bitmap| && RowOf(s, i)[c] == s.bitmap[RowStart(i, s.scan) + c]
  {
    hide RowStart;
  }

  lemma LastRow(raw: seq<byte>, before: seq<byte>, row: seq<byte>, c: nat)
    requires c < |row| && |before| + 1 + |row| <= |raw| && raw[..|before| + 1 + |row|] == before + [0] + row
    ensures raw[|before|] == 0 && raw[|before| + 1 + c] == row[c]
  {
    var upTo := raw[..|before| + 1 + |row|];
    assert raw[|before|] == upTo[|before|] && raw[|before| + 1 + c] == upTo[|before| + 1 + c];
  }

  lemma SmallLengths()
    ensures NetworkOrder(13) == [0, 0, 0, 13] && NetworkOrder(768) == [0, 0, 3, 0] && NetworkOrder(0) == [0, 0, 0, 0]
  {
  }

  /** The fields of a chunk by their places. */
  lemma LayoutParts(kind: uint32, data: seq<byte>)
    requires |data| < WRAP
    ensures var l := Layout(kind, data);
            && |l| == 12 + |data| && l[..4] == NetworkOrder(|data| as uint32) && l[4..8] == NetworkOrder(kind)
            && l[8..8 + |data|] == data
  {
    hide NetworkOrder, Crc32, CrcField;
    FourFields(NetworkOrder(|data| as uint32), NetworkOrder(kind), data, CrcField(Crc32(0, NetworkOrder(kind) + data)),
        []);
    var l := Layout(kind, data);
    assert l + [] == l;
  }

  lemma EndChunk()
    ensures Layout(IEND, []) == [0, 0, 0, 0, 73, 69, 78, 68, 174, 66, 96, 130]
  {
    SmallLengths();
    KindsDiffer();
    PngCheck.EndCheck();
    hide NetworkOrder, Crc32, CrcField;
    var kind := NetworkOrder(IEND);
    assert kind + [] == kind == [73, 69, 78, 68];
    assert Layout(IEND, []) == [0, 0, 0, 0] + kind + [] + [174, 66, 96, 130];
  }

  /** Where the four chunks of a file stand. */
  lemma PlacesInFile(a: seq<byte>, b: seq<byte>, c: seq<byte>, d: seq<byte>)
    requires |a| == 25 && |b| == 780 && |d| == 12
    ensures var e := SIGNATURE + (a + (b + (c + d)));
            && |e| == 825 + |c| && e[..8] == SIGNATURE && e[8..33] == a && e[33..813] == b && e[|e| - 12..] == d
  {
  }

  lemma Within(e: seq<byte>, from: nat, to: nat, part: seq<byte>, lo: nat, hi: nat)
    requires from <= to <= |e| && e[from..to] == part && lo <= hi <= |part|
    ensures e[from + lo..from + hi] == part[lo..hi]
  {
    forall k | lo <= k < hi ensures e[from + k] == part[k] {
      assert e[from..to][k] == e[from + k];
    }
  }

  /** The chunks of a file by their places. */
  lemma FileParts(s: Source, z: seq<byte>)
    requires Proper(s) && |z| < WRAP
    ensures var e := Encoding(s, z);
            && |e| > 825 && e[0..8] == SIGNATURE && e[8..33] == Layout(IHDR, Header(s))
            && e[33..813] == Layout(PLTE, PaletteBytes(s.rgb, 256)) && e[|e| - 12..] == Layout(IEND, [])
  {
    var header, pal := Header(s), PaletteBytes(s.rgb, 256);
    var a, b, c, d := Layout(IHDR, header), Layout(PLTE, pal), Layout(IDAT, z), Layout(IEND, []);
    assert Encoding(s, z) == SIGNATURE + (a + (b + (c + d)));
    hide *;
    LayoutParts(IHDR, header);
    LayoutParts(PLTE, pal);
    LayoutParts(IDAT, z);
    LayoutParts(IEND, []);
    PlacesInFile(a, b, c, d);
  }

  /** The fields of a chunk that stands in a file. */
  lemma ChunkInFile(e: seq<byte>, from: nat, kind: uint32, data: seq<byte>)
    requires |data| < WRAP && from + 12 + |data| <= |e| && e[from..from + 12 + |data|] == Layout(kind, data)
    ensures e[from..from + 4] == NetworkOrder(|data| as uint32) && e[from + 4..from + 8] == NetworkOrder(kind)
    ensures e[from + 8..from + 8 + |data|] == data
  {
    hide *;
    LayoutParts(kind, data);
    var l := Layout(kind, data);
    Within(e, from, from + 12 + |data|, l, 0, 4);
    Within(e, from, from + 12 + |data|, l, 4, 8);
    Within(e, from, from + 12 + |data|, l, 8, 8 + |data|);
  }

  lemma TwoFours(e: seq<byte>, i: nat, a: seq<byte>, b: seq<byte>)
    requires i + 8 <= |e| && e[i..i + 4] == a && e[i + 4..i + 8] == b
    ensures e[i..i + 8] == a + b
  {
  }

  /**
   The fixed bytes of a file: the signature, the header chunk with eight bits a pixel and a palette, the palette chunk
   with 768 bytes, and the end chunk with its check value.
   */
  lemma FileBytes(s: Source, z: seq<byte>)
    requires Proper(s) && |z| < WRAP
    ensures var e := Encoding(s, z);
            && |e| > 825 && e[0..8] == [137, 80, 78, 71, 13, 10, 26, 10]
            && e[8..16] == [0, 0, 0, 13, 73, 72, 68, 82] && e[24..29] == [8, 3, 0, 0, 0]
            && e[33..41] == [0, 0, 3, 0, 80, 76, 84, 69]
            && e[|e| - 12..] == [0, 0, 0, 0, 73, 69, 78, 68, 174, 66, 96, 130]
  {
    hide Header, Layout, Encoding, NetworkOrder, PaletteBytes;
    FileParts(s, z);
    HeaderTail(s);
    TheSignature();
    EndChunk();
    var e := Encoding(s, z);
    ChunkInFile(e, 8, IHDR, Header(s));
    ChunkInFile(e, 33, PLTE, PaletteBytes(s.rgb, 256));
    Within(e, 16, 29, Header(s), 8, 13);
    ChunkHeads();
    TwoFours(e, 8, NetworkOrder(13), NetworkOrder(IHDR));
    TwoFours(e, 33, NetworkOrder(768), NetworkOrder(PLTE));
  }

  lemma ChunkHeads()
    ensures NetworkOrder(13) + NetworkOrder(IHDR) == [0, 0, 0, 13, 73, 72, 68, 82]
    ensures NetworkOrder(768) + NetworkOrder(PLTE) == [0, 0, 3, 0, 80, 76, 84, 69]
  {
    SmallLengths();
    KindsDiffer();
    hide NetworkOrder;
  }

  lemma TheSignature()
    ensures SIGNATURE == [137, 80, 78, 71, 13, 10, 26, 10]
  {
  }

  /** Width and height stand in the header with their highest byte first. */
  lemma FileSides(s: Source, z: seq<byte>)
    requires Proper(s) && |z| < WRAP
    ensures |Encoding(s, z)| > 825
    ensures HighestFirst(s.width, Encoding(s, z), 16) && HighestFirst(s.height, Encoding(s, z), 20)
  {
    FileParts(s, z);
    HeaderIsRead(s);
    hide *;
    var e := Encoding(s, z);
    ChunkInFile(e, 8, IHDR, Header(s));
    Within(e, 16, 29, Header(s), 0, 4);
    Within(e, 16, 29, Header(s), 4, 8);
    FirstFour(e, 16);
    FirstFour(e, 20);
  }

  /** The four bytes from place k on are those of n, the highest first. */
  predicate HighestFirst(n: nat, e: seq<byte>, k: nat) {
    && k + 4 <= |e|
    && n == e[k] as nat * 0x100_0000 + e[k + 1] as nat * 0x1_0000 + e[k + 2] as nat * 0x100 + e[k + 3] as nat
  }

  lemma FirstFour(e: seq<byte>, k: nat)
    requires k + 4 <= |e|
    ensures HighestFirst(FromNetworkOrder(e[k..k + 4]), e, k)
  {
  }

  lemma HeaderTail(s: Source)
    requires Proper(s)
    ensures Header(s)[8..13] == [8, 3, 0, 0, 0]
  {
    hide NetworkOrder;
    RawSizeBoundsSides(s);
  }

  // ---- the C library's stream ----

  function Cut(bytes: seq<byte>, room: nat): seq<byte> {
    if |bytes| <= room then bytes else bytes[..room]
  }

  /**
   How the library buffers: how much it can keep back, and how eager it is to hand on more than it must. For the i-th
   write of a stream that is at least eager[i] bytes of what is pending, and nothing beyond the end of the list.
   */
  datatype Library = Library(capacity: nat, eager: seq<nat>)

  /** What is on the disk, how much more it can take, what the library keeps back, and the writes so far. */
  datatype Stream = Stream(data: seq<byte>, room: nat, buffer: seq<byte>, writes: nat)

  function Opened(room: nat): Stream {
    Stream([], room, [], 0)
  }

  /** How many of the pending bytes a write hands on. */
  function HandedOn(l: Library, writes: nat, pending: nat): (count: nat)
    ensures count <= pending && pending - count <= l.capacity
  {
    var wanted := if writes < |l.eager| then Min(l.eager[writes], pending) else 0;
    if pending > l.capacity && wanted < pending - l.capacity then pending - l.capacity else wanted
  }

  /** One write. What does not fit fills the disk and makes the write fail. */
  function Put(l: Library, d: Stream, bytes: seq<byte>): (Stream, bool) {
    var pending := d.buffer + bytes;
    var count := HandedOn(l, d.writes, |pending|);
    if count <= d.room then (Stream(d.data + pending[..count], d.room - count, pending[count..], d.writes + 1), true)
    else (Stream(d.data + pending[..d.room], 0, [], d.writes + 1), false)
  }

  /** Writes one after the other, up to the first that fails. */
  function PutAll(l: Library, d: Stream, pieces: seq<seq<byte>>): (Stream, bool)
    decreases |pieces|
  {
    if pieces == [] then (d, true)
    else
      var r := Put(l, d, pieces[0]);
      if r.1 then PutAll(l, r.0, pieces[1..]) else r
  }

  function Joined(pieces: seq<seq<byte>>): seq<byte> {
    if pieces == [] then [] else pieces[0] + Joined(pieces[1..])
  }

  lemma {:induction false} PutAllAppend(l: Library, d: Stream, a: seq<seq<byte>>, b: seq<seq<byte>>)
    ensures PutAll(l, d, a + b) == var r := PutAll(l, d, a); if r.1 then PutAll(l, r.0, b) else r
    decreases |a|
  {
    hide Put;
    if a == [] {
      assert a + b == b;
    } else {
      assert (a + b)[0] == a[0] && (a + b)[1..] == a[1..] + b;
      PutAllAppend(l, Put(l, d, a[0]).0, a[1..], b);
    }
  }

  lemma PutAllOne(l: Library, d: Stream, piece: seq<byte>)
    ensures PutAll(l, d, [piece]) == Put(l, d, piece)
  {
    hide Put;
    assert [piece][1..] == [];
  }

  lemma {:induction false} JoinedAppend(a: seq<seq<byte>>, b: seq<seq<byte>>)
    ensures Joined(a + b) == Joined(a) + Joined(b)
  {
    if a == [] {
      assert a + b == b;
    } else {
      assert (a + b)[0] == a[0] && (a + b)[1..] == a[1..] + b;
      JoinedAppend(a[1..], b);
      assert a[0] + (Joined(a[1..]) + Joined(b)) == a[0] + Joined(a[1..]) + Joined(b);
    }
  }

  /** All bytes written so far are on the disk or kept back, and an idle library keeps back what it can. */
  predicate Holds(l: Library, d: Stream, all: seq<byte>, initial: nat) {
    && d.data + d.buffer == all && |d.data| + d.room == initial && |d.buffer| <= l.capacity
    && (l.eager == [] ==> |d.buffer| == Min(|all|, l.capacity))
  }

  /** The disk is full with the first bytes of all that was to be written. */
  predicate Overrun(d: Stream, all: seq<byte>, initial: nat) {
    d.data == Cut(all, initial) && initial < |all| && d.room == 0 && d.buffer == []
  }

  lemma PutOutcome(l: Library, d: Stream, bytes: seq<byte>, all: seq<byte>, initial: nat)
    requires Holds(l, d, all, initial)
    ensures var (r, ok) := Put(l, d, bytes);
            && (if ok then Holds(l, r, all + bytes, initial) else Overrun(r, all + bytes, initial))
            && (l.eager == [] ==> (ok <==> |all + bytes| <= initial + l.capacity))
  {
    var pending := d.buffer + bytes;
    var count := HandedOn(l, d.writes, |pending|);
    assert d.data + pending == all + bytes;
    if count <= d.room {
      assert d.data + pending[..count] + pending[count..] == d.data + pending;
    } else {
      assert d.data + pending[..d.room] == (d.data + pending)[..initial];
    }
  }

  lemma OverrunExtends(d: Stream, a: seq<byte>, b: seq<byte>, initial: nat)
    requires Overrun(d, a, initial)
    ensures Overrun(d, a + b, initial)
  {
  }

  /** What becomes of a run of writes, and when an idle library accepts them all. */
  lemma {:induction false} PutAllOutcome(l: Library, d: Stream, pieces: seq<seq<byte>>, all: seq<byte>, initial: nat)
    requires Holds(l, d, all, initial)
    ensures var r := PutAll(l, d, pieces);
            if r.1 then Holds(l, r.0, all + Joined(pieces), initial) else Overrun(r.0, all + Joined(pieces), initial)
    ensures l.eager == [] && |all| <= initial + l.capacity ==>
              (PutAll(l, d, pieces).1 <==> |all + Joined(pieces)| <= initial + l.capacity)
    decreases |pieces|
  {
    hide Put, Holds, Overrun;
    if pieces == [] {
      assert all + [] == all;
    } else {
      var r := Put(l, d, pieces[0]);
      PutOutcome(l, d, pieces[0], all, initial);
      assert all + pieces[0] + Joined(pieces[1..]) == all + Joined(pieces);
      if r.1 {
        PutAllOutcome(l, r.0, pieces[1..], all + pieces[0], initial);
      } else {
        OverrunExtends(r.0, all + pieces[0], Joined(pieces[1..]), initial);
      }
    }
  }

  /** What is on the disk after the stream was closed: the rest is handed on as far as it fits. */
  function Closed(d: Stream): Stream {
    Stream(d.data + Cut(d.buffer, d.room), d.room - |Cut(d.buffer, d.room)|, [], d.writes)
  }

  lemma ClosedData(l: Library, d: Stream, all: seq<byte>, initial: nat)
    requires Holds(l, d, all, initial) || Overrun(d, all, initial)
    ensures Closed(d).data == Cut(all, initial)
  {
    if Holds(l, d, all, initial) {
      assert d.data + Cut(d.buffer, d.room) == Cut(d.data + d.buffer, |d.data| + d.room);
    } else {
      assert d.data + [] == d.data;
    }
  }

  /** Length, type, data if there are any, and the check value. */
  function ChunkPieces(kind: uint32, payload: seq<byte>): seq<seq<byte>>
    requires |payload| < WRAP
  {
    [NetworkOrder(|payload| as uint32)] + [NetworkOrder(kind)] + (if payload == [] then [] else [payload])
    + [CrcField(Crc32(0, NetworkOrder(kind) + payload))]
  }

  lemma JoinedOne(piece: seq<byte>)
    ensures Joined([piece]) == piece
  {
    assert [piece][1..] == [] && piece + [] == piece;
  }

  lemma JoinedChunk(kind: uint32, payload: seq<byte>)
    requires |payload| < WRAP
    ensures Joined(ChunkPieces(kind, payload)) == Layout(kind, payload)
  {
    var a, b, c := NetworkOrder(|payload| as uint32), NetworkOrder(kind),
        CrcField(Crc32(0, NetworkOrder(kind) + payload));
    var middle := if payload == [] then [] else [payload];
    assert ChunkPieces(kind, payload) == [a] + [b] + middle + [c];
    assert Layout(kind, payload) == a + b + payload + c;
    hide *;
    JoinedMiddle(payload, middle);
    JoinedAppend([a], [b]);
    JoinedAppend([a] + [b], middle);
    JoinedAppend([a] + [b] + middle, [c]);
    JoinedOne(a);
    JoinedOne(b);
    JoinedOne(c);
  }

  lemma JoinedMiddle(payload: seq<byte>, middle: seq<seq<byte>>)
    requires middle == if payload == [] then [] else [payload]
    ensures Joined(middle) == payload
  {
    JoinedOne(payload);
  }

  /** An open file. */
  class File {
    var data: seq<byte>
    var room: nat
    var buffer: seq<byte>
    var writes: nat
    const library: Library

    constructor (room: nat, library: Library)
      ensures View() == Opened(room) && this.library == library
    {
      data, this.room, buffer, writes, this.library := [], room, [], 0, library;
    }

    ghost function View(): Stream
      reads this
    {
      Stream(data, room, buffer, writes)
    }

    method Write(bytes: seq<byte>) returns (ok: bool)
      modifies this
      ensures (View(), ok) == Put(library, old(View()), bytes)
    {
      var pending := buffer + bytes;
      var count := if writes < |library.eager| then Min(library.eager[writes], |pending|) else 0;
      if |pending| > library.capacity && count < |pending| - library.capacity {
        count := |pending| - library.capacity;
      }
      writes := writes + 1;
      ok := count <= room;
      if ok {
        data, buffer, room := data + pending[..count], pending[count..], room - count;
      } else {
        data, buffer, room := data + pending[..room], [], 0;
      }
    }

    /** Closing hands on the rest, as far as it fits. Its failure is not looked at. */
    method Close()
      modifies this
      ensures View() == Closed(old(View()))
    {
      var stored := Cut(buffer, room);
      data, room, buffer := data + stored, room - |stored|, [];
    }

    /** Length, type, data if there are any, and the check value continued from the type over the data. */
    method WriteChunk(kind: uint32, payload: seq<byte>) returns (ok: bool)
      requires |payload| < WRAP
      modifies this
      ensures (View(), ok) == PutAll(library, old(View()), ChunkPieces(kind, payload))
    {
      CrcContinues(0, NetworkOrder(kind), payload);
      var length, tag, crc := NetworkOrder(|payload| as uint32), NetworkOrder(kind), Crc32(0, NetworkOrder(kind));
      ghost var last := CrcField(Crc32(0, tag + payload));
      ghost var middle, start := if payload == [] then [] else [payload], View();
      assert ChunkPieces(kind, payload) == [length] + [tag] + middle + [last];
      hide NetworkOrder, Crc32, CrcField, ChunkPieces, Put, PutAll;
      PutAllParts(library, start, [length], [tag], middle, [last]);
      PutAllOne(library, View(), length);
      ok := Write(length);
      if !ok { return; }
      PutAllOne(library, View(), tag);
      ok := Write(tag);
      if !ok { return; }
      PutAllOne(library, View(), payload);
      PutAllNone(library, View());
      if |payload| != 0 {
        ok := Write(payload);
        if !ok { return; }
        crc := Crc32(crc, payload);
      } else {
        assert tag + payload == tag;
      }
      PutAllOne(library, View(), last);
      ok := Write(CrcField(crc));
    }
  }

  lemma PutAllNone(l: Library, d: Stream)
    ensures PutAll(l, d, []) == (d, true)
  {
  }

  /** Four runs of writes, up to the first that fails. */
  lemma PutAllParts(l: Library, d: Stream, a: seq<seq<byte>>, b: seq<seq<byte>>, c: seq<seq<byte>>, e: seq<seq<byte>>)
    ensures PutAll(l, d, a + b + c + e) ==
            var r := PutAll(l, d, a);
            if !r.1 then r else
            var s := PutAll(l, r.0, b);
            if !s.1 then s else
            var t := PutAll(l, s.0, c);
            if !t.1 then t else PutAll(l, t.0, e)
  {
    hide PutAll;
    PutAllAppend(l, d, a, b);
    PutAllAppend(l, d, a + b, c);
    PutAllAppend(l, d, a + b + c, e);
  }

  // ---- writing ----

  method MemCpy(dst: array<byte>, to: nat, src: seq<byte>, from: nat, count: nat)
    requires to + count <= dst.Length && from + count <= |src|
    modifies dst
    ensures dst[..to + count] == old(dst[..to]) + src[from..from + count]
  {
    forall k | 0 <= k < count { dst[to + k] := src[from + k]; }
  }

  /** One row behind filter type 0. */
  method FilterRow(dst: array<byte>, to: nat, src: seq<byte>, from: nat, width: nat)
    requires to + 1 + width <= dst.Length && from + width <= |src|
    modifies dst
    ensures dst[..to + 1 + width] == old(dst[..to]) + [0] + src[from..from + width]
  {
    dst[to] := 0;
    assert dst[..to + 1] == old(dst[..to]) + [0];
    MemCpy(dst, to + 1, src, from, width);
  }

  lemma RowIs(s: Source, i: nat)
    requires Proper(s) && i < s.height
    ensures RowStart(i, s.scan) + s.width <= |s.bitmap|
    ensures RowOf(s, i) == s.bitmap[RowStart(i, s.scan)..RowStart(i, s.scan) + s.width]
  {
    hide RowStart;
  }

  /** The next row of the buffer. */
  method FilterNext(s: Source, pBits: array<byte>, i: nat, pSrc: nat, pDst: nat)
    requires Proper(s) && i < s.height && pSrc == RowStart(i, s.scan) && pDst + 1 + s.width <= pBits.Length
    requires pBits[..pDst] == Unfiltered(s, i)
    modifies pBits
    ensures pBits[..pDst + 1 + s.width] == Unfiltered(s, i + 1)
  {
    OneRow(s, i + 1);
    RowIs(s, i);
    hide *;
    FilterRow(pBits, pDst, s.bitmap, pSrc, s.width);
  }

  method FilterRows(s: Source) returns (pBits: array<byte>)
    requires Proper(s)
    ensures pBits[..] == Unfiltered(s, s.height)
  {
    pBits := new byte[RawSize(s.width, s.height)];
    var pSrc, pDst := 0, 0;
    NextRow(s.width, s.scan, 0);
    for i := 0 to s.height
      invariant pSrc == RowStart(i, s.scan) && pDst == RawSize(s.width, i) <= pBits.Length
      invariant pBits[..pDst] == Unfiltered(s, i)
    {
      NextRow(s.width, s.scan, i);
      RawSizeMonotone(s.width, i + 1, s.height);
      hide RawSize, RowStart, Unfiltered;
      FilterNext(s, pBits, i, pSrc, pDst);
      pSrc := pSrc + s.scan;
      pDst := pDst + 1 + s.width;
    }
  }

  method FillPalette(rgb: seq<RgbQuad>) returns (pal: array<byte>)
    requires |rgb| == 256
    ensures pal[..] == PaletteBytes(rgb, 256)
  {
    pal := new byte[256 * 3];
    for i := 0 to 256
      invariant pal[..3 * i] == PaletteBytes(rgb, i)
    {
      pal[i * 3 + 0] := rgb[i].red;
      pal[i * 3 + 1] := rgb[i].green;
      pal[i * 3 + 2] := rgb[i].blue;
      assert pal[..3 * (i + 1)] == pal[..3 * i] + [rgb[i].red, rgb[i].green, rgb[i].blue];
    }
  }

  /** What a call tries to store: without memory or compressed data it stops after the signature. */
  function Attempted(s: Source, zlib: Zlib, memory: bool): seq<byte>
    requires Proper(s)
  {
    var z := zlib.compress(Unfiltered(s, s.height), Room(s));
    if memory && z.Some? && |z.value| < WRAP then Encoding(s, z.value) else SIGNATURE
  }

  /** There is memory, and the data were compressed. */
  predicate Prepared(s: Source, zlib: Zlib, memory: bool)
    requires Proper(s)
  {
    memory && zlib.compress(Unfiltered(s, s.height), Room(s)).Some?
  }

  function PicturePieces(s: Source, z: seq<byte>): seq<seq<byte>>
    requires Proper(s) && |z| < WRAP
  {
    ChunkPieces(IHDR, Header(s)) + ChunkPieces(PLTE, PaletteBytes(s.rgb, 256))
    + ChunkPieces(IDAT, z) + ChunkPieces(IEND, [])
  }

  /** The writes of a call in their order. */
  function Pieces(s: Source, zlib: Zlib, memory: bool): seq<seq<byte>>
    requires Proper(s)
  {
    var z := zlib.compress(Unfiltered(s, s.height), Room(s));
    [SIGNATURE] + if memory && z.Some? && |z.value| < WRAP then PicturePieces(s, z.value) else []
  }

  lemma JoinedPicture(s: Source, z: seq<byte>)
    requires Proper(s) && |z| < WRAP
    ensures Joined([SIGNATURE] + PicturePieces(s, z)) == Encoding(s, z)
  {
    JoinedChunk(IHDR, Header(s));
    JoinedChunk(PLTE, PaletteBytes(s.rgb, 256));
    JoinedChunk(IDAT, z);
    JoinedChunk(IEND, []);
    var a, b, c, d := ChunkPieces(IHDR, Header(s)), ChunkPieces(PLTE, PaletteBytes(s.rgb, 256)),
                      ChunkPieces(IDAT, z), ChunkPieces(IEND, []);
    assert PicturePieces(s, z) == a + b + c + d;
    assert Encoding(s, z) == SIGNATURE + (Joined(a) + (Joined(b) + (Joined(c) + Joined(d))));
    hide *;
    JoinedOne(SIGNATURE);
    JoinedAppend(a, b);
    JoinedAppend(a + b, c);
    JoinedAppend(a + b + c, d);
    JoinedAppend([SIGNATURE], a + b + c + d);
    FourParts(Joined(a), Joined(b), Joined(c), Joined(d));
  }

  lemma FourParts(a: seq<byte>, b: seq<byte>, c: seq<byte>, d: seq<byte>)
    ensures a + b + c + d == a + (b + (c + d))
  {
  }

  lemma JoinedPieces(s: Source, zlib: Zlib, memory: bool)
    requires Proper(s)
    ensures Joined(Pieces(s, zlib, memory)) == Attempted(s, zlib, memory)
  {
    var z := zlib.compress(Unfiltered(s, s.height), Room(s));
    hide PicturePieces, Encoding;
    if memory && z.Some? && |z.value| < WRAP {
      JoinedPicture(s, z.value);
    } else {
      JoinedOne(SIGNATURE);
      assert [SIGNATURE] + [] == [SIGNATURE];
    }
  }

  /** What a call leaves on a disk with so much room, and what it answers. */
  function Written(l: Library, s: Source, zlib: Zlib, memory: bool, room: nat): (seq<byte>, bool)
    requires Proper(s)
  {
    var r := PutAll(l, Opened(room), Pieces(s, zlib, memory));
    (Closed(r.0).data, r.1 && Prepared(s, zlib, memory))
  }

  /** A stream that lacks its end is no picture. */
  lemma TruncatedPictureIsNotRead(stream: seq<byte>, room: nat, inflate: seq<byte> -> Option<seq<byte>>)
    requires |stream| >= 8 && room < |stream|
    ensures ReadChunks(stream[8..]).Some? ==> ReadPicture(Cut(stream, room), inflate) == None
  {
    hide ReadChunks, ReadPicture;
    if 8 <= room {
      TruncatedIsNotRead(stream[8..], room - 8);
      assert stream[..room][8..] == stream[8..][..room - 8];
    }
    if ReadChunks(stream[8..]).Some? { NoPicture(Cut(stream, room), inflate); }
  }

  lemma SignatureIsNotRead(room: nat, inflate: seq<byte> -> Option<seq<byte>>)
    ensures ReadPicture(Cut(SIGNATURE, room), inflate) == None
  {
    var stored := Cut(SIGNATURE, room);
    if 8 <= |stored| {
      assert stored[8..] == [];
    }
    NoPicture(stored, inflate);
    hide ReadPicture;
  }

  /** What is on the disk reads back as the picture if it was attempted and fitted, and otherwise not at all. */
  lemma StoredPictureIsRead(s: Source, zlib: Zlib, memory: bool, room: nat)
    requires Proper(s) && Lossless(zlib)
    ensures ReadPicture(Cut(Attempted(s, zlib, memory), room), zlib.inflate)
         == if Prepared(s, zlib, memory) && |Attempted(s, zlib, memory)| <= room then Some(PictureOf(s)) else None
  {
    hide Unfiltered, Encoding, PictureOf, Lossless, ReadPicture, ReadChunks, Room;
    if Prepared(s, zlib, memory) {
      var z := zlib.compress(Unfiltered(s, s.height), Room(s)).value;
      RoundTrip(s, zlib);
      if room < |Encoding(s, z)| {
        ChunksInOrder(s, z);
        TruncatedPictureIsNotRead(Encoding(s, z), room, zlib.inflate);
      }
    } else {
      SignatureIsNotRead(room, zlib.inflate);
    }
  }

  /**
   What comes of a call. The disk holds as much of the attempt as fitted. The answer is right about everything that
   fits, and a true answer promises no more than that the attempt exceeds the room by at most the buffer, which is
   exactly what an idle library makes of it.
   */
  lemma WrittenOutcome(l: Library, s: Source, zlib: Zlib, memory: bool, room: nat)
    requires Proper(s)
    ensures var (data, ok) := Written(l, s, zlib, memory, room); var size := |Attempted(s, zlib, memory)|;
            && data == Cut(Attempted(s, zlib, memory), room)
            && (Prepared(s, zlib, memory) && size <= room ==> ok)
            && (ok ==> Prepared(s, zlib, memory) && size <= room + l.capacity)
            && (l.eager == [] ==> (ok <==> Prepared(s, zlib, memory) && size <= room + l.capacity))
  {
    hide Pieces, Attempted, Prepared, PutAll, Joined;
    var pieces := Pieces(s, zlib, memory);
    JoinedPieces(s, zlib, memory);
    PutAllOutcome(l, Opened(room), pieces, [], room);
    assert [] + Joined(pieces) == Joined(pieces);
    ClosedData(l, PutAll(l, Opened(room), pieces).0, Joined(pieces), room);
  }

  lemma AttemptBeginsWithSignature(s: Source, zlib: Zlib, memory: bool) returns (rest: seq<byte>)
    requires Proper(s)
    ensures Attempted(s, zlib, memory) == SIGNATURE + rest
  {
    JoinedPieces(s, zlib, memory);
    rest := Joined(Pieces(s, zlib, memory)[1..]);
    hide Attempted, PicturePieces;
  }

  lemma CutHead(all: seq<byte>, room: nat, head: seq<byte>)
    requires |head| <= |all| && all[0..|head|] == head
    ensures |head| <= |Cut(all, room)| ==> Cut(all, room)[0..|head|] == head
  {
  }

  lemma AttemptedHead(s: Source, zlib: Zlib, memory: bool)
    requires Proper(s)
    ensures var all := Attempted(s, zlib, memory); |all| >= 8 && all[0..8] == SIGNATURE
  {
    var rest := AttemptBeginsWithSignature(s, zlib, memory);
    hide Attempted;
    assert (SIGNATURE + rest)[0..8] == SIGNATURE;
  }

  lemma AttemptedTail(s: Source, zlib: Zlib)
    requires Proper(s) && Lossless(zlib) && Prepared(s, zlib, true)
    ensures var all := Attempted(s, zlib, true);
            |all| > 825 && all[|all| - 12..] == [0, 0, 0, 0, 73, 69, 78, 68, 174, 66, 96, 130]
  {
    TheAttempt(s, zlib);
    hide *;
    FileBytes(s, zlib.compress(Unfiltered(s, s.height), Room(s)).value);
  }

  lemma TheAttempt(s: Source, zlib: Zlib)
    requires Proper(s) && Lossless(zlib) && Prepared(s, zlib, true)
    ensures var z := zlib.compress(Unfiltered(s, s.height), Room(s));
            z.Some? && |z.value| < WRAP && Attempted(s, zlib, true) == Encoding(s, z.value)
  {
    RoundTrip(s, zlib);
    hide Unfiltered, Encoding, Lossless, ReadPicture, Room;
  }

  /** What is on the disk begins with the signature, and a complete file ends with the end chunk. */
  lemma StoredBytes(s: Source, zlib: Zlib, memory: bool, room: nat)
    requires Proper(s) && Lossless(zlib)
    ensures var stored := Cut(Attempted(s, zlib, memory), room);
            && (8 <= |stored| ==> stored[0..8] == [137, 80, 78, 71, 13, 10, 26, 10])
            && (Prepared(s, zlib, memory) && |Attempted(s, zlib, memory)| <= room ==>
                  |stored| > 825 && stored[|stored| - 12..] == [0, 0, 0, 0, 73, 69, 78, 68, 174, 66, 96, 130])
  {
    assert Prepared(s, zlib, memory) ==> memory;
    hide Attempted, Prepared, Lossless, Proper;
    AttemptedHead(s, zlib, memory);
    TheSignature();
    CutHead(Attempted(s, zlib, memory), room, SIGNATURE);
    if Prepared(s, zlib, memory) {
      AttemptedTail(s, zlib);
    }
  }

  /** The answer is not what the disk holds. */
  predicate WrongAnswer(l: Library, s: Source, zlib: Zlib, memory: bool, room: nat)
    requires Proper(s)
  {
    var (data, ok) := Written(l, s, zlib, memory, room);
    ok != (ReadPicture(data, zlib.inflate) == Some(PictureOf(s)))
  }

  /**
   Whether the answer can be wrong, over everything a library with a buffer of this size may do: exactly for pictures
   that exceed the room by at most the buffer. It is then true without a picture on the disk, never the other way
   round.
   */
  lemma AnswerCanBeWrongExactlyWhen(s: Source, zlib: Zlib, memory: bool, room: nat, capacity: nat)
    requires Proper(s) && Lossless(zlib)
    ensures (exists eager :: WrongAnswer(Library(capacity, eager), s, zlib, memory, room))
            <==> Prepared(s, zlib, memory) && room < |Attempted(s, zlib, memory)| <= room + capacity
    ensures forall eager :: WrongAnswer(Library(capacity, eager), s, zlib, memory, room) ==>
              var (data, ok) := Written(Library(capacity, eager), s, zlib, memory, room);
              ok && ReadPicture(data, zlib.inflate) == None
  {
    hide Written, Prepared, Attempted, Lossless, ReadPicture, PictureOf, Cut;
    StoredPictureIsRead(s, zlib, memory, room);
    forall eager
      ensures WrongAnswer(Library(capacity, eager), s, zlib, memory, room) ==>
                && Prepared(s, zlib, memory) && room < |Attempted(s, zlib, memory)| <= room + capacity
                && var (data, ok) := Written(Library(capacity, eager), s, zlib, memory, room);
                   ok && ReadPicture(data, zlib.inflate) == None
    {
      WrittenOutcome(Library(capacity, eager), s, zlib, memory, room);
    }
    WrittenOutcome(Library(capacity, []), s, zlib, memory, room);
    assert Prepared(s, zlib, memory) && room < |Attempted(s, zlib, memory)| <= room + capacity ==>
             WrongAnswer(Library(capacity, []), s, zlib, memory, room);
  }

  /** The four chunks behind the signature. */
  method WriteChunks(fp: File, s: Source, pal: seq<byte>, z: seq<byte>) returns (ok: bool)
    requires Proper(s) && |z| < WRAP && pal == PaletteBytes(s.rgb, 256)
    modifies fp
    ensures (fp.View(), ok) == PutAll(fp.library, old(fp.View()), PicturePieces(s, z))
  {
    var header := Header(s);
    PutAllParts(fp.library, fp.View(), ChunkPieces(IHDR, header), ChunkPieces(PLTE, pal), ChunkPieces(IDAT, z),
        ChunkPieces(IEND, []));
    assert PicturePieces(s, z)
        == ChunkPieces(IHDR, header) + ChunkPieces(PLTE, pal) + ChunkPieces(IDAT, z) + ChunkPieces(IEND, []);
    hide Header, PaletteBytes, ChunkPieces, PutAll, PicturePieces;
    ok := fp.WriteChunk(IHDR, header);
    if !ok { return; }
    ok := fp.WriteChunk(PLTE, pal);
    if !ok { return; }
    ok := fp.WriteChunk(IDAT, z);
    if !ok { return; }
    ok := fp.WriteChunk(IEND, []);
  }

  /** All of a call but the closing. */
  method WriteAll(fp: File, s: Source, zlib: Zlib, memory: bool) returns (ok: bool)
    requires Proper(s) && Lossless(zlib)
    modifies fp
    ensures var r := PutAll(fp.library, old(fp.View()), Pieces(s, zlib, memory));
            fp.View() == r.0 && ok == (r.1 && Prepared(s, zlib, memory))
  {
    ghost var start := fp.View();
    ghost var chunks := Pieces(s, zlib, memory)[1..];
    assert Pieces(s, zlib, memory) == [SIGNATURE] + chunks;
    PutAllAppend(fp.library, start, [SIGNATURE], chunks);
    PutAllOne(fp.library, start, SIGNATURE);
    hide Put, PutAll, PicturePieces;
    ok := fp.Write(SIGNATURE);
    if !ok { return; }
    PutAllNone(fp.library, fp.View());
    if !memory { return false; }
    var pBits := FilterRows(s);
    var z := zlib.compress(pBits[..], Room(s));
    if z.None? { return false; }
    RoundTrip(s, zlib);
    var pal := FillPalette(s.rgb);
    hide Unfiltered, PaletteBytes, ReadPicture, PictureOf, Room, Lossless, Encoding;
    ok := WriteChunks(fp, s, pal[..], z.value);
  }

  /**
   Writes the picture to a freshly opened file and closes it, whatever happened. The file reads back as the picture if
   all of it fitted on the disk, and otherwise not at all; the answer is about what the library took.
   */
  method WritePicture(fp: File, s: Source, zlib: Zlib, memory: bool) returns (ok: bool)
    requires Proper(s) && Lossless(zlib) && fp.View() == Opened(fp.room)
    modifies fp
    ensures (fp.data, ok) == Written(fp.library, s, zlib, memory, old(fp.room))
    ensures ReadPicture(fp.data, zlib.inflate)
         == if Prepared(s, zlib, memory) && |Attempted(s, zlib, memory)| <= old(fp.room)
            then Some(PictureOf(s)) else None
    ensures fp.library.eager == [] ==>
              (ok <==> Prepared(s, zlib, memory) && |Attempted(s, zlib, memory)| <= old(fp.room) + fp.library.capacity)
    ensures 8 <= |fp.data| ==> fp.data[0..8] == [137, 80, 78, 71, 13, 10, 26, 10]
    ensures Prepared(s, zlib, memory) && |Attempted(s, zlib, memory)| <= old(fp.room) ==>
              |fp.data| > 825 && fp.data[|fp.data| - 12..] == [0, 0, 0, 0, 73, 69, 78, 68, 174, 66, 96, 130]
  {
    StoredBytes(s, zlib, memory, fp.room);
    WrittenOutcome(fp.library, s, zlib, memory, fp.room);
    StoredPictureIsRead(s, zlib, memory, fp.room);
    hide Pieces, Attempted, Prepared, PutAll, ReadPicture, PictureOf;
    ok := WriteAll(fp, s, zlib, memory);
    fp.Close();
  }

  /** A picture a little too large for the disk: the answer is true, and the file is not a picture. */
  method AnswersTrueOnFullDisk(s: Source, zlib: Zlib, room: nat, capacity: nat) returns (fp: File, ok: bool)
    requires Proper(s) && Lossless(zlib)
    ensures Prepared(s, zlib, true) && room < |Attempted(s, zlib, true)| <= room + capacity ==>
              ok && ReadPicture(fp.data, zlib.inflate) == None
  {
    hide Attempted, Prepared, ReadPicture, PictureOf, Lossless;
    fp := new File(room, Library(capacity, []));
    ok := WritePicture(fp, s, zlib, true);
  }
}
