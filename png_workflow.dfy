/** The PNG file `save_image_with_json` in workflow_manager.py writes to
    carry a workflow, and `extract_json_from_png`, which reads the workflow
    back. The layout follows the W3C PNG Specification (Second Edition):
    the signature (section 5.2), chunks of a big-endian length, a type,
    the data and a CRC-32 over type and data (sections 5.3 and 5.5), then
    IHDR, a `tEXt` chunk with keyword `workflow`, sRGB, gAMA, the image's
    IDAT chunks as PIL encoded them, and IEND. */
module PngWorkflow {
  import opened Common

  const Two32: nat := 0x1_0000_0000

  /** Python `struct.pack('>I', n)`. */
  function Be32(n: nat): (r: seq<byte>)
    requires n < Two32
    ensures |r| == 4
  {
    [n / 0x100_0000, n / 0x1_0000 % 256, n / 256 % 256, n % 256]
  }

  /** Python `struct.unpack('>I', b)[0]`. */
  function Be32Value(b: seq<byte>): (n: nat)
    requires |b| == 4
    ensures n < Two32
  {
    b[0] as int * 0x100_0000 + b[1] as int * 0x1_0000 + b[2] as int * 256 + b[3] as int
  }

  lemma Be32RoundTrip(n: nat)
    requires n < Two32
    ensures Be32Value(Be32(n)) == n
  {
    var a := n / 256;
    var b := a / 256;
    var c := b / 256;
    assert n == a * 256 + n % 256;
    assert a == b * 256 + a % 256;
    assert b == c * 256 + b % 256;
    assert n / 0x1_0000 == b;
    assert n / 0x100_0000 == c;
  }

  /** `zlib.crc32`, the CRC-32 of section 5.5, is a library call outside
      the model: the writer and the reader take it as a parameter, and all
      that the model relies on is that its values fit the four-byte field. */
  ghost predicate IsCrc(crc: seq<byte> -> nat) {
    forall s :: crc(s) < Two32
  }

  // ---------------------------------------------------------------------
  // Chunks.

  const Signature: seq<byte> := [137, 80, 78, 71, 13, 10, 26, 10]
  const IhdrType: seq<byte> := [73, 72, 68, 82]   // "IHDR"
  const TextType: seq<byte> := [116, 69, 88, 116] // "tEXt"
  const SrgbType: seq<byte> := [115, 82, 71, 66]  // "sRGB"
  const GamaType: seq<byte> := [103, 65, 77, 65]  // "gAMA"
  const IdatType: seq<byte> := [73, 68, 65, 84]   // "IDAT"
  const IendType: seq<byte> := [73, 69, 78, 68]   // "IEND"
  const Keyword: seq<byte> := [119, 111, 114, 107, 102, 108, 111, 119] // "workflow"

  /** "tEXtworkflow" and the null separator: what the reader searches for. */
  const TextMarker: seq<byte> := [116, 69, 88, 116, 119, 111, 114, 107, 102, 108, 111, 119, 0]

  /** The bytes of a chunk with CRC field `c`: length, type, data, CRC. */
  function Frame(kind: seq<byte>, data: seq<byte>, c: nat): (r: seq<byte>)
    requires |data| < Two32 && c < Two32
    ensures |r| == |kind| + |data| + 8
  {
    Be32(|data|) + kind + data + Be32(c)
  }

  /** One chunk as written: length, type, data, CRC of type and data. */
  function Chunk(crc: seq<byte> -> nat, kind: seq<byte>, data: seq<byte>): (r: seq<byte>)
    requires IsCrc(crc) && |data| < Two32
    ensures |r| == |kind| + |data| + 8
  {
    Frame(kind, data, crc(kind + data))
  }

  /** IHDR data (section 11.2.2): width, height, bit depth 8, colour type
      6 (RGBA), compression, filter and interlace method 0. */
  function IhdrData(width: nat, height: nat): (r: seq<byte>)
    requires width < Two32 && height < Two32
    ensures |r| == 13
  {
    Be32(width) + Be32(height) + [8, 6, 0, 0, 0]
  }

  /** tEXt data (section 11.3.4.3): keyword, null separator, text. */
  function TextData(json: seq<byte>): (r: seq<byte>)
    ensures |r| == |json| + 9
  {
    Keyword + [0] + json
  }

  /** gAMA data (section 11.3.3.2): gamma 1/2.2 times 100000. */
  const Gamma: nat := 45455

  function Min(a: nat, b: nat): nat {
    if a <= b then a else b
  }

  /** The IDAT chunks copied from PIL's encoding of the image, searching
      from `from`: each is taken from four bytes before an "IDAT" for the
      length those four bytes give, cut short at the end of the encoding.
      An "IDAT" within the first four bytes leaves no length to read, and
      `struct.unpack` fails. */
  function IdatsFrom(img: seq<byte>, from: nat): Option<seq<byte>>
    decreases if from <= |img| then |img| - from + 1 else 0
  {
    var i := FindFrom(img, IdatType, from);
    if i == -1 then Some([])
    else if i < 4 then None
    else
      var chunkEnd := i + 4 + Be32Value(img[i - 4..i]) + 4;
      match IdatsFrom(img, chunkEnd)
      case None => None
      case Some(rest) => Some(img[i - 4..Min(chunkEnd, |img|)] + rest)
  }

  /** `prefix` followed by an optional continuation. */
  function Then(prefix: seq<byte>, rest: Option<seq<byte>>): Option<seq<byte>> {
    match rest
    case None => None
    case Some(r) => Some(prefix + r)
  }

  /** The CRC fields of the five chunks the writer makes itself. */
  datatype Crcs = Crcs(ihdr: nat, text: nat, srgb: nat, gama: nat, iend: nat)

  predicate CrcsFit(k: Crcs) {
    k.ihdr < Two32 && k.text < Two32 && k.srgb < Two32 && k.gama < Two32 && k.iend < Two32
  }

  /** The pieces laid one after the other. */
  function Concat(pieces: seq<seq<byte>>): seq<byte> {
    if pieces == [] then [] else pieces[0] + Concat(pieces[1..])
  }

  /** The layout of the written file around the copied IDAT chunks `idats`,
      with the CRC fields `k`. */
  function Framed(width: nat, height: nat, json: seq<byte>, idats: seq<byte>, k: Crcs): (r: seq<byte>)
    requires width < Two32 && height < Two32 && |json| + 9 < Two32 && CrcsFit(k)
    ensures |r| == |json| + |idats| + 95
  {
    ConcatSeven([Signature, Frame(IhdrType, IhdrData(width, height), k.ihdr), Frame(TextType, TextData(json), k.text),
                 Frame(SrgbType, [0], k.srgb), Frame(GamaType, Be32(Gamma), k.gama), idats, Frame(IendType, [], k.iend)]);
    Concat([Signature, Frame(IhdrType, IhdrData(width, height), k.ihdr), Frame(TextType, TextData(json), k.text),
            Frame(SrgbType, [0], k.srgb), Frame(GamaType, Be32(Gamma), k.gama), idats, Frame(IendType, [], k.iend)])
  }

  lemma ConcatSeven(ps: seq<seq<byte>>)
    requires |ps| == 7
    ensures Concat(ps) == ps[0] + (ps[1] + (ps[2] + (ps[3] + (ps[4] + (ps[5] + ps[6])))))
  {
    assert ps[1..][1..] == ps[2..];
    assert ps[2..][1..] == ps[3..];
    assert ps[3..][1..] == ps[4..];
    assert ps[4..][1..] == ps[5..];
    assert ps[5..][1..] == ps[6..];
    assert ps[6..][1..] == [];
    assert Concat(ps[6..]) == ps[6] + Concat([]) == ps[6];
    assert Concat(ps[5..]) == ps[5] + Concat(ps[6..]);
    assert Concat(ps[4..]) == ps[4] + Concat(ps[5..]);
    assert Concat(ps[3..]) == ps[3] + Concat(ps[4..]);
    assert Concat(ps[2..]) == ps[2] + Concat(ps[3..]);
    assert Concat(ps[1..]) == ps[1] + Concat(ps[2..]);
  }

  /** The CRC fields the writer computes. */
  function WrittenCrcs(crc: seq<byte> -> nat, width: nat, height: nat, json: seq<byte>): (k: Crcs)
    requires IsCrc(crc) && width < Two32 && height < Two32 && |json| + 9 < Two32
    ensures CrcsFit(k)
  {
    Crcs(crc(IhdrType + IhdrData(width, height)), crc(TextType + TextData(json)),
         crc(SrgbType + [0]), crc(GamaType + Be32(Gamma)), crc(IendType + []))
  }

  /** The file `save_image_with_json` writes for an image of the given size,
      the compact JSON text (UTF-8) and PIL's PNG encoding of the image, or
      None when it raises. */
  function PngFile(crc: seq<byte> -> nat, width: nat, height: nat, json: seq<byte>, encoded: seq<byte>): Option<seq<byte>>
    requires IsCrc(crc)
  {
    if width >= Two32 || height >= Two32 || |json| + 9 >= Two32 then None
    else match IdatsFrom(encoded, 0)
      case None => None
      case Some(idats) => Some(Framed(width, height, json, idats, WrittenCrcs(crc, width, height, json)))
  }

  /** The writer: chunk after chunk into the output, the IDAT chunks
      copied from the image's own encoding, then IEND. */
  method SaveImageWithJson(crc: seq<byte> -> nat, width: nat, height: nat, json: seq<byte>, encoded: seq<byte>)
    returns (r: Option<seq<byte>>)
    requires IsCrc(crc)
    ensures r == PngFile(crc, width, height, json, encoded)
  {
    if width >= Two32 || height >= Two32 {
      return None;
    }
    var out := Signature;
    var ihdr := Chunk(crc, IhdrType, IhdrData(width, height));
    out := out + ihdr;
    var text := Keyword + [0] + json;
    if |text| >= Two32 {
      return None;
    }
    var textChunk := Chunk(crc, TextType, text);
    var srgb := Chunk(crc, SrgbType, [0]);
    var gama := Chunk(crc, GamaType, Be32(Gamma));
    out := out + textChunk;
    out := out + srgb;
    out := out + gama;
    var idats := CopyIdats(encoded);
    if idats.None? {
      return None;
    }
    out := out + idats.value;
    var iend := Chunk(crc, IendType, []);
    out := out + iend;
    Regroup(Signature, ihdr, textChunk, srgb, gama, idats.value, iend);
    ConcatSeven([Signature, ihdr, textChunk, srgb, gama, idats.value, iend]);
    r := Some(out);
  }

  /** Appending seven pieces one by one lays them out as `Concat` does. */
  lemma Regroup(s0: seq<byte>, s1: seq<byte>, s2: seq<byte>, s3: seq<byte>, s4: seq<byte>, s5: seq<byte>, s6: seq<byte>)
    ensures s0 + s1 + s2 + s3 + s4 + s5 + s6 == s0 + (s1 + (s2 + (s3 + (s4 + (s5 + s6)))))
  {
  }

  /** The `while idat_start != -1` loop: each IDAT chunk of the encoding
      in turn, found by searching on from the end of the previous one. */
  method CopyIdats(encoded: seq<byte>) returns (r: Option<seq<byte>>)
    ensures r == IdatsFrom(encoded, 0)
  {
    var out := [];
    var pos := 0;
    var idat := FindFrom(encoded, IdatType, 0);
    ThenEmpty(IdatsFrom(encoded, 0));
    while idat != -1
      invariant idat == FindFrom(encoded, IdatType, pos)
      invariant Then(out, IdatsFrom(encoded, pos)) == IdatsFrom(encoded, 0)
      decreases if pos <= |encoded| then |encoded| - pos + 1 else 0
    {
      if idat < 4 {
        return None;
      }
      var length := Be32Value(encoded[idat - 4..idat]);
      var chunkEnd := idat + 4 + length + 4;
      IdatStep(encoded, pos, out, idat, chunkEnd);
      out := out + encoded[idat - 4..Min(chunkEnd, |encoded|)];
      pos := chunkEnd;
      idat := FindFrom(encoded, IdatType, chunkEnd);
    }
    assert out + [] == out;
    r := Some(out);
  }

  lemma ThenEmpty(x: Option<seq<byte>>)
    ensures Then([], x) == x
  {
    if x.Some? {
      assert [] + x.value == x.value;
    }
  }

  /** One round of the copy loop: the piece it writes is the head of what
      remains to be copied. */
  lemma IdatStep(encoded: seq<byte>, pos: nat, out: seq<byte>, idat: int, chunkEnd: int)
    requires idat == FindFrom(encoded, IdatType, pos) && idat >= 4
    requires chunkEnd == idat + 4 + Be32Value(encoded[idat - 4..idat]) + 4
    ensures Then(out, IdatsFrom(encoded, pos))
            == Then(out + encoded[idat - 4..Min(chunkEnd, |encoded|)], IdatsFrom(encoded, chunkEnd))
  {
    IdatsUnfold(encoded, pos, idat, chunkEnd);
    ThenThen(out, encoded[idat - 4..Min(chunkEnd, |encoded|)], IdatsFrom(encoded, chunkEnd));
  }

  lemma IdatsUnfold(encoded: seq<byte>, pos: nat, idat: int, chunkEnd: int)
    requires idat == FindFrom(encoded, IdatType, pos) && idat >= 4
    requires chunkEnd == idat + 4 + Be32Value(encoded[idat - 4..idat]) + 4
    ensures IdatsFrom(encoded, pos) == Then(encoded[idat - 4..Min(chunkEnd, |encoded|)], IdatsFrom(encoded, chunkEnd))
  {
  }

  lemma ThenThen(a: seq<byte>, b: seq<byte>, x: Option<seq<byte>>)
    ensures Then(a, Then(b, x)) == Then(a + b, x)
  {
    if x.Some? {
      AppendAssociative(a, b, x.value);
    }
  }

  // ---------------------------------------------------------------------
  // Reading chunks back.

  datatype ChunkRead = ChunkRead(kind: seq<byte>, data: seq<byte>, next: nat)

  /** The fields of the chunk at `pos` before its CRC is checked. */
  datatype Fields = Fields(kind: seq<byte>, data: seq<byte>, crc: nat, next: nat)

  /** The length field, type, data and CRC field at `pos`, when the file
      holds that many bytes. */
  function ReadFields(file: seq<byte>, pos: nat): (r: Option<Fields>)
    ensures r.Some? ==> |r.value.kind| == 4 && r.value.next == pos + |r.value.data| + 12 <= |file|
  {
    if pos + 8 > |file| then None
    else
      var len := Be32Value(file[pos..pos + 4]);
      if pos + 12 + len > |file| then None
      else
        Some(Fields(file[pos + 4..pos + 8], file[pos + 8..pos + 8 + len],
                    Be32Value(file[pos + 8 + len..pos + 12 + len]), pos + 12 + len))
  }

  /** The chunk at `pos`: its length field, type, data and a CRC that
      matches, and where the next chunk starts. */
  function ReadChunk(crc: seq<byte> -> nat, file: seq<byte>, pos: nat): (r: Option<ChunkRead>)
    ensures r.Some? ==> |r.value.kind| == 4 && r.value.next == pos + |r.value.data| + 12 <= |file|
    ensures r.Some? ==> crc(r.value.kind + r.value.data) == Be32Value(file[r.value.next - 4..r.value.next])
  {
    match ReadFields(file, pos)
    case None => None
    case Some(f) =>
      if f.crc != crc(f.kind + f.data) then None
      else Some(ChunkRead(f.kind, f.data, f.next))
  }

  /** The bytes of a chunk read back as its fields. */
  lemma ReadFrame(file: seq<byte>, pos: nat, kind: seq<byte>, data: seq<byte>, c: nat)
    requires |kind| == 4 && |data| < Two32 && c < Two32
    requires pos + |data| + 12 <= |file| && file[pos..pos + |data| + 12] == Frame(kind, data, c)
    ensures ReadFields(file, pos) == Some(Fields(kind, data, c, pos + |data| + 12))
  {
    var n := |data|;
    FrameParts(kind, data, c);
    SliceOfSlice(file, pos, pos + n + 12, 0, 4);
    SliceOfSlice(file, pos, pos + n + 12, 4, 8);
    SliceOfSlice(file, pos, pos + n + 12, 8, 8 + n);
    SliceOfSlice(file, pos, pos + n + 12, 8 + n, 12 + n);
    Be32RoundTrip(n);
    Be32RoundTrip(c);
    FieldsAt(file, pos, kind, data, c);
  }

  lemma FrameParts(kind: seq<byte>, data: seq<byte>, c: nat)
    requires |data| < Two32 && c < Two32
    ensures var fr := Frame(kind, data, c); var n := |data|;
      fr[..4] == Be32(n) && fr[4..4 + |kind|] == kind && fr[4 + |kind|..4 + |kind| + n] == data
      && fr[4 + |kind| + n..] == Be32(c)
  {
  }

  /** The fields `ReadFields` takes apart, found in place. */
  lemma FieldsAt(file: seq<byte>, pos: nat, kind: seq<byte>, data: seq<byte>, c: nat)
    requires |kind| == 4 && pos + |data| + 12 <= |file|
    requires Be32Value(file[pos..pos + 4]) == |data| && file[pos + 4..pos + 8] == kind
    requires file[pos + 8..pos + 8 + |data|] == data && Be32Value(file[pos + 8 + |data|..pos + 12 + |data|]) == c
    ensures ReadFields(file, pos) == Some(Fields(kind, data, c, pos + |data| + 12))
  {
  }

  /** A chunk as written reads back as itself, wherever it sits. */
  lemma ReadWrittenChunk(crc: seq<byte> -> nat, file: seq<byte>, pos: nat, kind: seq<byte>, data: seq<byte>)
    requires IsCrc(crc) && |kind| == 4 && |data| < Two32
    requires pos + |data| + 12 <= |file| && file[pos..pos + |data| + 12] == Chunk(crc, kind, data)
    ensures ReadChunk(crc, file, pos) == Some(ChunkRead(kind, data, pos + |data| + 12))
  {
    ReadFrame(file, pos, kind, data, crc(kind + data));
  }

  /** Fields whose CRC field matches read as a chunk. */
  lemma CheckedFields(crc: seq<byte> -> nat, file: seq<byte>, pos: nat)
    requires ReadFields(file, pos).Some?
    requires var f := ReadFields(file, pos).value; f.crc == crc(f.kind + f.data)
    ensures var f := ReadFields(file, pos).value; ReadChunk(crc, file, pos) == Some(ChunkRead(f.kind, f.data, f.next))
  {
  }

  lemma SliceOfSlice(s: seq<byte>, a: nat, b: nat, i: nat, j: nat)
    requires a <= b <= |s| && i <= j <= b - a
    ensures s[a..b][i..j] == s[a + i..a + j]
  {
    assert forall k :: 0 <= k < j - i ==> s[a..b][i..j][k] == s[a + i + k];
  }

  /** Where each of seven pieces sits in their concatenation. */
  lemma Slices(s0: seq<byte>, s1: seq<byte>, s2: seq<byte>, s3: seq<byte>, s4: seq<byte>, s5: seq<byte>, s6: seq<byte>)
    ensures var f := s0 + (s1 + (s2 + (s3 + (s4 + (s5 + s6)))));
      var o1 := |s0|;
      var o2 := o1 + |s1|;
      var o3 := o2 + |s2|;
      var o4 := o3 + |s3|;
      var o5 := o4 + |s4|;
      f[..o1] == s0 && f[o1..o2] == s1 && f[o2..o3] == s2 && f[o3..o4] == s3 && f[o4..o5] == s4
      && f[|f| - |s6|..] == s6
  {
  }

  /** Each chunk of the layout at its offset. */
  lemma FramedSlices(width: nat, height: nat, json: seq<byte>, idats: seq<byte>, k: Crcs)
    requires width < Two32 && height < Two32 && |json| + 9 < Two32 && CrcsFit(k)
    ensures var f := Framed(width, height, json, idats, k);
      var n := |json|;
      |f| == n + |idats| + 95
      && f[..8] == Signature
      && f[8..33] == Frame(IhdrType, IhdrData(width, height), k.ihdr)
      && f[33..n + 54] == Frame(TextType, TextData(json), k.text)
      && f[n + 54..n + 67] == Frame(SrgbType, [0], k.srgb)
      && f[n + 67..n + 83] == Frame(GamaType, Be32(Gamma), k.gama)
      && f[|f| - 12..] == Frame(IendType, [], k.iend)
  {
    var s1 := Frame(IhdrType, IhdrData(width, height), k.ihdr);
    var s2 := Frame(TextType, TextData(json), k.text);
    var s3 := Frame(SrgbType, [0], k.srgb);
    var s4 := Frame(GamaType, Be32(Gamma), k.gama);
    var s6 := Frame(IendType, [], k.iend);
    var f := Framed(width, height, json, idats, k);
    assert f == Signature + (s1 + (s2 + (s3 + (s4 + (idats + s6))))) by {
      ConcatSeven([Signature, s1, s2, s3, s4, idats, s6]);
    }
    assert |Signature| == 8 && |s1| == 25 && |s2| == |json| + 21 && |s3| == 13 && |s4| == 16 && |s6| == 12;
    Slices(Signature, s1, s2, s3, s4, idats, s6);
  }

  /** `f` reads as the signature, then IHDR, tEXt, sRGB and gAMA with the
      given data one after the other from 8, and IEND in its last 12 bytes,
      each with a matching CRC. */
  ghost predicate ChunksRead(crc: seq<byte> -> nat, f: seq<byte>, width: nat, height: nat, json: seq<byte>)
    requires width < Two32 && height < Two32
  {
    var n := |json|;
    |f| >= 12 && f[..8] == Signature
    && ReadChunk(crc, f, 8) == Some(ChunkRead(IhdrType, IhdrData(width, height), 33))
    && ReadChunk(crc, f, 33) == Some(ChunkRead(TextType, TextData(json), n + 54))
    && ReadChunk(crc, f, n + 54) == Some(ChunkRead(SrgbType, [0], n + 67))
    && ReadChunk(crc, f, n + 67) == Some(ChunkRead(GamaType, Be32(Gamma), n + 83))
    && ReadChunk(crc, f, |f| - 12) == Some(ChunkRead(IendType, [], |f|))
  }

  /** The written file starts with the signature, then IHDR, tEXt, sRGB and
      gAMA, each read back with a matching CRC, and ends with IEND. */
  lemma WrittenLayout(crc: seq<byte> -> nat, width: nat, height: nat, json: seq<byte>, encoded: seq<byte>)
    requires IsCrc(crc) && PngFile(crc, width, height, json, encoded).Some?
    ensures ChunksRead(crc, PngFile(crc, width, height, json, encoded).value, width, height, json)
  {
    var idats := WrittenFramed(crc, width, height, json, encoded);
    FramedChunks(crc, width, height, json, idats);
  }

  /** A written file is the layout around the copied IDAT chunks. */
  lemma WrittenFramed(crc: seq<byte> -> nat, width: nat, height: nat, json: seq<byte>, encoded: seq<byte>) returns (idats: seq<byte>)
    requires IsCrc(crc) && PngFile(crc, width, height, json, encoded).Some?
    ensures width < Two32 && height < Two32 && |json| + 9 < Two32
    ensures PngFile(crc, width, height, json, encoded).value == Framed(width, height, json, idats, WrittenCrcs(crc, width, height, json))
  {
    idats := IdatsFrom(encoded, 0).value;
  }

  lemma FramedChunks(crc: seq<byte> -> nat, width: nat, height: nat, json: seq<byte>, idats: seq<byte>)
    requires IsCrc(crc) && width < Two32 && height < Two32 && |json| + 9 < Two32
    ensures ChunksRead(crc, Framed(width, height, json, idats, WrittenCrcs(crc, width, height, json)), width, height, json)
  {
    FramedSlices(width, height, json, idats, WrittenCrcs(crc, width, height, json));
    IhdrReads(crc, width, height, json, idats);
    TextReads(crc, width, height, json, idats);
    SrgbReads(crc, width, height, json, idats);
    GamaReads(crc, width, height, json, idats);
    IendReads(crc, width, height, json, idats);
  }

  /** The IHDR chunk at 8. */
  lemma IhdrReads(crc: seq<byte> -> nat, width: nat, height: nat, json: seq<byte>, idats: seq<byte>)
    requires IsCrc(crc) && width < Two32 && height < Two32 && |json| + 9 < Two32
    ensures var f := Framed(width, height, json, idats, WrittenCrcs(crc, width, height, json));
      ReadChunk(crc, f, 8) == Some(ChunkRead(IhdrType, IhdrData(width, height), 33))
  {
    var k := WrittenCrcs(crc, width, height, json);
    var f := Framed(width, height, json, idats, k);
    FramedSlices(width, height, json, idats, k);
    ReadFrame(f, 8, IhdrType, IhdrData(width, height), k.ihdr);
    CheckedFields(crc, f, 8);
  }

  /** The tEXt chunk at 33. */
  lemma TextReads(crc: seq<byte> -> nat, width: nat, height: nat, json: seq<byte>, idats: seq<byte>)
    requires IsCrc(crc) && width < Two32 && height < Two32 && |json| + 9 < Two32
    ensures var f := Framed(width, height, json, idats, WrittenCrcs(crc, width, height, json));
      ReadChunk(crc, f, 33) == Some(ChunkRead(TextType, TextData(json), |json| + 54))
  {
    var k := WrittenCrcs(crc, width, height, json);
    var f := Framed(width, height, json, idats, k);
    FramedSlices(width, height, json, idats, k);
    ReadFrame(f, 33, TextType, TextData(json), k.text);
    CheckedFields(crc, f, 33);
  }

  /** The sRGB chunk after the tEXt chunk. */
  lemma SrgbReads(crc: seq<byte> -> nat, width: nat, height: nat, json: seq<byte>, idats: seq<byte>)
    requires IsCrc(crc) && width < Two32 && height < Two32 && |json| + 9 < Two32
    ensures var f := Framed(width, height, json, idats, WrittenCrcs(crc, width, height, json));
      ReadChunk(crc, f, |json| + 54) == Some(ChunkRead(SrgbType, [0], |json| + 67))
  {
    var k := WrittenCrcs(crc, width, height, json);
    var f := Framed(width, height, json, idats, k);
    FramedSlices(width, height, json, idats, k);
    ReadFrame(f, |json| + 54, SrgbType, [0], k.srgb);
    CheckedFields(crc, f, |json| + 54);
  }

  /** The gAMA chunk after the sRGB chunk. */
  lemma GamaReads(crc: seq<byte> -> nat, width: nat, height: nat, json: seq<byte>, idats: seq<byte>)
    requires IsCrc(crc) && width < Two32 && height < Two32 && |json| + 9 < Two32
    ensures var f := Framed(width, height, json, idats, WrittenCrcs(crc, width, height, json));
      ReadChunk(crc, f, |json| + 67) == Some(ChunkRead(GamaType, Be32(Gamma), |json| + 83))
  {
    var k := WrittenCrcs(crc, width, height, json);
    var f := Framed(width, height, json, idats, k);
    FramedSlices(width, height, json, idats, k);
    ReadFrame(f, |json| + 67, GamaType, Be32(Gamma), k.gama);
    CheckedFields(crc, f, |json| + 67);
  }

  /** The IEND chunk, the last twelve bytes. */
  lemma IendReads(crc: seq<byte> -> nat, width: nat, height: nat, json: seq<byte>, idats: seq<byte>)
    requires IsCrc(crc) && width < Two32 && height < Two32 && |json| + 9 < Two32
    ensures var f := Framed(width, height, json, idats, WrittenCrcs(crc, width, height, json));
      ReadChunk(crc, f, |f| - 12) == Some(ChunkRead(IendType, [], |f|))
  {
    var k := WrittenCrcs(crc, width, height, json);
    var f := Framed(width, height, json, idats, k);
    FramedSlices(width, height, json, idats, k);
    var p := |f| - 12;
    ReadFrame(f, p, IendType, [], k.iend);
    assert ReadFields(f, p) == Some(Fields(IendType, [], k.iend, |f|));
    assert k.iend == crc(IendType + []);
    CheckedFields(crc, f, p);
  }

  // ---------------------------------------------------------------------
  // extract_json_from_png.

  /** The ASCII whitespace `bytes.strip()` removes. */
  predicate IsSpaceByte(b: byte) {
    b == 32 || 9 <= b <= 13
  }

  function LStripBytes(s: seq<byte>): (r: seq<byte>)
    ensures |r| <= |s|
  {
    if s != [] && IsSpaceByte(s[0]) then LStripBytes(s[1..]) else s
  }

  function RStripBytes(s: seq<byte>): (r: seq<byte>)
    ensures |r| <= |s|
  {
    if s != [] && IsSpaceByte(s[|s| - 1]) then RStripBytes(s[..|s| - 1]) else s
  }

  function StripBytes(s: seq<byte>): (r: seq<byte>)
    ensures |r| <= |s|
  {
    RStripBytes(LStripBytes(s))
  }

  /** Text that neither starts nor ends with whitespace, as compact JSON. */
  predicate Unpadded(s: seq<byte>) {
    s == [] || (!IsSpaceByte(s[0]) && !IsSpaceByte(s[|s| - 1]))
  }

  lemma StripUnpadded(s: seq<byte>)
    requires Unpadded(s)
    ensures StripBytes(s) == s
  {
  }

  /** The reader as written: the text runs from after "tEXtworkflow\0" to
      eight bytes before the next "sRGB", stripped; it must decode as UTF-8
      and parse (`parses` stands for `json.loads`). */
  function ExtractJsonFromPng(data: seq<byte>, parses: seq<byte> -> bool): (r: Option<seq<byte>>)
    ensures r.Some? ==> Contains(data, TextMarker) && Utf8(r.value) && parses(r.value)
  {
    var t := Find(data, TextMarker);
    if t == -1 then None
    else
      assert OccursAt(data, TextMarker, t);
      var start := t + |TextMarker|;
      var next := FindFrom(data, SrgbType, start);
      if next == -1 then None
      else
        var text := StripBytes(if next - 8 <= start then [] else data[start..next - 8]);
        if Utf8(text) && parses(text) then Some(text) else None
  }

  /** A file whose first 50 bytes start like a written one (signature, an
      IHDR length of 13, IHDR, the RGBA depth and colour bytes, and at 37
      "tEXtworkflow\0"): its first "tEXtworkflow\0" is at 37, since none
      of the bytes before can start one. */
  lemma MarkerAt37(g: seq<byte>)
    requires |g| >= 50
    requires g[..16] == [137, 80, 78, 71, 13, 10, 26, 10, 0, 0, 0, 13, 73, 72, 68, 82]
    requires g[24..29] == [8, 6, 0, 0, 0]
    requires g[37..50] == TextMarker
    ensures Find(g, TextMarker) == 37
  {
    forall p | 0 <= p < 37
      ensures !OccursAt(g, TextMarker, p)
    {
      if p < 16 || 24 <= p < 29 {
        assert g[p] != TextMarker[0];
      } else if p < 24 {
        assert g[24] != TextMarker[24 - p];
      } else if p == 34 {
        assert g[38] != TextMarker[4];
      } else {
        assert g[37] != TextMarker[37 - p];
      }
    }
    assert OccursAt(g, TextMarker, 37);
  }

  /** In a written file the first "tEXtworkflow\0" is the tEXt chunk's. */
  lemma TextMarkerFirst(width: nat, height: nat, json: seq<byte>, idats: seq<byte>, k: Crcs)
    requires width < Two32 && height < Two32 && |json| + 9 < Two32 && CrcsFit(k)
    ensures Find(Framed(width, height, json, idats, k), TextMarker) == 37
  {
    var f := Framed(width, height, json, idats, k);
    var c1 := Frame(IhdrType, IhdrData(width, height), k.ihdr);
    var c2 := Frame(TextType, TextData(json), k.text);
    FramedSlices(width, height, json, idats, k);
    assert f[..16] == [137, 80, 78, 71, 13, 10, 26, 10, 0, 0, 0, 13, 73, 72, 68, 82] by {
      assert c1[..8] == Be32(13) + IhdrType;
      SliceOfSlice(f, 8, 33, 0, 8);
      assert f[..16] == f[..8] + f[8..16];
    }
    assert f[24..29] == [8, 6, 0, 0, 0] by {
      assert c1[16..21] == IhdrData(width, height)[8..];
      SliceOfSlice(f, 8, 33, 16, 21);
    }
    assert f[37..50] == TextMarker by {
      assert c2[4..17] == TextType + Keyword + [0];
      SliceOfSlice(f, 33, |json| + 54, 4, 17);
    }
    MarkerAt37(f);
  }

  /** The first "sRGB" after the payload is the sRGB chunk's type: neither
      the JSON nor the tEXt CRC field `c` and the sRGB length after it
      spell one. */
  predicate SrgbFollows(json: seq<byte>, c: nat)
    requires c < Two32
  {
    var tail := json + Be32(c) + Be32(1) + SrgbType;
    forall i :: 0 <= i < |json| + 8 ==> !OccursAt(tail, SrgbType, i)
  }

  /** The bytes from the end of "tEXtworkflow\0" to the end of the sRGB
      type: the JSON, the tEXt CRC, the sRGB length and type. */
  lemma FramedTail(width: nat, height: nat, json: seq<byte>, idats: seq<byte>, k: Crcs)
    requires width < Two32 && height < Two32 && |json| + 9 < Two32 && CrcsFit(k)
    ensures var f := Framed(width, height, json, idats, k);
      |f| >= |json| + 62 && f[50..|json| + 62] == json + Be32(k.text) + Be32(1) + SrgbType
  {
    var f := Framed(width, height, json, idats, k);
    var n := |json|;
    FramedSlices(width, height, json, idats, k);
    assert f[50..n + 54] == json + Be32(k.text) by {
      assert Frame(TextType, TextData(json), k.text)[17..] == json + Be32(k.text);
      SliceOfSlice(f, 33, n + 54, 17, n + 21);
    }
    assert f[n + 54..n + 62] == Be32(1) + SrgbType by {
      assert Frame(SrgbType, [0], k.srgb)[..8] == Be32(1) + SrgbType;
      SliceOfSlice(f, n + 54, n + 67, 0, 8);
    }
    assert f[50..n + 62] == f[50..n + 54] + f[n + 54..n + 62];
  }

  /** The reader once it has found the marker, at `start - 13`, and the
      next "sRGB", at `next`. */
  lemma ExtractAt(data: seq<byte>, parses: seq<byte> -> bool, start: nat, next: nat)
    requires start >= 13 && Find(data, TextMarker) == start - 13 && FindFrom(data, SrgbType, start) == next
    ensures var text := StripBytes(if next - 8 <= start then [] else data[start..next - 8]);
      ExtractJsonFromPng(data, parses) == if Utf8(text) && parses(text) then Some(text) else None
  {
  }

  /** Bytes that carry the JSON at 50 and, after its CRC field and the
      sRGB length, the sRGB type: the first "sRGB" from 50 on is that type
      when `SrgbFollows`. */
  lemma SrgbAfterJson(g: seq<byte>, json: seq<byte>, c: nat)
    requires c < Two32 && |g| >= |json| + 62 && g[50..|json| + 62] == json + Be32(c) + Be32(1) + SrgbType
    requires SrgbFollows(json, c)
    ensures FindFrom(g, SrgbType, 50) == |json| + 58 && g[50..|json| + 50] == json
  {
    var n := |json|;
    var tail := json + Be32(c) + Be32(1) + SrgbType;
    assert OccursAt(g, SrgbType, n + 58) by {
      SliceOfSlice(g, 50, n + 62, n + 8, n + 12);
      assert tail[n + 8..n + 12] == SrgbType;
    }
    NoSrgbBefore(g, json, c);
    assert g[50..n + 50] == json by {
      SliceOfSlice(g, 50, n + 62, 0, n);
      assert tail[..n] == json;
    }
  }

  /** The same bytes: no "sRGB" starts from 50 up to the sRGB type. */
  lemma NoSrgbBefore(g: seq<byte>, json: seq<byte>, c: nat)
    requires c < Two32 && |g| >= |json| + 62 && g[50..|json| + 62] == json + Be32(c) + Be32(1) + SrgbType
    requires SrgbFollows(json, c)
    ensures forall i :: 50 <= i < |json| + 58 ==> !OccursAt(g, SrgbType, i)
  {
    var tail := json + Be32(c) + Be32(1) + SrgbType;
    forall i | 50 <= i < |json| + 58
      ensures !OccursAt(g, SrgbType, i)
    {
      assert !OccursAt(tail, SrgbType, i - 50);
      SliceOfSlice(g, 50, |json| + 62, i - 50, i - 46);
    }
  }

  /** Reading a file laid out as written gives back the compact JSON, when
      the first "sRGB" after it is the chunk type. */
  lemma ExtractFramed(width: nat, height: nat, json: seq<byte>, idats: seq<byte>, k: Crcs, parses: seq<byte> -> bool)
    requires width < Two32 && height < Two32 && |json| + 9 < Two32 && CrcsFit(k)
    requires Utf8(json) && parses(json) && Unpadded(json)
    requires SrgbFollows(json, k.text)
    ensures ExtractJsonFromPng(Framed(width, height, json, idats, k), parses) == Some(json)
  {
    TextMarkerFirst(width, height, json, idats, k);
    FramedTail(width, height, json, idats, k);
    ExtractFramedTail(width, height, json, idats, k, parses);
  }

  /** `ExtractFramed` once the marker and the bytes after it are known. */
  lemma ExtractFramedTail(width: nat, height: nat, json: seq<byte>, idats: seq<byte>, k: Crcs, parses: seq<byte> -> bool)
    requires width < Two32 && height < Two32 && |json| + 9 < Two32 && CrcsFit(k)
    requires Utf8(json) && parses(json) && Unpadded(json) && SrgbFollows(json, k.text)
    requires Find(Framed(width, height, json, idats, k), TextMarker) == 37
    requires var f := Framed(width, height, json, idats, k);
      |f| >= |json| + 62 && f[50..|json| + 62] == json + Be32(k.text) + Be32(1) + SrgbType
    ensures ExtractJsonFromPng(Framed(width, height, json, idats, k), parses) == Some(json)
  {
    ExtractAfterMarker(Framed(width, height, json, idats, k), json, k.text, parses);
  }

  /** The reader on bytes with the marker at 37 followed by the JSON, its
      CRC field `c`, the sRGB length and type. */
  lemma ExtractAfterMarker(f: seq<byte>, json: seq<byte>, c: nat, parses: seq<byte> -> bool)
    requires c < Two32 && Find(f, TextMarker) == 37
    requires |f| >= |json| + 62 && f[50..|json| + 62] == json + Be32(c) + Be32(1) + SrgbType
    requires SrgbFollows(json, c) && Utf8(json) && parses(json) && Unpadded(json)
    ensures ExtractJsonFromPng(f, parses) == Some(json)
  {
    SrgbAfterJson(f, json, c);
    ExtractLaidOut(f, json, parses);
  }

  /** The reader on bytes with the marker at 37, the JSON right after it
      and the next "sRGB" eight bytes after the JSON. */
  lemma ExtractLaidOut(f: seq<byte>, json: seq<byte>, parses: seq<byte> -> bool)
    requires |f| >= |json| + 62 && Find(f, TextMarker) == 37 && FindFrom(f, SrgbType, 50) == |json| + 58
    requires f[50..|json| + 50] == json && Utf8(json) && parses(json) && Unpadded(json)
    ensures ExtractJsonFromPng(f, parses) == Some(json)
  {
    ExtractAt(f, parses, 50, |json| + 58);
    assert (if |json| + 50 <= 50 then [] else f[50..|json| + 50]) == json;
    StripUnpadded(json);
  }

  /** Writing then reading gives back the compact JSON, when the first
      "sRGB" after it is the chunk type. */
  lemma SaveThenExtract(crc: seq<byte> -> nat, width: nat, height: nat, json: seq<byte>, encoded: seq<byte>, parses: seq<byte> -> bool)
    requires IsCrc(crc) && PngFile(crc, width, height, json, encoded).Some?
    requires Utf8(json) && parses(json) && Unpadded(json)
    requires SrgbFollows(json, crc(TextType + TextData(json)))
    ensures ExtractJsonFromPng(PngFile(crc, width, height, json, encoded).value, parses) == Some(json)
  {
    ExtractFramed(width, height, json, IdatsFrom(encoded, 0).value, WrittenCrcs(crc, width, height, json), parses);
  }

  /** A file laid out as written whose JSON contains "sRGB": the search
      stops inside the JSON, which never comes back whole. */
  lemma CutsAtSrgb(width: nat, height: nat, json: seq<byte>, idats: seq<byte>, k: Crcs, parses: seq<byte> -> bool)
    requires width < Two32 && height < Two32 && |json| + 9 < Two32 && CrcsFit(k)
    requires Contains(json, SrgbType)
    ensures ExtractJsonFromPng(Framed(width, height, json, idats, k), parses) != Some(json)
  {
    TextMarkerFirst(width, height, json, idats, k);
    FramedTail(width, height, json, idats, k);
    var next := SrgbInJson(Framed(width, height, json, idats, k), json, k.text);
    ExtractAt(Framed(width, height, json, idats, k), parses, 50, next);
  }

  /** Bytes that carry at 50 a JSON text containing "sRGB": the first
      "sRGB" from 50 on starts inside the JSON. */
  lemma SrgbInJson(g: seq<byte>, json: seq<byte>, c: nat) returns (next: nat)
    requires c < Two32 && |g| >= |json| + 62 && g[50..|json| + 62] == json + Be32(c) + Be32(1) + SrgbType
    requires Contains(json, SrgbType)
    ensures FindFrom(g, SrgbType, 50) == next && next + 4 <= |json| + 50
  {
    var n := |json|;
    var p :| 0 <= p <= n - 4 && OccursAt(json, SrgbType, p);
    assert OccursAt(g, SrgbType, 50 + p) by {
      SliceOfSlice(g, 50, n + 62, p, p + 4);
      assert (json + Be32(c) + Be32(1) + SrgbType)[p..p + 4] == json[p..p + 4];
    }
    next := FindFrom(g, SrgbType, 50);
  }

  /** A JSON text that contains "sRGB" never comes back whole. */
  lemma ExtractCutsAtSrgb(crc: seq<byte> -> nat, width: nat, height: nat, json: seq<byte>, encoded: seq<byte>, parses: seq<byte> -> bool)
    requires IsCrc(crc) && PngFile(crc, width, height, json, encoded).Some?
    requires Contains(json, SrgbType)
    ensures ExtractJsonFromPng(PngFile(crc, width, height, json, encoded).value, parses) != Some(json)
  {
    CutsAtSrgb(width, height, json, IdatsFrom(encoded, 0).value, WrittenCrcs(crc, width, height, json), parses);
  }

  // ---------------------------------------------------------------------
  // Reading the tEXt chunk by its length field.

  /** The reader with the text taken from the tEXt chunk itself: its length
      field says where the text ends, so no search for the next chunk. */
  function ExtractJsonByLength(crc: seq<byte> -> nat, data: seq<byte>, parses: seq<byte> -> bool): (r: Option<seq<byte>>)
    ensures r.Some? ==> Contains(data, TextMarker) && Utf8(r.value) && parses(r.value)
  {
    var t := Find(data, TextMarker);
    if t < 4 then None
    else
      assert OccursAt(data, TextMarker, t);
      match ReadChunk(crc, data, t - 4)
      case None => None
      case Some(c) =>
        if |c.data| < |Keyword| + 1 then None
        else
          var text := StripBytes(c.data[|Keyword| + 1..]);
          if Utf8(text) && parses(text) then Some(text) else None
  }

  /** Writing then reading by length gives back any compact JSON. */
  lemma SaveThenExtractByLength(crc: seq<byte> -> nat, width: nat, height: nat, json: seq<byte>, encoded: seq<byte>, parses: seq<byte> -> bool)
    requires IsCrc(crc) && PngFile(crc, width, height, json, encoded).Some?
    requires Utf8(json) && parses(json) && Unpadded(json)
    ensures ExtractJsonByLength(crc, PngFile(crc, width, height, json, encoded).value, parses) == Some(json)
  {
    WrittenLayout(crc, width, height, json, encoded);
    TextMarkerFirst(width, height, json, IdatsFrom(encoded, 0).value, WrittenCrcs(crc, width, height, json));
    assert TextData(json)[|Keyword| + 1..] == json;
    StripUnpadded(json);
  }

  // ---------------------------------------------------------------------
  // The tEXt chunk and section 11.3.4.3.

  /** Bytes allowed in a keyword: printable Latin-1 and space. */
  predicate KeywordByte(b: byte) {
    32 <= b <= 126 || 161 <= b
  }

  /** Bytes with a defined meaning in tEXt text: printable Latin-1 and the
      linefeed. */
  predicate TextByte(b: byte) {
    b == 10 || 32 <= b <= 126 || 161 <= b
  }

  /** tEXt data as section 11.3.4.3 (with 11.3.4.2) lays it out: a keyword
      of 1 to 79 keyword bytes without leading, trailing or doubled spaces,
      a null separator, then text bytes. */
  predicate TextConforms(data: seq<byte>) {
    exists z :: 1 <= z <= 79 && z < |data| && data[z] == 0 && KeywordOk(data[..z])
      && forall i :: z < i < |data| ==> TextByte(data[i])
  }

  predicate KeywordOk(k: seq<byte>) {
    |k| > 0 && k[0] != 32 && k[|k| - 1] != 32
    && (forall i :: 0 <= i < |k| ==> KeywordByte(k[i]))
    && forall i :: 0 <= i < |k| - 1 ==> !(k[i] == 32 && k[i + 1] == 32)
  }

  /** The workflow's tEXt chunk conforms exactly when every byte of the
      JSON is a Latin-1 text byte; UTF-8 of other characters, which the
      writer puts there, is read by a Latin-1 decoder as other characters
      or is not allowed at all. */
  lemma WorkflowTextConforms(json: seq<byte>)
    ensures TextConforms(TextData(json)) <==> forall i :: 0 <= i < |json| ==> TextByte(json[i])
  {
    if forall i :: 0 <= i < |json| ==> TextByte(json[i]) {
      TextBytesConform(json);
    }
    if TextConforms(TextData(json)) {
      ConformingTextBytes(json);
    }
  }

  lemma TextBytesConform(json: seq<byte>)
    requires forall i :: 0 <= i < |json| ==> TextByte(json[i])
    ensures TextConforms(TextData(json))
  {
    var d := TextData(json);
    var z := |Keyword|;
    assert d[..z] == Keyword;
    assert KeywordOk(Keyword);
    forall i | z < i < |d|
      ensures TextByte(d[i])
    {
      assert d[i] == json[i - z - 1];
    }
    assert d[z] == 0;
  }

  lemma ConformingTextBytes(json: seq<byte>)
    requires TextConforms(TextData(json))
    ensures forall i :: 0 <= i < |json| ==> TextByte(json[i])
  {
    var d := TextData(json);
    var z :| 1 <= z <= 79 && z < |d| && d[z] == 0 && KeywordOk(d[..z])
      && forall i :: z < i < |d| ==> TextByte(d[i]);
    assert z == |Keyword| by {
      assert forall j :: 0 <= j < |Keyword| ==> d[j] == Keyword[j] != 0;
      assert forall j :: 0 <= j < z ==> d[j] == d[..z][j] != 0;
      assert d[|Keyword|] == 0;
    }
    forall i | 0 <= i < |json|
      ensures TextByte(json[i])
    {
      assert json[i] == d[i + |Keyword| + 1];
    }
  }
}
