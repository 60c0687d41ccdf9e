/** The CTB container: a fixed 60-byte little-endian header (`48sIHHHH`)
    followed by a zlib-compressed payload. Decoding unpacks the header,
    checks its two sentinel fields, splits the metadata on commas, picks the
    codec name out of the compression descriptor, then checks the payload
    size and its Adler-32 checksum before decompressing it. */
module Container {
  import opened Wrappers
  import opened Bytes
  import Adler32

  const HEADER_SIZE: nat := 60
  const METADATA_SIZE: nat := 48
  const COMMA: byte := 0x2c
  /** The ASCII bytes of `compress`. */
  const COMPRESS: seq<byte> := [0x63, 0x6f, 0x6d, 0x70, 0x72, 0x65, 0x73, 0x73]
  /** The ASCII bytes of `pmzlibcodec`, the only codec that decompresses. */
  const PMZLIBCODEC: seq<byte> := [0x70, 0x6d, 0x7a, 0x6c, 0x69, 0x62, 0x63, 0x6f, 0x64, 0x65, 0x63]

  /** zlib.decompress: the decompressed bytes, or None when it raises. */
  type Inflater = seq<byte> -> Option<seq<byte>>

  datatype ContainerError =
    | TruncatedHeader         // struct.unpack receives fewer than 60 bytes
    | UnexpectedMarker        // m1 != 0x0001 or m2 != 0x0000
    | MissingComma            // bytes.index finds no comma in the metadata
    | PayloadSizeMismatch     // payload length differs from compressed_size
    | ChecksumMismatch        // Adler-32 of the payload differs from the header
    | UnsupportedCompression  // no decompressor for the compression type
    | DecompressionFailed     // zlib.decompress raises

  /** The six fields of `48sIHHHH`, in order. */
  datatype Header = Header(metadata: seq<byte>, checksum: nat, unknown: nat,
                           m1: nat, compressedSize: nat, m2: nat)
  {
    predicate InRange()
    {
      |metadata| == METADATA_SIZE && checksum < 0x1_0000_0000 && unknown < 0x1_0000
      && m1 < 0x1_0000 && compressedSize < 0x1_0000 && m2 < 0x1_0000
    }
  }

  function U16(s: seq<byte>, i: nat): (r: nat)
    requires i + 2 <= |s|
    ensures r < 0x1_0000
  {
    s[i] as nat + 0x100 * (s[i + 1] as nat)
  }

  function U32(s: seq<byte>, i: nat): (r: nat)
    requires i + 4 <= |s|
    ensures r < 0x1_0000_0000
  {
    U16(s, i) + 0x1_0000 * U16(s, i + 2)
  }

  function Le16(x: nat): (r: seq<byte>)
    requires x < 0x1_0000
    ensures |r| == 2 && U16(r, 0) == x
  {
    [x % 0x100, x / 0x100]
  }

  function Le32(x: nat): (r: seq<byte>)
    requires x < 0x1_0000_0000
    ensures |r| == 4 && U32(r, 0) == x
  {
    Le16(x % 0x1_0000) + Le16(x / 0x1_0000)
  }

  /** struct.pack with the header layout: the inverse of Unpack. */
  function Pack(h: Header): (raw: seq<byte>)
    requires h.InRange()
    ensures |raw| == HEADER_SIZE
  {
    h.metadata + Le32(h.checksum) + Le16(h.unknown) + Le16(h.m1)
    + Le16(h.compressedSize) + Le16(h.m2)
  }

  /** struct.unpack: exactly 60 bytes, or a failure. */
  function Unpack(raw: seq<byte>): (r: Result<Header, ContainerError>)
    ensures r.Success? <==> |raw| == HEADER_SIZE
    ensures r.Failure? ==> r.error == TruncatedHeader
    ensures r.Success? ==> r.value.InRange() && Pack(r.value) == raw
  {
    if |raw| != HEADER_SIZE then Failure(TruncatedHeader)
    else
      var h := Header(raw[..48], U32(raw, 48), U16(raw, 52), U16(raw, 54), U16(raw, 56), U16(raw, 58));
      PackFields(raw);
      Success(h)
  }

  /** The fields read out of 60 bytes pack back into those bytes. */
  lemma PackFields(raw: seq<byte>)
    requires |raw| == HEADER_SIZE
    ensures Pack(Header(raw[..48], U32(raw, 48), U16(raw, 52), U16(raw, 54), U16(raw, 56), U16(raw, 58))) == raw
  {
    Le32Inverse(raw, 48); Le16Inverse(raw, 52);
    Le16Inverse(raw, 54); Le16Inverse(raw, 56); Le16Inverse(raw, 58);
    PrefixSplit(raw, 48, 50); PrefixSplit(raw, 50, 52);
    PrefixSplit(raw, 52, 54); PrefixSplit(raw, 54, 56);
    PrefixSplit(raw, 56, 58); PrefixSplit(raw, 58, 60);
    assert raw[..60] == raw;
  }

  lemma PrefixSplit(t: seq<byte>, i: nat, j: nat)
    requires i <= j <= |t|
    ensures t[..j] == t[..i] + t[i..j]
  {
  }

  lemma Le32Inverse(s: seq<byte>, i: nat)
    requires i + 4 <= |s|
    ensures Le32(U32(s, i)) == s[i..i + 4]
  {
    var lo, hi := U16(s, i), U16(s, i + 2);
    assert U32(s, i) % 0x1_0000 == lo && U32(s, i) / 0x1_0000 == hi;
    Le16Inverse(s, i);
    Le16Inverse(s, i + 2);
    assert s[i..i + 4] == s[i..i + 2] + s[i + 2..i + 4];
  }

  lemma Le16Inverse(s: seq<byte>, i: nat)
    requires i + 2 <= |s|
    ensures Le16(U16(s, i)) == s[i..i + 2]
  {
  }

  /** Every in-range header survives a pack/unpack round trip. */
  lemma UnpackPack(h: Header)
    requires h.InRange()
    ensures Unpack(Pack(h)) == Success(h)
  {
    var raw := Pack(h);
    var p1 := h.metadata + Le32(h.checksum);
    var p2 := p1 + Le16(h.unknown);
    var p3 := p2 + Le16(h.m1);
    var p4 := p3 + Le16(h.compressedSize);
    assert raw == p4 + Le16(h.m2);
    JoinParts(p4, Le16(h.m2));
    JoinParts(p3, Le16(h.compressedSize));
    JoinParts(p2, Le16(h.m1));
    JoinParts(p1, Le16(h.unknown));
    JoinParts(h.metadata, Le32(h.checksum));
    assert raw[..48] == p4[..48] == p1[..48] == h.metadata;
    assert raw[48..52] == p1[48..52] == Le32(h.checksum);
    assert raw[52..54] == p2[52..54] == Le16(h.unknown);
    assert raw[54..56] == p3[54..56] == Le16(h.m1);
    assert raw[56..58] == p4[56..58] == Le16(h.compressedSize);
    assert raw[58..60] == Le16(h.m2);
    assert U32(raw, 48) == U32(raw[48..52], 0);
  }

  /** The two halves of a concatenation, read back by slicing. */
  lemma JoinParts(a: seq<byte>, b: seq<byte>)
    ensures (a + b)[..|a|] == a && (a + b)[|a|..] == b
    ensures forall i, j :: 0 <= i <= j <= |a| ==> (a + b)[i..j] == a[i..j]
  {
  }

  /** bytes.index: the position of the first occurrence of c. */
  function IndexOf(s: seq<byte>, c: byte): (r: Option<nat>)
    ensures r.None? <==> c !in s
    ensures r.Some? ==> r.value < |s| && s[r.value] == c && c !in s[..r.value]
  {
    if s == [] then None
    else if s[0] == c then Some(0)
    else match IndexOf(s[1..], c)
      case None => None
      case Some(k) =>
        assert s[..k + 1] == [s[0]] + s[1..][..k];
        Some(k + 1)
  }

  /** bytes.rindex: the position of the last occurrence of c. */
  function RIndexOf(s: seq<byte>, c: byte): (r: Option<nat>)
    ensures r.None? <==> c !in s
    ensures r.Some? ==> r.value < |s| && s[r.value] == c && c !in s[r.value + 1..]
  {
    if s == [] then None
    else if s[|s| - 1] == c then Some(|s| - 1)
    else match RIndexOf(s[..|s| - 1], c)
      case None => None
      case Some(k) =>
        assert s[k + 1..] == s[..|s| - 1][k + 1..] + [s[|s| - 1]];
        Some(k)
  }

  /** The metadata's three comma-separated parts: the bytes before the first
      comma, the bytes strictly between the first and the last comma (empty
      when there is only one), and the bytes after the last comma. */
  function SplitMetadata(m: seq<byte>): (r: Result<(seq<byte>, seq<byte>, seq<byte>), ContainerError>)
    ensures r.Failure? <==> COMMA !in m
    ensures r.Failure? ==> r.error == MissingComma
    ensures r.Success? ==>
      var (fileVersion, formatVersion, descriptor) := r.value;
      COMMA !in fileVersion && COMMA !in descriptor &&
      (m == fileVersion + [COMMA] + formatVersion + [COMMA] + descriptor
       || (formatVersion == [] && m == fileVersion + [COMMA] + descriptor))
  {
    match (IndexOf(m, COMMA), RIndexOf(m, COMMA))
    case (Some(i), Some(j)) =>
      assert i <= j;
      var fileVersion := m[..i];
      var formatVersion := if i + 1 <= j then m[i + 1..j] else [];
      var descriptor := m[j + 1..];
      if i == j then
        assert m == fileVersion + [COMMA] + descriptor;
        Success((fileVersion, formatVersion, descriptor))
      else
        assert m == fileVersion + [COMMA] + formatVersion + [COMMA] + descriptor;
        Success((fileVersion, formatVersion, descriptor))
    case _ => Failure(MissingComma)
  }

  /** Joining comma-free outer parts around any middle part and splitting
      again gives the parts back. */
  lemma SplitJoin(fileVersion: seq<byte>, formatVersion: seq<byte>, descriptor: seq<byte>)
    requires COMMA !in fileVersion && COMMA !in descriptor
    ensures SplitMetadata(fileVersion + [COMMA] + formatVersion + [COMMA] + descriptor)
         == Success((fileVersion, formatVersion, descriptor))
  {
    var front := fileVersion + [COMMA] + formatVersion;
    var m := front + [COMMA] + descriptor;
    JoinedSlices(fileVersion, formatVersion, descriptor);
    FirstComma(fileVersion, formatVersion + [COMMA] + descriptor);
    LastComma(front, descriptor);
    SplitAt(m, |fileVersion|, |front|);
  }

  /** The slices of three parts joined by commas around the two commas. */
  lemma JoinedSlices(fileVersion: seq<byte>, formatVersion: seq<byte>, descriptor: seq<byte>)
    ensures var front := fileVersion + [COMMA] + formatVersion;
      var m := front + [COMMA] + descriptor;
      var i, j := |fileVersion|, |front|;
      m == fileVersion + [COMMA] + (formatVersion + [COMMA] + descriptor) &&
      m[..i] == fileVersion && m[i + 1..j] == formatVersion && m[j + 1..] == descriptor
  {
    var front := fileVersion + [COMMA] + formatVersion;
    var m := front + [COMMA] + descriptor;
    var i, j := |fileVersion|, |front|;
    assert m[..j] == front;
    assert front[i + 1..] == formatVersion;
  }

  /** With distinct first and last commas, the parts are the slices around
      them. */
  lemma SplitAt(m: seq<byte>, i: nat, j: nat)
    requires IndexOf(m, COMMA) == Some(i) && RIndexOf(m, COMMA) == Some(j) && i < j
    ensures SplitMetadata(m) == Success((m[..i], m[i + 1..j], m[j + 1..]))
  {
  }

  /** With a single comma the middle part is empty. */
  lemma SplitJoinOneComma(fileVersion: seq<byte>, descriptor: seq<byte>)
    requires COMMA !in fileVersion && COMMA !in descriptor
    ensures SplitMetadata(fileVersion + [COMMA] + descriptor) == Success((fileVersion, [], descriptor))
  {
    var m := fileVersion + [COMMA] + descriptor;
    FirstComma(fileVersion, descriptor);
    LastComma(fileVersion, descriptor);
    assert m[..|fileVersion|] == fileVersion;
    assert m[|fileVersion| + 1..] == descriptor;
  }

  /** The first comma is the one after a comma-free prefix. */
  lemma {:induction false} FirstComma(prefix: seq<byte>, rest: seq<byte>)
    requires COMMA !in prefix
    ensures IndexOf(prefix + [COMMA] + rest, COMMA) == Some(|prefix|)
    decreases |prefix|
  {
    var m := prefix + [COMMA] + rest;
    if prefix != [] {
      assert m[0] == prefix[0];
      assert m[1..] == prefix[1..] + [COMMA] + rest;
      FirstComma(prefix[1..], rest);
    }
  }

  /** The last comma is the one before a comma-free suffix. */
  lemma {:induction false} LastComma(front: seq<byte>, suffix: seq<byte>)
    requires COMMA !in suffix
    ensures RIndexOf(front + [COMMA] + suffix, COMMA) == Some(|front|)
    decreases |suffix|
  {
    var m := front + [COMMA] + suffix;
    if suffix != [] {
      assert m[|m| - 1] == suffix[|suffix| - 1];
      assert m[..|m| - 1] == front + [COMMA] + suffix[..|suffix| - 1];
      LastComma(front, suffix[..|suffix| - 1]);
    }
  }

  /** compression_type: the descriptor from offset 10 on when it starts with
      `compress` (two unexplained bytes follow the word), None otherwise. */
  function CompressionType(descriptor: seq<byte>): (r: Option<seq<byte>>)
    ensures r.Some? <==> StartsWith(descriptor, COMPRESS)
    ensures r.Some? && |descriptor| < 10 ==> r.value == []
    ensures r.Some? && |descriptor| >= 10 ==> descriptor == COMPRESS + descriptor[8..10] + r.value
  {
    if StartsWith(descriptor, COMPRESS) then
      Some(if |descriptor| >= 10 then descriptor[10..] else [])
    else None
  }

  /** The codec name after `compress` and any two padding bytes comes back. */
  lemma CompressionTypeOfName(padding: seq<byte>, name: seq<byte>)
    requires |padding| == 2
    ensures CompressionType(COMPRESS + padding + name) == Some(name)
  {
    assert (COMPRESS + padding + name)[..8] == COMPRESS;
    assert (COMPRESS + padding + name)[10..] == name;
  }

  /** The `deflate` dispatch: only `pmzlibcodec` has a decompressor; the
      lookup for None or any other name yields something uncallable. */
  function Deflate(compressionType: Option<seq<byte>>, payload: seq<byte>, inflate: Inflater)
    : (r: Result<seq<byte>, ContainerError>)
    ensures r.Success? <==> compressionType == Some(PMZLIBCODEC) && inflate(payload).Some?
    ensures r.Success? ==> Some(r.value) == inflate(payload)
    ensures r.Failure? && compressionType != Some(PMZLIBCODEC) ==> r.error == UnsupportedCompression
    ensures r.Failure? && compressionType == Some(PMZLIBCODEC) ==> r.error == DecompressionFailed
  {
    if compressionType == Some(PMZLIBCODEC) then
      match inflate(payload)
      case Some(d) => Success(d)
      case None => Failure(DecompressionFailed)
    else Failure(UnsupportedCompression)
  }

  /** What a successfully constructed CtbFile holds. */
  datatype Decoded = Decoded(fileVersion: seq<byte>, ctbVersion: seq<byte>,
                             compressionType: Option<seq<byte>>, data: seq<byte>)

  /** The checks of the constructor, in order: size, then checksum, then
      decompression. */
  function Construct(fileVersion: seq<byte>, ctbVersion: seq<byte>, expectedChecksum: nat,
                     compressionType: Option<seq<byte>>, payload: seq<byte>,
                     compressedSize: nat, inflate: Inflater): (r: Result<Decoded, ContainerError>)
    ensures |payload| != compressedSize ==> r == Failure(PayloadSizeMismatch)
    ensures |payload| == compressedSize && Adler32.Checksum(payload) != expectedChecksum
            ==> r == Failure(ChecksumMismatch)
    ensures r.Success? <==> |payload| == compressedSize && Adler32.Checksum(payload) == expectedChecksum
                            && Deflate(compressionType, payload, inflate).Success?
    ensures r.Success? ==> r.value == Decoded(fileVersion, ctbVersion, compressionType,
                                              Deflate(compressionType, payload, inflate).value)
  {
    if |payload| != compressedSize then Failure(PayloadSizeMismatch)
    else if Adler32.Checksum(payload) != expectedChecksum then Failure(ChecksumMismatch)
    else
      var data :- Deflate(compressionType, payload, inflate);
      Success(Decoded(fileVersion, ctbVersion, compressionType, data))
  }

  function Min(a: nat, b: nat): nat { if a <= b then a else b }

  /** parse_container followed by the constructor, on the whole input. */
  function Decode(input: seq<byte>, inflate: Inflater): (r: Result<Decoded, ContainerError>)
    ensures |input| < HEADER_SIZE ==> r == Failure(TruncatedHeader)
    ensures r.Success? ==>
      |input| >= HEADER_SIZE && U16(input, 54) == 0x0001 && U16(input, 58) == 0x0000
      && |input| - HEADER_SIZE == U16(input, 56)
      && Adler32.Checksum(input[HEADER_SIZE..]) == U32(input, 48)
      && r.value.compressionType == Some(PMZLIBCODEC)
      && inflate(input[HEADER_SIZE..]) == Some(r.value.data)
  {
    var n := Min(HEADER_SIZE, |input|);
    var h :- Unpack(input[..n]);
    assert h.checksum == U32(input, 48) && h.m1 == U16(input, 54)
           && h.compressedSize == U16(input, 56) && h.m2 == U16(input, 58);
    if h.m1 != 0x0001 || h.m2 != 0x0000 then Failure(UnexpectedMarker)
    else
      var (fileVersion, formatVersion, descriptor) :- SplitMetadata(h.metadata);
      Construct(fileVersion, formatVersion, h.checksum, CompressionType(descriptor),
                input[n..], h.compressedSize, inflate)
  }

  /** A CtbFile with the fields the source assigns. */
  class CtbFile {
    var fileVersion: seq<byte>
    var ctbVersion: seq<byte>
    var compressionType: Option<seq<byte>>
    var data: seq<byte>

    /** The first three assignments of the constructor; the payload is
        loaded by Load. */
    constructor (fileVersion: seq<byte>, ctbVersion: seq<byte>, compressionType: Option<seq<byte>>)
      ensures this.fileVersion == fileVersion && this.ctbVersion == ctbVersion
      ensures this.compressionType == compressionType && data == []
    {
      this.fileVersion := fileVersion;
      this.ctbVersion := ctbVersion;
      this.compressionType := compressionType;
      data := [];
    }

    /** Reads the rest of the stream, checks its size and its checksum and
        stores the decompressed payload. */
    method Load(stream: seq<byte>, expectedChecksum: nat, compressedSize: nat, inflate: Inflater)
      returns (r: Result<(), ContainerError>)
      modifies this`data
      ensures var c := Construct(fileVersion, ctbVersion, expectedChecksum, compressionType,
                                 stream, compressedSize, inflate);
              (r.Success? <==> c.Success?)
              && (r.Failure? ==> r.error == c.error && data == old(data))
              && (r.Success? ==> data == c.value.data)
    {
      var payload := stream;
      if |payload| != compressedSize {
        return Failure(PayloadSizeMismatch);
      }
      var actual := Adler32.Checksum(payload);
      if actual != expectedChecksum {
        return Failure(ChecksumMismatch);
      }
      var d := Deflate(compressionType, payload, inflate);
      if d.Failure? {
        return Failure(d.error);
      }
      data := d.value;
      r := Success(());
    }
  }

  /** parse_container: reads the header, checks it and builds the CtbFile
      from the rest of the input. */
  method ParseContainer(input: seq<byte>, inflate: Inflater) returns (r: Result<CtbFile, ContainerError>)
    ensures r.Failure? <==> Decode(input, inflate).Failure?
    ensures r.Failure? ==> r.error == Decode(input, inflate).error
    ensures r.Success? ==>
      var d := Decode(input, inflate).value;
      && r.value.fileVersion == d.fileVersion && r.value.ctbVersion == d.ctbVersion
      && r.value.compressionType == d.compressionType && r.value.data == d.data
  {
    var n := Min(HEADER_SIZE, |input|);
    var header := Unpack(input[..n]);
    if header.Failure? {
      return Failure(header.error);
    }
    var h := header.value;
    if h.m1 != 0x0001 || h.m2 != 0x0000 {
      return Failure(UnexpectedMarker);
    }
    var parts := SplitMetadata(h.metadata);
    if parts.Failure? {
      return Failure(parts.error);
    }
    var (fileVersion, formatVersion, descriptor) := parts.value;
    var compressionType := CompressionType(descriptor);
    var file := new CtbFile(fileVersion, formatVersion, compressionType);
    var loaded := file.Load(input[n..], h.checksum, h.compressedSize, inflate);
    if loaded.Failure? {
      return Failure(loaded.error);
    }
    r := Success(file);
  }

  /** The `unknown` header field is never checked. */
  lemma UnknownIgnored(input: seq<byte>, x: byte, y: byte, inflate: Inflater)
    requires |input| >= HEADER_SIZE
    ensures Decode(input[52 := x][53 := y], inflate) == Decode(input, inflate)
  {
    var input' := input[52 := x][53 := y];
    var h := Unpack(input[..60]).value;
    var h' := Unpack(input'[..60]).value;
    assert h'.metadata == h.metadata;
    assert input'[60..] == input[60..];
  }

  /** Decode once the header has been read from at least 60 bytes. */
  lemma DecodeSteps(input: seq<byte>, inflate: Inflater)
    requires |input| >= HEADER_SIZE
    ensures Decode(input, inflate)
         == if U16(input, 54) != 0x0001 || U16(input, 58) != 0x0000 then Failure(UnexpectedMarker)
            else match SplitMetadata(input[..48])
              case Failure(e) => Failure(e)
              case Success((fileVersion, formatVersion, descriptor)) =>
                Construct(fileVersion, formatVersion, U32(input, 48), CompressionType(descriptor),
                          input[60..], U16(input, 56), inflate)
  {
    var raw := input[..60];
    assert Min(HEADER_SIZE, |input|) == 60;
    assert raw[..48] == input[..48];
    assert U32(raw, 48) == U32(input, 48) && U16(raw, 54) == U16(input, 54);
    assert U16(raw, 56) == U16(input, 56) && U16(raw, 58) == U16(input, 58);
    assert Unpack(raw) == Success(Header(input[..48], U32(input, 48), U16(raw, 52),
                                         U16(input, 54), U16(input, 56), U16(input, 58)));
  }

  /** Changing any payload byte of a container that decodes makes decoding
      fail with a checksum mismatch. */
  lemma CorruptPayloadRejected(input: seq<byte>, i: nat, v: byte, inflate: Inflater)
    requires Decode(input, inflate).Success?
    requires HEADER_SIZE <= i < |input| && v != input[i]
    ensures Decode(input[i := v], inflate) == Failure(ChecksumMismatch)
  {
    var input' := input[i := v];
    assert input'[..48] == input[..48];
    assert U32(input', 48) == U32(input, 48) && U16(input', 54) == U16(input, 54);
    assert U16(input', 56) == U16(input, 56) && U16(input', 58) == U16(input, 58);
    assert input'[60..] == input[60..][i - 60 := v];
    Adler32.ChecksumDetectsByteChange(input[60..], i - 60, v);
    DecodeSteps(input, inflate);
    DecodeSteps(input', inflate);
  }

  /** The bytes of a container with the given parts, as a writer would lay
      them out (the metadata must fill its 48 bytes exactly). */
  function Encode(fileVersion: seq<byte>, formatVersion: seq<byte>, codec: seq<byte>,
                  unknown: nat, payload: seq<byte>): (raw: seq<byte>)
    requires |fileVersion| + |formatVersion| + |codec| + 12 == METADATA_SIZE
    requires unknown < 0x1_0000 && |payload| < 0x1_0000
    ensures |raw| == HEADER_SIZE + |payload|
  {
    var metadata := fileVersion + [COMMA] + formatVersion + [COMMA] + COMPRESS + [0x0d, 0x0a] + codec;
    Pack(Header(metadata, Adler32.Checksum(payload), unknown, 0x0001, |payload|, 0x0000)) + payload
  }

  /** Decoding an encoded container gives back its version fields and codec
      name, and decompresses exactly when the codec is `pmzlibcodec`. */
  lemma DecodeEncode(fileVersion: seq<byte>, formatVersion: seq<byte>, codec: seq<byte>,
                     unknown: nat, payload: seq<byte>, inflate: Inflater)
    requires |fileVersion| + |formatVersion| + |codec| + 12 == METADATA_SIZE
    requires unknown < 0x1_0000 && |payload| < 0x1_0000
    requires COMMA !in fileVersion && COMMA !in codec
    ensures Decode(Encode(fileVersion, formatVersion, codec, unknown, payload), inflate)
         == if codec != PMZLIBCODEC then Failure(UnsupportedCompression)
            else match inflate(payload)
              case None => Failure(DecompressionFailed)
              case Some(d) => Success(Decoded(fileVersion, formatVersion, Some(codec), d))
  {
    var descriptor := COMPRESS + [0x0d, 0x0a] + codec;
    var metadata := fileVersion + [COMMA] + formatVersion + [COMMA] + descriptor;
    assert metadata == fileVersion + [COMMA] + formatVersion + [COMMA] + COMPRESS + [0x0d, 0x0a] + codec;
    var h := Header(metadata, Adler32.Checksum(payload), unknown, 0x0001, |payload|, 0x0000);
    var raw := Encode(fileVersion, formatVersion, codec, unknown, payload);
    assert raw[..60] == Pack(h);
    assert raw[60..] == payload;
    UnpackPack(h);
    assert COMMA !in descriptor by {
      assert descriptor == COMPRESS + [0x0d, 0x0a] + codec;
      assert COMMA !in COMPRESS;
    }
    SplitJoin(fileVersion, formatVersion, descriptor);
    assert SplitMetadata(h.metadata) == Success((fileVersion, formatVersion, descriptor));
    CompressionTypeOfName([0x0d, 0x0a], codec);
  }
}
