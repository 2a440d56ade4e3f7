/** WAV loading and OpenAL buffer setup (engine/src/sound_context_al.cpp).

    LoadWAVFile reads the canonical 44-byte header of a RIFF/WAVE file
    field by field, little-endian, in the order of the RIFF chunk, its
    WAVE form type, the "fmt " chunk and the "data" chunk header of the
    Microsoft/IBM Multimedia Programming Interface and Data Specifications
    1.0. It then sizes the sample buffer, and copies the samples only for
    16-bit stereo. A tag that does not match is reported and decoding goes
    on. The file's contents are the input; opening and reading it are
    modelled by InputFile. The OpenAL calls of Create are outside the
    model except for the arguments it passes to alBufferData. */
module Wav {
  import opened Base

  // ---------------------------------------------------------------------
  // Little-endian integers

  /** The n bytes that store v, least significant first. */
  function LittleEndianBytes(v: nat, n: nat): (s: seq<byte>)
    ensures |s| == n
  {
    if n == 0 then [] else [(v % 256) as byte] + LittleEndianBytes(v / 256, n - 1)
  }

  lemma {:induction false} LittleEndianRoundTrip(v: nat, n: nat)
    requires v < Pow2(8 * n)
    ensures LittleEndian(LittleEndianBytes(v, n)) == v
  {
    if n > 0 {
      Pow2Add8(8 * (n - 1));
      var s := LittleEndianBytes(v, n);
      assert s[1..] == LittleEndianBytes(v / 256, n - 1);
      LittleEndianRoundTrip(v / 256, n - 1);
    }
  }

  lemma {:induction false} LittleEndianBytesRoundTrip(s: seq<byte>)
    ensures LittleEndianBytes(LittleEndian(s), |s|) == s
  {
    if s != [] {
      LittleEndianBytesRoundTrip(s[1..]);
      var v := LittleEndian(s);
      assert v % 256 == s[0] as nat && v / 256 == LittleEndian(s[1..]);
    }
  }

  // ---------------------------------------------------------------------
  // The file

  /** An open file read with fread: its contents and the read position. */
  class InputFile {
    const contents: seq<byte>
    var position: nat

    ghost predicate Valid()
      reads this
    {
      position <= |contents|
    }

    /** fopen_s(.., "rb"): the file's bytes, positioned at the start. */
    constructor (contents: seq<byte>)
      ensures this.contents == contents && position == 0 && Valid()
    {
      this.contents := contents;
      position := 0;
    }

    /** fread(buffer, 1, count, fp): up to count bytes, fewer at the end of
        the file. */
    method ReadBytes(count: nat) returns (bytes: seq<byte>)
      requires Valid()
      modifies this
      ensures Valid() && position == Min(old(position) + count, |contents|)
      ensures bytes == contents[old(position)..position]
    {
      var end := Min(position + count, |contents|);
      bytes := contents[position..end];
      position := end;
    }

    /** fread(item, size, 1, fp): one item of `size` bytes, or None when the
        file ends first; a partial item is consumed but not delivered. */
    method ReadItem(size: nat) returns (item: Option<seq<byte>>)
      requires Valid()
      modifies this
      ensures Valid() && position == Min(old(position) + size, |contents|)
      ensures item == if old(position) + size <= |contents|
                      then Some(contents[old(position)..old(position) + size]) else None
    {
      if position + size <= |contents| {
        item := Some(contents[position..position + size]);
        position := position + size;
      } else {
        item := None;
        position := |contents|;
      }
    }
  }

  // ---------------------------------------------------------------------
  // The header, by offset

  /** The canonical header: the thirteen fields LoadWAVFile reads. */
  datatype WavHeader = WavHeader(
    typeTag: seq<byte>, chunkSize: nat, formatTag: seq<byte>,
    subchunk1Id: seq<byte>, subchunk1Size: nat, audioFormat: nat, numChannels: nat,
    sampleRate: nat, byteRate: nat, blockAlign: nat, bitsPerSample: nat,
    subchunk2Id: seq<byte>, subchunk2Size: nat)

  const HEADER_SIZE: nat := 44

  /** The tag at `offset`: up to four bytes, as many as the file has. */
  function TagAt(contents: seq<byte>, offset: nat): (t: seq<byte>)
    ensures |t| <= 4
  {
    contents[Min(offset, |contents|)..Min(offset + 4, |contents|)]
  }

  /** The little-endian field of `size` bytes at `offset`, or 0 (the
      field's initial value) when the file ends before it does. */
  function FieldAt(contents: seq<byte>, offset: nat, size: nat): (r: nat)
    ensures size <= 2 ==> r < 0x1_0000
    ensures size <= 4 ==> r < U32_MODULUS
  {
    if offset + size <= |contents| then
      FieldBound(contents[offset..offset + size]);
      LittleEndian(contents[offset..offset + size])
    else 0
  }

  /** A 2-byte field is a u16 value and a 4-byte field a u32 value. */
  lemma FieldBound(s: seq<byte>)
    ensures |s| <= 2 ==> LittleEndian(s) < 0x1_0000
    ensures |s| <= 4 ==> LittleEndian(s) < U32_MODULUS
  {
    LittleEndianBound(s);
    FieldWidths();
    if |s| <= 4 {
      Pow2Monotone(8 * |s|, 8 * 4);
    }
    if |s| <= 2 {
      Pow2Monotone(8 * |s|, 8 * 2);
    }
  }

  /** The header of a file: each field at its fixed offset. */
  function DecodeHeader(contents: seq<byte>): WavHeader
  {
    WavHeader(TagAt(contents, 0), FieldAt(contents, 4, 4), TagAt(contents, 8),
              TagAt(contents, 12), FieldAt(contents, 16, 4), FieldAt(contents, 20, 2),
              FieldAt(contents, 22, 2), FieldAt(contents, 24, 4), FieldAt(contents, 28, 4),
              FieldAt(contents, 32, 2), FieldAt(contents, 34, 2),
              TagAt(contents, 36), FieldAt(contents, 40, 4))
  }

  /** A header whose tags are four bytes and whose fields fit their
      widths. */
  predicate Encodable(h: WavHeader)
  {
    |h.typeTag| == 4 && |h.formatTag| == 4 && |h.subchunk1Id| == 4 && |h.subchunk2Id| == 4
    && h.chunkSize < U32_MODULUS && h.subchunk1Size < U32_MODULUS
    && h.audioFormat < 0x1_0000 && h.numChannels < 0x1_0000
    && h.sampleRate < U32_MODULUS && h.byteRate < U32_MODULUS
    && h.blockAlign < 0x1_0000 && h.bitsPerSample < 0x1_0000
    && h.subchunk2Size < U32_MODULUS
  }

  /** The 44 bytes that store a header. */
  function EncodeHeader(h: WavHeader): seq<byte>
  {
    h.typeTag + LittleEndianBytes(h.chunkSize, 4) + h.formatTag
    + h.subchunk1Id + LittleEndianBytes(h.subchunk1Size, 4)
    + LittleEndianBytes(h.audioFormat, 2) + LittleEndianBytes(h.numChannels, 2)
    + LittleEndianBytes(h.sampleRate, 4) + LittleEndianBytes(h.byteRate, 4)
    + LittleEndianBytes(h.blockAlign, 2) + LittleEndianBytes(h.bitsPerSample, 2)
    + h.subchunk2Id + LittleEndianBytes(h.subchunk2Size, 4)
  }

  /** The bounds of 2- and 4-byte fields. */
  lemma FieldWidths()
    ensures Pow2(8 * 2) == 0x1_0000 && Pow2(8 * 4) == U32_MODULUS
  {
    Pow2Add8(0); Pow2Add8(8);
    Pow2Is32();
  }

  /** The round trips of a 2-byte and a 4-byte field. */
  lemma RoundTrip2(v: nat)
    requires v < 0x1_0000
    ensures LittleEndian(LittleEndianBytes(v, 2)) == v
  {
    FieldWidths();
    LittleEndianRoundTrip(v, 2);
  }

  lemma RoundTrip4(v: nat)
    requires v < U32_MODULUS
    ensures LittleEndian(LittleEndianBytes(v, 4)) == v
  {
    FieldWidths();
    LittleEndianRoundTrip(v, 4);
  }

  /** Decoding a stored header gives it back, whatever follows it. */
  lemma DecodeEncodedHeader(h: WavHeader, rest: seq<byte>)
    requires Encodable(h)
    ensures DecodeHeader(EncodeHeader(h) + rest) == h
  {
    var c := EncodeHeader(h) + rest;
    assert c[0..4] == h.typeTag;
    assert c[4..8] == LittleEndianBytes(h.chunkSize, 4);
    assert c[8..12] == h.formatTag;
    assert c[12..16] == h.subchunk1Id;
    assert c[16..20] == LittleEndianBytes(h.subchunk1Size, 4);
    assert c[20..22] == LittleEndianBytes(h.audioFormat, 2);
    assert c[22..24] == LittleEndianBytes(h.numChannels, 2);
    assert c[24..28] == LittleEndianBytes(h.sampleRate, 4);
    assert c[28..32] == LittleEndianBytes(h.byteRate, 4);
    assert c[32..34] == LittleEndianBytes(h.blockAlign, 2);
    assert c[34..36] == LittleEndianBytes(h.bitsPerSample, 2);
    assert c[36..40] == h.subchunk2Id;
    assert c[40..44] == LittleEndianBytes(h.subchunk2Size, 4);
    RoundTrip4(h.chunkSize);
    RoundTrip4(h.subchunk1Size);
    RoundTrip2(h.audioFormat);
    RoundTrip2(h.numChannels);
    RoundTrip4(h.sampleRate);
    RoundTrip4(h.byteRate);
    RoundTrip2(h.blockAlign);
    RoundTrip2(h.bitsPerSample);
    RoundTrip4(h.subchunk2Size);
  }

  /** The byte offsets of the four tags. */
  predicate IsTagByte(i: nat)
  {
    i < 4 || 8 <= i < 16 || 36 <= i < 40
  }

  /** A wrong tag never stops decoding: files that differ only in their tag
      bytes decode to the same numeric fields. */
  lemma DecodeIgnoresTags(a: seq<byte>, b: seq<byte>)
    requires |a| == |b| && forall i :: 0 <= i < |a| && !IsTagByte(i) ==> a[i] == b[i]
    ensures var ha, hb := DecodeHeader(a), DecodeHeader(b);
            && ha.chunkSize == hb.chunkSize && ha.subchunk1Size == hb.subchunk1Size
            && ha.audioFormat == hb.audioFormat && ha.numChannels == hb.numChannels
            && ha.sampleRate == hb.sampleRate && ha.byteRate == hb.byteRate
            && ha.blockAlign == hb.blockAlign && ha.bitsPerSample == hb.bitsPerSample
            && ha.subchunk2Size == hb.subchunk2Size
  {
    FieldAtAgrees(a, b, 4, 4);
    FieldAtAgrees(a, b, 16, 4);
    FieldAtAgrees(a, b, 20, 2);
    FieldAtAgrees(a, b, 22, 2);
    FieldAtAgrees(a, b, 24, 4);
    FieldAtAgrees(a, b, 28, 4);
    FieldAtAgrees(a, b, 32, 2);
    FieldAtAgrees(a, b, 34, 2);
    FieldAtAgrees(a, b, 40, 4);
  }

  lemma FieldAtAgrees(a: seq<byte>, b: seq<byte>, offset: nat, size: nat)
    requires |a| == |b| && forall i :: 0 <= i < |a| && !IsTagByte(i) ==> a[i] == b[i]
    requires forall i :: offset <= i < offset + size ==> !IsTagByte(i)
    ensures FieldAt(a, offset, size) == FieldAt(b, offset, size)
  {
    if offset + size <= |a| {
      assert a[offset..offset + size] == b[offset..offset + size];
    }
  }

  // ---------------------------------------------------------------------
  // Messages

  const RIFF_TAG: string := "RIFF"
  const WAVE_TAG: string := "WAVE"
  const FMT_TAG: string := "fmt "
  const DATA_TAG: string := "data"

  const NOT_RIFF: string := "Error: not a RIFF file!"
  const NOT_WAVE: string := "Error: not a WAVE file!"
  const MISSING_FMT: string := "Error: missing fmt header!"
  const MISSING_DATA: string := "Error: missing data header!"

  /** The characters a tag's bytes stand for. */
  function Chars(s: seq<byte>): (r: string)
    ensures |r| == |s|
    ensures forall i :: 0 <= i < |s| ==> r[i] == s[i] as int as char
  {
    if s == [] then [] else [s[0] as int as char] + Chars(s[1..])
  }

  /** The comparison of a tag, read into a zeroed five-byte buffer, with
      the expected name as C strings. */
  predicate TagMatches(tag: seq<byte>, name: string)
  {
    CString(Chars(tag)) == name
  }

  /** For a four-character name without NUL, a tag of at most four bytes
      matches exactly when its bytes spell the name. */
  lemma TagMatchesExactly(tag: seq<byte>, name: string)
    requires |tag| <= 4 && |name| == 4 && NUL !in name
    ensures TagMatches(tag, name) <==> Chars(tag) == name
  {
    var c := Chars(tag);
    if c == name {
      assert CStringLength(c) == |c|;
    }
  }

  /** The messages LoadWAVFile prints, in order. */
  function Diagnostics(h: WavHeader): (log: seq<string>)
    ensures |log| <= 4
  {
    (if TagMatches(h.typeTag, RIFF_TAG) then [] else [NOT_RIFF])
    + (if TagMatches(h.formatTag, WAVE_TAG) then [] else [NOT_WAVE])
    + (if TagMatches(h.subchunk1Id, FMT_TAG) then [] else [MISSING_FMT])
    + (if TagMatches(h.subchunk2Id, DATA_TAG) then [] else [MISSING_DATA])
  }

  /** Nothing is reported exactly when all four tags are right. */
  lemma DiagnosticsEmptyIffTagsMatch(h: WavHeader)
    requires |h.typeTag| <= 4 && |h.formatTag| <= 4 && |h.subchunk1Id| <= 4 && |h.subchunk2Id| <= 4
    ensures Diagnostics(h) == [] <==>
            Chars(h.typeTag) == "RIFF" && Chars(h.formatTag) == "WAVE"
            && Chars(h.subchunk1Id) == "fmt " && Chars(h.subchunk2Id) == "data"
  {
    TagMatchesExactly(h.typeTag, RIFF_TAG);
    TagMatchesExactly(h.formatTag, WAVE_TAG);
    TagMatchesExactly(h.subchunk1Id, FMT_TAG);
    TagMatchesExactly(h.subchunk2Id, DATA_TAG);
  }

  // ---------------------------------------------------------------------
  // Sample data sizes

  /** numChannels * (bitsPerSample / 8): the bytes of one sample frame. */
  function FrameSize(h: WavHeader): nat
  {
    h.numChannels * (h.bitsPerSample / 8)
  }

  /** `const int NumSamples`: the whole frames in the data chunk, stored in
      a signed 32-bit variable. */
  function SampleCount(h: WavHeader): int
    requires FrameSize(h) > 0
  {
    S32(h.subchunk2Size / FrameSize(h))
  }

  /** The iterations of `for (int i = 0; i < NumSamples; i++)`. */
  function SamplesCopied(h: WavHeader): nat
    requires FrameSize(h) > 0
  {
    if SampleCount(h) > 0 then SampleCount(h) else 0
  }

  /** The u32 _dataByteSize: NumSamples * (bitsPerSample / 8) *
      numChannels. */
  function DataByteSize(h: WavHeader): nat
    requires FrameSize(h) > 0
  {
    U32(SampleCount(h) * (h.bitsPerSample / 8) * h.numChannels)
  }

  /** The data buffer holds the whole frames of the data chunk: a multiple
      of the frame size, at most subchunk2Size and less than one frame
      short of it. */
  lemma DataByteSizeIsWholeFrames(h: WavHeader)
    requires FrameSize(h) > 0 && h.subchunk2Size < U32_MODULUS
    ensures DataByteSize(h) == (h.subchunk2Size / FrameSize(h)) * FrameSize(h)
    ensures DataByteSize(h) % FrameSize(h) == 0
    ensures DataByteSize(h) <= h.subchunk2Size < DataByteSize(h) + FrameSize(h)
  {
    var f := FrameSize(h);
    var q := h.subchunk2Size / f;
    var n := SampleCount(h);
    assert n * (h.bitsPerSample / 8) * h.numChannels == n * f;
    assert q * f <= h.subchunk2Size;
    WrapOfMultiple(q, n, f);
    DivModUnique(q * f, f, q, 0);
  }

  /** A multiple of a value congruent to q, reduced to 32 bits, is the
      multiple of q when that fits. */
  lemma WrapOfMultiple(q: nat, n: int, f: nat)
    requires n == S32(q) && q < U32_MODULUS && q * f < U32_MODULUS
    ensures U32(n * f) == q * f
  {
    if n != q {
      assert n == q - U32_MODULUS;
      assert n * f == q * f - U32_MODULUS * f;
      DivModUnique(n * f, U32_MODULUS, -(f as int), q * f);
    }
  }

  /** For a 16-bit stereo header every frame is counted: NumSamples is
      subchunk2Size / 4 and the buffer holds four bytes per sample. */
  lemma SixteenBitStereoSizes(h: WavHeader)
    requires h.bitsPerSample == 16 && h.numChannels == 2 && h.subchunk2Size < U32_MODULUS
    ensures SampleCount(h) == h.subchunk2Size / 4 == SamplesCopied(h)
    ensures DataByteSize(h) == 4 * SamplesCopied(h)
  {
    FieldWidths();
    assert FrameSize(h) == 4;
    DataByteSizeIsWholeFrames(h);
  }

  // ---------------------------------------------------------------------
  // LoadWAVFile

  /** sWAVStructure: the header fields (all zero until read), the two
      sizes, and the sample buffer. */
  class WavStructure {
    var header: WavHeader
    var numSamples: nat
    var dataByteSize: nat
    var data: array<byte>

    /** The structure as its member initializers leave it. */
    constructor ()
      ensures header == ZERO_HEADER && numSamples == 0 && dataByteSize == 0 && data.Length == 0
    {
      header := ZERO_HEADER;
      numSamples, dataByteSize := 0, 0;
      data := new byte[0];
    }
  }

  const ZERO_HEADER := WavHeader([], 0, [], [], 0, 0, 0, 0, 0, 0, 0, [], 0)

  /** The 16-bit items of the data chunk LoadWAVFile gets: as many of the
      `wanted` as the file holds after `start`. */
  function ItemsRead(length: nat, start: nat, wanted: nat): nat
    requires start <= length
  {
    Min(wanted, (length - start) / 2)
  }

  /** LoadWAVFile over a file's contents: the header read field by field,
      the messages for wrong tags, the sizes, and for 16-bit stereo the
      samples read as 16-bit items into the data buffer. The division by
      the frame size needs a non-zero frame. */
  method LoadWAVFile(contents: seq<byte>) returns (wav: WavStructure, log: seq<string>)
    requires FrameSize(DecodeHeader(contents)) > 0
    ensures fresh(wav) && fresh(wav.data)
    ensures wav.header == DecodeHeader(contents)
    ensures log == Diagnostics(wav.header)
    ensures wav.numSamples == 0
    ensures wav.dataByteSize == DataByteSize(wav.header) == wav.data.Length
    ensures var h := wav.header;
            var start := Min(HEADER_SIZE, |contents|);
            h.bitsPerSample == 16 && h.numChannels == 2 ==>
              && wav.data.Length == 4 * SamplesCopied(h)
              && forall j :: 0 <= j < 2 * ItemsRead(|contents|, start, 2 * SamplesCopied(h)) ==>
                   wav.data[j] == contents[start + j]
  {
    wav := new WavStructure();
    var fp := new InputFile(contents);
    var h := ReadHeader(fp, wav.header);
    log := ReportTags(h);
    var dataByteSize, data := ReadData(fp, h);
    wav.header, wav.dataByteSize, wav.data := h, dataByteSize, data;
  }

  /** The data part of LoadWAVFile: the buffer of _dataByteSize bytes and,
      for 16-bit stereo, the samples read into it. */
  method ReadData(fp: InputFile, h: WavHeader) returns (dataByteSize: nat, data: array<byte>)
    requires fp.Valid() && FrameSize(h) > 0 && h.subchunk2Size < U32_MODULUS
    modifies fp
    ensures fresh(data) && dataByteSize == DataByteSize(h) == data.Length
    ensures h.bitsPerSample == 16 && h.numChannels == 2 ==>
              && data.Length == 4 * SamplesCopied(h)
              && forall j :: 0 <= j < 2 * ItemsRead(|fp.contents|, old(fp.position), 2 * SamplesCopied(h)) ==>
                   data[j] == fp.contents[old(fp.position) + j]
  {
    var numSamples;
    numSamples, dataByteSize := DataSizes(h);
    data := new byte[dataByteSize];
    if h.bitsPerSample == 16 && h.numChannels == 2 {
      SixteenBitStereoSizes(h);
      CopySamples(fp, data, numSamples);
    }
  }

  /** The size arithmetic of LoadWAVFile: NumSamples and _dataByteSize. */
  method DataSizes(h: WavHeader) returns (numSamples: int, dataByteSize: nat)
    requires FrameSize(h) > 0
    ensures numSamples == SampleCount(h) && dataByteSize == DataByteSize(h)
  {
    numSamples := S32(h.subchunk2Size / (h.numChannels * (h.bitsPerSample / 8)));
    dataByteSize := U32(numSamples * (h.bitsPerSample / 8) * h.numChannels);
  }

  /** The tag checks of LoadWAVFile: one message per wrong tag, in file
      order. */
  method ReportTags(h: WavHeader) returns (log: seq<string>)
    ensures log == Diagnostics(h)
  {
    log := [];
    if !TagMatches(h.typeTag, RIFF_TAG) {
      log := log + [NOT_RIFF];
    }
    if !TagMatches(h.formatTag, WAVE_TAG) {
      log := log + [NOT_WAVE];
    }
    if !TagMatches(h.subchunk1Id, FMT_TAG) {
      log := log + [MISSING_FMT];
    }
    if !TagMatches(h.subchunk2Id, DATA_TAG) {
      log := log + [MISSING_DATA];
    }
  }

  /** The header reads of LoadWAVFile, in file order, each into its field
      of the zeroed header. */
  method ReadHeader(fp: InputFile, zero: WavHeader) returns (h: WavHeader)
    requires fp.Valid() && fp.position == 0 && zero == ZERO_HEADER
    modifies fp
    ensures fp.Valid() && fp.position == Min(HEADER_SIZE, |fp.contents|)
    ensures h == DecodeHeader(fp.contents)
  {
    h := zero;
    var typeTag := ReadTag(fp, 0);
    var chunkSize := ReadField(fp, 4, 4, h.chunkSize);
    var formatTag := ReadTag(fp, 8);
    var subchunk1Id := ReadTag(fp, 12);
    var subchunk1Size := ReadField(fp, 16, 4, h.subchunk1Size);
    var audioFormat := ReadField(fp, 20, 2, h.audioFormat);
    var numChannels := ReadField(fp, 22, 2, h.numChannels);
    var sampleRate := ReadField(fp, 24, 4, h.sampleRate);
    var byteRate := ReadField(fp, 28, 4, h.byteRate);
    var blockAlign := ReadField(fp, 32, 2, h.blockAlign);
    var bitsPerSample := ReadField(fp, 34, 2, h.bitsPerSample);
    var subchunk2Id := ReadTag(fp, 36);
    var subchunk2Size := ReadField(fp, 40, 4, h.subchunk2Size);
    h := WavHeader(typeTag, chunkSize, formatTag, subchunk1Id, subchunk1Size, audioFormat,
                   numChannels, sampleRate, byteRate, blockAlign, bitsPerSample,
                   subchunk2Id, subchunk2Size);
  }

  /** fread(tag, sizeof(char), 4, fp) at the tag's offset: the bytes of
      TagAt. */
  method ReadTag(fp: InputFile, ghost offset: nat) returns (tag: seq<byte>)
    requires fp.Valid() && fp.position == Min(offset, |fp.contents|)
    modifies fp
    ensures fp.Valid() && fp.position == Min(offset + 4, |fp.contents|)
    ensures tag == TagAt(fp.contents, offset)
  {
    tag := fp.ReadBytes(4);
  }

  /** fread(&field, size, 1, fp) at the field's offset on a little-endian
      machine: the field becomes FieldAt, or keeps its value on a short
      read. */
  method ReadField(fp: InputFile, ghost offset: nat, size: nat, field: nat) returns (value: nat)
    requires fp.Valid() && fp.position == Min(offset, |fp.contents|) && size > 0
    modifies fp
    ensures fp.Valid() && fp.position == Min(offset + size, |fp.contents|)
    ensures value == if offset + size <= |fp.contents| then FieldAt(fp.contents, offset, size) else field
  {
    var item := fp.ReadItem(size);
    value := if item.Some? then LittleEndian(item.value) else field;
  }

  /** The 16-bit stereo copy: for each sample, its left and right 16-bit
      items read into the data buffer at 2 * i and 2 * i + 1. */
  method CopySamples(fp: InputFile, data: array<byte>, numSamples: int)
    requires fp.Valid()
    requires numSamples >= 0 && data.Length == 4 * numSamples
    modifies fp, data
    ensures forall j :: 0 <= j < 2 * ItemsRead(|fp.contents|, old(fp.position), 2 * numSamples) ==>
              data[j] == fp.contents[old(fp.position) + j]
  {
    ghost var start := fp.position;
    ghost var c := fp.contents;
    var i := 0;
    while i < numSamples
      invariant 0 <= i <= numSamples && fp.Valid() && fp.contents == c
      invariant fp.position == Min(start + 4 * i, |c|)
      invariant forall j :: 0 <= j < 2 * ItemsRead(|c|, start, 2 * i) ==> data[j] == c[start + j]
    {
      var idx := i * 2;
      CopyItem(fp, data, idx, start);
      CopyItem(fp, data, idx + 1, start);
      i := i + 1;
    }
  }

  /** fread(&data[idx], sizeof(short), 1, fp): two bytes into the data
      buffer at byte 2 * idx, when the file still holds them. */
  method CopyItem(fp: InputFile, data: array<byte>, idx: nat, ghost start: nat)
    requires fp.Valid() && start <= |fp.contents| && 2 * idx + 2 <= data.Length
    requires fp.position == Min(start + 2 * idx, |fp.contents|)
    requires forall j :: 0 <= j < 2 * ItemsRead(|fp.contents|, start, idx) ==> data[j] == fp.contents[start + j]
    modifies fp, data
    ensures fp.Valid() && fp.position == Min(start + 2 * idx + 2, |fp.contents|)
    ensures forall j :: 0 <= j < 2 * ItemsRead(|fp.contents|, start, idx + 1) ==> data[j] == fp.contents[start + j]
  {
    var item := fp.ReadItem(2);
    if item.Some? {
      data[2 * idx] := item.value[0];
      data[2 * idx + 1] := item.value[1];
    }
  }

  // ---------------------------------------------------------------------
  // Create

  /** The sound categories; only WAV files are loaded. */
  datatype SoundCategory = SoundFormatWav | OtherCategory(value: nat)

  /** The OpenAL buffer formats. */
  datatype AlFormat = Mono8 | Mono16 | Stereo8 | Stereo16

  function FormatBits(f: AlFormat): nat
  {
    match f
    case Mono8 => 8
    case Stereo8 => 8
    case Mono16 => 16
    case Stereo16 => 16
  }

  function FormatChannels(f: AlFormat): nat
  {
    match f
    case Mono8 => 1
    case Mono16 => 1
    case Stereo8 => 2
    case Stereo16 => 2
  }

  /** The format Create chooses: STEREO16 unless the depth is 8 or 16 bits,
      and then the format of that depth, stereo for more than one
      channel. */
  function WavFormat(bitsPerSample: nat, numChannels: nat): AlFormat
  {
    var stereo := numChannels > 1;
    if bitsPerSample == 16 then (if stereo then Stereo16 else Mono16)
    else if bitsPerSample == 8 then (if stereo then Stereo8 else Mono8)
    else Stereo16
  }

  /** For 8 and 16 bits the chosen format has the file's depth, and is
      stereo exactly when the file has more than one channel; any other
      depth gets 16-bit stereo. */
  lemma WavFormatMatchesFile(bitsPerSample: nat, numChannels: nat)
    ensures var f := WavFormat(bitsPerSample, numChannels);
            if bitsPerSample == 8 || bitsPerSample == 16
            then FormatBits(f) == bitsPerSample && (FormatChannels(f) == 2 <==> numChannels > 1)
            else f == Stereo16
  {
  }

  /** What Create passes to alBufferData: format, size and frequency. */
  datatype BufferData = BufferData(format: AlFormat, size: nat, frequency: nat)

  /** Create(filename, format, file, source, buffer): for a WAV file, the
      loaded structure and the buffer's data arguments; for any other
      category, nothing. */
  method Create(format: SoundCategory, contents: seq<byte>)
      returns (file: Option<WavStructure>, buffer: Option<BufferData>, log: seq<string>)
    requires format == SoundFormatWav ==> FrameSize(DecodeHeader(contents)) > 0
    ensures format != SoundFormatWav ==> file == None && buffer == None && log == []
    ensures format == SoundFormatWav ==>
              var h := DecodeHeader(contents);
              && file.Some? && fresh(file.value) && file.value.header == h
              && buffer == Some(BufferData(WavFormat(h.bitsPerSample, h.numChannels),
                                           DataByteSize(h), h.sampleRate))
              && log == Diagnostics(h)
  {
    file, buffer, log := None, None, [];
    if format == SoundFormatWav {
      var wavFile;
      wavFile, log := LoadWAVFile(contents);
      file := Some(wavFile);
      var wavFormat := WavFormat(wavFile.header.bitsPerSample, wavFile.header.numChannels);
      buffer := Some(BufferData(wavFormat, wavFile.dataByteSize, wavFile.header.sampleRate));
    }
  }
}
