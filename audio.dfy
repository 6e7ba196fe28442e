/**
 * Audio (audio/Audio.cpp): the RIFF/WAVE header reader over an in-memory byte
 * sequence, the OpenAL format choice, and the stereo-to-mono downmix done
 * before a buffer is uploaded. OpenAL calls become the upload a load hands
 * over; file opening becomes an optional byte sequence.
 */
module Audio {
  import opened Wrappers

  type byte = x: int | 0 <= x < 256

  const TWO31: int := 0x8000_0000
  const TWO32: int := 0x1_0000_0000

  /** The unsigned little-endian value of bs. */
  function LittleEndian(bs: seq<byte>): nat
  {
    if |bs| == 0 then 0 else bs[0] + 256 * LittleEndian(bs[1..])
  }

  /** An int32_t holding the 32-bit pattern v. */
  function Int32(v: int): int
    requires 0 <= v < TWO32
  {
    if v < TWO31 then v else v - TWO32
  }

  /**
   * convert_to_int on a little-endian host: the first len bytes copied into
   * the low bytes of an int32_t that starts as 0.
   */
  function ConvertToInt(buffer: seq<byte>, len: nat): (r: int)
    requires len <= 4 && len <= |buffer|
    ensures len < 4 ==> 0 <= r < Pow256(len)
    ensures -TWO31 <= r < TWO31
  {
    LittleEndianBound(buffer[..len]);
    Pow256Values();
    Int32(LittleEndian(buffer[..len]))
  }

  function Pow256(n: nat): nat
  {
    if n == 0 then 1 else 256 * Pow256(n - 1)
  }

  lemma Pow256Values()
    ensures Pow256(0) == 1 && Pow256(1) == 256 && Pow256(2) == 65536
    ensures Pow256(3) == 16777216 && Pow256(4) == TWO32
  {
  }

  lemma {:induction false} LittleEndianBound(bs: seq<byte>)
    ensures LittleEndian(bs) < Pow256(|bs|)
  {
    if |bs| > 0 {
      LittleEndianBound(bs[1..]);
    }
  }

  /** The n little-endian bytes of v: the inverse of LittleEndian. */
  function LittleEndianBytes(v: nat, n: nat): (r: seq<byte>)
    ensures |r| == n
  {
    if n == 0 then [] else [v % 256] + LittleEndianBytes(v / 256, n - 1)
  }

  lemma {:induction false} LittleEndianRoundTrip(v: nat, n: nat)
    requires v < Pow256(n)
    ensures LittleEndian(LittleEndianBytes(v, n)) == v
  {
    if n > 0 {
      LittleEndianRoundTrip(v / 256, n - 1);
      assert LittleEndianBytes(v, n)[1..] == LittleEndianBytes(v / 256, n - 1);
    }
  }

  /** The four-character tags, as bytes. */
  function RiffTag(): seq<byte> { [82, 73, 70, 70] }
  function WaveTag(): seq<byte> { [87, 65, 86, 69] }
  function FmtTag(): seq<byte> { [102, 109, 116, 32] }
  function DataTag(): seq<byte> { [100, 97, 116, 97] }

  /** The read that ran out of input. */
  datatype Field =
    | RiffField | FileSizeField | WaveField | FmtField | FmtLengthField | AudioFormatField
    | ChannelsField | SampleRateField | ByteRateField | BlockAlignField | BitsField
    | DataField | DataSizeField

  datatype HeaderError = Truncated(field: Field) | NotRiff | NotWave | NoDataTag

  /** channels and bitsPerSample are uint8_t, so the 16-bit values they get are reduced mod 256. */
  datatype Header = Header(channels: nat, sampleRate: int, bitsPerSample: nat, size: int)

  /** load_wav_file_header: the fixed-offset reads of the canonical 44-byte header. */
  function ParseHeader(b: seq<byte>): Result<Header, HeaderError>
  {
    if |b| < 4 then Failure(Truncated(RiffField))
    else if b[0..4] != RiffTag() then Failure(NotRiff)
    else if |b| < 8 then Failure(Truncated(FileSizeField))
    else if |b| < 12 then Failure(Truncated(WaveField))
    else if b[8..12] != WaveTag() then Failure(NotWave)
    else if |b| < 16 then Failure(Truncated(FmtField))
    else if |b| < 20 then Failure(Truncated(FmtLengthField))
    else if |b| < 22 then Failure(Truncated(AudioFormatField))
    else if |b| < 24 then Failure(Truncated(ChannelsField))
    else if |b| < 28 then Failure(Truncated(SampleRateField))
    else if |b| < 32 then Failure(Truncated(ByteRateField))
    else if |b| < 34 then Failure(Truncated(BlockAlignField))
    else if |b| < 36 then Failure(Truncated(BitsField))
    else if |b| < 40 then Failure(Truncated(DataField))
    else if b[36..40] != DataTag() then Failure(NoDataTag)
    else if |b| < 44 then Failure(Truncated(DataSizeField))
    else Success(Header(ConvertToInt(b[22..24], 2) % 256, ConvertToInt(b[24..28], 4),
                        ConvertToInt(b[34..36], 2) % 256, ConvertToInt(b[40..44], 4)))
  }

  /** The header is accepted exactly when 44 bytes are there and the three checked tags match. */
  lemma ParseHeaderAccepts(b: seq<byte>)
    ensures ParseHeader(b).Success? <==>
            |b| >= 44 && b[0..4] == RiffTag() && b[8..12] == WaveTag() && b[36..40] == DataTag()
    ensures ParseHeader(b).Failure? && ParseHeader(b).error.Truncated? ==> |b| < 44
  {
  }

  /** Only the first 44 bytes matter: whatever follows the header does not change the result. */
  lemma ParseHeaderPrefix(b: seq<byte>, rest: seq<byte>)
    requires |b| == 44
    ensures ParseHeader(b + rest) == ParseHeader(b)
  {
    var c := b + rest;
    assert c[0..4] == b[0..4] && c[8..12] == b[8..12] && c[36..40] == b[36..40];
    assert c[22..24] == b[22..24] && c[24..28] == b[24..28] && c[34..36] == b[34..36] && c[40..44] == b[40..44];
  }

  /** The canonical header a writer produces for h; "fmt ", the chunk length and the rates are not read back. */
  function EncodeHeader(h: Header): (b: seq<byte>)
    requires h.channels < 256 && h.bitsPerSample < 256
    requires 0 <= h.sampleRate < TWO31 && 0 <= h.size < TWO31 - 36
    ensures |b| == 44
  {
    var blockAlign := h.channels * h.bitsPerSample / 8;
    var byteRate := (h.sampleRate * blockAlign) % TWO32;
    var lead := RiffTag() + LittleEndianBytes(36 + h.size, 4) + WaveTag() + FmtTag() +
                LittleEndianBytes(16, 4) + LittleEndianBytes(1, 2);
    var rates := LittleEndianBytes(byteRate, 4) + LittleEndianBytes(blockAlign % 65536, 2);
    lead + LittleEndianBytes(h.channels, 2) + LittleEndianBytes(h.sampleRate, 4) + rates +
    LittleEndianBytes(h.bitsPerSample, 2) + DataTag() + LittleEndianBytes(h.size, 4)
  }

  lemma ConvertEncoded(v: nat, n: nat)
    requires n == 2 || n == 4
    requires v < (if n == 2 then 256 else TWO31)
    ensures ConvertToInt(LittleEndianBytes(v, n), n) == v
  {
    var bs := LittleEndianBytes(v, n);
    assert bs[..n] == bs;
    Pow256Values();
    LittleEndianRoundTrip(v, n);
  }

  /** The seven pieces of a 44-byte header, and where each one sits. */
  lemma HeaderPieces(lead: seq<byte>, c: seq<byte>, r: seq<byte>, m: seq<byte>, bits: seq<byte>, d: seq<byte>, z: seq<byte>)
    requires |lead| == 22 && |c| == 2 && |r| == 4 && |m| == 6 && |bits| == 2 && |d| == 4 && |z| == 4
    ensures var b := lead + c + r + m + bits + d + z;
            b[0..4] == lead[0..4] && b[8..12] == lead[8..12] &&
            b[22..24] == c && b[24..28] == r && b[34..36] == bits && b[36..40] == d && b[40..44] == z
  {
  }

  lemma ParseValid(b: seq<byte>)
    requires |b| == 44 && b[0..4] == RiffTag() && b[8..12] == WaveTag() && b[36..40] == DataTag()
    ensures ParseHeader(b) == Success(Header(ConvertToInt(b[22..24], 2) % 256, ConvertToInt(b[24..28], 4),
                                             ConvertToInt(b[34..36], 2) % 256, ConvertToInt(b[40..44], 4)))
  {
  }

  /** Reading back a written header gives the written fields. */
  lemma HeaderRoundTrip(h: Header, data: seq<byte>)
    requires h.channels < 256 && h.bitsPerSample < 256
    requires 0 <= h.sampleRate < TWO31 && 0 <= h.size < TWO31 - 36
    ensures ParseHeader(EncodeHeader(h) + data) == Success(h)
  {
    var b := EncodeHeader(h);
    EncodedLayout(h);
    ParseValid(b);
    ConvertEncoded(h.channels, 2);
    ConvertEncoded(h.sampleRate, 4);
    ConvertEncoded(h.bitsPerSample, 2);
    ConvertEncoded(h.size, 4);
    ParseHeaderPrefix(b, data);
  }

  /** Where the tags and the fields read back sit in a written header. */
  lemma EncodedLayout(h: Header)
    requires h.channels < 256 && h.bitsPerSample < 256
    requires 0 <= h.sampleRate < TWO31 && 0 <= h.size < TWO31 - 36
    ensures var b := EncodeHeader(h);
            b[0..4] == RiffTag() && b[8..12] == WaveTag() && b[36..40] == DataTag() &&
            b[22..24] == LittleEndianBytes(h.channels, 2) && b[24..28] == LittleEndianBytes(h.sampleRate, 4) &&
            b[34..36] == LittleEndianBytes(h.bitsPerSample, 2) && b[40..44] == LittleEndianBytes(h.size, 4)
  {
    var blockAlign := h.channels * h.bitsPerSample / 8;
    var byteRate := (h.sampleRate * blockAlign) % TWO32;
    var lead := RiffTag() + LittleEndianBytes(36 + h.size, 4) + WaveTag() + FmtTag() +
                LittleEndianBytes(16, 4) + LittleEndianBytes(1, 2);
    assert lead[0..4] == RiffTag() && lead[8..12] == WaveTag();
    var rates := LittleEndianBytes(byteRate, 4) + LittleEndianBytes(blockAlign % 65536, 2);
    var c, r, bits, z := LittleEndianBytes(h.channels, 2), LittleEndianBytes(h.sampleRate, 4),
                         LittleEndianBytes(h.bitsPerSample, 2), LittleEndianBytes(h.size, 4);
    assert EncodeHeader(h) == lead + c + r + rates + bits + DataTag() + z;
    HeaderPieces(lead, c, r, rates, bits, DataTag(), z);
  }

  /** uint8_t channels: a channel count of 258 reads as 2. */
  lemma ChannelsTruncateToByte()
    ensures var b := RiffTag() + [0, 0, 0, 0] + WaveTag() + FmtTag() + [16, 0, 0, 0, 1, 0] +
                     [2, 1] + [68, 172, 0, 0] + [0, 0, 0, 0, 4, 0] + [16, 0] + DataTag() + [0, 0, 0, 0];
            ParseHeader(b).Success? && ParseHeader(b).value.channels == 2
  {
    var b := RiffTag() + [0, 0, 0, 0] + WaveTag() + FmtTag() + [16, 0, 0, 0, 1, 0] +
             [2, 1] + [68, 172, 0, 0] + [0, 0, 0, 0, 4, 0] + [16, 0] + DataTag() + [0, 0, 0, 0];
    assert b[22..24] == [2, 1];
    assert ConvertToInt(b[22..24], 2) == 258 by {
      assert b[22..24][..2] == [2, 1];
      assert LittleEndian([2, 1]) == 2 + 256 * LittleEndian([1]);
      assert LittleEndian([1]) == 1 + 256 * LittleEndian([]);
    }
  }

  // ---------------------------------------------------------------------------
  // format selection
  // ---------------------------------------------------------------------------

  datatype Format = NoFormat | Mono8 | Mono16 | Stereo8 | Stereo16

  function SelectFormat(channels: nat, bits: nat): Format
  {
    if channels == 1 then
      if bits == 8 then Mono8 else if bits == 16 then Mono16 else NoFormat
    else if channels == 2 then
      if bits == 8 then Stereo8 else if bits == 16 then Stereo16 else NoFormat
    else NoFormat
  }

  function FormatChannels(f: Format): nat
  {
    match f
    case NoFormat => 0
    case Mono8 | Mono16 => 1
    case Stereo8 | Stereo16 => 2
  }

  function FormatBits(f: Format): nat
  {
    match f
    case NoFormat => 0
    case Mono8 | Stereo8 => 8
    case Mono16 | Stereo16 => 16
  }

  /** Exactly mono or stereo at 8 or 16 bits has a format, and the format records both. */
  lemma SelectFormatTable(channels: nat, bits: nat, f: Format)
    ensures SelectFormat(channels, bits) != NoFormat <==> (channels == 1 || channels == 2) && (bits == 8 || bits == 16)
    ensures SelectFormat(channels, bits) != NoFormat ==>
              FormatChannels(SelectFormat(channels, bits)) == channels && FormatBits(SelectFormat(channels, bits)) == bits
    ensures f != NoFormat ==> SelectFormat(FormatChannels(f), FormatBits(f)) == f
  {
  }

  // ---------------------------------------------------------------------------
  // stereo to mono
  // ---------------------------------------------------------------------------

  /** A char on a signed-char platform, which is how load reads an 8-bit sample. */
  function SignedByte(b: byte): int
  {
    if b < 128 then b else b - 256
  }

  /** A short read from two little-endian bytes. */
  function Short(lo: byte, hi: byte): int
  {
    var v := lo + 256 * hi;
    if v < 32768 then v else v - 65536
  }

  /** C integer division by 2: truncation toward zero. */
  function Half(x: int): (r: int)
    ensures x >= 0 ==> 0 <= x - 2 * r <= 1
    ensures x < 0 ==> -1 <= x - 2 * r <= 0
  {
    if x >= 0 then x / 2 else -((-x) / 2)
  }

  /**
   * The 8-bit average as written: each sample read as a signed char, the
   * truncated half of their sum stored back as a char.
   */
  function Mix8AsWritten(data: seq<byte>): (r: seq<byte>)
    ensures |r| == |data| / 2
  {
    seq(|data| / 2, k requires 0 <= k < |data| / 2 => (Half(SignedByte(data[2 * k]) + SignedByte(data[2 * k + 1])) + 256) % 256)
  }

  /**
   * 8-bit PCM is unsigned, with silence at 128. Read as signed chars, the
   * samples 255 and 1 (just below and just above silence's opposite ends)
   * average to 0, the most negative unsigned sample, instead of 128, and 0
   * does not lie between them.
   */
  lemma SignedMixLeavesRange()
    ensures Mix8AsWritten([255, 1]) == [0]
    ensures !(1 <= Mix8AsWritten([255, 1])[0] <= 255)
  {
    var m := Mix8AsWritten([255, 1]);
    assert SignedByte(255) == -1 && SignedByte(1) == 1;
    assert m[0] == 0;
  }

  /** The corrected mono samples of interleaved unsigned 8-bit stereo: one per complete left/right pair. */
  function Mix8(data: seq<byte>): (r: seq<int>)
    ensures |r| == |data| / 2
  {
    seq(|data| / 2, k requires 0 <= k < |data| / 2 => Half(data[2 * k] as int + data[2 * k + 1]))
  }

  /** Each corrected 8-bit sample lies between its left and right samples, read unsigned. */
  lemma Mix8Between(data: seq<byte>)
    ensures forall k :: 0 <= k < |data| / 2 ==>
              (if data[2 * k] <= data[2 * k + 1] then data[2 * k] else data[2 * k + 1]) <= Mix8(data)[k] <=
              (if data[2 * k] <= data[2 * k + 1] then data[2 * k + 1] else data[2 * k])
  {
    forall k | 0 <= k < |data| / 2
      ensures (if data[2 * k] <= data[2 * k + 1] then data[2 * k] else data[2 * k + 1]) <= Mix8(data)[k] <=
              (if data[2 * k] <= data[2 * k + 1] then data[2 * k + 1] else data[2 * k])
    {
      HalfIsAverage(data[2 * k], data[2 * k + 1]);
    }
  }

  /** The same for 16-bit stereo: one sample per four bytes. */
  function Mix16(data: seq<byte>): (r: seq<int>)
    ensures |r| == |data| / 4
  {
    seq(|data| / 4, k requires 0 <= k < |data| / 4 =>
      Half(Short(data[4 * k], data[4 * k + 1]) + Short(data[4 * k + 2], data[4 * k + 3])))
  }

  /** The truncated average lies between the two channels and is symmetric in them. */
  lemma HalfIsAverage(l: int, r: int)
    ensures (if l <= r then l else r) <= Half(l + r) <= (if l <= r then r else l)
    ensures Half(l + r) == Half(r + l)
    ensures Half(l + l) == l
  {
  }

  /** Every mixed sample fits the output type: an unsigned byte for 8-bit, a short for 16-bit data. */
  lemma MixInRange(data: seq<byte>)
    ensures forall k :: 0 <= k < |Mix8(data)| ==> 0 <= Mix8(data)[k] < 256
    ensures forall k :: 0 <= k < |Mix16(data)| ==> -32768 <= Mix16(data)[k] < 32768
  {
    forall k | 0 <= k < |data| / 2 ensures 0 <= Mix8(data)[k] < 256 {
      HalfIsAverage(data[2 * k], data[2 * k + 1]);
    }
    forall k | 0 <= k < |data| / 4 ensures -32768 <= Mix16(data)[k] < 32768 {
      HalfIsAverage(Short(data[4 * k], data[4 * k + 1]), Short(data[4 * k + 2], data[4 * k + 3]));
    }
  }

  /** Interleaving a mono stream with itself. */
  function Duplicate(mono: seq<byte>): (r: seq<byte>)
    ensures |r| == 2 * |mono|
  {
    seq(2 * |mono|, i requires 0 <= i < 2 * |mono| => mono[i / 2])
  }

  /** Downmixing a stereo stream whose channels are equal gives that channel back. */
  lemma MixOfDuplicate(mono: seq<byte>)
    ensures Mix8(Duplicate(mono)) == seq(|mono|, k requires 0 <= k < |mono| => mono[k] as int)
  {
    var d := Duplicate(mono);
    var expected := seq(|mono|, k requires 0 <= k < |mono| => mono[k] as int);
    var mixed := Mix8(d);
    assert |mixed| == |expected|;
    forall k | 0 <= k < |mono| ensures mixed[k] == expected[k] {
      assert d[2 * k] == mono[k] && d[2 * k + 1] == mono[k];
      HalfIsAverage(mono[k], mono[k]);
    }
  }

  /**
   * The byte indices the 8-bit downmix loop reads as written: the pair
   * (i, i + 1) for every even i below size.
   */
  function PairReadsAsWritten(size: nat): seq<(nat, nat)>
  {
    seq((size + 1) / 2, k requires 0 <= k < (size + 1) / 2 => (2 * k, 2 * k + 1))
  }

  /**
   * With an odd size the last pair read as written reaches one byte past the
   * buffer, and its sample is stored at index size / 2, one past the
   * size / 2 samples monoData holds.
   */
  lemma OddSizeReadsPastBuffer(size: nat)
    requires size % 2 == 1
    ensures var pairs := PairReadsAsWritten(size);
            |pairs| > 0 && pairs[|pairs| - 1].1 == size && pairs[|pairs| - 1].0 / 2 == size / 2
  {
  }

  /**
   * The byte offsets the 16-bit downmix loop starts a frame at as written:
   * every multiple i of 4 below size, reading i .. i + 3.
   */
  function FrameReadsAsWritten(size: nat): seq<nat>
  {
    seq((size + 3) / 4, k requires 0 <= k < (size + 3) / 4 => 4 * k)
  }

  /**
   * With a size that is not a multiple of 4 the last frame read as written
   * runs past the buffer, and its sample is stored at index size / 4, one
   * past the size / 4 samples monoData holds.
   */
  lemma PartialFrameReadsPastBuffer(size: nat)
    requires size % 4 != 0
    ensures var frames := FrameReadsAsWritten(size);
            |frames| > 0 && frames[|frames| - 1] + 3 >= size && frames[|frames| - 1] / 4 == size / 4
  {
  }

  /** The corrected 8-bit downmix, reading complete left/right pairs only and averaging them unsigned. */
  method DownmixStereo8(data: seq<byte>) returns (mono: array<int>)
    ensures fresh(mono) && mono[..] == Mix8(data)
  {
    mono := new int[|data| / 2];
    var i, j := 0, 0;
    while i + 1 < |data|
      invariant i == 2 * j && j <= |data| / 2 && i <= |data|
      invariant forall k :: 0 <= k < j ==> mono[k] == Mix8(data)[k]
    {
      var left: int := data[i];
      var right: int := data[i + 1];
      mono[j] := Half(left + right);
      i, j := i + 2, j + 1;
    }
    assert j == |data| / 2;
  }

  /** The corrected 16-bit downmix, reading complete four-byte frames only. */
  method DownmixStereo16(data: seq<byte>) returns (mono: array<int>)
    ensures fresh(mono) && mono[..] == Mix16(data)
  {
    mono := new int[|data| / 4];
    var i, j := 0, 0;
    while i + 3 < |data|
      invariant i == 4 * j && j <= |data| / 4 && i <= |data|
      invariant forall k :: 0 <= k < j ==> mono[k] == Mix16(data)[k]
    {
      var left := Short(data[i], data[i + 1]);
      var right := Short(data[i + 2], data[i + 3]);
      mono[j] := Half(left + right);
      i, j := i + 4, j + 1;
    }
    assert j == |data| / 4;
  }

  // ---------------------------------------------------------------------------
  // load
  // ---------------------------------------------------------------------------

  /** What alBufferData receives: a mono format, the sample values and the sample rate. */
  datatype Upload = Upload(format: Format, samples: seq<int>, sampleRate: int)

  /** load_wav: the header and the sample bytes that follow it, or None. */
  function LoadWav(file: Option<seq<byte>>): Option<(Header, seq<byte>)>
  {
    match file
    case None => None
    case Some(b) =>
      match ParseHeader(b)
      case Failure(_) => None
      case Success(h) =>
        if h.size < 0 then None
        else Some((h, b[44..if 44 + h.size <= |b| then 44 + h.size else |b|]))
  }

  /** The upload load makes for a parsed file. */
  function UploadOf(h: Header, data: seq<byte>): Option<Upload>
  {
    match SelectFormat(h.channels, h.bitsPerSample)
    case Stereo8 => Some(Upload(Mono8, Mix8(data), h.sampleRate))
    case Stereo16 => Some(Upload(Mono16, Mix16(data), h.sampleRate))
    case Mono8 => Some(Upload(Mono8, seq(|data|, k requires 0 <= k < |data| => data[k] as int), h.sampleRate))
    case Mono16 => Some(Upload(Mono16, seq(|data| / 2, k requires 0 <= k < |data| / 2 => Short(data[2 * k], data[2 * k + 1])), h.sampleRate))
    case NoFormat => None
  }

  /** Stereo input is always uploaded as mono, with half as many samples per byte pair as channels. */
  lemma UploadIsMono(h: Header, data: seq<byte>)
    ensures UploadOf(h, data).Some? <==> SelectFormat(h.channels, h.bitsPerSample) != NoFormat
    ensures UploadOf(h, data).Some? ==> FormatChannels(UploadOf(h, data).value.format) == 1
    ensures UploadOf(h, data).Some? ==>
              FormatBits(UploadOf(h, data).value.format) == FormatBits(SelectFormat(h.channels, h.bitsPerSample))
  {
  }

  class AudioBuffer {
    var id: nat

    constructor ()
      ensures id == 0
    {
      id := 0;
    }

    /**
     * load. hasContext says whether an OpenAL context exists, file is the
     * file's bytes (None if it cannot be opened), and newId is what
     * alGenBuffers returns. A file without a supported format is accepted
     * and nothing is uploaded.
     */
    method Load(hasContext: bool, file: Option<seq<byte>>, newId: nat) returns (ok: bool, upload: Option<Upload>)
      modifies this
      ensures !hasContext || LoadWav(file).None? ==> !ok && upload.None? && id == old(id)
      ensures hasContext && LoadWav(file).Some? ==>
                ok && id == (if old(id) == 0 then newId else old(id)) &&
                upload == UploadOf(LoadWav(file).value.0, LoadWav(file).value.1)
    {
      if !hasContext {
        return false, None;
      }
      var loaded := LoadWav(file);
      if loaded.None? {
        return false, None;
      }
      var (h, data) := loaded.value;
      var format := SelectFormat(h.channels, h.bitsPerSample);
      if id == 0 {
        id := newId;
      }
      upload := None;
      if format == Stereo8 {
        var mono := DownmixStereo8(data);
        upload := Some(Upload(Mono8, mono[..], h.sampleRate));
      } else if format == Stereo16 {
        var mono := DownmixStereo16(data);
        upload := Some(Upload(Mono16, mono[..], h.sampleRate));
      } else if format != NoFormat {
        upload := UploadOf(h, data);
      }
      ok := true;
    }
  }
}
