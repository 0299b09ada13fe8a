/** A whole raster file, independent of the number of planes: the header followed by the
    payload. The three-plane and the one-plane formats differ only in the magic character
    and the number of channels. */
module Raster {
  import opened Samples
  import opened Results
  import opened Decimal
  import opened Header
  import opened Layout
  import opened Codec

  /** What a reader returns: the header fields and one plane per channel. */
  datatype Decoded = Decoded(header: Header, planes: seq<seq<u16>>)

  /** A decoded file as every successful read delivers it: accepted dimensions,
      `channels` planes of width * height samples each, and one-byte samples below 256. */
  predicate Shaped(d: Decoded, channels: nat) {
    ValidDimension(d.header.width) && ValidDimension(d.header.height)
    && |d.planes| == channels && PlanesOf(d.planes, Pixels(d.header))
    && (d.header.maxval <= 255 ==> PlanesFitInByte(d.planes))
  }

  /** The payload read that follows the header, once the header ends at position `p`. */
  function PlanesAfter(file: seq<byte>, hdr: Header, p: nat, channels: nat): (r: Result<Decoded>)
    requires p <= |file| && ValidDimension(hdr.width) && ValidDimension(hdr.height)
    ensures r.Err? <==> |file| - p < PayloadSize(Pixels(hdr), channels, hdr.maxval)
    ensures r.Err? ==> r.error == ShortRead
    ensures r.Ok? ==> r.value.header == hdr && Shaped(r.value, channels)
  {
    var n := Pixels(hdr);
    var planes :- DecodePayload(file[p..], n, channels, hdr.maxval);
    if hdr.maxval <= 255 then
      DecodedNarrow(file[p..], n, channels, hdr.maxval);
      Ok(Decoded(hdr, planes))
    else
      Ok(Decoded(hdr, planes))
  }

  /** The reader as written: header (whose trailing `\n` directive skips every whitespace
      byte after maxval), then the payload. */
  function ReadPlanes(file: seq<byte>, magic: byte, channels: nat): (r: Result<Decoded>)
    ensures ReadHeader(file, magic).Err? ==> r == Err(ReadHeader(file, magic).error)
    ensures r.Ok? ==> Shaped(r.value, channels)
  {
    var hp :- ReadHeader(file, magic);
    PlanesAfter(file, hp.0, hp.1, channels)
  }

  /** The reader with the header ended by exactly one whitespace byte. */
  function ReadPlanesStrict(file: seq<byte>, magic: byte, channels: nat): (r: Result<Decoded>)
    ensures ReadHeaderStrict(file, magic).Err? ==> r == Err(ReadHeaderStrict(file, magic).error)
    ensures r.Ok? ==> Shaped(r.value, channels)
  {
    var hp :- ReadHeaderStrict(file, magic);
    PlanesAfter(file, hp.0, hp.1, channels)
  }

  /** Only the given magic is accepted: a file that does not start with 'P' and the magic
      character is rejected as not being in the raw format, by both readers. */
  lemma OtherMagicRejected(file: seq<byte>, magic: byte, channels: nat)
    requires !(|file| >= 2 && file[0] == LetterP && file[1] == magic)
    ensures ReadPlanes(file, magic, channels) == Err(NotRawFormat)
    ensures ReadPlanesStrict(file, magic, channels) == Err(NotRawFormat)
  {
  }

  /** A successful read decodes the payload from the position where the header reader
      stopped. */
  lemma ReadPlanesAfterHeader(file: seq<byte>, magic: byte, channels: nat)
    requires ReadPlanes(file, magic, channels).Ok?
    ensures ReadHeader(file, magic).Ok?
    ensures var hp := ReadHeader(file, magic).value;
      ReadPlanes(file, magic, channels) == PlanesAfter(file, hp.0, hp.1, channels)
  {
  }

  /** Sample number `k` of a payload that starts at `p` holds `v`: the byte at `p + k` for
      one-byte samples, the big-endian pair at `p + 2 * k` for two-byte samples. */
  predicate Stored(file: seq<byte>, p: nat, k: nat, maxval: int, v: u16) {
    if maxval > 255 then p + 2 * k + 1 < |file| && v == 256 * (file[p + 2 * k] as int) + file[p + 2 * k + 1]
    else p + k < |file| && v == file[p + k]
  }

  /** Sample `c` of pixel `i` of the planes read after a header that ends at `p` is payload
      sample `i * channels + c`. */
  lemma PlanesAfterSample(file: seq<byte>, hdr: Header, p: nat, channels: nat, i: nat, c: nat)
    requires p <= |file| && ValidDimension(hdr.width) && ValidDimension(hdr.height)
    requires PlanesAfter(file, hdr, p, channels).Ok?
    requires i < Pixels(hdr) && c < channels
    ensures Stored(file, p, i * channels + c, hdr.maxval, PlanesAfter(file, hdr, p, channels).value.planes[c][i])
  {
    DecodeSample(file[p..], Pixels(hdr), channels, hdr.maxval, i, c);
  }

  /** The writer: the fixed header, then the interleaved payload. */
  function WritePlanes(magic: byte, hdr: Header, planes: seq<seq<u16>>): (r: seq<byte>)
    requires hdr.width >= 0 && hdr.height >= 0 && PlanesOf(planes, Pixels(hdr))
    ensures |r| == |FormatHeader(magic, hdr.width, hdr.height, hdr.maxval)|
      + PayloadSize(Pixels(hdr), |planes|, hdr.maxval)
  {
    FormatHeader(magic, hdr.width, hdr.height, hdr.maxval)
      + EncodePayload(planes, Pixels(hdr), hdr.maxval)
  }

  /** The first byte the writer emits after the header: the high byte of the first sample
      of the first plane for two-byte samples, its low byte otherwise. */
  function FirstPayloadByte(planes: seq<seq<u16>>, maxval: int): byte
    requires |planes| > 0 && |planes[0]| > 0
  {
    if maxval > 255 then planes[0][0] / 0x100 else planes[0][0] % 0x100
  }

  /** The planes that a written file can carry: valid dimensions, and one-byte samples that
      fit in a byte. */
  predicate Writable(hdr: Header, planes: seq<seq<u16>>) {
    ValidDimension(hdr.width) && ValidDimension(hdr.height) && |planes| > 0
    && PlanesOf(planes, Pixels(hdr))
    && (hdr.maxval <= 255 ==> PlanesFitInByte(planes))
  }

  lemma EncodedFirst(hdr: Header, planes: seq<seq<u16>>)
    requires Writable(hdr, planes)
    ensures var payload := EncodePayload(planes, Pixels(hdr), hdr.maxval);
      |payload| > 0 && payload[0] == FirstPayloadByte(planes, hdr.maxval)
  {
    var n := Pixels(hdr);
    InterleaveAt(planes, n, 0, 0);
  }

  /** A written file splits into its header and its payload. */
  lemma SplitWritten(magic: byte, hdr: Header, planes: seq<seq<u16>>)
    requires Writable(hdr, planes)
    ensures var h := FormatHeader(magic, hdr.width, hdr.height, hdr.maxval);
      var file := WritePlanes(magic, hdr, planes);
      |h| <= |file| && file[|h|..] == EncodePayload(planes, Pixels(hdr), hdr.maxval)
  {
  }

  /** Whatever the payload, the one-whitespace reader gives back what was written. */
  lemma WriteReadStrict(magic: byte, hdr: Header, planes: seq<seq<u16>>)
    requires Writable(hdr, planes)
    ensures ReadPlanesStrict(WritePlanes(magic, hdr, planes), magic, |planes|) == Ok(Decoded(hdr, planes))
  {
    var n := Pixels(hdr);
    var h := FormatHeader(magic, hdr.width, hdr.height, hdr.maxval);
    var payload := EncodePayload(planes, n, hdr.maxval);
    var file := WritePlanes(magic, hdr, planes);
    ReadFormattedHeaderStrict(magic, hdr.width, hdr.height, hdr.maxval, payload);
    SplitWritten(magic, hdr, planes);
    DecodeEncode(planes, n, hdr.maxval, []);
    assert payload + [] == payload;
  }

  /** The reader as written gives back what was written exactly when the payload does not
      start with a whitespace byte. */
  lemma WriteRead(magic: byte, hdr: Header, planes: seq<seq<u16>>)
    requires Writable(hdr, planes)
    requires !IsSpace(FirstPayloadByte(planes, hdr.maxval))
    ensures ReadPlanes(WritePlanes(magic, hdr, planes), magic, |planes|) == Ok(Decoded(hdr, planes))
  {
    var n := Pixels(hdr);
    var payload := EncodePayload(planes, n, hdr.maxval);
    EncodedFirst(hdr, planes);
    ReadFormattedHeader(magic, hdr.width, hdr.height, hdr.maxval, payload);
    SplitWritten(magic, hdr, planes);
    DecodeEncode(planes, n, hdr.maxval, []);
    assert payload + [] == payload;
  }

  /** A successful header read followed by fewer bytes than the payload needs is a short
      read. */
  lemma ShortPayload(file: seq<byte>, magic: byte, channels: nat)
    requires ReadHeader(file, magic).Ok?
    requires var hp := ReadHeader(file, magic).value;
      |file| - hp.1 < PayloadSize(Pixels(hp.0), channels, hp.0.maxval)
    ensures ReadPlanes(file, magic, channels) == Err(ShortRead)
  {
  }

  /** When the payload does start with a whitespace byte, the reader as written swallows it
      with the header and then finds the payload one byte short. */
  lemma WriteReadLeadingSpace(magic: byte, hdr: Header, planes: seq<seq<u16>>)
    requires Writable(hdr, planes)
    requires IsSpace(FirstPayloadByte(planes, hdr.maxval))
    ensures ReadPlanes(WritePlanes(magic, hdr, planes), magic, |planes|) == Err(ShortRead)
  {
    var n := Pixels(hdr);
    var h := FormatHeader(magic, hdr.width, hdr.height, hdr.maxval);
    var payload := EncodePayload(planes, n, hdr.maxval);
    var file := WritePlanes(magic, hdr, planes);
    EncodedFirst(hdr, planes);
    SplitWritten(magic, hdr, planes);
    FieldsOfFormatted(magic, hdr.width, hdr.height, hdr.maxval, payload);
    AfterFormatted(magic, hdr.width, hdr.height, hdr.maxval, payload);
    AfterFieldsSwallows(file, magic, |h| - 1);
    ShortPayload(file, magic, |planes|);
  }
}
