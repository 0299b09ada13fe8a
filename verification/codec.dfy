/** The binary payload of both raster formats: its size, and the conversion between the
    bytes after the header and the image planes, shared by the three-plane reader and
    writer and the one-plane ones. */
module Codec {
  import opened Samples
  import opened Results
  import opened Layout
  import opened Grid

  /** Bytes per sample on disk: two when maxval exceeds 255, one otherwise. */
  function SampleBytes(maxval: int): (b: nat)
    ensures b == 1 || b == 2
    ensures b == 2 <==> maxval > 255
  {
    if maxval > 255 then 2 else 1
  }

  /** The number of payload bytes `fread` is asked for: `n` pixels of `channels` samples. */
  function PayloadSize(n: nat, channels: nat, maxval: int): (size: nat)
    ensures size % SampleBytes(maxval) == 0
    ensures size == 0 <==> n == 0 || channels == 0
  {
    n * channels * SampleBytes(maxval)
  }

  /** Every sample of every plane fits in one byte. */
  predicate PlanesFitInByte(planes: seq<seq<u16>>) {
    forall c :: 0 <= c < |planes| ==> FitsInByte(planes[c])
  }

  /** The reading half: `data` is everything after the header. Fewer bytes than the payload
      size is a short read; bytes beyond it are never looked at. */
  function DecodePayload(data: seq<byte>, n: nat, channels: nat, maxval: int): (r: Result<seq<seq<u16>>>)
    ensures r.Err? <==> |data| < PayloadSize(n, channels, maxval)
    ensures r.Err? ==> r.error == ShortRead
    ensures r.Ok? ==> |r.value| == channels && PlanesOf(r.value, n)
  {
    var size := PayloadSize(n, channels, maxval);
    if |data| < size then Err(ShortRead)
    else Ok(Deinterleave(ToSamples(data[..size], SampleBytes(maxval)), n, channels))
  }

  /** The writing half: the planes interleaved pixel by pixel, each sample stored in
      `SampleBytes(maxval)` bytes. */
  function EncodePayload(planes: seq<seq<u16>>, n: nat, maxval: int): (r: seq<byte>)
    requires PlanesOf(planes, n)
    ensures |r| == PayloadSize(n, |planes|, maxval)
  {
    FromSamples(Interleave(planes, n), SampleBytes(maxval))
  }

  /** Sample `c` of pixel `i` read from the payload: the byte at `i * channels + c` for
      one-byte samples, the big-endian pair at twice that position for two-byte samples. */
  lemma DecodeSample(data: seq<byte>, n: nat, channels: nat, maxval: int, i: nat, c: nat)
    requires |data| >= PayloadSize(n, channels, maxval)
    requires i < n && c < channels
    ensures var k := i * channels + c;
      var v := DecodePayload(data, n, channels, maxval).value[c][i];
      if maxval > 255 then 2 * k + 1 < |data| && v == 256 * (data[2 * k] as int) + data[2 * k + 1]
      else k < |data| && v == data[k]
  {
    var k := i * channels + c;
    OffsetInRange(c, i, channels, n);
    MulLe(k + 1, n * channels, SampleBytes(maxval));
  }

  /** One-byte samples never exceed 255, whatever the maxval says. */
  lemma DecodedNarrow(data: seq<byte>, n: nat, channels: nat, maxval: int)
    requires maxval <= 255
    requires |data| >= PayloadSize(n, channels, maxval)
    ensures PlanesFitInByte(DecodePayload(data, n, channels, maxval).value)
  {
    var planes := DecodePayload(data, n, channels, maxval).value;
    forall c | 0 <= c < channels
      ensures FitsInByte(planes[c])
    {
      forall i | 0 <= i < n
        ensures planes[c][i] < 0x100
      {
        DecodeSample(data, n, channels, maxval, i, c);
      }
    }
  }

  /** Interleaving samples that fit in a byte gives a stream that fits in a byte. */
  lemma InterleaveFits(planes: seq<seq<u16>>, n: nat)
    requires PlanesOf(planes, n) && PlanesFitInByte(planes)
    ensures FitsInByte(Interleave(planes, n))
  {
    var stream := Interleave(planes, n);
    forall s | 0 <= s < |stream|
      ensures stream[s] < 0x100
    {
      OffsetOfCoordinates(s, |planes|, n);
    }
  }

  /** Reading back a written payload, whatever follows it, gives the planes back, provided
      one-byte samples fit in a byte. */
  lemma {:induction false} DecodeEncode(planes: seq<seq<u16>>, n: nat, maxval: int, rest: seq<byte>)
    requires PlanesOf(planes, n)
    requires maxval <= 255 ==> PlanesFitInByte(planes)
    ensures DecodePayload(EncodePayload(planes, n, maxval) + rest, n, |planes|, maxval) == Ok(planes)
  {
    var bytes := SampleBytes(maxval);
    var payload := EncodePayload(planes, n, maxval);
    var stream := Interleave(planes, n);
    assert (payload + rest)[..|payload|] == payload;
    if bytes == 1 {
      InterleaveFits(planes, n);
    }
    ToFromSamples(stream, bytes);
    DeinterleaveInterleave(planes, n);
  }

  /** Writing back a payload that was read gives its bytes back. */
  lemma {:induction false} EncodeDecode(data: seq<byte>, n: nat, channels: nat, maxval: int)
    requires |data| == PayloadSize(n, channels, maxval)
    ensures EncodePayload(DecodePayload(data, n, channels, maxval).value, n, maxval) == data
  {
    var bytes := SampleBytes(maxval);
    assert data[..|data|] == data;
    var stream := ToSamples(data, bytes);
    FromToSamples(data, bytes);
    InterleaveDeinterleave(stream, n, channels);
  }
}
