/** Bytes, 16-bit samples and the conversion between a payload and its sample stream. */
module Samples {

  /** One byte of a file. */
  type byte = b: int | 0 <= b < 0x100

  /** A C `u_short`: the in-memory type of every sample of both image records. */
  type u16 = v: int | 0 <= v < 0x1_0000

  /** `isspace` in the C locale: space, tab, newline, vertical tab, form feed, carriage return. */
  predicate IsSpace(b: byte) {
    b == 32 || 9 <= b <= 13
  }

  /** `isdigit`: the ASCII codes of '0' to '9'. */
  predicate IsDigit(b: byte) {
    48 <= b <= 57
  }

  /** The conversion `(u_short) v` of C: reduction modulo 2^16 (also for negative `v`). */
  function ToU16(v: int): (r: u16)
    ensures 0 <= v < 0x1_0000 ==> r == v
    ensures (r - v) % 0x1_0000 == 0
  {
    v % 0x1_0000
  }

  /** The word a little-endian host loads from the two bytes `lo`, `hi` at increasing addresses. */
  function HostWord(lo: byte, hi: byte): (w: u16)
    ensures w % 256 == lo && w / 256 == hi
  {
    lo + 256 * hi
  }

  /** The two bytes a little-endian host stores for the word `w`, lowest address first. */
  function HostBytes(w: u16): (r: seq<byte>)
    ensures |r| == 2 && HostWord(r[0], r[1]) == w
  {
    [w % 256, w / 256]
  }

  /** `((v & 0x00ff) << 8) | ((v & 0xff00) >> 8)`: the two masked halves occupy disjoint
      bit ranges, so the `|` is an addition; the low and the high byte change places. */
  function Swap16(v: u16): (r: u16)
    ensures r / 256 == v % 256 && r % 256 == v / 256
  {
    (v % 256) * 256 + v / 256
  }

  /** Swapping twice gives the word back. */
  lemma Swap16Involution(v: u16)
    ensures Swap16(Swap16(v)) == v
  {
  }

  /** Loading two disk bytes as a host word and swapping it reads them as a big-endian
      number: the first byte on disk is the high byte of the sample. */
  lemma LoadSwapIsBigEndian(b0: byte, b1: byte)
    ensures Swap16(HostWord(b0, b1)) == 256 * (b0 as int) + b1
  {
  }

  /** Every sample fits in one byte, which is what the 8-bit writer keeps of it. */
  predicate FitsInByte(samples: seq<u16>) {
    forall k :: 0 <= k < |samples| ==> samples[k] < 0x100
  }

  /** One-byte samples as the reader takes them: each byte is a sample. */
  function NarrowSamples(data: seq<byte>): (r: seq<u16>)
    ensures |r| == |data|
    ensures forall k :: 0 <= k < |r| ==> r[k] == data[k]
  {
    seq(|data|, k requires 0 <= k < |data| => data[k] as u16)
  }

  /** Two-byte samples as the reader takes them: each pair of bytes is loaded as a host word
      and byte-swapped, which reads the pair as a big-endian number. */
  function WideSamples(data: seq<byte>): (r: seq<u16>)
    requires |data| % 2 == 0
    ensures 2 * |r| == |data|
    ensures forall k :: 0 <= k < |r| ==> r[k] == 256 * (data[2 * k] as int) + data[2 * k + 1]
  {
    seq(|data| / 2, k requires 0 <= k < |data| / 2 => Swap16(HostWord(data[2 * k], data[2 * k + 1])))
  }

  /** One-byte samples as the writer emits them: `(u_char) v` keeps the low byte. */
  function NarrowBytes(samples: seq<u16>): (r: seq<byte>)
    ensures |r| == |samples|
    ensures forall k :: 0 <= k < |r| ==> r[k] == samples[k] % 0x100
  {
    seq(|samples|, k requires 0 <= k < |samples| => samples[k] % 0x100)
  }

  /** Two-byte samples as the writer emits them: the byte-swapped word stored in host order,
      so the high byte of each sample comes first. */
  function WideBytes(samples: seq<u16>): (r: seq<byte>)
    ensures |r| == 2 * |samples|
    ensures forall j :: 0 <= j < |r| ==>
      r[j] == if j % 2 == 0 then samples[j / 2] / 0x100 else samples[j / 2] % 0x100
  {
    var r := seq(2 * |samples|, j requires 0 <= j < 2 * |samples| => HostBytes(Swap16(samples[j / 2]))[j % 2]);
    assert forall j :: 0 <= j < |r| ==>
      r[j] == if j % 2 == 0 then samples[j / 2] / 0x100 else samples[j / 2] % 0x100
    by {
      forall j | 0 <= j < |r|
        ensures r[j] == if j % 2 == 0 then samples[j / 2] / 0x100 else samples[j / 2] % 0x100
      {
        StoreSwapped(samples[j / 2]);
      }
    }
    r
  }

  /** Storing the swapped word puts the high byte of the sample at the lower address. */
  lemma StoreSwapped(v: u16)
    ensures HostBytes(Swap16(v)) == [v / 0x100, v % 0x100]
  {
  }

  /** The samples of a payload whose samples are `width` bytes wide. */
  function ToSamples(data: seq<byte>, width: nat): seq<u16>
    requires width == 1 || width == 2
    requires |data| % width == 0
  {
    if width == 1 then NarrowSamples(data) else WideSamples(data)
  }

  /** The payload of a sample stream whose samples are `width` bytes wide. */
  function FromSamples(samples: seq<u16>, width: nat): (r: seq<byte>)
    requires width == 1 || width == 2
    ensures |r| == |samples| * width
  {
    if width == 1 then NarrowBytes(samples) else WideBytes(samples)
  }

  /** Writing samples and reading them back is the identity, as long as one-byte samples
      fit in a byte. */
  lemma ToFromSamples(samples: seq<u16>, width: nat)
    requires width == 1 || width == 2
    requires width == 1 ==> FitsInByte(samples)
    ensures ToSamples(FromSamples(samples, width), width) == samples
  {
    if width == 1 {
      NarrowRoundTrip(samples);
    } else {
      WideRoundTrip(samples);
    }
  }

  lemma {:induction false} NarrowRoundTrip(samples: seq<u16>)
    requires FitsInByte(samples)
    ensures NarrowSamples(NarrowBytes(samples)) == samples
  {
    var back := NarrowSamples(NarrowBytes(samples));
    assert forall k :: 0 <= k < |samples| ==> back[k] == samples[k];
  }

  lemma {:induction false} WideRoundTrip(samples: seq<u16>)
    ensures WideSamples(WideBytes(samples)) == samples
  {
    var data := WideBytes(samples);
    var back := WideSamples(data);
    forall k | 0 <= k < |samples|
      ensures back[k] == samples[k]
    {
      assert (2 * k) / 2 == k && (2 * k + 1) / 2 == k;
      assert data[2 * k] == samples[k] / 0x100 && data[2 * k + 1] == samples[k] % 0x100;
    }
  }

  /** Reading a payload and writing its samples back reproduces the payload byte for byte. */
  lemma FromToSamples(data: seq<byte>, width: nat)
    requires width == 1 || width == 2
    requires |data| % width == 0
    ensures FromSamples(ToSamples(data, width), width) == data
  {
    if width == 2 {
      WideBytesRoundTrip(data);
    } else {
      var back := NarrowBytes(NarrowSamples(data));
      assert forall j :: 0 <= j < |data| ==> back[j] == data[j];
    }
  }

  lemma {:induction false} WideBytesRoundTrip(data: seq<byte>)
    requires |data| % 2 == 0
    ensures WideBytes(WideSamples(data)) == data
  {
    var samples := WideSamples(data);
    var back := WideBytes(samples);
    forall j | 0 <= j < |data|
      ensures back[j] == data[j]
    {
      var k := j / 2;
      HalfIndex(j);
      var hi, lo := data[2 * k], data[2 * k + 1];
      assert samples[k] == 256 * (hi as int) + lo;
      BytesOfWord(hi, lo);
    }
  }

  lemma BytesOfWord(a: byte, b: byte)
    ensures (256 * (a as int) + b) / 0x100 == a && (256 * (a as int) + b) % 0x100 == b
  {
  }

  lemma HalfIndex(j: nat)
    ensures j % 2 == 0 ==> 2 * (j / 2) == j
    ensures j % 2 != 0 ==> 2 * (j / 2) + 1 == j
  {
  }
}
