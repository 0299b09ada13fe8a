/** Channel interleaving of the payload: the file stores the channels of each pixel side by
    side, pixel after pixel in row-major order, while the image records keep one plane per
    channel. Sample `c` of pixel `i` sits at position `i * channels + c` of the stream. */
module Layout {
  import opened Samples
  import opened Grid

  /** Every plane holds `n` samples. */
  predicate PlanesOf(planes: seq<seq<u16>>, n: nat) {
    forall c :: 0 <= c < |planes| ==> |planes[c]| == n
  }

  /** The sample stream the writer lays out for `n` pixels of the given planes. */
  function Interleave(planes: seq<seq<u16>>, n: nat): (r: seq<u16>)
    requires PlanesOf(planes, n)
    ensures |r| == n * |planes|
  {
    seq(n * |planes|, s requires 0 <= s < n * |planes| =>
      OffsetOfCoordinates(s, |planes|, n);
      planes[s % |planes|][s / |planes|])
  }

  /** The planes the reader recovers from a stream of `n` pixels of `channels` samples each. */
  function Deinterleave(samples: seq<u16>, n: nat, channels: nat): (r: seq<seq<u16>>)
    requires |samples| == n * channels
    ensures |r| == channels && PlanesOf(r, n)
    ensures forall c, i :: 0 <= c < channels && 0 <= i < n ==>
      (OffsetInRange(c, i, channels, n); r[c][i] == samples[i * channels + c])
  {
    seq(channels, c requires 0 <= c < channels =>
      seq(n, i requires 0 <= i < n =>
        OffsetInRange(c, i, channels, n);
        samples[i * channels + c]))
  }

  /** Sample `c` of pixel `i` is at position `i * channels + c` of the written stream. */
  lemma InterleaveAt(planes: seq<seq<u16>>, n: nat, i: nat, c: nat)
    requires PlanesOf(planes, n)
    requires i < n && c < |planes|
    ensures i * |planes| + c < n * |planes|
    ensures Interleave(planes, n)[i * |planes| + c] == planes[c][i]
  {
    OffsetInRange(c, i, |planes|, n);
    CoordinatesOfOffset(c, i, |planes|);
  }

  /** Reading back what the writer interleaved gives the planes back. */
  lemma {:induction false} DeinterleaveInterleave(planes: seq<seq<u16>>, n: nat)
    requires PlanesOf(planes, n)
    ensures Deinterleave(Interleave(planes, n), n, |planes|) == planes
  {
    var back := Deinterleave(Interleave(planes, n), n, |planes|);
    forall c | 0 <= c < |planes|
      ensures back[c] == planes[c]
    {
      forall i | 0 <= i < n
        ensures back[c][i] == planes[c][i]
      {
        InterleaveAt(planes, n, i, c);
      }
    }
  }

  /** Interleaving the planes the reader recovered reproduces the stream it read. */
  lemma {:induction false} InterleaveDeinterleave(samples: seq<u16>, n: nat, channels: nat)
    requires |samples| == n * channels
    ensures Interleave(Deinterleave(samples, n, channels), n) == samples
  {
    var planes := Deinterleave(samples, n, channels);
    var back := Interleave(planes, n);
    forall s | 0 <= s < |samples|
      ensures back[s] == samples[s]
    {
      OffsetOfCoordinates(s, channels, n);
    }
  }
}
