/** The text fields of a header: whitespace skipping, `fscanf`'s `%d` conversion and
    `fprintf`'s `%d` conversion, over bytes. */
module Decimal {
  import opened Samples
  import opened Results

  const Minus: byte := 45  // '-'
  const Plus: byte := 43   // '+'

  /** The first position at or after `p` that does not hold a whitespace byte. */
  function SkipSpace(s: seq<byte>, p: nat): (q: nat)
    requires p <= |s|
    ensures p <= q <= |s|
    ensures forall k :: p <= k < q ==> IsSpace(s[k])
    ensures q == |s| || !IsSpace(s[q])
    decreases |s| - p
  {
    if p < |s| && IsSpace(s[p]) then SkipSpace(s, p + 1) else p
  }

  /** The end of the run of digits that starts at `p`. */
  function DigitEnd(s: seq<byte>, p: nat): (q: nat)
    requires p <= |s|
    ensures p <= q <= |s|
    ensures forall k :: p <= k < q ==> IsDigit(s[k])
    ensures q == |s| || !IsDigit(s[q])
    decreases |s| - p
  {
    if p < |s| && IsDigit(s[p]) then DigitEnd(s, p + 1) else p
  }

  predicate AllDigits(ds: seq<byte>) {
    forall k :: 0 <= k < |ds| ==> IsDigit(ds[k])
  }

  /** The number a run of decimal digits spells, most significant digit first. */
  function DigitsValue(ds: seq<byte>): nat
    requires AllDigits(ds)
  {
    if |ds| == 0 then 0 else 10 * DigitsValue(ds[..|ds| - 1]) + (ds[|ds| - 1] - 48)
  }

  /** `%d` of `fscanf` at position `p`: leading whitespace, an optional sign, then the
      longest run of at least one digit. The value and the position after the digits, or
      `None` when no digit follows. `int` overflow is not modelled. */
  function ScanInt(s: seq<byte>, p: nat): (r: Option<(int, nat)>)
    requires p <= |s|
    ensures r.Some? ==> p < r.value.1 <= |s| && IsDigit(s[r.value.1 - 1])
    ensures r.Some? ==> r.value.1 == |s| || !IsDigit(s[r.value.1])
  {
    var q := SkipSpace(s, p);
    var signed := q < |s| && (s[q] == Minus || s[q] == Plus);
    var d := if signed then q + 1 else q;
    var e := DigitEnd(s, d);
    if e == d then None
    else
      var v: int := DigitsValue(s[d..e]);
      Some((if signed && s[q] == Minus then -v else v, e))
  }

  /** Bytes `p .. d - 1` are whitespace, except that the last of them may be a sign. */
  predicate SpaceOrSignBefore(s: seq<byte>, p: nat, d: nat)
    requires p <= d <= |s|
  {
    forall k :: p <= k < d ==> IsSpace(s[k]) || (k == d - 1 && (s[k] == Minus || s[k] == Plus))
  }

  /** `%d` succeeds exactly when a digit follows the whitespace and the optional sign. */
  lemma ScanIntSucceeds(s: seq<byte>, p: nat)
    requires p <= |s|
    ensures ScanInt(s, p).Some? <==> exists d :: p <= d < |s| && IsDigit(s[d]) && SpaceOrSignBefore(s, p, d)
  {
    var q := SkipSpace(s, p);
    var signed := q < |s| && (s[q] == Minus || s[q] == Plus);
    var d := if signed then q + 1 else q;
    if ScanInt(s, p).Some? {
      assert IsDigit(s[d]) && SpaceOrSignBefore(s, p, d);
    }
  }

  /** Where the digits start after whitespace and an optional sign, `%d` reads exactly that
      run: its value, negated after a minus sign, and the position after it. A plus sign and
      leading zeros change nothing. */
  lemma ScanIntValue(s: seq<byte>, p: nat, d: nat)
    requires p <= d < |s| && IsDigit(s[d]) && SpaceOrSignBefore(s, p, d)
    ensures var e := DigitEnd(s, d); var v: int := DigitsValue(s[d..e]);
      ScanInt(s, p) == Some((if d > p && s[d - 1] == Minus then -v else v, e))
  {
    if d > p && (s[d - 1] == Minus || s[d - 1] == Plus) {
      SkipSpaceOfRun(s, p, d - 1);
    } else {
      SkipSpaceOfRun(s, p, d);
    }
  }

  /** The digits `fprintf` prints for a non-negative number, without leading zeros. */
  function NatDigits(n: nat): (r: seq<byte>)
    ensures |r| >= 1 && AllDigits(r)
    ensures n > 0 ==> r[0] != 48
    decreases n
  {
    if n < 10 then [(48 + n) as byte] else NatDigits(n / 10) + [(48 + n % 10) as byte]
  }

  /** `%d` of `fprintf`: a minus sign for negative numbers, then the digits. */
  function FormatInt(n: int): (r: seq<byte>)
    ensures |r| >= 1 && !IsSpace(r[0])
    ensures n >= 0 ==> AllDigits(r)
  {
    if n < 0 then [Minus] + NatDigits(-n) else NatDigits(n)
  }

  /** The printed digits spell the number back. */
  lemma {:induction false} NatDigitsValue(n: nat)
    ensures DigitsValue(NatDigits(n)) == n
    decreases n
  {
    var ds := NatDigits(n);
    if n >= 10 {
      NatDigitsValue(n / 10);
      assert ds[..|ds| - 1] == NatDigits(n / 10);
    }
  }

  /** A digit run that is followed by a non-digit (or the end) is exactly what `DigitEnd` finds. */
  lemma DigitEndOfRun(s: seq<byte>, p: nat, q: nat)
    requires p <= q <= |s|
    requires forall k :: p <= k < q ==> IsDigit(s[k])
    requires q == |s| || !IsDigit(s[q])
    ensures DigitEnd(s, p) == q
  {
  }

  /** Whitespace followed by a non-space byte is exactly what `SkipSpace` skips. */
  lemma SkipSpaceOfRun(s: seq<byte>, p: nat, q: nat)
    requires p <= q <= |s|
    requires forall k :: p <= k < q ==> IsSpace(s[k])
    requires q == |s| || !IsSpace(s[q])
    ensures SkipSpace(s, p) == q
  {
  }

  /** Where `FormatInt(n)` sits at `q` in `s`, its digits start at `d` (after a minus sign
      for a negative `n`), end at `e`, and spell the magnitude of `n`. */
  lemma {:induction false} DigitsOfFormatted(s: seq<byte>, q: nat, n: int, d: nat, e: nat)
    requires e == q + |FormatInt(n)| <= |s| && s[q..e] == FormatInt(n)
    requires d == if n < 0 then q + 1 else q
    requires e == |s| || !IsDigit(s[e])
    ensures d < e && DigitEnd(s, d) == e
    ensures n < 0 <==> s[q] == Minus
    ensures s[q] != Plus
    ensures DigitsValue(s[d..e]) == if n < 0 then -n else n
  {
    var f := FormatInt(n);
    var digits := NatDigits(if n < 0 then -n else n);
    assert s[q] == f[0];
    assert s[d..e] == digits by {
      if n < 0 {
        assert f == [Minus] + digits;
        assert s[q + 1..e] == s[q..e][1..];
      }
    }
    forall k | d <= k < e
      ensures IsDigit(s[k])
    {
      assert s[k] == digits[k - d];
    }
    DigitEndOfRun(s, d, e);
    NatDigitsValue(if n < 0 then -n else n);
  }

  /** Scanning what `%d` printed, after any whitespace, gives the number back and stops
      right after it, provided no digit follows it. */
  lemma ScanFormatted(s: seq<byte>, p: nat, q: nat, n: int)
    requires p <= q && q + |FormatInt(n)| <= |s|
    requires forall k :: p <= k < q ==> IsSpace(s[k])
    requires s[q..q + |FormatInt(n)|] == FormatInt(n)
    requires q + |FormatInt(n)| == |s| || !IsDigit(s[q + |FormatInt(n)|])
    ensures ScanInt(s, p).Some? && ScanInt(s, p).value.0 == n && ScanInt(s, p).value.1 == q + |FormatInt(n)|
  {
    assert s[q] == FormatInt(n)[0];
    SkipSpaceOfRun(s, p, q);
    DigitsOfFormatted(s, q, n, if n < 0 then q + 1 else q, q + |FormatInt(n)|);
  }
}
