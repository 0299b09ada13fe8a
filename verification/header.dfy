/** The text header shared by the three-plane ('P6') and the one-plane ('P5') formats:
    a magic token, optional `#` comment lines, then width, height and maxval in decimal. */
module Header {
  import opened Samples
  import opened Results
  import opened Decimal

  /** `SHRT_MAX` of the C library: the largest width or height the reader accepts. */
  const ShortMax := 32767

  const LetterP: byte := 80   // 'P'
  const Hash: byte := 35      // '#'
  const Newline: byte := 10   // '\n'
  const Space: byte := 32     // ' '

  /** `checkDimension`: a width or height is accepted iff it lies in [1, SHRT_MAX]. */
  predicate ValidDimension(d: int) {
    1 <= d <= ShortMax
  }

  datatype Header = Header(width: int, height: int, maxval: int)

  /** The number of pixels of an image with these dimensions. */
  function Pixels(hdr: Header): nat
    requires hdr.width >= 0 && hdr.height >= 0
  {
    hdr.width * hdr.height
  }

  /** `fscanf(fp, "P%c\n", &ch)` followed by the check `ch == magic`: the file must start
      with 'P' and the magic character; the directive `\n` then skips all whitespace.
      The result is the position of the first byte after that whitespace. */
  function ReadMagic(s: seq<byte>, magic: byte): (r: Result<nat>)
    ensures r.Ok? <==> |s| >= 2 && s[0] == LetterP && s[1] == magic
    ensures r.Err? ==> r.error == NotRawFormat
    ensures r.Ok? ==> 2 <= r.value <= |s| && (r.value == |s| || !IsSpace(s[r.value]))
    ensures r.Ok? ==> forall k :: 2 <= k < r.value ==> IsSpace(s[k])
  {
    if |s| >= 2 && s[0] == LetterP && s[1] == magic then Ok(SkipSpace(s, 2)) else Err(NotRawFormat)
  }

  /** The first newline at or after position `p`. */
  function FindNewline(s: seq<byte>, p: nat): (r: Option<nat>)
    requires p <= |s|
    ensures r.Some? ==> p <= r.value < |s| && s[r.value] == Newline
    ensures r.Some? ==> forall k :: p <= k < r.value ==> s[k] != Newline
    ensures r.None? ==> forall k :: p <= k < |s| ==> s[k] != Newline
    decreases |s| - p
  {
    if p == |s| then None
    else if s[p] == Newline then Some(p)
    else FindNewline(s, p + 1)
  }

  /** Position `k` starts a line of the text that begins at `p`: it is `p` itself or it
      follows a newline. */
  predicate LineStart(s: seq<byte>, p: nat, k: nat) {
    k == p || (p < k <= |s| && s[k - 1] == Newline)
  }

  /** No newline follows position `k`: the line starting at `k` runs to the end of the file. */
  predicate LastLine(s: seq<byte>, k: nat) {
    forall j :: k < j < |s| ==> s[j] != Newline
  }

  /** Every line that starts in `[p, e)` starts with '#'. */
  predicate HashLines(s: seq<byte>, p: nat, e: nat) {
    e <= |s| && forall j {:trigger LineStart(s, p, j)} :: p <= j < e && LineStart(s, p, j) ==> s[j] == Hash
  }

  /** The comment loop, run from `p`, reaches the '#' line at `k` and finds no newline after
      it: every line before `k` is a comment line and the line at `k` is the last. */
  predicate UnterminatedAt(s: seq<byte>, p: nat, k: nat) {
    p <= k < |s| && LineStart(s, p, k) && s[k] == Hash && LastLine(s, k) && HashLines(s, p, k)
  }

  /** The comment loop of the header reader: while the current byte is '#', consume bytes
      through the next newline, then look at the byte after it. No whitespace is skipped
      between a comment's newline and what follows. A comment without a newline before the
      end of the file makes the C loop spin forever; here it is an error. */
  function SkipComments(s: seq<byte>, p: nat): (r: Result<nat>)
    requires p <= |s|
    ensures r.Ok? ==> p <= r.value <= |s| && (r.value == |s| || s[r.value] != Hash)
    ensures r.Ok? && r.value > p ==> s[p] == Hash && s[r.value - 1] == Newline
    ensures (p == |s| || s[p] != Hash) ==> r == Ok(p)
    ensures r.Err? ==> r.error == UnterminatedComment
    ensures r.Ok? ==> HashLines(s, p, r.value)
    ensures r.Err? ==> exists k :: UnterminatedAt(s, p, k)
    decreases |s| - p
  {
    if p < |s| && s[p] == Hash then
      match FindNewline(s, p + 1)
      case None =>
        assert UnterminatedAt(s, p, p);
        Err(UnterminatedComment)
      case Some(k) =>
        var r := SkipComments(s, k + 1);
        if r.Ok? then CommentLines(s, p, k, r.value); r
        else UnterminatedLater(s, p, k, k + 1); r
    else
      Ok(p)
  }

  /** The line starts of a comment line followed by more comment lines are all '#': the
      first is `p`, none lies inside the first line, and the rest are line starts of what
      follows it. */
  lemma CommentLines(s: seq<byte>, p: nat, k: nat, e: nat)
    requires p < k < |s| && s[p] == Hash && s[k] == Newline
    requires forall j :: p + 1 <= j < k ==> s[j] != Newline
    requires k + 1 <= e <= |s|
    requires HashLines(s, k + 1, e)
    ensures HashLines(s, p, e)
  {
    forall j | p <= j < e && LineStart(s, p, j)
      ensures s[j] == Hash
    {
      if j > k {
        assert LineStart(s, k + 1, j);
      }
    }
  }

  /** An unterminated comment reached from the line after the first comment line is reached
      from the first line too. */
  lemma UnterminatedLater(s: seq<byte>, p: nat, k: nat, q: nat)
    requires p < k < |s| && s[p] == Hash && s[k] == Newline && q == k + 1
    requires forall j :: p + 1 <= j < k ==> s[j] != Newline
    requires exists k2 :: UnterminatedAt(s, q, k2)
    ensures exists k2 :: UnterminatedAt(s, p, k2)
  {
    var k2 :| UnterminatedAt(s, q, k2);
    CommentLines(s, p, k, k2);
    assert UnterminatedAt(s, p, k2);
  }

  /** `fscanf(fp, "%d%d%d", &width, &height, &maxval)` from position `q`: the three fields
      and the position right after maxval, or `None` when a field is missing. The C code
      does not check the count `fscanf` returns and carries on with whatever the variables
      held; here a missing field is a failure. */
  function ScanFields(s: seq<byte>, q: nat): (r: Option<(Header, nat)>)
    requires q <= |s|
    ensures r.Some? ==> q < r.value.1 <= |s|
    ensures r.Some? ==> IsDigit(s[r.value.1 - 1]) && (r.value.1 == |s| || !IsDigit(s[r.value.1]))
    ensures ScanInt(s, q).None? ==> r.None?
    ensures var a := ScanInt(s, q);
      r.Some? <==> a.Some? && var b := ScanInt(s, a.value.1); b.Some? && ScanInt(s, b.value.1).Some?
  {
    match ScanInt(s, q)
    case None => None
    case Some((width, e1)) =>
      match ScanInt(s, e1)
      case None => None
      case Some((height, e2)) =>
        match ScanInt(s, e2)
        case None => None
        case Some((maxval, e3)) => Some((Header(width, height, maxval), e3))
  }

  /** The header up to the last digit of maxval: magic, comments, a required leading digit,
      the three fields and the two dimension checks. The position returned is the one right
      after maxval. */
  function ReadFields(s: seq<byte>, magic: byte): (r: Result<(Header, nat)>)
    ensures ReadMagic(s, magic).Err? ==> r == Err(NotRawFormat)
    ensures r.Ok? ==> ValidDimension(r.value.0.width) && ValidDimension(r.value.0.height)
    ensures r.Ok? ==> 3 <= r.value.1 <= |s|
    ensures r.Ok? ==> ReadMagic(s, magic).Ok? && SkipComments(s, ReadMagic(s, magic).value).Ok?
    ensures r.Ok? ==> var q := SkipComments(s, ReadMagic(s, magic).value).value; q < |s| && IsDigit(s[q])
  {
    var p :- ReadMagic(s, magic);
    var q :- SkipComments(s, p);
    if q == |s| || !IsDigit(s[q]) then
      Err(BadHeader)
    else
      match ScanFields(s, q)
      case None => Err(BadHeader)
      case Some((hdr, e)) =>
        if !ValidDimension(hdr.width) || !ValidDimension(hdr.height) then Err(BadDimension)
        else Ok((hdr, e))
  }

  /** Once the fields are scanned, `checkDimension` on width and then height decides the
      outcome: the fields are returned when both lie in [1, SHRT_MAX], otherwise the
      reader fails with the bad-dimension error, whatever maxval is. */
  lemma DimensionCheck(s: seq<byte>, magic: byte, q: nat, hdr: Header, e: nat)
    requires ReadMagic(s, magic).Ok? && SkipComments(s, ReadMagic(s, magic).value) == Ok(q)
    requires q < |s| && IsDigit(s[q]) && ScanFields(s, q) == Some((hdr, e))
    ensures ValidDimension(hdr.width) && ValidDimension(hdr.height) ==> ReadFields(s, magic) == Ok((hdr, e))
    ensures !ValidDimension(hdr.width) || !ValidDimension(hdr.height) ==> ReadFields(s, magic) == Err(BadDimension)
  {
  }

  /** `readPPMHeader` / `readPGMHeader` as written: the trailing `\n` of the format
      `"%d%d%d\n"` skips every whitespace byte after maxval, including any that belong to
      the payload. The position returned is where the payload read starts. */
  function ReadHeader(s: seq<byte>, magic: byte): (r: Result<(Header, nat)>)
    ensures r.Ok? <==> ReadFields(s, magic).Ok?
    ensures r.Err? ==> r.error == ReadFields(s, magic).error
    ensures r.Ok? ==> ValidDimension(r.value.0.width) && ValidDimension(r.value.0.height)
    ensures r.Ok? ==> r.value.1 <= |s|
    ensures r.Ok? ==> r.value.0 == ReadFields(s, magic).value.0
    ensures r.Ok? ==> ReadFields(s, magic).value.1 <= r.value.1
    ensures r.Ok? ==> r.value.1 == |s| || !IsSpace(s[r.value.1])
    ensures r.Ok? ==> r.value.1 == SkipSpace(s, ReadFields(s, magic).value.1)
  {
    var (hdr, e) :- ReadFields(s, magic);
    Ok((hdr, SkipSpace(s, e)))
  }

  /** The header reader the format calls for: exactly one whitespace byte ends the header. */
  function ReadHeaderStrict(s: seq<byte>, magic: byte): (r: Result<(Header, nat)>)
    ensures ReadFields(s, magic).Err? ==> r == Err(ReadFields(s, magic).error)
    ensures r.Ok? ==> ValidDimension(r.value.0.width) && ValidDimension(r.value.0.height)
    ensures r.Ok? ==> r.value.1 <= |s|
    ensures r.Ok? ==> ReadFields(s, magic).Ok? && r.value.0 == ReadFields(s, magic).value.0
    ensures r.Ok? ==> var e := ReadFields(s, magic).value.1; r.value.1 == e + 1 && e < |s| && IsSpace(s[e])
  {
    var (hdr, e) :- ReadFields(s, magic);
    if e < |s| && IsSpace(s[e]) then Ok((hdr, e + 1)) else Err(BadHeader)
  }

  /** `fprintf(fp, "P6\n%d %d\n%d\n", ...)` (or "P5..."): the header the writers emit. */
  function FormatHeader(magic: byte, width: int, height: int, maxval: int): (r: seq<byte>)
    ensures |r| == 6 + |FormatInt(width)| + |FormatInt(height)| + |FormatInt(maxval)|
  {
    [LetterP, magic, Newline] + FormatInt(width) + [Space] + FormatInt(height) + [Newline]
      + FormatInt(maxval) + [Newline]
  }

  /** Where the pieces of a written header sit in `s`: the magic line, then width, a space,
      height, a newline, maxval and a final newline, each number as `FormatInt` prints it. */
  ghost predicate LaidOut(s: seq<byte>, magic: byte, width: int, height: int, maxval: int)
  {
    var fw, fh, fm := FormatInt(width), FormatInt(height), FormatInt(maxval);
    var b := 3 + |fw|;
    var d := b + 1 + |fh|;
    var f := d + 1 + |fm|;
    f < |s| && s[0] == LetterP && s[1] == magic && s[2] == Newline
    && s[3..b] == fw && s[b] == Space && s[b + 1..d] == fh && s[d] == Newline
    && s[d + 1..f] == fm && s[f] == Newline
  }

  lemma FormattedIsLaidOut(magic: byte, width: int, height: int, maxval: int, rest: seq<byte>)
    ensures LaidOut(FormatHeader(magic, width, height, maxval) + rest, magic, width, height, maxval)
  {
    var fw, fh, fm := FormatInt(width), FormatInt(height), FormatInt(maxval);
    var s := FormatHeader(magic, width, height, maxval) + rest;
    var b := 3 + |fw|;
    var d := b + 1 + |fh|;
    var f := d + 1 + |fm|;
    assert s == [LetterP, magic, Newline] + fw + [Space] + fh + [Newline] + fm + [Newline] + rest;
    assert s[3..b] == fw;
    assert s[b + 1..d] == fh;
    assert s[d + 1..f] == fm;
  }

  /** Number `n` printed at `q` in `s`, after whitespace from `p` on and before a non-digit. */
  ghost predicate PrintedAt(s: seq<byte>, p: nat, q: nat, n: int)
  {
    p <= q && q + |FormatInt(n)| < |s|
    && (forall k :: p <= k < q ==> IsSpace(s[k]))
    && s[q..q + |FormatInt(n)|] == FormatInt(n) && !IsDigit(s[q + |FormatInt(n)|])
  }

  lemma ScanPrinted(s: seq<byte>, p: nat, q: nat, n: int)
    requires PrintedAt(s, p, q, n)
    ensures ScanInt(s, p).Some? && ScanInt(s, p).value.0 == n && ScanInt(s, p).value.1 == q + |FormatInt(n)|
  {
    ScanFormatted(s, p, q, n);
  }

  lemma LaidOutPrinted(s: seq<byte>, magic: byte, width: int, height: int, maxval: int)
    requires LaidOut(s, magic, width, height, maxval)
    ensures var b := 3 + |FormatInt(width)|;
      var d := b + 1 + |FormatInt(height)|;
      PrintedAt(s, 3, 3, width) && PrintedAt(s, b, b + 1, height) && PrintedAt(s, d, d + 1, maxval)
  {
  }

  /** Three successful scans make a successful `ScanFields`. */
  lemma ScanFieldsOf(s: seq<byte>, q: nat, width: int, height: int, maxval: int, e1: nat, e2: nat, e3: nat)
    requires q <= |s|
    requires ScanInt(s, q).Some? && ScanInt(s, q).value.0 == width && ScanInt(s, q).value.1 == e1
    requires ScanInt(s, e1).Some? && ScanInt(s, e1).value.0 == height && ScanInt(s, e1).value.1 == e2
    requires ScanInt(s, e2).Some? && ScanInt(s, e2).value.0 == maxval && ScanInt(s, e2).value.1 == e3
    ensures var r := ScanFields(s, q); r.Some? && r.value.0 == Header(width, height, maxval) && r.value.1 == e3
  {
  }

  /** The three fields of a laid-out header scan back to the numbers written. */
  lemma ScanLaidOut(s: seq<byte>, width: int, height: int, maxval: int, b: nat, d: nat)
    requires PrintedAt(s, 3, 3, width) && PrintedAt(s, b, b + 1, height) && PrintedAt(s, d, d + 1, maxval)
    requires b == 3 + |FormatInt(width)| && d == b + 1 + |FormatInt(height)|
    ensures ScanInt(s, 3).Some? && ScanInt(s, 3).value.0 == width && ScanInt(s, 3).value.1 == b
    ensures ScanInt(s, b).Some? && ScanInt(s, b).value.0 == height && ScanInt(s, b).value.1 == d
    ensures ScanInt(s, d).Some? && ScanInt(s, d).value.0 == maxval
    ensures ScanInt(s, d).value.1 == d + 1 + |FormatInt(maxval)|
  {
    ScanPrinted(s, 3, 3, width);
    ScanPrinted(s, b, b + 1, height);
    ScanPrinted(s, d, d + 1, maxval);
  }

  /** Reading a laid-out header with valid dimensions stops right after the last digit of
      maxval, which is followed by a newline. */
  lemma FieldsOfLaidOut(s: seq<byte>, magic: byte, width: int, height: int, maxval: int)
    requires LaidOut(s, magic, width, height, maxval)
    requires ValidDimension(width) && ValidDimension(height)
    ensures var f := 3 + |FormatInt(width)| + 1 + |FormatInt(height)| + 1 + |FormatInt(maxval)|;
      var r := ReadFields(s, magic);
      r.Ok? && r.value.0 == Header(width, height, maxval) && r.value.1 == f && f < |s| && s[f] == Newline
  {
    var b := 3 + |FormatInt(width)|;
    var d := b + 1 + |FormatInt(height)|;
    assert s[3] == FormatInt(width)[0];
    SkipSpaceOfRun(s, 2, 3);
    assert ReadMagic(s, magic) == Ok(3);
    assert SkipComments(s, 3) == Ok(3);
    LaidOutPrinted(s, magic, width, height, maxval);
    ScanLaidOut(s, width, height, maxval, b, d);
    ScanFieldsOf(s, 3, width, height, maxval, b, d, d + 1 + |FormatInt(maxval)|);
  }

  /** Reading a written header, whatever follows it, yields the written fields and stops
      right after the last digit of maxval. */
  lemma FieldsOfFormatted(magic: byte, width: int, height: int, maxval: int, rest: seq<byte>)
    requires ValidDimension(width) && ValidDimension(height)
    ensures var h := FormatHeader(magic, width, height, maxval);
      var r := ReadFields(h + rest, magic);
      r.Ok? && r.value.0 == Header(width, height, maxval) && r.value.1 == |h| - 1
      && (h + rest)[|h| - 1] == Newline
  {
    var s := FormatHeader(magic, width, height, maxval) + rest;
    FormattedIsLaidOut(magic, width, height, maxval, rest);
    FieldsOfLaidOut(s, magic, width, height, maxval);
  }

  /** `ReadHeaderStrict` consumes exactly the one whitespace byte after the fields. */
  lemma AfterFieldsStrict(s: seq<byte>, magic: byte, hdr: Header, e: nat)
    requires ReadFields(s, magic).Ok? && ReadFields(s, magic).value.0 == hdr && ReadFields(s, magic).value.1 == e
    requires e < |s| && IsSpace(s[e])
    ensures ReadHeaderStrict(s, magic).Ok? && ReadHeaderStrict(s, magic).value.0 == hdr
    ensures ReadHeaderStrict(s, magic).value.1 == e + 1
  {
  }

  /** `ReadHeader` consumes the whole run of whitespace after the fields; when that run is a
      single byte, it lands where `ReadHeaderStrict` does. */
  lemma AfterFields(s: seq<byte>, magic: byte, e: nat)
    requires ReadFields(s, magic).Ok? && ReadFields(s, magic).value.1 == e
    requires e < |s| && IsSpace(s[e]) && (e + 1 == |s| || !IsSpace(s[e + 1]))
    ensures ReadHeader(s, magic).Ok? && ReadHeader(s, magic).value.1 == e + 1
  {
    HeaderEnd(s, magic, e);
    SkipOneSpace(s, e);
  }

  /** `ReadHeader` succeeds with the fields and stops at the end of the whitespace run after
      them. */
  lemma HeaderEnd(s: seq<byte>, magic: byte, e: nat)
    requires ReadFields(s, magic).Ok? && ReadFields(s, magic).value.1 == e
    ensures e <= |s|
    ensures ReadHeader(s, magic).Ok? && ReadHeader(s, magic).value.1 == SkipSpace(s, e)
  {
  }

  /** A single whitespace byte followed by a non-space byte or the end is skipped alone. */
  lemma SkipOneSpace(s: seq<byte>, e: nat)
    requires e < |s| && IsSpace(s[e]) && (e + 1 == |s| || !IsSpace(s[e + 1]))
    ensures SkipSpace(s, e) == e + 1
  {
    SkipSpaceOfRun(s, e, e + 1);
  }

  /** When two whitespace bytes follow the fields, `ReadHeader` consumes both and more. */
  lemma AfterFieldsSwallows(s: seq<byte>, magic: byte, e: nat)
    requires ReadFields(s, magic).Ok? && ReadFields(s, magic).value.1 == e
    requires e + 1 < |s| && IsSpace(s[e]) && IsSpace(s[e + 1])
    ensures ReadHeader(s, magic).Ok? && ReadHeader(s, magic).value.1 >= e + 2
  {
    var r := ReadHeader(s, magic);
    assert r.Ok? && r.value.1 == SkipSpace(s, e);
  }

  /** The byte right after a written header is the first byte of what follows it. */
  lemma AfterFormatted(magic: byte, width: int, height: int, maxval: int, rest: seq<byte>)
    ensures var h := FormatHeader(magic, width, height, maxval);
      |rest| > 0 ==> (h + rest)[|h|] == rest[0]
  {
  }

  /** Round trip of the header as written: provided the payload does not start with a
      whitespace byte, the reader returns the written fields and starts the payload read
      right after the header. */
  lemma ReadFormattedHeader(magic: byte, width: int, height: int, maxval: int, payload: seq<byte>)
    requires ValidDimension(width) && ValidDimension(height)
    requires |payload| == 0 || !IsSpace(payload[0])
    ensures var h := FormatHeader(magic, width, height, maxval);
      var r := ReadHeader(h + payload, magic);
      r.Ok? && r.value.0 == Header(width, height, maxval) && r.value.1 == |h|
  {
    var h := FormatHeader(magic, width, height, maxval);
    var s := h + payload;
    FieldsOfFormatted(magic, width, height, maxval, payload);
    AfterFormatted(magic, width, height, maxval, payload);
    AfterFields(s, magic, |h| - 1);
  }

  /** Round trip of the header under the one-whitespace rule: the reader returns the written
      fields and starts the payload read right after the header, whatever the payload. */
  lemma ReadFormattedHeaderStrict(magic: byte, width: int, height: int, maxval: int, payload: seq<byte>)
    requires ValidDimension(width) && ValidDimension(height)
    ensures var h := FormatHeader(magic, width, height, maxval);
      var r := ReadHeaderStrict(h + payload, magic);
      r.Ok? && r.value.0 == Header(width, height, maxval) && r.value.1 == |h|
  {
    var h := FormatHeader(magic, width, height, maxval);
    var s := h + payload;
    FieldsOfFormatted(magic, width, height, maxval, payload);
    AfterFieldsStrict(s, magic, Header(width, height, maxval), |h| - 1);
  }
}
