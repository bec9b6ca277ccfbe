/** With which error each stage of the form parser stops, in terms of the text it stops at. */
module FormErrors {
  import opened Text
  import opened FormParams
  import opened FormHeaders
  import opened FormDisposition
  import opened FormHeaderGrammar
  import opened FormMultipart
  import opened FormGrammar
  import opened FormParser

  // Parameters

  /** `v[p..a]` is blank and something else, or nothing, follows. */
  predicate BlankTo(v: string, p: nat, a: nat) {
    p <= a <= |v| && IsBlank(v[p..a]) && (a < |v| ==> v[a] != ' ' && v[a] != '\t')
  }

  /** Behind the blanks comes no key. */
  lemma {:induction false} NoKey(v: string, p: nat, a: nat)
    requires BlankTo(v, p, a) && (a < |v| ==> v[a] == '=' || v[a] == ';')
    ensures ParamAt(v, p) == Err(MalformedParameter)
  {
    hide Scan, ValueAt;
    SkipIs(v, p, a);
    ScanIs(v, a, EndsKey, a);
  }

  /** A key, up to the first byte that cannot be part of it. */
  predicate KeyTo(v: string, a: nat, b: nat) {
    && a < b <= |v| && IsKey(v[a..b])
    && (b < |v| ==> v[b] == '=' || v[b] == ';' || v[b] == ' ' || v[b] == '\t')
  }

  lemma {:induction false} KeyScan(v: string, a: nat, b: nat)
    requires KeyTo(v, a, b)
    ensures Scan(v, a, EndsKey) == b
  {
    ScanOver(v, a, b, EndsKey);
  }

  /** Behind the key comes no equals sign. */
  lemma {:induction false} NoEquals(v: string, p: nat, a: nat, b: nat, c: nat)
    requires BlankTo(v, p, a) && KeyTo(v, a, b) && BlankTo(v, b, c) && (c < |v| ==> v[c] != '=')
    ensures ParamAt(v, p) == Err(MalformedParameter)
  {
    hide Scan, ValueAt;
    SkipIs(v, p, a);
    KeyScan(v, a, b);
    SkipIs(v, b, c);
  }

  /** Behind the equals sign comes no value, or a quoted one that is never closed. */
  lemma {:induction false} NoValue(v: string, p: nat, a: nat, b: nat, c: nat, e: nat)
    requires BlankTo(v, p, a) && KeyTo(v, a, b) && BlankTo(v, b, c) && c < |v| && v[c] == '=' && BlankTo(v, c + 1, e)
    ensures e == |v| || v[e] == ';' ==> ParamAt(v, p) == Err(EmptyParameterValue)
    ensures e < |v| && v[e] == '"' && (forall f :: e < f < |v| && v[f] == '"' ==> !IsQuotedBody(v[e + 1..f]))
            ==> ParamAt(v, p) == Err(UnterminatedQuotedParameter)
  {
    hide Scan, ClosingQuote, IsQuotedBody;
    SkipIs(v, p, a);
    KeyScan(v, a, b);
    SkipIs(v, b, c);
    SkipIs(v, c + 1, e);
    if e == |v| || v[e] == ';' {
      ScanIs(v, e, EndsValue, e);
    } else if v[e] == '"' && ClosingQuote(v, e + 1) < |v| {
      ClosingQuoteIs(v, e + 1, ClosingQuote(v, e + 1));
    }
  }

  // Dispositions

  lemma {:induction false} WrongType(v: string, p: nat)
    requires p <= |v| && ';' !in v[..p] && (p < |v| ==> v[p] == ';') && !SameNoCase(v[..p], "form-data")
    ensures DispositionOf(v) == Err(UnsupportedDisposition)
  {
    hide SameNoCase, ParamsFrom;
    forall i | 0 <= i < p ensures v[i] != ';' {
      assert v[i] == v[..p][i];
    }
    ScanIs(v, 0, IsSemicolon, p);
  }

  /** At the end of the parameters, at a byte that is no semicolon, at a malformed parameter, and
      at a second name or file name. */
  lemma {:induction false} DispositionStops(v: string, p: nat, name: Option<string>, file: Option<string>)
    requires p <= |v|
    ensures p == |v| && name.None? ==> ParamsFrom(v, p, name, file) == Err(NameRequired)
    ensures p < |v| && v[p] != ';' ==> ParamsFrom(v, p, name, file) == Err(MalformedDisposition)
    ensures p < |v| && v[p] == ';' && ParamAt(v, p + 1).Err? ==>
            ParamsFrom(v, p, name, file) == Err(ParamAt(v, p + 1).error)
    ensures p < |v| && v[p] == ';' && ParamAt(v, p + 1).Ok? && SameNoCase(ParamAt(v, p + 1).value.key, "name") && name.Some?
            ==> ParamsFrom(v, p, name, file) == Err(DuplicateName)
    ensures p < |v| && v[p] == ';' && ParamAt(v, p + 1).Ok? && SameNoCase(ParamAt(v, p + 1).value.key, "filename") && file.Some?
            ==> ParamsFrom(v, p, name, file) == Err(DuplicateFilename)
  {
    hide ParamAt, SkipOws, SameNoCase;
    if p < |v| {
      SkipTwice(v, p + 1);
      if ParamAt(v, p + 1).Ok? {
        NameIsNotFilename(ParamAt(v, p + 1).value.key);
      }
    }
  }

  // Header blocks

  /** A block is read line by line, after `count` lines and with the disposition `seen`; the
      limits are 4096 bytes for a line and 32 lines. */
  lemma {:induction false} HeadersStop(h: string, count: nat, seen: Option<Disposition>)
    ensures h == "" && seen.None? ==> HeaderLines(h, count, seen) == Err(MissingDisposition)
    ensures h != "" ==>
            var line := Lines(h)[0];
            && (|line| > 4096 ==> HeaderLines(h, count, seen) == Err(HeaderLineTooLong))
            && (|line| <= 4096 && count >= 32 ==> HeaderLines(h, count, seen) == Err(TooManyHeaders))
            && (|line| <= 4096 && count < 32 && ':' !in line ==> HeaderLines(h, count, seen) == Err(MalformedHeader))
            && (|line| <= 4096 && count < 32 && IsDispositionLine(line) && seen.Some?
                ==> HeaderLines(h, count, seen) == Err(DuplicateDisposition))
  {
    hide HeaderField, LineEnd, IsDispositionLine;
    if h != "" {
      HeaderFieldIs(Lines(h)[0], seen);
      ColonOfDisposition(Lines(h)[0]);
    }
  }

  lemma ColonOfDisposition(line: string)
    ensures IsDispositionLine(line) ==> ':' in line
  {
    ScanIsFirst(line, 0, IsColon);
  }

  // Parts and bodies

  lemma {:induction false} NoBlankLine(rest: string, boundary: string)
    requires NoneIn(rest, BLANK, 0, |rest| + 1)
    ensures PartAt(rest, boundary) == Err(MissingHeaderSeparator)
  {
    hide Find;
    FindIsFirst(rest, BLANK, 0);
  }

  /** Headers of more than 16384 bytes, headers that are refused, and a value without an end. */
  lemma {:induction false} PartStops(rest: string, boundary: string, h: nat)
    requires h <= |rest| && OccursAt(rest, BLANK, h) && NoneIn(rest, BLANK, 0, h)
    ensures var headers := HeaderLines(rest[..h], 0, None);
            && (h > 16384 ==> PartAt(rest, boundary) == Err(HeadersTooLarge))
            && (h <= 16384 && headers.Err? ==> PartAt(rest, boundary) == Err(headers.error))
            && (h <= 16384 && headers.Ok? && NoneIn(rest, "\r\n--" + boundary, h + 4, |rest| + 1) ==>
                  PartAt(rest, boundary) == Err(TruncatedBody))
  {
    hide Find, HeaderLines;
    FindIs(rest, BLANK, 0, h);
    FindIsFirst(rest, Delimiter(boundary), h + 4);
  }

  /** The delimiter of a part is followed by neither dashes nor a line end; a part that is refused
      stops the body; and there is no room for a part. */
  lemma {:induction false} PartsStop(rest: string, boundary: string, room: nat)
    ensures PartAt(rest, boundary).Err? ==> PartsOf(rest, boundary, room) == Err(PartAt(rest, boundary).error)
    ensures PartAt(rest, boundary).Ok? && room == 0 ==> PartsOf(rest, boundary, room) == Err(MaxKeysExceeded)
    ensures PartAt(rest, boundary).Ok? && room > 0 ==>
            var q := PartAt(rest, boundary).value.end + 4 + |boundary|;
            !("--" <= rest[q..]) && !("\r\n" <= rest[q..]) ==> PartsOf(rest, boundary, room) == Err(MalformedBoundaryLine)
  {
    hide PartAt;
    if PartAt(rest, boundary).Ok? {
      var q := PartAt(rest, boundary).value.end + 4 + |boundary|;
      PrefixOccurs(rest, "--", q);
      PrefixOccurs(rest, "\r\n", q);
    }
  }

  lemma PrefixOccurs(s: string, pat: string, q: nat)
    requires q <= |s|
    ensures OccursAt(s, pat, q) <==> pat <= s[q..]
  {
    if q + |pat| <= |s| {
      assert s[q..q + |pat|] == s[q..][..|pat|];
    }
  }

  ghost predicate IsFirstMarker(body: string, boundary: string, m: nat) {
    m <= |body| && OccursAt(body, "--" + boundary, m) && NoneIn(body, "--" + boundary, 0, m)
  }

  lemma {:induction false} NoMarker(body: string, boundary: string, maxKeys: nat)
    requires NoneIn(body, "--" + boundary, 0, |body| + 1)
    ensures MultipartOf(body, boundary, maxKeys) == Err(MalformedBody)
  {
    hide Find, PartsOf;
    FindIsFirst(body, "--" + boundary, 0);
  }

  /** The first marker is followed by neither dashes nor a line end. */
  lemma {:induction false} MarkerStops(body: string, boundary: string, maxKeys: nat, m: nat)
    requires IsFirstMarker(body, boundary, m)
    requires !OccursAt(body, "--", m + 2 + |boundary|) && !OccursAt(body, "\r\n", m + 2 + |boundary|)
    ensures MultipartOf(body, boundary, maxKeys) == Err(MalformedBoundaryLine)
  {
    hide Find, PartsOf;
    FindIs(body, "--" + boundary, 0, m);
  }

  // Content types

  lemma {:induction false} NoContentType(header: Option<string>)
    ensures header.None? || header.value == "" ==> ContentTypeOf(header) == Err(ContentTypeRequired)
  {
  }

  lemma {:induction false} OtherMediaType(h: string, a: nat, b: nat, p: nat)
    requires h != "" && p <= |h| && ';' !in h[..p] && (p < |h| ==> h[p] == ';') && IsTrimmed(h[..p], 0, a, b)
    requires !SameNoCase(h[..p][a..b], "multipart/form-data")
    requires !SameNoCase(h[..p][a..b], "application/x-www-form-urlencoded")
    ensures ContentTypeOf(Some(h)) == Err(UnsupportedContentType)
  {
    hide SameNoCase, BoundaryFrom, TrimEnd, SkipOws, IsTrimmed;
    forall i | 0 <= i < p ensures h[i] != ';' {
      assert h[i] == h[..p][i];
    }
    ScanIs(h, 0, IsSemicolon, p);
    TrimmedIs(h[..p], 0, a, b);
  }

  /** At a byte that is no semicolon, at a malformed parameter, at a second boundary, and at one
      that is empty or longer than 200 bytes. */
  lemma {:induction false} BoundaryStops(s: string, p: nat, seen: Option<string>)
    requires p < |s|
    ensures s[p] != ';' ==> BoundaryFrom(s, p, seen) == Err(MalformedContentType)
    ensures s[p] == ';' && ParamAt(s, p + 1).Err? ==> BoundaryFrom(s, p, seen) == Err(ParamAt(s, p + 1).error)
    ensures s[p] == ';' && ParamAt(s, p + 1).Ok? && SameNoCase(ParamAt(s, p + 1).value.key, "boundary") ==>
            && (seen.Some? ==> BoundaryFrom(s, p, seen) == Err(DuplicateBoundary))
            && (seen.None? && !(1 <= |ParamAt(s, p + 1).value.value| <= 200) ==>
                  BoundaryFrom(s, p, seen) == Err(InvalidBoundary))
  {
    hide ParamAt, SkipOws, SameNoCase;
    SkipTwice(s, p + 1);
  }

  /** The errors of the parameters are those of the content type; multipart without a boundary is
      refused. */
  lemma {:induction false} ContentTypeStops(h: string)
    requires SameNoCase(MediaType(h), "multipart/form-data") || SameNoCase(MediaType(h), "application/x-www-form-urlencoded")
    ensures var r := BoundaryFrom(h, Scan(h, 0, IsSemicolon), None);
            && (r.Err? ==> ContentTypeOf(Some(h)) == Err(r.error))
            && (r == Ok(None) && SameNoCase(MediaType(h), "multipart/form-data") ==>
                  ContentTypeOf(Some(h)) == Err(BoundaryRequired))
  {
    hide BoundaryFrom, SameNoCase;
    if h == "" {
      NoMediaType();
    }
  }

  lemma NoMediaType()
    ensures !SameNoCase(MediaType(""), "multipart/form-data")
    ensures !SameNoCase(MediaType(""), "application/x-www-form-urlencoded")
  {
  }
}
