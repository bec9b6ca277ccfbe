/** The entry point of the form parser: the content type chooses the format and carries
    the multipart boundary. */
module FormParser {
  import opened Text
  import opened FormParams
  import opened FormHeaders
  import opened FormPrinter
  import opened FormMultipart
  import opened FormRoundTrip
  import opened FormUrlencoded

  const MAX_BOUNDARY_LEN := 200

  datatype ContentType = Urlencoded | Multipart(boundary: string)

  /** Records one content-type parameter; only `boundary` matters. */
  function RecordBoundary(q: Param, boundary: Option<string>): Result<Option<string>> {
    if !SameNoCase(q.key, "boundary") then Ok(boundary)
    else if boundary.Some? then Err(DuplicateBoundary)
    else if |q.value| == 0 || |q.value| > MAX_BOUNDARY_LEN then Err(InvalidBoundary)
    else Ok(Some(q.value))
  }

  function BoundaryFrom(s: string, p: nat, boundary: Option<string>): Result<Option<string>>
    requires p <= |s|
    decreases |s| - p
  {
    if p == |s| then Ok(boundary)
    else if s[p] != ';' then Err(MalformedContentType)
    else
      match ParamAt(s, SkipOws(s, p + 1))
      case Err(e) => Err(e)
      case Ok(q) =>
        match RecordBoundary(q, boundary)
        case Err(e) => Err(e)
        case Ok(seen) => BoundaryFrom(s, SkipOws(s, q.next), seen)
  }

  function MediaType(s: string): string {
    var head := s[..Scan(s, 0, IsSemicolon)];
    TrimEnd(head[SkipOws(head, 0)..])
  }

  function ContentTypeOf(header: Option<string>): (r: Result<ContentType>)
  {
    if header.None? || header.value == "" then Err(ContentTypeRequired) else
    var s := header.value;
    var multipart := SameNoCase(MediaType(s), "multipart/form-data");
    if !multipart && !SameNoCase(MediaType(s), "application/x-www-form-urlencoded") then
      Err(UnsupportedContentType)
    else
      match BoundaryFrom(s, Scan(s, 0, IsSemicolon), None)
      case Err(e) => Err(e)
      case Ok(boundary) =>
        if !multipart then Ok(Urlencoded)
        else if boundary.None? then Err(BoundaryRequired)
        else Ok(Multipart(boundary.value))
  }

  function FormOf(header: Option<string>, body: string, maxKeys: nat): Result<seq<Entry>> {
    match ContentTypeOf(header)
    case Err(e) => Err(e)
    case Ok(Urlencoded) => UrlencodedOf(body, maxKeys)
    case Ok(Multipart(boundary)) => MultipartOf(body, boundary, maxKeys)
  }

  method ParseBoundary(s: string, start: nat) returns (r: Result<Option<string>>)
    requires start <= |s|
    ensures r == BoundaryFrom(s, start, None)
  {
    hide ParamAt, RecordBoundary;
    var p, boundary: Option<string> := start, None;
    while p < |s|
      invariant p <= |s|
      invariant BoundaryFrom(s, start, None) == BoundaryFrom(s, p, boundary)
      decreases |s| - p
    {
      if s[p] != ';' {
        return Err(MalformedContentType);
      }
      var a := SkipOwsLoop(s, p + 1);
      var q := ParseParam(s, a);
      if q.Err? {
        return Err(q.error);
      }
      var seen := RecordBoundary(q.value, boundary);
      if seen.Err? {
        return seen;
      }
      boundary := seen.value;
      p := SkipOwsLoop(s, q.value.next);
    }
    return Ok(boundary);
  }

  method ParseContentType(header: Option<string>) returns (r: Result<ContentType>)
    ensures r == ContentTypeOf(header)
  {
    hide BoundaryFrom, SameNoCase;
    if header.None? || |header.value| == 0 {
      return Err(ContentTypeRequired);
    }
    var s := header.value;
    var last := 0;
    while last < |s| && s[last] != ';'
      invariant last <= |s|
      invariant Scan(s, 0, IsSemicolon) == Scan(s, last, IsSemicolon)
    {
      last := last + 1;
    }
    var head := s[..last];
    var start := SkipOwsLoop(head, 0);
    var value := head[start..];
    while |value| > 0 && IsOws(value[|value| - 1])
      invariant TrimEnd(head[start..]) == TrimEnd(value)
    {
      value := value[..|value| - 1];
    }
    var multipart := SameNoCase(value, "multipart/form-data");
    if !multipart && !SameNoCase(value, "application/x-www-form-urlencoded") {
      return Err(UnsupportedContentType);
    }
    var boundary := ParseBoundary(s, last);
    if boundary.Err? {
      return Err(boundary.error);
    }
    if multipart && boundary.value.None? {
      return Err(BoundaryRequired);
    }
    return Ok(if multipart then Multipart(boundary.value.value) else Urlencoded);
  }

  method ParseForm(header: Option<string>, body: string, maxKeys: nat)
    returns (r: Result<()>, form: Form)
    ensures fresh(form)
    ensures r == match FormOf(header, body, maxKeys)
                 case Err(e) => Err(e)
                 case Ok(_) => Ok(())
    ensures r.Ok? ==> form.entries == FormOf(header, body, maxKeys).value
    ensures r.Ok? ==> form.hasFiles == HasFiles(form.entries)
  {
    hide ContentTypeOf, MultipartOf, UrlencodedOf, HasFiles;
    form := new Form();
    var ct := ParseContentType(header);
    if ct.Err? {
      return Err(ct.error), form;
    }
    match ct.value
    case Urlencoded =>
      r := ParseUrlencoded(form, body, maxKeys);
      if r.Ok? {
        UrlencodedHasNoFiles(body, maxKeys);
      }
    case Multipart(boundary) =>
      r := form.ParseMultipart(body, boundary, maxKeys);
  }

  // Reading back

  function ContentTypeText(boundary: string): string {
    "multipart/form-data" + QuotedParam("boundary", boundary)
  }

  lemma MediaTypeIs(rest: string)
    requires rest != "" && rest[0] == ';'
    ensures Scan("multipart/form-data" + rest, 0, IsSemicolon) == |"multipart/form-data"|
    ensures MediaType("multipart/form-data" + rest) == "multipart/form-data"
  {
    hide Scan;
    var media := "multipart/form-data";
    ScanBehind(media, rest, IsSemicolon);
    assert (media + rest)[..|media|] == media;
    ScanIs(media, 0, NotOws, 0);
    assert media[0..] == media && TrimEnd(media) == media;
  }

  /** Any boundary of one to 200 bytes survives the header. */
  lemma ContentTypeReadsBack(boundary: string)
    requires 1 <= |boundary| <= MAX_BOUNDARY_LEN
    ensures ContentTypeOf(Some(ContentTypeText(boundary))) == Ok(Multipart(boundary))
  {
    hide BoundaryFrom, MediaType, Scan, QuotedParam;
    QuotedParamIsNext("boundary", boundary);
    MediaTypeIs(QuotedParam("boundary", boundary));
    BoundaryReadsBack("multipart/form-data", boundary);
  }

  lemma BoundaryReadsBack(pre: string, boundary: string)
    requires 1 <= |boundary| <= MAX_BOUNDARY_LEN
    ensures BoundaryFrom(pre + QuotedParam("boundary", boundary), |pre|, None) == Ok(Some(boundary))
  {
    hide ParamAt, QuotedParam, BoundaryFrom, Scan, SameNoCase, IsToken;
    var s := pre + QuotedParam("boundary", boundary);
    QuotedParamIsNext("boundary", boundary);
    BoundaryIsToken();
    ParamAtPrinted(pre, "boundary", boundary, "");
    assert s + "" == s && s[|pre|] == ';';
    assert SkipOws(s, |s|) == |s| by { ScanIs(s, |s|, NotOws, |s|); }
    LastBoundary(s, |pre|, Param("boundary", boundary, true, |s|));
  }

  lemma BoundaryIsToken()
    ensures IsToken("boundary") && SameNoCase("boundary", "boundary")
  {
  }

  lemma LastBoundary(s: string, p: nat, q: Param)
    requires p < |s| && s[p] == ';' && ParamAt(s, SkipOws(s, p + 1)) == Ok(q)
    requires SameNoCase(q.key, "boundary") && 1 <= |q.value| <= MAX_BOUNDARY_LEN
    requires SkipOws(s, q.next) == |s|
    ensures BoundaryFrom(s, p, None) == Ok(Some(q.value))
  {
    hide ParamAt, SkipOws, SameNoCase;
  }

  /** The whole round trip: header and body together. */
  lemma {:induction false} PrintedFormReadsBack(fields: seq<Field>, boundary: string, epilogue: string,
                                         maxKeys: nat)
    requires 1 <= |boundary| <= MAX_BOUNDARY_LEN && '\r' !in boundary
    requires AllFit(fields, boundary)
    ensures var r := FormOf(Some(ContentTypeText(boundary)), BodyText("", fields, boundary, epilogue), maxKeys);
            if |fields| <= maxKeys then r.Ok? && AreFields(r.value, fields) else r == Err(MaxKeysExceeded)
  {
    hide ContentTypeOf, MultipartOf, AllFit, ContentTypeText, BodyText;
    ContentTypeReadsBack(boundary);
    var d := "--" + boundary;
    assert "" + "--" + boundary == d && d[..|d|] == d;
    FindIs(d, d, 0, 0);
    MultipartRoundTrip("", fields, boundary, epilogue, maxKeys);
  }
}
