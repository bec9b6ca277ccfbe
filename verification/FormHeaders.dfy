/** The header block of one multipart part: lines, the Content-Disposition field and
    its parameters. */
module FormHeaders {
  import opened Text
  import opened FormParams

  const MAX_PART_HEADER_SIZE := 16384
  const MAX_PART_HEADERS := 32
  const MAX_PART_HEADER_LINE := 4096

  /** What a part's headers say: the field name, and the file name when the part is a
      file. */
  datatype Disposition = Disposition(name: string, file: Option<string>)

  predicate IsSemicolon(c: char) { c == ';' }

  predicate IsColon(c: char) { c == ':' }

  function Lower(c: char): char {
    if 'A' <= c <= 'Z' then (c as int + 32) as char else c
  }

  /** Equality up to the case of ASCII letters. */
  predicate SameNoCase(a: string, b: string) {
    |a| == |b| && forall i :: 0 <= i < |a| ==> Lower(a[i]) == Lower(b[i])
  }

  const CAPITALS: string := "ABCDEFGHIJKLMNOPQRSTUVWXYZ"
  const SMALL: string := "abcdefghijklmnopqrstuvwxyz"

  /** Two characters are the same up to case when they are equal or the two forms of one
      letter. */
  lemma LowerIff(c: char, d: char)
    ensures Lower(c) == Lower(d) <==>
            c == d || exists i :: 0 <= i < 26 && {c, d} == {CAPITALS[i], SMALL[i]}
  {
    Letters();
    if c != d && Lower(c) == Lower(d) {
      var k := if 'A' <= c <= 'Z' then c as int - 'A' as int else d as int - 'A' as int;
      assert {c, d} == {CAPITALS[k], SMALL[k]};
    }
  }

  lemma Letters()
    ensures |CAPITALS| == |SMALL| == 26
    ensures forall i :: 0 <= i < 26 ==> CAPITALS[i] as int == 'A' as int + i && SMALL[i] as int == 'a' as int + i
  {
  }

  // Content-Disposition

  function Finish(name: Option<string>, file: Option<string>): Result<Disposition> {
    if name.None? then Err(NameRequired) else Ok(Disposition(name.value, file))
  }

  /** Records one parameter: the first `name` and the first `filename` are kept, a second
      one of either is an error, anything else is ignored. */
  function Record(q: Param, name: Option<string>, file: Option<string>)
    : (r: Result<(Option<string>, Option<string>)>)
  {
    if SameNoCase(q.key, "name") then
      if name.Some? then Err(DuplicateName) else Ok((Some(q.value), file))
    else if SameNoCase(q.key, "filename") then
      if file.Some? then Err(DuplicateFilename) else Ok((name, Some(q.value)))
    else Ok((name, file))
  }

  /** The parameters from `p` on, given those seen so far. */
  function ParamsFrom(v: string, p: nat, name: Option<string>, file: Option<string>)
    : Result<Disposition>
    requires p <= |v|
    decreases |v| - p
  {
    if p == |v| then Finish(name, file)
    else if v[p] != ';' then Err(MalformedDisposition)
    else
      match ParamAt(v, SkipOws(v, p + 1))
      case Err(e) => Err(e)
      case Ok(q) =>
        match Record(q, name, file)
        case Err(e) => Err(e)
        case Ok(seen) => ParamsFrom(v, SkipOws(v, q.next), seen.0, seen.1)
  }

  function DispositionOf(v: string): Result<Disposition> {
    var p := Scan(v, 0, IsSemicolon);
    if !SameNoCase(v[..p], "form-data") then Err(UnsupportedDisposition)
    else ParamsFrom(v, p, None, None)
  }

  method ParseDisposition(v: string) returns (r: Result<Disposition>)
    ensures r == DispositionOf(v)
  {
    var p := 0;
    while p < |v| && v[p] != ';'
      invariant p <= |v|
      invariant Scan(v, 0, IsSemicolon) == Scan(v, p, IsSemicolon)
    {
      p := p + 1;
    }
    if !SameNoCase(v[..p], "form-data") {
      return Err(UnsupportedDisposition);
    }
    r := ParseDispositionParams(v, p);
  }

  method ParseDispositionParams(v: string, start: nat) returns (r: Result<Disposition>)
    requires start <= |v|
    ensures r == ParamsFrom(v, start, None, None)
  {
    hide ParamAt, Record;
    var p := start;
    var name, file: Option<string> := None, None;
    while p < |v|
      invariant p <= |v|
      invariant ParamsFrom(v, start, None, None) == ParamsFrom(v, p, name, file)
      decreases |v| - p
    {
      if v[p] != ';' {
        return Err(MalformedDisposition);
      }
      var a := SkipOwsLoop(v, p + 1);
      var q := ParseParam(v, a);
      if q.Err? {
        return Err(q.error);
      }
      var seen := Record(q.value, name, file);
      if seen.Err? {
        return Err(seen.error);
      }
      name, file := seen.value.0, seen.value.1;
      p := SkipOwsLoop(v, q.value.next);
    }
    return Finish(name, file);
  }

  // Header lines

  function TrimEnd(s: string): (r: string)
    ensures r <= s
    ensures r == "" || !IsOws(r[|r| - 1])
  {
    if s != "" && IsOws(s[|s| - 1]) then TrimEnd(s[..|s| - 1]) else s
  }

  /** One header line, given the disposition seen so far. */
  function HeaderField(line: string, seen: Option<Disposition>): Result<Option<Disposition>> {
    var colon := Scan(line, 0, IsColon);
    if colon == |line| then Err(MalformedHeader)
    else if !SameNoCase(line[..colon], "Content-Disposition") then Ok(seen)
    else if seen.Some? then Err(DuplicateDisposition)
    else
      match DispositionOf(TrimEnd(line[SkipOws(line, colon + 1)..]))
      case Err(e) => Err(e)
      case Ok(d) => Ok(Some(d))
  }

  function LineEnd(h: string): (r: nat)
    ensures r == |h| || r + 2 <= |h|
  {
    match Find(h, "\r\n", 0) case None => |h| case Some(i) => i
  }

  /** The header lines of `h`, after `count` earlier ones. */
  function HeaderLines(h: string, count: nat, seen: Option<Disposition>): Result<Disposition>
    decreases |h|
  {
    if h == "" then
      if seen.None? then Err(MissingDisposition) else Ok(seen.value)
    else
      var end := LineEnd(h);
      if end > MAX_PART_HEADER_LINE then Err(HeaderLineTooLong)
      else if count + 1 > MAX_PART_HEADERS then Err(TooManyHeaders)
      else
        match HeaderField(h[..end], seen)
        case Err(e) => Err(e)
        case Ok(seen') => HeaderLines(if end == |h| then "" else h[end + 2..], count + 1, seen')
  }

  method ParseHeaderField(line: string, seen: Option<Disposition>)
    returns (r: Result<Option<Disposition>>)
    ensures r == HeaderField(line, seen)
  {
    hide DispositionOf, SameNoCase;
    var colon := 0;
    while colon < |line| && line[colon] != ':'
      invariant colon <= |line|
      invariant Scan(line, 0, IsColon) == Scan(line, colon, IsColon)
    {
      colon := colon + 1;
    }
    if colon == |line| {
      return Err(MalformedHeader);
    }
    var start := SkipOwsLoop(line, colon + 1);
    var value := line[start..];
    while |value| > 0 && IsOws(value[|value| - 1])
      invariant TrimEnd(line[start..]) == TrimEnd(value)
    {
      value := value[..|value| - 1];
    }
    if SameNoCase(line[..colon], "Content-Disposition") {
      if seen.Some? {
        return Err(DuplicateDisposition);
      }
      var d := ParseDisposition(value);
      if d.Err? {
        return Err(d.error);
      }
      return Ok(Some(d.value));
    }
    return Ok(seen);
  }

  /** The loop over header lines: it stops at the end of the block, at a limit or at the
      first bad line. */
  method ParsePartHeaders(h: string) returns (r: Result<Disposition>)
    ensures r == HeaderLines(h, 0, None)
  {
    hide HeaderField, Find;
    var p, headers, seen: Option<Disposition> := 0, 0, None;
    while p < |h|
      invariant p <= |h|
      invariant HeaderLines(h, 0, None) == HeaderLines(h[p..], headers, seen)
      decreases |h| - p
    {
      var found := Search(h, p, "\r\n");
      FindInSuffix(h, "\r\n", p, p);
      var lineEnd := if found.None? then |h| else found.value;
      assert lineEnd == p + LineEnd(h[p..]);
      if lineEnd - p > MAX_PART_HEADER_LINE {
        return Err(HeaderLineTooLong);
      }
      headers := headers + 1;
      if headers > MAX_PART_HEADERS {
        return Err(TooManyHeaders);
      }
      assert h[p..][..lineEnd - p] == h[p..lineEnd];
      var field := ParseHeaderField(h[p..lineEnd], seen);
      if field.Err? {
        return Err(field.error);
      }
      seen := field.value;
      if lineEnd == |h| {
        p := |h|;
        break;
      }
      assert h[p..][lineEnd - p + 2..] == h[lineEnd + 2..];
      p := lineEnd + 2;
    }
    if seen.None? {
      return Err(MissingDisposition);
    }
    return Ok(seen.value);
  }
}
