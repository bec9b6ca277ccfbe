/** `key=value` and `key="value"` parameters of header fields, with backslash escapes
    inside the quotes. */
module FormParams {
  import opened Text

  datatype FormError =
    | ContentTypeRequired
    | UnsupportedContentType
    | MalformedContentType
    | DuplicateBoundary
    | InvalidBoundary
    | BoundaryRequired
    | MalformedParameter
    | UnterminatedQuotedParameter
    | EmptyParameterValue
    | MalformedPercentEscape
    | MaxKeysExceeded
    | MalformedBody
    | MalformedBoundaryLine
    | MissingHeaderSeparator
    | HeadersTooLarge
    | TruncatedBody
    | HeaderLineTooLong
    | TooManyHeaders
    | MalformedHeader
    | DuplicateDisposition
    | MissingDisposition
    | UnsupportedDisposition
    | MalformedDisposition
    | DuplicateName
    | DuplicateFilename
    | NameRequired

  datatype Result<+T> = Ok(value: T) | Err(error: FormError)

  /** A parsed parameter and the index just after it. */
  datatype Param = Param(key: string, value: string, quoted: bool, next: nat)

  predicate IsOws(c: char) { c == ' ' || c == '\t' }

  predicate NotOws(c: char) { !IsOws(c) }

  predicate EndsKey(c: char) { c == '=' || c == ';' || IsOws(c) }

  predicate EndsValue(c: char) { c == ';' || IsOws(c) }

  predicate IsToken(s: string) {
    s != "" && forall i :: 0 <= i < |s| ==> !EndsKey(s[i])
  }

  function SkipOws(s: string, p: nat): nat
    requires p <= |s|
  {
    Scan(s, p, NotOws)
  }

  /** The index of the quote that closes a quoted string whose contents start at `p`,
      or the length when it is never closed. A backslash hides the byte after it. */
  function ClosingQuote(s: string, p: nat): (r: nat)
    requires p <= |s|
    ensures p <= r <= |s|
    decreases |s| - p
  {
    if p == |s| || s[p] == '"' then p
    else if s[p] == '\\' && p + 1 < |s| then ClosingQuote(s, p + 2)
    else ClosingQuote(s, p + 1)
  }

  /** Drops every backslash that escapes a byte; a final backslash stands for itself. */
  function Unquote(s: string): (r: string)
    ensures |r| <= |s|
  {
    if s == "" then ""
    else if s[0] == '\\' && 1 < |s| then [s[1]] + Unquote(s[2..])
    else [s[0]] + Unquote(s[1..])
  }

  /** The value that starts at `p`, quoted or not. */
  function ValueAt(s: string, p: nat, key: string): (r: Result<Param>)
    requires p <= |s|
    ensures r.Ok? ==> p < r.value.next <= |s| && r.value.key == key
  {
    if p < |s| && s[p] == '"' then
      var e := ClosingQuote(s, p + 1);
      if e == |s| then Err(UnterminatedQuotedParameter)
      else Ok(Param(key, Unquote(s[p + 1..e]), true, e + 1))
    else
      var e := Scan(s, p, EndsValue);
      if p == e then Err(EmptyParameterValue)
      else Ok(Param(key, s[p..e], false, e))
  }

  /** The parameter that starts at `p`. */
  function ParamAt(s: string, p: nat): (r: Result<Param>)
    requires p <= |s|
    ensures r.Ok? ==> p < r.value.next <= |s| && r.value.key != ""
  {
    var a := SkipOws(s, p);
    var b := Scan(s, a, EndsKey);
    if a == b then Err(MalformedParameter) else
    var c := SkipOws(s, b);
    if c == |s| || s[c] != '=' then Err(MalformedParameter) else
    ValueAt(s, SkipOws(s, c + 1), s[a..b])
  }

  method SkipOwsLoop(s: string, p: nat) returns (q: nat)
    requires p <= |s|
    ensures q == SkipOws(s, p)
  {
    q := p;
    while q < |s| && IsOws(s[q])
      invariant p <= q <= |s|
      invariant SkipOws(s, p) == SkipOws(s, q)
    {
      q := q + 1;
    }
  }

  /** Copies `s` without its escaping backslashes into a buffer one byte longer than
      `s`; the writes and the closing NUL stay inside that buffer. */
  method CopyQuoted(s: string) returns (r: string)
    ensures r == Unquote(s)
  {
    if |s| == 0 {
      return "";
    }
    hide Unquote;
    var data := new char[|s| + 1];
    var p, d := 0, 0;
    assert s[0..] == s;
    NothingToUnquote();
    while p < |s|
      invariant d <= p <= |s|
      invariant Unquote(s) == data[..d] + Unquote(s[p..])
    {
      UnquoteTurn(s, p);
      if s[p] == '\\' && p + 1 < |s| {
        p := p + 1;
      }
      ghost var before, rest := data[..d], Unquote(s[p + 1..]);
      AppendOne(before, s[p], rest);
      data[d] := s[p];
      assert data[..d + 1] == before + [s[p]];
      d, p := d + 1, p + 1;
    }
    assert s[p..] == "" && data[..d] + "" == data[..d];
    ghost var text := data[..d];
    data[d] := '\0';
    assert data[..d] == text;
    r := data[..d];
  }

  lemma {:induction false} UnquoteTurn(s: string, p: nat)
    requires p < |s|
    ensures var k := if s[p] == '\\' && p + 1 < |s| then p + 1 else p;
            Unquote(s[p..]) == [s[k]] + Unquote(s[k + 1..])
  {
    assert s[p..][1..] == s[p + 1..] && (p + 1 < |s| ==> s[p..][2..] == s[p + 2..]);
  }

  lemma NothingToUnquote()
    ensures Unquote("") == ""
  {
  }

  /** The parameter parser: four skips, a key loop and one of two value loops. */
  method ParseParam(s: string, start: nat) returns (r: Result<Param>)
    requires start <= |s|
    ensures r == ParamAt(s, start)
  {
    hide ValueAt;
    var p := SkipOwsLoop(s, start);
    var keyStart := p;
    while p < |s| && s[p] != '=' && s[p] != ';' && !IsOws(s[p])
      invariant keyStart <= p <= |s|
      invariant Scan(s, keyStart, EndsKey) == Scan(s, p, EndsKey)
    {
      p := p + 1;
    }
    if p == keyStart {
      return Err(MalformedParameter);
    }
    var key := s[keyStart..p];
    p := SkipOwsLoop(s, p);
    if p == |s| || s[p] != '=' {
      return Err(MalformedParameter);
    }
    p := SkipOwsLoop(s, p + 1);
    r := ParseValue(s, p, key);
  }

  method ParseValue(s: string, start: nat, key: string) returns (r: Result<Param>)
    requires start <= |s|
    ensures r == ValueAt(s, start, key)
  {
    var p := start;
    if p < |s| && s[p] == '"' {
      r := ParseQuoted(s, p + 1, key);
    } else {
      while p < |s| && s[p] != ';' && !IsOws(s[p])
        invariant start <= p <= |s|
        invariant Scan(s, start, EndsValue) == Scan(s, p, EndsValue)
      {
        p := p + 1;
      }
      if p == start {
        return Err(EmptyParameterValue);
      }
      r := Ok(Param(key, s[start..p], false, p));
    }
  }

  method ParseQuoted(s: string, start: nat, key: string) returns (r: Result<Param>)
    requires start <= |s|
    ensures r == var e := ClosingQuote(s, start);
                 if e == |s| then Err(UnterminatedQuotedParameter)
                 else Ok(Param(key, Unquote(s[start..e]), true, e + 1))
  {
    var p := start;
    while p < |s| && s[p] != '"'
      invariant start <= p <= |s|
      invariant ClosingQuote(s, start) == ClosingQuote(s, p)
    {
      if s[p] == '\\' && p + 1 < |s| {
        p := p + 2;
        continue;
      }
      p := p + 1;
    }
    if p == |s| {
      return Err(UnterminatedQuotedParameter);
    }
    var value := CopyQuoted(s[start..p]);
    r := Ok(Param(key, value, true, p + 1));
  }

  // Printing

  /** A backslash before every quote and every backslash. */
  function Quote(s: string): string {
    if s == "" then ""
    else if s[0] == '"' || s[0] == '\\' then ['\\', s[0]] + Quote(s[1..])
    else [s[0]] + Quote(s[1..])
  }

  function QuotedParam(key: string, value: string): string {
    "; " + key + "=\"" + Quote(value) + "\""
  }

  lemma {:induction false} UnquoteQuote(s: string)
    ensures Unquote(Quote(s)) == s
  {
    if s != "" {
      UnquoteQuote(s[1..]);
      var q := Quote(s);
      if s[0] == '"' || s[0] == '\\' {
        assert q[2..] == Quote(s[1..]);
      } else {
        assert q[1..] == Quote(s[1..]);
      }
      assert s == [s[0]] + s[1..];
    }
  }

  /** Nothing inside printed text is taken for the closing quote. */
  lemma {:induction false} ClosingQuoteAfterQuote(s: string, p: nat, v: string)
    requires p + |Quote(v)| < |s|
    requires s[p..p + |Quote(v)|] == Quote(v)
    requires s[p + |Quote(v)|] == '"'
    ensures ClosingQuote(s, p) == p + |Quote(v)|
    decreases |v|
  {
    if v != "" {
      var q := Quote(v);
      var k := |q| - |Quote(v[1..])|;
      assert q[k..] == Quote(v[1..]);
      assert s[p] == s[p..p + |q|][0];
      assert s[p + k..p + |q|] == s[p..p + |q|][k..];
      if k == 2 {
        assert s[p + 1] == s[p..p + |q|][1];
      }
      ClosingQuoteAfterQuote(s, p + k, v[1..]);
    }
  }

  lemma ValueAtShape(s: string, p: nat, key: string, value: string)
    requires p + |Quote(value)| + 1 < |s| && s[p] == '"'
    requires s[p + 1..p + 1 + |Quote(value)|] == Quote(value)
    requires s[p + 1 + |Quote(value)|] == '"'
    ensures ValueAt(s, p, key) == Ok(Param(key, value, true, p + |Quote(value)| + 2))
  {
    hide Quote, Unquote, ClosingQuote;
    ClosingQuoteAfterQuote(s, p + 1, value);
    UnquoteQuote(value);
  }

  /** Reading a parameter whose key fills `[a, b)` and whose value is quoted. */
  lemma ParamAtShape(s: string, a: nat, key: string, value: string)
    requires 0 < a && a + |key| + |Quote(value)| + 2 < |s|
    requires s[a - 1] == ' ' && IsToken(key) && s[a..a + |key|] == key
    requires s[a + |key|] == '=' && s[a + |key| + 1] == '"'
    requires s[a + |key| + 2..a + |key| + 2 + |Quote(value)|] == Quote(value)
    requires s[a + |key| + 2 + |Quote(value)|] == '"'
    ensures SkipOws(s, a - 1) == a
    ensures ParamAt(s, a) == Ok(Param(key, value, true, a + |key| + |Quote(value)| + 3))
  {
    hide Scan, ValueAt, Quote;
    var b := a + |key|;
    assert s[a] == s[a..b][0];
    forall i | a <= i < b ensures !EndsKey(s[i]) {
      assert s[i] == s[a..b][i - a];
    }
    ScanIs(s, a - 1, NotOws, a);
    ScanIs(s, a, NotOws, a);
    ScanIs(s, a, EndsKey, b);
    ScanIs(s, b, NotOws, b);
    ScanIs(s, b + 1, NotOws, b + 1);
    ValueAtShape(s, b + 1, key, value);
  }

  /** A printed parameter, read from just after its semicolon, gives back its key and
      its value and stops just after its closing quote. */
  lemma ParamAtPrinted(pre: string, key: string, value: string, post: string)
    requires IsToken(key)
    ensures var s := pre + QuotedParam(key, value);
            && SkipOws(s + post, |pre| + 1) == |pre| + 2
            && ParamAt(s + post, |pre| + 2) == Ok(Param(key, value, true, |s|))
  {
    hide ParamAt, Quote;
    var s := pre + QuotedParam(key, value) + post;
    var a := |pre| + 2;
    assert s == (pre + "; ") + key + "=\"" + Quote(value) + "\"" + post;
    assert s[a..a + |key|] == key;
    assert s[a + |key| + 2..a + |key| + 2 + |Quote(value)|] == Quote(value);
    ParamAtShape(s, a, key, value);
  }
}
