/** Writes multipart bodies. The parser is judged by reading back what is written here. */
module FormPrinter {
  import opened Text
  import opened FormParams
  import opened FormHeaders

  /** A form field: an ordinary value, or a file when `file` holds a file name. `others`
      are the header lines that follow Content-Disposition. */
  datatype Field = Field(name: string, value: string, file: Option<string>, others: seq<string>)

  function FileParam(file: Option<string>): string {
    match file case None => "" case Some(name) => QuotedParam("filename", name)
  }

  function DispositionText(f: Field): string {
    "form-data" + QuotedParam("name", f.name) + FileParam(f.file)
  }

  function DispositionLine(f: Field): string {
    "Content-Disposition: " + DispositionText(f)
  }

  /** `lines` separated by CRLF. */
  function JoinLines(lines: seq<string>): string
    requires |lines| > 0
  {
    if |lines| == 1 then lines[0] else lines[0] + "\r\n" + JoinLines(lines[1..])
  }

  function HeaderText(f: Field): string {
    JoinLines([DispositionLine(f)] + f.others)
  }

  predicate NoCrlf(s: string) {
    forall i :: 0 <= i < |s| - 1 ==> !(s[i] == '\r' && s[i + 1] == '\n')
  }

  /** A line that can stand in a header block: not empty and free of CRLF. */
  predicate IsLine(s: string) { s != "" && NoCrlf(s) }

  /** A header line the form parser accepts and ignores. */
  predicate IsOtherHeader(s: string) {
    && IsLine(s)
    && |s| <= MAX_PART_HEADER_LINE
    && var colon := Scan(s, 0, IsColon);
       colon < |s| && !SameNoCase(s[..colon], "Content-Disposition")
  }

  // Content-Disposition reads back

  /** One printed parameter moves the disposition parser over it and records it. */
  lemma ParamsFromPrinted(pre: string, key: string, value: string, post: string,
                          name: Option<string>, file: Option<string>)
    requires IsToken(key)
    requires post == "" || post[0] == ';'
    requires Record(Param(key, value, true, |pre + QuotedParam(key, value)|), name, file).Ok?
    ensures var s := pre + QuotedParam(key, value);
            var seen := Record(Param(key, value, true, |s|), name, file).value;
            ParamsFrom(s + post, |pre|, name, file) == ParamsFrom(s + post, |s|, seen.0, seen.1)
  {
    hide ParamAt, Record;
    var s := pre + QuotedParam(key, value);
    var v := s + post;
    ParamAtPrinted(pre, key, value, post);
    assert v[|pre|] == ';';
    assert |s| < |v| ==> v[|s|] == post[0];
    ScanIs(v, |s|, NotOws, |s|);
  }

  lemma DispositionReadsBack(f: Field)
    ensures DispositionOf(DispositionText(f)) == Ok(Disposition(f.name, f.file))
  {
    hide ParamAt, ParamsFrom, QuotedParam, Scan;
    var media, name, file := "form-data", QuotedParam("name", f.name), FileParam(f.file);
    var v := media + name + file;
    QuotedParamIsNext("name", f.name);
    assert v == media + (name + file);
    ScanBehind(media, name + file, IsSemicolon);
    assert v[..|media|] == media;
    if f.file.Some? {
      QuotedParamIsNext("filename", f.file.value);
    }
    ParamsFromPrinted(media, "name", f.name, file, None, None);
    NamesRead(v, media + name, f);
  }

  lemma NamesRead(v: string, pre: string, f: Field)
    requires v == pre + FileParam(f.file)
    ensures ParamsFrom(v, |pre|, Some(f.name), None) == Ok(Disposition(f.name, f.file))
  {
    hide ParamAt, QuotedParam;
    if f.file.Some? {
      assert v == pre + QuotedParam("filename", f.file.value) + "";
      ParamsFromPrinted(pre, "filename", f.file.value, "", Some(f.name), None);
    }
  }

  lemma QuotedParamIsNext(key: string, value: string)
    ensures QuotedParam(key, value) != "" && QuotedParam(key, value)[0] == ';'
  {
  }

  lemma DispositionLineReadsBack(f: Field)
    ensures HeaderField(DispositionLine(f), None) == Ok(Some(Disposition(f.name, f.file)))
  {
    hide DispositionOf, Scan;
    var line, v := DispositionLine(f), DispositionText(f);
    assert line[..19] == "Content-Disposition" && line[19] == ':' && line[20] == ' ';
    forall i | 0 <= i < 19 ensures line[i] != ':' {
      assert line[i] == "Content-Disposition"[i];
    }
    ScanIs(line, 0, IsColon, 19);
    assert line[21] == 'f';
    ScanIs(line, 20, NotOws, 21);
    assert line[21..] == v;
    assert v[|v| - 1] == '"';
    DispositionReadsBack(f);
  }

  // Header blocks read back

  predicate IsPrintable(f: Field) {
    && NoCrlf(f.name)
    && (f.file.Some? ==> NoCrlf(f.file.value))
    && |DispositionLine(f)| <= MAX_PART_HEADER_LINE
    && |f.others| < MAX_PART_HEADERS
    && forall i :: 0 <= i < |f.others| ==> IsOtherHeader(f.others[i])
  }

  lemma {:induction false} QuoteKeepsNoCrlf(s: string)
    requires NoCrlf(s)
    ensures NoCrlf(Quote(s))
    ensures s != "" && Quote(s)[0] == '\n' ==> s[0] == '\n'
  {
    if s != "" {
      QuoteKeepsNoCrlf(s[1..]);
      var k := if s[0] == '"' || s[0] == '\\' then 2 else 1;
      forall i | 0 <= i < |Quote(s)| - 1
        ensures !(Quote(s)[i] == '\r' && Quote(s)[i + 1] == '\n')
      {
        if i >= k {
          assert Quote(s)[i] == Quote(s[1..])[i - k];
        }
      }
    }
  }

  lemma NoCrlfConcat(a: string, b: string)
    requires NoCrlf(a) && NoCrlf(b)
    requires a == "" || a[|a| - 1] != '\r' || b == "" || b[0] != '\n'
    ensures NoCrlf(a + b)
  {
  }

  lemma QuotedParamIsLine(key: string, value: string)
    requires NoCrlf(key) && NoCrlf(value)
    ensures IsLine(QuotedParam(key, value)) && QuotedParam(key, value)[0] == ';'
  {
    QuoteKeepsNoCrlf(value);
    NoCrlfConcat("; ", key);
    NoCrlfConcat("; " + key, "=\"");
    NoCrlfConcat("; " + key + "=\"", Quote(value));
    NoCrlfConcat("; " + key + "=\"" + Quote(value), "\"");
  }

  lemma DispositionLineIsLine(f: Field)
    requires IsPrintable(f)
    ensures IsLine(DispositionLine(f))
  {
    hide QuotedParam;
    var first := QuotedParam("name", f.name);
    QuotedParamIsLine("name", f.name);
    NoCrlfConcat("form-data", first);
    if f.file.Some? {
      QuotedParamIsLine("filename", f.file.value);
    }
    NoCrlfConcat("form-data" + first, FileParam(f.file));
    NoCrlfConcat("Content-Disposition: ", DispositionText(f));
  }

  /** A pattern that begins with CRLF does not begin inside a line. */
  lemma NoneInLine(line: string, rest: string, pat: string)
    requires NoCrlf(line) && (rest == "" || rest[0] == '\r')
    requires "\r\n" <= pat
    ensures NoneIn(line + rest, pat, 0, |line|)
  {
    forall i: nat | i < |line| ensures !OccursAt(line + rest, pat, i) {
      OccursAtByte(line + rest, pat, i, 0);
      OccursAtByte(line + rest, pat, i, 1);
    }
  }

  lemma LineEndOfLine(line: string, rest: string)
    requires IsLine(line)
    ensures LineEnd(line) == |line|
    ensures LineEnd(line + "\r\n" + rest) == |line|
  {
    NoneInLine(line, "", "\r\n");
    FindIsFirst(line + "", "\r\n", 0);
    assert line + "" == line;
    var s := line + ("\r\n" + rest);
    assert s == line + "\r\n" + rest;
    NoneInLine(line, "\r\n" + rest, "\r\n");
    assert s[|line|..|line| + 2] == "\r\n";
    FindIs(s, "\r\n", 0, |line|);
  }

  lemma OtherHeaderIsIgnored(line: string, seen: Option<Disposition>)
    requires IsOtherHeader(line)
    ensures IsLine(line) && |line| <= MAX_PART_HEADER_LINE
    ensures HeaderField(line, seen) == Ok(seen)
  {
  }

  lemma {:induction false} OtherHeadersAreIgnored(lines: seq<string>, count: nat, d: Disposition)
    requires |lines| > 0 && count + |lines| <= MAX_PART_HEADERS
    requires forall i :: 0 <= i < |lines| ==> IsOtherHeader(lines[i])
    ensures HeaderLines(JoinLines(lines), count, Some(d)) == Ok(d)
    decreases |lines|
  {
    hide HeaderField, IsOtherHeader, LineEnd;
    var h, line := JoinLines(lines), lines[0];
    OtherHeaderIsIgnored(line, Some(d));
    if |lines| == 1 {
      LineEndOfLine(line, "");
      assert h[..|line|] == line;
    } else {
      var rest := JoinLines(lines[1..]);
      LineEndOfLine(line, rest);
      assert h[..|line|] == line && h[|line| + 2..] == rest;
      OtherHeadersAreIgnored(lines[1..], count + 1, d);
    }
  }

  lemma HeaderTextReadsBack(f: Field)
    requires IsPrintable(f)
    ensures HeaderLines(HeaderText(f), 0, None) == Ok(Disposition(f.name, f.file))
  {
    hide HeaderField, DispositionLine;
    var h, line := HeaderText(f), DispositionLine(f);
    DispositionLineIsLine(f);
    DispositionLineReadsBack(f);
    if f.others == [] {
      LineEndOfLine(line, "");
      assert h[..|line|] == line;
    } else {
      var rest := JoinLines(f.others);
      assert ([line] + f.others)[1..] == f.others;
      LineEndOfLine(line, rest);
      assert h[..|line|] == line && h[|line| + 2..] == rest;
      OtherHeadersAreIgnored(f.others, 1, Disposition(f.name, f.file));
    }
  }

  // The blank line

  /** Between two lines there is one CRLF, so no blank line begins at it. */
  lemma NoBlankBetween(line: string, tail: string)
    requires NoCrlf(line) && |tail| >= 2 && !(tail[0] == '\r' && tail[1] == '\n')
    ensures NoneIn(line + "\r\n" + tail, "\r\n\r\n", 0, |line| + 2)
  {
    var s := line + ("\r\n" + tail);
    assert s == line + "\r\n" + tail;
    NoneInLine(line, "\r\n" + tail, "\r\n\r\n");
    OccursAtByte(s, "\r\n\r\n", |line|, 2);
    OccursAtByte(s, "\r\n\r\n", |line|, 3);
    OccursAtByte(s, "\r\n\r\n", |line| + 1, 0);
  }

  /** The first blank line after a header block is the one that ends it. */
  lemma {:induction false} HeadersEndAtBlankLine(lines: seq<string>, rest: string)
    requires |lines| > 0
    requires forall i :: 0 <= i < |lines| ==> IsLine(lines[i])
    ensures Find(JoinLines(lines) + "\r\n\r\n" + rest, "\r\n\r\n", 0) == Some(|JoinLines(lines)|)
    decreases |lines|
  {
    hide Find;
    var h, line := JoinLines(lines), lines[0];
    var s := h + "\r\n\r\n" + rest;
    if |lines| == 1 {
      NoneInLine(line, "\r\n\r\n" + rest, "\r\n\r\n");
      assert s == line + ("\r\n\r\n" + rest);
      assert s[|h|..|h| + 4] == "\r\n\r\n";
      FindIs(s, "\r\n\r\n", 0, |h|);
    } else {
      var h', next := JoinLines(lines[1..]), lines[1];
      var tail := h' + "\r\n\r\n" + rest;
      assert IsLine(next) && tail[0] == next[0];
      assert tail[1] == if |next| > 1 then next[1] else '\r';
      assert s == line + "\r\n" + tail && s[|line| + 2..] == tail;
      NoBlankBetween(line, tail);
      HeadersEndAtBlankLine(lines[1..], rest);
      FindInSuffix(s, "\r\n\r\n", |line| + 2, |line| + 2);
      FindSkips(s, "\r\n\r\n", 0, |line| + 2);
    }
  }
}
