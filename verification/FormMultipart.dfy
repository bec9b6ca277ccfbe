/** multipart/form-data bodies: the delimiter scan, the loop over parts and the entries
    it collects. */
module FormMultipart {
  import opened Text
  import opened FormParams
  import opened FormHeaders

  /** One entry of a parsed form. `filename` is absent in url-encoded forms, and empty
      in multipart forms for fields that are not files. */
  datatype Entry = Entry(name: string, value: string, filename: Option<string>, isFile: bool)

  function Delimiter(boundary: string): string { "\r\n--" + boundary }

  lemma DelimiterLength(boundary: string)
    ensures |Delimiter(boundary)| == 4 + |boundary|
  {
  }

  function EntryOf(d: Disposition, value: string): Entry {
    if d.file.Some? then Entry(d.name, "", d.file, true)
    else Entry(d.name, value, Some(""), false)
  }

  /** `e` is the entry of a part that says `d` and has this value: a file keeps its two names
      and loses its value. */
  predicate IsEntry(e: Entry, d: Disposition, value: string) {
    && e.name == d.name
    && e.isFile == d.file.Some?
    && e.value == (if d.file.Some? then "" else value)
    && e.filename == (if d.file.Some? then d.file else Some(""))
  }

  lemma IsEntryIff(e: Entry, d: Disposition, value: string)
    ensures IsEntry(e, d, value) <==> e == EntryOf(d, value)
  {
  }

  lemma FileOfEntry(d: Disposition, value: string)
    ensures EntryOf(d, value).isFile == d.file.Some?
  {
  }

  predicate HasFiles(entries: seq<Entry>) {
    exists i :: 0 <= i < |entries| && entries[i].isFile
  }

  // Reference

  /** A part of a text: what its headers say and where its value starts and ends. */
  datatype Part = Part(disposition: Disposition, start: nat, end: nat)

  /** The part `rest` starts with: headers up to the first blank line, then a value that
      runs up to the first delimiter. */
  function PartAt(rest: string, boundary: string): (r: Result<Part>)
    ensures r.Ok? ==> 4 <= r.value.start <= r.value.end <= |rest| - 4 - |boundary|
  {
    match Find(rest, "\r\n\r\n", 0)
    case None => Err(MissingHeaderSeparator)
    case Some(h) =>
      if h > MAX_PART_HEADER_SIZE then Err(HeadersTooLarge) else
      match HeaderLines(rest[..h], 0, None)
      case Err(e) => Err(e)
      case Ok(d) =>
        match Find(rest, Delimiter(boundary), h + 4)
        case None => Err(TruncatedBody)
        case Some(n) => Ok(Part(d, h + 4, n))
  }

  /** The parts of `rest`, the text after a delimiter line, when `room` more entries are
      allowed. */
  function PartsOf(rest: string, boundary: string, room: nat): (r: Result<seq<Entry>>)
    ensures r.Ok? ==> 0 < |r.value| <= room
    decreases |rest|
  {
    match PartAt(rest, boundary)
    case Err(e) => Err(e)
    case Ok(part) =>
      if room == 0 then Err(MaxKeysExceeded) else
      var entry := EntryOf(part.disposition, rest[part.start..part.end]);
      var q := part.end + 4 + |boundary|;
      if OccursAt(rest, "--", q) then Ok([entry])
      else if !OccursAt(rest, "\r\n", q) then Err(MalformedBoundaryLine)
      else Continue([entry], PartsOf(rest[q + 2..], boundary, room - 1))
  }

  function MultipartOf(body: string, boundary: string, maxKeys: nat): (r: Result<seq<Entry>>)
    ensures r.Ok? ==> |r.value| <= maxKeys
  {
    match Find(body, "--" + boundary, 0)
    case None => Err(MalformedBody)
    case Some(m) =>
      var p := m + 2 + |boundary|;
      if OccursAt(body, "--", p) then Ok([])
      else if !OccursAt(body, "\r\n", p) then Err(MalformedBoundaryLine)
      else PartsOf(body[p + 2..], boundary, maxKeys)
  }

  /** What a run that has already collected `done` will return. */
  function Continue(done: seq<Entry>, r: Result<seq<Entry>>): Result<seq<Entry>> {
    match r case Err(e) => Err(e) case Ok(entries) => Ok(done + entries)
  }

  // The delimiter scan

  /** CRLF "--" cannot overlap itself: no delimiter starts at a false start or in the
      three bytes after it. */
  lemma NoDelimiterAtFalseStart(s: string, boundary: string, from: nat, next: nat)
    requires from <= |s| && Find(s, "\r\n--", from) == Some(next)
    requires !OccursAt(s, boundary, next + 4)
    ensures next + 4 <= |s| && NoneIn(s, Delimiter(boundary), from, next + 4)
  {
    FindIsFirst(s, "\r\n--", from);
    var pat := Delimiter(boundary);
    forall i: nat | from <= i < next + 4 ensures !OccursAt(s, pat, i) {
      if OccursAt(s, pat, i) {
        DelimiterParts(s, boundary, i);
      }
      OccursAtByte(s, pat, i, 0);
      if next < i {
        OccursAtByte(s, "\r\n--", next, i - next);
      }
    }
  }

  lemma DelimiterParts(s: string, boundary: string, i: nat)
    ensures OccursAt(s, Delimiter(boundary), i)
       <==> OccursAt(s, "\r\n--", i) && OccursAt(s, boundary, i + 4)
  {
    if i + 4 + |boundary| <= |s| {
      assert s[i..i + 4 + |boundary|] == s[i..i + 4] + s[i + 4..i + 4 + |boundary|];
      assert Delimiter(boundary)[..4] == "\r\n--" && Delimiter(boundary)[4..] == boundary;
    }
  }

  lemma NoDelimiterWithoutStart(s: string, boundary: string, from: nat)
    requires from <= |s| && Find(s, "\r\n--", from).None?
    ensures Find(s, Delimiter(boundary), from).None?
  {
    FindIsFirst(s, "\r\n--", from);
    FindIsFirst(s, Delimiter(boundary), from);
    var r := Find(s, Delimiter(boundary), from);
    if r.Some? {
      DelimiterParts(s, boundary, r.value);
    }
  }

  /** The two-stage scan: look for CRLF "--", compare the boundary after it, and on a
      mismatch go on four bytes later. It finds the first whole delimiter. */
  method ScanDelimiter(s: string, from: nat, boundary: string) returns (r: Option<nat>)
    requires from <= |s|
    ensures r == Find(s, Delimiter(boundary), from)
  {
    hide Find, Delimiter;
    var scan := from;
    while true
      invariant from <= scan <= |s|
      invariant Find(s, Delimiter(boundary), from) == Find(s, Delimiter(boundary), scan)
      decreases |s| - scan
    {
      var next := Search(s, scan, "\r\n--");
      if next.None? {
        NoDelimiterWithoutStart(s, boundary, scan);
        return None;
      }
      var n := next.value;
      if n + 4 + |boundary| <= |s| && s[n + 4..n + 4 + |boundary|] == boundary {
        DelimiterIsHere(s, boundary, scan, n);
        return next;
      }
      DelimiterIsLater(s, boundary, scan, n);
      scan := n + 4;
    }
  }

  lemma {:induction false} DelimiterIsHere(s: string, boundary: string, scan: nat, n: nat)
    requires scan <= |s| && Find(s, "\r\n--", scan) == Some(n) && OccursAt(s, boundary, n + 4)
    ensures Find(s, Delimiter(boundary), scan) == Some(n)
  {
    hide Find, Delimiter;
    FindIsFirst(s, "\r\n--", scan);
    DelimiterParts(s, boundary, n);
    NoDelimiterBefore(s, boundary, scan, n);
    FindIs(s, Delimiter(boundary), scan, n);
  }

  lemma {:induction false} DelimiterIsLater(s: string, boundary: string, scan: nat, n: nat)
    requires scan <= |s| && Find(s, "\r\n--", scan) == Some(n) && !OccursAt(s, boundary, n + 4)
    ensures n + 4 <= |s| && Find(s, Delimiter(boundary), scan) == Find(s, Delimiter(boundary), n + 4)
  {
    hide Find, Delimiter;
    NoDelimiterAtFalseStart(s, boundary, scan, n);
    FindSkips(s, Delimiter(boundary), scan, n + 4);
  }

  lemma NoDelimiterBefore(s: string, boundary: string, from: nat, n: nat)
    requires NoneIn(s, "\r\n--", from, n)
    ensures NoneIn(s, Delimiter(boundary), from, n)
  {
    forall i: nat | from <= i < n ensures !OccursAt(s, Delimiter(boundary), i) {
      assert !OccursAt(s, "\r\n--", i);
      DelimiterParts(s, boundary, i);
    }
  }

  /** The close delimiter starts with the dash-boundary, so it is never found first: the
      guard that is meant to refuse such bodies only ever refuses bodies without any
      dash-boundary. */
  lemma CloseDelimiterIsNeverFirst(body: string, boundary: string)
    ensures var close := Find(body, "--" + boundary + "--", 0);
            var marker := Find(body, "--" + boundary, 0);
            close.Some? ==> marker.Some? && marker.value <= close.value
  {
    hide Find, OccursAt;
    FindIsFirst(body, "--" + boundary + "--", 0);
    FindIsFirst(body, "--" + boundary, 0);
    var close := Find(body, "--" + boundary + "--", 0);
    if close.Some? {
      OccursShorter(body, "--" + boundary, "--", close.value);
    }
  }

  lemma OccursShorter(s: string, pat: string, more: string, k: nat)
    requires OccursAt(s, pat + more, k)
    ensures OccursAt(s, pat, k)
  {
    assert s[k..k + |pat|] == s[k..k + |pat + more|][..|pat|];
  }

  // The parser

  /** One part: its header block, then the delimiter that ends it. */
  method ParsePart(body: string, p: nat, boundary: string) returns (r: Result<Part>)
    requires p <= |body|
    ensures r == PartAt(body[p..], boundary)
  {
    hide HeaderLines, Find, Delimiter;
    var headersEnd := Search(body, p, "\r\n\r\n");
    FindInSuffix(body, "\r\n\r\n", p, p);
    if headersEnd.None? {
      return Err(MissingHeaderSeparator);
    }
    var h := headersEnd.value;
    if h - p > MAX_PART_HEADER_SIZE {
      return Err(HeadersTooLarge);
    }
    assert body[p..][..h - p] == body[p..h];
    var d := ParsePartHeaders(body[p..h]);
    if d.Err? {
      return Err(d.error);
    }
    var next := ScanDelimiter(body, h + 4, boundary);
    FindInSuffix(body, Delimiter(boundary), h + 4, p);
    if next.None? {
      return Err(TruncatedBody);
    }
    return Ok(Part(d.value, h + 4 - p, next.value - p));
  }

  lemma ContinueNothing(r: Result<seq<Entry>>)
    ensures Continue([], r) == r
  {
    if r.Ok? {
      assert [] + r.value == r.value;
    }
  }

  /** One turn of the part loop, in terms of positions in the whole body. */
  lemma {:induction false} PartsOfTurn(done: seq<Entry>, body: string, p: nat, boundary: string, room: nat)
    requires p <= |body| && room > 0 && PartAt(body[p..], boundary).Ok?
    ensures var part := PartAt(body[p..], boundary).value;
            var entry := EntryOf(part.disposition, body[p + part.start..p + part.end]);
            var q := p + part.end + 4 + |boundary|;
            Continue(done, PartsOf(body[p..], boundary, room)) ==
            if OccursAt(body, "--", q) then Ok(done + [entry])
            else if !OccursAt(body, "\r\n", q) then Err(MalformedBoundaryLine)
            else Continue(done + [entry], PartsOf(body[q + 2..], boundary, room - 1))
  {
    hide PartAt, EntryOf, OccursAt;
    var rest := body[p..];
    var part := PartAt(rest, boundary).value;
    SliceInSuffix(body, p, part.start, part.end);
    var entry := EntryOf(part.disposition, rest[part.start..part.end]);
    var q := part.end + 4 + |boundary|;
    OccursInSuffix(body, "--", p, q);
    OccursInSuffix(body, "\r\n", p, q);
    PartsOfStep(rest, boundary, room);
    if !OccursAt(rest, "--", q) && OccursAt(rest, "\r\n", q) {
      SliceInSuffix(body, p, q + 2, q + 2);
      ContinueTwice(done, entry, PartsOf(rest[q + 2..], boundary, room - 1));
    }
  }

  /** The reference, unfolded once. */
  lemma {:induction false} PartsOfStep(rest: string, boundary: string, room: nat)
    requires room > 0 && PartAt(rest, boundary).Ok?
    ensures var part := PartAt(rest, boundary).value;
            var entry := EntryOf(part.disposition, rest[part.start..part.end]);
            var q := part.end + 4 + |boundary|;
            PartsOf(rest, boundary, room) ==
            if OccursAt(rest, "--", q) then Ok([entry])
            else if !OccursAt(rest, "\r\n", q) then Err(MalformedBoundaryLine)
            else assert q + 2 <= |rest|; Continue([entry], PartsOf(rest[q + 2..], boundary, room - 1))
  {
    hide PartAt, EntryOf;
  }

  lemma ContinueTwice(done: seq<Entry>, entry: Entry, r: Result<seq<Entry>>)
    ensures Continue(done, Continue([entry], r)) == Continue(done + [entry], r)
  {
    if r.Ok? {
      assert done + ([entry] + r.value) == done + [entry] + r.value;
    }
  }

  /** How a turn of the part loop ends the run. */
  lemma PartsOfStops(done: seq<Entry>, rest: string, boundary: string, room: nat)
    ensures var part := PartAt(rest, boundary);
            var r := Continue(done, PartsOf(rest, boundary, room));
            && (part.Err? ==> r == Err(part.error))
            && (part.Ok? && room == 0 ==> r == Err(MaxKeysExceeded))
  {
    hide PartAt;
  }

  /** What a run that has collected `done` and stands at `p` will return. */
  function PartsFrom(done: seq<Entry>, body: string, p: nat, boundary: string, room: nat): Result<seq<Entry>>
    requires p <= |body|
  {
    Continue(done, PartsOf(body[p..], boundary, room))
  }

  lemma {:induction false} PartsFromStop(done: seq<Entry>, body: string, p: nat, boundary: string, room: nat)
    requires p <= |body|
    ensures var part, r := PartAt(body[p..], boundary), PartsFrom(done, body, p, boundary, room);
            (part.Err? ==> r == Err(part.error)) && (part.Ok? && room == 0 ==> r == Err(MaxKeysExceeded))
  {
    PartsOfStops(done, body[p..], boundary, room);
  }

  lemma {:induction false} PartsFromTurn(done: seq<Entry>, body: string, p: nat, boundary: string, room: nat)
    requires p <= |body| && room > 0 && PartAt(body[p..], boundary).Ok?
    ensures var part := PartAt(body[p..], boundary).value;
            var entry := EntryOf(part.disposition, body[p + part.start..p + part.end]);
            var q := p + part.end + 4 + |boundary|;
            PartsFrom(done, body, p, boundary, room) ==
            if q + 2 > |body| then Err(MalformedBoundaryLine)
            else if body[q..q + 2] == "--" then Ok(done + [entry])
            else if body[q..q + 2] != "\r\n" then Err(MalformedBoundaryLine)
            else PartsFrom(done + [entry], body, q + 2, boundary, room - 1)
  {
    hide PartAt, PartsOf, Continue, EntryOf;
    PartsOfTurn(done, body, p, boundary, room);
  }

  lemma NoEntriesNoFiles()
    ensures !HasFiles([])
  {
  }

  lemma HasFilesAppend(entries: seq<Entry>, entry: Entry)
    ensures HasFiles(entries + [entry]) <==> HasFiles(entries) || entry.isFile
  {
    var all := entries + [entry];
    assert all[|entries|] == entry;
    if HasFiles(entries) {
      var i :| 0 <= i < |entries| && entries[i].isFile;
      assert all[i].isFile;
    }
  }

  /** The result of a parse: the entries in the order of the body, and whether any of
      them is a file. */
  class Form {
    var entries: seq<Entry>
    var hasFiles: bool

    constructor ()
      ensures entries == [] && !hasFiles
    {
      entries, hasFiles := [], false;
    }

    /** Appends an entry unless that would exceed `maxKeys`. */
    method AddEntry(entry: Entry, count: nat, maxKeys: nat) returns (r: Result<nat>)
      modifies this`entries
      ensures r == if count + 1 > maxKeys then Err(MaxKeysExceeded) else Ok(count + 1)
      ensures entries == if r.Ok? then old(entries) + [entry] else old(entries)
    {
      if count + 1 > maxKeys {
        return Err(MaxKeysExceeded);
      }
      entries := entries + [entry];
      return Ok(count + 1);
    }

    /** Adds the entry of one part: a file keeps no value but flags the form. */
    method AddPart(d: Disposition, value: string, count: nat, maxKeys: nat)
      returns (r: Result<nat>)
      modifies this
      ensures r == if count + 1 > maxKeys then Err(MaxKeysExceeded) else Ok(count + 1)
      ensures r.Ok? ==> entries == old(entries) + [EntryOf(d, value)]
      ensures r.Ok? ==> IsEntry(entries[|old(entries)|], d, value)
      ensures hasFiles == (old(hasFiles) || d.file.Some?)
    {
      var entry;
      if d.file.Some? {
        entry := Entry(d.name, "", d.file, true);
        hasFiles := true;
      } else {
        entry := Entry(d.name, value, Some(""), false);
      }
      r := AddEntry(entry, count, maxKeys);
    }

    /** The multipart parser. It returns what the reference returns, leaves the entries
        in the form, and flags the form exactly when one of them is a file. */
    method ParseMultipart(body: string, boundary: string, maxKeys: nat) returns (r: Result<()>)
      requires entries == [] && !hasFiles
      modifies this
      ensures r == match MultipartOf(body, boundary, maxKeys)
                   case Err(e) => Err(e)
                   case Ok(_) => Ok(())
      ensures r.Ok? ==> entries == MultipartOf(body, boundary, maxKeys).value
      ensures r.Ok? ==> hasFiles == HasFiles(entries)
    {
      hide PartsOf, HasFiles, Find;
      NoEntriesNoFiles();
      var close := Search(body, 0, "--" + boundary + "--");
      var marker := Search(body, 0, "--" + boundary);
      CloseDelimiterIsNeverFirst(body, boundary);
      if marker.None? || (close.Some? && close.value < marker.value) {
        return Err(MalformedBody);
      }
      var p := marker.value + 2 + |boundary|;
      if p + 2 <= |body| && body[p..p + 2] == "--" {
        return Ok(());
      }
      if p + 2 > |body| || body[p..p + 2] != "\r\n" {
        return Err(MalformedBoundaryLine);
      }
      r := ParseParts(body, p + 2, boundary, maxKeys);
    }

    method ParseParts(body: string, start: nat, boundary: string, maxKeys: nat)
      returns (r: Result<()>)
      requires entries == [] && !hasFiles && start <= |body|
      modifies this
      ensures r == match PartsOf(body[start..], boundary, maxKeys)
                   case Err(e) => Err(e)
                   case Ok(_) => Ok(())
      ensures r.Ok? ==> entries == PartsOf(body[start..], boundary, maxKeys).value
      ensures r.Ok? ==> hasFiles == HasFiles(entries)
    {
      hide PartAt, PartsOf, PartsFrom, HasFiles, EntryOf, IsEntry;
      var p, count := start, 0;
      PartsFromStart(body, start, boundary, maxKeys);
      NoEntriesNoFiles();
      while true
        invariant start <= p <= |body| && count == |entries| <= maxKeys
        invariant PartsOf(body[start..], boundary, maxKeys) == PartsFrom(entries, body, p, boundary, maxKeys - count)
        invariant hasFiles == HasFiles(entries)
        decreases |body| - p
      {
        PartsFromStop(entries, body, p, boundary, maxKeys - count);
        var parsed := ParsePart(body, p, boundary);
        if parsed.Err? {
          return Err(parsed.error);
        }
        var part := parsed.value;
        var value := body[p + part.start..p + part.end];
        FileOfEntry(part.disposition, value);
        HasFilesAppend(entries, EntryOf(part.disposition, value));
        if count < maxKeys {
          PartsFromTurn(entries, body, p, boundary, maxKeys - count);
        }
        var added := AddPart(part.disposition, value, count, maxKeys);
        if added.Err? {
          return Err(added.error);
        }
        count := added.value;
        var q := p + part.end + 4 + |boundary|;
        if q + 2 <= |body| && body[q..q + 2] == "--" {
          return Ok(());
        }
        if q + 2 > |body| || body[q..q + 2] != "\r\n" {
          return Err(MalformedBoundaryLine);
        }
        p := q + 2;
      }
    }
  }

  lemma PartsFromStart(body: string, start: nat, boundary: string, room: nat)
    requires start <= |body|
    ensures PartsFrom([], body, start, boundary, room) == PartsOf(body[start..], boundary, room)
  {
    ContinueNothing(PartsOf(body[start..], boundary, room));
  }
}
