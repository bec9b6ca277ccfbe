/** The header blocks the parser accepts: lines within the limits, one of which is a
    disposition. */
module FormHeaderGrammar {
  import opened Text
  import opened FormParams
  import opened FormHeaders
  import opened FormDisposition

  /** The lines of a header block. */
  function Lines(h: string): seq<string>
    decreases |h|
  {
    if h == "" then []
    else
      var end := LineEnd(h);
      [h[..end]] + Lines(if end == |h| then "" else h[end + 2..])
  }

  predicate IsDispositionLine(line: string) {
    var colon := Scan(line, 0, IsColon);
    colon < |line| && SameNoCase(line[..colon], "Content-Disposition")
  }

  predicate IsHeaderLine(line: string) {
    |line| <= MAX_PART_HEADER_LINE && ':' in line
  }

  /** The one line of `ls` that is a disposition is at `i`. */
  predicate OnlyDispositionAt(ls: seq<string>, i: nat) {
    && i < |ls| && IsDispositionLine(ls[i])
    && forall k :: 0 <= k < |ls| && k != i ==> !IsDispositionLine(ls[k])
  }

  function DispositionValue(line: string): string
    requires IsDispositionLine(line)
  {
    TrimEnd(line[SkipOws(line, Scan(line, 0, IsColon) + 1)..])
  }

  predicate HeadersFit(ls: seq<string>, count: nat) {
    count + |ls| <= MAX_PART_HEADERS && forall i :: 0 <= i < |ls| ==> IsHeaderLine(ls[i])
  }

  ghost predicate Declares(ls: seq<string>, d: Disposition) {
    exists i: nat :: OnlyDispositionAt(ls, i) && IsDisposition(DispositionValue(ls[i]), d)
  }

  lemma {:induction false} HeaderFieldIs(line: string, seen: Option<Disposition>)
    ensures HeaderField(line, seen) ==
            if ':' !in line then Err(MalformedHeader)
            else if !IsDispositionLine(line) then Ok(seen)
            else if seen.Some? then Err(DuplicateDisposition)
            else match DispositionOf(DispositionValue(line)) case Err(e) => Err(e) case Ok(d) => Ok(Some(d))
  {
    hide DispositionOf, SkipOws, TrimEnd, SameNoCase;
    ScanIsFirst(line, 0, IsColon);
  }

  lemma {:induction false} HeaderStep(h: string, count: nat, seen: Option<Disposition>)
    requires h != ""
    ensures Lines(h) != []
    ensures var rest := if LineEnd(h) == |h| then "" else h[LineEnd(h) + 2..];
            && Lines(h)[1..] == Lines(rest) && |rest| < |h|
            && if |Lines(h)[0]| <= MAX_PART_HEADER_LINE && count < MAX_PART_HEADERS
                  && HeaderField(Lines(h)[0], seen).Ok?
               then HeaderLines(h, count, seen)
                 == HeaderLines(rest, count + 1, HeaderField(Lines(h)[0], seen).value)
               else HeaderLines(h, count, seen).Err?
  {
    hide HeaderField, LineEnd;
  }

  predicate NoDisposition(ls: seq<string>) {
    forall k :: 0 <= k < |ls| ==> !IsDispositionLine(ls[k])
  }

  lemma {:induction false} FitStep(ls: seq<string>, count: nat)
    requires ls != []
    ensures HeadersFit(ls, count) <==>
            count < MAX_PART_HEADERS && IsHeaderLine(ls[0]) && HeadersFit(ls[1..], count + 1)
    ensures NoDisposition(ls) <==> !IsDispositionLine(ls[0]) && NoDisposition(ls[1..])
  {
    hide IsHeaderLine, IsDispositionLine;
    assert forall k :: 1 <= k < |ls| ==> ls[k] == ls[1..][k - 1];
    assert forall k :: 0 <= k < |ls[1..]| ==> ls[1..][k] == ls[k + 1];
  }

  lemma {:induction false} DeclaresStep(ls: seq<string>, d: Disposition)
    requires ls != []
    ensures Declares(ls, d) <==>
            if IsDispositionLine(ls[0]) then IsDisposition(DispositionValue(ls[0]), d) && NoDisposition(ls[1..])
            else Declares(ls[1..], d)
  {
    hide IsDispositionLine, IsDisposition, DispositionValue;
    assert forall k :: 1 <= k < |ls| ==> ls[k] == ls[1..][k - 1];
    assert forall k :: 0 <= k < |ls[1..]| ==> ls[1..][k] == ls[k + 1];
    if IsDispositionLine(ls[0]) {
      assert NoDisposition(ls[1..]) <==> OnlyDispositionAt(ls, 0);
    } else {
      forall i: nat | i < |ls[1..]| ensures OnlyDispositionAt(ls, i + 1) <==> OnlyDispositionAt(ls[1..], i) {
      }
      if Declares(ls, d) {
        var i: nat :| OnlyDispositionAt(ls, i) && IsDisposition(DispositionValue(ls[i]), d);
        assert OnlyDispositionAt(ls[1..], i - 1);
      }
    }
  }

  lemma {:induction false} NoHeaders(count: nat, seen: Disposition, d: Disposition)
    requires count <= MAX_PART_HEADERS
    ensures HeaderLines("", count, None).Err? && HeaderLines("", count, Some(seen)) == Ok(seen)
    ensures !Declares(Lines(""), d) && HeadersFit(Lines(""), count) && NoDisposition(Lines(""))
  {
  }

  lemma {:induction false} ShortWithColon(line: string)
    ensures IsHeaderLine(line) <==> |line| <= MAX_PART_HEADER_LINE && ':' in line
  {
  }

  /** After the disposition only other headers may follow. */
  lemma {:induction false} LaterHeadersReadIff(h: string, count: nat, seen: Disposition, d: Disposition)
    requires count <= MAX_PART_HEADERS
    ensures HeaderLines(h, count, Some(seen)) == Ok(d) <==>
            HeadersFit(Lines(h), count) && d == seen && NoDisposition(Lines(h))
    decreases |h|
  {
    hide *;
    if h == "" {
      NoHeaders(count, seen, d);
    } else {
      HeaderStep(h, count, Some(seen));
      HeaderFieldIs(Lines(h)[0], Some(seen));
      FitStep(Lines(h), count);
      ShortWithColon(Lines(h)[0]);
      if count < MAX_PART_HEADERS {
        LaterHeadersReadIff(if LineEnd(h) == |h| then "" else h[LineEnd(h) + 2..], count + 1, seen, d);
      }
    }
  }

  /** A header block is accepted exactly when its lines are within the limits, each has a
      colon and one alone is a disposition, which then says what the part is. */
  lemma {:induction false} HeadersReadIff(h: string, count: nat, d: Disposition)
    requires count <= MAX_PART_HEADERS
    ensures HeaderLines(h, count, None) == Ok(d) <==> HeadersFit(Lines(h), count) && Declares(Lines(h), d)
    decreases |h|
  {
    hide *;
    if h == "" {
      NoHeaders(count, d, d);
    } else {
      HeaderStep(h, count, None);
      var first := Lines(h)[0];
      var rest := if LineEnd(h) == |h| then "" else h[LineEnd(h) + 2..];
      HeaderFieldIs(first, None);
      FitStep(Lines(h), count);
      DeclaresStep(Lines(h), d);
      ShortWithColon(first);
      if count < MAX_PART_HEADERS {
        HeadersReadIff(rest, count + 1, d);
        if IsDispositionLine(first) {
          DispositionReadIff(DispositionValue(first), d);
          if DispositionOf(DispositionValue(first)).Ok? {
            LaterHeadersReadIff(rest, count + 1, DispositionOf(DispositionValue(first)).value, d);
          }
        }
      }
    }
  }

  // Lines and values, said without scanning

  /** `line` is a header with this name, up to case, and this value, without the blanks around
      it. */
  predicate IsHeader(line: string, name: string, k: nat, a: nat, b: nat, value: string) {
    && k < |line| && line[k] == ':' && ':' !in line[..k] && SameNoCase(line[..k], name)
    && IsTrimmed(line, k + 1, a, b) && value == line[a..b]
  }

  ghost predicate HasHeader(line: string, name: string, value: string) {
    exists k: nat, a: nat, b: nat :: IsHeader(line, name, k, a, b, value)
  }

  lemma {:induction false} HeaderIff(line: string, value: string)
    ensures HasHeader(line, "Content-Disposition", value)
       <==> IsDispositionLine(line) && value == DispositionValue(line)
  {
    hide TrimEnd, SkipOws, SameNoCase, Scan, IsTrimmed;
    var c := Scan(line, 0, IsColon);
    ScanIsFirst(line, 0, IsColon);
    if IsDispositionLine(line) && value == DispositionValue(line) {
      var a, b := TrimmedExists(line, c + 1);
      TrimmedIs(line, c + 1, a, b);
      assert ':' !in line[..c];
      TrimBounds(line, c + 1, a, b);
      assert IsHeader(line, "Content-Disposition", c, a, b, value);
    }
    if HasHeader(line, "Content-Disposition", value) {
      var k: nat, a: nat, b: nat :| IsHeader(line, "Content-Disposition", k, a, b, value);
      FirstColon(line, k);
      TrimmedIs(line, k + 1, a, b);
    }
  }

  lemma TrimBounds(t: string, from: nat, a: nat, b: nat)
    requires IsTrimmed(t, from, a, b)
    ensures from <= a <= b <= |t|
  {
  }

  lemma {:induction false} FirstColon(line: string, k: nat)
    requires k < |line| && line[k] == ':' && ':' !in line[..k]
    ensures Scan(line, 0, IsColon) == k
  {
    forall i | 0 <= i < k ensures line[i] != ':' {
      assert line[i] == line[..k][i];
    }
    ScanIs(line, 0, IsColon, k);
  }

  lemma {:induction false} NoHeaderNoDisposition(line: string)
    requires forall w :: !HasHeader(line, "Content-Disposition", w)
    ensures !IsDispositionLine(line)
  {
    hide HasHeader, IsDispositionLine, DispositionValue;
    if IsDispositionLine(line) {
      HeaderIff(line, DispositionValue(line));
    }
  }

  /** Exactly one of the lines is a disposition, and it says `d`. */
  ghost predicate Says(ls: seq<string>, d: Disposition) {
    exists i: nat, v :: SaysAt(ls, i, v, d)
  }

  ghost predicate SaysAt(ls: seq<string>, i: nat, v: string, d: Disposition) {
    && i < |ls| && HasHeader(ls[i], "Content-Disposition", v) && IsDisposition(v, d)
    && forall k, w :: 0 <= k < |ls| && k != i ==> !HasHeader(ls[k], "Content-Disposition", w)
  }

  lemma {:induction false} SaysIff(ls: seq<string>, d: Disposition)
    ensures Says(ls, d) <==> Declares(ls, d)
  {
    hide IsDispositionLine, DispositionValue, IsDisposition, HasHeader;
    forall k, v | 0 <= k < |ls|
      ensures HasHeader(ls[k], "Content-Disposition", v) <==> IsDispositionLine(ls[k]) && v == DispositionValue(ls[k])
    {
      HeaderIff(ls[k], v);
    }
    if Declares(ls, d) {
      var i: nat :| OnlyDispositionAt(ls, i) && IsDisposition(DispositionValue(ls[i]), d);
      assert SaysAt(ls, i, DispositionValue(ls[i]), d);
    }
    if Says(ls, d) {
      var i: nat, v :| SaysAt(ls, i, v, d);
      forall k | 0 <= k < |ls| && k != i ensures !IsDispositionLine(ls[k]) {
        NoHeaderNoDisposition(ls[k]);
      }
      assert OnlyDispositionAt(ls, i);
    }
  }

  /** `h` is a header block that says `d`. */
  ghost predicate IsHeaderBlock(h: string, d: Disposition) {
    |h| <= MAX_PART_HEADER_SIZE && HeadersFit(Lines(h), 0) && Says(Lines(h), d)
  }

  lemma {:induction false} HeaderBlockIff(h: string, d: Disposition)
    ensures IsHeaderBlock(h, d) <==> |h| <= MAX_PART_HEADER_SIZE && HeaderLines(h, 0, None) == Ok(d)
  {
    hide HeadersFit, Lines, Says, HeaderLines, Declares;
    HeadersReadIff(h, 0, d);
    SaysIff(Lines(h), d);
  }
}
