/** application/x-www-form-urlencoded bodies. */
module FormUrlencoded {
  import opened Text
  import opened FormParams
  import opened FormMultipart
  import opened Hex

  predicate IsAmp(c: char) { c == '&' }

  predicate IsEq(c: char) { c == '=' }

  /** `s` starts with a percent sign and two hexadecimal digits. */
  predicate StartsEscaped(s: string) {
    |s| >= 3 && IsEscape(s[0] as int, s[1] as int, s[2] as int)
  }

  function EscapedByte(s: string): char
    requires StartsEscaped(s)
  {
    EscapeValue(s[1] as int, s[2] as int) as char
  }

  predicate WellFormed(s: string) {
    s == "" ||
    if s[0] == '%' then StartsEscaped(s) && WellFormed(s[3..]) else WellFormed(s[1..])
  }

  function Decoded(s: string): (r: string)
    requires WellFormed(s)
    ensures |r| <= |s|
  {
    if s == "" then ""
    else if s[0] == '%' then [EscapedByte(s)] + Decoded(s[3..])
    else [if s[0] == '+' then ' ' else s[0]] + Decoded(s[1..])
  }

  /** The non-empty pieces of `body` between ampersands. */
  function Segments(body: string): seq<string> {
    if body == "" then []
    else if body[0] == '&' then Segments(body[1..])
    else
      var a := Scan(body, 0, IsAmp);
      [body[..a]] + (if a == |body| then [] else Segments(body[a + 1..]))
  }

  function NamePart(segment: string): string { segment[..Scan(segment, 0, IsEq)] }

  /** What follows the first "=", or nothing when there is none. */
  function ValuePart(segment: string): string {
    var e := Scan(segment, 0, IsEq);
    if e == |segment| then "" else segment[e + 1..]
  }

  predicate SegmentOk(segment: string) {
    WellFormed(NamePart(segment)) && WellFormed(ValuePart(segment))
  }

  function SegmentEntry(segment: string): Entry
    requires SegmentOk(segment)
  {
    Entry(Decoded(NamePart(segment)), Decoded(ValuePart(segment)), None, false)
  }

  /** Reads the segments in order; the first bad one, or the first one too many, stops. */
  function ReadSegments(segments: seq<string>, room: nat): Result<seq<Entry>> {
    if segments == [] then Ok([])
    else if !SegmentOk(segments[0]) then Err(MalformedPercentEscape)
    else if room == 0 then Err(MaxKeysExceeded)
    else Continue([SegmentEntry(segments[0])], ReadSegments(segments[1..], room - 1))
  }

  /** A body is accepted exactly when every non-empty segment has well-formed escapes and
      there are no more of them than `maxKeys`; its entries are then the decoded pairs of
      the segments, in order. */
  lemma {:induction false} AcceptedIff(segments: seq<string>, maxKeys: nat)
    ensures ReadSegments(segments, maxKeys).Ok? <==>
              |segments| <= maxKeys && forall i :: 0 <= i < |segments| ==> SegmentOk(segments[i])
    ensures ReadSegments(segments, maxKeys).Ok? ==>
              var entries := ReadSegments(segments, maxKeys).value;
              && |entries| == |segments|
              && forall i :: 0 <= i < |segments| ==> SegmentOk(segments[i]) && entries[i] == SegmentEntry(segments[i])
  {
    hide SegmentOk, SegmentEntry;
    if segments != [] && SegmentOk(segments[0]) && maxKeys > 0 {
      AcceptedIff(segments[1..], maxKeys - 1);
      var r := ReadSegments(segments, maxKeys);
      forall i | 0 < i < |segments| ensures segments[i] == segments[1..][i - 1] {}
      if r.Ok? {
        var rest := ReadSegments(segments[1..], maxKeys - 1).value;
        forall i | 0 < i < |segments| ensures r.value[i] == rest[i - 1] {}
      }
    }
  }

  /** An urlencoded body never holds a file. */
  lemma UrlencodedHasNoFiles(body: string, maxKeys: nat)
    requires UrlencodedOf(body, maxKeys).Ok?
    ensures !HasFiles(UrlencodedOf(body, maxKeys).value)
  {
    hide Segments, SegmentOk;
    AcceptedIff(Segments(body), maxKeys);
  }

  // What decoding means

  /** `t` is written for `s`: a byte stands for itself, a plus for a space, and an escape with
      digits of either case for the byte it spells. */
  predicate IsWrittenFor(t: string, s: string) {
    if t == "" then s == ""
    else if s == "" then false
    else if t[0] == '%' then
      && |t| >= 3 && Spells(t[0] as int, t[1] as int, t[2] as int, s[0] as int)
      && IsWrittenFor(t[3..], s[1..])
    else s[0] == (if t[0] == '+' then ' ' else t[0]) && IsWrittenFor(t[1..], s[1..])
  }

  /** A text decodes to `s` exactly when it is written for `s`. */
  lemma {:induction false} DecodedIff(t: string, s: string)
    ensures WellFormed(t) && Decoded(t) == s <==> IsWrittenFor(t, s)
  {
    hide HexValue, Spells;
    if t != "" {
      var n := if t[0] == '%' then 3 else 1;
      if t[0] == '%' && |t| >= 3 && s != "" {
        EscapeIff(t[0] as int, t[1] as int, t[2] as int, s[0] as int);
      }
      if s != "" && n <= |t| {
        DecodedIff(t[n..], s[1..]);
        assert s == [s[0]] + s[1..];
        if WellFormed(t) {
          var d := Decoded(t);
          assert d[1..] == Decoded(t[n..]);
        }
      }
    }
  }

  /** What one byte, or one escape, at `p` contributes. */
  lemma {:induction false} DecodeTurn(s: string, p: nat)
    requires p < |s|
    ensures var n := if s[p] == '%' then 3 else 1;
            && (s[p] == '%' && !StartsEscaped(s[p..]) ==> !WellFormed(s[p..]))
            && (s[p] != '%' || StartsEscaped(s[p..]) ==>
                  && p + n <= |s|
                  && WellFormed(s[p..]) == WellFormed(s[p + n..])
                  && (WellFormed(s[p..]) ==>
                        Decoded(s[p..]) == [DecodedByte(s, p)] + Decoded(s[p + n..])))
  {
    hide HexValue;
    var n := if s[p] == '%' then 3 else 1;
    if p + n <= |s| {
      assert s[p..][n..] == s[p + n..];
    }
  }

  function DecodedByte(s: string, p: nat): char
    requires p < |s| && (s[p] == '%' ==> StartsEscaped(s[p..]))
  {
    if s[p] == '%' then EscapedByte(s[p..]) else if s[p] == '+' then ' ' else s[p]
  }

  /** Decodes into a buffer one byte longer than its input. Every write, and the NUL at
      the end, falls inside the buffer. */
  method Decode(s: string) returns (r: Result<string>)
    ensures r == if WellFormed(s) then Ok(Decoded(s)) else Err(MalformedPercentEscape)
  {
    hide WellFormed, Decoded, HexValue;
    var out := new char[|s| + 1];
    var p, d := 0, 0;
    assert s[0..] == s;
    NothingToDecode();
    while p < |s|
      invariant d <= p <= |s|
      invariant WellFormed(s) == WellFormed(s[p..])
      invariant WellFormed(s) ==> Decoded(s) == out[..d] + Decoded(s[p..])
    {
      DecodeTurn(s, p);
      var c, n := s[p], 1;
      if s[p] == '+' {
        c := ' ';
      } else if s[p] == '%' {
        if p + 2 >= |s| {
          return Err(MalformedPercentEscape);
        }
        var high, low := HexValue(s[p + 1] as int), HexValue(s[p + 2] as int);
        if high < 0 || low < 0 {
          return Err(MalformedPercentEscape);
        }
        c, n := (16 * high + low) as char, 3;
      }
      assert c == DecodedByte(s, p);
      if WellFormed(s) {
        AppendOne(out[..d], c, Decoded(s[p + n..]));
      }
      ghost var before := out[..d];
      out[d] := c;
      assert out[..d + 1] == before + [c];
      p, d := p + n, d + 1;
    }
    assert s[p..] == "" && out[..d] + "" == out[..d];
    ghost var text := out[..d];
    out[d] := '\0';
    assert out[..d] == text;
    r := Ok(out[..d]);
  }

  lemma NothingToDecode()
    ensures WellFormed("") && Decoded("") == ""
  {
  }

  method ParseSegment(segment: string) returns (r: Result<Entry>)
    ensures r == if SegmentOk(segment) then Ok(SegmentEntry(segment)) else Err(MalformedPercentEscape)
  {
    hide WellFormed, Decoded;
    var eq := 0;
    while eq < |segment| && segment[eq] != '='
      invariant eq <= |segment|
      invariant Scan(segment, 0, IsEq) == Scan(segment, eq, IsEq)
    {
      eq := eq + 1;
    }
    var name := Decode(segment[..eq]);
    if name.Err? {
      return Err(name.error);
    }
    assert segment[|segment|..] == "";
    if eq < |segment| {
      eq := eq + 1;
    }
    var value := Decode(segment[eq..]);
    if value.Err? {
      return Err(value.error);
    }
    return Ok(Entry(name.value, value.value, None, false));
  }

  function UrlencodedOf(body: string, maxKeys: nat): Result<seq<Entry>> {
    ReadSegments(Segments(body), maxKeys)
  }

  lemma SegmentsTurn(body: string, p: nat)
    requires p < |body|
    ensures var a := Scan(body, p, IsAmp);
            Segments(body[p..]) ==
            if body[p] == '&' then Segments(body[p + 1..])
            else [body[p..a]] + (if a == |body| then [] else Segments(body[a + 1..]))
  {
    var rest, a := body[p..], Scan(body, p, IsAmp);
    assert rest[1..] == body[p + 1..];
    ScanIsFirst(body, p, IsAmp);
    ScanIs(rest, 0, IsAmp, a - p);
    assert rest[..a - p] == body[p..a];
    if a < |body| {
      assert rest[a - p + 1..] == body[a + 1..];
    }
  }

  /** What a run that has collected `done` and stands at `p` will return. */
  function Rest(done: seq<Entry>, body: string, p: nat, room: nat): Result<seq<Entry>> {
    Continue(done, ReadSegments(Segments(if p <= |body| then body[p..] else ""), room))
  }

  lemma {:induction false} RestAtAmp(done: seq<Entry>, body: string, p: nat, room: nat)
    requires p < |body| && body[p] == '&'
    ensures Rest(done, body, p, room) == Rest(done, body, p + 1, room)
  {
    hide Segments, ReadSegments, Continue;
    SegmentsTurn(body, p);
  }

  lemma {:induction false} RestAtEnd(done: seq<Entry>, body: string, p: nat, room: nat)
    requires p >= |body|
    ensures Rest(done, body, p, room) == Ok(done)
  {
    assert p == |body| ==> body[p..] == "";
    assert done + [] == done;
  }

  lemma {:induction false} RestAtSegment(done: seq<Entry>, body: string, p: nat, amp: nat, room: nat)
    requires p < |body| && body[p] != '&' && amp == Scan(body, p, IsAmp)
    ensures var segment := body[p..amp];
            Rest(done, body, p, room) ==
            if !SegmentOk(segment) then Err(MalformedPercentEscape)
            else if room == 0 then Err(MaxKeysExceeded)
            else Rest(done + [SegmentEntry(segment)], body, amp + 1, room - 1)
  {
    hide Segments, ReadSegments, Continue, SegmentOk, SegmentEntry, Scan;
    SegmentsTurn(body, p);
    NoSegments();
    assert amp < |body| || [body[p..amp]] + [] == [body[p..amp]];
    assert amp + 1 == |body| ==> body[amp + 1..] == "";
    ReadSegmentsTurn(done, body[p..amp], Segments(if amp + 1 <= |body| then body[amp + 1..] else ""), room);
  }

  method ParseUrlencoded(form: Form, body: string, maxKeys: nat) returns (r: Result<()>)
    requires form.entries == []
    modifies form
    ensures form.hasFiles == old(form.hasFiles)
    ensures r == match UrlencodedOf(body, maxKeys)
                 case Err(e) => Err(e)
                 case Ok(_) => Ok(())
    ensures r.Ok? ==> form.entries == UrlencodedOf(body, maxKeys).value
  {
    hide SegmentOk, SegmentEntry, Rest, UrlencodedOf;
    var p, count := 0, 0;
    RestAtStart(body, maxKeys);
    while p < |body|
      invariant count == |form.entries| <= maxKeys && form.hasFiles == old(form.hasFiles)
      invariant UrlencodedOf(body, maxKeys) == Rest(form.entries, body, p, maxKeys - count)
      decreases |body| - p
    {
      if body[p] == '&' {
        RestAtAmp(form.entries, body, p, maxKeys - count);
        p := p + 1;
        continue;
      }
      var amp := p;
      while amp < |body| && body[amp] != '&'
        invariant p <= amp <= |body|
        invariant Scan(body, p, IsAmp) == Scan(body, amp, IsAmp)
      {
        amp := amp + 1;
      }
      RestAtSegment(form.entries, body, p, amp, maxKeys - count);
      var entry := ParseSegment(body[p..amp]);
      if entry.Err? {
        return Err(entry.error);
      }
      var added := form.AddEntry(entry.value, count, maxKeys);
      if added.Err? {
        return Err(added.error);
      }
      count := added.value;
      p := amp + 1;
      if amp == |body| {
        break;
      }
    }
    RestAtEnd(form.entries, body, p, maxKeys - count);
    return Ok(());
  }

  lemma {:induction false} RestAtStart(body: string, maxKeys: nat)
    ensures UrlencodedOf(body, maxKeys) == Rest([], body, 0, maxKeys)
  {
    hide Segments, ReadSegments;
    assert body[0..] == body;
    ContinueNothing(UrlencodedOf(body, maxKeys));
  }

  lemma NoSegments()
    ensures Segments("") == []
  {
  }

  lemma ReadSegmentsTurn(done: seq<Entry>, segment: string, rest: seq<string>, room: nat)
    ensures Continue(done, ReadSegments([segment] + rest, room)) ==
            if !SegmentOk(segment) then Err(MalformedPercentEscape)
            else if room == 0 then Err(MaxKeysExceeded)
            else Continue(done + [SegmentEntry(segment)], ReadSegments(rest, room - 1))
  {
    hide SegmentOk, SegmentEntry;
    assert ([segment] + rest)[1..] == rest;
    if SegmentOk(segment) && room > 0 {
      var e, r := SegmentEntry(segment), ReadSegments(rest, room - 1);
      assert r.Ok? ==> done + ([e] + r.value) == done + [e] + r.value;
    }
  }

  // Printing and reading back

  predicate IsAlphanumeric(c: char) {
    'a' <= c <= 'z' || 'A' <= c <= 'Z' || '0' <= c <= '9'
  }

  /** A letter or digit as it is, a space as "+", any other byte as an escape. */
  function EncodedByte(c: char): string
    requires c as int < 256
  {
    if IsAlphanumeric(c) then [c]
    else if c == ' ' then "+"
    else ['%', HexDigit(c as int / 16) as char, HexDigit(c as int % 16) as char]
  }

  function Encoded(s: string): string
    requires IsByteString(s)
  {
    if s == "" then "" else EncodedByte(s[0]) + Encoded(s[1..])
  }

  /** Every character stands for a byte. */
  predicate IsByteString(s: string) { forall i :: 0 <= i < |s| ==> s[i] as int < 256 }

  datatype Pair = Pair(name: string, value: string)

  predicate AllBytes(pairs: seq<Pair>) {
    forall i :: 0 <= i < |pairs| ==> IsByteString(pairs[i].name) && IsByteString(pairs[i].value)
  }

  function PairText(pair: Pair): string
    requires IsByteString(pair.name) && IsByteString(pair.value)
  {
    Encoded(pair.name) + "=" + Encoded(pair.value)
  }

  function PairsText(pairs: seq<Pair>): string
    requires AllBytes(pairs)
  {
    if pairs == [] then ""
    else if |pairs| == 1 then PairText(pairs[0])
    else PairText(pairs[0]) + "&" + PairsText(pairs[1..])
  }

  function PairEntries(pairs: seq<Pair>): seq<Entry> {
    seq(|pairs|, i requires 0 <= i < |pairs| => Entry(pairs[i].name, pairs[i].value, None, false))
  }

  lemma {:induction false} DecodeEncodedByte(c: char, more: string)
    requires c as int < 256 && WellFormed(more)
    ensures var e := EncodedByte(c) + more;
            WellFormed(e) && Decoded(e) == [c] + Decoded(more)
    ensures FreeOf(EncodedByte(c), '&', '=')
  {
    hide HexDigit, HexValue;
    var n, e := c as int, EncodedByte(c) + more;
    HexRoundTrip(n / 16);
    HexRoundTrip(n % 16);
    if IsAlphanumeric(c) || c == ' ' {
      assert e[1..] == more;
    } else {
      assert e[3..] == more;
      EscapeReadsBack(n);
    }
  }

  /** Encoded text decodes to the original and holds no separator. */
  lemma {:induction false} DecodeEncoded(s: string)
    requires IsByteString(s)
    ensures WellFormed(Encoded(s)) && Decoded(Encoded(s)) == s
    ensures FreeOf(Encoded(s), '&', '=')
  {
    hide EncodedByte;
    if s != "" {
      DecodeEncoded(s[1..]);
      DecodeEncodedByte(s[0], Encoded(s[1..]));
      assert s == [s[0]] + s[1..];
    }
  }

  lemma PairReadsBack(pair: Pair)
    requires IsByteString(pair.name) && IsByteString(pair.value)
    ensures var s := PairText(pair);
            && SegmentOk(s)
            && SegmentEntry(s) == Entry(pair.name, pair.value, None, false)
            && s != ""
            && forall i :: 0 <= i < |s| ==> s[i] != '&'
  {
    hide WellFormed, Decoded, Encoded;
    DecodeEncoded(pair.name);
    DecodeEncoded(pair.value);
    var s, e := PairText(pair), |Encoded(pair.name)|;
    ScanIs(s, 0, IsEq, e);
    assert s[..e] == Encoded(pair.name) && s[e + 1..] == Encoded(pair.value);
  }

  lemma SegmentsOfPrinted(segment: string, rest: string)
    requires segment != "" && forall i :: 0 <= i < |segment| ==> segment[i] != '&'
    ensures Segments(segment) == [segment]
    ensures Segments(segment + "&" + rest) == [segment] + Segments(rest)
  {
    ScanIs(segment, 0, IsAmp, |segment|);
    assert segment[..|segment|] == segment;
    var s := segment + "&" + rest;
    ScanIs(s, 0, IsAmp, |segment|);
    assert s[..|segment|] == segment && s[|segment| + 1..] == rest;
  }

  /** Any list of pairs of byte strings, printed, parses to the same pairs in order, or is
      refused when it is longer than `maxKeys`. */
  lemma {:induction false} UrlencodedRoundTrip(pairs: seq<Pair>, maxKeys: nat)
    requires AllBytes(pairs)
    ensures UrlencodedOf(PairsText(pairs), maxKeys)
         == if |pairs| <= maxKeys then Ok(PairEntries(pairs)) else Err(MaxKeysExceeded)
    decreases |pairs|
  {
    hide SegmentOk, SegmentEntry, Segments, PairText, IsByteString;
    NoSegments();
    if pairs == [] {
      assert PairEntries(pairs) == [];
    } else {
      var s, rest := PairText(pairs[0]), PairsText(pairs[1..]);
      PairReadsBack(pairs[0]);
      SegmentsOfPrinted(s, rest);
      if |pairs| == 1 {
        ReadSegmentsTurn([], s, [], maxKeys);
        assert [s] + [] == [s] && PairEntries(pairs) == [] + [SegmentEntry(s)] + [];
      } else {
        ReadSegmentsTurn([], s, Segments(rest), maxKeys);
        if maxKeys > 0 {
          UrlencodedRoundTrip(pairs[1..], maxKeys - 1);
          assert PairEntries(pairs) == [] + [SegmentEntry(s)] + PairEntries(pairs[1..]);
        }
      }
      ContinueNothing(UrlencodedOf(PairsText(pairs), maxKeys));
    }
  }
}
