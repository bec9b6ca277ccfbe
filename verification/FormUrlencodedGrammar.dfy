/** The urlencoded bodies the parser accepts, described without the parser. */
module FormUrlencodedGrammar {
  import opened Text
  import opened FormParams
  import opened FormMultipart
  import opened FormUrlencoded

  predicate AllAmps(t: string) {
    forall i :: 0 <= i < |t| ==> t[i] == '&'
  }

  /** `body` is the segments, none of them empty, with ampersands before, between and behind
      them. */
  ghost predicate IsSegmented(body: string, segments: seq<string>)
    decreases |segments|
  {
    if segments == [] then AllAmps(body)
    else exists i, j :: IsFirstSegment(body, i, j, segments[0]) && IsSegmented(body[j..], segments[1..])
  }

  predicate IsFirstSegment(body: string, i: int, j: int, segment: string) {
    && 0 <= i < j <= |body|
    && AllAmps(body[..i]) && segment == body[i..j] && '&' !in segment
    && (j < |body| ==> body[j] == '&')
  }

  /** `segment` is written for a name and a value: cut at its first equals sign, or all name
      when it has none. */
  ghost predicate IsPairText(segment: string, name: string, value: string) {
    if '=' !in segment then IsWrittenFor(segment, name) && value == ""
    else exists k ::
      && 0 <= k < |segment| && segment[k] == '=' && '=' !in segment[..k]
      && IsWrittenFor(segment[..k], name) && IsWrittenFor(segment[k + 1..], value)
  }

  /** The entries of a body. */
  ghost predicate IsForm(body: string, maxKeys: nat, es: seq<Entry>) {
    exists segments ::
      && IsSegmented(body, segments) && |segments| == |es| <= maxKeys
      && forall i :: 0 <= i < |es| ==>
           && IsPairText(segments[i], es[i].name, es[i].value)
           && es[i].filename == None && !es[i].isFile
  }

  // Segments

  lemma {:induction false} AmpsAreSkipped(body: string, i: nat)
    requires i <= |body| && AllAmps(body[..i])
    ensures Segments(body) == Segments(body[i..])
    decreases i
  {
    if i == 0 {
      assert body[0..] == body;
    } else {
      assert body[0] == body[..i][0] && body[1..][i - 1..] == body[i..];
      assert AllAmps(body[1..][..i - 1]) by { assert body[1..][..i - 1] == body[..i][1..]; }
      AmpsAreSkipped(body[1..], i - 1);
    }
  }

  lemma {:induction false} FirstSegment(body: string, i: nat, j: nat, segment: string)
    requires IsFirstSegment(body, i, j, segment)
    ensures Segments(body) == [segment] + Segments(body[j..])
  {
    hide Scan;
    AmpsAreSkipped(body, i);
    var rest := body[i..];
    assert rest[0] == segment[0];
    forall k | 0 <= k < j - i ensures rest[k] != '&' {
      assert rest[k] == segment[k] && segment[k] in segment;
    }
    ScanIs(rest, 0, IsAmp, j - i);
    assert rest[..j - i] == segment;
    if j < |body| {
      assert body[j..][1..] == rest[j - i + 1..];
    } else {
      assert body[j..] == "";
    }
  }

  lemma {:induction false} SegmentedIsSegments(body: string, segments: seq<string>)
    requires IsSegmented(body, segments)
    ensures Segments(body) == segments
    decreases |segments|
  {
    hide Segments;
    if segments == [] {
      assert body[..|body|] == body && body[|body|..] == "";
      AmpsAreSkipped(body, |body|);
      NoSegments();
    } else {
      var i, j :| IsFirstSegment(body, i, j, segments[0]) && IsSegmented(body[j..], segments[1..]);
      FirstSegment(body, i, j, segments[0]);
      SegmentedIsSegments(body[j..], segments[1..]);
    }
  }

  /** The first byte that is no ampersand, or the end. */
  function Amps(body: string): (i: nat)
    ensures i <= |body| && AllAmps(body[..i]) && (i < |body| ==> body[i] != '&')
  {
    if body == "" || body[0] != '&' then 0 else
    var i := 1 + Amps(body[1..]);
    assert forall k | 0 < k < i :: body[k] == body[1..][k - 1] == body[1..][..i - 1][k - 1];
    i
  }

  lemma {:induction false} SegmentsAreSegmented(body: string)
    ensures IsSegmented(body, Segments(body))
    decreases |body|
  {
    hide Scan;
    var i := Amps(body);
    AmpsAreSkipped(body, i);
    var rest := body[i..];
    if rest == "" {
      assert body[..i] == body;
    } else {
      ScanIsFirst(rest, 0, IsAmp);
      var a := Scan(rest, 0, IsAmp);
      var j := i + a;
      var segment := rest[..a];
      assert segment == body[i..j];
      assert IsFirstSegment(body, i, j, segment);
      FirstSegment(body, i, j, segment);
      SegmentsAreSegmented(body[j..]);
      hide IsFirstSegment;
      assert Segments(body)[0] == segment && Segments(body)[1..] == Segments(body[j..]);
    }
  }

  // Pairs

  lemma {:induction false} PairTextIff(segment: string, e: Entry)
    ensures SegmentOk(segment) && e == SegmentEntry(segment)
       <==> IsPairText(segment, e.name, e.value) && e.filename == None && !e.isFile
  {
    hide Scan, WellFormed, Decoded, IsWrittenFor;
    var k := Scan(segment, 0, IsEq);
    ScanIsFirst(segment, 0, IsEq);
    DecodedIff(NamePart(segment), e.name);
    DecodedIff(ValuePart(segment), e.value);
    NothingWritten(e.value);
    assert k == |segment| ==> segment[..k] == segment;
    if k < |segment| {
      assert '=' in segment && '=' !in segment[..k];
    }
    forall m | 0 <= m < |segment| && segment[m] == '=' && '=' !in segment[..m] ensures m == k {
    }
  }

  lemma NothingWritten(s: string)
    ensures IsWrittenFor("", s) <==> s == ""
  {
  }

  /** The parser accepts exactly the forms, and reads them as what they say. */
  lemma {:induction false} UrlencodedAcceptedIff(body: string, maxKeys: nat, es: seq<Entry>)
    ensures UrlencodedOf(body, maxKeys) == Ok(es) <==> IsForm(body, maxKeys, es)
  {
    hide Segments, ReadSegments, SegmentOk, SegmentEntry, IsSegmented, IsPairText;
    var all := Segments(body);
    AcceptedIff(all, maxKeys);
    forall i | 0 <= i < |es| && |es| == |all|
      ensures SegmentOk(all[i]) && es[i] == SegmentEntry(all[i])
         <==> IsPairText(all[i], es[i].name, es[i].value) && es[i].filename == None && !es[i].isFile
    {
      PairTextIff(all[i], es[i]);
    }
    if UrlencodedOf(body, maxKeys) == Ok(es) {
      SegmentsAreSegmented(body);
    }
    if IsForm(body, maxKeys, es) {
      var segments :|
        && IsSegmented(body, segments) && |segments| == |es| <= maxKeys
        && forall i :: 0 <= i < |es| ==>
             && IsPairText(segments[i], es[i].name, es[i].value)
             && es[i].filename == None && !es[i].isFile;
      SegmentedIsSegments(body, segments);
      assert forall i :: 0 <= i < |es| ==> SegmentOk(all[i]) && es[i] == SegmentEntry(all[i]);
      assert UrlencodedOf(body, maxKeys).value == es;
    }
  }

  /** Where and why a body is refused: at the first segment that is malformed or one too
      many. */
  ghost predicate StopsAt(segments: seq<string>, maxKeys: nat, i: nat, e: FormError) {
    && i < |segments| && i <= maxKeys && (forall k :: 0 <= k < i ==> SegmentOk(segments[k]))
    && (if SegmentOk(segments[i]) then i == maxKeys && e == MaxKeysExceeded else e == MalformedPercentEscape)
  }

  lemma {:induction false} StopsLater(segments: seq<string>, maxKeys: nat, i: nat, e: FormError)
    requires segments != [] && SegmentOk(segments[0]) && maxKeys > 0
    ensures StopsAt(segments, maxKeys, i + 1, e) <==> StopsAt(segments[1..], maxKeys - 1, i, e)
  {
    hide SegmentOk;
    var rest := segments[1..];
    assert forall k :: 0 <= k < |rest| ==> rest[k] == segments[k + 1];
    assert forall k :: 1 <= k < |segments| ==> segments[k] == rest[k - 1];
  }

  lemma {:induction false} RefusedIff(segments: seq<string>, maxKeys: nat, e: FormError)
    ensures ReadSegments(segments, maxKeys) == Err(e) <==> exists i :: StopsAt(segments, maxKeys, i, e)
    decreases |segments|
  {
    hide SegmentOk, SegmentEntry;
    if segments != [] {
      if !SegmentOk(segments[0]) || maxKeys == 0 {
        assert ReadSegments(segments, maxKeys) == Err(e) ==> StopsAt(segments, maxKeys, 0, e);
        assert forall i :: StopsAt(segments, maxKeys, i, e) ==> i == 0;
      } else {
        RefusedIff(segments[1..], maxKeys - 1, e);
        if ReadSegments(segments, maxKeys) == Err(e) {
          var i: nat :| StopsAt(segments[1..], maxKeys - 1, i, e);
          StopsLater(segments, maxKeys, i, e);
        }
        if i: nat :| StopsAt(segments, maxKeys, i, e) {
          StopsLater(segments, maxKeys, i - 1, e);
        }
      }
    }
  }
}
