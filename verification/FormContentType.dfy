/** The forms the parser accepts: content types and bodies, described without the parser. */
module FormContentType {
  import opened Text
  import opened FormParams
  import opened FormHeaders
  import opened FormDisposition
  import opened FormMultipart
  import opened FormGrammar
  import opened FormUrlencoded
  import opened FormUrlencodedGrammar
  import opened FormParser

  /** The media type is `h[a..b]`, the parameters start at `p`. */
  predicate IsMediaType(h: string, a: nat, b: nat, p: nat) {
    p <= |h| && ';' !in h[..p] && IsTrimmed(h[..p], 0, a, b)
  }

  /** `values` are the boundaries a header may give: one of 1 to 200 bytes, or none. */
  predicate IsBoundary(values: seq<string>) {
    |values| <= 1 && forall i :: 0 <= i < |values| ==> 1 <= |values[i]| <= 200
  }

  ghost predicate IsTypeWith(h: string, ct: ContentType, a: nat, b: nat, p: nat, ps: seq<Attribute>) {
    && IsMediaType(h, a, b, p) && a <= b <= p && AreParameters(h, p, ps) && IsBoundary(ValuesFor(ps, "boundary"))
    && match ct
       case Urlencoded => SameNoCase(h[a..b], "application/x-www-form-urlencoded")
       case Multipart(x) => SameNoCase(h[a..b], "multipart/form-data") && ValuesFor(ps, "boundary") == [x]
  }

  /** One of the two media types, with blanks around it and parameters behind it. */
  ghost predicate IsContentType(h: string, ct: ContentType) {
    exists a: nat, b: nat, p: nat, ps: seq<Attribute> :: IsTypeWith(h, ct, a, b, p, ps)
  }

  /** The entries of a request: a content type and a body in that format. */
  ghost predicate IsRequest(header: Option<string>, body: string, maxKeys: nat, es: seq<Entry>) {
    header.Some? &&
    (|| (IsContentType(header.value, Urlencoded) && IsForm(body, maxKeys, es))
     || exists x :: IsContentType(header.value, Multipart(x)) && Derives(body, x, maxKeys, es))
  }

  // The parameters of a content type

  ghost predicate Bounds(ps: seq<Attribute>, seen: Option<string>, r: Option<string>) {
    && AsSeq(seen) + ValuesFor(ps, "boundary") == AsSeq(r)
    && forall i :: 0 <= i < |ValuesFor(ps, "boundary")| ==> 1 <= |ValuesFor(ps, "boundary")[i]| <= 200
  }

  lemma {:induction false} BoundsStep(ps: seq<Attribute>, q: Param, seen: Option<string>, r: Option<string>)
    requires ps != [] && ps[0] == Attribute(q.key, q.value)
    ensures Bounds(ps, seen, r) <==>
            RecordBoundary(q, seen).Ok? && Bounds(ps[1..], RecordBoundary(q, seen).value, r)
  {
    var all, rest := ValuesFor(ps, "boundary"), ValuesFor(ps[1..], "boundary");
    if SameNoCase(q.key, "boundary") {
      assert all == [q.value] + rest;
      hide SameNoCase, ValuesFor;
      if seen.None? {
        OneValue(q.value, rest, r);
      } else {
        TwoValues(seen.value, q.value, rest, r);
      }
    } else {
      assert all == [] + rest == rest;
    }
  }

  lemma OneValue(v: string, rest: seq<string>, r: Option<string>)
    ensures AsSeq(None) + ([v] + rest) == AsSeq(Some(v)) + rest
    ensures (forall i :: 0 <= i < |[v] + rest| ==> 1 <= |([v] + rest)[i]| <= 200)
       <==> 1 <= |v| <= 200 && forall i :: 0 <= i < |rest| ==> 1 <= |rest[i]| <= 200
  {
    var all := [v] + rest;
    assert all[0] == v && forall i :: 0 <= i < |rest| ==> all[i + 1] == rest[i];
  }

  lemma TwoValues(a: string, v: string, rest: seq<string>, r: Option<string>)
    ensures AsSeq(Some(a)) + ([v] + rest) != AsSeq(r)
  {
    assert |AsSeq(Some(a)) + ([v] + rest)| > 1 >= |AsSeq(r)|;
  }

  lemma {:induction false} BoundsEnd(seen: Option<string>, r: Option<string>)
    ensures Bounds([], seen, r) <==> seen == r
  {
    assert AsSeq(seen) + [] == AsSeq(seen);
    assert seen.Some? && r.Some? && AsSeq(seen) == AsSeq(r) ==> AsSeq(seen)[0] == AsSeq(r)[0];
  }

  lemma {:induction false} ParametersGiveBoundary(s: string, p: nat, ps: seq<Attribute>, seen: Option<string>,
                                                  r: Option<string>)
    requires p <= |s| && AreParameters(s, p, ps) && Bounds(ps, seen, r)
    ensures BoundaryFrom(s, p, seen) == Ok(r)
    decreases |ps|
  {
    hide *;
    if ps == [] {
      NoMoreParameters(s, p, seen, r);
    } else {
      var q, x := FirstParameter(s, p, ps);
      ParameterIsRead(s, p + 1, q, x, ps[0]);
      SkipTwice(s, p + 1);
      var param := ParamAt(s, p + 1).value;
      BoundsStep(ps, param, seen, r);
      BoundaryUnfolds(s, p, seen, param);
      ParametersGiveBoundary(s, q, ps[1..], RecordBoundary(param, seen).value, r);
    }
  }

  lemma NoMoreParameters(s: string, p: nat, seen: Option<string>, r: Option<string>)
    requires p <= |s| && AreParameters(s, p, []) && Bounds([], seen, r)
    ensures BoundaryFrom(s, p, seen) == Ok(r)
  {
    BoundsEnd(seen, r);
  }

  lemma BoundaryUnfolds(s: string, p: nat, seen: Option<string>, q: Param)
    requires p < |s| && s[p] == ';' && ParamAt(s, SkipOws(s, p + 1)) == Ok(q) && RecordBoundary(q, seen).Ok?
    ensures BoundaryFrom(s, p, seen) == BoundaryFrom(s, SkipOws(s, q.next), RecordBoundary(q, seen).value)
  {
    hide ParamAt, RecordBoundary;
  }

  lemma {:induction false} BoundaryStep(s: string, p: nat, seen: Option<string>)
    requires p < |s| && BoundaryFrom(s, p, seen).Ok?
    ensures s[p] == ';' && ParamAt(s, SkipOws(s, p + 1)).Ok?
    ensures var q := ParamAt(s, SkipOws(s, p + 1)).value;
            && RecordBoundary(q, seen).Ok?
            && BoundaryFrom(s, p, seen) == BoundaryFrom(s, SkipOws(s, q.next), RecordBoundary(q, seen).value)
  {
    hide ParamAt, RecordBoundary;
  }

  lemma {:induction false} BoundaryHasParameters(s: string, p: nat, seen: Option<string>)
    returns (ps: seq<Attribute>)
    requires p <= |s| && BoundaryFrom(s, p, seen).Ok?
    ensures AreParameters(s, p, ps) && Bounds(ps, seen, BoundaryFrom(s, p, seen).value)
    decreases |s| - p
  {
    hide *;
    if p == |s| {
      ps := [];
      NoBoundary(s, seen);
    } else {
      BoundaryStep(s, p, seen);
      SkipTwice(s, p + 1);
      var q := ParamAt(s, p + 1).value;
      var x := ReadIsParameter(s, p + 1);
      var next := SkipOws(s, q.next);
      SkipsForward(s, q.next);
      var more := BoundaryHasParameters(s, next, RecordBoundary(q, seen).value);
      var at := Attribute(q.key, q.value);
      ps := [at] + more;
      assert ps[1..] == more;
      BoundsStep(ps, q, seen, BoundaryFrom(s, p, seen).value);
      OneMoreParameter(s, p, next, x, at, more);
    }
  }

  lemma NoBoundary(s: string, seen: Option<string>)
    ensures AreParameters(s, |s|, []) && BoundaryFrom(s, |s|, seen) == Ok(seen) && Bounds([], seen, seen)
  {
    BoundsEnd(seen, seen);
  }

  // Content types

  lemma {:induction false} BoundsIff(ps: seq<Attribute>, r: Option<string>)
    ensures Bounds(ps, None, r) <==> IsBoundary(ValuesFor(ps, "boundary")) && ValuesFor(ps, "boundary") == AsSeq(r)
  {
    assert AsSeq(None) + ValuesFor(ps, "boundary") == ValuesFor(ps, "boundary");
  }

  lemma {:induction false} MediaTypeAt(h: string, a: nat, b: nat, p: nat, ps: seq<Attribute>)
    requires IsMediaType(h, a, b, p) && AreParameters(h, p, ps)
    ensures a <= b <= p && Scan(h, 0, IsSemicolon) == p && MediaType(h) == h[a..b]
  {
    hide TrimEnd, SkipOws;
    ParametersStart(h, p, ps);
    forall i | 0 <= i < p ensures h[i] != ';' {
      assert h[i] == h[..p][i];
    }
    ScanIs(h, 0, IsSemicolon, p);
    TrimmedIs(h[..p], 0, a, b);
    assert h[..p][a..b] == h[a..b];
  }

  lemma {:induction false} TypeIsRead(h: string, ct: ContentType, a: nat, b: nat, p: nat, ps: seq<Attribute>)
    requires IsTypeWith(h, ct, a, b, p, ps)
    ensures ContentTypeOf(Some(h)) == Ok(ct)
  {
    hide BoundaryFrom, MediaType, AreParameters, Scan, ValuesFor, IsMediaType;
    MediaTypeAt(h, a, b, p, ps);
    var values := ValuesFor(ps, "boundary");
    var r := if values == [] then None else Some(values[0]);
    assert values == AsSeq(r) by { AtMostOne(values); }
    BoundsIff(ps, r);
    ParametersGiveBoundary(h, p, ps, None, r);
    TypesDiffer(h[a..b]);
  }

  lemma AtMostOne(values: seq<string>)
    requires |values| <= 1
    ensures values == AsSeq(if values == [] then None else Some(values[0]))
  {
    assert |values| == 1 ==> values == [values[0]];
  }

  lemma TypesDiffer(media: string)
    ensures !(SameNoCase(media, "multipart/form-data") && SameNoCase(media, "application/x-www-form-urlencoded"))
    ensures SameNoCase(media, "multipart/form-data") || SameNoCase(media, "application/x-www-form-urlencoded")
            ==> media != ""
  {
  }

  lemma {:induction false} ReadIsType(h: string, ct: ContentType)
    requires ContentTypeOf(Some(h)) == Ok(ct)
    ensures IsContentType(h, ct)
  {
    hide BoundaryFrom, TrimEnd, AreParameters, Scan, ValuesFor, SkipOws, SameNoCase, IsTrimmed;
    var p := Scan(h, 0, IsSemicolon);
    ScanIsFirst(h, 0, IsSemicolon);
    assert ';' !in h[..p];
    var a, b := TrimmedExists(h[..p], 0);
    TrimmedIs(h[..p], 0, a, b);
    TrimmedInside(h[..p], a, b);
    assert h[..p][a..b] == h[a..b];
    var ps := BoundaryHasParameters(h, p, None);
    BoundsIff(ps, BoundaryFrom(h, p, None).value);
    assert IsTypeWith(h, ct, a, b, p, ps);
  }

  lemma TrimmedInside(t: string, a: nat, b: nat)
    requires IsTrimmed(t, 0, a, b)
    ensures a <= b <= |t|
  {
  }

  /** A header is read as a content type exactly when it is one. */
  lemma {:induction false} ContentTypeReadIff(h: string, ct: ContentType)
    ensures ContentTypeOf(Some(h)) == Ok(ct) <==> IsContentType(h, ct)
  {
    hide ContentTypeOf, IsTypeWith;
    if ContentTypeOf(Some(h)) == Ok(ct) {
      ReadIsType(h, ct);
    }
    if IsContentType(h, ct) {
      var a: nat, b: nat, p: nat, ps: seq<Attribute> :| IsTypeWith(h, ct, a, b, p, ps);
      TypeIsRead(h, ct, a, b, p, ps);
    }
  }

  /** The whole parser: a request gives these entries exactly when its content type and its
      body say so. */
  lemma {:induction false} FormReadIff(header: Option<string>, body: string, maxKeys: nat, es: seq<Entry>)
    ensures FormOf(header, body, maxKeys) == Ok(es) <==> IsRequest(header, body, maxKeys, es)
  {
    hide ContentTypeOf, IsContentType, IsForm, Derives, MultipartOf, UrlencodedOf;
    NoHeaderNoType();
    if header.Some? {
      var h := header.value;
      UrlencodedAcceptedIff(body, maxKeys, es);
      ContentTypeReadIff(h, Urlencoded);
      forall x ensures IsContentType(h, Multipart(x)) <==> ContentTypeOf(Some(h)) == Ok(Multipart(x)) {
        ContentTypeReadIff(h, Multipart(x));
      }
      forall x ensures Derives(body, x, maxKeys, es) <==> MultipartOf(body, x, maxKeys) == Ok(es) {
        MultipartAcceptedIff(body, x, maxKeys, es);
      }
    }
  }

  lemma NoHeaderNoType()
    ensures ContentTypeOf(None).Err?
  {
  }
}
