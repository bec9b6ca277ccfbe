/** The Content-Disposition values the parser accepts, described without the parser: a type,
    and parameters after semicolons with blanks around every part of them. */
module FormDisposition {
  import opened Text
  import opened FormParams
  import opened FormHeaders

  /** A parameter: its key and the value it stands for. */
  datatype Attribute = Attribute(key: string, value: string)

  /** Spaces and tabs. */
  predicate IsBlank(t: string) {
    forall i :: 0 <= i < |t| ==> t[i] == ' ' || t[i] == '\t'
  }

  predicate IsKey(t: string) {
    t != "" && forall i :: 0 <= i < |t| ==> t[i] != '=' && t[i] != ';' && t[i] != ' ' && t[i] != '\t'
  }

  /** The inside of a quoted string: no bare quote, and every backslash hides a byte. */
  predicate IsQuotedBody(t: string) {
    t == "" ||
    if t[0] == '\\' then |t| > 1 && IsQuotedBody(t[2..]) else t[0] != '"' && IsQuotedBody(t[1..])
  }

  /** The inside of a quoted string that stands for `value`: a backslash and the byte it hides
      stand for that byte, any other byte for itself. */
  predicate IsQuotedFor(t: string, value: string) {
    if t == "" then value == ""
    else if t[0] == '\\' then |t| > 1 && value != "" && value[0] == t[1] && IsQuotedFor(t[2..], value[1..])
    else t[0] != '"' && value != "" && value[0] == t[0] && IsQuotedFor(t[1..], value[1..])
  }

  lemma {:induction false} QuotedIff(t: string, value: string)
    ensures IsQuotedFor(t, value) <==> IsQuotedBody(t) && value == Unquote(t)
  {
    if t != "" && value != "" {
      assert value == [value[0]] + value[1..];
      if t[0] == '\\' {
        if |t| > 1 {
          QuotedIff(t[2..], value[1..]);
          assert Unquote(t)[1..] == Unquote(t[2..]);
        }
      } else {
        QuotedIff(t[1..], value[1..]);
        assert Unquote(t)[1..] == Unquote(t[1..]);
      }
    }
  }

  /** `t` is written for `value`: a quoted string, or plain text that does not start with a
      quote and holds no semicolon or blank. */
  predicate IsValueText(t: string, value: string) {
    t != "" &&
    if t[0] == '"' then
      |t| > 1 && t[|t| - 1] == '"' && IsQuotedFor(t[1..|t| - 1], value)
    else value == t && forall i :: 0 <= i < |t| ==> t[i] != ';' && t[i] != ' ' && t[i] != '\t'
  }

  /** Where the parts of a parameter start and end: key `v[a..b]`, equals sign at `c`, value
      `v[e..f]`. */
  datatype Cuts = Cuts(a: nat, b: nat, c: nat, e: nat, f: nat)

  predicate IsCut(v: string, p: nat, q: nat, x: Cuts, at: Attribute) {
    && p <= x.a < x.b <= x.c < x.e <= x.f <= q <= |v|
    && IsBlank(v[p..x.a]) && IsKey(v[x.a..x.b]) && at.key == v[x.a..x.b]
    && IsBlank(v[x.b..x.c]) && v[x.c] == '=' && IsBlank(v[x.c + 1..x.e])
    && IsValueText(v[x.e..x.f], at.value) && IsBlank(v[x.f..q])
  }

  /** `v[p..q]` is a parameter, up to the next semicolon or the end. */
  ghost predicate IsParameter(v: string, p: nat, q: nat, at: Attribute) {
    (q < |v| ==> v[q] == ';') && exists x :: IsCut(v, p, q, x, at)
  }

  /** `v[p..]` is a list of parameters, each after a semicolon. */
  ghost predicate AreParameters(v: string, p: nat, ps: seq<Attribute>)
    requires p <= |v|
    decreases |ps|
  {
    if ps == [] then p == |v|
    else
      && p < |v| && v[p] == ';'
      && exists q :: p < q <= |v| && IsParameter(v, p + 1, q, ps[0]) && AreParameters(v, q, ps[1..])
  }

  /** The values given for `key`, in order. */
  function ValuesFor(ps: seq<Attribute>, key: string): seq<string> {
    if ps == [] then []
    else (if SameNoCase(ps[0].key, key) then [ps[0].value] else []) + ValuesFor(ps[1..], key)
  }

  function AsSeq(o: Option<string>): seq<string> {
    match o case None => [] case Some(x) => [x]
  }

  /** `form-data`, with exactly one name and at most one file name. */
  ghost predicate IsDisposition(v: string, d: Disposition) {
    exists p, ps: seq<Attribute> ::
      && 0 <= p <= |v| && SameNoCase(v[..p], "form-data") && AreParameters(v, p, ps)
      && ValuesFor(ps, "name") == [d.name] && ValuesFor(ps, "filename") == AsSeq(d.file)
  }

  // One parameter

  /** Scanning over `v[p..q]`. */
  lemma {:induction false} ScanOver(v: string, p: nat, q: nat, stop: char -> bool)
    requires p <= q <= |v|
    requires forall i :: 0 <= i < q - p ==> !stop(v[p..q][i])
    requires q < |v| ==> stop(v[q])
    ensures Scan(v, p, stop) == q
  {
    forall i | p <= i < q ensures !stop(v[i]) {
      assert v[i] == v[p..q][i - p];
    }
    ScanIs(v, p, stop, q);
  }

  lemma {:induction false} SkipIs(v: string, p: nat, q: nat)
    requires p <= q <= |v|
    ensures SkipOws(v, p) == q <==> IsBlank(v[p..q]) && (q < |v| ==> !IsOws(v[q]))
  {
    hide Scan;
    ScanIsFirst(v, p, NotOws);
    if IsBlank(v[p..q]) && (q < |v| ==> !IsOws(v[q])) {
      ScanOver(v, p, q, NotOws);
    }
    if SkipOws(v, p) == q {
      forall i | 0 <= i < q - p ensures IsOws(v[p..q][i]) {
        assert v[p..q][i] == v[p + i] && !NotOws(v[p + i]);
      }
    }
  }

  /** The closing quote is the one behind the quoted body. */
  lemma {:induction false} ClosingQuoteIs(v: string, p: nat, q: nat)
    requires p <= q < |v|
    ensures ClosingQuote(v, p) == q <==> v[q] == '"' && IsQuotedBody(v[p..q])
    decreases q - p
  {
    var t := v[p..q];
    if p < q {
      assert t[0] == v[p] && t[1..] == v[p + 1..q];
      if v[p] == '\\' {
        if p + 2 <= q {
          assert t[2..] == v[p + 2..q];
          ClosingQuoteIs(v, p + 2, q);
        }
      } else if v[p] != '"' {
        ClosingQuoteIs(v, p + 1, q);
      }
    }
  }

  lemma {:induction false} ValueIs(v: string, e: nat, f: nat, at: Attribute)
    requires e < f <= |v|
    ensures (ValueAt(v, e, at.key).Ok? && ValueAt(v, e, at.key).value.next == f
             && ValueAt(v, e, at.key).value.value == at.value)
       <==> IsValueText(v[e..f], at.value) && (v[e] != '"' && f < |v| ==> EndsValue(v[f]))
  {
    hide Scan, ClosingQuote, IsQuotedBody, Unquote, IsQuotedFor;
    var t := v[e..f];
    assert t[0] == v[e] && t[|t| - 1] == v[f - 1];
    if v[e] == '"' {
      if e + 1 < f {
        Inside(v, e, f);
        QuotedIff(v[e + 1..f - 1], at.value);
        ClosingQuoteIs(v, e + 1, f - 1);
      }
    } else {
      ScanIsFirst(v, e, EndsValue);
      if forall i :: 0 <= i < |t| ==> !EndsValue(t[i]) {
        if f < |v| ==> EndsValue(v[f]) {
          ScanOver(v, e, f, EndsValue);
        }
      }
      if Scan(v, e, EndsValue) == f {
        forall i | 0 <= i < |t| ensures !EndsValue(t[i]) {
          assert t[i] == v[e + i];
        }
      }
    }
  }

  lemma {:induction false} Inside(v: string, e: nat, f: nat)
    requires e + 1 < f <= |v|
    ensures v[e..f][1..|v[e..f]| - 1] == v[e + 1..f - 1]
  {
    var t := v[e..f];
    var a, b := t[1..|t| - 1], v[e + 1..f - 1];
    assert |a| == |b|;
    forall i | 0 <= i < |a| ensures a[i] == b[i] {
      assert a[i] == t[i + 1] == v[e + 1 + i];
    }
  }

  /** The key that starts at `a`. */
  lemma {:induction false} KeyIs(v: string, a: nat, b: nat)
    requires a < b < |v|
    ensures Scan(v, a, EndsKey) == b <==> IsKey(v[a..b]) && EndsKey(v[b])
  {
    hide Scan;
    ScanIsFirst(v, a, EndsKey);
    if IsKey(v[a..b]) && EndsKey(v[b]) {
      ScanOver(v, a, b, EndsKey);
    }
    if Scan(v, a, EndsKey) == b {
      forall i | 0 <= i < b - a ensures !EndsKey(v[a..b][i]) {
        assert v[a..b][i] == v[a + i];
      }
    }
  }

  /** What the parser reads as a parameter is one, together with the blanks behind it. */
  lemma {:induction false} ReadIsParameter(v: string, p: nat) returns (x: Cuts)
    requires p <= |v| && ParamAt(v, p).Ok?
    ensures var r := ParamAt(v, p).value;
            IsCut(v, p, SkipOws(v, r.next), x, Attribute(r.key, r.value))
  {
    hide ValueAt, Scan, IsValueText, IsBlank, IsKey;
    var a := SkipOws(v, p);
    var b := Scan(v, a, EndsKey);
    var c := SkipOws(v, b);
    var e := SkipOws(v, c + 1);
    var r := ParamAt(v, p).value;
    var q := SkipOws(v, r.next);
    var at := Attribute(r.key, r.value);
    SkipIs(v, p, a);
    KeyIs(v, a, b);
    SkipIs(v, b, c);
    SkipIs(v, c + 1, e);
    SkipIs(v, r.next, q);
    assert ValueAt(v, e, at.key) == Ok(r);
    ValueIs(v, e, r.next, at);
    x := Cuts(a, b, c, e, r.next);
  }

  /** A parameter is read as what it stands for. */
  lemma {:induction false} ParameterIsRead(v: string, p: nat, q: nat, x: Cuts, at: Attribute)
    requires IsCut(v, p, q, x, at) && (q < |v| ==> v[q] == ';')
    ensures ParamAt(v, p).Ok?
    ensures var r := ParamAt(v, p).value;
            r.key == at.key && r.value == at.value && SkipOws(v, r.next) == q
  {
    hide ValueAt, Scan, IsValueText;
    assert !IsOws(v[x.a]) by { assert v[x.a] == v[x.a..x.b][0]; }
    SkipIs(v, p, x.a);
    assert EndsKey(v[x.b]) by { assert x.b < x.c ==> v[x.b] == v[x.b..x.c][0]; }
    KeyIs(v, x.a, x.b);
    SkipIs(v, x.b, x.c);
    FirstOfValue(v, x.e, x.f, at.value);
    SkipIs(v, x.c + 1, x.e);
    assert x.f < q ==> v[x.f] == v[x.f..q][0];
    ValueIs(v, x.e, x.f, at);
    SkipIs(v, x.f, q);
  }

  lemma {:induction false} FirstOfValue(v: string, e: nat, f: nat, value: string)
    requires e <= f <= |v| && IsValueText(v[e..f], value)
    ensures e < f && !IsOws(v[e])
  {
    assert v[e] == v[e..f][0];
  }

  /** The blanks in front of a parameter do not matter. */
  lemma {:induction false} SkipTwice(v: string, p: nat)
    requires p <= |v|
    ensures ParamAt(v, SkipOws(v, p)) == ParamAt(v, p)
  {
    hide Scan, ValueAt;
    var a := SkipOws(v, p);
    SkipIs(v, p, a);
    assert v[a..a] == "";
    SkipIs(v, a, a);
  }

  // All parameters

  /** What the parameters add to the name and the file name seen so far. */
  ghost predicate Settles(ps: seq<Attribute>, name: Option<string>, file: Option<string>, d: Disposition) {
    && AsSeq(name) + ValuesFor(ps, "name") == [d.name]
    && AsSeq(file) + ValuesFor(ps, "filename") == AsSeq(d.file)
  }

  lemma {:induction false} SettlesStep(ps: seq<Attribute>, r: Param, name: Option<string>, file: Option<string>,
                                       d: Disposition)
    requires ps != [] && ps[0] == Attribute(r.key, r.value)
    ensures Settles(ps, name, file, d)
       <==> Record(r, name, file).Ok?
            && Settles(ps[1..], Record(r, name, file).value.0, Record(r, name, file).value.1, d)
  {
    hide SameNoCase;
    NameIsNotFilename(r.key);
  }

  lemma {:induction false} SettledIsFinished(name: Option<string>, file: Option<string>, d: Disposition)
    ensures Settles([], name, file, d) <==> Finish(name, file) == Ok(d)
  {
    assert AsSeq(name) + [] == AsSeq(name) && AsSeq(file) + [] == AsSeq(file);
    assert file.Some? && d.file.Some? && AsSeq(file) == AsSeq(d.file) ==> AsSeq(file)[0] == AsSeq(d.file)[0];
    assert name.Some? && AsSeq(name) == [d.name] ==> AsSeq(name)[0] == d.name;
  }

  lemma {:induction false} NameIsNotFilename(key: string)
    ensures !(SameNoCase(key, "name") && SameNoCase(key, "filename"))
  {
  }

  lemma {:induction false} FirstParameter(v: string, p: nat, ps: seq<Attribute>) returns (q: nat, x: Cuts)
    requires p <= |v| && AreParameters(v, p, ps) && ps != []
    ensures p < q <= |v| && v[p] == ';' && (q < |v| ==> v[q] == ';')
    ensures IsCut(v, p + 1, q, x, ps[0]) && AreParameters(v, q, ps[1..])
  {
    hide IsCut;
    q :| p < q <= |v| && IsParameter(v, p + 1, q, ps[0]) && AreParameters(v, q, ps[1..]);
    x :| IsCut(v, p + 1, q, x, ps[0]);
  }

  lemma {:induction false} ParametersAreRead(v: string, p: nat, ps: seq<Attribute>, name: Option<string>,
                                             file: Option<string>, d: Disposition)
    requires p <= |v| && AreParameters(v, p, ps) && Settles(ps, name, file, d)
    ensures ParamsFrom(v, p, name, file) == Ok(d)
    decreases |ps|
  {
    if ps == [] {
      SettledIsFinished(name, file, d);
    } else {
      hide ParamAt, SkipOws, IsCut, Record, Settles, AreParameters;
      var q, x := FirstParameter(v, p, ps);
      ParameterIsRead(v, p + 1, q, x, ps[0]);
      SkipTwice(v, p + 1);
      var r := ParamAt(v, p + 1).value;
      SettlesStep(ps, r, name, file, d);
      var seen := Record(r, name, file).value;
      ParametersAreRead(v, q, ps[1..], seen.0, seen.1, d);
    }
  }

  /** The loop of the parser, unfolded once. */
  lemma {:induction false} ParamsStep(v: string, p: nat, name: Option<string>, file: Option<string>)
    requires p < |v| && ParamsFrom(v, p, name, file).Ok?
    ensures v[p] == ';' && ParamAt(v, SkipOws(v, p + 1)).Ok?
    ensures var r := ParamAt(v, SkipOws(v, p + 1)).value;
            && Record(r, name, file).Ok?
            && ParamsFrom(v, p, name, file)
               == ParamsFrom(v, SkipOws(v, r.next), Record(r, name, file).value.0, Record(r, name, file).value.1)
  {
    hide ParamAt, Record;
  }

  lemma {:induction false} OneMoreParameter(v: string, p: nat, q: nat, x: Cuts, at: Attribute, more: seq<Attribute>)
    requires p < q <= |v| && v[p] == ';' && IsCut(v, p + 1, q, x, at) && AreParameters(v, q, more)
    ensures AreParameters(v, p, [at] + more)
  {
    hide IsCut;
    ParametersStart(v, q, more);
    assert ([at] + more)[1..] == more;
    assert IsParameter(v, p + 1, q, at);
  }

  /** Behind a parameter comes a semicolon or the end. */
  lemma {:induction false} ParametersStart(v: string, p: nat, ps: seq<Attribute>)
    requires p <= |v| && AreParameters(v, p, ps)
    ensures p < |v| ==> v[p] == ';'
  {
    hide IsParameter;
  }

  lemma NoParameters(v: string, name: Option<string>, file: Option<string>)
    requires ParamsFrom(v, |v|, name, file).Ok?
    ensures AreParameters(v, |v|, []) && Settles([], name, file, ParamsFrom(v, |v|, name, file).value)
  {
    SettledIsFinished(name, file, ParamsFrom(v, |v|, name, file).value);
  }

  lemma {:induction false} ReadAreParameters(v: string, p: nat, name: Option<string>, file: Option<string>)
    returns (ps: seq<Attribute>)
    requires p <= |v| && ParamsFrom(v, p, name, file).Ok?
    ensures AreParameters(v, p, ps) && Settles(ps, name, file, ParamsFrom(v, p, name, file).value)
    decreases |v| - p
  {
    hide *;
    if p == |v| {
      ps := [];
      NoParameters(v, name, file);
    } else {
      ParamsStep(v, p, name, file);
      SkipTwice(v, p + 1);
      var r := ParamAt(v, p + 1).value;
      var seen := Record(r, name, file).value;
      var x := ReadIsParameter(v, p + 1);
      var q := SkipOws(v, r.next);
      SkipsForward(v, r.next);
      var more := ReadAreParameters(v, q, seen.0, seen.1);
      var at := Attribute(r.key, r.value);
      ps := [at] + more;
      assert ps[1..] == more;
      SettlesStep(ps, r, name, file, ParamsFrom(v, p, name, file).value);
      OneMoreParameter(v, p, q, x, at, more);
    }
  }

  lemma SkipsForward(v: string, p: nat)
    requires p <= |v|
    ensures p <= SkipOws(v, p) <= |v|
  {
  }

  /** The parser accepts exactly the dispositions, and reads them as what they say. */
  lemma {:induction false} DispositionReadIff(v: string, d: Disposition)
    ensures DispositionOf(v) == Ok(d) <==> IsDisposition(v, d)
  {
    hide ParamsFrom, AreParameters, SameNoCase;
    if DispositionOf(v) == Ok(d) {
      var p := Scan(v, 0, IsSemicolon);
      var ps := ReadAreParameters(v, p, None, None);
      assert [] + ValuesFor(ps, "name") == ValuesFor(ps, "name");
      assert [] + ValuesFor(ps, "filename") == ValuesFor(ps, "filename");
    }
    if IsDisposition(v, d) {
      var p, ps: seq<Attribute> :|
        && 0 <= p <= |v| && SameNoCase(v[..p], "form-data") && AreParameters(v, p, ps)
        && ValuesFor(ps, "name") == [d.name] && ValuesFor(ps, "filename") == AsSeq(d.file);
      TypeEndsAtSemicolon(v, p, ps);
      ParametersAreRead(v, p, ps, None, None, d);
    }
  }

  lemma {:induction false} TypeEndsAtSemicolon(v: string, p: nat, ps: seq<Attribute>)
    requires p <= |v| && SameNoCase(v[..p], "form-data") && AreParameters(v, p, ps)
    ensures Scan(v, 0, IsSemicolon) == p
  {
    hide Scan, IsParameter;
    forall i | 0 <= i < p ensures v[i] != ';' {
      assert Lower(v[..p][i]) == Lower("form-data"[i]);
    }
    ScanIs(v, 0, IsSemicolon, p);
  }

  // Trimming

  /** `t[a..b]` is `t` without the blanks around it. */
  predicate IsTrimmed(t: string, from: nat, a: nat, b: nat) {
    && from <= a <= b <= |t| && IsBlank(t[from..a]) && IsBlank(t[b..])
    && (a < b ==> !IsBlank([t[a]]) && !IsBlank([t[b - 1]]))
  }

  lemma {:induction false} TrimEndIs(t: string, b: nat)
    requires b <= |t| && IsBlank(t[b..]) && (b > 0 ==> !IsBlank([t[b - 1]]))
    ensures TrimEnd(t) == t[..b]
    decreases |t|
  {
    if b < |t| {
      assert IsOws(t[|t| - 1]) by { assert t[|t| - 1] == t[b..][|t| - 1 - b]; }
      var s := t[..|t| - 1];
      assert s[b..] == t[b..][..|t| - 1 - b] && s[..b] == t[..b];
      TrimEndIs(s, b);
    } else {
      assert t[..b] == t;
      assert b > 0 ==> [t[b - 1]][0] == t[b - 1];
    }
  }

  lemma {:induction false} TrimmedIs(t: string, from: nat, a: nat, b: nat)
    requires IsTrimmed(t, from, a, b)
    ensures TrimEnd(t[SkipOws(t, from)..]) == t[a..b]
  {
    hide SkipOws, TrimEnd;
    if a < b {
      assert [t[a]][0] == t[a];
      SkipIs(t, from, a);
      var u := t[a..];
      assert u[b - a..] == t[b..] && u[b - a - 1] == t[b - 1] && u[..b - a] == t[a..b];
      TrimEndIs(u, b - a);
    } else {
      assert t[from..] == t[from..a] + t[b..];
      assert IsBlank(t[from..|t|]) by {
        assert t[from..|t|] == t[from..];
      }
      SkipIs(t, from, |t|);
      assert t[|t|..] == "" && t[a..b] == "";
      TrimEndIs("", 0);
    }
  }

  lemma {:induction false} TrimmedExists(t: string, from: nat) returns (a: nat, b: nat)
    requires from <= |t|
    ensures IsTrimmed(t, from, a, b)
  {
    a := SkipOws(t, from);
    SkipIs(t, from, a);
    var u := t[a..];
    b := a + |TrimEnd(u)|;
    TrimEndKeeps(u);
    assert t[b..] == u[|TrimEnd(u)|..];
    if a < b {
      assert t[b - 1] == TrimEnd(u)[|TrimEnd(u)| - 1];
      assert [t[a]][0] == t[a] && [t[b - 1]][0] == t[b - 1];
    }
  }

  lemma {:induction false} TrimEndKeeps(u: string)
    ensures IsBlank(u[|TrimEnd(u)|..])
    decreases |u|
  {
    if u != "" && IsOws(u[|u| - 1]) {
      var s := u[..|u| - 1];
      TrimEndKeeps(s);
      assert u[|TrimEnd(u)|..] == s[|TrimEnd(s)|..] + [u[|u| - 1]];
    } else {
      assert u[|u|..] == "";
    }
  }
}
