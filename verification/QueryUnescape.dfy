/** Percent decoding of query strings, on top of the incremental UTF-8 decoder, and the
    proof that it undoes escaping. */
module QueryUnescape {
  import opened Bytes
  import opened Utf8
  import opened Utf8Laws
  import opened QueryEscape
  import opened Hex

  predicate StartsEscaped(s: seq<byte>) {
    |s| > 2 && IsEscape(s[0], s[1], s[2])
  }

  /** Reads one piece of `s`: an escape, which feeds one byte to the decoder, a plus, which
      is a space and leaves a half-read character alone, or raw bytes. */
  function ReadOne(ctx: Context, s: seq<byte>): (r: Step)
    requires |s| > 0 && ValidContext(ctx)
    ensures GoodStep(r) && r.used <= |s|
    ensures r.used == 0 ==> ctx.need > 0 && r.ctx.need == 0
  {
    if StartsEscaped(s) then
      DecodeIsGood(ctx, [EscapeValue(s[1], s[2])]);
      Decode(ctx, [EscapeValue(s[1], s[2])]).(used := 3)
    else if s[0] == PLUS then Step(ctx, 1, Code(SPACE))
    else DecodeIsGood(ctx, s); Decode(ctx, s)
  }

  /** What one outcome adds to the text: an invalid sequence becomes U+FFFD. */
  function Emitted(o: Outcome): seq<Scalar>
    requires o.Code? ==> IsScalar(o.c)
  {
    match o
    case Code(c) => [c]
    case Invalid => [REPLACEMENT]
    case Incomplete => []
  }

  /** The code points of the decoded text. A character left half-read by the last piece
      becomes U+FFFD. */
  function Scalars(s: seq<byte>, ctx: Context, last: Outcome): seq<Scalar>
    requires ValidContext(ctx)
    decreases |s|, ctx.need
  {
    if s == [] then (if last == Incomplete then [REPLACEMENT] else [])
    else
      var r := ReadOne(ctx, s);
      Emitted(r.outcome) + Scalars(s[r.used..], r.ctx, r.outcome)
  }

  /** The decoded text; it is well-formed UTF-8 whatever the input. */
  function Unescaped(s: seq<byte>): seq<byte> {
    EncodeAll(Scalars(s, FRESH, Code(0)))
  }

  lemma {:induction false} EncodeAllConcat(a: seq<Scalar>, b: seq<Scalar>)
    ensures EncodeAll(a + b) == EncodeAll(a) + EncodeAll(b)
  {
    hide Encode;
    if a == [] {
      assert a + b == b;
    } else {
      assert (a + b)[1..] == a[1..] + b;
      EncodeAllConcat(a[1..], b);
    }
  }

  /** The text of the code points still to come. */
  function TextFrom(s: seq<byte>, ctx: Context, last: Outcome): seq<byte>
    requires ValidContext(ctx)
  {
    EncodeAll(Scalars(s, ctx, last))
  }

  lemma TextFromTurn(s: seq<byte>, p: nat, ctx: Context, last: Outcome)
    requires p < |s| && ValidContext(ctx)
    ensures var r := ReadOne(ctx, s[p..]);
            TextFrom(s[p..], ctx, last) == EncodeAll(Emitted(r.outcome)) + TextFrom(s[p + r.used..], r.ctx, r.outcome)
  {
    hide ReadOne, ValidContext;
    var r := ReadOne(ctx, s[p..]);
    assert s[p..][r.used..] == s[p + r.used..];
    EncodeAllConcat(Emitted(r.outcome), Scalars(s[p + r.used..], r.ctx, r.outcome));
  }

  lemma EncodeOne(c: Scalar)
    ensures EncodeAll([c]) == Encode(c)
  {
    assert Encode(c) + [] == Encode(c);
  }

  /** The decoding loop. */
  method Unescape(s: seq<byte>) returns (chain: seq<byte>)
    ensures chain == Unescaped(s)
  {
    hide ReadOne, ValidContext, TextFrom, Encode, Emitted, EncodeAll, Unescaped;
    chain := [];
    var p, ctx, cp := 0, FRESH, Code(0);
    FreshIsValid();
    assert s[0..] == s;
    UnescapedStart(s);
    while p < |s|
      invariant p <= |s| && ValidContext(ctx)
      invariant Unescaped(s) == chain + TextFrom(s[p..], ctx, cp)
      decreases |s| - p, ctx.need
    {
      TextFromTurn(s, p, ctx, cp);
      var r := ReadPiece(ctx, s, p);
      ctx, cp, p := r.ctx, r.outcome, p + r.used;
      EmittedText(cp);
      if cp == Incomplete {
        assert TextFrom(s[p..], ctx, cp) == [] + TextFrom(s[p..], ctx, cp);
        continue;
      }
      var c: Scalar := if cp == Invalid then REPLACEMENT else cp.c;
      assert chain + (Encode(c) + TextFrom(s[p..], ctx, cp)) == chain + Encode(c) + TextFrom(s[p..], ctx, cp);
      chain := chain + Encode(c);
    }
    assert s[p..] == [];
    UnescapedEnd(ctx, cp);
    if cp == Incomplete {
      EncodeOne(REPLACEMENT);
      chain := chain + Encode(REPLACEMENT);
    }
  }

  lemma EmittedText(o: Outcome)
    requires o.Code? ==> IsScalar(o.c)
    ensures EncodeAll(Emitted(o))
         == if o == Incomplete then [] else Encode(if o == Invalid then REPLACEMENT else o.c)
  {
    hide Encode;
    if o != Incomplete {
      EncodeOne(if o == Invalid then REPLACEMENT else o.c);
    }
  }

  lemma FreshIsValid()
    ensures ValidContext(FRESH)
  {
  }

  lemma UnescapedStart(s: seq<byte>)
    ensures ValidContext(FRESH) && Unescaped(s) == TextFrom(s, FRESH, Code(0))
  {
  }

  lemma UnescapedEnd(ctx: Context, last: Outcome)
    requires ValidContext(ctx)
    ensures TextFrom([], ctx, last) == if last == Incomplete then EncodeAll([REPLACEMENT]) else []
  {
  }

  method ReadPiece(ctx: Context, s: seq<byte>, p: nat) returns (r: Step)
    requires p < |s| && ValidContext(ctx)
    ensures r == ReadOne(ctx, s[p..])
  {
    hide Decode;
    if s[p] == PERCENT && |s| - p > 2 && HexValue(s[p + 1]) >= 0 && HexValue(s[p + 2]) >= 0 {
      r := Decode(ctx, [EscapeValue(s[p + 1], s[p + 2])]);
      r := r.(used := 3);
    } else if s[p] == PLUS {
      r := Step(ctx, 1, Code(SPACE));
    } else {
      r := Decode(ctx, s[p..]);
    }
  }

  // Decoding undoes every way of writing

  /** `t` spells the bytes `e`: each is an escape with digits of either case. */
  predicate IsSpelled(t: seq<byte>, e: seq<byte>)
    decreases |e|
  {
    if e == [] then t == []
    else |t| >= 3 && Spells(t[0], t[1], t[2], e[0]) && IsSpelled(t[3..], e[1..])
  }

  /** `t` is a way to write the character `u`: its bytes spelled, or as they are unless it is
      a percent sign or a plus, or a plus for a space. */
  predicate WritesChar(t: seq<byte>, u: Scalar) {
    || IsSpelled(t, Utf8.Encode(u))
    || (t == Utf8.Encode(u) && u != '%' as int && u != '+' as int)
    || (t == ['+' as int] && u == ' ' as int)
  }

  /** `t` is a way to write the text `cs`. */
  ghost predicate Writes(t: seq<byte>, cs: seq<Scalar>)
    decreases |cs|
  {
    if cs == [] then t == []
    else exists k :: 0 < k <= |t| && WritesChar(t[..k], cs[0]) && Writes(t[k..], cs[1..])
  }

  /** A spelled byte reaches the decoder as that byte. */
  lemma {:induction false} ByteReadsBack(s: seq<byte>, b: byte, ctx: Context, last: Outcome)
    requires |s| >= 3 && Spells(s[0], s[1], s[2], b) && ValidContext(ctx)
    ensures var d := Decode(ctx, [b]);
            GoodStep(d) && Scalars(s, ctx, last) == Emitted(d.outcome) + Scalars(s[3..], d.ctx, d.outcome)
  {
    hide ValidContext, HexValue, Spells;
    EscapeIff(s[0], s[1], s[2], b);
    DecodeIsGood(ctx, [b]);
  }

  /** A spelled character of any length is read as that character. */
  lemma {:induction false} SpelledReadsBack(u: Scalar, t: seq<byte>, rest: seq<byte>, ctx: Context, last: Outcome)
    returns (ctx': Context)
    requires Rests(ctx) && IsSpelled(t, Utf8.Encode(u))
    ensures Rests(ctx')
    ensures Scalars(t + rest, ctx, last) == [u] + Scalars(rest, ctx', Code(u))
  {
    hide Scalars, Decode, Spells;
    var e := Utf8.Encode(u);
    SpelledHead(t, e, rest);
    ByteReadsBack(t + rest, e[0], ctx, last);
    if u < 0x80 {
      FeedAscii(u, ctx);
      assert e[1..] == [] && t[3..] == [] && t[3..] + rest == rest;
      ctx' := ctx;
    } else {
      FeedLead(u, ctx);
      LeadIsBits(u);
      DecodeIsGood(ctx, [e[0]]);
      ctx' := TailReadsBack(u, e, 1, LeadBits(u), t[3..], rest, Decode(ctx, [e[0]]).ctx, Incomplete);
    }
  }

  lemma {:induction false} SpelledHead(t: seq<byte>, e: seq<byte>, rest: seq<byte>)
    requires e != [] && IsSpelled(t, e)
    ensures var s := t + rest;
            |s| >= 3 && Spells(s[0], s[1], s[2], e[0]) && IsSpelled(t[3..], e[1..]) && s[3..] == t[3..] + rest
  {
    hide Spells;
  }

  lemma {:induction false} TailReadsBack(u: Scalar, e: seq<byte>, p: nat, code: nat, t: seq<byte>,
                                         rest: seq<byte>, ctx: Context, last: Outcome)
    returns (ctx': Context)
    requires e == Utf8.Encode(u) && 1 <= p < |e| && code == BitsAbove(u, |e| - p)
    requires ValidContext(ctx) && Accepts(ctx, |e| - p, code, e[p]) && IsSpelled(t, e[p..])
    ensures Rests(ctx')
    ensures Scalars(t + rest, ctx, last) == [u] + Scalars(rest, ctx', Code(u))
    decreases |e| - p
  {
    hide Scalars, ValidContext, Spells, Decode, Utf8.Encode, BitsAbove;
    FeedTail(ctx, |e| - p, code, e[p]);
    TailBits(u, p);
    SpelledHead(t, e[p..], rest);
    ByteReadsBack(t + rest, e[p], ctx, last);
    assert e[p..][1..] == e[p + 1..];
    var d := Decode(ctx, [e[p]]);
    if p == |e| - 1 {
      ctx' := d.ctx;
      NoBitsAbove(u);
      assert t[3..] == [] && t[3..] + rest == rest;
    } else {
      ctx' := TailReadsBack(u, e, p + 1, BitsAbove(u, |e| - p - 1), t[3..], rest, d.ctx, Incomplete);
    }
  }

  /** A character that stands for itself. */
  lemma {:induction false} RawReadsBack(u: Scalar, rest: seq<byte>, ctx: Context, last: Outcome)
    returns (ctx': Context)
    requires Rests(ctx) && u != '%' as int && u != '+' as int
    ensures Rests(ctx')
    ensures Scalars(Utf8.Encode(u) + rest, ctx, last) == [u] + Scalars(rest, ctx', Code(u))
  {
    var e := Utf8.Encode(u);
    var s := e + rest;
    assert s[0] == e[0] && e[0] != PERCENT && e[0] != PLUS by { FirstIsNoSign(u); }
    DecodeWhole(u, s, ctx);
    hide Decode, Utf8.Encode;
    ctx' := Decode(ctx, s).ctx;
    assert s[|e|..] == rest;
  }

  lemma FirstIsNoSign(u: Scalar)
    requires u != '%' as int && u != '+' as int
    ensures Utf8.Encode(u)[0] != PERCENT && Utf8.Encode(u)[0] != PLUS
  {
  }

  lemma {:induction false} ScalarReadsBack(u: Scalar, t: seq<byte>, rest: seq<byte>, ctx: Context, last: Outcome)
    returns (ctx': Context)
    requires Rests(ctx) && WritesChar(t, u)
    ensures Rests(ctx')
    ensures Scalars(t + rest, ctx, last) == [u] + Scalars(rest, ctx', Code(u))
  {
    hide Scalars, IsSpelled, Utf8.Encode;
    if IsSpelled(t, Utf8.Encode(u)) {
      ctx' := SpelledReadsBack(u, t, rest, ctx, last);
    } else if t == Utf8.Encode(u) && u != '%' as int && u != '+' as int {
      ctx' := RawReadsBack(u, rest, ctx, last);
    } else {
      ctx' := ctx;
      PlusReads(rest, ctx, last);
    }
  }

  lemma {:induction false} ScalarsReadBack(t: seq<byte>, cs: seq<Scalar>, ctx: Context, last: Outcome)
    requires Rests(ctx) && last != Incomplete && Writes(t, cs)
    ensures Scalars(t, ctx, last) == cs
    decreases |cs|
  {
    hide WritesChar, Scalars;
    if cs == [] {
      NothingToRead(ctx, last);
    } else {
      var k :| 0 < k <= |t| && WritesChar(t[..k], cs[0]) && Writes(t[k..], cs[1..]);
      var ctx' := ScalarReadsBack(cs[0], t[..k], t[k..], ctx, last);
      ScalarsReadBack(t[k..], cs[1..], ctx', Code(cs[0]));
      assert t == t[..k] + t[k..] && cs == [cs[0]] + cs[1..];
    }
  }

  lemma NothingToRead(ctx: Context, last: Outcome)
    requires ValidContext(ctx) && last != Incomplete
    ensures Scalars([], ctx, last) == []
  {
  }

  /** Every way of writing a text decodes to that text. */
  lemma UnescapeWritten(t: seq<byte>, cs: seq<Scalar>)
    requires Writes(t, cs)
    ensures Unescaped(t) == EncodeAll(cs)
  {
    ScalarsReadBack(t, cs, FRESH, Code(0));
  }

  // Escaping is one way of writing

  lemma {:induction false} EscapedIsSpelled(e: seq<byte>)
    requires forall i :: 0 <= i < |e| ==> NeedEscape(e[i])
    ensures IsSpelled(Escaped(e), e)
  {
    hide NeedEscape, HexDigit, Spells;
    if e != [] {
      EscapedIsSpelled(e[1..]);
      EscapeReadsBack(e[0]);
      EscapeIff(PERCENT, HexDigit(e[0] / 16), HexDigit(e[0] % 16), e[0]);
      assert EscapedByte(e[0]) == [PERCENT, HexDigit(e[0] / 16), HexDigit(e[0] % 16)];
      assert Escaped(e)[3..] == Escaped(e[1..]);
    }
  }

  lemma {:induction false} EscapedWritesChar(u: Scalar)
    ensures WritesChar(Escaped(Utf8.Encode(u)), u)
  {
    hide NeedEscape, IsSpelled;
    var e := Utf8.Encode(u);
    if u < 0x80 && !NeedEscape(u) {
      FeedAscii(u, FRESH);
      TableMeaning(u);
      assert e[1..] == [] && Escaped(e) == e;
    } else {
      forall i | 0 <= i < |e| ensures NeedEscape(e[i]) {
        if u >= 0x80 {
          HighBytes(u, i);
          TableMeaning(e[i]);
        } else {
          FeedAscii(u, FRESH);
        }
      }
      EscapedIsSpelled(e);
    }
  }

  lemma HighBytes(u: Scalar, i: nat)
    requires u >= 0x80 && i < |Utf8.Encode(u)|
    ensures Utf8.Encode(u)[i] >= 0x80
  {
    assert IsScalar(u);
  }

  lemma {:induction false} EscapedWrites(cs: seq<Scalar>)
    ensures Writes(Escaped(EncodeAll(cs)), cs)
  {
    hide WritesChar, EscapedByte;
    if cs != [] {
      var e, rest := Utf8.Encode(cs[0]), EncodeAll(cs[1..]);
      EscapedConcat(e, rest);
      EscapedWritesChar(cs[0]);
      EscapedWrites(cs[1..]);
      var t, k := Escaped(EncodeAll(cs)), |Escaped(e)|;
      assert t[..k] == Escaped(e) && t[k..] == Escaped(rest);
    }
  }

  /** Unescaping undoes escaping on every well-formed UTF-8 string. */
  lemma UnescapeEscape(cs: seq<Scalar>)
    ensures Unescaped(Escaped(EncodeAll(cs))) == EncodeAll(cs)
  {
    EscapedWrites(cs);
    UnescapeWritten(Escaped(EncodeAll(cs)), cs);
  }

  /** A percent sign that starts no escape stands for itself. */
  lemma {:induction false} LonePercent(s: seq<byte>, ctx: Context, last: Outcome)
    requires s != [] && s[0] == '%' as int && Rests(ctx)
    requires |s| >= 3 ==> forall n :: !Spells(s[0], s[1], s[2], n)
    ensures Scalars(s, ctx, last) == ['%' as int] + Scalars(s[1..], ctx, Code('%' as int))
  {
    hide Spells, HexValue;
    if |s| >= 3 && IsEscape(s[0], s[1], s[2]) {
      EscapeIff(s[0], s[1], s[2], EscapeValue(s[1], s[2]));
    }
  }

  /** A character cut off behind its first byte becomes U+FFFD at the end of the text, raw or
      spelled. */
  lemma {:induction false} CutOffCharacter(u: Scalar, t: seq<byte>, ctx: Context, last: Outcome)
    requires u >= 0x80 && Rests(ctx)
    requires t == [Utf8.Encode(u)[0]] || IsSpelled(t, [Utf8.Encode(u)[0]])
    ensures Scalars(t, ctx, last) == [0xFFFD]
  {
    var b := Utf8.Encode(u)[0];
    FeedLead(u, ctx);
    HighBytes(u, 0);
    DecodeIsGood(ctx, [b]);
    hide Utf8.Encode, Spells;
    if t == [b] {
      assert t[1..] == [];
    } else {
      SpelledHead(t, [b], []);
      assert t + [] == t && [b][1..] == [];
      hide Decode;
      ByteReadsBack(t, b, ctx, last);
    }
  }

  // A plus inside a character

  /** The context without its half-read character. */
  function Forget(ctx: Context): Context { ctx.(need := 0, lower := 0) }

  lemma {:induction false} PlusReads(rest: seq<byte>, ctx: Context, last: Outcome)
    requires ValidContext(ctx)
    ensures Scalars([PLUS] + rest, ctx, last) == [SPACE] + Scalars(rest, ctx, Code(SPACE))
  {
    hide Decode;
    assert ([PLUS] + rest)[1..] == rest;
  }

  /** A letter ends a half-read character with a replacement; otherwise it stands for
      itself. */
  lemma {:induction false} LetterReads(ctx: Context, last: Outcome)
    requires ValidContext(ctx)
    ensures Scalars([0x41], ctx, last) == if ctx.need == 0 then [0x41] else [REPLACEMENT, 0x41]
    decreases ctx.need
  {
    var s: seq<byte> := [0x41];
    var d := Decode(ctx, s);
    DecodeIsGood(ctx, s);
    if ctx.need == 0 {
      assert s[1..] == [];
    } else {
      assert d.used == 0 && d.ctx.need == 0 && d.outcome == Invalid;
      assert s[0..] == s;
      LetterReads(d.ctx, Invalid);
    }
  }

  /** A plus separates what follows from a character begun before it exactly when no
      character is half read. */
  lemma {:induction false} PlusSeparatesIff(ctx: Context, last: Outcome)
    requires ValidContext(ctx)
    ensures (forall rest :: Scalars([PLUS] + rest, ctx, last) == [SPACE] + Scalars(rest, Forget(ctx), Code(SPACE)))
       <==> ctx.need == 0
  {
    hide Scalars;
    if ctx.need == 0 {
      forall rest ensures Scalars([PLUS] + rest, ctx, last) == [SPACE] + Scalars(rest, Forget(ctx), Code(SPACE)) {
        PlusReads(rest, ctx, last);
      }
    } else {
      var rest: seq<byte> := [0x41];
      PlusReads(rest, ctx, last);
      LetterReads(ctx, Code(SPACE));
      LetterReads(Forget(ctx), Code(SPACE));
    }
  }

  /** `%C3+%A9` decodes to a space and the character U+00E9 whose bytes stand on both sides
      of the plus. */
  lemma {:induction false} PlusInsideCharacter()
    ensures Scalars([0x25, 0x43, 0x33, 0x2B, 0x25, 0x41, 0x39], FRESH, Code(0)) == [0x20, 0xE9]
  {
    var half := Context(1, 0, 0, 3);
    var tail: seq<byte> := [0x25, 0x41, 0x39];
    var s: seq<byte> := [0x25, 0x43, 0x33] + ([PLUS] + tail);
    assert s == [0x25, 0x43, 0x33, 0x2B, 0x25, 0x41, 0x39];
    assert ReadOne(FRESH, s) == Step(half, 3, Incomplete);
    assert s[3..] == [PLUS] + tail;
    PlusReads(tail, half, Incomplete);
    assert ReadOne(half, tail).outcome == Code(0xE9) && ReadOne(half, tail).used == 3;
    assert tail[3..] == [];
  }
}
