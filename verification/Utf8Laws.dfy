/** What the decoder makes of encoded characters, fed whole or one byte at a time. */
module Utf8Laws {
  import opened Bytes
  import opened Utf8

  /** The context waits for `need` more bytes and accepts `b` as the next one. */
  predicate Accepts(ctx: Context, need: nat, code: nat, b: byte) {
    && ctx.need == need > 0 && ctx.code == code && IsTail(b)
    && (ctx.lower == 0 || (need > 1 && ctx.lower <= b <= ctx.upper))
  }

  predicate Rests(ctx: Context) { ctx.need == 0 && ctx.lower == 0 }

  lemma FeedTail(ctx: Context, need: nat, code: nat, b: byte)
    requires Accepts(ctx, need, code, b)
    ensures var d, code' := Decode(ctx, [b]), code * 64 + b % 64;
            if need == 1 then d.outcome == Code(code') && Rests(d.ctx)
            else d.outcome == Incomplete && d.ctx.need == need - 1 && d.ctx.code == code' && d.ctx.lower == 0
  {
    if need > 1 {
      var ctx', code' := ctx.(need := 0, lower := 0), code * 64 + b % 64;
      assert ReadTail(ctx', [b], 1, need - 1, code').outcome == Incomplete;
    }
  }

  /** What a leading byte alone leaves behind. */
  lemma LeadAlone(b: byte, ctx: Context)
    requires 0xC2 <= b < 0xF5 && Rests(ctx)
    ensures var d := Decode(ctx, [b]);
            && d.outcome == Incomplete
            && d.ctx.need == (if b < 0xE0 then 1 else if b < 0xF0 then 2 else 3)
            && d.ctx.code == (if b < 0xE0 then b % 32 else if b < 0xF0 then b % 16 else b % 8)
            && (b == 0xE0 ==> d.ctx.lower == 0xA0 && d.ctx.upper == 0xBF)
            && (b == 0xED ==> d.ctx.lower == 0x80 && d.ctx.upper == 0x9F)
            && (b == 0xF0 ==> d.ctx.lower == 0x90 && d.ctx.upper == 0xBF)
            && (b == 0xF4 ==> d.ctx.lower == 0x80 && d.ctx.upper == 0x8F)
            && (b != 0xE0 && b != 0xED && b != 0xF0 && b != 0xF4 ==> d.ctx.lower == 0)
  {
  }

  /** The first byte of a longer character leaves a context that accepts the second. */
  lemma FeedLead(u: Scalar, ctx: Context)
    requires u >= 0x80 && Rests(ctx)
    ensures var e := Encode(u);
            var d := Decode(ctx, [e[0]]);
            && d.outcome == Incomplete
            && Accepts(d.ctx, |e| - 1, LeadBits(u), e[1])
  {
    hide Encode, Decode;
    FirstBytes(u);
    LeadAlone(Encode(u)[0], ctx);
    LeadDigits(u);
  }

  lemma LeadDigits(u: nat)
    ensures u < 0x800 ==> (0xC0 + u / 64) % 32 == u / 64
    ensures u < 0x10000 ==> (0xE0 + u / 4096) % 16 == u / 4096
    ensures u < 0x140000 ==> (0xF0 + u / 262144) % 8 == u / 262144
  {
  }

  lemma FirstBytes(u: Scalar)
    requires u >= 0x80
    ensures var e := Encode(u);
            && IsTail(e[1])
            && if u < 0x800 then |e| == 2 && e[0] == 0xC0 + u / 64 && 2 <= u / 64 < 32
               else if u < 0x10000 then
                 && |e| == 3 && e[0] == 0xE0 + u / 4096 && u / 4096 < 16
                 && (e[0] == 0xE0 ==> e[1] >= 0xA0) && (e[0] == 0xED ==> e[1] <= 0x9F)
               else
                 && |e| == 4 && e[0] == 0xF0 + u / 262144 && u / 262144 < 5
                 && (e[0] == 0xF0 ==> e[1] >= 0x90) && (e[0] == 0xF4 ==> e[1] <= 0x8F)
  {
    assert IsScalar(u);
    if u >= 0x800 {
      SecondByte(u);
    }
  }

  /** The bounds on the second byte keep out overlong forms, surrogates and what is too
      large. */
  lemma SecondByte(u: nat)
    requires 0x800 <= u
    ensures u < 0x1000 ==> u / 64 % 64 >= 0x20
    ensures 0xD000 <= u < 0xD800 ==> u / 64 % 64 <= 0x1F
    ensures 0x10000 <= u < 0x40000 ==> u / 4096 % 64 >= 0x10
    ensures 0x100000 <= u <= 0x10FFFF ==> u / 4096 % 64 <= 0x0F
  {
  }

  function LeadBits(u: Scalar): nat {
    assert IsScalar(u);
    if u < 0x800 then u / 64 else if u < 0x10000 then u / 4096 else u / 262144
  }

  lemma FeedAscii(u: Scalar, ctx: Context)
    requires u < 0x80 && Rests(ctx)
    ensures Encode(u) == [u] && Decode(ctx, [u]) == Step(ctx, 1, Code(u))
  {
  }

  /** The bits of `u` above the last `k` continuation bytes. */
  function BitsAbove(u: Scalar, k: nat): nat
    requires k <= 3
  {
    assert IsScalar(u);
    if k == 0 then u else if k == 1 then u / 64 else if k == 2 then u / 4096 else u / 262144
  }

  lemma TailBits(u: Scalar, p: nat)
    requires 1 <= p < |Encode(u)|
    ensures var e := Encode(u);
            && IsTail(e[p]) && (p + 1 < |e| ==> IsTail(e[p + 1]))
            && BitsAbove(u, |e| - p) * 64 + e[p] % 64 == BitsAbove(u, |e| - p - 1)
  {
    hide Encode, BitsAbove;
    var e := Encode(u);
    TailByte(u, p);
    BitsStep(u, |e| - p);
    if p + 1 < |e| {
      TailByte(u, p + 1);
    }
  }

  lemma TailByte(u: Scalar, p: nat)
    requires 1 <= p < |Encode(u)|
    ensures var e := Encode(u);
            IsTail(e[p]) && e[p] % 64 == BitsAbove(u, |e| - p - 1) % 64
  {
    assert IsScalar(u);
  }

  lemma BitsStep(u: Scalar, k: nat)
    requires 1 <= k <= 3
    ensures BitsAbove(u, k) * 64 + BitsAbove(u, k - 1) % 64 == BitsAbove(u, k - 1)
  {
    if k == 1 {
    } else if k == 2 {
      assert u / 4096 == u / 64 / 64;
    } else {
      assert u / 262144 == u / 4096 / 64;
    }
  }

  // Whole characters

  lemma {:induction false} TailOfWhole(u: Scalar, s: seq<byte>, p: nat, ctx: Context)
    requires var e := Encode(u); e <= s && 1 <= p < |e|
    ensures var e := Encode(u);
            ReadTail(ctx, s, p, |e| - p, BitsAbove(u, |e| - p)) == Step(ctx.(need := 0, code := u), |e|, Code(u))
    decreases |s| - p
  {
    hide Encode, BitsAbove;
    var e := Encode(u);
    assert s[p] == e[p];
    TailBits(u, p);
    if p + 1 < |e| {
      TailOfWhole(u, s, p + 1, ctx);
    } else {
      NoBitsAbove(u);
    }
  }

  lemma NoBitsAbove(u: Scalar)
    ensures BitsAbove(u, 0) == u
  {
  }

  /** What follows the leading byte of a character. */
  lemma {:induction false} LeadOfWhole(u: Scalar, s: seq<byte>, ctx: Context)
    requires u >= 0x80 && Rests(ctx) && Encode(u) <= s
    ensures var e := Encode(u);
            && s[0] == e[0] && s[1] == e[1] && |e| >= 2
            && ReadTail(ctx, s, 1, |e| - 1, LeadBits(u)) == Step(ctx.(need := 0, code := u), |e|, Code(u))
            && (|e| > 2 ==> ReadTail(ctx, s, 2, |e| - 2, LeadBits(u) * 64 + s[1] % 64)
                            == Step(ctx.(need := 0, code := u), |e|, Code(u)))
  {
    var e := Encode(u);
    FirstBytes(u);
    LeadIsBits(u);
    hide Encode, ReadTail, LeadBits, BitsAbove;
    TailOfWhole(u, s, 1, ctx);
    TailBits(u, 1);
    if |e| > 2 {
      TailOfWhole(u, s, 2, ctx);
    }
  }

  /** A character at the start of a text is read in one call. */
  lemma {:induction false} DecodeWhole(u: Scalar, s: seq<byte>, ctx: Context)
    requires Rests(ctx) && Encode(u) <= s
    ensures var d := Decode(ctx, s);
            Encode(u) != [] && d.outcome == Code(u) && d.used == |Encode(u)| && Rests(d.ctx)
  {
    hide Encode, ReadTail;
    if u < 0x80 {
      FeedAscii(u, ctx);
    } else {
      FirstBytes(u);
      LeadOfWhole(u, s, ctx);
    }
  }

  lemma LeadIsBits(u: Scalar)
    requires u >= 0x80
    ensures LeadBits(u) == BitsAbove(u, |Encode(u)| - 1)
  {
  }

  // Only characters are read

  /** The continuation bytes `s[p..q]` appended to `code`. */
  function Appended(s: seq<byte>, p: nat, q: nat, code: nat): nat
    requires p <= q <= |s|
    decreases q - p
  {
    if p == q then code else Appended(s, p + 1, q, code * 64 + s[p] % 64)
  }

  lemma {:induction false} TailRead(ctx: Context, s: seq<byte>, p: nat, need: nat, code: nat)
    requires p <= |s| && need > 0 && ReadTail(ctx, s, p, need, code).outcome.Code?
    ensures var r := ReadTail(ctx, s, p, need, code);
            && r.used == p + need <= |s|
            && (forall k :: p <= k < p + need ==> IsTail(s[k]))
            && r.outcome.c == Appended(s, p, p + need, code)
    decreases need
  {
    if need > 1 {
      TailRead(ctx, s, p + 1, need - 1, code * 64 + s[p] % 64);
    }
  }

  /** The bits of a text of `n` bytes: those of the leading byte and of the continuation
      bytes. */
  function BitsOf(s: seq<byte>, n: nat): nat
    requires 2 <= n <= 4 && n <= |s|
  {
    if n == 2 then Shifted(s[0] % 32, s[1])
    else if n == 3 then Shifted(Shifted(s[0] % 16, s[1]), s[2])
    else Shifted(Shifted(Shifted(s[0] % 8, s[1]), s[2]), s[3])
  }

  /** Six more bits. */
  function Shifted(bits: nat, b: byte): nat { bits * 64 + b % 64 }

  predicate IsLead(b: byte, n: nat) {
    if n == 2 then 0xC2 <= b < 0xE0 else if n == 3 then 0xE0 <= b < 0xF0 else n == 4 && 0xF0 <= b < 0xF5
  }

  /** The leading byte and its continuation bytes, with the bounds on the second byte. */
  predicate IsLong(s: seq<byte>, n: nat) {
    && 2 <= n <= 4 && n <= |s| && IsLead(s[0], n)
    && (forall k :: 1 <= k < n ==> IsTail(s[k]))
    && (s[0] == 0xE0 ==> s[1] >= 0xA0) && (s[0] == 0xED ==> s[1] <= 0x9F)
    && (s[0] == 0xF0 ==> s[1] >= 0x90) && (s[0] == 0xF4 ==> s[1] <= 0x8F)
  }

  lemma {:induction false} ReadIsLong(s: seq<byte>, ctx: Context)
    requires |s| > 0 && Rests(ctx) && s[0] >= 0x80 && Decode(ctx, s).outcome.Code?
    ensures var d := Decode(ctx, s);
            IsLong(s, d.used) && d.outcome.c == BitsOf(s, d.used)
  {
    hide ReadTail;
    if s[0] < 0xE0 {
      TailRead(ctx, s, 1, 1, s[0] % 32);
    } else if s[0] < 0xF0 {
      LongRead(ctx, s, 2, s[0] % 16);
    } else {
      LongRead(ctx, s, 3, s[0] % 8);
    }
  }

  lemma {:induction false} LongRead(ctx: Context, s: seq<byte>, need: nat, code: nat)
    requires |s| > 0 && 2 <= need <= 3
    ensures var r := ReadTail(ctx, s, 1, need, code);
            r.outcome.Code? ==> r.used == 1 + need <= |s| && (forall k :: 1 <= k < 1 + need ==> IsTail(s[k]))
                                && r.outcome.c == Appended(s, 1, 1 + need, code)
    ensures |s| > 1 ==>
            var r := ReadTail(ctx, s, 2, need - 1, code * 64 + s[1] % 64);
            r.outcome.Code? ==> r.used == 1 + need <= |s| && (forall k :: 2 <= k < 1 + need ==> IsTail(s[k]))
                                && r.outcome.c == Appended(s, 1, 1 + need, code)
  {
    hide ReadTail;
    if ReadTail(ctx, s, 1, need, code).outcome.Code? {
      TailRead(ctx, s, 1, need, code);
    }
    if |s| > 1 && ReadTail(ctx, s, 2, need - 1, code * 64 + s[1] % 64).outcome.Code? {
      TailRead(ctx, s, 2, need - 1, code * 64 + s[1] % 64);
    }
  }

  lemma {:induction false} LongIsEncoded(s: seq<byte>, n: nat)
    requires IsLong(s, n)
    ensures IsScalar(BitsOf(s, n)) && Encode(BitsOf(s, n)) == s[..n]
  {
    if n == 2 {
      Encoded2(s);
    } else if n == 3 {
      Encoded3(s);
    } else {
      Encoded4(s);
    }
  }

  lemma Encoded2(s: seq<byte>)
    requires IsLong(s, 2)
    ensures IsScalar(BitsOf(s, 2)) && Encode(BitsOf(s, 2)) == s[..2]
  {
    Unshift(s[0] % 32, s[1]);
    TailDigit(s[1]);
    assert s[0] == 0xC0 + s[0] % 32;
    hide Shifted;
  }

  lemma Encoded3(s: seq<byte>)
    requires IsLong(s, 3)
    ensures IsScalar(BitsOf(s, 3)) && Encode(BitsOf(s, 3)) == s[..3]
  {
    var x := Shifted(s[0] % 16, s[1]);
    Unshift(s[0] % 16, s[1]);
    Unshift(x, s[2]);
    var u := Shifted(x, s[2]);
    assert u / 4096 == u / 64 / 64;
    hide Shifted;
    assert s[0] == 0xE0 + s[0] % 16 && s[1] == 0x80 + s[1] % 64 && s[2] == 0x80 + s[2] % 64;
  }

  lemma Encoded4(s: seq<byte>)
    requires IsLong(s, 4)
    ensures IsScalar(BitsOf(s, 4)) && Encode(BitsOf(s, 4)) == s[..4]
  {
    Digits4(s);
    hide IsLong, BitsOf;
    FourDigits(s[0] % 8, s[1] % 64, s[2] % 64, s[3] % 64);
    Encode4(BitsOf(s, 4));
    hide Encode;
    assert s[..4] == [s[0], s[1], s[2], s[3]];
  }

  lemma Digits4(s: seq<byte>)
    requires IsLong(s, 4)
    ensures |s| >= 4 && BitsOf(s, 4) == FromDigits(s[0] % 8, s[1] % 64, s[2] % 64, s[3] % 64)
    ensures s[0] == 0xF0 + s[0] % 8 && s[1] == 0x80 + s[1] % 64 && s[2] == 0x80 + s[2] % 64 && s[3] == 0x80 + s[3] % 64
    ensures s[0] % 8 < 5 && (s[0] % 8 == 0 ==> s[1] % 64 >= 16) && (s[0] % 8 == 4 ==> s[1] % 64 < 16)
  {
    TailDigit(s[1]);
    TailDigit(s[2]);
    TailDigit(s[3]);
  }

  lemma TailDigit(b: byte)
    ensures IsTail(b) ==> b == 0x80 + b % 64
  {
  }

  function FromDigits(a: int, b: int, c: int, d: int): int { ((a * 64 + b) * 64 + c) * 64 + d }

  lemma FourDigits(a: int, b: int, c: int, d: int)
    requires 0 <= a < 5 && 0 <= b < 64 && 0 <= c < 64 && 0 <= d < 64
    requires (a == 0 ==> b >= 16) && (a == 4 ==> b < 16)
    ensures var u := FromDigits(a, b, c, d);
            && u / 262144 == a && u / 4096 % 64 == b && u / 64 % 64 == c && u % 64 == d
            && 0x10000 <= u <= 0x10FFFF
  {
    var x, y := a * 64 + b, (a * 64 + b) * 64 + c;
    var u := y * 64 + d;
    assert u / 64 == y && y / 64 == x && x / 64 == a;
    assert u / 4096 == u / 64 / 64 && u / 262144 == u / 64 / 64 / 64;
  }

  lemma Encode4(u: int)
    requires 0x10000 <= u <= 0x10FFFF
    ensures IsScalar(u)
    ensures Encode(u) == [0xF0 + u / 262144, 0x80 + u / 4096 % 64, 0x80 + u / 64 % 64, 0x80 + u % 64]
  {
  }

  lemma Unshift(bits: nat, b: byte)
    ensures Shifted(bits, b) / 64 == bits && Shifted(bits, b) % 64 == b % 64
    ensures 64 * bits <= Shifted(bits, b) < 64 * (bits + 1)
  {
  }

  /** A decoder at rest reads a character exactly when the text starts with its encoding. */
  lemma {:induction false} DecodeIff(ctx: Context, s: seq<byte>, c: nat)
    requires Rests(ctx) && |s| > 0
    ensures Decode(ctx, s).outcome == Code(c) <==> IsScalar(c) && Encode(c) <= s
    ensures Decode(ctx, s).outcome == Code(c) ==> Decode(ctx, s).used == |Encode(c)|
  {
    if IsScalar(c) && Encode(c) <= s {
      DecodeWhole(c, s, ctx);
    }
    if Decode(ctx, s).outcome == Code(c) {
      if s[0] < 0x80 {
        FeedAscii(s[0], ctx);
      } else {
        ReadIsLong(s, ctx);
        LongIsEncoded(s, Decode(ctx, s).used);
      }
      DecodeWhole(c, s, ctx);
    }
  }
}
