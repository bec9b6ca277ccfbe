/** The UTF-8 encoder and the incremental decoder of the engine. The decoder keeps a
    half-read character between calls, so that it can be fed one byte at a time. */
module Utf8 {
  import opened Bytes

  const REPLACEMENT: nat := 0xFFFD

  /** A code point UTF-8 can carry (section 3 of RFC 3629). */
  predicate IsScalar(c: int) {
    0 <= c < 0xD800 || 0xE000 <= c <= 0x10FFFF
  }

  type Scalar = c: nat | IsScalar(c) witness 0

  function Encode(u: Scalar): (s: seq<byte>)
    ensures 1 <= |s| <= 4
  {
    assert IsScalar(u);
    if u < 0x80 then Bytes1(u)
    else if u < 0x800 then Bytes1(0xC0 + u / 64) + Bytes1(0x80 + u % 64)
    else if u < 0x10000 then
      Bytes1(0xE0 + u / 4096) + Bytes1(0x80 + u / 64 % 64) + Bytes1(0x80 + u % 64)
    else
      Bytes1(0xF0 + u / 262144) + Bytes1(0x80 + u / 4096 % 64)
      + Bytes1(0x80 + u / 64 % 64) + Bytes1(0x80 + u % 64)
  }

  function Bytes1(b: byte): seq<byte> { [b] }

  function EncodeAll(cs: seq<Scalar>): seq<byte> {
    if cs == [] then [] else Encode(cs[0]) + EncodeAll(cs[1..])
  }

  // The decoder

  /** A half-read character: `need` bytes are missing, `code` holds the bits so far, and
      the next byte must lie in `[lower, upper]` unless `lower` is zero. */
  datatype Context = Context(need: nat, lower: byte, upper: byte, code: nat)

  const FRESH: Context := Context(0, 0, 0, 0)

  datatype Outcome = Code(c: nat) | Invalid | Incomplete

  /** The new context, the number of bytes consumed, and what was read. */
  datatype Step = Step(ctx: Context, used: nat, outcome: Outcome)

  predicate IsTail(b: byte) { 0x80 <= b <= 0xBF }

  /** Reads continuation bytes from index `p` until the character is complete. */
  function ReadTail(ctx: Context, s: seq<byte>, p: nat, need: nat, code: nat): (r: Step)
    requires p <= |s| && need > 0
    ensures p <= r.used <= |s|
    decreases |s| - p
  {
    if p == |s| then Step(ctx.(need := need, code := code), p, Incomplete)
    else if !IsTail(s[p]) then Step(ctx.(need := 0, lower := 0, code := code), p, Invalid)
    else
      var code' := code * 64 + s[p] % 64;
      if need == 1 then Step(ctx.(need := 0, code := code'), p + 1, Code(code'))
      else ReadTail(ctx, s, p + 1, need - 1, code')
  }

  /** Reads one byte that must lie in `[lower, upper]`, then the rest of the character. */
  function ReadBounded(ctx: Context, s: seq<byte>, p: nat, need: nat, code: nat,
                       lower: byte, upper: byte): (r: Step)
    requires p < |s| && need > 1
    ensures p <= r.used <= |s|
  {
    if s[p] < lower || s[p] > upper then Step(ctx.(need := 0, lower := 0, code := code), p, Invalid)
    else ReadTail(ctx, s, p + 1, need - 1, code * 64 + s[p] % 64)
  }

  /** After a leading byte of three or four byte characters. `first` and `second` are the
      leading bytes whose next byte is restricted from below or from above. */
  function ReadLong(ctx: Context, s: seq<byte>, need: nat, code: nat,
                    first: byte, second: byte, lower: byte, upper: byte): (r: Step)
    requires |s| > 0 && need > 1
    ensures 1 <= r.used <= |s|
  {
    if |s| == 1 then
      var ctx' := if s[0] == first then ctx.(lower := lower, upper := 0xBF)
                  else if s[0] == second then ctx.(lower := 0x80, upper := upper)
                  else ctx;
      Step(ctx'.(need := need, code := code), 1, Incomplete)
    else if s[0] == first then ReadBounded(ctx, s, 1, need, code, lower, 0xBF)
    else if s[0] == second then ReadBounded(ctx, s, 1, need, code, 0x80, upper)
    else ReadTail(ctx, s, 1, need, code)
  }

  /** One call of the decoder on the non-empty text `s`. */
  function Decode(ctx: Context, s: seq<byte>): (r: Step)
    requires |s| > 0
    requires ctx.need > 0 && ctx.lower != 0 ==> ctx.need > 1
    ensures r.used <= |s|
    ensures r.used == 0 ==> ctx.need > 0 && r.ctx.need == 0 && r.outcome == Invalid
  {
    if ctx.need != 0 then
      if ctx.lower != 0 then
        if s[0] < ctx.lower || s[0] > ctx.upper then Step(ctx.(need := 0, lower := 0), 0, Invalid)
        else ReadTail(ctx.(need := 0, lower := 0), s, 1, ctx.need - 1, ctx.code * 64 + s[0] % 64)
      else ReadTail(ctx.(need := 0), s, 0, ctx.need, ctx.code)
    else
      var c := s[0];
      if c < 0x80 then Step(ctx, 1, Code(c))
      else if c <= 0xDF then
        if c < 0xC2 then Step(ctx, 1, Invalid) else ReadTail(ctx, s, 1, 1, c % 32)
      else if c < 0xF0 then ReadLong(ctx, s, 2, c % 16, 0xE0, 0xED, 0xA0, 0x9F)
      else if c < 0xF5 then ReadLong(ctx, s, 3, c % 8, 0xF0, 0xF4, 0x90, 0x8F)
      else Step(ctx, 1, Invalid)
  }

  // What the decoder can return

  /** `code`, completed by `need` continuation bytes, is a scalar. */
  predicate Completes(need: nat, code: nat) {
    || (need == 1 && 2 <= code <= 0x43FF && !(0x360 <= code <= 0x37F))
    || (need == 2 && (1 <= code <= 0x0F || 0x10 <= code <= 0x10F) && code != 0x0D)
    || (need == 3 && 1 <= code <= 3)
  }

  /** The contexts the decoder can be in. */
  predicate ValidContext(ctx: Context) {
    || (ctx.need == 0 && ctx.lower == 0)
    || (ctx.lower == 0 && Completes(ctx.need, ctx.code))
    || (ctx.need == 2 && ctx.code == 0 && ctx.lower == 0xA0 && ctx.upper == 0xBF)
    || (ctx.need == 2 && ctx.code == 0x0D && ctx.lower == 0x80 && ctx.upper == 0x9F)
    || (ctx.need == 3 && ctx.code == 0 && ctx.lower == 0x90 && ctx.upper == 0xBF)
    || (ctx.need == 3 && ctx.code == 4 && ctx.lower == 0x80 && ctx.upper == 0x8F)
  }

  predicate GoodStep(r: Step) {
    ValidContext(r.ctx) && (r.outcome.Code? ==> IsScalar(r.outcome.c))
  }

  lemma CompletesStep(need: nat, code: nat, b: byte)
    requires Completes(need, code) && IsTail(b)
    ensures if need == 1 then IsScalar(code * 64 + b % 64) else Completes(need - 1, code * 64 + b % 64)
  {
  }

  lemma {:induction false} ReadTailIsGood(ctx: Context, s: seq<byte>, p: nat, need: nat, code: nat)
    requires p <= |s| && ctx.lower == 0 && Completes(need, code)
    ensures GoodStep(ReadTail(ctx, s, p, need, code))
    decreases |s| - p
  {
    if p < |s| && IsTail(s[p]) {
      CompletesStep(need, code, s[p]);
      if need > 1 {
        ReadTailIsGood(ctx, s, p + 1, need - 1, code * 64 + s[p] % 64);
      }
    }
  }

  /** From a valid context every call leads to a valid context and returns scalars only:
      no overlong form, no surrogate, nothing above U+10FFFF. */
  lemma DecodeIsGood(ctx: Context, s: seq<byte>)
    requires |s| > 0 && ValidContext(ctx)
    ensures GoodStep(Decode(ctx, s))
  {
    hide ReadTail, ReadLong;
    if ctx.need != 0 {
      if ctx.lower != 0 {
        if ctx.lower <= s[0] <= ctx.upper {
          ReadTailIsGood(ctx.(need := 0, lower := 0), s, 1, ctx.need - 1, ctx.code * 64 + s[0] % 64);
        }
      } else {
        ReadTailIsGood(ctx.(need := 0), s, 0, ctx.need, ctx.code);
      }
    } else if 0xC2 <= s[0] <= 0xDF {
      ReadTailIsGood(ctx, s, 1, 1, s[0] % 32);
    } else if 0xE0 <= s[0] < 0xF5 {
      ReadLongIsGood(ctx, s);
    }
  }

  lemma ReadLongIsGood(ctx: Context, s: seq<byte>)
    requires |s| > 0 && ctx.need == 0 && ctx.lower == 0 && 0xE0 <= s[0] < 0xF5
    ensures s[0] < 0xF0 ==> GoodStep(ReadLong(ctx, s, 2, s[0] % 16, 0xE0, 0xED, 0xA0, 0x9F))
    ensures s[0] >= 0xF0 ==> GoodStep(ReadLong(ctx, s, 3, s[0] % 8, 0xF0, 0xF4, 0x90, 0x8F))
  {
    hide ReadTail;
    var need: nat := if s[0] < 0xF0 then 2 else 3;
    var code: nat := if s[0] < 0xF0 then s[0] % 16 else s[0] % 8;
    if s[0] == 0xE0 || s[0] == 0xED || s[0] == 0xF0 || s[0] == 0xF4 {
      var lower := if s[0] == 0xE0 then 0xA0 else if s[0] == 0xF0 then 0x90 else 0x80;
      var upper := if s[0] == 0xED then 0x9F else if s[0] == 0xF4 then 0x8F else 0xBF;
      if |s| > 1 && lower <= s[1] <= upper {
        ReadTailIsGood(ctx, s, 2, need - 1, code * 64 + s[1] % 64);
      }
    } else {
      ReadTailIsGood(ctx, s, 1, need, code);
    }
  }
}
