/** Percent escaping of query strings and its inverse. */
module QueryEscape {
  import opened Bytes
  import opened Utf8
  import opened Hex

  const PLUS: byte := 0x2B
  const AMP: byte := 0x26
  const EQ: byte := 0x3D
  const SPACE: byte := 0x20

  // The escape table

  function EscapeWord(i: bv8): bv32 {
    if i == 1 then 0xfc00987d
    else if i == 2 then 0x78000001
    else if i == 3 then 0xb8000001
    else 0xffffffff
  }

  /** The bit test on the table: word `byte >> 5`, bit `byte & 0x1f`. */
  predicate EscapeBit(b: bv8) {
    EscapeWord(b >> 5) & ((1 as bv32) << ((b & 0x1f) as bv6)) != 0
  }

  predicate NeedEscape(b: byte) { EscapeBit(ToBits(b)) }

  /** The bytes that are left as they are: letters, digits and -_.!~*'(). */
  predicate IsPlain(b: int) {
    || 0x41 <= b <= 0x5A || 0x61 <= b <= 0x7A || 0x30 <= b <= 0x39
    || b == 0x2D || b == 0x5F || b == 0x2E || b == 0x21 || b == 0x7E || b == 0x2A
    || b == 0x27 || b == 0x28 || b == 0x29
  }

  predicate IsPlainBits(b: bv8) {
    || 0x41 <= b <= 0x5A || 0x61 <= b <= 0x7A || 0x30 <= b <= 0x39
    || b == 0x2D || b == 0x5F || b == 0x2E || b == 0x21 || b == 0x7E || b == 0x2A
    || b == 0x27 || b == 0x28 || b == 0x29
  }

  lemma TableBits(b: bv8)
    ensures EscapeBit(b) <==> !IsPlainBits(b)
  {
  }

  lemma PlainBits(b: bv8)
    ensures IsPlainBits(b) <==> IsPlain(b as int)
  {
  }

  /** The table escapes exactly the bytes that are not plain. */
  lemma TableMeaning(b: byte)
    ensures NeedEscape(b) <==> !IsPlain(b)
  {
    hide EscapeBit, IsPlain, IsPlainBits;
    TableBits(ToBits(b));
    PlainBits(ToBits(b));
  }

  // Escaping

  function EscapedByte(b: byte): seq<byte> {
    if NeedEscape(b) then [PERCENT, HexDigit(b / 16), HexDigit(b % 16)] else [b]
  }

  function Escaped(s: seq<byte>): (r: seq<byte>)
    ensures |r| >= |s|
  {
    if s == [] then [] else EscapedByte(s[0]) + Escaped(s[1..])
  }

  lemma {:induction false} EscapedConcat(a: seq<byte>, b: seq<byte>)
    ensures Escaped(a + b) == Escaped(a) + Escaped(b)
  {
    hide EscapedByte;
    if a == [] {
      assert a + b == b;
    } else {
      assert (a + b)[1..] == a[1..] + b;
      EscapedConcat(a[1..], b);
    }
  }

  /** When nothing needs escaping the copy is the escaped text. */
  lemma {:induction false} EscapedUnchanged(s: seq<byte>)
    ensures |Escaped(s)| == |s| ==> Escaped(s) == s
  {
    if s != [] {
      EscapedUnchanged(s[1..]);
      assert s == [s[0]] + s[1..];
    }
  }

  /** Appends the escaped form of `s` to `chain`. A first pass counts, a second writes into
      a reserved buffer of that size and fills it exactly; text that needs no escaping is
      copied. */
  method Escape(chain: seq<byte>, s: seq<byte>) returns (r: seq<byte>)
    ensures r == chain + Escaped(s)
  {
    hide EscapedByte;
    if |s| == 0 {
      return chain;
    }
    var size := CountSize(s);
    if size == |s| {
      EscapedUnchanged(s);
      return chain + s;
    }
    var buffer := new byte[size](_ => 0);
    WriteEscaped(s, buffer);
    r := chain + buffer[..];
  }

  method CountSize(s: seq<byte>) returns (size: nat)
    ensures size == |Escaped(s)|
  {
    hide NeedEscape, HexDigit;
    var p := 0;
    size := |s|;
    while p < |s|
      invariant p <= |s|
      invariant size + |Escaped(s[p..])| == |Escaped(s)| + |s| - p
    {
      assert s[p..][1..] == s[p + 1..];
      if NeedEscape(s[p]) {
        size := size + 2;
      }
      p := p + 1;
    }
  }

  method WriteEscaped(s: seq<byte>, dst: array<byte>)
    requires |s| > 0 && dst.Length == |Escaped(s)|
    modifies dst
    ensures dst[..] == Escaped(s)
  {
    hide NeedEscape, HexDigit, Escaped, EscapedByte;
    var p, d := 0, 0;
    ghost var e := Escaped(s);
    assert s[0..] == s;
    while p < |s|
      invariant p <= |s| && d <= dst.Length
      invariant e[d..] == Escaped(s[p..])
      invariant forall i :: 0 <= i < d ==> dst[i] == e[i]
    {
      var b := s[p];
      EscapedAt(s, p, e, d);
      if NeedEscape(b) {
        dst[d] := PERCENT;
        dst[d + 1] := HexDigit(b / 16);
        dst[d + 2] := HexDigit(b % 16);
        d := d + 3;
      } else {
        dst[d] := b;
        d := d + 1;
      }
      p := p + 1;
    }
    EscapedEnd(s[p..]);
    assert |e[d..]| == 0;
  }

  /** The escaped form of byte `p` stands in `e` at `d`. */
  lemma EscapedAt(s: seq<byte>, p: nat, e: seq<byte>, d: nat)
    requires p < |s| && d <= |e| && e[d..] == Escaped(s[p..])
    ensures if NeedEscape(s[p])
            then d + 3 <= |e| && e[d] == PERCENT && e[d + 1] == HexDigit(s[p] / 16)
                 && e[d + 2] == HexDigit(s[p] % 16) && e[d + 3..] == Escaped(s[p + 1..])
            else d + 1 <= |e| && e[d] == s[p] && e[d + 1..] == Escaped(s[p + 1..])
  {
    hide NeedEscape, HexDigit;
    assert s[p..][1..] == s[p + 1..];
    var k, rest := |EscapedByte(s[p])|, e[d..];
    assert rest == EscapedByte(s[p]) + Escaped(s[p + 1..]);
    assert rest[k..] == Escaped(s[p + 1..]) && e[d + k..] == rest[k..];
    assert e[d] == rest[0];
    if k == 3 {
      assert e[d + 1] == rest[1] && e[d + 2] == rest[2];
    }
  }

  lemma EscapedEnd(s: seq<byte>)
    requires s == []
    ensures Escaped(s) == []
  {
  }
}
