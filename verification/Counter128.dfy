/** Sixteen-byte big-endian counters whose low `bits` bits are read, masked and reset. */
module Counter128 {
  import opened Bytes

  /** Big-endian value of a byte string. */
  function ToNat(s: seq<byte>): nat {
    if s == [] then 0 else ToNat(s[..|s| - 1]) * 256 + s[|s| - 1]
  }

  function Pow2(n: nat): (r: nat)
    ensures r > 0
  {
    if n == 0 then 1 else 2 * Pow2(n - 1)
  }

  // Arithmetic

  lemma {:induction false} Pow2Add(a: nat, b: nat)
    ensures Pow2(a + b) == Pow2(a) * Pow2(b)
  {
    if b > 0 {
      Pow2Add(a, b - 1);
      assert Pow2(a) * (2 * Pow2(b - 1)) == 2 * (Pow2(a) * Pow2(b - 1));
    }
  }

  lemma Pow2Byte()
    ensures Pow2(8) == 256
  {
    assert Pow2(6) == 64;
  }

  lemma AtLeastOnce(a: int, d: int)
    requires d > 0
    ensures a >= 1 ==> a * d >= d
    ensures a <= -1 ==> a * d <= -d
  {
  }

  lemma DivModUnique(n: int, d: int, q: int, r: int)
    requires d > 0 && n == q * d + r && 0 <= r < d
    ensures n / d == q && n % d == r
  {
    var k := n / d - q;
    assert n == (n / d) * d + n % d;
    assert k * d == (n / d) * d - q * d;
    AtLeastOnce(k, d);
  }

  lemma Distribute(a: int, b: int, c: int)
    ensures (a + b) * c == a * c + b * c
  {
  }

  lemma Associate(a: int, b: int, c: int)
    ensures (a * b) * c == a * (b * c) && (a * b) * c == (a * c) * b
  {
  }

  lemma RemainderBound(b: nat, d: nat)
    requires d > 0
    ensures 0 <= b % d <= b && b % d < d && b == (b / d) * d + b % d
  {
    assert b / d >= 0;
  }

  lemma {:induction false} ToNatBound(s: seq<byte>)
    ensures ToNat(s) < Pow2(8 * |s|)
  {
    if s != [] {
      ToNatBound(s[..|s| - 1]);
      Pow2Byte();
      Pow2Add(8 * (|s| - 1), 8);
    }
  }

  lemma Shift(x: int, p: int, y: int)
    ensures (x * p + y) * 256 == x * (p * 256) + y * 256
  {
  }

  lemma {:induction false} ToNatConcat(a: seq<byte>, b: seq<byte>)
    ensures ToNat(a + b) == ToNat(a) * Pow2(8 * |b|) + ToNat(b)
    decreases |b|
  {
    if b == [] {
      assert a + b == a;
    } else {
      var b' := b[..|b| - 1];
      assert (a + b)[..|a + b| - 1] == a + b';
      ToNatConcat(a, b');
      Pow2Byte();
      Pow2Add(8 * |b'|, 8);
      Shift(ToNat(a), Pow2(8 * |b'|), ToNat(b'));
    }
  }

  lemma {:induction false} ToNatZeros(s: seq<byte>)
    requires forall i :: 0 <= i < |s| ==> s[i] == 0
    ensures ToNat(s) == 0
  {
    if s != [] {
      ToNatZeros(s[..|s| - 1]);
    }
  }

  // Masks

  /** `b & ~(0xFF << r)`. */
  function LowBits(b: byte, r: nat): byte
    requires r < 8
  {
    (ToBits(b) & !(0xFF << r)) as int
  }

  /** `b & (0xFF << r)`. */
  function HighBits(b: byte, r: nat): byte
    requires r < 8
  {
    (ToBits(b) & (0xFF << r)) as int
  }

  /** Keeping the low `r` bits of a byte is taking its remainder by 2^r, and clearing them
      is subtracting that remainder. */
  lemma MaskIsRemainder(b: byte, r: nat)
    requires r < 8
    ensures LowBits(b, r) == b % Pow2(r)
    ensures HighBits(b, r) == b - b % Pow2(r)
  {
    hide LowBits, HighBits;
    SmallPowers();
    hide Pow2;
    match r
    case 0 => Mask0(b);
    case 1 => Mask1(b);
    case 2 => Mask2(b);
    case 3 => Mask3(b);
    case 4 => Mask4(b);
    case 5 => Mask5(b);
    case 6 => Mask6(b);
    case _ => Mask7(b);
  }

  lemma SmallPowers()
    ensures Pow2(0) == 1 && Pow2(1) == 2 && Pow2(2) == 4 && Pow2(3) == 8
    ensures Pow2(4) == 16 && Pow2(5) == 32 && Pow2(6) == 64 && Pow2(7) == 128
  {
  }

  lemma Mask0(b: byte)
    ensures LowBits(b, 0) == b % 1 && HighBits(b, 0) == b - b % 1
  {
    hide ToBits;
    Bits0(ToBits(b));
  }

  lemma Bits0(x: bv8)
    ensures (x & 0x00) as int == x as int % 1
    ensures (x & 0xFF) as int == x as int - x as int % 1
  {
  }

  lemma Mask1(b: byte)
    ensures LowBits(b, 1) == b % 2 && HighBits(b, 1) == b - b % 2
  {
    hide ToBits;
    Bits1(ToBits(b));
  }

  lemma Bits1(x: bv8)
    ensures (x & 0x01) as int == x as int % 2
    ensures (x & 0xFE) as int == x as int - x as int % 2
  {
  }

  lemma Mask2(b: byte)
    ensures LowBits(b, 2) == b % 4 && HighBits(b, 2) == b - b % 4
  {
    hide ToBits;
    Bits2(ToBits(b));
  }

  lemma Bits2(x: bv8)
    ensures (x & 0x03) as int == x as int % 4
    ensures (x & 0xFC) as int == x as int - x as int % 4
  {
  }

  lemma Mask3(b: byte)
    ensures LowBits(b, 3) == b % 8 && HighBits(b, 3) == b - b % 8
  {
    hide ToBits;
    Bits3(ToBits(b));
  }

  lemma Bits3(x: bv8)
    ensures (x & 0x07) as int == x as int % 8
    ensures (x & 0xF8) as int == x as int - x as int % 8
  {
  }

  lemma Mask4(b: byte)
    ensures LowBits(b, 4) == b % 16 && HighBits(b, 4) == b - b % 16
  {
    hide ToBits;
    Bits4(ToBits(b));
  }

  lemma Bits4(x: bv8)
    ensures (x & 0x0F) as int == x as int % 16
    ensures (x & 0xF0) as int == x as int - x as int % 16
  {
  }

  lemma Mask5(b: byte)
    ensures LowBits(b, 5) == b % 32 && HighBits(b, 5) == b - b % 32
  {
    hide ToBits;
    Bits5(ToBits(b));
  }

  lemma Bits5(x: bv8)
    ensures (x & 0x1F) as int == x as int % 32
    ensures (x & 0xE0) as int == x as int - x as int % 32
  {
  }

  lemma Mask6(b: byte)
    ensures LowBits(b, 6) == b % 64 && HighBits(b, 6) == b - b % 64
  {
    hide ToBits;
    Bits6(ToBits(b));
  }

  lemma Bits6(x: bv8)
    ensures (x & 0x3F) as int == x as int % 64
    ensures (x & 0xC0) as int == x as int - x as int % 64
  {
  }

  lemma Mask7(b: byte)
    ensures LowBits(b, 7) == b % 128 && HighBits(b, 7) == b - b % 128
  {
    hide ToBits;
    Bits7(ToBits(b));
  }

  lemma Bits7(x: bv8)
    ensures (x & 0x7F) as int == x as int % 128
    ensures (x & 0x80) as int == x as int - x as int % 128
  {
  }

  // Reading and resetting the low bits

  function Zeros(n: nat): (s: seq<byte>)
    ensures |s| == n && forall i :: 0 <= i < n ==> s[i] == 0
  {
    seq(n, i => 0)
  }

  /** Cutting between bytes: the tail is the remainder, zeroing it subtracts the
      remainder. */
  lemma SplitAtByte(a: seq<byte>, c: seq<byte>)
    ensures var n, m := ToNat(a + c), Pow2(8 * |c|);
            n % m == ToNat(c) && n - n % m == ToNat(a + Zeros(|c|))
  {
    ToNatConcat(a, c);
    ToNatBound(c);
    DivModUnique(ToNat(a + c), Pow2(8 * |c|), ToNat(a), ToNat(c));
    ToNatConcat(a, Zeros(|c|));
    ToNatZeros(Zeros(|c|));
  }

  lemma {:induction false} ToNatAppend(a: seq<byte>, b: byte)
    ensures ToNat(a + [b]) == ToNat(a) * 256 + b
  {
    assert (a + [b])[..|a|] == a;
  }

  lemma {:induction false} ToNatAround(a: seq<byte>, b: byte, c: seq<byte>)
    ensures ToNat(a + [b] + c) == (ToNat(a) * 256 + b) * Pow2(8 * |c|) + ToNat(c)
  {
    hide ToNat, Pow2;
    ToNatConcat(a + [b], c);
    ToNatAppend(a, b);
  }

  lemma OneByte(b: byte)
    ensures ToNat([b]) == b
  {
    assert [b][..0] == [];
  }

  /** The part of `x * 256 + b` above bit `r` is a multiple of `1 << r`. */
  lemma HighPart(x: nat, b: byte, r: nat)
    requires r < 8
    ensures x * 256 + HighBits(b, r) == (x * Pow2(8 - r) + b / Pow2(r)) * Pow2(r)
    ensures HighBits(b, r) + LowBits(b, r) == b && LowBits(b, r) < Pow2(r)
  {
    hide LowBits, HighBits, Pow2;
    MaskIsRemainder(b, r);
    Pow2Byte();
    Pow2Add(8 - r, r);
    RemainderBound(b, Pow2(r));
    Collect(x, Pow2(8 - r), Pow2(r), b / Pow2(r));
  }

  lemma Collect(x: int, S: int, R: int, q: int)
    requires S * R == 256
    ensures (x * S + q) * R == x * 256 + q * R
  {
    Distribute(x * S, q, R);
    Associate(x, S, R);
  }

  lemma CutByte(x: nat, b: byte, r: nat, p: nat, y: nat)
    requires r < 8 && y < p
    ensures var n, m := (x * 256 + b) * p + y, Pow2(r) * p;
            && m > 0
            && n % m == LowBits(b, r) * p + y
            && n - n % m == (x * 256 + HighBits(b, r)) * p
  {
    hide LowBits, HighBits, Pow2;
    HighPart(x, b, r);
    CutSum(x * 256 + HighBits(b, r), x * Pow2(8 - r) + b / Pow2(r), Pow2(r), LowBits(b, r), p, y);
  }

  lemma CutSum(h: nat, q: nat, R: nat, lo: nat, p: nat, y: nat)
    requires lo < R && y < p && h == q * R
    ensures R * p > 0
    ensures ((h + lo) * p + y) % (R * p) == lo * p + y
    ensures (h + lo) * p + y - ((h + lo) * p + y) % (R * p) == h * p
  {
    Distribute(h, lo, p);
    CutAt((h + lo) * p + y, h, q, R, lo, p, y);
  }

  lemma CutAt(n: nat, h: nat, q: nat, R: nat, lo: nat, p: nat, y: nat)
    requires lo < R && y < p && h == q * R && n == h * p + lo * p + y
    ensures R * p > 0
    ensures n % (R * p) == lo * p + y && n - n % (R * p) == h * p
  {
    Associate(q, R, p);
    Distribute(R - lo, lo, p);
    AtLeastOnce(R - lo, p);
    assert lo * p >= 0;
    DivModUnique(n, R * p, q, lo * p + y);
  }

  /** Cutting inside byte `b`, at bit `r`. */
  lemma SplitInByte(a: seq<byte>, b: byte, c: seq<byte>, r: nat)
    requires r < 8
    ensures var n, m := ToNat(a + [b] + c), Pow2(r + 8 * |c|);
            && n % m == ToNat([LowBits(b, r)] + c)
            && n - n % m == ToNat(a + [HighBits(b, r)] + Zeros(|c|))
  {
    hide LowBits, HighBits, ToNat, Pow2, Zeros;
    var z, lo, hi := Zeros(|c|), LowBits(b, r), HighBits(b, r);
    ToNatBound(c);
    Pow2Add(r, 8 * |c|);
    CutByte(ToNat(a), b, r, Pow2(8 * |c|), ToNat(c));
    ToNatAround(a, b, c);
    ToNatAround(a, hi, Zeros(|c|));
    ToNatZeros(Zeros(|c|));
    ToNatConcat([lo], c);
    OneByte(lo);
  }

  /** Reads the low `bits` bits of a counter, through a masked copy of the bytes they
      fall in. */
  method ReadCounter(iv: seq<byte>, bits: nat) returns (n: nat)
    requires |iv| == 16 && 1 <= bits <= 128
    ensures n == ToNat(iv) % Pow2(bits)
  {
    hide ToNat, Pow2, LowBits;
    var remainder := bits % 8;
    if remainder == 0 {
      var bytes := bits / 8;
      assert iv == iv[..16 - bytes] + iv[16 - bytes..];
      SplitAtByte(iv[..16 - bytes], iv[16 - bytes..]);
      return ToNat(iv[16 - bytes..]);
    }
    var bytes := 1 + (bits - 1) / 8;
    var masked := MaskedCopy(iv, bytes, remainder);
    ghost var a, b, c := iv[..16 - bytes], iv[16 - bytes], iv[17 - bytes..];
    assert iv == a + [b] + c;
    assert bits == remainder + 8 * |c|;
    SplitInByte(a, b, c, remainder);
    n := ToNat(masked);
  }

  /** The last `bytes` bytes, with the first of them masked. */
  method MaskedCopy(iv: seq<byte>, bytes: nat, remainder: nat) returns (r: seq<byte>)
    requires |iv| == 16 && 1 <= bytes <= 16 && remainder < 8
    ensures r == [LowBits(iv[16 - bytes], remainder)] + iv[17 - bytes..]
  {
    hide LowBits;
    var buf := new byte[16](_ => 0);
    forall i | 0 <= i < bytes {
      buf[i] := iv[16 - bytes + i];
    }
    buf[0] := LowBits(buf[0], remainder);
    r := buf[..bytes];
  }

  /** Copies a counter and clears its low `bits` bits. */
  method ResetCounter(src: array<byte>, dst: array<byte>, bits: nat)
    requires src.Length == dst.Length == 16 && src != dst && 1 <= bits <= 128
    modifies dst
    ensures ToNat(dst[..]) == ToNat(src[..]) - ToNat(src[..]) % Pow2(bits)
  {
    hide ToNat, Pow2, HighBits;
    var bytes, remainder := bits / 8, bits % 8;
    forall i | 0 <= i < 16 {
      dst[i] := src[i];
    }
    var index := 16 - bytes;
    forall i | index <= i < 16 {
      dst[i] := 0;
    }
    if remainder != 0 {
      dst[index - 1] := HighBits(dst[index - 1], remainder);
      ghost var a, b, c := src[..index - 1], src[index - 1], src[index..];
      assert src[..] == a + [b] + c;
      assert dst[..] == a + [HighBits(b, remainder)] + Zeros(bytes);
      SplitInByte(a, b, c, remainder);
    } else {
      assert src[..] == src[..index] + src[index..];
      assert dst[..] == src[..index] + Zeros(bytes);
      SplitAtByte(src[..index], src[index..]);
    }
  }
}
