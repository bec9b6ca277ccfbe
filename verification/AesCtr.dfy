/** AES-CTR with a counter of `length` bits, made from a library call that only counts
    modulo 2^128. The block cipher under a fixed key is any function from counter blocks
    to sixteen-byte blocks. */
module AesCtr {
  import opened Bytes
  import opened Counter128

  type Block = s: seq<bv8> | |s| == 16 witness [0, 0, 0, 0, 0, 0, 0, 0, 0, 0, 0, 0, 0, 0, 0, 0]

  type Cipher = nat -> Block

  /** How a call ends without a result. `Overrun` is no error of the code: it marks a call
      that hands the library more bytes than the message has. */
  datatype Error =
    | InvalidKeyLength
    | InvalidCounterLength
    | InvalidLength
    | ShiftFailed
    | RepeatedCounter
    | Overrun

  datatype Result<+T> = Ok(value: T) | Err(error: Error)

  /** One more than the largest value of the source's unsigned machine word. */
  const WORD: nat := 0x1_0000_0000_0000_0000

  /** What the library call computes: XOR with the blocks of `start`, `start + 1`, ...
      counted modulo 2^128. */
  function Ctr128(cipher: Cipher, data: seq<bv8>, start: nat): seq<bv8> {
    seq(|data|, j requires 0 <= j < |data| =>
      data[j] ^ cipher((start + j / 16) % Pow2(128))[j % 16])
  }

  // Reference: appendix B.1 of NIST SP 800-38A

  /** Counter block `i`: the high bits of `n` stay, the low `bits` bits count on and wrap. */
  function CounterBlock(n: nat, bits: nat, i: nat): nat {
    RemainderBound(n, Pow2(bits));
    n - n % Pow2(bits) + (n % Pow2(bits) + i) % Pow2(bits)
  }

  function CtrMode(cipher: Cipher, data: seq<bv8>, n: nat, bits: nat): seq<bv8> {
    seq(|data|, j requires 0 <= j < |data| => data[j] ^ cipher(CounterBlock(n, bits, j / 16))[j % 16])
  }

  /** The number of blocks of `size` bytes. */
  function BlockCount(size: nat): nat { (size + 15) / 16 }

  // Block counts

  /** The rounded-up division of machine words, with its wrap-around at zero. */
  function CeilDiv(dividend: nat, divisor: nat): nat
    requires dividend < WORD
  {
    if divisor == 0 then 0
    else (1 + (if dividend == 0 then WORD - 1 else dividend - 1) / divisor) % WORD
  }

  /** By 16 it is exact except for zero, which counts as 2^60 blocks. */
  lemma CeilDivBlocks(size: nat)
    requires size < WORD
    ensures CeilDiv(size, 16) == if size == 0 then 0x1000_0000_0000_0000 else BlockCount(size)
  {
  }

  // One run

  lemma Scale(a: int, b: int, m: int)
    requires a <= b && m >= 0
    ensures a * m <= b * m
  {
    assert (b - a) * m >= 0;
    Distribute(b - a, a, m);
  }

  /** The last multiple of `m` that does not exceed `n` leaves room for one more below any
      larger multiple. */
  lemma RoomForOneMore(n: nat, m: nat, k: nat)
    requires m > 0 && n < k * m
    ensures n - n % m + m <= k * m
  {
    var q := n / m;
    RemainderBound(n, m);
    if q >= k {
      Scale(k, q, m);
    } else {
      Scale(q + 1, k, m);
      Distribute(q, 1, m);
    }
  }

  lemma WholeCounterFits(n: nat, bits: nat)
    requires n < Pow2(128) && bits <= 128
    ensures n % Pow2(bits) <= n
    ensures n - n % Pow2(bits) + Pow2(bits) <= Pow2(128)
  {
    hide Pow2;
    Pow2Add(128 - bits, bits);
    RemainderBound(n, Pow2(bits));
    RoomForOneMore(n, Pow2(bits), Pow2(128 - bits));
  }

  lemma SmallRemainder(a: nat, m: nat)
    requires a < m
    ensures a % m == a
  {
  }

  lemma WrappedRemainder(a: nat, m: nat)
    requires m <= a < 2 * m
    ensures a % m == a - m
  {
    DivModUnique(a, m, 1, a - m);
  }

  /** Before the low bits overflow, both ways of counting agree. */
  lemma SameBlock(n: nat, bits: nat, i: nat)
    requires n < Pow2(128) && bits <= 128 && n % Pow2(bits) + i < Pow2(bits)
    ensures (n + i) % Pow2(128) == CounterBlock(n, bits, i)
  {
    hide Pow2;
    WholeCounterFits(n, bits);
    SmallRemainder(n % Pow2(bits) + i, Pow2(bits));
    SmallRemainder(n + i, Pow2(128));
  }

  lemma OneRun(cipher: Cipher, data: seq<bv8>, n: nat, bits: nat)
    requires n < Pow2(128) && bits <= 128
    requires n % Pow2(bits) + BlockCount(|data|) <= Pow2(bits)
    ensures Ctr128(cipher, data, n) == CtrMode(cipher, data, n, bits)
  {
    hide Pow2, CounterBlock;
    forall j | 0 <= j < |data|
      ensures (n + j / 16) % Pow2(128) == CounterBlock(n, bits, j / 16)
    {
      SameBlock(n, bits, j / 16);
    }
  }

  // Two runs

  /** After the overflow, counting on from the cleared counter agrees. */
  lemma SameBlockAfterWrap(n: nat, bits: nat, left: nat, i: nat)
    requires n < Pow2(128) && bits <= 128
    requires n % Pow2(bits) + left == Pow2(bits) && i < Pow2(bits)
    ensures n % Pow2(bits) <= n
    ensures (n - n % Pow2(bits) + i) % Pow2(128) == CounterBlock(n, bits, left + i)
  {
    hide Pow2;
    WholeCounterFits(n, bits);
    WrappedRemainder(n % Pow2(bits) + left + i, Pow2(bits));
    SmallRemainder(n - n % Pow2(bits) + i, Pow2(128));
  }

  /** Two runs that meet at the overflow. The first is a positive whole number of blocks
      and shorter than the data. */
  lemma TwoRuns(cipher: Cipher, data: seq<bv8>, n: nat, bits: nat, left: nat)
    requires n < Pow2(128) && bits <= 128
    requires n % Pow2(bits) + left == Pow2(bits)
    requires left < BlockCount(|data|) <= Pow2(bits)
    ensures 0 < left * 16 < |data| && n % Pow2(bits) <= n
    ensures Ctr128(cipher, data[..left * 16], n)
          + Ctr128(cipher, data[left * 16..], n - n % Pow2(bits))
         == CtrMode(cipher, data, n, bits)
  {
    hide Pow2, CounterBlock;
    var m := left * 16;
    RemainderBound(n, Pow2(bits));
    var a, b := Ctr128(cipher, data[..m], n), Ctr128(cipher, data[m..], n - n % Pow2(bits));
    var c := CtrMode(cipher, data, n, bits);
    forall j | 0 <= j < |data| ensures (a + b)[j] == c[j] {
      if j < m {
        SameBlock(n, bits, j / 16);
      } else {
        SameBlockAfterWrap(n, bits, left, (j - m) / 16);
        assert j / 16 == left + (j - m) / 16 && j % 16 == (j - m) % 16;
      }
    }
  }

  // The call

  predicate Refused(size: nat, bits: nat) {
    if size == 0 then bits < 60 else BlockCount(size) > Pow2(bits)
  }

  /** How many blocks are left before the low `bits` bits of `n` overflow. */
  function BlocksLeft(n: nat, bits: nat): nat {
    RemainderBound(n, Pow2(bits));
    Pow2(bits) - n % Pow2(bits)
  }

  /** Accepted calls are counter mode with a counter of `length` bits. An empty message is
      taken for 2^60 blocks: counters of less than 60 bits refuse it, and a counter with
      fewer blocks left is split at a point behind the message. */
  function Expected(cipher: Cipher, keySize: nat, data: seq<bv8>, iv: seq<byte>, length: int)
    : Result<seq<bv8>>
  {
    if keySize != 16 && keySize != 24 && keySize != 32 then Err(InvalidKeyLength)
    else if |iv| != 16 then Err(InvalidCounterLength)
    else if length == 0 || length > 128 then Err(InvalidLength)
    else if length < 0 then Err(ShiftFailed)
    else if Refused(|data|, length) then Err(RepeatedCounter)
    else if |data| == 0 && BlocksLeft(ToNat(iv), length) < Pow2(60) then Err(Overrun)
    else Ok(CtrMode(cipher, data, ToNat(iv), length))
  }

  /** A call is accepted exactly with a key of 128, 192 or 256 bits, a counter block of sixteen
      bytes, a length of 1 to 128 bits, and no more blocks than the counter has values; the
      result is then counter mode. An empty message must leave room for 2^60 blocks. */
  lemma AcceptedIff(cipher: Cipher, keySize: nat, data: seq<bv8>, iv: seq<byte>, length: int, out: seq<bv8>)
    ensures Expected(cipher, keySize, data, iv, length) == Ok(out) <==>
            && keySize in {16, 24, 32} && |iv| == 16 && 1 <= length <= 128
            && (if data == [] then length >= 60 && BlocksLeft(ToNat(iv), length) >= Pow2(60)
                else BlockCount(|data|) <= Pow2(length))
            && out == CtrMode(cipher, data, ToNat(iv), length)
  {
    hide Pow2, ToNat, CtrMode, BlocksLeft;
  }

  /** The first check that fails decides the error. */
  lemma RefusedAs(cipher: Cipher, keySize: nat, data: seq<bv8>, iv: seq<byte>, length: int)
    ensures var r, key := Expected(cipher, keySize, data, iv, length), keySize in {16, 24, 32};
            && (!key ==> r == Err(InvalidKeyLength))
            && (key && |iv| != 16 ==> r == Err(InvalidCounterLength))
            && (key && |iv| == 16 && (length == 0 || length > 128) ==> r == Err(InvalidLength))
            && (key && |iv| == 16 && 1 <= length <= 128 && data != [] && BlockCount(|data|) > Pow2(length)
                ==> r == Err(RepeatedCounter))
            && (key && |iv| == 16 && 1 <= length < 60 && data == [] ==> r == Err(RepeatedCounter))
  {
    hide Pow2, ToNat, CtrMode, BlocksLeft;
  }

  /** The first of two runs stays inside the message exactly when the message is not empty
      or 2^60 blocks are left. */
  lemma SplitFitsIff(size: nat, n: nat, bits: nat)
    requires size < WORD && !Refused(size, bits)
    ensures (BlocksLeft(n, bits) < CeilDiv(size, 16) ==> BlocksLeft(n, bits) * 16 <= size)
       <==> size > 0 || BlocksLeft(n, bits) >= Pow2(60)
  {
    hide Pow2;
    CeilDivBlocks(size);
    Pow2Of60();
    RemainderBound(n, Pow2(bits));
  }

  lemma {:induction false} AllOnes(s: seq<byte>)
    requires forall i :: 0 <= i < |s| ==> s[i] == 0xFF
    ensures ToNat(s) == Pow2(8 * |s|) - 1
  {
    if s != [] {
      AllOnes(s[..|s| - 1]);
      Pow2Byte();
      Pow2Add(8 * (|s| - 1), 8);
    }
  }

  /** An empty message, the last value of a 64-bit counter: the code asks the library to
      encrypt sixteen bytes of it. */
  lemma EmptyMessageOverruns(cipher: Cipher, iv: seq<byte>)
    requires |iv| == 16 && forall i :: 0 <= i < 16 ==> iv[i] == 0xFF
    ensures BlocksLeft(ToNat(iv), 64) == 1 < CeilDiv(0, 16)
    ensures Expected(cipher, 16, [], iv, 64) == Err(Overrun)
  {
    hide Pow2, ToNat;
    var a, c := iv[..8], iv[8..];
    assert iv == a + c;
    SplitAtByte(a, c);
    AllOnes(c);
    CeilDivBlocks(0);
    Pow2Of60();
  }

  lemma RefusedIffTooManyBlocks(size: nat, bits: nat)
    requires size < WORD
    ensures CeilDiv(size, 16) > Pow2(bits) <==> Refused(size, bits)
  {
    CeilDivBlocks(size);
    if size == 0 {
      Pow2Of60();
      if bits < 60 {
        Pow2Monotone(bits, 60);
      } else {
        Pow2Monotone(60, bits);
      }
    }
  }

  lemma Pow2Of60()
    ensures Pow2(60) == 0x1000_0000_0000_0000
  {
    assert Pow2(10) == 0x400;
    assert Pow2(20) == 0x10_0000;
    assert Pow2(30) == 0x4000_0000;
    assert Pow2(40) == 0x100_0000_0000;
    assert Pow2(50) == 0x4_0000_0000_0000;
  }

  lemma {:induction false} Pow2Monotone(a: nat, b: nat)
    requires a <= b
    ensures Pow2(a) <= Pow2(b) && (a < b ==> Pow2(a) < Pow2(b))
    decreases b
  {
    if a < b {
      Pow2Monotone(a, b - 1);
    }
  }

  /** The cipher call. */
  method CipherAesCtr(cipher: Cipher, keySize: nat, data: seq<bv8>, iv: array<byte>, length: int)
    returns (r: Result<seq<bv8>>)
    requires |data| < WORD
    ensures r == Expected(cipher, keySize, data, iv[..], length)
  {
    hide Pow2, ToNat, Ctr128, CtrMode;
    if keySize != 16 && keySize != 24 && keySize != 32 {
      return Err(InvalidKeyLength);
    }
    if iv.Length != 16 {
      return Err(InvalidCounterLength);
    }
    if length == 0 || length > 128 {
      return Err(InvalidLength);
    }
    if length < 0 {
      return Err(ShiftFailed);
    }
    var total := Pow2(length);
    var ctr := ReadCounter(iv[..], length);
    var blocks := CeilDiv(|data|, 16);
    RefusedIffTooManyBlocks(|data|, length);
    if blocks > total {
      return Err(RepeatedCounter);
    }
    var left := total - ctr;
    ghost var n := ToNat(iv[..]);
    ToNatBound(iv[..]);
    CeilDivBlocks(|data|);
    Pow2Of60();
    RemainderBound(n, total);
    if left >= blocks {
      OneRun(cipher, data, n, length);
      return Ok(Ctr128(cipher, data, ToNat(iv[..])));
    }
    var size1 := left * 16;
    assert size1 < WORD;
    if size1 > |data| {
      return Err(Overrun);
    }
    TwoRuns(cipher, data, n, length, left);
    var first := Ctr128(cipher, data[..size1], ToNat(iv[..]));
    var iv2 := new byte[16](_ => 0);
    ResetCounter(iv, iv2, length);
    var second := Ctr128(cipher, data[size1..], ToNat(iv2[..]));
    return Ok(first + second);
  }

  // What the mode guarantees

  /** Decryption is encryption: applying the mode twice returns the data. */
  lemma Involution(cipher: Cipher, data: seq<bv8>, n: nat, bits: nat)
    ensures CtrMode(cipher, CtrMode(cipher, data, n, bits), n, bits) == data
  {
    hide CounterBlock;
    var once := CtrMode(cipher, data, n, bits);
    forall j | 0 <= j < |data|
      ensures CtrMode(cipher, once, n, bits)[j] == data[j]
    {
      var k := cipher(CounterBlock(n, bits, j / 16))[j % 16];
      assert (data[j] ^ k) ^ k == data[j];
    }
  }

  /** A call with the same key, counter and length undoes any accepted call. */
  lemma SecondCallUndoesFirst(cipher: Cipher, keySize: nat, data: seq<bv8>, iv: seq<byte>, length: int)
    requires Expected(cipher, keySize, data, iv, length).Ok?
    ensures var out := Expected(cipher, keySize, data, iv, length).value;
            |out| == |data| && Expected(cipher, keySize, out, iv, length) == Ok(data)
  {
    Involution(cipher, data, ToNat(iv), length);
    hide ToNat, Refused;
  }

  /** No two blocks of an accepted call use the same counter block. */
  lemma CounterBlocksAreDistinct(n: nat, bits: nat, size: nat, i: nat, k: nat)
    requires size > 0 && !Refused(size, bits) && i < k < BlockCount(size)
    ensures CounterBlock(n, bits, i) != CounterBlock(n, bits, k)
  {
    hide Pow2;
    var m := Pow2(bits);
    var c := n % m;
    RemainderBound(n, m);
    if c + i < m { SmallRemainder(c + i, m); } else { WrappedRemainder(c + i, m); }
    if c + k < m { SmallRemainder(c + k, m); } else { WrappedRemainder(c + k, m); }
  }
}
