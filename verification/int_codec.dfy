/**
 * The fixed-width big-endian integer codec of the conformance harness:
 * IntToBytes writes the k low-order bytes of an integer, most significant
 * first, and BytesToInt reads a byte slice back into a Go `int`.
 */
module IntCodec {
  import opened GoBase

  /** 256^e, the weight of the byte e places from the right of a big-endian number. */
  function Pow256(e: nat): (p: nat)
    ensures p >= 1
  {
    if e == 0 then 1 else 256 * Pow256(e - 1)
  }

  /** The arithmetic right shift n >> 8j: j successive floor divisions by 256.
      For a 64-bit n this is also Go's result when 8j >= 64 (0 or -1). */
  function Shr8(n: int, j: nat): int
    decreases j
  {
    if j == 0 then n else Shr8(n / 256, j - 1)
  }

  /** The unsigned value of b read as a big-endian number. */
  function BigEndian(b: seq<byte>): nat {
    if b == [] then 0 else BigEndian(b[..|b| - 1]) * 256 + b[|b| - 1]
  }

  /** The value of b fits in |b| bytes. */
  lemma {:induction false} BigEndianBound(b: seq<byte>)
    ensures BigEndian(b) < Pow256(|b|)
  {
    if b != [] {
      BigEndianBound(b[..|b| - 1]);
    }
  }

  /** The k low-order bytes of n, most significant first (n is taken modulo
      256^k, in two's complement when negative). */
  function EncodeBE(n: int, k: nat): (b: seq<byte>)
    ensures |b| == k
    decreases k
  {
    if k == 0 then [] else EncodeBE(n / 256, k - 1) + [n % 256]
  }

  /** What Go's bytesToInt computes, step by step: the 64-bit word its loop
      builds, read as a signed `int`. */
  function GoBytesToInt(b: seq<byte>): (r: int)
    ensures IsInt64(r)
  {
    ToInt64(GoWord(b, |b|))
  }

  /** The value bytesToInt returns, in closed form: the big-endian value of
      the last (at most) eight bytes, read as a signed `int`. That this is
      what Go computes is the lemma BytesToIntReadsBigEndian. */
  function BytesToIntSpec(b: seq<byte>): (r: int)
    ensures IsInt64(r)
  {
    ToInt64(BigEndian(LastEight(b)))
  }

  /** The 64-bit word bytesToInt holds after its loop has consumed b[..i]:
      each byte ORed in after a left shift by 8 times its distance from the
      end of b. */
  function GoWord(b: seq<byte>, i: nat): nat
    requires i <= |b|
    decreases i
  {
    if i == 0 then 0 else Or(GoWord(b, i - 1), Shl64(b[i - 1], 8 * (|b| - i)))
  }

  /** The bytes of b whose shift in bytesToInt is below 64. */
  function LastEight(b: seq<byte>): seq<byte> {
    if |b| <= 8 then b else b[|b| - 8..]
  }

  /** Byte i of EncodeBE(n, k) is (n >> 8(k-1-i)) truncated to a byte: the
      big-endian layout that intToBytes writes. */
  lemma {:induction false} EncodeBEAt(n: int, k: nat, i: nat)
    requires i < k
    ensures EncodeBE(n, k)[i] == Shr8(n, k - 1 - i) % 256
    decreases k
  {
    if i < k - 1 {
      EncodeBEAt(n / 256, k - 1, i);
    }
  }

  /** Reading back an encoding of a value that fits recovers the value. */
  lemma {:induction false} BigEndianOfEncodeBE(n: int, k: nat)
    requires 0 <= n < Pow256(k)
    ensures BigEndian(EncodeBE(n, k)) == n
  {
    if k > 0 {
      BigEndianOfEncodeBE(n / 256, k - 1);
      var b := EncodeBE(n, k);
      assert b[..|b| - 1] == EncodeBE(n / 256, k - 1);
    }
  }

  /** Encoding the value of a byte sequence at its own width gives it back. */
  lemma {:induction false} EncodeBEOfBigEndian(b: seq<byte>)
    ensures EncodeBE(BigEndian(b), |b|) == b
  {
    if b != [] {
      var init := b[..|b| - 1];
      EncodeBEOfBigEndian(init);
      var v := BigEndian(b);
      assert v / 256 == BigEndian(init) && v % 256 == b[|b| - 1];
      assert b == init + [b[|b| - 1]];
    }
  }

  /** EncodeBE(n, k) depends only on n modulo 256^k: adding 256^k changes nothing. */
  lemma {:induction false} EncodeBEPeriodic(n: int, m: int, k: nat)
    requires m == n + Pow256(k)
    ensures EncodeBE(m, k) == EncodeBE(n, k)
    decreases k
  {
    if k > 0 {
      var p := Pow256(k - 1);
      assert m / 256 == n / 256 + p;
      assert m % 256 == n % 256;
      EncodeBEPeriodic(n / 256, m / 256, k - 1);
    }
  }

  /** The widths of a 7-byte and of an 8-byte word. */
  lemma Pow256Words()
    ensures Pow256(7) == 0x100_0000_0000_0000
    ensures Pow256(8) == TwoTo64
  {
    assert Pow256(1) == 0x100;
    assert Pow256(2) == 0x1_0000;
    assert Pow256(3) == 0x100_0000;
    assert Pow256(4) == 0x1_0000_0000;
    assert Pow256(5) == 0x100_0000_0000;
    assert Pow256(6) == 0x1_0000_0000_0000;
  }

  /** Pow256 grows with its exponent. */
  lemma {:induction false} Pow256Monotone(a: nat, b: nat)
    requires a <= b
    ensures Pow256(a) <= Pow256(b)
  {
    if a < b {
      Pow256Monotone(a, b - 1);
    }
  }

  /** Go's intToBytes(n, nidSize): a buffer of nidSize bytes whose byte i is
      byte(n >> (8 * (nidSize - i - 1))). */
  method IntToBytes(n: int, nidSize: nat) returns (b: seq<byte>)
    ensures b == EncodeBE(n, nidSize)
  {
    var buf := new byte[nidSize](_ => 0);
    for i := 0 to nidSize
      invariant forall j :: 0 <= j < i ==> buf[j] == Shr8(n, nidSize - 1 - j) % 256
    {
      buf[i] := Shr8(n, nidSize - i - 1) % 256;
    }
    b := buf[..];
    forall j | 0 <= j < nidSize
      ensures b[j] == EncodeBE(n, nidSize)[j]
    {
      EncodeBEAt(n, nidSize, j);
    }
  }

  /** One loop step of bytesToInt: placing b[i] one lane below the bytes
      b[lo..i] read so far yields the big-endian value of b[lo..i + 1]. */
  lemma {:induction false} AccumulateStep(b: seq<byte>, lo: nat, i: nat, lane: nat)
    requires lo <= i < |b| && lane == |b| - 1 - i
    ensures BigEndian(b[lo..i]) * Pow256(lane + 1) + b[i] * Pow256(lane)
            == BigEndian(b[lo..i + 1]) * Pow256(lane)
  {
    var x := BigEndian(b[lo..i]);
    var p := Pow256(lane);
    assert b[lo..i + 1][..i - lo] == b[lo..i];
    assert BigEndian(b[lo..i + 1]) == x * 256 + b[i];
    calc {
      x * Pow256(lane + 1) + b[i] * p;
      x * (256 * p) + b[i] * p;
      (x * 256 + b[i]) * p;
    }
  }

  /** The bytes of b at positions lo <= j < i, each shifted to its big-endian
      place: the sum of b[j] * 256^(|b|-1-j). */
  function Shifted(b: seq<byte>, lo: nat, i: nat): int
    requires i <= |b|
    decreases i
  {
    if i <= lo then 0 else Shifted(b, lo, i - 1) + b[i - 1] * Pow256(|b| - i)
  }

  /** The shifted bytes in [lo, i) add up to the big-endian value of b[lo..i]
      scaled by the weight of the byte at position i - 1. */
  lemma {:induction false} ShiftedIsBigEndian(b: seq<byte>, lo: nat, i: nat)
    requires lo <= i <= |b|
    ensures Shifted(b, lo, i) == BigEndian(b[lo..i]) * Pow256(|b| - i)
    decreases i
  {
    if lo < i {
      ShiftedIsBigEndian(b, lo, i - 1);
      AccumulateStep(b, lo, i - 1, |b| - i);
    } else {
      assert b[lo..i] == [];
    }
  }

  /** 256^e is 2^(8e). */
  lemma {:induction false} Pow256IsPow2(e: nat)
    ensures Pow256(e) == Pow2(8 * e)
  {
    if e > 0 {
      Pow256IsPow2(e - 1);
      Pow2Add(8 * (e - 1), 8);
      assert Pow2(8) == 256;
    }
  }

  /** 2^(a+b) is 2^a * 2^b. */
  lemma {:induction false} Pow2Add(a: nat, b: nat)
    ensures Pow2(a + b) == Pow2(a) * Pow2(b)
    decreases b
  {
    if b > 0 {
      Pow2Add(a, b - 1);
      assert Pow2(a + b) == 2 * Pow2(a + b - 1);
    }
  }

  /** A byte shifted left by a whole number of bytes below 64 bits keeps all
      its bits: it lands in byte lane `lane` of the word. */
  lemma ShlLane(x: byte, lane: nat)
    requires lane < 8
    ensures Shl64(x, 8 * lane) == x * Pow256(lane) < Pow256(lane + 1)
  {
    var p := Pow256(lane);
    Pow256IsPow2(lane);
    Pow256Monotone(lane + 1, 8);
    Pow256Words();
    assert Pow256(lane + 1) == 256 * p;
    assert x * p <= 255 * p;
    assert 0 <= x * p < TwoTo64;
  }

  /** A step of bytesToInt's loop whose shift is below 64 adds the shifted
      byte to the word, as the next term of Shifted. */
  lemma GoWordAddsLane(b: seq<byte>, lo: nat, i: nat)
    requires lo < i <= |b| && |b| - i < 8
    requires GoWord(b, i - 1) == Shifted(b, lo, i - 1)
    ensures GoWord(b, i) == Shifted(b, lo, i)
  {
    var lane := |b| - i;
    var x, y := BigEndian(b[lo..i - 1]), b[i - 1] * Pow256(lane);
    ShiftedIsBigEndian(b, lo, i - 1);
    ShlLane(b[i - 1], lane);
    Pow256IsPow2(lane + 1);
    OrDisjoint(x, 8 * (lane + 1), y);
  }

  /** Each step of bytesToInt's loop adds a byte to the word when its shift is
      below 64 and leaves the word unchanged otherwise, so after i steps the
      word is the sum of the shifted bytes among the last eight. */
  lemma {:induction false} GoWordIsShifted(b: seq<byte>, i: nat)
    requires i <= |b|
    ensures GoWord(b, i) == Shifted(b, if |b| <= 8 then 0 else |b| - 8, i)
    decreases i
  {
    var lo := if |b| <= 8 then 0 else |b| - 8;
    if i > 0 {
      GoWordIsShifted(b, i - 1);
      var lane := |b| - i;
      if lane < 8 {
        GoWordAddsLane(b, lo, i);
      } else {
        assert Shl64(b[i - 1], 8 * lane) == 0;
        assert Shifted(b, lo, i) == 0;
      }
    }
  }

  /** bytesToInt reads the big-endian value of the last (at most) eight bytes
      of b as a signed 64-bit `int`: a leading byte is shifted by 64 or more
      and vanishes, and the others land in distinct byte lanes, so OR adds them. */
  lemma BytesToIntReadsBigEndian(b: seq<byte>)
    ensures GoBytesToInt(b) == BytesToIntSpec(b)
  {
    var lo := if |b| <= 8 then 0 else |b| - 8;
    var v := BigEndian(b[lo..|b|]);
    GoWordIsShifted(b, |b|);
    ShiftedIsBigEndian(b, lo, |b|);
    assert Pow256(0) == 1;
    assert GoWord(b, |b|) == v * Pow256(0) == v;
    assert b[lo..|b|] == LastEight(b);
  }

  /** Go's bytesToInt: ORs each byte, shifted left by 8 times its distance
      from the end, into a 64-bit `int`. */
  method BytesToInt(bytes: seq<byte>) returns (result: int)
    ensures result == GoBytesToInt(bytes)
    ensures result == BytesToIntSpec(bytes)
  {
    var word := 0;  // the 64 bits of Go's result, read as an unsigned number
    for i := 0 to |bytes|
      invariant word == GoWord(bytes, i)
    {
      var shift := (|bytes| - 1 - i) * 8;
      word := Or(word, Shl64(bytes[i], shift));
    }
    result := ToInt64(word);
    BytesToIntReadsBigEndian(bytes);
  }

  /** A slice of at most eight bytes decodes to its unsigned big-endian value,
      less 2^64 when its top bit is set (an 8-byte slice starting at 0x80 or above). */
  lemma BytesToIntOfShort(b: seq<byte>)
    requires |b| <= 8
    ensures var v := BigEndian(b);
            BytesToIntSpec(b) == if v < TwoTo63 then v else v - TwoTo64
  {
    assert LastEight(b) == b;
    BigEndianBound(b);
    Pow256Words();
    Pow256Monotone(|b|, 8);
  }

  /** Decoding an encoding recovers the integer when it fits in the width:
      0 <= n < 256^k for k <= 8, or any 64-bit n when k == 8. */
  lemma BytesToIntOfEncodeBE(n: int, k: nat)
    requires k <= 8 && IsInt64(n)
    requires 0 <= n < Pow256(k) || k == 8
    ensures BytesToIntSpec(EncodeBE(n, k)) == n
  {
    var b := EncodeBE(n, k);
    if 0 <= n < Pow256(k) {
      BigEndianOfEncodeBE(n, k);
      BytesToIntOfShort(b);
    } else {
      assert k == 8;
      Pow256Words();
      var v := n + Pow256(k);
      EncodeBEPeriodic(n, v, k);
      BigEndianOfEncodeBE(v, k);
      assert BigEndian(b) == v >= TwoTo63;
      BytesToIntOfShort(b);
    }
  }

  /** Encoding a decoded slice of at most eight bytes at its own width gives
      the slice back, including an 8-byte slice that decodes to a negative int. */
  lemma EncodeBEOfBytesToInt(b: seq<byte>)
    requires |b| <= 8
    ensures EncodeBE(BytesToIntSpec(b), |b|) == b
  {
    BytesToIntOfShort(b);
    EncodeBEOfBigEndian(b);
    if BigEndian(b) >= TwoTo63 {
      TopBitNeedsEightBytes(b);
      Pow256Words();
      EncodeBEWraps(b, BytesToIntSpec(b));
    }
  }

  /** A slice is also the encoding, at its own width, of its value less 256^|b|. */
  lemma EncodeBEWraps(b: seq<byte>, n: int)
    requires n == BigEndian(b) - Pow256(|b|)
    ensures EncodeBE(n, |b|) == b
  {
    EncodeBEPeriodic(n, BigEndian(b), |b|);
    EncodeBEOfBigEndian(b);
  }

  /** Only an 8-byte slice can have a value of 2^63 or more. */
  lemma TopBitNeedsEightBytes(b: seq<byte>)
    requires |b| <= 8 && BigEndian(b) >= TwoTo63
    ensures |b| == 8
  {
    if |b| < 8 {
      BigEndianBound(b);
      Pow256Monotone(|b|, 7);
      Pow256Words();
    }
  }

  /** bytesToInt reads only the last eight bytes of a longer slice. */
  lemma BytesToIntReadsLastEight(b: seq<byte>)
    requires |b| > 8
    ensures GoBytesToInt(b) == GoBytesToInt(b[|b| - 8..])
  {
    BytesToIntReadsBigEndian(b);
    BytesToIntReadsBigEndian(b[|b| - 8..]);
    assert LastEight(b[|b| - 8..]) == b[|b| - 8..];
  }
}
