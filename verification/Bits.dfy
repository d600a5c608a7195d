/** Powers of two, and the value of a run of bits of a byte string that goes on with zeros. */
module Bits {
  import opened Arithmetic

  type byte = x: int | 0 <= x < 256

  lemma {:induction false} Pow2Add(a: nat, b: nat)
    ensures Pow2(a + b) == Pow2(a) * Pow2(b)
  {
    if a == 0 {
    } else {
      Pow2Add(a - 1, b);
      assert Pow2(a + b) == 2 * (Pow2(a - 1) * Pow2(b));
      assert 2 * (Pow2(a - 1) * Pow2(b)) == (2 * Pow2(a - 1)) * Pow2(b);
    }
  }

  // (the exponents are parameters, so that the verifier does not unroll Pow2)
  lemma Pow2Byte(n: nat)
    requires n == 8
    ensures Pow2(n) == 256
  {
  }

  lemma Pow2Half(n: nat)
    requires n == 32
    ensures Pow2(n) == 0x1_0000_0000
  {
    Pow2Byte(8);
    Pow2Add(8, 8);
    Pow2Add(16, 16);
  }

  lemma Pow2Word(n: nat)
    requires n == 64
    ensures Pow2(n) == 0x1_0000_0000_0000_0000
  {
    Pow2Half(n - 32);
    Pow2Add(n - 32, n - 32);
  }

  // The bytes of s, then zeros for ever.
  function ByteAt(s: seq<byte>, k: nat): byte {
    if k < |s| then s[k] else 0
  }

  // Bit i of s, most significant bit of each byte first (clause 7.2 of H.264).
  function BitAt(s: seq<byte>, i: nat): (b: nat)
    ensures b <= 1
  {
    ByteAt(s, i / 8) / Pow2(7 - i % 8) % 2
  }

  // The n bits of s from bit q on, read as an unsigned number: read_bits(n) of clause 7.2.
  function ReadBits(s: seq<byte>, q: nat, n: nat): (v: nat)
    ensures v < Pow2(n)
  {
    if n == 0 then 0 else 2 * ReadBits(s, q, n - 1) + BitAt(s, q + n - 1)
  }

  lemma ReadBitsStep(s: seq<byte>, q: nat, n: nat)
    ensures ReadBits(s, q, n + 1) == 2 * ReadBits(s, q, n) + BitAt(s, q + n)
  {
  }

  lemma Pow2Zero()
    ensures Pow2(0) == 1
  {
  }

  lemma Pow2Step(n: nat)
    ensures Pow2(n + 1) == 2 * Pow2(n)
  {
  }

  // The run of n + m bits is that of n bits shifted up by m, then that of m bits.
  ghost predicate Concats(s: seq<byte>, q: nat, n: nat, m: nat) {
    ReadBits(s, q, n + m) == ReadBits(s, q, n) * Pow2(m) + ReadBits(s, q + n, m)
  }

  lemma {:induction false} ConcatsAll(s: seq<byte>, q: nat, n: nat, m: nat)
    ensures Concats(s, q, n, m)
    decreases m
  {
    if m == 0 {
      assert ReadBits(s, q, n) * Pow2(0) == ReadBits(s, q, n);
    } else {
      ConcatsAll(s, q, n, m - 1);
      ConcatsOne(s, q, n, m - 1);
    }
  }

  lemma ConcatsOne(s: seq<byte>, q: nat, n: nat, m: nat)
    requires Concats(s, q, n, m)
    ensures Concats(s, q, n, m + 1)
  {
    hide ReadBits, Pow2, BitAt;
    ReadBitsStep(s, q, n + m);
    ReadBitsStep(s, q + n, m);
    Pow2Step(m);
    ConcatStep(ReadBits(s, q, n), Pow2(m), ReadBits(s, q + n, m), BitAt(s, q + n + m), ReadBits(s, q, n + m));
    assert n + (m + 1) == n + m + 1;
  }

  lemma ReadBitsConcat(s: seq<byte>, q: nat, n: nat, m: nat)
    ensures ReadBits(s, q, n + m) == ReadBits(s, q, n) * Pow2(m) + ReadBits(s, q + n, m)
  {
    hide ReadBits, Pow2;
    ConcatsAll(s, q, n, m);
  }

  lemma ConcatStep(a: nat, p: nat, b: nat, bit: nat, c: nat)
    requires c == a * p + b
    ensures 2 * c + bit == a * (2 * p) + (2 * b + bit)
  {
  }

  // The leading and trailing bits of a run are its quotient and remainder.
  lemma ReadBitsSplit(s: seq<byte>, q: nat, n: nat, m: nat)
    ensures ReadBits(s, q, n + m) / Pow2(m) == ReadBits(s, q, n)
    ensures ReadBits(s, q, n + m) % Pow2(m) == ReadBits(s, q + n, m)
  {
    ReadBitsConcat(s, q, n, m);
    Digits(ReadBits(s, q, n + m), ReadBits(s, q, n), ReadBits(s, q + n, m), Pow2(m));
  }

  // The leading bits of a byte.
  lemma {:induction false} ReadBitsInByte(s: seq<byte>, k: nat, n: nat)
    requires n <= 8
    ensures ReadBits(s, 8 * k, n) == ByteAt(s, k) / Pow2(8 - n)
  {
    if n == 0 {
      Pow2Byte(8 - n);
    } else {
      ReadBitsInByte(s, k, n - 1);
      ReadBitsStep(s, 8 * k, n - 1);
      BitInByte(s, k, n - 1);
      NextBit(ByteAt(s, k), 8 - n);
    }
  }

  lemma BitInByte(s: seq<byte>, k: nat, j: nat)
    requires j < 8
    ensures BitAt(s, 8 * k + j) == ByteAt(s, k) / Pow2(7 - j) % 2
  {
    hide Pow2;
    assert (8 * k + j) / 8 == k && (8 * k + j) % 8 == j;
  }

  lemma NextBit(b: nat, n: nat)
    ensures 2 * (b / Pow2(n + 1)) + b / Pow2(n) % 2 == b / Pow2(n)
  {
    Pow2Step(n);
    hide Pow2;
    Halve(b, Pow2(n));
  }

  lemma Halve(b: nat, p: nat)
    requires p > 0
    ensures 2 * (b / (2 * p)) + b / p % 2 == b / p
  {
    var q, r := b / p, b % p;
    var q2, r2 := q / 2, q % 2;
    assert b == q * p + r;
    assert q * p == q2 * (2 * p) + r2 * p;
    Digits(b, q2, r2 * p + r, 2 * p);
  }

  // The n bytes of s from byte j on as a number, first byte most significant.
  function ReadBytes(s: seq<byte>, j: nat, n: nat): nat {
    if n == 0 then 0 else ReadBytes(s, j, n - 1) * 256 + ByteAt(s, j + n - 1)
  }

  // (the width w of a byte is a parameter, so that the verifier does not unroll ReadBits)
  lemma AppendByte(s: seq<byte>, q: nat, m: nat, k: nat, w: nat)
    requires w == 8 && q + m == 8 * k
    ensures ReadBits(s, q, m + w) == ReadBits(s, q, m) * 256 + ByteAt(s, k)
  {
    ReadBitsConcat(s, q, m, w);
    ReadBitsInByte(s, k, w);
    Pow2Byte(w);
    assert Pow2(8 - w) == 1;
  }

  lemma {:induction false} BytesAreBits(s: seq<byte>, j: nat, n: nat)
    ensures ReadBytes(s, j, n) == ReadBits(s, 8 * j, 8 * n)
  {
    if n == 0 {
    } else {
      BytesAreBits(s, j, n - 1);
      AppendByte(s, 8 * j, 8 * (n - 1), j + n - 1, 8);
      assert 8 * (n - 1) + 8 == 8 * n;
    }
  }

  // Runs of equal bytes are equal numbers.
  lemma {:induction false} SameBytes(x: seq<byte>, s: seq<byte>, j: nat, n: nat)
    requires n <= |x| && forall k | 0 <= k < n :: x[k] == ByteAt(s, j + k)
    ensures ReadBytes(x, 0, n) == ReadBytes(s, j, n)
  {
    if n == 0 {
    } else {
      SameBytes(x, s, j, n - 1);
    }
  }
}
