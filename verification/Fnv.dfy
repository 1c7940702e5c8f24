/** The step of the FNV-1a hash in 32-bit arithmetic. */
module Fnv {
  const FNV_OFFSET: bv32 := 0x811c_9dc5

  function Mix(hash: bv32, bits: bv32): bv32
  {
    hash ^ bits
  }

  function TimesPrime(x: bv32): bv32
  {
    x * 0x0100_0193
  }

  function HashBits(hash: bv32, bits: bv32): bv32
  {
    TimesPrime(Mix(hash, bits))
  }

  function TimesInverse(x: bv32): bv32
  {
    x * 0x359c_449b
  }

  /** The prime is odd, so multiplying by it can be undone modulo 2^32. */
  lemma PrimeInvertible(x: bv32)
    ensures TimesInverse(x * 0x0100_0193) == x
  {
  }

  lemma PrimeInjective(x: bv32, y: bv32)
    requires TimesPrime(x) == TimesPrime(y)
    ensures x == y
  {
    PrimeInvertible(x);
    PrimeInvertible(y);
  }

  lemma MixInjective(g: bv32, h: bv32, bits: bv32)
    requires Mix(g, bits) == Mix(h, bits)
    ensures g == h
  {
  }

  lemma MixedInjective(h: bv32, x: bv32, y: bv32)
    requires Mix(h, x) == Mix(h, y)
    ensures x == y
  {
  }

  lemma SameStepInjective(g: bv32, h: bv32, bits: bv32)
    requires HashBits(g, bits) == HashBits(h, bits)
    ensures g == h
  {
    PrimeInjective(Mix(g, bits), Mix(h, bits));
    MixInjective(g, h, bits);
  }

  lemma StepInjective(h: bv32, x: bv32, y: bv32)
    requires HashBits(h, x) == HashBits(h, y)
    ensures x == y
  {
    PrimeInjective(Mix(h, x), Mix(h, y));
    MixedInjective(h, x, y);
  }

  // ----- Bytes as words

  lemma LowBit(n: int)
    requires 0 <= n < 256
    ensures (n as bv32) & 1 == if n % 2 == 1 then 1 else 0
  {
  }

  lemma HalfBelow64(n: int)
    requires 0 <= n < 64
    ensures (n as bv32) >> 1 == (n / 2) as bv32
  {
  }

  lemma HalfBelow128(n: int)
    requires 64 <= n < 128
    ensures (n as bv32) >> 1 == (n / 2) as bv32
  {
  }

  lemma HalfBelow192(n: int)
    requires 128 <= n < 192
    ensures (n as bv32) >> 1 == (n / 2) as bv32
  {
  }

  lemma HalfBelow256(n: int)
    requires 192 <= n < 256
    ensures (n as bv32) >> 1 == (n / 2) as bv32
  {
  }

  lemma Half(n: int)
    requires 0 <= n < 256
    ensures (n as bv32) >> 1 == (n / 2) as bv32
  {
    if n < 64 { HalfBelow64(n); } else if n < 128 { HalfBelow128(n); } else if n < 192 { HalfBelow192(n); } else { HalfBelow256(n); }
  }

  /** Bytes that are the same word are the same: they agree in the lowest bit, and so do their halves. */
  lemma {:induction false} SameWord(a: int, b: int)
    requires 0 <= a < 256 && 0 <= b < 256 && a as bv32 == b as bv32
    ensures a == b
    decreases a + b
  {
    if a + b > 0 {
      LowBit(a);
      LowBit(b);
      Half(a);
      Half(b);
      SameWord(a / 2, b / 2);
    }
  }
}
