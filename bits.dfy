/** Bit lists and the little-endian reading `int_from_bits`. */
module Bits {

  function Pow2(n: nat): (r: nat)
    ensures r >= 1
  {
    if n == 0 then 1 else 2 * Pow2(n - 1)
  }

  lemma {:induction false} Pow2Add(m: nat, n: nat)
    ensures Pow2(m + n) == Pow2(m) * Pow2(n)
  {
    if n > 0 {
      Pow2Add(m, n - 1);
      assert Pow2(m + n) == 2 * Pow2(m + n - 1);
    }
  }

  /** Every entry is 0 or 1. */
  predicate IsBits(s: seq<int>)
  {
    forall i :: 0 <= i < |s| ==> s[i] == 0 || s[i] == 1
  }

  /** int_from_bits: the sum of bits[i] * 2^i over the positions of the list, added up in
      enumeration order. */
  function IntFromBits(bits: seq<int>): (n: int)
    ensures n == LittleEndian(bits)
  {
    if |bits| == 0 then 0
    else
      var init, last := bits[..|bits| - 1], bits[|bits| - 1];
      assert bits == init + [last];
      LittleEndianSnoc(init, last);
      IntFromBits(init) + last * Pow2(|bits| - 1)
  }

  /** The reading of a bit list from its first element, as Horner's rule: the first bit
      plus twice the value of the rest. */
  function LittleEndian(bits: seq<int>): int
  {
    if bits == [] then 0 else bits[0] + 2 * LittleEndian(bits[1..])
  }

  /** Appending x at the end of the list adds x * 2^len to its Horner reading. */
  lemma {:induction false} LittleEndianSnoc(b: seq<int>, x: int)
    ensures LittleEndian(b + [x]) == LittleEndian(b) + x * Pow2(|b|)
  {
    if b == [] {
      assert LittleEndian([x]) == x + 2 * LittleEndian([]);
    } else {
      assert (b + [x])[1..] == b[1..] + [x];
      LittleEndianSnoc(b[1..], x);
      var p := Pow2(|b| - 1);
      assert x * Pow2(|b|) == 2 * (x * p);
    }
  }

  /** The empty list reads as 0, and appending x at the end adds x * 2^len. */
  lemma {:induction false} IntFromBitsSnoc(b: seq<int>, x: int)
    ensures IntFromBits([]) == 0
    ensures IntFromBits(b + [x]) == IntFromBits(b) + x * Pow2(|b|)
  {
    assert (b + [x])[..|b|] == b;
  }

  /** Concatenation: the bits of `b` are read with weights shifted by |a|. */
  lemma {:induction false} IntFromBitsAppend(a: seq<int>, b: seq<int>)
    ensures IntFromBits(a + b) == IntFromBits(a) + Pow2(|a|) * IntFromBits(b)
  {
    if b == [] {
      assert a + b == a;
    } else {
      var b', x := b[..|b| - 1], b[|b| - 1];
      assert b == b' + [x];
      assert a + b == (a + b') + [x];
      IntFromBitsSnoc(a + b', x);
      IntFromBitsAppend(a, b');
      IntFromBitsSnoc(b', x);
      Pow2Add(|a|, |b'|);
      var p, q, u := Pow2(|a|), Pow2(|b'|), IntFromBits(b');
      assert IntFromBits(a + b) == IntFromBits(a) + p * u + x * (p * q);
      assert IntFromBits(b) == u + x * q;
      Distribute(p, q, u, x);
    }
  }

  lemma Distribute(p: int, q: int, u: int, x: int)
    ensures p * u + x * (p * q) == p * (u + x * q)
  {
    assert x * (p * q) == p * (x * q);
  }

  /** Little-endian: the first bit is the least significant one. */
  lemma IntFromBitsCons(x: int, b: seq<int>)
    ensures IntFromBits([x] + b) == x + 2 * IntFromBits(b)
  {
    IntFromBitsAppend([x], b);
    assert [x][..0] == [];
  }

  /** A 0/1 list of length n reads as a value in [0, 2^n). */
  lemma {:induction false} IntFromBitsBounds(b: seq<int>)
    requires IsBits(b)
    ensures 0 <= IntFromBits(b) < Pow2(|b|)
  {
    if |b| > 0 {
      var b' := b[..|b| - 1];
      assert IsBits(b');
      IntFromBitsBounds(b');
    }
  }

  /** The `width` least significant bits of n, least significant first: the inverse of
      IntFromBits on 0/1 lists. */
  function ToBits(n: nat, width: nat): (r: seq<int>)
    ensures |r| == width && IsBits(r)
  {
    if width == 0 then [] else [n % 2] + ToBits(n / 2, width - 1)
  }

  lemma {:induction false} ToBitsRoundTrip(n: nat, width: nat)
    requires n < Pow2(width)
    ensures IntFromBits(ToBits(n, width)) == n
  {
    if width == 0 {
    } else {
      ToBitsRoundTrip(n / 2, width - 1);
      IntFromBitsCons(n % 2, ToBits(n / 2, width - 1));
    }
  }

  lemma {:induction false} FromBitsRoundTrip(b: seq<int>)
    requires IsBits(b)
    ensures IntFromBits(b) >= 0 && ToBits(IntFromBits(b), |b|) == b
  {
    if |b| > 0 {
      var t := b[1..];
      assert b == [b[0]] + t;
      assert IsBits(t);
      IntFromBitsCons(b[0], t);
      IntFromBitsBounds(t);
      FromBitsRoundTrip(t);
      var n := IntFromBits(b);
      assert n % 2 == b[0] && n / 2 == IntFromBits(t);
    }
  }
}
