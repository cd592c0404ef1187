/**
 * JavaScript's bitwise operators. A 32-bit integer is the sequence of its bits, lowest first, so the sign is
 * bit 31 and `>>` copies it.
 */
module Bitwise {

  type Word = w: seq<bool> | |w| == 32 witness seq(32, i => false)

  const ZERO: Word := seq(32, i => false)

  function Xor(a: Word, b: Word): Word {
    seq(32, i requires 0 <= i < 32 => a[i] != b[i])
  }

  function And(a: Word, b: Word): Word {
    seq(32, i requires 0 <= i < 32 => a[i] && b[i])
  }

  /** `x << k`: the top bits are lost. */
  function ShiftLeft(x: Word, k: nat): Word {
    seq(32, i requires 0 <= i < 32 => i >= k && x[i - k])
  }

  /** `x >> k`: the sign is copied. */
  function ShiftRight(x: Word, k: nat): Word {
    seq(32, i requires 0 <= i < 32 => if i + k < 32 then x[i + k] else x[31])
  }

  /** The low `k` bits of a number. */
  function Bits(n: nat, k: nat): (bits: seq<bool>)
    ensures |bits| == k
  {
    if k == 0 then [] else [n % 2 == 1] + Bits(n / 2, k - 1)
  }

  /** The number a bit string stands for. */
  function Value(bits: seq<bool>): nat {
    if bits == [] then 0 else (if bits[0] then 1 else 0) + 2 * Value(bits[1..])
  }

  function ToWord(n: nat): Word {
    Bits(n, 32)
  }

  function Pow2(k: nat): (p: nat)
    ensures p > 0
  {
    if k == 0 then 1 else 2 * Pow2(k - 1)
  }

  lemma DoubleOfProduct(a: int, b: int)
    ensures 2 * (a * b) == (2 * a) * b
  {
  }

  lemma {:induction false} Pow2Adds(j: nat, k: nat)
    ensures Pow2(j + k) == Pow2(j) * Pow2(k)
  {
    if j > 0 {
      var a, b := Pow2(j - 1), Pow2(k);
      calc {
        Pow2(j + k);
        2 * Pow2(j - 1 + k);
        { Pow2Adds(j - 1, k); }
        2 * (a * b);
        { DoubleOfProduct(a, b); }
        (2 * a) * b;
      }
    }
  }

  lemma {:induction false} ValueOfBits(n: nat, k: nat)
    requires n < Pow2(k)
    ensures Value(Bits(n, k)) == n
  {
    if k > 0 {
      ValueOfBits(n / 2, k - 1);
      assert Bits(n, k)[1..] == Bits(n / 2, k - 1);
    }
  }

  lemma {:induction false} BitsOfValue(bits: seq<bool>)
    ensures Bits(Value(bits), |bits|) == bits && Value(bits) < Pow2(|bits|)
  {
    if bits != [] {
      BitsOfValue(bits[1..]);
      var rest := Value(bits[1..]);
      assert Value(bits) / 2 == rest;
      assert bits == [bits[0]] + bits[1..];
    }
  }

  /** A number below 2^j has only zeros from bit j on. */
  lemma {:induction false} HighBitsAreZero(n: nat, k: nat, j: nat)
    requires n < Pow2(j)
    ensures forall i :: j <= i < k ==> !Bits(n, k)[i]
  {
    if k > 0 {
      if j > 0 {
        HighBitsAreZero(n / 2, k - 1, j - 1);
        assert forall i :: 0 < i < k ==> Bits(n, k)[i] == Bits(n / 2, k - 1)[i - 1];
      } else {
        HighBitsAreZero(0, k - 1, 0);
        assert forall i :: 0 < i < k ==> Bits(0, k)[i] == Bits(0, k - 1)[i - 1];
      }
    }
  }

  /** The low `k` bits set: the number 2^k - 1. */
  function LowMask(k: nat): Word {
    seq(32, i => i < k)
  }

  lemma {:induction false} ValueOfOnes(k: nat)
    ensures Value(seq(k, i => true)) == Pow2(k) - 1
  {
    if k > 0 {
      ValueOfOnes(k - 1);
      assert seq(k, i => true)[1..] == seq(k - 1, i => true);
    }
  }

  lemma {:induction false} ValueOfZeros(k: nat)
    ensures Value(seq(k, i => false)) == 0
  {
    if k > 0 {
      ValueOfZeros(k - 1);
      assert seq(k, i => false)[1..] == seq(k - 1, i => false);
    }
  }

  /** Later bits weigh more by the length of what comes before them. */
  lemma {:induction false} ValueOfConcat(a: seq<bool>, b: seq<bool>)
    ensures Value(a + b) == Value(a) + Pow2(|a|) * Value(b)
  {
    if a == [] {
      assert a + b == b;
    } else {
      ValueOfConcat(a[1..], b);
      assert (a + b)[1..] == a[1..] + b;
      assert 2 * (Pow2(|a| - 1) * Value(b)) == Pow2(|a|) * Value(b);
    }
  }

  lemma Pow2Values()
    ensures Pow2(5) == 32 && Pow2(25) == 0x2000000 && Pow2(30) == 0x40000000
  {
    assert Pow2(2) == 4;
    assert Pow2(5) == 32;
    Pow2Adds(5, 5);
    Pow2Adds(10, 10);
    Pow2Adds(20, 5);
    Pow2Adds(25, 5);
  }
}
