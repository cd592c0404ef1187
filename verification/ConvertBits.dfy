/**
 * Bit regrouping (BIP 173, "Segwit address format") through a 32-bit accumulator that wraps around. A byte
 * sequence is read as one number in base 2^from; the result is a number in base 2^to.
 */
module ConvertBits {
  import opened Bitwise
  import opened Congruence
  import opened Positional

  /** The 32-bit two's complement value of a number, which every bitwise operator returns. */
  function ToInt32(x: int): int {
    var low := x % 0x1_0000_0000;
    if low < 0x8000_0000 then low else low - 0x1_0000_0000
  }

  /** `x << k`. */
  function Shl(x: int, k: nat): int {
    ToInt32(x * Pow2(k))
  }

  /** `x >> k`: flooring copies the sign. */
  function Shr(x: int, k: nat): int {
    x / Pow2(k)
  }

  /** `x & (2^k - 1)`: the low bits of a two's complement number are its remainder. */
  function LowBits(x: int, k: nat): (r: nat)
    ensures r < Pow2(k)
  {
    x % Pow2(k)
  }

  /** `x | low` for an operand whose low `k` bits are clear. */
  function OrLow(x: int, low: nat, k: nat): int
    requires x % Pow2(k) == 0 && low < Pow2(k)
  {
    x + low
  }

  // ----- Division by powers of two -----

  /** Dividing twice is dividing by the product. */
  lemma NestedQuotient(a: int, m: nat, n: nat)
    requires m > 0 && n > 0
    ensures m * n > 0 && a / m / n == a / (m * n)
    ensures a % (m * n) == a % m + m * (a / m % n)
  {
    var q, r := a / m, a % m;
    var s, t := q / n, q % n;
    SmallPair(m, n, r, t);
    NestedIdentity(m, n, s, t, r);
    RemainderIsUnique(m * n, a, s, m * t + r);
  }

  lemma NestedIdentity(m: int, n: int, s: int, t: int, r: int)
    ensures m * (n * s + t) + r == (m * n) * s + (m * t + r)
  {
  }

  lemma SmallPair(m: nat, n: nat, r: nat, t: nat)
    requires r < m && t < n
    ensures m * t + r < m * n
  {
    MultipleIsLarge(m, n - t);
    assert m * (n - t) == m * n - m * t;
  }

  /** Congruence modulo 2^32, which wrapping around preserves. */
  predicate SameWord(x: int, y: int) {
    (x - y) % 0x1_0000_0000 == 0
  }

  lemma WrapIsSameWord(x: int)
    ensures SameWord(ToInt32(x), x)
  {
  }

  lemma SameWordShifts(x: int, y: int, k: nat)
    requires SameWord(x, y)
    ensures SameWord(x * Pow2(k), y * Pow2(k))
  {
    var q := (x - y) / 0x1_0000_0000;
    assert x - y == 0x1_0000_0000 * q;
    assert x * Pow2(k) - y * Pow2(k) == (x - y) * Pow2(k) == 0x1_0000_0000 * (q * Pow2(k));
    RemainderIsUnique(0x1_0000_0000, x * Pow2(k) - y * Pow2(k), q * Pow2(k), 0);
  }

  lemma WordIsPow2()
    ensures Pow2(32) == 0x1_0000_0000
  {
    Pow2Values();
    assert Pow2(1) == 2;
    Pow2Adds(30, 2);
    assert Pow2(2) == 4;
  }

  /** Numbers that agree modulo 2^32 agree in every window of bits below bit 32. */
  lemma SameWordSameWindow(x: int, y: int, j: nat, k: nat)
    requires SameWord(x, y) && j + k <= 32
    ensures x / Pow2(j) % Pow2(k) == y / Pow2(j) % Pow2(k)
  {
    var rest := Pow2(32 - j - k);
    WordIsPow2();
    Pow2Adds(j, k);
    Pow2Adds(j + k, 32 - j - k);
    var q := (x - y) / 0x1_0000_0000;
    assert x == y + 0x1_0000_0000 * q;
    FarBitsDoNotMatter(y, Pow2(j), Pow2(k), rest, q);
  }

  lemma FarBitsDoNotMatter(y: int, m: nat, n: nat, rest: nat, q: int)
    requires m > 0 && n > 0
    ensures (y + m * n * rest * q) / m % n == y / m % n
  {
    var far := rest * q;
    assert m * n * rest * q == m * (n * far) by {
      assert m * n * rest * q == (m * n) * far;
      assert (m * n) * far == m * (n * far);
    }
    ShiftedQuotient(y, m, n * far);
    ShiftedQuotient(y / m, n, far);
  }

  lemma ShiftedQuotient(y: int, m: int, q: int)
    requires m > 0
    ensures (y + m * q) / m == y / m + q && (y + m * q) % m == y % m
  {
    assert m * (y / m + q) == m * (y / m) + m * q;
    RemainderIsUnique(m, y + m * q, y / m + q, y % m);
  }

  /** Wrapping around never disturbs the cleared low bits. */
  lemma ShiftClearsLowBits(x: int, k: nat)
    requires k <= 32
    ensures Shl(x, k) % Pow2(k) == 0
  {
    var y := x * Pow2(k);
    WrapIsSameWord(y);
    SameWordSameWindow(Shl(x, k), y, 0, k);
    assert Pow2(0) == 1;
    RemainderIsUnique(Pow2(k), y, x, 0);
  }

  // ----- The conversion -----

  /**
   * `groups` is `data` regrouped: the same number followed by fewer than `to` zero bits when padding, cut off
   * after the last complete group otherwise.
   */
  ghost predicate Regroups(data: seq<nat>, from: nat, to: nat, pad: bool, groups: seq<nat>)
    requires from > 0 && to > 0
  {
    && AreDigits(groups, Pow2(to))
    && var read, written := |data| * from, |groups| * to;
       if pad then
         && read <= written < read + to
         && Number(groups, Pow2(to)) == Number(data, Pow2(from)) * Pow2(written - read)
       else
         && written <= read < written + to
         && Number(groups, Pow2(to)) == Number(data, Pow2(from)) / Pow2(read - written)
  }

  /** Reading one more byte keeps the emitted part: its bits only move up. */
  lemma ReadByte(a: nat, byte: nat, from: nat, bits: nat)
    requires byte < Pow2(from)
    ensures (a * Pow2(from) + byte) / Pow2(bits + from) == a / Pow2(bits)
  {
    DivideAppended(a, byte, Pow2(from));
    NestedQuotient(a * Pow2(from) + byte, Pow2(from), Pow2(bits));
    Pow2Adds(from, bits);
  }

  lemma SameWordChains(x: int, y: int, z: int, c: int)
    requires SameWord(x, y) && SameWord(y, z)
    ensures SameWord(x + c, z + c)
  {
  }

  lemma AccumulateByte(acc: int, a: nat, byte: nat, from: nat)
    requires SameWord(acc, a) && from <= 32 && byte < Pow2(from)
    ensures Shl(acc, from) % Pow2(from) == 0
    ensures SameWord(OrLow(Shl(acc, from), byte, from), a * Pow2(from) + byte)
  {
    ShiftClearsLowBits(acc, from);
    var x, y := acc * Pow2(from), a * Pow2(from);
    SameWordShifts(acc, a, from);
    WrapIsSameWord(x);
    SameWordChains(Shl(acc, from), x, y, byte);
  }

  lemma QuotientAndRemainder(q: int, m: int)
    requires m > 0
    ensures q / m * m + q % m == q
  {
  }

  /** Emitting the window above `bits` moves it from the pending bits to the groups. */
  lemma EmitGroup(acc: int, a: nat, bits: nat, to: nat)
    requires SameWord(acc, a) && bits + to <= 32
    ensures a / Pow2(bits + to) * Pow2(to) + LowBits(Shr(acc, bits), to) == a / Pow2(bits)
  {
    SameWordSameWindow(acc, a, bits, to);
    var q := a / Pow2(bits);
    assert a / Pow2(bits + to) == q / Pow2(to) by {
      Pow2Adds(bits, to);
      NestedQuotient(a, Pow2(bits), Pow2(to));
    }
    QuotientAndRemainder(q, Pow2(to));
  }

  lemma EmitPadding(acc: int, a: nat, bits: nat, to: nat)
    requires SameWord(acc, a) && bits < to <= 32
    ensures a / Pow2(bits) * Pow2(to) + LowBits(Shl(acc, to - bits), to) == a * Pow2(to - bits)
  {
    PaddingWindow(acc, a, to - bits, to);
    Pow2Adds(bits, to - bits);
    PaddedNumber(a, Pow2(bits), Pow2(to - bits));
  }

  lemma SameWordSameLowBits(x: int, y: int, k: nat)
    requires SameWord(x, y) && k <= 32
    ensures x % Pow2(k) == y % Pow2(k)
  {
    SameWordSameWindow(x, y, 0, k);
    assert Pow2(0) == 1;
  }

  lemma PaddingWindow(acc: int, a: nat, k: nat, to: nat)
    requires SameWord(acc, a) && k <= 32 && to <= 32
    ensures LowBits(Shl(acc, k), to) == a * Pow2(k) % Pow2(to)
  {
    var x, y := acc * Pow2(k), a * Pow2(k);
    SameWordShifts(acc, a, k);
    WrapIsSameWord(x);
    SameWordChains(Shl(acc, k), x, y, 0);
    SameWordSameLowBits(Shl(acc, k), y, to);
  }

  lemma PaddedNumber(a: nat, m: nat, rest: nat)
    requires m > 0 && rest > 0
    ensures m * rest > 0 && a / m * (m * rest) + a * rest % (m * rest) == a * rest
  {
    assert a == m * (a / m) + a % m;
    PaddedIdentity(a / m, m, rest, a % m);
    SmallPair(rest, m, 0, a % m);
    RemainderIsUnique(m * rest, a * rest, a / m, (a % m) * rest);
  }

  lemma PaddedIdentity(q: int, m: int, rest: int, r: int)
    ensures (m * q + r) * rest == (m * rest) * q + r * rest
    ensures rest * m == m * rest && rest * r == r * rest
  {
  }

  lemma Appended(groups: seq<nat>, digit: nat, base: nat)
    ensures Number(groups + [digit], base) == Number(groups, base) * base + digit
  {
  }

  /**
   * The 32-bit accumulator never matters: for every pair of widths with at most 32 bits between them the output
   * is the regrouping of the whole input, as if the accumulator were unbounded.
   */
  method ConvertBits(data: seq<nat>, from: nat, to: nat, pad: bool) returns (ret: seq<nat>)
    requires from > 0 && to > 0 && from + to <= 32 && AreDigits(data, Pow2(from))
    ensures Regroups(data, from, to, pad, ret)
  {
    var acc, bits := 0, 0;
    ret := [];
    ghost var a := 0;
    for n := 0 to |data|
      invariant a == Number(data[..n], Pow2(from)) && SameWord(acc, a)
      invariant 0 <= bits < to && n * from == |ret| * to + bits
      invariant AreDigits(ret, Pow2(to)) && Number(ret, Pow2(to)) == a / Pow2(bits)
    {
      ghost var before := a;
      a := a * Pow2(from) + data[n];
      ReadDigit(data, n, from, acc, before, bits);
      acc := OrLow(Shl(acc, from), data[n], from);
      bits := bits + from;
      while bits >= to
        invariant 0 <= bits < from + to && (n + 1) * from == |ret| * to + bits
        invariant AreDigits(ret, Pow2(to)) && Number(ret, Pow2(to)) == a / Pow2(bits)
      {
        bits := bits - to;
        var group := LowBits(Shr(acc, bits), to);
        EmitGroup(acc, a, bits, to);
        Appended(ret, group, Pow2(to));
        OneMore(|ret|, to);
        ret := ret + [group];
      }
    }
    assert data[..|data|] == data;
    assert Pow2(0) == 1;
    if pad && bits > 0 {
      var group := LowBits(Shl(acc, to - bits), to);
      EmitPadding(acc, a, bits, to);
      Appended(ret, group, Pow2(to));
      OneMore(|ret|, to);
      ret := ret + [group];
    }
  }

  lemma OneMore(n: int, k: int)
    ensures (n + 1) * k == n * k + k
  {
  }

  /** Everything the outer loop needs to know about reading digit `n`. */
  lemma ReadDigit(data: seq<nat>, n: nat, from: nat, acc: int, a: nat, bits: nat)
    requires n < |data| && from <= 32 && AreDigits(data, Pow2(from))
    requires a == Number(data[..n], Pow2(from)) && SameWord(acc, a)
    ensures data[n] < Pow2(from) && Shl(acc, from) % Pow2(from) == 0
    ensures SameWord(OrLow(Shl(acc, from), data[n], from), a * Pow2(from) + data[n])
    ensures Number(data[..n + 1], Pow2(from)) == a * Pow2(from) + data[n]
    ensures (a * Pow2(from) + data[n]) / Pow2(bits + from) == a / Pow2(bits)
    ensures (n + 1) * from == n * from + from
  {
    assert data[..n + 1] == data[..n] + [data[n]];
    Appended(data[..n], data[n], Pow2(from));
    AccumulateByte(acc, a, data[n], from);
    ReadByte(a, data[n], from, bits);
    OneMore(n, from);
  }

  // ----- Round trip -----

  lemma UniqueCount(read: nat, count1: nat, count2: nat, to: nat)
    requires to > 0
    requires count1 * to <= read < count1 * to + to && count2 * to <= read < count2 * to + to
    ensures count1 == count2
  {
    assert to * (count2 - count1) == count2 * to - count1 * to;
    assert to * (count1 - count2) == count1 * to - count2 * to;
    if count1 < count2 {
      MultipleIsLarge(to, count2 - count1);
    } else if count2 < count1 {
      MultipleIsLarge(to, count1 - count2);
    }
  }

  /** A regrouping is determined by the input: whatever the conversion returns, it is the only possibility. */
  lemma RegroupingIsUnique(data: seq<nat>, from: nat, to: nat, pad: bool, a: seq<nat>, b: seq<nat>)
    requires from > 0 && to > 0
    requires Regroups(data, from, to, pad, a) && Regroups(data, from, to, pad, b)
    ensures a == b
  {
    if pad {
      UniqueCount(|data| * from + to - 1, |a|, |b|, to);
    } else {
      UniqueCount(|data| * from, |a|, |b|, to);
    }
    NumberIsUnique(a, b, Pow2(to));
  }

  lemma MultipleCut(n: nat, m: nat)
    requires m > 0
    ensures n * m / m == n
  {
    RemainderIsUnique(m, n * m, n, 0);
  }

  /**
   * Regrouping with padding and back without restores the input exactly when the padding is shorter than one
   * input digit; otherwise the way back reads the padding as extra digits. With 8 bits in and 5 out the padding
   * is at most 4 bits, so every byte string survives.
   */
  lemma RoundTrip(data: seq<nat>, from: nat, to: nat, groups: seq<nat>, back: seq<nat>)
    requires from > 0 && to > 0 && AreDigits(data, Pow2(from))
    requires Regroups(data, from, to, true, groups) && Regroups(groups, to, from, false, back)
    ensures back == data <==> |groups| * to - |data| * from < from
    ensures to <= from ==> back == data
  {
    var padding := |groups| * to - |data| * from;
    if padding < from {
      UniqueCount(|groups| * to, |back|, |data|, from);
      MultipleCut(Number(data, Pow2(from)), Pow2(padding));
      NumberIsUnique(back, data, Pow2(from));
    }
  }
}
