/** Positional notation: digit sequences, highest digit first. */
module Positional {

  /** The number a digit sequence stands for. */
  function Number(digits: seq<nat>, base: nat): nat {
    if digits == [] then 0
    else Number(digits[..|digits| - 1], base) * base + digits[|digits| - 1]
  }

  predicate AreDigits(digits: seq<nat>, base: nat) {
    forall i :: 0 <= i < |digits| ==> digits[i] < base
  }

  /** The shortest notation of `n`: no leading zero, and nothing at all for zero. */
  function Notation(n: nat, base: nat): (digits: seq<nat>)
    requires base > 1
    ensures AreDigits(digits, base)
    ensures digits != [] ==> digits[0] != 0
  {
    if n == 0 then []
    else
      NotationShrinks(n, base);
      Notation(n / base, base) + [n % base]
  }

  lemma NotationShrinks(n: nat, base: nat)
    requires n > 0 && base > 1
    ensures 0 <= n / base < n
    ensures n == n / base * base + n % base
    ensures n / base == 0 ==> n % base == n
  {
    var q := n / base;
    assert n == base * q + n % base;
    MultipleGrows(base, q);
  }

  lemma MultipleGrows(base: nat, q: nat)
    requires base > 1
    ensures base * q >= 2 * q
  {
  }

  lemma {:induction false} NumberOfNotation(n: nat, base: nat)
    requires base > 1
    ensures Number(Notation(n, base), base) == n
  {
    if n > 0 {
      NotationShrinks(n, base);
      NumberOfNotation(n / base, base);
      var digits := Notation(n, base);
      assert digits[..|digits| - 1] == Notation(n / base, base);
    }
  }

  lemma DivideAppended(a: nat, d: nat, base: nat)
    requires d < base
    ensures (a * base + d) / base == a && (a * base + d) % base == d
  {
    var x := a * base + d;
    var k := a - x / base;
    assert x == base * (x / base) + x % base;
    assert base * k == a * base - base * (x / base) == x % base - d;
    assert base * -k == -(base * k);
    if k >= 1 {
      MultipleIsLarge(base, k);
    } else if k <= -1 {
      MultipleIsLarge(base, -k);
    }
  }

  lemma MultipleIsLarge(base: nat, k: nat)
    requires k >= 1
    ensures base * k >= base
  {
  }

  lemma {:induction false} NotationOfNumber(digits: seq<nat>, base: nat)
    requires base > 1 && AreDigits(digits, base) && (digits != [] ==> digits[0] != 0)
    ensures Notation(Number(digits, base), base) == digits
    ensures digits != [] ==> Number(digits, base) > 0
  {
    if digits != [] {
      var init, last := digits[..|digits| - 1], digits[|digits| - 1];
      NotationOfNumber(init, base);
      DivideAppended(Number(init, base), last, base);
      assert digits == init + [last];
      if init != [] {
        MultipleIsLarge(base, Number(init, base));
      }
    }
  }

  /** Leading zeros add nothing. */
  lemma {:induction false} NumberWithLeadingZeros(digits: seq<nat>, base: nat, z: nat)
    requires z <= |digits| && forall i :: 0 <= i < z ==> digits[i] == 0
    ensures Number(digits, base) == Number(digits[z..], base)
  {
    if |digits| > z {
      var n := |digits| - 1;
      NumberWithLeadingZeros(digits[..n], base, z);
      assert digits[z..][..n - z] == digits[..n][z..];
    } else if z > 0 {
      NumberWithLeadingZeros(digits[..z - 1], base, z - 1);
      assert digits[..z - 1][z - 1..] == [] == digits[z..];
    }
  }

  /** Notations of one length are determined by their number. */
  lemma {:induction false} NumberIsUnique(a: seq<nat>, b: seq<nat>, base: nat)
    requires base > 0 && |a| == |b| && AreDigits(a, base) && AreDigits(b, base)
    requires Number(a, base) == Number(b, base)
    ensures a == b
  {
    if a != [] {
      var n := |a| - 1;
      DivideAppended(Number(a[..n], base), a[n], base);
      DivideAppended(Number(b[..n], base), b[n], base);
      NumberIsUnique(a[..n], b[..n], base);
      assert a == a[..n] + [a[n]] && b == b[..n] + [b[n]];
    }
  }
}
