/**
 * Bech32 (BIP 173, "Bech32" and its "Checksum"): the polymod of the wallet generator as a linear code over
 * GF(2), and the encoder built on it.
 */
module Bech32 {
  import opened Bitwise
  import opened Wrappers

  const GEN: seq<nat> := [0x3b6a57b2, 0x26508e6d, 0x1ea119fa, 0x3d4233dd, 0x2a1462b3]
  /** 0x1ffffff. */
  const MASK: Word := LowMask(25)
  const ONE: Word := LowMask(1)

  /** The running checksum stays below 2^30, so neither the sign bit nor the one under it is ever set. */
  ghost predicate Below30(x: Word) {
    !x[30] && !x[31]
  }

  ghost predicate AllBelow30(values: seq<Word>) {
    forall i :: 0 <= i < |values| ==> Below30(values[i])
  }

  /** A five-bit symbol. */
  ghost predicate IsSymbol(x: Word) {
    forall i :: 5 <= i < 32 ==> !x[i]
  }

  // ----- One step of the checksum -----

  /** The inner loop after `i` of its five rounds: `if ((b >> k) & 1) chk ^= GEN[k]`. */
  function Mix(chk: Word, b: Word, i: nat): Word
    requires i <= 5
  {
    if i == 0 then chk
    else if ShiftRight(b, i - 1)[0] then Xor(Mix(chk, b, i - 1), ToWord(GEN[i - 1]))
    else Mix(chk, b, i - 1)
  }

  function Step(chk: Word, v: Word): Word {
    Mix(Xor(ShiftLeft(And(chk, MASK), 5), v), ShiftRight(chk, 25), 5)
  }

  function Polymod(chk: Word, values: seq<Word>): Word
    decreases |values|
  {
    if values == [] then chk else Polymod(Step(chk, values[0]), values[1..])
  }

  method Bech32Polymod(values: seq<Word>) returns (chk: Word)
    ensures chk == Polymod(ONE, values)
    ensures AllBelow30(values) ==> Below30(chk)
  {
    chk := ONE;
    OneIsBounded();
    for n := 0 to |values|
      invariant Polymod(chk, values[n..]) == Polymod(ONE, values)
      invariant AllBelow30(values) ==> Below30(chk)
    {
      ghost var before := chk;
      assert values[n..][1..] == values[n + 1..];
      var b := ShiftRight(chk, 25);
      chk := Xor(ShiftLeft(And(chk, MASK), 5), values[n]);
      for i := 0 to 5
        invariant chk == Mix(Xor(ShiftLeft(And(before, MASK), 5), values[n]), b, i)
      {
        if ShiftRight(b, i)[0] {
          chk := Xor(chk, ToWord(GEN[i]));
        }
      }
      if AllBelow30(values) {
        StepIsBounded(before, values[n]);
      }
    }
  }

  lemma OneIsBounded()
    ensures Below30(ONE) && IsSymbol(ONE)
  {
  }

  lemma GeneratorIsBounded(i: nat)
    requires i < 5
    ensures Below30(ToWord(GEN[i]))
  {
    Pow2Values();
    HighBitsAreZero(GEN[i], 32, 30);
  }

  lemma MaskBits()
    ensures forall i :: 0 <= i < 32 ==> MASK[i] == (i < 25)
  {
  }

  lemma {:induction false} MixIsBounded(chk: Word, b: Word, i: nat)
    requires i <= 5 && Below30(chk)
    ensures Below30(Mix(chk, b, i))
  {
    if i > 0 {
      MixIsBounded(chk, b, i - 1);
      GeneratorIsBounded(i - 1);
    }
  }

  lemma StepIsBounded(chk: Word, v: Word)
    requires Below30(v)
    ensures Below30(Step(chk, v))
  {
    MaskBits();
    MixIsBounded(Xor(ShiftLeft(And(chk, MASK), 5), v), ShiftRight(chk, 25), 5);
  }

  lemma {:induction false} MixIsLinear(chk1: Word, b1: Word, chk2: Word, b2: Word, i: nat)
    requires i <= 5
    ensures Mix(Xor(chk1, chk2), Xor(b1, b2), i) == Xor(Mix(chk1, b1, i), Mix(chk2, b2, i))
  {
    if i > 0 {
      MixIsLinear(chk1, b1, chk2, b2, i - 1);
    }
  }

  /** The step is linear over GF(2), in the state and the symbol together. */
  lemma StepIsLinear(chk1: Word, v1: Word, chk2: Word, v2: Word)
    ensures Step(Xor(chk1, chk2), Xor(v1, v2)) == Xor(Step(chk1, v1), Step(chk2, v2))
  {
    var x1, x2 := Xor(ShiftLeft(And(chk1, MASK), 5), v1), Xor(ShiftLeft(And(chk2, MASK), 5), v2);
    MixIsLinear(x1, ShiftRight(chk1, 25), x2, ShiftRight(chk2, 25), 5);
    assert Xor(ShiftLeft(And(Xor(chk1, chk2), MASK), 5), Xor(v1, v2)) == Xor(x1, x2);
    assert ShiftRight(Xor(chk1, chk2), 25) == Xor(ShiftRight(chk1, 25), ShiftRight(chk2, 25));
  }

  /** While nothing is shifted out, a step only appends the symbol's bits. */
  lemma StepWithoutFeedback(chk: Word, v: Word)
    requires forall i :: 25 <= i < 32 ==> !chk[i]
    ensures Step(chk, v) == Xor(ShiftLeft(chk, 5), v)
  {
    MaskBits();
    var b := ShiftRight(chk, 25);
    assert b == ZERO;
    var x := Xor(ShiftLeft(And(chk, MASK), 5), v);
    assert And(chk, MASK) == chk;
    assert Mix(x, b, 1) == x;
    assert Mix(x, b, 2) == x;
    assert Mix(x, b, 3) == x;
    assert Mix(x, b, 4) == x;
  }

  // ----- The running checksum of a whole message -----

  lemma {:induction false} PolymodOfConcat(chk: Word, a: seq<Word>, b: seq<Word>)
    ensures Polymod(chk, a + b) == Polymod(Polymod(chk, a), b)
    decreases |a|
  {
    if a == [] {
      assert a + b == b;
    } else {
      assert (a + b)[1..] == a[1..] + b;
      PolymodOfConcat(Step(chk, a[0]), a[1..], b);
    }
  }

  ghost function XorAll(a: seq<Word>, b: seq<Word>): (c: seq<Word>)
    requires |a| == |b|
  {
    seq(|a|, i requires 0 <= i < |a| => Xor(a[i], b[i]))
  }

  lemma {:induction false} PolymodIsLinear(chk1: Word, a: seq<Word>, chk2: Word, b: seq<Word>)
    requires |a| == |b|
    ensures Polymod(Xor(chk1, chk2), XorAll(a, b)) == Xor(Polymod(chk1, a), Polymod(chk2, b))
    decreases |a|
  {
    if a != [] {
      StepIsLinear(chk1, a[0], chk2, b[0]);
      PolymodIsLinear(Step(chk1, a[0]), a[1..], Step(chk2, b[0]), b[1..]);
      assert XorAll(a, b)[1..] == XorAll(a[1..], b[1..]);
    }
  }

  /** Up to six symbols side by side, the last one lowest. */
  ghost function Pack(symbols: seq<Word>): Word
    requires |symbols| <= 6
  {
    seq(32, j requires 0 <= j < 32 => j < 5 * |symbols| && symbols[|symbols| - 1 - j / 5][j % 5])
  }

  /** From the zero state six symbols are merely collected: nothing has been shifted out yet. */
  lemma {:induction false} PolymodOfFewSymbols(symbols: seq<Word>)
    requires |symbols| <= 6 && forall i :: 0 <= i < |symbols| ==> IsSymbol(symbols[i])
    ensures Polymod(ZERO, symbols) == Pack(symbols)
    decreases |symbols|
  {
    if symbols == [] {
      assert Pack(symbols) == ZERO;
    } else {
      var n := |symbols| - 1;
      var init, last := symbols[..n], symbols[n];
      assert symbols == init + [last];
      PolymodOfFewSymbols(init);
      PolymodOfConcat(ZERO, init, [last]);
      assert Polymod(Pack(init), [last]) == Step(Pack(init), last);
      StepWithoutFeedback(Pack(init), last);
      PackAppends(init, last);
    }
  }

  lemma PackAppends(init: seq<Word>, last: Word)
    requires |init| < 6 && IsSymbol(last)
    ensures Pack(init + [last]) == Xor(ShiftLeft(Pack(init), 5), last)
  {
  }

  // ----- The checksum verifies -----

  /** A number below 32, what the encoder's arrays hold. */
  type Symbol = d: nat | d < 32

  function Words(data: seq<Symbol>): (words: seq<Word>)
    ensures |words| == |data|
  {
    seq(|data|, i requires 0 <= i < |data| => ToWord(data[i]))
  }

  const SIX_ZEROS: seq<Word> := [ZERO, ZERO, ZERO, ZERO, ZERO, ZERO]

  /** `(mod >> (5 * (5 - p))) & 31`. */
  function ChecksumSymbol(mod: Word, p: nat): Symbol
    requires p < 6
  {
    var low := And(ShiftRight(mod, 5 * (5 - p)), LowMask(5));
    LowFiveBits(low);
    Value(low)
  }

  lemma LowFiveBits(x: Word)
    requires IsSymbol(x)
    ensures Value(x) < 32 && ToWord(Value(x)) == x
  {
    var low, high := x[..5], seq(27, i => false);
    assert x == low + high;
    ValueOfConcat(low, high);
    ValueOfZeros(27);
    BitsOfValue(low);
    BitsOfValue(x);
    Pow2Values();
    assert Pow2(5) * Value(high) == 0;
  }

  lemma SymbolWord(d: Symbol)
    ensures IsSymbol(ToWord(d)) && Value(ToWord(d)) == d
  {
    Pow2Values();
    HighBitsAreZero(d, 32, 5);
    Pow2Adds(5, 27);
    assert Pow2(27) >= 1;
    assert Pow2(32) >= 32;
    ValueOfBits(d, 32);
  }

  function CreateChecksum(values: seq<Word>): seq<Symbol> {
    var mod := Xor(Polymod(ONE, values + SIX_ZEROS), ONE);
    seq(6, p requires 0 <= p < 6 => ChecksumSymbol(mod, p))
  }

  /** The six symbols are the number `mod`, cut into fives, highest first. */
  lemma ChecksumPacks(mod: Word, checksum: seq<Symbol>)
    requires Below30(mod) && |checksum| == 6
    requires forall p :: 0 <= p < 6 ==> checksum[p] == ChecksumSymbol(mod, p)
    ensures forall p :: 0 <= p < 6 ==> IsSymbol(Words(checksum)[p])
    ensures Pack(Words(checksum)) == mod
  {
    var words := Words(checksum);
    forall p | 0 <= p < 6
      ensures words[p] == And(ShiftRight(mod, 5 * (5 - p)), LowMask(5))
    {
      LowFiveBits(And(ShiftRight(mod, 5 * (5 - p)), LowMask(5)));
    }
    forall j | 0 <= j < 32
      ensures Pack(words)[j] == mod[j]
    {
      if j < 30 {
        var p := 5 - j / 5;
        assert 5 * (5 - p) + j % 5 == j;
        assert words[p][j % 5] == mod[j];
      }
    }
  }

  /**
   * BIP 173, "Checksum": whatever came before, the six symbols appended by the encoder bring the polymod to 1.
   */
  lemma ChecksumVerifies(values: seq<Word>)
    ensures Polymod(ONE, values + Words(CreateChecksum(values))) == ONE
  {
    var chk := Polymod(ONE, values);
    var shifted := Polymod(chk, SIX_ZEROS);
    PolymodOfConcat(ONE, values, SIX_ZEROS);
    var mod := Xor(shifted, ONE);
    SixZerosAreBounded(chk);
    OneIsBounded();
    var words := Words(CreateChecksum(values));
    ChecksumPacks(mod, CreateChecksum(values));
    PolymodOfFewSymbols(words);
    PolymodIsLinear(chk, SIX_ZEROS, ZERO, words);
    XorWithZeros(chk, words);
    PolymodOfConcat(ONE, values, words);
    assert Xor(shifted, mod) == ONE;
  }

  lemma XorWithZeros(chk: Word, words: seq<Word>)
    requires |words| == 6
    ensures Xor(chk, ZERO) == chk && XorAll(SIX_ZEROS, words) == words
  {
    forall i | 0 <= i < 6
      ensures XorAll(SIX_ZEROS, words)[i] == words[i]
    {
      assert SIX_ZEROS[i] == ZERO;
    }
  }

  lemma SixZerosAreBounded(chk: Word)
    ensures Below30(Polymod(chk, SIX_ZEROS))
  {
    var five := SIX_ZEROS[..5];
    assert SIX_ZEROS == five + [ZERO];
    PolymodOfConcat(chk, five, [ZERO]);
    var before := Polymod(chk, five);
    assert Polymod(before, [ZERO]) == Polymod(Step(before, ZERO), []);
    StepIsBounded(before, ZERO);
  }

  // ----- Burst detection -----

  /** The low five bits of a generator, lowest first. */
  function LowRow(i: nat): (row: seq<bool>)
    requires i < 5
    ensures |row| == 5
  {
    if i == 0 then [false, true, false, false, true]
    else if i == 1 then [true, false, true, true, false]
    else if i == 2 then [false, true, false, true, true]
    else if i == 3 then [true, false, true, true, true]
    else [true, true, false, false, true]
  }

  lemma {:induction false} BitAt(n: nat, k: nat, j: nat)
    requires j < k
    ensures Bits(n, k)[j] == (Halved(n, j) % 2 == 1)
  {
    if j > 0 {
      BitAt(n / 2, k - 1, j - 1);
      assert Bits(n, k)[j] == Bits(n / 2, k - 1)[j - 1];
    }
  }

  function Halved(n: nat, j: nat): nat {
    if j == 0 then n else Halved(n / 2, j - 1)
  }

  lemma LowFive(n: nat, n1: nat, n2: nat, n3: nat, n4: nat)
    requires n1 == n / 2 && n2 == n1 / 2 && n3 == n2 / 2 && n4 == n3 / 2
    ensures Halved(n, 0) == n && Halved(n, 1) == n1 && Halved(n, 2) == n2 && Halved(n, 3) == n3 && Halved(n, 4) == n4
  {
    assert Halved(n2, 0) == n2;
    assert Halved(n3, 0) == n3 && Halved(n2, 1) == n3;
    assert Halved(n3, 1) == n4 && Halved(n2, 2) == n4;
    assert Halved(n1, 1) == n2 && Halved(n1, 2) == n3 && Halved(n1, 3) == n4;
  }

  lemma RowOf(n: nat, n1: nat, n2: nat, n3: nat, n4: nat, j: nat)
    requires n1 == n / 2 && n2 == n1 / 2 && n3 == n2 / 2 && n4 == n3 / 2 && j < 5
    ensures ToWord(n)[j] == [n % 2 == 1, n1 % 2 == 1, n2 % 2 == 1, n3 % 2 == 1, n4 % 2 == 1][j]
  {
    BitAt(n, 32, j);
    LowFive(n, n1, n2, n3, n4);
  }

  lemma GeneratorLowBit(i: nat, j: nat)
    requires i < 5 && j < 5
    ensures ToWord(GEN[i])[j] == LowRow(i)[j]
  {
    if i == 0 {
      RowOf(0x3b6a57b2, 0x1db52bd9, 0xeda95ec, 0x76d4af6, 0x3b6a57b, j);
    } else if i == 1 {
      RowOf(0x26508e6d, 0x13284736, 0x994239b, 0x4ca11cd, 0x26508e6, j);
    } else if i == 2 {
      RowOf(0x1ea119fa, 0xf508cfd, 0x7a8467e, 0x3d4233f, 0x1ea119f, j);
    } else if i == 3 {
      RowOf(0x3d4233dd, 0x1ea119ee, 0xf508cf7, 0x7a8467b, 0x3d4233d, j);
    } else {
      RowOf(0x2a1462b3, 0x150a3159, 0xa8518ac, 0x5428c56, 0x2a1462b, j);
    }
  }

  /** Row `i` of the running low bits: what rounds 0 .. i-1 have added to bit j. */
  function LowParity(b: Word, i: nat, j: nat): bool
    requires i <= 5 && j < 5
  {
    if i == 0 then false else LowParity(b, i - 1, j) != (b[i - 1] && LowRow(i - 1)[j])
  }

  lemma {:induction false} LowBitOfMix(x: Word, b: Word, i: nat, j: nat)
    requires i <= 5 && j < 5 && !x[j]
    ensures Mix(x, b, i)[j] == LowParity(b, i, j)
  {
    if i > 0 {
      LowBitOfMix(x, b, i - 1, j);
      GeneratorLowBit(i - 1, j);
      assert ShiftRight(b, i - 1)[0] == b[i - 1];
    }
  }

  lemma LowParityUnrolled(b: Word, j: nat)
    requires j < 5
    ensures LowParity(b, 5, j)
         == ((b[0] && LowRow(0)[j]) != ((b[1] && LowRow(1)[j]) != ((b[2] && LowRow(2)[j]) != ((b[3] && LowRow(3)[j]) != (b[4] && LowRow(4)[j])))))
  {
    assert LowParity(b, 1, j) == (b[0] && LowRow(0)[j]);
    assert LowParity(b, 2, j) == (LowParity(b, 1, j) != (b[1] && LowRow(1)[j]));
    assert LowParity(b, 3, j) == (LowParity(b, 2, j) != (b[2] && LowRow(2)[j]));
    assert LowParity(b, 4, j) == (LowParity(b, 3, j) != (b[3] && LowRow(3)[j]));
  }

  /** The rows are linearly independent: only the zero combination vanishes on all five bits. */
  lemma LowRowsAreIndependent(b: Word)
    requires forall j :: 0 <= j < 5 ==> !LowParity(b, 5, j)
    ensures !b[0] && !b[1] && !b[2] && !b[3] && !b[4]
  {
    LowParityUnrolled(b, 0);
    LowParityUnrolled(b, 1);
    LowParityUnrolled(b, 2);
    LowParityUnrolled(b, 3);
    LowParityUnrolled(b, 4);
  }

  /** The kernel of the zero-input step is trivial. */
  lemma ZeroStepIsInjective(chk: Word)
    requires Below30(chk) && Step(chk, ZERO) == ZERO
    ensures chk == ZERO
  {
    var b := ShiftRight(chk, 25);
    var x := Xor(ShiftLeft(And(chk, MASK), 5), ZERO);
    forall j | 0 <= j < 5
      ensures !LowParity(b, 5, j)
    {
      LowBitOfMix(x, b, 5, j);
    }
    LowRowsAreIndependent(b);
    assert forall k :: 25 <= k < 30 ==> chk[k] == b[k - 25];
    StepWithoutFeedback(chk, ZERO);
    forall i | 0 <= i < 25
      ensures !chk[i]
    {
      assert Xor(ShiftLeft(chk, 5), ZERO)[i + 5] == chk[i];
    }
  }

  lemma XorIsZeroOnlyOnEqual(a: Word, b: Word)
    ensures Xor(a, b) == ZERO <==> a == b
  {
    if Xor(a, b) == ZERO {
      forall i | 0 <= i < 32
        ensures a[i] == b[i]
      {
        assert Xor(a, b)[i] == ZERO[i];
      }
    }
  }

  /** The same symbols never merge two different states. */
  lemma {:induction false} PolymodIsInjectiveInState(chk1: Word, chk2: Word, values: seq<Word>)
    requires Below30(chk1) && Below30(chk2) && chk1 != chk2 && AllBelow30(values)
    ensures Polymod(chk1, values) != Polymod(chk2, values)
    decreases |values|
  {
    if values != [] {
      var v := values[0];
      StepIsLinear(chk1, v, chk2, v);
      XorIsZeroOnlyOnEqual(v, v);
      XorIsZeroOnlyOnEqual(chk1, chk2);
      if Step(chk1, v) == Step(chk2, v) {
        XorIsZeroOnlyOnEqual(Step(chk1, v), Step(chk2, v));
        ZeroStepIsInjective(Xor(chk1, chk2));
      }
      StepIsBounded(chk1, v);
      StepIsBounded(chk2, v);
      PolymodIsInjectiveInState(Step(chk1, v), Step(chk2, v), values[1..]);
    }
  }

  lemma {:induction false} PolymodIsBounded(chk: Word, values: seq<Word>)
    requires Below30(chk) && AllBelow30(values)
    ensures Below30(Polymod(chk, values))
    decreases |values|
  {
    if values != [] {
      StepIsBounded(chk, values[0]);
      PolymodIsBounded(Step(chk, values[0]), values[1..]);
    }
  }

  /** At most six symbols that differ anywhere lead from one state to two different ones. */
  lemma ShortBurstSeparates(chk: Word, a: seq<Word>, b: seq<Word>)
    requires |a| == |b| <= 6 && a != b
    requires forall i :: 0 <= i < |a| ==> IsSymbol(a[i]) && IsSymbol(b[i])
    ensures Polymod(chk, a) != Polymod(chk, b)
  {
    var difference := XorAll(a, b);
    PolymodIsLinear(chk, a, chk, b);
    XorIsZeroOnlyOnEqual(chk, chk);
    PolymodOfFewSymbols(difference);
    var k :| 0 <= k < |a| && a[k] != b[k];
    var j :| 0 <= j < 32 && a[k][j] != b[k][j];
    assert difference[k][j];
    var at := 5 * (|a| - 1 - k) + j;
    assert at / 5 == |a| - 1 - k && at % 5 == j;
    assert Pack(difference)[at];
    XorIsZeroOnlyOnEqual(Polymod(chk, a), Polymod(chk, b));
  }

  /**
   * BIP 173, "Checksum": a burst is always detected. Two messages of any length that agree outside six
   * consecutive positions, and differ inside, never have the same polymod; so when one verifies, the other
   * does not.
   */
  lemma BurstIsDetected(received: seq<Word>, sent: seq<Word>, start: nat, end: nat)
    requires |received| == |sent| && start <= end <= |sent| && end - start <= 6
    requires received[..start] == sent[..start] && received[end..] == sent[end..]
    requires received != sent && AllBelow30(sent)
    requires forall i :: start <= i < end ==> IsSymbol(received[i]) && IsSymbol(sent[i])
    ensures Polymod(ONE, received) != Polymod(ONE, sent)
  {
    var a, b := received[start..end], sent[start..end];
    CutInThree(received, start, end);
    CutInThree(sent, start, end);
    SlicesAreBounded(sent, start, end);
    BurstBetween(sent[..start], a, b, sent[end..]);
  }

  lemma CutInThree<T>(s: seq<T>, start: nat, end: nat)
    requires start <= end <= |s|
    ensures s == s[..start] + (s[start..end] + s[end..])
  {
  }

  lemma SlicesAreBounded(s: seq<Word>, start: nat, end: nat)
    requires AllBelow30(s) && start <= end <= |s|
    ensures AllBelow30(s[..start]) && AllBelow30(s[end..])
  {
  }

  lemma BurstBetween(head: seq<Word>, a: seq<Word>, b: seq<Word>, tail: seq<Word>)
    requires |a| == |b| <= 6 && a != b && AllBelow30(head) && AllBelow30(tail)
    requires forall i :: 0 <= i < |a| ==> IsSymbol(a[i]) && IsSymbol(b[i])
    ensures Polymod(ONE, head + (a + tail)) != Polymod(ONE, head + (b + tail))
  {
    PolymodOfConcat(ONE, head, a + tail);
    PolymodOfConcat(ONE, head, b + tail);
    OneIsBounded();
    PolymodIsBounded(ONE, head);
    BurstBefore(Polymod(ONE, head), a, b, tail);
  }

  lemma BurstBefore(chk: Word, a: seq<Word>, b: seq<Word>, tail: seq<Word>)
    requires Below30(chk) && |a| == |b| <= 6 && a != b && AllBelow30(tail)
    requires forall i :: 0 <= i < |a| ==> IsSymbol(a[i]) && IsSymbol(b[i])
    ensures Polymod(chk, a + tail) != Polymod(chk, b + tail)
  {
    PolymodOfConcat(chk, a, tail);
    PolymodOfConcat(chk, b, tail);
    PolymodIsBounded(chk, a);
    PolymodIsBounded(chk, b);
    ShortBurstSeparates(chk, a, b);
    PolymodIsInjectiveInState(Polymod(chk, a), Polymod(chk, b), tail);
  }

  // ----- The encoder -----

  /** A UTF-16 code unit, what `charCodeAt` returns. */
  type CodeUnit = c: nat | c < 0x10000

  /** The characters q p z r y 9 x 8 g f 2 t v d w 0 s 3 j n 5 4 k h c e 6 m u a 7 l. */
  const BECH32_ALPHABET: seq<CodeUnit> := [
    0x71, 0x70, 0x7a, 0x72, 0x79, 0x39, 0x78, 0x38, 0x67, 0x66, 0x32, 0x74, 0x76, 0x64, 0x77, 0x30,
    0x73, 0x33, 0x6a, 0x6e, 0x35, 0x34, 0x6b, 0x68, 0x63, 0x65, 0x36, 0x6d, 0x75, 0x61, 0x37, 0x6c]

  /** The character '1'. */
  const SEPARATOR: CodeUnit := 0x31

  /** High bits of every character, a zero, then the low five bits of every character. */
  function ExpandPrefix(hrp: seq<CodeUnit>): seq<Word> {
    seq(|hrp|, i requires 0 <= i < |hrp| => ShiftRight(ToWord(hrp[i]), 5))
    + [ZERO]
    + seq(|hrp|, i requires 0 <= i < |hrp| => And(ToWord(hrp[i]), LowMask(5)))
  }

  lemma PrefixIsBounded(hrp: seq<CodeUnit>)
    ensures AllBelow30(ExpandPrefix(hrp))
  {
    forall i | 0 <= i < |hrp|
      ensures forall j :: 16 <= j < 32 ==> !ToWord(hrp[i])[j]
    {
      assert Pow2(4) == 16 by { Pow2Adds(2, 2); }
      Pow2Adds(4, 4);
      Pow2Adds(8, 8);
      HighBitsAreZero(hrp[i], 32, 16);
    }
  }

  function Text(symbols: seq<Symbol>): (text: seq<CodeUnit>)
    ensures |text| == |symbols|
  {
    seq(|symbols|, i requires 0 <= i < |symbols| => BECH32_ALPHABET[symbols[i]])
  }

  function Encode(hrp: seq<CodeUnit>, data: seq<Symbol>): seq<CodeUnit> {
    hrp + [SEPARATOR] + Text(data + CreateChecksum(ExpandPrefix(hrp) + Words(data)))
  }

  method EncodeBech32(hrp: seq<CodeUnit>, data: seq<Symbol>) returns (text: seq<CodeUnit>)
    ensures text == Encode(hrp, data)
  {
    var expanded: seq<Word> := [];
    for i := 0 to |hrp|
      invariant expanded == seq(i, k requires 0 <= k < i => ShiftRight(ToWord(hrp[k]), 5))
    {
      expanded := expanded + [ShiftRight(ToWord(hrp[i]), 5)];
    }
    expanded := expanded + [ZERO];
    ghost var high := expanded;
    for i := 0 to |hrp|
      invariant expanded == high + seq(i, k requires 0 <= k < i => And(ToWord(hrp[k]), LowMask(5)))
    {
      expanded := expanded + [And(ToWord(hrp[i]), LowMask(5))];
    }
    var values := expanded + Words(data);
    var chk := Bech32Polymod(values + SIX_ZEROS);
    var mod := Xor(chk, ONE);
    var checksum: seq<Symbol> := [];
    for p := 0 to 6
      invariant checksum == seq(p, k requires 0 <= k < p => ChecksumSymbol(mod, k))
    {
      checksum := checksum + [ChecksumSymbol(mod, p)];
    }
    text := hrp + [SEPARATOR] + Text(data + checksum);
  }

  // ----- A decoder, as BIP 173 describes it -----

  /** The index of the last '1', or -1. */
  function LastSeparator(text: seq<CodeUnit>): (at: int)
    ensures -1 <= at < |text|
    ensures at >= 0 ==> text[at] == SEPARATOR
    ensures forall i :: at < i < |text| ==> text[i] != SEPARATOR
  {
    if text == [] then -1
    else if text[|text| - 1] == SEPARATOR then |text| - 1
    else LastSeparator(text[..|text| - 1])
  }

  function SymbolOf(c: CodeUnit, from: nat): (d: Option<Symbol>)
    requires from <= 32
    ensures d.Some? ==> from <= d.value < 32 && BECH32_ALPHABET[d.value] == c
    ensures d.None? ==> forall k :: from <= k < 32 ==> BECH32_ALPHABET[k] != c
    decreases 32 - from
  {
    if from == 32 then None
    else if BECH32_ALPHABET[from] == c then Some(from)
    else SymbolOf(c, from + 1)
  }

  function ParseSymbols(text: seq<CodeUnit>): (symbols: Option<seq<Symbol>>)
    ensures symbols.Some? ==> |symbols.value| == |text|
  {
    if text == [] then Some([])
    else
      var first, rest := SymbolOf(text[0], 0), ParseSymbols(text[1..]);
      if first.None? || rest.None? then None else Some([first.value] + rest.value)
  }

  function Decode(text: seq<CodeUnit>): Option<(seq<CodeUnit>, seq<Symbol>)> {
    var at := LastSeparator(text);
    if at < 0 then None
    else
      var hrp := text[..at];
      var symbols := ParseSymbols(text[at + 1..]);
      if symbols.None? || |symbols.value| < 6 then None
      else if Polymod(ONE, ExpandPrefix(hrp) + Words(symbols.value)) != ONE then None
      else Some((hrp, symbols.value[..|symbols.value| - 6]))
  }

  lemma AlphabetIsDistinct(j: nat, k: nat)
    requires j < k < 32
    ensures BECH32_ALPHABET[j] != BECH32_ALPHABET[k]
  {
  }

  lemma AlphabetHasNoSeparator(j: nat)
    requires j < 32
    ensures BECH32_ALPHABET[j] != SEPARATOR
  {
  }

  lemma SymbolOfLetter(d: Symbol)
    ensures SymbolOf(BECH32_ALPHABET[d], 0) == Some(d)
  {
    var found := SymbolOf(BECH32_ALPHABET[d], 0).value;
    if found < d {
      AlphabetIsDistinct(found, d);
    } else if d < found {
      AlphabetIsDistinct(d, found);
    }
  }

  lemma {:induction false} ParseOfText(symbols: seq<Symbol>)
    ensures ParseSymbols(Text(symbols)) == Some(symbols)
  {
    if symbols != [] {
      ParseOfText(symbols[1..]);
      assert Text(symbols)[1..] == Text(symbols[1..]);
      SymbolOfLetter(symbols[0]);
      assert symbols == [symbols[0]] + symbols[1..];
    }
  }

  /** The decoder splits at the right place and then only the checksum matters. */
  lemma DecodeOfText(hrp: seq<CodeUnit>, symbols: seq<Symbol>)
    requires |symbols| >= 6
    ensures Decode(hrp + [SEPARATOR] + Text(symbols))
         == if Polymod(ONE, ExpandPrefix(hrp) + Words(symbols)) == ONE then Some((hrp, symbols[..|symbols| - 6])) else None
  {
    var text := hrp + [SEPARATOR] + Text(symbols);
    forall i | |hrp| < i < |text|
      ensures text[i] != SEPARATOR
    {
      AlphabetHasNoSeparator(symbols[i - |hrp| - 1]);
    }
    assert text[|hrp|] == SEPARATOR;
    assert LastSeparator(text) == |hrp|;
    assert text[..|hrp|] == hrp && text[|hrp| + 1..] == Text(symbols);
    ParseOfText(symbols);
  }

  /** Whatever is encoded is accepted by the decoder and gives back the prefix and the data. */
  lemma DecodeOfEncode(hrp: seq<CodeUnit>, data: seq<Symbol>)
    ensures Decode(Encode(hrp, data)) == Some((hrp, data))
  {
    var values := ExpandPrefix(hrp) + Words(data);
    var symbols := data + CreateChecksum(values);
    DecodeOfText(hrp, symbols);
    ChecksumVerifies(values);
    assert ExpandPrefix(hrp) + Words(symbols) == values + Words(CreateChecksum(values));
    assert symbols[..|symbols| - 6] == data;
  }

  /**
   * A burst of wrong characters in the data part of an encoded address is always rejected: any replacement of
   * symbols within six consecutive positions, the checksum's own included.
   */
  lemma DecodeRejectsBurst(hrp: seq<CodeUnit>, data: seq<Symbol>, received: seq<Symbol>, start: nat, end: nat)
    requires var sent := data + CreateChecksum(ExpandPrefix(hrp) + Words(data));
      && |received| == |sent| && received != sent && start <= end <= |sent| && end - start <= 6
      && received[..start] == sent[..start] && received[end..] == sent[end..]
    ensures Decode(hrp + [SEPARATOR] + Text(received)) == None
  {
    var prefix := ExpandPrefix(hrp);
    var checksum := CreateChecksum(prefix + Words(data));
    var sent := data + checksum;
    DecodeOfText(hrp, received);
    ChecksumVerifies(prefix + Words(data));
    assert prefix + Words(sent) == prefix + Words(data) + Words(checksum);
    PrefixIsBounded(hrp);
    SymbolBurstIsDetected(prefix, sent, received, start, end);
  }

  lemma SymbolBurstIsDetected(prefix: seq<Word>, sent: seq<Symbol>, received: seq<Symbol>, start: nat, end: nat)
    requires AllBelow30(prefix)
    requires |received| == |sent| && received != sent && start <= end <= |sent| && end - start <= 6
    requires received[..start] == sent[..start] && received[end..] == sent[end..]
    ensures Polymod(ONE, prefix + Words(received)) != Polymod(ONE, prefix + Words(sent))
  {
    SymbolBurst(prefix, sent, received, start, end);
    WordsAreSymbols(sent);
    WordsAreSymbols(received);
    var n := |prefix|;
    BurstIsDetected(prefix + Words(received), prefix + Words(sent), n + start, n + end);
  }

  lemma WordsAreSymbols(symbols: seq<Symbol>)
    ensures forall i :: 0 <= i < |symbols| ==> IsSymbol(Words(symbols)[i])
  {
    forall i | 0 <= i < |symbols|
      ensures IsSymbol(Words(symbols)[i])
    {
      SymbolWord(symbols[i]);
    }
  }

  lemma WordsSlice(symbols: seq<Symbol>, start: nat, end: nat)
    requires start <= end <= |symbols|
    ensures Words(symbols)[start..end] == Words(symbols[start..end])
  {
  }

  lemma Prefixed<T>(prefix: seq<T>, s: seq<T>, start: nat, end: nat)
    requires start <= end <= |s|
    ensures (prefix + s)[..|prefix| + start] == prefix + s[..start] && (prefix + s)[|prefix| + end..] == s[end..]
  {
  }

  lemma SymbolBurst(prefix: seq<Word>, sent: seq<Symbol>, received: seq<Symbol>, start: nat, end: nat)
    requires |received| == |sent| && received != sent && start <= end <= |sent|
    requires received[..start] == sent[..start] && received[end..] == sent[end..]
    ensures var a, b, n := prefix + Words(received), prefix + Words(sent), |prefix|;
      a != b && a[..n + start] == b[..n + start] && a[n + end..] == b[n + end..]
  {
    var k :| 0 <= k < |sent| && received[k] != sent[k];
    SymbolWord(received[k]);
    SymbolWord(sent[k]);
    assert (prefix + Words(received))[|prefix| + k] == ToWord(received[k]);
    assert (prefix + Words(sent))[|prefix| + k] == ToWord(sent[k]);
    Prefixed(prefix, Words(received), start, end);
    Prefixed(prefix, Words(sent), start, end);
    WordsSlice(received, 0, start);
    WordsSlice(sent, 0, start);
    WordsSlice(received, end, |sent|);
    WordsSlice(sent, end, |sent|);
    assert received[0..start] == sent[0..start] && received[end..|sent|] == sent[end..|sent|];
  }
}
