/**
 * The encoder against the standard's own arithmetic (BIP 173, "Checksum"): symbols are elements of GF(32), the
 * checksum is a remainder modulo a generator polynomial over that field, and the prefix is expanded by division.
 */
module Bech32Standard {
  import opened Bitwise
  import opened Bech32

  // ----- GF(32) -----

  /** A field element: the coefficients of a polynomial in alpha, the constant one first. */
  type Element = e: seq<bool> | |e| == 5 witness seq(5, _ => false)

  const NIL: Element := [false, false, false, false, false]

  function Plus(a: Element, b: Element): Element {
    [a[0] != b[0], a[1] != b[1], a[2] != b[2], a[3] != b[3], a[4] != b[4]]
  }

  /** alpha^5 is alpha^3 + 1. */
  function TimesAlpha(a: Element): Element {
    [a[4], a[0], a[1], a[2] != a[4], a[3]]
  }

  function TimesPower(a: Element, i: nat): Element {
    if i == 0 then a else TimesAlpha(TimesPower(a, i - 1))
  }

  function Scaled(a: Element, b: bool): Element {
    if b then a else NIL
  }

  /** The sum of the multiples of `a` by the powers of alpha that `b` has. */
  function Times(a: Element, b: Element): Element {
    Plus(Scaled(a, b[0]),
    Plus(Scaled(TimesPower(a, 1), b[1]),
    Plus(Scaled(TimesPower(a, 2), b[2]),
    Plus(Scaled(TimesPower(a, 3), b[3]), Scaled(TimesPower(a, 4), b[4])))))
  }

  // ----- The generator polynomial -----

  /** x^6 + {29}x^5 + {22}x^4 + {20}x^3 + {21}x^2 + {29}x + {18}, without its leading term. */
  const GENERATOR: seq<nat> := [29, 22, 20, 21, 29, 18]

  function Coefficient(j: nat): Element
    requires j < 6
  {
    Bits(GENERATOR[j], 5)
  }

  /** Six coefficients, the highest first. */
  type Polynomial = p: seq<Element> | |p| == 6 witness seq(6, _ => NIL)

  /** `p * x + v` modulo the generator. */
  function NextRemainder(p: Polynomial, v: Element): Polynomial {
    seq(6, j requires 0 <= j < 6 => Plus(if j < 5 then p[j + 1] else v, Times(Coefficient(j), p[0])))
  }

  function Remainder(p: Polynomial, message: seq<Element>): Polynomial
    decreases |message|
  {
    if message == [] then p else Remainder(NextRemainder(p, message[0]), message[1..])
  }

  /** The coefficients held in a running checksum. */
  function Slot(w: Word, j: nat): Element
    requires j < 6
  {
    w[25 - 5 * j..30 - 5 * j]
  }

  function Slots(w: Word): Polynomial {
    seq(6, j requires 0 <= j < 6 => Slot(w, j))
  }

  // ----- The constants are multiples of the generator -----

  /** Six numbers below 32 packed into one, the highest first. */
  function Packed(n: seq<nat>): nat
    requires |n| == 6
  {
    n[5] + 32 * (n[4] + 32 * (n[3] + 32 * (n[2] + 32 * (n[1] + 32 * n[0]))))
  }

  lemma ValueOfFive(n: nat)
    requires n < 32
    ensures Value(Bits(n, 5)) == n
  {
    Pow2Values();
    ValueOfBits(n, 5);
  }

  lemma ValueOfFiveAnd(n: nat, rest: seq<bool>)
    requires n < 32
    ensures Value(Bits(n, 5) + rest) == n + 32 * Value(rest)
  {
    ValueOfFive(n);
    Pow2Values();
    ValueOfConcat(Bits(n, 5), rest);
  }

  lemma SliceOfConcat(a: seq<bool>, b: seq<bool>, i: nat, j: nat)
    requires |a| <= i <= j <= |a| + |b|
    ensures (a + b)[i..j] == b[i - |a|..j - |a|]
  {
  }

  /** Side by side in one word, the lowest first. */
  function Joined(e: Polynomial): Word {
    e[5] + (e[4] + (e[3] + (e[2] + (e[1] + (e[0] + [false, false])))))
  }

  lemma SlotOfJoined(e: Polynomial, j: nat)
    requires j < 6
    ensures Slot(Joined(e), j) == e[j]
  {
    var w := e[0] + [false, false];
    assert w[..5] == e[0];
    if j < 5 {
      var x := e[1] + w;
      SliceOfConcat(e[5], e[4] + (e[3] + (e[2] + x)), 25 - 5 * j, 30 - 5 * j);
      if j < 4 {
        SliceOfConcat(e[4], e[3] + (e[2] + x), 20 - 5 * j, 25 - 5 * j);
        if j < 3 {
          SliceOfConcat(e[3], e[2] + x, 15 - 5 * j, 20 - 5 * j);
          if j < 2 {
            SliceOfConcat(e[2], x, 10 - 5 * j, 15 - 5 * j);
          }
        }
      }
    }
  }

  lemma ValueOfJoined(n: seq<nat>)
    requires |n| == 6 && forall j :: 0 <= j < 6 ==> n[j] < 32
    ensures Value(Joined(seq(6, j requires 0 <= j < 6 => Bits(n[j], 5)))) == Packed(n)
  {
    var top: seq<bool> := [false, false];
    var w0 := Bits(n[0], 5) + top;
    var w1 := Bits(n[1], 5) + w0;
    var w2 := Bits(n[2], 5) + w1;
    var w3 := Bits(n[3], 5) + w2;
    ValueOfFiveAnd(n[0], top);
    ValueOfFiveAnd(n[1], w0);
    ValueOfFiveAnd(n[2], w1);
    ValueOfFiveAnd(n[3], w2);
    ValueOfFiveAnd(n[4], w3);
    ValueOfFiveAnd(n[5], Bits(n[4], 5) + w3);
    assert Value(top) == 0 by {
      assert top[1..] == [false] && [false][1..] == [];
    }
  }

  lemma PackedSlot(n: seq<nat>, j: nat)
    requires |n| == 6 && (forall j :: 0 <= j < 6 ==> n[j] < 32) && j < 6
    ensures Slot(ToWord(Packed(n)), j) == Bits(n[j], 5)
  {
    var e: Polynomial := seq(6, j requires 0 <= j < 6 => Bits(n[j], 5));
    ValueOfJoined(n);
    BitsOfValue(Joined(e));
    SlotOfJoined(e, j);
  }

  /** The numbers of the generator's coefficients times alpha^i. */
  function Row(i: nat): (row: seq<nat>)
    requires i < 5
    ensures |row| == 6 && forall j :: 0 <= j < 6 ==> row[j] < 32
  {
    [[29, 22, 20, 21, 29, 18], [19, 5, 1, 3, 19, 13], [15, 10, 2, 6, 15, 26], [30, 20, 4, 12, 30, 29], [21, 1, 8, 24, 21, 19]][i]
  }

  lemma RowsPacked(i: nat)
    requires i < 5
    ensures GEN[i] == Packed(Row(i))
  {
  }

  /** Multiplying by alpha, in numbers. */
  function Alpha(n: nat): nat
    requires n < 32
  {
    if n < 16 then 2 * n else if n / 4 % 2 == 1 then 2 * n - 39 else 2 * n - 23
  }

  function Digit(b: bool): nat {
    if b then 1 else 0
  }

  lemma ValueStep(bits: seq<bool>, d: bool, rest: seq<bool>)
    requires bits == [d] + rest
    ensures Value(bits) == Digit(d) + 2 * Value(rest)
  {
    assert bits[1..] == rest;
  }

  lemma ValueOfElement(a: Element)
    ensures Value(a) == Digit(a[0]) + 2 * (Digit(a[1]) + 2 * (Digit(a[2]) + 2 * (Digit(a[3]) + 2 * Digit(a[4]))))
  {
    ValueStep(a, a[0], a[1..]);
    ValueStep(a[1..], a[1], a[2..]);
    ValueStep(a[2..], a[2], a[3..]);
    ValueStep(a[3..], a[3], a[4..]);
    ValueStep(a[4..], a[4], []);
  }

  lemma AlphaDigits(a0: nat, a1: nat, a2: nat, a3: nat, a4: nat)
    requires a0 <= 1 && a1 <= 1 && a2 <= 1 && a3 <= 1 && a4 <= 1
    ensures Alpha(a0 + 2 * (a1 + 2 * (a2 + 2 * (a3 + 2 * a4))))
         == a4 + 2 * (a0 + 2 * (a1 + 2 * ((if a2 == a4 then 0 else 1) + 2 * a3)))
  {
    var n := a0 + 2 * (a1 + 2 * (a2 + 2 * (a3 + 2 * a4)));
    assert n / 4 == a2 + 2 * (a3 + 2 * a4);
    assert n / 4 % 2 == a2;
  }

  lemma AlphaBits(n: nat)
    requires n < 32
    ensures Bits(Alpha(n), 5) == TimesAlpha(Bits(n, 5))
  {
    var a: Element := Bits(n, 5);
    ValueOfFive(n);
    ValueOfElement(a);
    ValueOfElement(TimesAlpha(a));
    AlphaDigits(Digit(a[0]), Digit(a[1]), Digit(a[2]), Digit(a[3]), Digit(a[4]));
    BitsOfValue(TimesAlpha(a));
  }

  lemma RowStep(i: nat, j: nat)
    requires i < 4 && j < 6
    ensures Row(i + 1)[j] == Alpha(Row(i)[j])
  {
  }

  lemma {:induction false} RowIsPower(i: nat, j: nat)
    requires i < 5 && j < 6
    ensures Bits(Row(i)[j], 5) == TimesPower(Coefficient(j), i)
  {
    if i > 0 {
      RowIsPower(i - 1, j);
      RowStep(i - 1, j);
      AlphaBits(Row(i - 1)[j]);
    }
  }

  /** Constant `i` is the generator, less its leading term, times alpha^i. */
  lemma GeneratorIsMultiple(i: nat, j: nat)
    requires i < 5 && j < 6
    ensures Slot(ToWord(GEN[i]), j) == TimesPower(Coefficient(j), i)
  {
    RowsPacked(i);
    PackedSlot(Row(i), j);
    RowIsPower(i, j);
  }

  // ----- A step of the checksum is a step of the division -----

  /** What the first `i` rounds of the inner loop add to bit `k`. */
  function Added(b: Word, i: nat, k: nat): bool
    requires i <= 5 && k < 32
  {
    if i == 0 then false else Added(b, i - 1, k) != (b[i - 1] && ToWord(GEN[i - 1])[k])
  }

  lemma {:induction false} BitOfMix(x: Word, b: Word, i: nat, k: nat)
    requires i <= 5 && k < 32
    ensures Mix(x, b, i)[k] == (x[k] != Added(b, i, k))
  {
    if i > 0 {
      BitOfMix(x, b, i - 1, k);
      assert ShiftRight(b, i - 1)[0] == b[i - 1];
    }
  }

  lemma AddedUnrolled(b: Word, k: nat, g0: bool, g1: bool, g2: bool, g3: bool, g4: bool)
    requires k < 32 && g0 == ToWord(GEN[0])[k] && g1 == ToWord(GEN[1])[k] && g2 == ToWord(GEN[2])[k]
    requires g3 == ToWord(GEN[3])[k] && g4 == ToWord(GEN[4])[k]
    ensures Added(b, 5, k) == ((b[0] && g0) != ((b[1] && g1) != ((b[2] && g2) != ((b[3] && g3) != (b[4] && g4)))))
  {
    assert Added(b, 1, k) == (b[0] && g0);
    assert Added(b, 2, k) == (Added(b, 1, k) != (b[1] && g1));
    assert Added(b, 3, k) == (Added(b, 2, k) != (b[2] && g2));
    assert Added(b, 4, k) == (Added(b, 3, k) != (b[3] && g3));
  }

  lemma BitOfTimes(a: Element, b: Element, t: nat)
    requires t < 5
    ensures Times(a, b)[t]
         == ((b[0] && a[t]) != ((b[1] && TimesPower(a, 1)[t]) != ((b[2] && TimesPower(a, 2)[t])
              != ((b[3] && TimesPower(a, 3)[t]) != (b[4] && TimesPower(a, 4)[t])))))
  {
    BitOfPlus(Scaled(TimesPower(a, 3), b[3]), Scaled(TimesPower(a, 4), b[4]), t);
    var c := Plus(Scaled(TimesPower(a, 3), b[3]), Scaled(TimesPower(a, 4), b[4]));
    BitOfPlus(Scaled(TimesPower(a, 2), b[2]), c, t);
    var d := Plus(Scaled(TimesPower(a, 2), b[2]), c);
    BitOfPlus(Scaled(TimesPower(a, 1), b[1]), d, t);
    BitOfPlus(Scaled(a, b[0]), Plus(Scaled(TimesPower(a, 1), b[1]), d), t);
  }

  lemma BitOfPlus(a: Element, b: Element, t: nat)
    requires t < 5
    ensures Plus(a, b)[t] == (a[t] != b[t]) && NIL[t] == false
  {
  }

  lemma GeneratorBit(i: nat, j: nat, t: nat)
    requires i < 5 && j < 6 && t < 5
    ensures ToWord(GEN[i])[25 - 5 * j + t] == TimesPower(Coefficient(j), i)[t]
  {
    GeneratorIsMultiple(i, j);
    assert Slot(ToWord(GEN[i]), j)[t] == ToWord(GEN[i])[25 - 5 * j + t];
  }

  lemma AddedIsTimes(b: Word, top: Element, j: nat, t: nat)
    requires j < 6 && t < 5 && forall i :: 0 <= i < 5 ==> b[i] == top[i]
    ensures Added(b, 5, 25 - 5 * j + t) == Times(Coefficient(j), top)[t]
  {
    GeneratorBit(0, j, t);
    GeneratorBit(1, j, t);
    GeneratorBit(2, j, t);
    GeneratorBit(3, j, t);
    GeneratorBit(4, j, t);
    var g := Coefficient(j);
    AddedUnrolled(b, 25 - 5 * j + t, g[t], TimesPower(g, 1)[t], TimesPower(g, 2)[t], TimesPower(g, 3)[t], TimesPower(g, 4)[t]);
    BitOfTimes(g, top, t);
  }

  lemma ShiftedBit(chk: Word, v: Word, j: nat, t: nat)
    requires j < 6 && t < 5 && IsSymbol(v)
    ensures Xor(ShiftLeft(And(chk, MASK), 5), v)[25 - 5 * j + t] == if j < 5 then Slot(chk, j + 1)[t] else v[t]
  {
    var k := 25 - 5 * j + t;
    MaskBits();
    if j < 5 {
      assert Slot(chk, j + 1)[t] == chk[k - 5];
    }
  }

  lemma TopBits(chk: Word)
    ensures forall i :: 0 <= i < 5 ==> ShiftRight(chk, 25)[i] == Slot(chk, 0)[i]
  {
  }

  lemma BitOfStep(chk: Word, v: Word, j: nat, t: nat)
    requires j < 6 && t < 5 && IsSymbol(v)
    ensures Step(chk, v)[25 - 5 * j + t]
         == ((if j < 5 then Slot(chk, j + 1)[t] else v[t]) != Times(Coefficient(j), Slot(chk, 0))[t])
  {
    var b := ShiftRight(chk, 25);
    BitOfMix(Xor(ShiftLeft(And(chk, MASK), 5), v), b, 5, 25 - 5 * j + t);
    ShiftedBit(chk, v, j, t);
    TopBits(chk);
    AddedIsTimes(b, Slot(chk, 0), j, t);
  }

  /** BIP 173, "Checksum": a step multiplies by x, adds the symbol and reduces modulo the generator polynomial. */
  lemma StepIsDivision(chk: Word, v: Word)
    requires IsSymbol(v)
    ensures Slots(Step(chk, v)) == NextRemainder(Slots(chk), v[..5])
  {
    var next := NextRemainder(Slots(chk), v[..5]);
    forall j | 0 <= j < 6
      ensures Slots(Step(chk, v))[j] == next[j]
    {
      var e: Element := if j < 5 then Slot(chk, j + 1) else v[..5];
      forall t | 0 <= t < 5
        ensures Slot(Step(chk, v), j)[t] == Plus(e, Times(Coefficient(j), Slot(chk, 0)))[t]
      {
        BitOfStep(chk, v, j, t);
        BitOfPlus(e, Times(Coefficient(j), Slot(chk, 0)), t);
      }
    }
  }

  function Elements(values: seq<Word>): (message: seq<Element>)
    ensures |message| == |values|
  {
    seq(|values|, i requires 0 <= i < |values| => values[i][..5])
  }

  lemma ElementsOfRest(values: seq<Word>)
    requires values != []
    ensures Elements(values)[0] == values[0][..5] && Elements(values)[1..] == Elements(values[1..])
  {
  }

  lemma RemainderUnrolled(p: Polynomial, q: Polynomial, message: seq<Element>)
    requires message != [] && q == NextRemainder(p, message[0])
    ensures Remainder(p, message) == Remainder(q, message[1..])
  {
  }

  /** So the polymod of any symbols is the remainder of the polynomial they spell. */
  lemma {:induction false} PolymodIsRemainder(chk: Word, values: seq<Word>)
    requires forall i :: 0 <= i < |values| ==> IsSymbol(values[i])
    ensures Slots(Polymod(chk, values)) == Remainder(Slots(chk), Elements(values))
    decreases |values|
  {
    if values == [] {
      assert Elements(values) == [];
    } else {
      var next := Step(chk, values[0]);
      StepIsDivision(chk, values[0]);
      ElementsOfRest(values);
      RemainderUnrolled(Slots(chk), Slots(next), Elements(values));
      PolymodIsRemainder(next, values[1..]);
    }
  }

  // ----- The prefix and the letters -----

  lemma SameValueSameWord(a: Word, b: Word)
    requires Value(a) == Value(b)
    ensures a == b
  {
    BitsOfValue(a);
    BitsOfValue(b);
  }

  lemma HighPart(n: nat)
    requires n < 0x10000
    ensures Value(ShiftRight(ToWord(n), 5)) == n / 32 && Value(And(ToWord(n), LowMask(5))) == n % 32
  {
    CodeUnitWord(n);
    var w := ToWord(n);
    var low, high := w[..5], w[5..];
    assert w == low + high;
    ValueOfConcat(low, high);
    BitsOfValue(low);
    Pow2Values();
    assert ShiftRight(w, 5) == high + seq(5, _ => false);
    ValueOfConcat(high, seq(5, _ => false));
    assert seq(5, _ => false) == seq(5, i => false);
    ValueOfZeros(5);
    assert And(w, LowMask(5)) == low + seq(27, i => false);
    ValueOfConcat(low, seq(27, i => false));
    ValueOfZeros(27);
    QuotientOfSum(n, Value(low), Value(high), Pow2(27), Pow2(5));
  }

  lemma QuotientOfSum(n: nat, low: nat, high: nat, p: nat, q: nat)
    requires low < 32 && n == low + 32 * high && p > 0 && q > 0
    ensures n / 32 == high && n % 32 == low && high + p * 0 == high && low + q * 0 == low
  {
  }

  lemma CodeUnitWord(n: nat)
    requires n < 0x10000
    ensures Value(ToWord(n)) == n && !ToWord(n)[31]
  {
    Pow2Values();
    Pow2Adds(5, 5);
    Pow2Adds(10, 5);
    assert Pow2(16) == 2 * Pow2(15);
    HighBitsAreZero(n, 32, 16);
    Pow2Adds(16, 16);
    ValueOfBits(n, 32);
  }

  /** The letters of the standard, symbol by symbol. */
  const CHARSET := "qpzry9x8gf2tvdw0s3jn54khce6mua7l"

  lemma Letters(d: Symbol)
    ensures |CHARSET| == 32 && BECH32_ALPHABET[d] == CHARSET[d] as int && SEPARATOR == '1' as int
  {
  }

  /** The high bits of each character, a zero, the low bits of each character: by division. */
  ghost predicate Expands(hrp: seq<CodeUnit>, v: seq<Word>) {
    && |v| == 2 * |hrp| + 1 && Value(v[|hrp|]) == 0
    && forall i :: 0 <= i < |hrp| ==> Value(v[i]) == hrp[i] / 32 && Value(v[|hrp| + 1 + i]) == hrp[i] % 32
  }

  ghost predicate Spells(text: seq<CodeUnit>, hrp: seq<CodeUnit>, symbols: seq<Symbol>) {
    && |text| == |hrp| + 1 + |symbols| && |CHARSET| == 32
    && text[..|hrp|] == hrp && text[|hrp|] == '1' as int
    && forall i :: 0 <= i < |symbols| ==> text[|hrp| + 1 + i] == CHARSET[symbols[i]] as int
  }

  lemma ExpandsOnce(hrp: seq<CodeUnit>, v: seq<Word>)
    requires Expands(hrp, v)
    ensures v == ExpandPrefix(hrp)
  {
    var w := ExpandPrefix(hrp);
    forall i | 0 <= i < |v|
      ensures v[i] == w[i]
    {
      ValueOfZeros(32);
      assert ZERO == seq(32, i => false);
      if i < |hrp| {
        HighPart(hrp[i]);
      } else if i > |hrp| {
        HighPart(hrp[i - |hrp| - 1]);
      }
      SameValueSameWord(v[i], w[i]);
    }
  }

  lemma SpelledSymbols(hrp: seq<CodeUnit>, data: seq<Symbol>, symbols: seq<Symbol>)
    requires Spells(Encode(hrp, data), hrp, symbols)
    ensures symbols == data + CreateChecksum(ExpandPrefix(hrp) + Words(data))
  {
    var sent := data + CreateChecksum(ExpandPrefix(hrp) + Words(data));
    forall i | 0 <= i < |sent|
      ensures symbols[i] == sent[i]
    {
      Letters(symbols[i]);
      assert Encode(hrp, data)[|hrp| + 1 + i] == BECH32_ALPHABET[sent[i]];
      SymbolOfLetter(symbols[i]);
      SymbolOfLetter(sent[i]);
    }
  }

  lemma SpellsItself(hrp: seq<CodeUnit>, data: seq<Symbol>)
    ensures Spells(Encode(hrp, data), hrp, data + CreateChecksum(ExpandPrefix(hrp) + Words(data)))
  {
    var sent := data + CreateChecksum(ExpandPrefix(hrp) + Words(data));
    Letters(0);
    forall i | 0 <= i < |sent|
      ensures Encode(hrp, data)[|hrp| + 1 + i] == CHARSET[sent[i]] as int
    {
      Letters(sent[i]);
    }
  }

  /**
   * What the encoder spells, it spells once: the prefix, the separator, the data, six more symbols. And the checksum
   * verifies over the prefix as the standard expands it, for every prefix and every data.
   */
  lemma EncodedVerifies(hrp: seq<CodeUnit>, data: seq<Symbol>, v: seq<Word>, symbols: seq<Symbol>)
    requires Expands(hrp, v) && Spells(Encode(hrp, data), hrp, symbols)
    ensures |symbols| == |data| + 6 && symbols[..|data|] == data
    ensures Polymod(ONE, v + Words(symbols)) == ONE
  {
    var values := ExpandPrefix(hrp) + Words(data);
    ExpandsOnce(hrp, v);
    SpelledSymbols(hrp, data, symbols);
    ChecksumVerifies(values);
    assert v + Words(symbols) == values + Words(CreateChecksum(values));
  }

  lemma SmallValueIsSymbol(w: Word)
    requires Value(w) < 32
    ensures IsSymbol(w)
  {
    Pow2Values();
    BitsOfValue(w);
    HighBitsAreZero(Value(w), 32, 5);
  }

  /**
   * In the standard's own terms: for an ASCII prefix, what the encoder writes is a multiple of the generator but for
   * the final 1.
   */
  lemma EncodedIsCodeword(hrp: seq<CodeUnit>, data: seq<Symbol>, v: seq<Word>, symbols: seq<Symbol>)
    requires Expands(hrp, v) && Spells(Encode(hrp, data), hrp, symbols) && forall i :: 0 <= i < |hrp| ==> hrp[i] < 128
    ensures Remainder(Slots(ONE), Elements(v + Words(symbols))) == Slots(ONE)
  {
    EncodedVerifies(hrp, data, v, symbols);
    var values := v + Words(symbols);
    forall i | 0 <= i < |values|
      ensures IsSymbol(values[i])
    {
      if i < |hrp| {
        assert Value(values[i]) == hrp[i] / 32;
        SmallValueIsSymbol(values[i]);
      } else if i == |hrp| {
        SmallValueIsSymbol(values[i]);
      } else if i < |v| {
        assert Value(v[|hrp| + 1 + (i - |hrp| - 1)]) == hrp[i - |hrp| - 1] % 32;
        SmallValueIsSymbol(values[i]);
      } else {
        SymbolWord(symbols[i - |v|]);
      }
    }
    PolymodIsRemainder(ONE, values);
  }
}
