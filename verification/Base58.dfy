/** Base58 of the wallet generator's addresses: the digit loop, the leading-zero loop and a decoder. */
module Base58 {
  import opened Positional
  import opened Wrappers

  type Byte = b: nat | b < 256

  const B58_CHARS: string := "123456789" + "ABCDEFGH" + "JKLMN" + "PQRSTUVWXYZ" + "abcdefghijk" + "mnopqrstuvwxyz"

  /** The characters of a digit sequence. */
  function Text(digits: seq<nat>): (text: string)
    requires AreDigits(digits, 58)
    ensures |text| == |digits|
  {
    seq(|digits|, i requires 0 <= i < |digits| => B58_CHARS[digits[i]])
  }

  function LeadingZeros(data: seq<Byte>): (z: nat)
    ensures z <= |data|
    ensures forall i :: 0 <= i < z ==> data[i] == 0
    ensures z < |data| ==> data[z] != 0
  {
    if data == [] || data[0] != 0 then 0 else 1 + LeadingZeros(data[1..])
  }

  function Ones(n: nat): string {
    seq(n, i => '1')
  }

  function Encode(data: seq<Byte>): string {
    Ones(LeadingZeros(data)) + Text(Notation(Number(data, 256), 58))
  }

  /** The last digit can be written first, in front of what follows it. */
  lemma TextOfLast(digits: seq<nat>, d: nat, rest: string)
    requires AreDigits(digits, 58) && d < 58
    ensures AreDigits(digits + [d], 58) && Text(digits + [d]) + rest == Text(digits) + ([B58_CHARS[d]] + rest)
  {
  }

  method EncodeNumber(n: nat) returns (encoded: string)
    ensures encoded == Text(Notation(n, 58))
  {
    var num := n;
    encoded := "";
    while num > 0
      invariant Text(Notation(num, 58)) + encoded == Text(Notation(n, 58))
    {
      NotationShrinks(num, 58);
      TextOfLast(Notation(num / 58, 58), num % 58, encoded);
      encoded := [B58_CHARS[num % 58]] + encoded;
      num := num / 58;
    }
  }

  lemma PrependOne(i: nat, digits: string)
    ensures ['1'] + (Ones(i) + digits) == Ones(i + 1) + digits
  {
  }

  /** The second loop writes one character for each leading zero. */
  method PrependOnes(data: seq<Byte>, digits: string) returns (encoded: string)
    ensures encoded == Ones(LeadingZeros(data)) + digits
  {
    encoded := digits;
    var i := 0;
    while i < |data| && data[i] == 0
      invariant 0 <= i <= LeadingZeros(data)
      invariant encoded == Ones(i) + digits
      decreases |data| - i
    {
      PrependOne(i, digits);
      encoded := ['1'] + encoded;
      i := i + 1;
    }
  }

  /** `digest` is the double SHA-256 of the payload; its first four bytes are the checksum. */
  method Base58Check(payload: seq<Byte>, digest: seq<Byte>) returns (encoded: string)
    requires |digest| == 32
    ensures encoded == Encode(payload + digest[..4])
  {
    var data := payload + digest[..4];
    var digits := EncodeNumber(Number(data, 256));
    encoded := PrependOnes(data, digits);
  }

  // ----- The decoder -----

  function DigitOf(c: char, from: nat): (d: Option<nat>)
    requires from <= 58
    ensures d.Some? ==> from <= d.value < 58 && B58_CHARS[d.value] == c
    ensures d.None? ==> forall k :: from <= k < 58 ==> B58_CHARS[k] != c
    decreases 58 - from
  {
    if from == 58 then None
    else if B58_CHARS[from] == c then Some(from)
    else DigitOf(c, from + 1)
  }

  function ParseDigits(text: string): (digits: Option<seq<nat>>)
    ensures digits.Some? ==> AreDigits(digits.value, 58) && Text(digits.value) == text
  {
    if text == [] then Some([])
    else
      var first, rest := DigitOf(text[0], 0), ParseDigits(text[1..]);
      if first.None? || rest.None? then None else Some([first.value] + rest.value)
  }

  function LeadingOnes(text: string): (n: nat)
    ensures n <= |text|
    ensures forall i :: 0 <= i < n ==> text[i] == '1'
    ensures n < |text| ==> text[n] != '1'
  {
    if text == [] || text[0] != '1' then 0 else 1 + LeadingOnes(text[1..])
  }

  /** One zero byte per leading '1', then the bytes of the number the other characters spell. */
  function Decode(text: string): Option<seq<Byte>> {
    var z := LeadingOnes(text);
    var digits := ParseDigits(text[z..]);
    if digits.None? then None
    else Some(seq(z, i => 0) + Notation(Number(digits.value, 58), 256))
  }

  /** The alphabet runs through six stretches of consecutive characters, leaving out 0, I, O and l. */
  lemma CharAt(k: nat)
    requires k < 58
    ensures B58_CHARS[k] as int ==
      if k < 9 then 49 + k else if k < 17 then 65 + (k - 9) else if k < 22 then 74 + (k - 17)
      else if k < 33 then 80 + (k - 22) else if k < 44 then 97 + (k - 33) else 109 + (k - 44)
  {
    if k < 9 {
      assert B58_CHARS[k] == "123456789"[k];
    } else if k < 17 {
      assert B58_CHARS[k] == "ABCDEFGH"[k - 9];
    } else if k < 22 {
      assert B58_CHARS[k] == "JKLMN"[k - 17];
    } else if k < 33 {
      assert B58_CHARS[k] == "PQRSTUVWXYZ"[k - 22];
    } else if k < 44 {
      assert B58_CHARS[k] == "abcdefghijk"[k - 33];
    } else {
      assert B58_CHARS[k] == "mnopqrstuvwxyz"[k - 44];
    }
  }

  lemma DigitOfChar(d: nat)
    requires d < 58
    ensures DigitOf(B58_CHARS[d], 0) == Some(d)
    ensures B58_CHARS[d] == '1' <==> d == 0
  {
    CharAt(d);
    CharAt(0);
    CharAt(DigitOf(B58_CHARS[d], 0).value);
  }

  lemma {:induction false} ParseOfText(digits: seq<nat>)
    requires AreDigits(digits, 58)
    ensures ParseDigits(Text(digits)) == Some(digits)
  {
    if digits != [] {
      DigitOfChar(digits[0]);
      ParseOfText(digits[1..]);
      assert Text(digits)[1..] == Text(digits[1..]);
      assert digits == [digits[0]] + digits[1..];
    }
  }

  lemma {:induction false} LeadingOnesOf(z: nat, rest: string)
    requires rest != [] ==> rest[0] != '1'
    ensures LeadingOnes(Ones(z) + rest) == z
  {
    if z > 0 {
      LeadingOnesOf(z - 1, rest);
      assert (Ones(z) + rest)[1..] == Ones(z - 1) + rest;
    } else {
      assert Ones(0) + rest == rest;
    }
  }

  lemma {:induction false} LeadingZerosOf(z: nat, rest: seq<Byte>)
    requires rest != [] ==> rest[0] != 0
    ensures LeadingZeros(seq(z, i => 0) + rest) == z
  {
    if z > 0 {
      LeadingZerosOf(z - 1, rest);
      assert (seq(z, i => 0) + rest)[1..] == seq(z - 1, i => 0) + rest;
    } else {
      assert seq(0, i => 0) + rest == rest;
    }
  }

  /** A byte string is its leading zeros and a rest that notation knows. */
  lemma EncodeOfParts(z: nat, rest: seq<Byte>)
    requires rest != [] ==> rest[0] != 0
    ensures Encode(seq(z, i => 0) + rest) == Ones(z) + Text(Notation(Number(rest, 256), 58))
  {
    var data: seq<Byte> := seq(z, i => 0) + rest;
    LeadingZerosOf(z, rest);
    NumberWithLeadingZeros(data, 256, z);
    assert data[z..] == rest;
  }

  lemma DecodeOfParts(z: nat, digits: seq<nat>)
    requires AreDigits(digits, 58) && (digits != [] ==> digits[0] != 0)
    ensures Decode(Ones(z) + Text(digits)) == Some(seq(z, i => 0) + Notation(Number(digits, 58), 256))
  {
    var text := Ones(z) + Text(digits);
    if digits != [] {
      DigitOfChar(digits[0]);
    }
    LeadingOnesOf(z, Text(digits));
    assert text[z..] == Text(digits);
    ParseOfText(digits);
  }

  /** Every byte string is recovered: runs of leading zero bytes, and nothing but zero bytes, included. */
  lemma DecodeOfEncode(data: seq<Byte>)
    ensures Decode(Encode(data)) == Some(data)
  {
    var z := LeadingZeros(data);
    var rest := data[z..];
    assert data == seq(z, i => 0) + rest;
    EncodeOfParts(z, rest);
    var n := Number(rest, 256);
    DecodeOfParts(z, Notation(n, 58));
    NumberOfNotation(n, 58);
    NotationOfNumber(rest, 256);
  }

  /** Different byte strings have different encodings. */
  lemma EncodeIsInjective(a: seq<Byte>, b: seq<Byte>)
    requires Encode(a) == Encode(b)
    ensures a == b
  {
    DecodeOfEncode(a);
    DecodeOfEncode(b);
  }

  /** And every text over the alphabet is the encoding of exactly one byte string. */
  lemma EncodeOfDecode(text: string)
    requires Decode(text).Some?
    ensures Encode(Decode(text).value) == text
  {
    var z := LeadingOnes(text);
    var digits := ParseDigits(text[z..]).value;
    if digits != [] {
      assert Text(digits)[0] == text[z];
      DigitOfChar(digits[0]);
    }
    assert text == Ones(z) + Text(digits);
    var n := Number(digits, 58);
    EncodeOfParts(z, Notation(n, 256));
    NumberOfNotation(n, 256);
    NotationOfNumber(digits, 58);
  }
}
