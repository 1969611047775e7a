/**
 * The per-character encoder and the bit mapper of the label builder:
 * `int(s)` with `ord(s)` as fallback, `format(n, '08b')`, and the list
 * comprehension that maps each binary digit to -1 or +1.
 */
module Encoding {
  import opened Results

  // ---------------------------------------------------------------------
  // int() and ord()
  // ---------------------------------------------------------------------

  /** The decimal digits `int` accepts (only the ASCII ones are modelled). */
  predicate IsDigit(c: char) {
    '0' <= c <= '9'
  }

  function DigitValue(c: char): (d: nat)
    requires IsDigit(c)
    ensures d < 10
  {
    c as int - '0' as int
  }

  /** A non-empty string of decimal digits: what `int(s)` parses here. */
  predicate IsDecimal(s: string) {
    |s| > 0 && forall i | 0 <= i < |s| :: IsDigit(s[i])
  }

  /** Base-10 value of a digit string, most significant digit first. */
  function DecimalValue(s: string): (v: nat)
    requires forall i | 0 <= i < |s| :: IsDigit(s[i])
    ensures |s| == 1 ==> v == DigitValue(s[0])
  {
    if s == [] then 0 else 10 * DecimalValue(s[..|s| - 1]) + DigitValue(s[|s| - 1])
  }

  /**
   * The integer a character stands for in a label: its digit value when it is
   * a decimal digit, its code point (`ord`) otherwise.
   */
  function CharCode(c: char): (n: nat)
    ensures IsDigit(c) ==> n < 10
  {
    if IsDigit(c) then DigitValue(c) else c as nat
  }

  /**
   * `int(s)`, and `ord(s)` when `int` raises ValueError. `ord` of a string
   * that is not exactly one character raises TypeError.
   */
  function Converted(s: string): (r: Result<nat>)
    ensures r.Ok? <==> IsDecimal(s) || |s| == 1
    ensures |s| == 1 ==> r == Ok(CharCode(s[0]))
    ensures r.Err? ==> r.error == OrdExpectsCharacter(|s|)
  {
    if IsDecimal(s) then Ok(DecimalValue(s))
    else if |s| == 1 then Ok(s[0] as nat)
    else Err(OrdExpectsCharacter(|s|))
  }

  // ---------------------------------------------------------------------
  // format(n, '08b') and its inverse int(b, 2)
  // ---------------------------------------------------------------------

  predicate IsBinary(s: string) {
    forall i | 0 <= i < |s| :: s[i] == '0' || s[i] == '1'
  }

  function BitChar(b: nat): char
    requires b < 2
  {
    if b == 0 then '0' else '1'
  }

  /** Shortest binary numeral of `n`, most significant bit first. */
  function Bits(n: nat): (r: string)
    ensures |r| >= 1 && IsBinary(r)
    ensures |r| > 1 ==> r[0] == '1'
  {
    if n < 2 then [BitChar(n)] else Bits(n / 2) + [BitChar(n % 2)]
  }

  function Zeros(k: nat): (r: string)
    ensures |r| == k && forall i | 0 <= i < k :: r[i] == '0'
  {
    seq(k, _ => '0')
  }

  /** `format(n, '08b')`: binary, zero-padded on the left to at least 8 digits. */
  function Format08b(n: nat): (r: string)
    ensures |r| >= 8 && IsBinary(r)
  {
    var b := Bits(n);
    if |b| < 8 then Zeros(8 - |b|) + b else b
  }

  /** `int(s, 2)`: the value of a binary numeral read most significant bit first. */
  function BinaryValue(s: string): nat
    requires IsBinary(s)
  {
    if s == [] then 0 else 2 * BinaryValue(s[..|s| - 1]) + Bit(s[|s| - 1])
  }

  function Bit(c: char): nat {
    if c == '1' then 1 else 0
  }

  function Pow2(k: nat): (p: nat)
    ensures p >= 1
  {
    if k == 0 then 1 else 2 * Pow2(k - 1)
  }

  lemma {:induction false} BitsValue(n: nat)
    ensures BinaryValue(Bits(n)) == n
  {
    if n >= 2 {
      BitsValue(n / 2);
      var b := Bits(n);
      assert b[..|b| - 1] == Bits(n / 2);
    }
  }

  lemma {:induction false} LeadingZerosValue(k: nat, s: string)
    requires IsBinary(s)
    ensures IsBinary(Zeros(k) + s) && BinaryValue(Zeros(k) + s) == BinaryValue(s)
  {
    var z := Zeros(k) + s;
    if s == [] {
      assert z == Zeros(k);
      ZerosValue(k);
    } else {
      var s' := s[..|s| - 1];
      assert z[..|z| - 1] == Zeros(k) + s';
      LeadingZerosValue(k, s');
    }
  }

  lemma {:induction false} ZerosValue(k: nat)
    ensures BinaryValue(Zeros(k)) == 0
  {
    if k > 0 {
      assert Zeros(k)[..k - 1] == Zeros(k - 1);
      ZerosValue(k - 1);
    }
  }

  /** The shortest numeral of `n` has at most `k` digits exactly when n < 2^k. */
  lemma {:induction false} BitsLength(n: nat, k: nat)
    requires k >= 1
    ensures |Bits(n)| <= k <==> n < Pow2(k)
  {
    if n >= 2 {
      if k == 1 {
        assert |Bits(n)| == |Bits(n / 2)| + 1;
      } else {
        BitsLength(n / 2, k - 1);
      }
    } else {
      PowAtLeastTwo(k);
    }
  }

  lemma PowEight()
    ensures Pow2(8) == 256
  {
    assert Pow2(2) == 4;
    assert Pow2(4) == 16;
    assert Pow2(6) == 64;
  }

  lemma {:induction false} PowAtLeastTwo(k: nat)
    requires k >= 1
    ensures Pow2(k) >= 2
  {
    if k > 1 {
      PowAtLeastTwo(k - 1);
    }
  }

  /** `format(n, '08b')` is the zero-padded shortest numeral, or that numeral itself from 8 digits on. */
  lemma Format08bShape(n: nat)
    ensures |Bits(n)| < 8 ==> Format08b(n) == Zeros(8 - |Bits(n)|) + Bits(n) && |Format08b(n)| == 8
    ensures |Bits(n)| >= 8 ==> Format08b(n) == Bits(n)
  {
  }

  /** `format(n, '08b')` has exactly 8 digits when n <= 255; a longer result carries no leading zero. */
  lemma Format08bLength(n: nat)
    ensures |Format08b(n)| == 8 <==> n <= 255
    ensures |Format08b(n)| > 8 ==> Format08b(n)[0] == '1'
  {
    Format08bShape(n);
    BitsLength(n, 8);
    PowEight();
  }

  /**
   * `format(n, '08b')` read back as base 2 gives `n`; it has exactly 8 digits
   * when n <= 255, and a longer result carries no leading zero.
   */
  lemma Format08bSpec(n: nat)
    ensures BinaryValue(Format08b(n)) == n
    ensures |Format08b(n)| == 8 <==> n <= 255
    ensures |Format08b(n)| > 8 ==> Format08b(n)[0] == '1'
  {
    var b := Bits(n);
    BitsValue(n);
    Format08bShape(n);
    if |b| < 8 {
      LeadingZerosValue(8 - |b|, b);
    }
    Format08bLength(n);
  }

  // ---------------------------------------------------------------------
  // The bit mapper: [-1 if int(bit) == 0 else 1 for bit in binario]
  // ---------------------------------------------------------------------

  /** `-1 if int(bit) == 0 else 1` for one character. */
  function Activation(bit: char): (r: Result<int>)
    ensures r.Ok? <==> IsDigit(bit)
    ensures r.Ok? ==> (r.value == -1 <==> bit == '0') && (r.value == -1 || r.value == 1)
  {
    if !IsDigit(bit) then Err(InvalidLiteral([bit]))
    else if bit == '0' then Ok(-1)
    else Ok(1)
  }

  /** The comprehension over a bit string, left to right. */
  function Bipolar(bits: string): (r: Result<seq<int>>)
    ensures r.Ok? ==> |r.value| == |bits|
  {
    if bits == [] then Ok([])
    else
      match Activation(bits[0])
      case Err(e) => Err(e)
      case Ok(a) =>
        match Bipolar(bits[1..])
        case Err(e) => Err(e)
        case Ok(rest) => Ok([a] + rest)
  }

  /**
   * The mapper raises at the first character `int` rejects; otherwise it
   * maps '0' to -1 and every other digit to +1, position by position.
   */
  lemma {:induction false} BipolarSpec(bits: string)
    ensures Bipolar(bits).Ok? <==> forall i | 0 <= i < |bits| :: IsDigit(bits[i])
    ensures Bipolar(bits).Ok? ==>
      && |Bipolar(bits).value| == |bits|
      && forall i | 0 <= i < |bits| :: Bipolar(bits).value[i] == (if bits[i] == '0' then -1 else 1)
    ensures Bipolar(bits).Err? ==> exists i | 0 <= i < |bits| ::
      && !IsDigit(bits[i]) && Bipolar(bits).error == InvalidLiteral([bits[i]])
      && forall j | 0 <= j < i :: IsDigit(bits[j])
  {
    if bits != [] {
      BipolarSpec(bits[1..]);
      var r := Bipolar(bits);
      if r.Err? && Activation(bits[0]).Ok? {
        var k :| 0 <= k < |bits[1..]| && !IsDigit(bits[1..][k]) && Bipolar(bits[1..]).error == InvalidLiteral([bits[1..][k]])
          && forall j | 0 <= j < k :: IsDigit(bits[1..][j]);
        assert bits[k + 1] == bits[1..][k];
      }
    }
  }

  /** The same mapping on a string of digits, where no character can raise. */
  function Signs(bits: string): (v: seq<int>)
    ensures |v| == |bits|
  {
    if bits == [] then [] else [if bits[0] == '0' then -1 else 1] + Signs(bits[1..])
  }

  /** Entry `i` of the sign vector is -1 for digit '0' and +1 otherwise. */
  lemma {:induction false} SignsAt(bits: string)
    ensures forall i | 0 <= i < |bits| :: Signs(bits)[i] == (if bits[i] == '0' then -1 else 1)
  {
    if bits != [] {
      SignsAt(bits[1..]);
      assert forall i | 1 <= i < |bits| :: Signs(bits)[i] == Signs(bits[1..])[i - 1] && bits[i] == bits[1..][i - 1];
    }
  }

  /** On a digit string the mapper succeeds with exactly the signs of the digits. */
  lemma {:induction false} BipolarOfDigits(bits: string)
    requires forall i | 0 <= i < |bits| :: IsDigit(bits[i])
    ensures Bipolar(bits) == Ok(Signs(bits))
  {
    if bits != [] {
      BipolarOfDigits(bits[1..]);
    }
  }

  /** The inverse reading of a bipolar vector: -1 is bit '0', anything else bit '1'. */
  function Unipolar(v: seq<int>): (s: string)
    ensures |s| == |v| && IsBinary(s)
  {
    seq(|v|, i requires 0 <= i < |v| => if v[i] == -1 then '0' else '1')
  }

  /** Mapping a binary string to bipolar values and back gives the string again. */
  lemma BipolarRoundTrip(bits: string)
    requires IsBinary(bits)
    ensures Bipolar(bits).Ok? && Unipolar(Bipolar(bits).value) == bits
  {
    BipolarSpec(bits);
  }

  // ---------------------------------------------------------------------
  // _caracter_para_binario
  // ---------------------------------------------------------------------

  /** `format(convertido, '08b')` after the int()/ord() conversion of `s`. */
  function ToBinary(s: string): (r: Result<string>)
    ensures r.Ok? ==> IsBinary(r.value) && |r.value| >= 8
  {
    match Converted(s)
    case Err(e) => Err(e)
    case Ok(n) => Ok(Format08b(n))
  }

  /**
   * The character encoder succeeds exactly on a decimal string or a single
   * character. Its result has at least 8 binary digits, exactly 8 when the
   * value is at most 255, and read in base 2 it gives back the digit value
   * or the code point.
   */
  lemma ToBinarySpec(s: string)
    ensures ToBinary(s).Ok? <==> IsDecimal(s) || |s| == 1
    ensures ToBinary(s).Ok? ==>
      var b := ToBinary(s).value;
      var n := Converted(s).value;
      IsBinary(b) && |b| >= 8 && (|b| == 8 <==> n <= 255) && BinaryValue(b) == n
    ensures |s| == 1 ==> ToBinary(s) == Ok(Format08b(CharCode(s[0])))
  {
    if |s| == 1 && IsDigit(s[0]) {
      assert s[..0] == [];
      assert DecimalValue(s) == DigitValue(s[0]);
    }
    if ToBinary(s).Ok? {
      Format08bSpec(Converted(s).value);
    }
  }

  /** Two binary numerals of the same width with the same value are the same numeral. */
  lemma {:induction false} BinaryValueInjective(s: string, t: string)
    requires IsBinary(s) && IsBinary(t) && |s| == |t|
    requires BinaryValue(s) == BinaryValue(t)
    ensures s == t
  {
    if s != [] {
      var n := |s| - 1;
      assert s[n] == t[n];
      BinaryValueInjective(s[..n], t[..n]);
      assert s == s[..n] + [s[n]] && t == t[..n] + [t[n]];
    }
  }

  lemma PrefixValue(s: string, k: nat)
    requires IsBinary(s) && 0 < k <= |s|
    ensures BinaryValue(s[..k]) == 2 * BinaryValue(s[..k - 1]) + Bit(s[k - 1])
  {
    assert s[..k][..k - 1] == s[..k - 1];
  }

  /** The value of an 8-digit numeral, digit by digit. */
  lemma ByteValue(s: string)
    requires IsBinary(s) && |s| == 8
    ensures BinaryValue(s) == 128 * Bit(s[0]) + 64 * Bit(s[1]) + 32 * Bit(s[2]) + 16 * Bit(s[3])
                              + 8 * Bit(s[4]) + 4 * Bit(s[5]) + 2 * Bit(s[6]) + Bit(s[7])
  {
    assert s[..0] == [] && s[..8] == s;
    PrefixValue(s, 1);
    PrefixValue(s, 2);
    PrefixValue(s, 3);
    PrefixValue(s, 4);
    PrefixValue(s, 5);
    PrefixValue(s, 6);
    PrefixValue(s, 7);
    PrefixValue(s, 8);
  }

  /** `format(n, '08b')` of a value below 256 is the only 8-digit numeral of that value. */
  lemma Format08bOfByte(n: nat, b: string)
    requires n <= 255 && IsBinary(b) && |b| == 8 && BinaryValue(b) == n
    ensures Format08b(n) == b
  {
    Format08bSpec(n);
    BinaryValueInjective(Format08b(n), b);
  }

  /** `format(5, '08b')` is 00000101 and `format(65, '08b')` is 01000001. */
  lemma Format08bExamples()
    ensures Format08b(5) == "00000101"
    ensures Format08b(65) == "01000001"
  {
    ByteValue("00000101");
    Format08bOfByte(5, "00000101");
    ByteValue("01000001");
    Format08bOfByte(65, "01000001");
  }

  /** '5' encodes as 00000101 (its digit value), 'A' as 01000001 (ord 65). */
  lemma ToBinaryExamples()
    ensures ToBinary("5") == Ok("00000101")
    ensures ToBinary("A") == Ok("01000001")
  {
    Format08bExamples();
    assert Converted("5") == Ok(5) by {
      assert IsDecimal("5");
      assert "5"[..0] == [];
    }
    assert Converted("A") == Ok(65) by {
      assert !IsDigit('A');
    }
  }
}
