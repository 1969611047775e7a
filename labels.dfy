/**
 * The label builder: the target vector derived from an image's file name.
 * The two trainer scripts differ only in whether a name containing an
 * underscore encodes just the part before it; `Variant` selects the rule.
 */
module Labels {
  import opened Results
  import opened Encoding

  /** The extension removed from every file name before encoding. */
  const Extension: string := ".png"

  predicate ExtensionAt(s: string, i: nat) {
    i + 4 <= |s| && s[i..i + 4] == Extension
  }

  /** `s` holds no occurrence of the extension. */
  predicate NoExtension(s: string) {
    forall i: nat | i <= |s| :: !ExtensionAt(s, i)
  }

  /**
   * `s.replace('.png', '')`: one left-to-right scan that deletes every
   * non-overlapping occurrence of the extension.
   */
  function RemoveExtension(s: string): (r: string)
    ensures |r| <= |s| && (|s| - |r|) % 4 == 0
  {
    if s == [] then []
    else if ExtensionAt(s, 0) then RemoveExtension(s[4..])
    else [s[0]] + RemoveExtension(s[1..])
  }

  /** A name with no occurrence of the extension is left as it is. */
  lemma {:induction false} RemoveExtensionNone(s: string)
    requires NoExtension(s)
    ensures RemoveExtension(s) == s
  {
    if s != [] {
      forall i: nat | i <= |s[1..]| ensures !ExtensionAt(s[1..], i) {
        assert !ExtensionAt(s, i + 1);
        if i + 4 <= |s[1..]| {
          assert s[1..][i..i + 4] == s[i + 1..i + 5];
        }
      }
      RemoveExtensionNone(s[1..]);
    }
  }

  /**
   * Appending the extension adds nothing after removal: no occurrence can
   * straddle the join, because ".png" does not overlap itself.
   */
  lemma {:induction false} RemoveExtensionAppended(a: string)
    ensures RemoveExtension(a + Extension) == RemoveExtension(a)
  {
    var s := a + Extension;
    if a == [] {
      assert s == Extension;
      assert s[4..] == [];
    } else if ExtensionAt(a, 0) {
      assert ExtensionAt(s, 0) && s[4..] == a[4..] + Extension;
      RemoveExtensionAppended(a[4..]);
    } else {
      assert !ExtensionAt(s, 0) by {
        if |a| >= 4 {
          assert s[0..4] == a[0..4];
        } else {
          assert s[0..4][|a|] == s[|a|] == '.';
          assert Extension[|a|] != '.';
        }
      }
      assert s[1..] == a[1..] + Extension;
      RemoveExtensionAppended(a[1..]);
    }
  }

  /** "name.png" with no ".png" inside `name` loses exactly its extension. */
  lemma StemOfPngName(stem: string)
    requires NoExtension(stem)
    ensures RemoveExtension(stem + Extension) == stem
  {
    RemoveExtensionAppended(stem);
    RemoveExtensionNone(stem);
  }

  // ---------------------------------------------------------------------
  // Encoding a name character by character
  // ---------------------------------------------------------------------

  /** The bipolar block of one character: `_binario_para_saida_esperada_ativacao(_caracter_para_binario(c))`. */
  function CharBlock(c: char): (v: seq<int>)
    ensures |v| >= 8
  {
    Signs(Format08b(CharCode(c)))
  }

  /** A character's block is 8 long exactly when its value fits a byte. */
  lemma CharBlockLength(c: char)
    ensures |CharBlock(c)| == 8 <==> CharCode(c) <= 255
  {
    Format08bSpec(CharCode(c));
  }

  /** A character's block holds only -1/+1, is 8 long exactly for values up to 255, and decodes back to the character's value. */
  lemma CharBlockSpec(c: char)
    ensures forall i | 0 <= i < |CharBlock(c)| :: CharBlock(c)[i] == -1 || CharBlock(c)[i] == 1
    ensures |CharBlock(c)| == 8 <==> CharCode(c) <= 255
    ensures BinaryValue(Unipolar(CharBlock(c))) == CharCode(c)
    ensures ToBinary([c]).Ok? && Bipolar(ToBinary([c]).value) == Ok(CharBlock(c))
  {
    var b := Format08b(CharCode(c));
    Format08bSpec(CharCode(c));
    BipolarSpec(b);
    BipolarOfDigits(b);
    BipolarRoundTrip(b);
    ToBinarySpec([c]);
  }

  /**
   * The concatenation of the blocks of the characters of `s`, in order
   * (`np.concatenate` in the loop of `_montar_saidas`).
   */
  function EncodeName(s: string): (v: seq<int>)
    ensures |v| >= 8 * |s|
  {
    if s == [] then [] else EncodeName(s[..|s| - 1]) + CharBlock(s[|s| - 1])
  }

  /** The target of any name holds only -1/+1 values, at least 8 per character. */
  lemma {:induction false} EncodeNameBipolar(s: string)
    ensures |EncodeName(s)| >= 8 * |s|
    ensures forall i | 0 <= i < |EncodeName(s)| :: EncodeName(s)[i] == -1 || EncodeName(s)[i] == 1
  {
    if s != [] {
      EncodeNameBipolar(s[..|s| - 1]);
      CharBlockSpec(s[|s| - 1]);
    }
  }

  predicate AllBytes(s: string) {
    forall i | 0 <= i < |s| :: CharCode(s[i]) <= 255
  }

  /** When every character's value fits a byte, the target is 8 entries per character. */
  lemma {:induction false} EncodeNameLength(s: string)
    requires AllBytes(s)
    ensures |EncodeName(s)| == 8 * |s|
  {
    if s != [] {
      CharBlockLength(s[|s| - 1]);
      EncodeNameLength(s[..|s| - 1]);
    }
  }

  /** When every value fits a byte, the k-th 8-entry block is the encoding of the k-th character. */
  lemma {:induction false} EncodeNameBlock(s: string, k: nat)
    requires AllBytes(s) && k < |s|
    ensures |EncodeName(s)| == 8 * |s|
    ensures EncodeName(s)[8 * k..8 * k + 8] == CharBlock(s[k])
  {
    var p := s[..|s| - 1];
    assert AllBytes(p) && CharCode(s[|s| - 1]) <= 255;
    EncodeNameLength(p);
    CharBlockLength(s[|s| - 1]);
    var front, last := EncodeName(p), CharBlock(s[|s| - 1]);
    assert EncodeName(s) == front + last;
    if k < |p| {
      EncodeNameBlock(p, k);
      assert s[k] == p[k];
      SliceOfFront(front, last, 8 * k, 8 * k + 8);
    } else {
      assert k == |s| - 1 && 8 * k == |front| && 8 * k + 8 == |front| + |last|;
      SliceOfBack(front, last);
    }
  }

  lemma SliceOfBack(a: seq<int>, b: seq<int>)
    ensures (a + b)[|a|..|a| + |b|] == b
  {
  }

  lemma SliceOfFront(a: seq<int>, b: seq<int>, i: nat, j: nat)
    requires i <= j <= |a|
    ensures (a + b)[i..j] == a[i..j]
  {
  }

  /**
   * The loop of `_montar_saidas` that grows the target one character at a
   * time: convert the character, map its bits, concatenate.
   */
  method EncodeLabel(name: string) returns (target: seq<int>)
    ensures target == EncodeName(name)
  {
    target := [];
    var i := 0;
    while i < |name|
      invariant 0 <= i <= |name|
      invariant target == EncodeName(name[..i])
    {
      var c := name[i];
      var binary := ToBinary([c]);
      CharBlockSpec(c);
      var block := Bipolar(binary.value);
      target := target + block.value;
      assert name[..i + 1][..i] == name[..i];
      i := i + 1;
    }
    assert name[..i] == name;
  }

  // ---------------------------------------------------------------------
  // The whole target of one file name
  // ---------------------------------------------------------------------

  /**
   * PrefixBeforeUnderscore: a name containing '_' encodes only the part
   * before it (run.py). EveryCharacter: every character is encoded,
   * '_' included (run_2.py).
   */
  datatype Variant = PrefixBeforeUnderscore | EveryCharacter

  function Occurrences(c: char, s: string): (n: nat)
    ensures n <= |s|
    ensures n == 0 <==> c !in s
  {
    if s == [] then 0 else Occurrences(c, s[..|s| - 1]) + (if s[|s| - 1] == c then 1 else 0)
  }

  /** Index of the first `c` in `s`. */
  function IndexOf(c: char, s: string): (i: nat)
    requires c in s
    ensures i < |s| && s[i] == c && c !in s[..i]
  {
    if s[0] == c then 0 else 1 + IndexOf(c, s[1..])
  }

  /** The target `_montar_saidas` appends for a file name, or the exception it raises. */
  function Target(file: string, variant: Variant): Result<seq<int>> {
    var name := RemoveExtension(file);
    if variant == PrefixBeforeUnderscore && '_' in name then
      if Occurrences('_', name) != 1 then Err(TooManyValuesToUnpack)
      else
        match ToBinary(name[..IndexOf('_', name)])
        case Err(e) => Err(e)
        case Ok(bits) => Bipolar(bits)
    else Ok(EncodeName(name))
  }

  /**
   * Without the underscore rule (or without an underscore), "stem.png" is
   * encoded character by character: 8 entries per character of the stem.
   */
  lemma WholeStemTarget(stem: string, variant: Variant)
    requires NoExtension(stem)
    requires variant == EveryCharacter || '_' !in stem
    requires AllBytes(stem)
    ensures Target(stem + Extension, variant).Ok?
    ensures |Target(stem + Extension, variant).value| == 8 * |stem|
  {
    StemOfPngName(stem);
    EncodeNameLength(stem);
  }

  /** In that case block k of the target of "stem.png" is the encoding of the k-th stem character. */
  lemma WholeStemBlocks(stem: string, variant: Variant, k: nat)
    requires NoExtension(stem)
    requires variant == EveryCharacter || '_' !in stem
    requires AllBytes(stem) && k < |stem|
    ensures Target(stem + Extension, variant).Ok?
    ensures |Target(stem + Extension, variant).value| == 8 * |stem|
    ensures Target(stem + Extension, variant).value[8 * k..8 * k + 8] == CharBlock(stem[k])
  {
    WholeStemTarget(stem, variant);
    StemOfPngName(stem);
    EncodeNameBlock(stem, k);
  }

  /**
   * With the underscore rule, "p_x.png" (one underscore) encodes `p` alone:
   * one character by its digit value or code point, a digit string by its
   * decimal value; any other prefix raises the TypeError of `ord`.
   */
  lemma PrefixTarget(p: string, x: string)
    requires '_' !in p && '_' !in x
    requires NoExtension(p + "_" + x)
    ensures Target(p + "_" + x + Extension, PrefixBeforeUnderscore).Ok? <==> IsDecimal(p) || |p| == 1
    ensures |p| == 1 ==> Target(p + "_" + x + Extension, PrefixBeforeUnderscore) == Ok(CharBlock(p[0]))
    ensures IsDecimal(p) ==>
      var v := Target(p + "_" + x + Extension, PrefixBeforeUnderscore).value;
      BinaryValue(Unipolar(v)) == DecimalValue(p) && (|v| == 8 <==> DecimalValue(p) <= 255)
    ensures !IsDecimal(p) && |p| != 1 ==>
      Target(p + "_" + x + Extension, PrefixBeforeUnderscore) == Err(OrdExpectsCharacter(|p|))
  {
    PrefixLabel(p, x);
    ToBinarySpec(p);
    if IsDecimal(p) || |p| == 1 {
      BipolarRoundTrip(ToBinary(p).value);
    }
    if |p| == 1 {
      assert p == [p[0]];
      CharBlockSpec(p[0]);
    }
  }

  /** Under the underscore rule the target of "p_x.png" is the conversion of `p` alone, mapped to -1/+1. */
  lemma PrefixLabel(p: string, x: string)
    requires '_' !in p && '_' !in x
    requires NoExtension(p + "_" + x)
    ensures Target(p + "_" + x + Extension, PrefixBeforeUnderscore) ==
      if ToBinary(p).Ok? then Bipolar(ToBinary(p).value) else Err(ToBinary(p).error)
  {
    var name := p + "_" + x;
    StemOfPngName(name);
    UnderscoreCount(p, x);
    assert name[|p|] == '_';
    assert IndexOf('_', name) == |p|;
    assert name[..|p|] == p;
  }

  /** Under the underscore rule "c_x.png" gets the block of `c` alone. */
  lemma CharPrefixTarget(c: char, x: string)
    requires c != '_' && '_' !in x && NoExtension([c] + "_" + x)
    ensures Target([c] + "_" + x + Extension, PrefixBeforeUnderscore) == Ok(CharBlock(c))
  {
    PrefixTarget([c], x);
  }

  lemma UnderscoreCount(p: string, x: string)
    requires '_' !in p && '_' !in x
    ensures Occurrences('_', p + "_" + x) == 1
  {
    OccurrencesAppend('_', p + "_", x);
    OccurrencesAppend('_', p, "_");
  }

  lemma {:induction false} OccurrencesAppend(c: char, a: string, b: string)
    ensures Occurrences(c, a + b) == Occurrences(c, a) + Occurrences(c, b)
  {
    if b != [] {
      assert (a + b)[..|a + b| - 1] == a + b[..|b| - 1];
      OccurrencesAppend(c, a, b[..|b| - 1]);
    } else {
      assert a + b == a;
    }
  }

  /** With the underscore rule, a name holding two or more underscores raises on unpacking. */
  lemma SeveralUnderscoresRaise(file: string)
    requires Occurrences('_', RemoveExtension(file)) >= 2
    ensures Target(file, PrefixBeforeUnderscore) == Err(TooManyValuesToUnpack)
  {
  }

  /** 'A' (code 65 = 01000001) maps to the block [-1, 1, -1, -1, -1, -1, -1, 1]. */
  lemma CharBlockExample()
    ensures CharBlock('A') == [-1, 1, -1, -1, -1, -1, -1, 1]
  {
    var b := "01000001";
    Format08bExamples();
    assert CharCode('A') == 65;
    SignsAt(b);
    var v := CharBlock('A');
    assert v == Signs(b);
    assert |v| == 8 && v[0] == -1 && v[1] == 1 && v[2] == -1 && v[3] == -1;
    assert v[4] == -1 && v[5] == -1 && v[6] == -1 && v[7] == 1;
  }

  /** "A_1.png" encodes only "A" under the underscore rule. */
  lemma UnderscoreExample()
    ensures Target("A_1.png", PrefixBeforeUnderscore) == Ok([-1, 1, -1, -1, -1, -1, -1, 1])
  {
    assert "A_1.png" == "A" + "_" + "1" + Extension;
    assert NoExtension("A_1");
    PrefixTarget("A", "1");
    CharBlockExample();
  }

  /** Without the underscore rule "A_1.png" encodes all three characters, and "AB.png" gives 16 entries. */
  lemma WholeNameExamples()
    ensures Target("A_1.png", EveryCharacter).Ok? && |Target("A_1.png", EveryCharacter).value| == 24
    ensures Target("AB.png", PrefixBeforeUnderscore).Ok? && |Target("AB.png", PrefixBeforeUnderscore).value| == 16
  {
    assert "A_1.png" == "A_1" + Extension;
    WholeStemTarget("A_1", EveryCharacter);
    assert "AB.png" == "AB" + Extension;
    WholeStemTarget("AB", PrefixBeforeUnderscore);
  }
}
