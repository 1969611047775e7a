/**
 * The dataset builder (`Parametro`): for each listed file, in order, the
 * filename-length check, the input vector of the image and the target
 * vector of its name, appended to the `inputs` and `targets` fields.
 */
module Dataset {
  import opened Results
  import opened Labels
  import opened Images

  // ---------------------------------------------------------------------
  // Specification of one pass over the file list
  // ---------------------------------------------------------------------

  /** A label builder: the target of a file name, or the exception it raises. */
  type Labeller = string -> Result<seq<int>>

  /** `_montar_saidas` of the given variant, as a function of the file name. */
  function Label(variant: Variant): Labeller {
    file => Target(file, variant)
  }

  /** The length check rejects file `i`: its full name is not as long as the first file's. */
  predicate LengthRejects(files: seq<string>, i: nat)
    requires i < |files|
  {
    i > 0 && |files[i]| != |files[0]|
  }

  /** File `i` ends the pass: either the length check or the label builder raises on it. */
  predicate StopsAt(files: seq<string>, labeller: Labeller, i: nat)
    requires i < |files|
  {
    LengthRejects(files, i) || labeller(files[i]).Err?
  }

  /** The first file at or after `i` that ends the pass, or |files| when none does. */
  function FirstStopFrom(files: seq<string>, labeller: Labeller, i: nat): (s: nat)
    requires i <= |files|
    ensures i <= s <= |files|
    ensures forall j | i <= j < s :: !StopsAt(files, labeller, j)
    ensures s < |files| ==> StopsAt(files, labeller, s)
    decreases |files| - i
  {
    if i == |files| || StopsAt(files, labeller, i) then i
    else FirstStopFrom(files, labeller, i + 1)
  }

  /** The first file that ends the pass, or |files| when none does. */
  function FirstStop(files: seq<string>, labeller: Labeller): (s: nat)
    ensures s <= |files|
    ensures forall j | 0 <= j < s :: !StopsAt(files, labeller, j) && labeller(files[j]).Ok?
    ensures s < |files| ==> StopsAt(files, labeller, s)
  {
    FirstStopFrom(files, labeller, 0)
  }

  /**
   * How many files got an input vector: those before the stop, plus the
   * stopping file itself when it passed the length check (its input is
   * built before its label is).
   */
  function InputsRead(files: seq<string>, labeller: Labeller): (n: nat)
    ensures n <= |files|
  {
    var s := FirstStop(files, labeller);
    if s < |files| && !LengthRejects(files, s) then s + 1 else s
  }

  /** What the pass over `files` returns or raises. */
  function PassOutcome(files: seq<string>, labeller: Labeller): (r: Outcome)
    ensures r.Completed? <==> FirstStop(files, labeller) == |files|
  {
    var s := FirstStop(files, labeller);
    if s == |files| then Completed
    else if LengthRejects(files, s) then Raised(NameLengthMismatch(files[s]))
    else Raised(labeller(files[s]).error)
  }

  /** The image reader's `data` after opening the files `names` of `dir` in order, starting from `data0`. */
  function DataAfter(decoder: string -> Option<Matrix>, dir: string, names: seq<string>, data0: Option<Matrix>): Option<Matrix> {
    if names == [] then data0
    else Opened(DataAfter(decoder, dir, names[..|names| - 1], data0), decoder(dir + names[|names| - 1]))
  }

  /** When none of `names` decodes, the reader still holds `data0`. */
  lemma {:induction false} DataAfterNoneDecoded(decoder: string -> Option<Matrix>, dir: string, names: seq<string>, data0: Option<Matrix>)
    requires forall j | 0 <= j < |names| :: decoder(dir + names[j]).None?
    ensures DataAfter(decoder, dir, names, data0) == data0
  {
    if names != [] {
      var p := names[..|names| - 1];
      assert forall j | 0 <= j < |p| :: p[j] == names[j];
      DataAfterNoneDecoded(decoder, dir, p, data0);
    }
  }

  /**
   * The reader keeps the last matrix it decoded: when file `j` decodes and
   * no later one does, the reader holds the matrix of file `j`.
   */
  lemma {:induction false} DataAfterLastDecoded(decoder: string -> Option<Matrix>, dir: string, names: seq<string>, data0: Option<Matrix>, j: nat)
    requires j < |names| && decoder(dir + names[j]).Some?
    requires forall k | j < k < |names| :: decoder(dir + names[k]).None?
    ensures DataAfter(decoder, dir, names, data0) == decoder(dir + names[j])
  {
    var n := |names| - 1;
    if j < n {
      var p := names[..n];
      assert p[j] == names[j];
      assert forall k | j < k < n :: p[k] == names[k];
      DataAfterLastDecoded(decoder, dir, p, data0, j);
    }
  }

  /** The input vectors of `names`, one per file, in order. */
  function Inputs(decoder: string -> Option<Matrix>, dir: string, names: seq<string>): (vs: seq<seq<int>>)
    ensures |vs| == |names|
  {
    if names == [] then []
    else Inputs(decoder, dir, names[..|names| - 1]) + [Vector(decoder(dir + names[|names| - 1]))]
  }

  /** The target vectors of `names`, one per file, in order. */
  function Targets(names: seq<string>, labeller: Labeller): (ts: seq<seq<int>>)
    requires forall j | 0 <= j < |names| :: labeller(names[j]).Ok?
    ensures |ts| == |names|
  {
    if names == [] then []
    else Targets(names[..|names| - 1], labeller) + [labeller(names[|names| - 1]).value]
  }

  /** `entradas` after the pass: the vectors of the files whose input was built. */
  function PassInputs(decoder: string -> Option<Matrix>, dir: string, files: seq<string>, labeller: Labeller): (vs: seq<seq<int>>)
    ensures FirstStop(files, labeller) <= |vs| <= FirstStop(files, labeller) + 1
  {
    Inputs(decoder, dir, files[..InputsRead(files, labeller)])
  }

  /** `saidas` after the pass: the targets of the files before the stop. */
  function PassTargets(files: seq<string>, labeller: Labeller): (ts: seq<seq<int>>)
    ensures |ts| == FirstStop(files, labeller)
  {
    Targets(files[..FirstStop(files, labeller)], labeller)
  }

  /** The image reader's `data` after the pass opened the files whose input was built. */
  function PassData(decoder: string -> Option<Matrix>, dir: string, files: seq<string>, labeller: Labeller, data0: Option<Matrix>): Option<Matrix> {
    DataAfter(decoder, dir, files[..InputsRead(files, labeller)], data0)
  }

  /** The pass stops at file `i` on the length check: nothing of file `i` is appended. */
  lemma StoppedByLength(decoder: string -> Option<Matrix>, dir: string, files: seq<string>, labeller: Labeller, data0: Option<Matrix>, i: nat)
    requires i < |files| && i <= FirstStop(files, labeller) && LengthRejects(files, i)
    ensures PassOutcome(files, labeller) == Raised(NameLengthMismatch(files[i]))
    ensures PassInputs(decoder, dir, files, labeller) == Inputs(decoder, dir, files[..i])
    ensures PassTargets(files, labeller) == Targets(files[..i], labeller)
    ensures PassData(decoder, dir, files, labeller, data0) == DataAfter(decoder, dir, files[..i], data0)
  {
    assert FirstStop(files, labeller) == i && InputsRead(files, labeller) == i;
  }

  /**
   * The pass stops at file `i` in the label builder: file `i`'s input is
   * already appended to whatever `inputs0` held, its target is not.
   */
  lemma StoppedByLabel(decoder: string -> Option<Matrix>, dir: string, files: seq<string>, labeller: Labeller, data0: Option<Matrix>, inputs0: seq<seq<int>>, i: nat)
    requires i < |files| && i <= FirstStop(files, labeller)
    requires !LengthRejects(files, i) && labeller(files[i]).Err?
    ensures PassOutcome(files, labeller) == Raised(labeller(files[i]).error)
    ensures inputs0 + PassInputs(decoder, dir, files, labeller) == inputs0 + Inputs(decoder, dir, files[..i]) + [Vector(decoder(dir + files[i]))]
    ensures PassTargets(files, labeller) == Targets(files[..i], labeller)
    ensures PassData(decoder, dir, files, labeller, data0) == Opened(DataAfter(decoder, dir, files[..i], data0), decoder(dir + files[i]))
  {
    assert FirstStop(files, labeller) == i && InputsRead(files, labeller) == i + 1;
    assert files[..i + 1][..i] == files[..i];
  }

  /** No file stops the pass: every file contributed its input and its target. */
  lemma PassFinished(decoder: string -> Option<Matrix>, dir: string, files: seq<string>, labeller: Labeller, data0: Option<Matrix>)
    requires FirstStop(files, labeller) == |files|
    ensures PassOutcome(files, labeller) == Completed
    ensures PassInputs(decoder, dir, files, labeller) == Inputs(decoder, dir, files[..|files|])
    ensures PassTargets(files, labeller) == Targets(files[..|files|], labeller)
    ensures PassData(decoder, dir, files, labeller, data0) == DataAfter(decoder, dir, files[..|files|], data0)
  {
    assert InputsRead(files, labeller) == |files|;
  }

  /**
   * A file that passes both checks moves the pass on: one more input after
   * whatever `inputs0` held, one more target after `targets0`, and the
   * reader's `data` updated by opening the file.
   */
  lemma PassContinues(decoder: string -> Option<Matrix>, dir: string, files: seq<string>, labeller: Labeller, data0: Option<Matrix>,
                      inputs0: seq<seq<int>>, targets0: seq<seq<int>>, i: nat)
    requires i < |files| && i <= FirstStop(files, labeller) && !StopsAt(files, labeller, i)
    ensures i + 1 <= FirstStop(files, labeller)
    ensures inputs0 + Inputs(decoder, dir, files[..i + 1]) == inputs0 + Inputs(decoder, dir, files[..i]) + [Vector(decoder(dir + files[i]))]
    ensures targets0 + Targets(files[..i + 1], labeller) == targets0 + Targets(files[..i], labeller) + [labeller(files[i]).value]
    ensures DataAfter(decoder, dir, files[..i + 1], data0) == Opened(DataAfter(decoder, dir, files[..i], data0), decoder(dir + files[i]))
  {
    assert files[..i + 1][..i] == files[..i];
  }

  lemma {:induction false} InputsAt(decoder: string -> Option<Matrix>, dir: string, names: seq<string>, j: nat)
    requires j < |names|
    ensures Inputs(decoder, dir, names)[j] == Vector(decoder(dir + names[j]))
  {
    if j < |names| - 1 {
      InputsAt(decoder, dir, names[..|names| - 1], j);
    }
  }

  lemma {:induction false} TargetsAt(names: seq<string>, labeller: Labeller, j: nat)
    requires forall k | 0 <= k < |names| :: labeller(names[k]).Ok?
    requires j < |names|
    ensures Targets(names, labeller)[j] == labeller(names[j]).value
  {
    if j < |names| - 1 {
      TargetsAt(names[..|names| - 1], labeller, j);
    }
  }

  // ---------------------------------------------------------------------
  // Properties of the pass
  // ---------------------------------------------------------------------

  /**
   * When the pass completes, file `j` contributed exactly the `j`-th input
   * (its image's vector) and the `j`-th target (its name's label): one of
   * each per file, in listing order, all names of one length.
   */
  lemma CompletedPassOnePerFile(decoder: string -> Option<Matrix>, dir: string, files: seq<string>, labeller: Labeller, j: nat)
    requires PassOutcome(files, labeller) == Completed
    requires j < |files|
    ensures InputsRead(files, labeller) == FirstStop(files, labeller) == |files|
    ensures |files[j]| == |files[0]|
    ensures Inputs(decoder, dir, files)[j] == Vector(decoder(dir + files[j]))
    ensures labeller(files[j]).Ok? && Targets(files, labeller)[j] == labeller(files[j]).value
  {
    assert !StopsAt(files, labeller, j);
    InputsAt(decoder, dir, files, j);
    TargetsAt(files, labeller, j);
  }

  /**
   * The first name whose length differs from the first name's ends the pass
   * at the latest there. When no earlier labeller raises (as with every
   * character encoded) it ends exactly there, with the ValueError naming
   * that file, and every earlier file has appended its input and its target.
   */
  lemma FirstLengthMismatchRaises(files: seq<string>, labeller: Labeller, k: nat)
    requires 0 < k < |files| && |files[k]| != |files[0]|
    requires forall j | 0 < j < k :: |files[j]| == |files[0]|
    ensures FirstStop(files, labeller) <= k
    ensures (forall j | 0 <= j < k :: labeller(files[j]).Ok?) ==>
      && FirstStop(files, labeller) == InputsRead(files, labeller) == k
      && PassOutcome(files, labeller) == Raised(NameLengthMismatch(files[k]))
  {
    assert StopsAt(files, labeller, k);
    if forall j | 0 <= j < k :: labeller(files[j]).Ok? {
      var s := FirstStop(files, labeller);
      if s < k {
        assert false;
      }
    }
  }

  /** Encoding every character, the label builder never raises. */
  lemma EveryCharacterNeverRaises(file: string)
    ensures Label(EveryCharacter)(file) == Ok(EncodeName(RemoveExtension(file)))
  {
  }

  /** Names of one common length whose labels all succeed complete the pass. */
  lemma NoRaiseCompletes(files: seq<string>, labeller: Labeller)
    requires forall j | 0 <= j < |files| :: |files[j]| == |files[0]| && labeller(files[j]).Ok?
    ensures PassOutcome(files, labeller) == Completed
  {
    var s := FirstStop(files, labeller);
    if s < |files| {
      assert false;
    }
  }

  /** Without the underscore rule "stem.png" with byte-sized characters gets 8 entries per stem character. */
  lemma StemTargetLength(file: string)
    requires |file| >= 4 && file[|file| - 4..] == Extension
    requires AllBytes(file[..|file| - 4]) && NoExtension(file[..|file| - 4])
    ensures Label(EveryCharacter)(file).Ok? && |Label(EveryCharacter)(file).value| == 8 * (|file| - 4)
  {
    var stem := file[..|file| - 4];
    assert file == stem + Extension;
    WholeStemTarget(stem, EveryCharacter);
  }

  /**
   * With every character encoded, names of one common length always
   * complete the pass; when each is some stem plus ".png" whose characters
   * fit a byte, every target has the same length, 8 per stem character.
   */
  lemma UniformNamesGiveUniformTargets(files: seq<string>)
    requires forall j | 0 <= j < |files| :: |files[j]| == |files[0]|
    requires forall j | 0 <= j < |files| ::
      && |files[j]| >= 4 && files[j][|files[j]| - 4..] == Extension
      && AllBytes(files[j][..|files[j]| - 4]) && NoExtension(files[j][..|files[j]| - 4])
    ensures PassOutcome(files, Label(EveryCharacter)) == Completed
    ensures forall j | 0 <= j < |files| :: |Targets(files, Label(EveryCharacter))[j]| == 8 * (|files[0]| - 4)
  {
    var labeller := Label(EveryCharacter);
    forall j | 0 <= j < |files|
      ensures labeller(files[j]).Ok? && |labeller(files[j]).value| == 8 * (|files[0]| - 4)
    {
      StemTargetLength(files[j]);
    }
    NoRaiseCompletes(files, labeller);
    forall j | 0 <= j < |files|
      ensures |Targets(files, labeller)[j]| == 8 * (|files[0]| - 4)
    {
      TargetsAt(files, labeller, j);
    }
  }

  /**
   * The length check compares whole names, not labels. Under the underscore rule
   * "c_x.png" and "stem.png" of equal length pass it, although the first
   * target has one block and the second one block per stem character
   * (e.g. "A_1.png" and "ABC.png": 8 and 24 entries).
   */
  lemma RaggedTargetsPassLengthCheck(c: char, x: string, stem: string)
    requires c != '_' && '_' !in x && '_' !in stem
    requires NoExtension([c] + "_" + x) && NoExtension(stem) && AllBytes(stem)
    requires |stem| == |x| + 2
    ensures var files := [[c] + "_" + x + Extension, stem + Extension];
      && PassOutcome(files, Label(PrefixBeforeUnderscore)) == Completed
      && Targets(files, Label(PrefixBeforeUnderscore))[0] == CharBlock(c)
      && |Targets(files, Label(PrefixBeforeUnderscore))[1]| == 8 * |stem| >= 16
  {
    var files := [[c] + "_" + x + Extension, stem + Extension];
    var labeller := Label(PrefixBeforeUnderscore);
    CharPrefixTarget(c, x);
    WholeStemTarget(stem, PrefixBeforeUnderscore);
    assert !StopsAt(files, labeller, 0) && !StopsAt(files, labeller, 1);
    assert FirstStop(files, labeller) == 2;
    TargetsAt(files, labeller, 0);
    TargetsAt(files, labeller, 1);
  }

  /**
   * Under the underscore rule "c_x.png" and "c_y.png" carry the same labeller,
   * yet when the suffixes differ in length (e.g. "A_1.png" and "A_10.png")
   * the length check rejects the second file.
   */
  lemma SameLabelFailsLengthCheck(c: char, x: string, y: string)
    requires c != '_' && '_' !in x && '_' !in y && |x| != |y|
    requires NoExtension([c] + "_" + x) && NoExtension([c] + "_" + y)
    ensures var files := [[c] + "_" + x + Extension, [c] + "_" + y + Extension];
      && Target(files[0], PrefixBeforeUnderscore) == Target(files[1], PrefixBeforeUnderscore)
      && PassOutcome(files, Label(PrefixBeforeUnderscore)) == Raised(NameLengthMismatch(files[1]))
  {
    var files := [[c] + "_" + x + Extension, [c] + "_" + y + Extension];
    var labeller := Label(PrefixBeforeUnderscore);
    CharPrefixTarget(c, x);
    CharPrefixTarget(c, y);
    assert !StopsAt(files, labeller, 0);
    assert LengthRejects(files, 1);
  }

  // ---------------------------------------------------------------------
  // Parametro
  // ---------------------------------------------------------------------

  class Parameters {
    const image: Image
    const variant: Variant
    /** `_montar_saidas` of `variant` as a function of the file name. */
    const labeller: Labeller
    /** `caminho_entradas`: "assets/" followed by the sub-folder. */
    const inputDir: string
    /** `arquivos`: the file names, extension included. */
    var files: seq<string>
    /** `entradas`: one flattened image per file read. */
    var inputs: seq<seq<int>>
    /** `saidas`: one bipolar target per file read. */
    var targets: seq<seq<int>>

    /**
     * `labeller` is the label builder of `variant`. The link is stated per
     * file name and used only where a target is built.
     */
    ghost predicate Valid() {
      forall file {:trigger Target(file, variant)} :: labeller(file) == Target(file, variant)
    }

    constructor (image: Image, subFolder: string, variant: Variant)
      ensures this.image == image && this.variant == variant
      ensures labeller == Label(variant) && Valid()
      ensures inputDir == "assets/" + subFolder
      ensures files == [] && inputs == [] && targets == []
    {
      this.image := image;
      this.variant := variant;
      labeller := Label(variant);
      inputDir := "assets/" + subFolder;
      files, inputs, targets := [], [], [];
    }

    /** `_montar_entradas`: appends the image's vector (empty when it does not decode). */
    method BuildInputs(name: string)
      modifies this`inputs, image`data
      ensures inputs == old(inputs) + [Vector(image.decoder(inputDir + name))]
      ensures image.data == Opened(old(image.data), image.decoder(inputDir + name))
    {
      var vector := image.ToVector(inputDir + name);
      inputs := inputs + [vector];
    }

    /** `_montar_saidas`: appends the name's target, or raises and appends nothing. */
    method BuildTargets(file: string) returns (outcome: Outcome)
      modifies this`targets
      ensures outcome == if Target(file, variant).Ok? then Completed else Raised(Target(file, variant).error)
      ensures Target(file, variant).Ok? ==> targets == old(targets) + [Target(file, variant).value]
      ensures Target(file, variant).Err? ==> targets == old(targets)
    {
      var name := RemoveExtension(file);
      var target: seq<int>;
      if variant == PrefixBeforeUnderscore && '_' in name {
        if Occurrences('_', name) != 1 {
          return Raised(TooManyValuesToUnpack);
        }
        var prefix := name[..IndexOf('_', name)];
        var binary := Encoding.ToBinary(prefix);
        if binary.Err? {
          return Raised(binary.error);
        }
        Encoding.ToBinarySpec(prefix);
        Encoding.BipolarSpec(binary.value);
        var mapped := Encoding.Bipolar(binary.value);
        target := mapped.value;
      } else {
        target := EncodeLabel(name);
      }
      targets := targets + [target];
      outcome := Completed;
    }

    /** One accepted file: its input, then its target. */
    method ReadFile(name: string) returns (outcome: Outcome)
      requires Valid()
      modifies this`inputs, this`targets, image`data
      ensures inputs == old(inputs) + [Vector(image.decoder(inputDir + name))]
      ensures image.data == Opened(old(image.data), image.decoder(inputDir + name))
      ensures outcome == if labeller(name).Ok? then Completed else Raised(labeller(name).error)
      ensures labeller(name).Ok? ==> targets == old(targets) + [labeller(name).value]
      ensures labeller(name).Err? ==> targets == old(targets)
    {
      BuildInputs(name);
      outcome := BuildTargets(name);
    }

    /**
     * `_ler_imagens`: walks `files` in order; the first name sets the
     * expected length, a later name of another length raises, and every
     * accepted file appends its input and then its target.
     */
    method ReadImages() returns (outcome: Outcome)
      requires Valid()
      modifies this`inputs, this`targets, image`data
      ensures outcome == PassOutcome(files, labeller)
      ensures inputs == old(inputs) + PassInputs(image.decoder, inputDir, files, labeller)
      ensures targets == old(targets) + PassTargets(files, labeller)
      ensures image.data == PassData(image.decoder, inputDir, files, labeller, old(image.data))
    {
      var fs, decoder, dir := files, image.decoder, inputDir;
      ghost var data0 := image.data;
      var nameLength: Option<nat> := None;
      var i := 0;
      while i < |fs|
        invariant i <= |fs| && i <= FirstStop(fs, labeller)
        invariant nameLength == if i == 0 then None else Some(|fs[0]|)
        invariant inputs == old(inputs) + Inputs(decoder, dir, fs[..i])
        invariant targets == old(targets) + Targets(fs[..i], labeller)
        invariant image.data == DataAfter(decoder, dir, fs[..i], data0)
      {
        var name := fs[i];
        if nameLength.None? {
          nameLength := Some(|name|);
        } else if |name| != nameLength.value {
          StoppedByLength(decoder, dir, fs, labeller, data0, i);
          return Raised(NameLengthMismatch(name));
        }
        assert !LengthRejects(fs, i);
        outcome := ReadFile(name);
        if outcome.Raised? {
          StoppedByLabel(decoder, dir, fs, labeller, data0, old(inputs), i);
          return;
        }
        PassContinues(decoder, dir, fs, labeller, data0, old(inputs), old(targets), i);
        i := i + 1;
      }
      PassFinished(decoder, dir, fs, labeller, data0);
      outcome := Completed;
    }

    /**
     * `executar`: the listed names are added to `files`, the pass runs, and
     * the two collections are returned unless it raised.
     */
    method Execute(listed: seq<string>) returns (r: Result<(seq<seq<int>>, seq<seq<int>>)>)
      requires Valid()
      modifies this`files, this`inputs, this`targets, image`data
      ensures files == old(files) + listed
      ensures inputs == old(inputs) + PassInputs(image.decoder, inputDir, files, labeller)
      ensures targets == old(targets) + PassTargets(files, labeller)
      ensures image.data == PassData(image.decoder, inputDir, files, labeller, old(image.data))
      ensures r == match PassOutcome(files, labeller)
                   case Completed => Ok((inputs, targets))
                   case Raised(e) => Err(e)
    {
      files := files + listed;
      var outcome := ReadImages();
      match outcome {
        case Completed => r := Ok((inputs, targets));
        case Raised(e) => r := Err(e);
      }
    }
  }
}
