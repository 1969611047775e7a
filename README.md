# Dataset builder of a small multilayer-perceptron trainer

This project models the part of the trainer scripts `run.py` and `run_2.py` that turns a folder of
labelled images into training data. That part is `Parametro` and `Imagem`.

- `Imagem` opens an image file as a grayscale matrix and flattens it row by row into one input
  vector (`converter_np_array`).
- `Parametro._ler_imagens` walks the file names in order. The first name fixes the expected name
  length; a later name of another length raises `ValueError`. Each accepted file first appends its
  input vector (`_montar_entradas`) and then its target vector (`_montar_saidas`).
- The target of a name is built from the name without `.png`. Each character `c` becomes the
  number `int(c)`, or `ord(c)` when `int` raises, written as `format(n, '08b')`. Each binary digit
  is then mapped to -1 for `0` and +1 otherwise, and the per-character blocks are concatenated.
- In `run.py` a name containing `_` encodes only the part before the underscore. That part goes
  through the same conversion as a whole string. `run_2.py` has no such rule.

The two scripts are one model with a `Variant` flag:
- `PrefixBeforeUnderscore` is `run.py`.
- `EveryCharacter` is `run_2.py`.

Modules:
- `Results` holds the `Result`/`Option` wrappers and the Python exceptions the builder can raise.
- `Encoding` holds `int()`/`ord()`, `format(n, '08b')`, its base-2 inverse and the bit mapper.
- `Labels` holds `str.replace('.png', '')`, the per-character blocks, the loop of `_montar_saidas`
  and the target of a whole file name.
- `Images` holds the class `Image` (`Imagem`) and its decoding function parameter.
- `Dataset` holds the specification of one pass over the file list and the class `Parameters`
  (`Parametro`). Its methods append to `inputs` and `targets` in place.

The pass is specified for any label builder (`Labeller`). `Parameters` keeps the builder of its
variant in the field `labeller`, which the constructor sets to `Label(variant)`. The class
invariant `Valid` links it to `Target` file by file.

Behaviour of the code worth knowing:
- `format(n, '08b')` does not fail above 255. It returns more than 8 digits, so such a character
  makes a longer block (`Encoding.Format08bSpec`, `Labels.CharBlockSpec`).
- A file that cannot be decoded is not skipped. It appends an empty input vector (`Images.Vector`).
- Under `run.py`, "A_1.png" and "ABC.png" pass the name-length check with targets of 8 and 24
  entries (`Dataset.RaggedTargetsPassLengthCheck`).
- Under `run.py` the target of a name with an underscore is one block, not 8 entries per character
  of the name.

## Model

| member | source | states |
|---|---|---|
| Encoding.IsDigit | run.py:106 | the characters `int` accepts as a digit here: the ASCII digits '0' to '9'; wider `int()` input is under "## Left out" (Encoding.Converted) |
| Encoding.IsDecimal | run.py:106 | the strings `int` parses here: non-empty, every character an ASCII digit; Converted and ToBinarySpec state that exactly these and single characters convert |
| Encoding.DigitValue | run.py:106 | the value `int` gives a decimal digit is below 10 |
| Encoding.DecimalValue | run.py:106 | `int` of a string of ASCII digits; a single digit gives its digit value (the base-2 round trip of its encoding is in ToBinarySpec) |
| Encoding.CharCode | run.py:105-108 | the number a single character converts to: a digit gives its value below 10, any other character its code point (ToBinarySpec ties it to the encoder) |
| Encoding.Converted | run.py:105-108 | the conversion succeeds iff `int` parses the string or `ord` accepts it (exactly one character); one character gives its `CharCode`; any other string raises `ord`'s TypeError with its length |
| Encoding.ToBinary | run.py:104-109 | `_caracter_para_binario` gives a binary string of at least 8 digits; ToBinarySpec adds when it succeeds, the 8-digit case and the base-2 round trip |
| Encoding.ToBinarySpec | run.py:104-109 | the encoder succeeds exactly on a decimal string or a single character; the result is binary, at least 8 digits, exactly 8 iff the value is at most 255, and reads back in base 2 as the digit value or code point; a single character is encoded by its `CharCode` (digit value or ord) |
| Encoding.Format08b | run.py:109 | `format(n, '08b')` is a binary numeral of at least 8 digits |
| Encoding.Bits | run.py:109 | the shortest binary numeral is non-empty, binary, and has no leading zero |
| Encoding.Zeros | run.py:109 | the zero padding of `format` is k zeros |
| Encoding.Format08bSpec | run.py:109 | `format(n, '08b')` read in base 2 is n; it has 8 digits iff n <= 255; a longer result starts with 1 |
| Encoding.Format08bLength | run.py:109 | `format(n, '08b')` has 8 digits iff n <= 255; a longer result starts with 1 |
| Encoding.BitsValue | run.py:109 | the shortest numeral of n reads back as n |
| Encoding.LeadingZerosValue | run.py:109 | zero padding on the left does not change the value |
| Encoding.BitsLength | run.py:109 | the numeral of n has at most k digits iff n < 2^k |
| Encoding.BinaryValueInjective | run.py:109 | two numerals of one width with the same value are equal |
| Encoding.Format08bOfByte | run.py:109 | for n <= 255, `format(n, '08b')` is the only 8-digit numeral of value n |
| Encoding.ByteValue | run.py:109 | the value of an 8-digit numeral, digit by digit |
| Encoding.Format08bExamples | run.py:109 | format(5) is 00000101 and format(65) is 01000001 |
| Encoding.ToBinaryExamples | run.py:104-109 | "5" encodes by its value as 00000101; "A" by ord 65 as 01000001 |
| Encoding.Activation | run.py:102 | `int(bit)` succeeds iff the character is a digit, and the entry is -1 exactly for '0', +1 for any other digit |
| Encoding.Bipolar | run.py:101-102 | the comprehension keeps the length when it succeeds; BipolarSpec states it in full (success iff all digits, entries, first failing character) |
| Encoding.BipolarSpec | run.py:101-102 | the mapper succeeds iff every character is a digit; it keeps the length, maps '0' to -1 and any other digit to +1; otherwise it raises at the first non-digit |
| Encoding.SignsAt | run.py:102 | entry i of the sign vector is -1 for digit '0' and +1 otherwise |
| Encoding.BipolarOfDigits | run.py:101-102 | on a digit string the mapper returns the sign vector of its digits |
| Encoding.Signs | run_2.py:85-86 | the sign vector has one entry per digit |
| Encoding.Unipolar | run_2.py:85-86 | reading a bipolar vector back gives a binary string of the same length |
| Encoding.BipolarRoundTrip | run_2.py:85-86 | mapping a binary string and reading it back gives the string again |
| Labels.RemoveExtension | run.py:82 | removing ".png" shortens a name by a multiple of 4 |
| Labels.RemoveExtensionNone | run.py:82 | a name without ".png" is unchanged |
| Labels.RemoveExtensionAppended | run.py:82 | appending ".png" adds nothing once removed (no occurrence straddles the join) |
| Labels.StemOfPngName | run.py:82 | "stem.png" with no ".png" in the stem gives back the stem |
| Labels.CharBlock | run.py:94-95 | a character's block has at least 8 entries |
| Labels.CharBlockLength | run.py:94-95 | a block is 8 long iff the character's value fits a byte |
| Labels.CharBlockSpec | run.py:94-95 | a block holds only -1/+1, is 8 long iff the value is at most 255, decodes back to the character's value, and is what the encoder and mapper produce for that character |
| Labels.EncodeName | run.py:91-96 | the concatenated blocks of a name have at least 8 entries per character; EncodeNameBipolar, EncodeNameLength and EncodeNameBlock state their values, length and layout |
| Labels.EncodeNameBipolar | run_2.py:78-82 | every target holds only -1/+1, at least 8 per character |
| Labels.EncodeNameLength | run_2.py:78-82 | with all values below 256 the target has exactly 8 entries per character |
| Labels.EncodeNameBlock | run_2.py:79-82 | the k-th 8-entry block of the target is the k-th character's block |
| Labels.EncodeLabel | run.py:91-96 | the loop concatenating the character blocks returns the encoding of the whole name |
| Labels.Occurrences | run.py:85-86 | the underscore count is zero iff there is no underscore |
| Labels.IndexOf | run.py:86 | the split point is the first underscore |
| Labels.Target | run.py:81-98 | `_montar_saidas` of one file name, no contract of its own: PrefixLabel, PrefixTarget and SeveralUnderscoresRaise state the underscore branch, WholeStemTarget and WholeStemBlocks the character-by-character branch, EveryCharacterNeverRaises the `run_2.py` variant |
| Labels.WholeStemTarget | run_2.py:76-83 | "stem.png" without the underscore rule succeeds with 8 entries per stem character |
| Labels.WholeStemBlocks | run.py:91-98 | the k-th block of such a target is the k-th stem character's block |
| Labels.PrefixTarget | run.py:85-88 | for "p_x.png" the target succeeds iff p is decimal or one character; one character gives its block; a decimal p reads back as its value, with 8 entries iff at most 255; any other p raises TypeError from `ord` |
| Labels.PrefixLabel | run.py:85-88 | under the underscore rule the target of "p_x.png" is the conversion of p alone, mapped to -1/+1, or the conversion's error |
| Labels.CharPrefixTarget | run.py:85-88 | "c_x.png" has the block of c as its target |
| Labels.UnderscoreCount | run.py:86 | when neither part holds an underscore, "p_x" holds exactly one, so the unpacking succeeds |
| Labels.OccurrencesAppend | run.py:86 | occurrences add up over a concatenation |
| Labels.SeveralUnderscoresRaise | run.py:86 | two or more underscores make the unpacking raise |
| Labels.CharBlockExample | run.py:101-109 | 'A' gives [-1, 1, -1, -1, -1, -1, -1, 1] |
| Labels.UnderscoreExample | run.py:81-88 | "A_1.png" gives [-1, 1, -1, -1, -1, -1, -1, 1] under the underscore rule |
| Labels.WholeNameExamples | run_2.py:76-83 | "A_1.png" gives 24 entries without the rule; "AB.png" gives 16 |
| Images.Flatten | run.py:28-29 | the rows appended in order give one entry per pixel; FlattenAt states where each pixel lands |
| Images.FlattenAt | run.py:25-30 | pixel (i, j) lands after the pixels of the rows before row i |
| Images.Vector | run.py:25-30 | the vector of a decoded matrix has one entry per pixel; a file that does not decode gives an empty vector |
| Images.Opened | run.py:15-23 | `data` after one open, no contract of its own: Image.Open states it, DataAfterNoneDecoded and DataAfterLastDecoded state its effect over a sequence of opens |
| Images.Image.constructor | run.py:10-13 | a new reader holds no matrix and decodes with the given library |
| Images.Image.Open | run.py:15-23 | opening succeeds iff the file decodes; on success the matrix replaces `data`, on failure `data` is kept |
| Images.Image.ToVector | run.py:25-30 | the loop appending rows returns the row-major flattening, or an empty vector when decoding fails |
| Dataset.Label | run.py:81-98 | `_montar_saidas` of a variant as a function of the file name, no contract of its own: EveryCharacterNeverRaises, StemTargetLength and RaggedTargetsPassLengthCheck state its values |
| Dataset.PassOutcome | run.py:61-71 | the pass completes iff no file stops it; StoppedByLength and StoppedByLabel give the error raised at the stop |
| Dataset.PassInputs | run.py:61-78 | the pass appends an input for every file before the stop, and for the stopping file too when it passed the length check (exact values in StoppedByLength, StoppedByLabel and PassFinished) |
| Dataset.PassTargets | run.py:61-98 | the pass appends one target per file before the stop (exact values in StoppedByLength, StoppedByLabel and PassFinished) |
| Dataset.PassData | run.py:15-23 | the reader's `data` after the pass, no contract of its own: StoppedByLength, StoppedByLabel and PassFinished reduce it to DataAfter |
| Dataset.DataAfter | run.py:15-23 | the reader's `data` after opening files in order, no contract of its own: DataAfterNoneDecoded and DataAfterLastDecoded state it |
| Dataset.LengthRejects | run.py:64-69 | file i > 0 is rejected iff its full name, extension included, differs in length from file 0's; StoppedByLength and FirstLengthMismatchRaises state the ValueError it raises |
| Dataset.StopsAt | run.py:63-71 | file i ends the pass iff the length check rejects it or `_montar_saidas` raises on it; FirstStopFrom and FirstStop state that the pass stops at the first such file |
| Dataset.FirstStopFrom | run.py:61-71 | the first file at or after i that ends the pass; no earlier one does |
| Dataset.FirstStop | run.py:61-71 | no file before the stop ends the pass and each has a label; the stop, if any, ends it |
| Dataset.InputsRead | run.py:70 | no more files get an input than there are files |
| Dataset.DataAfterNoneDecoded | run.py:15-23 | when no opened file decodes, the reader keeps its old value |
| Dataset.DataAfterLastDecoded | run.py:15-23 | after a sequence of opens the reader holds the matrix of the last file that decoded |
| Dataset.Inputs | run.py:74-78 | one input vector per file |
| Dataset.Targets | run.py:98 | one target per file |
| Dataset.StoppedByLength | run.py:63-69 | a length mismatch at file i raises that file's ValueError with only the earlier files appended |
| Dataset.StoppedByLabel | run.py:70-71 | a label that raises at file i leaves file i's input appended but not its target |
| Dataset.PassFinished | run.py:61-71 | a pass with no stop completes with every file's input and target |
| Dataset.PassContinues | run.py:63-71 | a file passing both checks appends one input, one target, and updates the reader |
| Dataset.InputsAt | run.py:74-78 | the j-th input is the vector of the j-th file |
| Dataset.TargetsAt | run.py:98 | the j-th target is the label of the j-th file |
| Dataset.CompletedPassOnePerFile | run_2.py:58-68 | after a completed pass every name has the first name's length, and file j contributed exactly the j-th input and the j-th target |
| Dataset.FirstLengthMismatchRaises | run_2.py:58-68 | the first name of another length stops the pass at the latest there; when no earlier label raises it stops exactly there with that name's ValueError |
| Dataset.EveryCharacterNeverRaises | run_2.py:76-83 | without the underscore rule the label is always the encoding of the name without ".png" |
| Dataset.NoRaiseCompletes | run.py:61-71 | names of one common length whose labels all succeed complete the pass |
| Dataset.StemTargetLength | run_2.py:76-83 | without the rule, "stem.png" with byte-sized characters gets a target of 8 entries per stem character |
| Dataset.UniformNamesGiveUniformTargets | run_2.py:58-83 | without the rule, names of one length of the form "stem.png" with byte-sized stems complete the pass, and every target has 8 entries per stem character |
| Dataset.RaggedTargetsPassLengthCheck | run.py:61-98 | "c_x.png" and "stem.png" of equal length pass the name-length check although their targets have different lengths |
| Dataset.SameLabelFailsLengthCheck | run.py:63-88 | "c_x.png" and "c_y.png" have the same label but the name-length check rejects them when x and y differ in length |
| Dataset.Parameters.constructor | run.py:34-53 | the builder starts with no files, inputs or targets, reads from "assets/" plus the sub-folder, and labels with its variant's label builder |
| Dataset.Parameters.BuildInputs | run.py:74-78 | appends the image's vector (empty when it does not decode) and updates the reader |
| Dataset.Parameters.BuildTargets | run.py:81-98 | appends the name's target, or raises the label's error and appends nothing |
| Dataset.Parameters.ReadFile | run.py:70-71 | an accepted file appends its vector, updates the reader, then appends its label or raises the label's error with no target appended |
| Dataset.Parameters.ReadImages | run.py:61-71 | the pass raises or completes as `PassOutcome` says, appends the inputs and targets of the files it got through, and leaves the reader as opening those files does |
| Dataset.Parameters.Execute | run.py:111-118 | adds the listed names, runs the pass and returns both collections, or the raised error |

## Left out

- `TreinamentoPerceptronMultiCamadas` is not modelled: weight initialisation, forward and backward propagation, momentum updates and error history. It uses floating point and unseeded randomness.
- `_listar_arquivos` is not modelled (it walks the file system). `Execute` takes the listed file names as a parameter.
- `_abrir_imagem` is not modelled internally (it opens files through the image library). The decoder is a function parameter of `Image` that gives a matrix or nothing.
- The `type` and `shape` fields of `Imagem` in `run.py` are not modelled. Nothing in the core reads them.
- The learning rate, epochs, momentum, hidden-neuron count and `imagem_unica` constructor parameters are not modelled. Only the trainer reads them.
- The module-level script code, its loops and `print` calls are not modelled.
- Values are integers. numpy stores the vectors as floats, but pixel intensities and ±1 are exact in either.
- Encoding.Converted: `int()` also accepts a sign, surrounding whitespace, underscores between digits and non-ASCII decimal digits. Only strings of ASCII digits are treated as decimal here. Any other string takes the `ord` path, so a prefix such as "+1" is modelled as raising TypeError where Python gives 1.
- Exception messages are not modelled. A raised error carries its kind and, for the length check, the offending name.
- Dataset.Parameters.ReadImages: `files` is a copy taken when the pass starts. Python iterates the live list, but nothing in the core changes it during the pass.
