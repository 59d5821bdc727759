# SymPhi engine, modelled in Dafny

SymPhi reads a word as a "symmetry profile". Each ASCII letter falls into one
of four classes: idempotent, biphasic, involutive or asymmetric. Each class
has its own energy heuristic and a four-component vector. The engine applies
letter-permuting strategies to a word: mirror, pairwise_rotate, interleave,
symmetry_stabilize and cycle. For every step it records readings before and
after, a conservation report and a signature. A whole run of strategies
becomes a ledger entry, which can be appended to a ledger.

The model has five modules:

- `Wrappers` (`wrappers.dfy`): `Option`, `Result` and the two kinds of
  error the code raises, a `KeyError` carrying the unknown name and a
  `TypeError`.
- `Framework` (`framework.dfy`): the classifier, energy, vectors, word
  classification, class counts and `normalize_word` of
  `gdk9_framework.py`. `math.sin`, `math.sqrt` and `math.pi` are a
  `Numerics` parameter, and energies are exact reals.
- `Transformations` (`transformations.dfy`): the packaged strategy module
  `src/gdk9/transformations.py`. Two strategies are written as loops in the
  code, so they are modelled as methods proved equal to specification
  functions:
  - `pairwise_rotate`: an in-place swap loop over a character array.
  - `symmetry_stabilize`: `list.sort` with the `(label or "zz", index)` key.
    This is an insertion sort on an array of items. It is proved equal to
    "asymmetric letters, then biphasic, idempotent, involutive, unclassified,
    each group in its original order".

  `compose_sequence` is also a loop, modelled as a method. The module also
  holds the registry and `get_transformation`.
- `LegacyTransformations` (`legacy_transformations.dfy`): the older
  top-level `gdk9_transformations.py`. Its registry holds only four
  strategies, and it registers the same functions as the packaged module.
- `Engine` (`engine.dfy`): `src/gdk9/engine.py`. The readings, reports and
  ledger records are datatypes. `ImplicationEngine` is a class with:
  - a `tolerance`, the numeric parameters and the SHA-256 function as
    constants;
  - the optional ledger as a (ghost) sequence of entries, which
    `TransformSequence` appends to.

  The loop of `transform_sequence` is a `for` loop. It is proved equal to a
  left fold, `Run`, and the properties of the fold are proved once for any
  step function.

Two places where the code does less than it appears to:

- `read` binds the word to a local named `clean_word` (`engine.py:46`), but
  nothing cleans it: `word or ''` keeps the word verbatim, non-letters
  included, and the model follows that. Non-letters get energy 0, the zero vector and the
  "unknown" bucket.
- In `get_symmetry_type`, the four lowercase-table branches test the
  uppercased character, so they can never decide the result
  (`LowercaseBranchesUnreachable`). Classification depends only on the
  uppercase tables, which partition `A`..`Z`.

## Model

| member | source | states |
|---|---|---|
| Framework.TablesPartitionAlphabet | SymPhi-Engine-dev/gdk9_framework.py:8-15 | the four uppercase tables are pairwise disjoint and together hold exactly the letters A..Z |
| Framework.GetSymmetryType | SymPhi-Engine-dev/gdk9_framework.py:25-46 | a class is returned exactly for a one-character alphabetic string, and that class's table holds the uppercased letter |
| Framework.LowercaseBranchesUnreachable | SymPhi-Engine-dev/gdk9_framework.py:38-45 | the classifier equals the same classifier with its four lowercase-table branches removed |
| Framework.ClassificationIsCaseInsensitive | SymPhi-Engine-dev/gdk9_framework.py:29-37 | a character, its uppercase and its lowercase form get the same class |
| Framework.NonLettersAreUnclassified | SymPhi-Engine-dev/gdk9_framework.py:27-28 | the empty string and any string holding a non-letter get no class |
| Framework.Energy | SymPhi-Engine-dev/gdk9_framework.py:49-64 | energy is 0 for unclassified characters, in 1..26 for idempotent letters, in (0, 1] for involutive ones and in 2..27 for asymmetric ones |
| Framework.SumPermutation | SymPhi-Engine-dev/gdk9_framework.py:67-69 | a per-character sum is the same for any rearrangement of the word |
| Framework.WordEnergy | SymPhi-Engine-dev/gdk9_framework.py:67-69 | definition of word_energy, the sum of the per-character energies; its properties are in the WordEnergyPermutation and Engine.ReadClean rows |
| Framework.WordEnergyPermutation | SymPhi-Engine-dev/gdk9_framework.py:67-69 | word energy is the same for any permutation of the word |
| Framework.TypeId | SymPhi-Engine-dev/gdk9_framework.py:17 | type_id is 0 without a class, else the class's 1-based place in SYMMETRY_ORDER |
| Framework.Vectorize | SymPhi-Engine-dev/gdk9_framework.py:72-82 | a non-letter gives the zero vector; a letter gives its alphabet position 1..26 and a type_id 1..4 that names its class |
| Framework.VectorSum | SymPhi-Engine-dev/src/gdk9/engine.py:47-48 | definition of the `np.sum(vectors, axis=0)` of `read`, component by component, with the empty sum standing for `np.zeros(4)`; its properties are in the VectorSumPermutation and TypeIdSumMatchesCounts rows |
| Framework.VectorSumPermutation | SymPhi-Engine-dev/src/gdk9/engine.py:47-48 | the summed vector is the same for any permutation of the word |
| Framework.TypeIdSumMatchesCounts | SymPhi-Engine-dev/gdk9_framework.py:79 | the summed type_id component equals idempotent + 2·biphasic + 3·involutive + 4·asymmetric of the class counts |
| Framework.ClassifyWord | SymPhi-Engine-dev/gdk9_framework.py:85-87 | one entry per character, entry i the class of character i |
| Framework.ClassifyCountsClass | SymPhi-Engine-dev/gdk9_framework.py:92 | the Counter over the classes holds, for each class, the number of characters of that class |
| Framework.CountClassesTotal | SymPhi-Engine-dev/gdk9_framework.py:90-97 | the five class counts add up to the word's length |
| Framework.SymmetryCounts | SymPhi-Engine-dev/gdk9_framework.py:90-97 | each bucket counts the characters of its class, None becomes "unknown", and the buckets total the length |
| Framework.SymmetryCountsPermutation | SymPhi-Engine-dev/gdk9_framework.py:90-97 | class counts are the same for any permutation of the word |
| Framework.NormalizeWord | SymPhi-Engine-dev/gdk9_framework.py:20-22 | the result is no longer than the word and holds letters only |
| Framework.NormalizeKeepsLetters | SymPhi-Engine-dev/gdk9_framework.py:20-22 | every letter keeps its multiplicity and every other character is dropped |
| Framework.NormalizeConcat | SymPhi-Engine-dev/gdk9_framework.py:20-22 | normalizing a concatenation concatenates the normalized parts, so order is kept |
| Framework.NormalizeFixedPoint | SymPhi-Engine-dev/gdk9_framework.py:20-22 | a word is left unchanged if and only if it is all letters |
| Framework.NormalizeIdempotent | SymPhi-Engine-dev/gdk9_framework.py:20-22 | normalizing twice is normalizing once |
| Framework.UnknownCountsNonLetters | SymPhi-Engine-dev/gdk9_framework.py:93-96 | the "unknown" bucket counts exactly the characters normalize_word drops |
| Transformations.Mirror | SymPhi-Engine-dev/src/gdk9/transformations.py:8-10 | same length, position i holds position n-1-i, a permutation |
| Transformations.MirrorInvolution | SymPhi-Engine-dev/src/gdk9/transformations.py:8-10 | mirroring twice gives the word back |
| Transformations.PairwiseRotated | SymPhi-Engine-dev/src/gdk9/transformations.py:13-18 | definition of pairwise_rotate as registered; it keeps the length, and its properties are in the PairwiseRotatedAt, PairwiseRotatedPermutes and PairwiseRotatedInvolution rows; PairwiseRotate is the in-place loop proved equal to it |
| Transformations.PairwiseRotate | SymPhi-Engine-dev/src/gdk9/transformations.py:13-18 | the in-place swap loop returns PairwiseRotated of the word |
| Transformations.PairwiseRotatedAt | SymPhi-Engine-dev/src/gdk9/transformations.py:13-18 | position i holds the character of its pair partner (2j and 2j+1 trade places; an unpaired last position stays) |
| Transformations.PairwiseRotatedPermutes | SymPhi-Engine-dev/src/gdk9/transformations.py:13-18 | the result is a permutation of the word |
| Transformations.PairwiseRotatedInvolution | SymPhi-Engine-dev/src/gdk9/transformations.py:13-18 | rotating pairs twice gives the word back |
| Transformations.Evens | SymPhi-Engine-dev/src/gdk9/transformations.py:23 | word[::2] has ceil(n/2) characters, entry j the character at 2j |
| Transformations.Odds | SymPhi-Engine-dev/src/gdk9/transformations.py:24 | word[1::2] has floor(n/2) characters, entry j the character at 2j+1 |
| Transformations.EvensOddsSplit | SymPhi-Engine-dev/src/gdk9/transformations.py:23-24 | the even and odd channels together hold every character once |
| Transformations.Interleave | SymPhi-Engine-dev/src/gdk9/transformations.py:21-25 | same length and a permutation of the word |
| Transformations.InterleaveAt | SymPhi-Engine-dev/src/gdk9/transformations.py:21-25 | the first n/2 positions hold the odd positions in order, the rest the even positions |
| Transformations.Cycle | SymPhi-Engine-dev/src/gdk9/transformations.py:36-44 | definition of cycle(word, k), the empty word returned as is; it keeps the length, and its properties are in the CyclePermutes, CycleAt, CycleByMultipleIsIdentity and CycleRoundTrip rows |
| Transformations.CyclePermutes | SymPhi-Engine-dev/src/gdk9/transformations.py:36-44 | a rotation is a permutation of the word |
| Transformations.CycleAt | SymPhi-Engine-dev/src/gdk9/transformations.py:41-44 | position i of cycle(w, k) holds w[(i - k) mod n] |
| Transformations.CycleByMultipleIsIdentity | SymPhi-Engine-dev/src/gdk9/transformations.py:41-44 | the empty word and shifts by a multiple of the length leave the word unchanged |
| Transformations.CycleRoundTrip | SymPhi-Engine-dev/src/gdk9/transformations.py:36-44 | rotating by k and then by (n - k) mod n restores the word |
| Transformations.LabelOrderIsRankOrder | SymPhi-Engine-dev/src/gdk9/transformations.py:32 | the string order of the labels "asymmetric" < "biphasic" < "idempotent" < "involutive" < "zz" is the rank order, and labels are distinct |
| Transformations.SortKeyIsRankKey | SymPhi-Engine-dev/src/gdk9/transformations.py:32 | the tuple key (label or "zz", index) compares exactly like (rank, index) |
| Transformations.InsertIntoSorted | SymPhi-Engine-dev/src/gdk9/transformations.py:32 | inserting item i into the sorted prefix leaves a[..i+1] sorted, the array a permutation of the old one, and everything after position i untouched |
| Transformations.SortByKey | SymPhi-Engine-dev/src/gdk9/transformations.py:32 | the array ends sorted by key and is a permutation of the original |
| Transformations.SortedArrangementIsUnique | SymPhi-Engine-dev/src/gdk9/transformations.py:31-32 | with unique keys, a sorted permutation equals the strictly sorted one |
| Transformations.SortedItemsAreGrouped | SymPhi-Engine-dev/src/gdk9/transformations.py:30-33 | joining the characters of any sorted permutation of the zipped items gives the class-grouped word |
| Transformations.SymmetryStabilize | SymPhi-Engine-dev/src/gdk9/transformations.py:28-33 | the sort-based procedure returns SymmetryStabilized of the word |
| Transformations.SymmetryStabilized | SymPhi-Engine-dev/src/gdk9/transformations.py:28-33 | same length and a permutation of the word |
| Transformations.ClassCharsPartition | SymPhi-Engine-dev/src/gdk9/transformations.py:28-33 | the five class groups together hold every character exactly once |
| Transformations.StabilizedGroups | SymPhi-Engine-dev/src/gdk9/transformations.py:28-33 | within each class, stabilizing keeps the characters and their relative order |
| Transformations.SymmetryStabilizedIdempotent | SymPhi-Engine-dev/src/gdk9/transformations.py:28-33 | stabilizing twice is stabilizing once |
| Transformations.SymmetryStabilizedIsGrouped | SymPhi-Engine-dev/src/gdk9/transformations.py:28-33 | class ranks are nondecreasing along the stabilized word |
| Transformations.StabilizeExample | SymPhi-Engine-dev/tests/test_engine.py:24 | symmetry_stabilize("SYMPHI") is "PYMHIS" |
| Transformations.Composed | SymPhi-Engine-dev/src/gdk9/transformations.py:47-57 | definition of compose_sequence's result, the word passed through the strategies left to right; ComposeSequence is the loop proved equal to it, and its properties are in the ComposedAppend and ComposedPermutation rows |
| Transformations.ComposeSequence | SymPhi-Engine-dev/src/gdk9/transformations.py:47-57 | the loop returns the word passed through the strategies in order |
| Transformations.ComposedAppend | SymPhi-Engine-dev/src/gdk9/transformations.py:47-57 | composing a + b is composing b after a |
| Transformations.ComposedPermutation | SymPhi-Engine-dev/src/gdk9/transformations.py:48-52 | a composition of permutations is a permutation of the word |
| Transformations.CycleOnce | SymPhi-Engine-dev/src/gdk9/transformations.py:65 | cycle as registered (k = 1) is a permutation of the word |
| Transformations.EveryStrategyIsPermutation | SymPhi-Engine-dev/src/gdk9/transformations.py:60-66 | every strategy of the constant `Strategies`, which stands for the TRANSFORMATIONS dict (name, function pairs in insertion order, cycle with k = 1), is a permutation of its input |
| Transformations.Lookup | SymPhi-Engine-dev/src/gdk9/transformations.py:69-72 | a name is found iff it is registered; otherwise KeyError(name); a found strategy is the one listed under that name |
| Transformations.LookupFinds | SymPhi-Engine-dev/src/gdk9/transformations.py:60-72 | without duplicate names, each registered name finds exactly its own strategy |
| Transformations.GetTransformation | SymPhi-Engine-dev/src/gdk9/transformations.py:69-72 | success iff the name is one of the five, KeyError(name) otherwise, and the strategy returned is a permutation |
| Transformations.GetTransformationResolves | SymPhi-Engine-dev/src/gdk9/transformations.py:60-72 | each of the five names returns the strategy registered under it |
| Transformations.AvailableTransformations | SymPhi-Engine-dev/src/gdk9/transformations.py:75-76 | the five names in registration order |
| LegacyTransformations.AvailableTransformations | SymPhi-Engine-dev/gdk9_transformations.py:50-51 | the four names in registration order |
| LegacyTransformations.GetTransformation | SymPhi-Engine-dev/gdk9_transformations.py:44-47 | success iff the name is one of the four, KeyError(name) otherwise, and the strategy is a permutation |
| LegacyTransformations.LegacyIsPackagedPrefix | SymPhi-Engine-dev/gdk9_transformations.py:36-41 | the constant `LegacyStrategies`, which stands for the older TRANSFORMATIONS dict, is the packaged registry without its cycle entry |
| LegacyTransformations.CycleIsUnknown | SymPhi-Engine-dev/gdk9_transformations.py:44-47 | asking for "cycle" raises KeyError("cycle") |
| LegacyTransformations.GetTransformationResolves | SymPhi-Engine-dev/gdk9_transformations.py:36-47 | each of the four names returns the strategy registered under it |
| LegacyTransformations.AgreesWithPackaged | SymPhi-Engine-dev/gdk9_transformations.py:8-47 | wherever the older registry answers, the packaged one gives the same strategy |
| LegacyTransformations.RefusesOnlyCycleMore | SymPhi-Engine-dev/gdk9_transformations.py:36-47 | the older registry refuses a name iff the packaged one does or the name is "cycle" |
| Engine.BuildSignature | SymPhi-Engine-dev/src/gdk9/engine.py:139-146 | definition of _build_signature, the digest of the payload of five fields; its property is in the SignatureDependsOnPayloadOnly row |
| Engine.SignatureDependsOnPayloadOnly | SymPhi-Engine-dev/src/gdk9/engine.py:139-146 | the signature depends only on the word and energy before and on the word, energy and vector sum after |
| Engine.ReadClean | SymPhi-Engine-dev/src/gdk9/engine.py:47-58 | the reading keeps the word, classifies each character, and carries the word's energy, vector sum and class counts (counts totalling the length); the empty word reads energy 0, no classes and the zero vector |
| Engine.Run | SymPhi-Engine-dev/src/gdk9/engine.py:106-118 | definition of the loop of transform_sequence as a left fold over any step function: the recorded steps and the current word, or the first step's error; its properties are in the RunShape, RunChains, RunConserves, RunComposes and RunFailsOnUnknown rows |
| Engine.RunExtend | SymPhi-Engine-dev/src/gdk9/engine.py:108-118 | step lemma for the loop, not a property of its own: one more iteration either raises or appends a step and moves to the transformed word |
| Engine.RunFailureStays | SymPhi-Engine-dev/src/gdk9/engine.py:109 | once a prefix of the run fails, the whole run fails with the same error |
| Engine.RunFailsOnUnknown | SymPhi-Engine-dev/src/gdk9/engine.py:106-118 | for any step that rejects exactly the unknown names, the run fails iff some name is unknown, with the first unknown name's KeyError |
| Engine.RunShape | SymPhi-Engine-dev/src/gdk9/engine.py:108-117 | a finished run records one step per name, with its index and strategy, each the step's result on the word it read |
| Engine.RunChains | SymPhi-Engine-dev/src/gdk9/engine.py:107-118 | the first step reads the start word, each later step reads the previous step's output, and the run ends on the last output |
| Engine.RunConserves | SymPhi-Engine-dev/src/gdk9/engine.py:98-118 | when every step permutes its word, every reading in the run has the start word's energy and the current word is a permutation of it |
| Engine.RunComposes | SymPhi-Engine-dev/src/gdk9/engine.py:106-118 | when each step applies a known strategy, the run succeeds and ends on compose_sequence of those strategies |
| Engine.ImplicationEngine.constructor | SymPhi-Engine-dev/src/gdk9/engine.py:40-42 | keeps the tolerance; the ledger is empty when one is configured and absent otherwise |
| Engine.ImplicationEngine.Read | SymPhi-Engine-dev/src/gdk9/engine.py:44-58 | None is read as the empty word, any other word verbatim, and the reading is ReadClean of that word |
| Engine.ImplicationEngine.EnsureReading | SymPhi-Engine-dev/src/gdk9/engine.py:132-137 | a reading is returned as is, a word is read, and anything else raises TypeError |
| Engine.ImplicationEngine.ValidateConservation | SymPhi-Engine-dev/src/gdk9/engine.py:60-68 | TypeError iff the reference or a given candidate is neither word nor reading; without a candidate the answer is 0 ≤ tolerance; otherwise it is whether the energies differ by at most the tolerance |
| Engine.ImplicationEngine.ValidateCompares | SymPhi-Engine-dev/src/gdk9/engine.py:66-68 | with both values valid, the answer is \|energy before − energy after\| ≤ tolerance |
| Engine.ImplicationEngine.ValidateAgainstItself | SymPhi-Engine-dev/src/gdk9/engine.py:67 | comparing a value with itself, or with no candidate, gives 0 ≤ tolerance |
| Engine.ImplicationEngine.ValidateIsSymmetric | SymPhi-Engine-dev/src/gdk9/engine.py:60-68 | swapping reference and candidate does not change the answer |
| Engine.ImplicationEngine.ValidatePermutedWords | SymPhi-Engine-dev/src/gdk9/engine.py:60-68 | two words that are permutations of each other validate as conserved whenever the tolerance is non-negative |
| Engine.ImplicationEngine.Conservation | SymPhi-Engine-dev/src/gdk9/engine.py:76-83 | the report carries both energies, delta = after − before, conserved iff \|delta\| ≤ tolerance, and the signature of the two readings |
| Engine.ImplicationEngine.Transform | SymPhi-Engine-dev/src/gdk9/engine.py:70-90 | KeyError(strategy) iff the strategy is unknown; otherwise the result names the strategy, applies it, reads the word before and after, and reports the energies, delta, conserved and signature |
| Engine.ImplicationEngine.TransformConserves | SymPhi-Engine-dev/src/gdk9/engine.py:70-90 | for a known strategy the result is a permutation of the same length, with equal energy, vector sum and class counts, delta 0, conserved iff 0 ≤ tolerance |
| Engine.ImplicationEngine.ReadIsPermutationInvariant | SymPhi-Engine-dev/src/gdk9/engine.py:44-58 | readings of two permutations of a word have equal energy, vector sum, counts and number of classes |
| Engine.ImplicationEngine.SequenceEntry | SymPhi-Engine-dev/src/gdk9/engine.py:106-127 | definition of the entry transform_sequence returns (word, creation time, steps, final signature), or the error it raises; TransformSequence is the loop proved equal to it, and its properties are in the Sequence… rows |
| Engine.ImplicationEngine.TransformSequence | SymPhi-Engine-dev/src/gdk9/engine.py:92-127 | the loop returns the entry (or the first error) of SequenceEntry; the ledger gains that entry exactly when the run succeeds, log is set and a ledger is configured, and is otherwise unchanged |
| Engine.ImplicationEngine.AvailableStrategies | SymPhi-Engine-dev/src/gdk9/engine.py:129-130 | a name is listed iff transform accepts it, for every word |
| Engine.ImplicationEngine.SequenceFailsOnUnknown | SymPhi-Engine-dev/src/gdk9/engine.py:106-118 | the sequence fails iff some strategy is unknown, and then with KeyError of the first unknown one |
| Engine.ImplicationEngine.SequenceRecordsSteps | SymPhi-Engine-dev/src/gdk9/engine.py:106-122 | the entry keeps the word and creation time, has one step per strategy with its index and name, and its final signature is absent iff there are no strategies, else the last step's signature |
| Engine.ImplicationEngine.SequenceStepsAreTransforms | SymPhi-Engine-dev/src/gdk9/engine.py:108-117 | each recorded step is exactly transform's result on the word that step read |
| Engine.ImplicationEngine.SequenceStartsOnWord | SymPhi-Engine-dev/src/gdk9/engine.py:107-109 | the first step's before-reading is the reading of the input word |
| Engine.ImplicationEngine.SequenceChainsReadings | SymPhi-Engine-dev/src/gdk9/engine.py:109-118 | each step's before-reading is the previous step's after-reading |
| Engine.ImplicationEngine.SequenceConservesEnergy | SymPhi-Engine-dev/src/gdk9/engine.py:98-118 | every reading of the entry has the input word's energy, every delta is 0, each step is conserved iff 0 ≤ tolerance, and the first energy equals the last |
| Engine.ImplicationEngine.SequenceEndsOnComposition | SymPhi-Engine-dev/src/gdk9/engine.py:106-118 | with known strategies, the run succeeds and ends on compose_sequence of the same strategies |
| Engine.ImplicationEngine.ReadOfLettersHasNoUnknown | SymPhi-Engine-dev/tests/test_engine.py:13-19 | an all-letter word reads no unknown characters and one class per character |
| Engine.ImplicationEngine.FourStrategySequence | SymPhi-Engine-dev/tests/test_engine.py:30-46 | mirror, interleave, symmetry_stabilize, cycle: four steps, all conserved under a non-negative tolerance, first energy equals last, and a final signature |
| Engine.LogSequence | SymPhi-Engine-dev/tests/test_engine.py:30-49 | a fresh engine with a ledger, running known strategies with log set, succeeds and its ledger holds exactly that one entry |

## Left out

- Floating point: energies, vectors and tolerances are exact reals. `math.sin`, `math.sqrt` and `math.pi` are uninterpreted parameters (`Numerics`). The equalities proved here ("delta is 0") hold for reals. The code sums floats in different orders, so its delta can be a rounding error, which the tolerance absorbs.
- Framework.Energy: the biphasic value `sin(pos)` is left uninterpreted, so no bound is stated for it.
- SHA-256 and the `:.8f` / `tolist()` formatting of the payload are a parameter `sha256: SignaturePayload -> string`. The payload keeps the exact values the code formats.
- `time.time()` in `new_entry` is the `createdAt` parameter.
- The ledger file (`JsonLineLedger.append`, `os.makedirs`, `to_json`) is a ghost sequence of entries that `TransformSequence` appends to. JSON serialisation and file I/O are not modelled.
- `numpy` arrays are a four-field `Vector` datatype. `np.zeros(4)` for an empty word is the empty sum.
- Only ASCII letters count as alphabetic. Python's `str.isalpha` and `str.upper` on other Unicode letters (for example, dotless ı uppercases to I) are not modelled.
- `transform` and `transform_sequence` called with `None` as the word are not modelled: the word parameter is a string. In the code the strategy receives the `None` itself (`engine.py:73`). Mirror, pairwise_rotate, interleave and symmetry_stabilize raise on it. Cycle returns it unchanged (`transformations.py:41-42`), so `transform(None, "cycle")` succeeds with two readings of the empty word, and `transform_sequence(None, [])` returns an entry. `read(None)` alone is modelled (`Read` with `None`).
- The `KeyError` message `Unknown transformation '<name>'` (`transformations.py:71`, `gdk9_transformations.py:46`) is reduced to the name itself, `KeyError(name)`.
- Default arguments are not modelled: `transform`'s `strategy='mirror'` (`engine.py:70`) and `transform_sequence`'s `log=True` (`engine.py:96`). `Transform` and `TransformSequence` always take them explicitly.
- The constructor starts the ghost ledger at the empty sequence. It therefore holds only the entries this engine appends, not lines already in the JSONL file or lines appended by another engine sharing the same `JsonLineLedger`.
- `validate_conservation`'s `Union[str, SymmetryReading]` argument is a `Value` datatype; any other Python object is `OtherValue`.
- The functions of `gdk9_transformations.py` are the same code as the packaged ones. The older registry lists the packaged definitions instead of repeating them.
- `src/gdk9/framework.py` is not part of this model. The model uses `gdk9_framework.py` in its place.
- The command-line interface (`cli.py`), `setup.py` and the package `__init__.py` are not modelled.
