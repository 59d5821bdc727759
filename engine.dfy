/**
 * The implication engine of src/gdk9/engine.py: readings of a word, the
 * conservation check, one transformation with its report, and a sequence of
 * transformations recorded as a ledger entry.
 *
 * Per-character energy and the vector sum come from Framework, over exact
 * reals; the SHA-256 digest of a signature is a function the engine is
 * given; the JSON-lines ledger file is the sequence of entries appended to it.
 */
module Engine {
  import opened Wrappers
  import opened Framework
  import opened Transformations

  /** The profile of one word. */
  datatype SymmetryReading = SymmetryReading(
    word: string,
    energy: real,
    classes: seq<Option<SymmetryClass>>,
    vectorSum: Vector,
    symmetryCounts: Counts)

  /** Energy before and after one transformation. */
  datatype ConservationReport = ConservationReport(
    initialEnergy: real,
    transformedEnergy: real,
    delta: real,
    conserved: bool,
    signature: string)

  datatype TransformationResult = TransformationResult(
    strategy: string,
    transformedWord: string,
    readingBefore: SymmetryReading,
    readingAfter: SymmetryReading,
    conservation: ConservationReport)

  /** One step of a ledger entry (src/gdk9/ledger.py). */
  datatype LedgerStep = LedgerStep(
    index: nat,
    strategy: string,
    before: SymmetryReading,
    after: SymmetryReading,
    conservation: ConservationReport)

  /** A whole run; createdAt is the clock reading taken when the entry is made. */
  datatype LedgerEntry = LedgerEntry(
    word: string,
    createdAt: real,
    steps: seq<LedgerStep>,
    finalSignature: Option<string>)

  /** What _ensure_reading may be handed: a word, a reading, or anything else. */
  datatype Value = Word(text: string) | Reading(reading: SymmetryReading) | OtherValue

  /** The five fields the signature string is formatted from. */
  datatype SignaturePayload = SignaturePayload(
    beforeWord: string,
    beforeEnergy: real,
    afterWord: string,
    afterEnergy: real,
    afterVectorSum: Vector)

  const DefaultTolerance: real := 0.000001

  function StepOf(index: nat, t: TransformationResult): LedgerStep {
    LedgerStep(index, t.strategy, t.readingBefore, t.readingAfter, t.conservation)
  }

  /** The signature: a digest of the word and energy before, and the word, energy and vector sum after. */
  function BuildSignature(sha256: SignaturePayload -> string, before: SymmetryReading, after: SymmetryReading): string {
    sha256(SignaturePayload(before.word, before.energy, after.word, after.energy, after.vectorSum))
  }

  /** The signature ignores the classes, the counts and the vector sum before the step. */
  lemma SignatureDependsOnPayloadOnly(sha256: SignaturePayload -> string, b1: SymmetryReading, a1: SymmetryReading,
                                      b2: SymmetryReading, a2: SymmetryReading)
    requires b1.word == b2.word && b1.energy == b2.energy
    requires a1.word == a2.word && a1.energy == a2.energy && a1.vectorSum == a2.vectorSum
    ensures BuildSignature(sha256, b1, a1) == BuildSignature(sha256, b2, a2)
  {
  }

  /**
   * The reading of a word that is already a string. The source sums no
   * vectors for the empty word and returns four zeros instead; the empty sum
   * is that same zero vector, so one expression covers both.
   */
  function ReadClean(clean: string, num: Numerics): (r: SymmetryReading)
    ensures r.word == clean
    ensures |r.classes| == |clean|
    ensures forall i :: 0 <= i < |clean| ==> r.classes[i] == ClassOf(clean[i])
    ensures r.energy == WordEnergy(clean, num)
    ensures r.vectorSum == VectorSum(clean, num)
    ensures r.symmetryCounts == SymmetryCounts(clean)
    ensures r.symmetryCounts.Total() == |clean|
    ensures clean == [] ==> r.energy == 0.0 && r.classes == [] && r.vectorSum == ZeroVector
  {
    SymmetryReading(clean, WordEnergy(clean, num), ClassifyWord(clean), VectorSum(clean, num), SymmetryCounts(clean))
  }

  lemma AbsDifference(a: real, b: real)
    ensures Abs(a - b) == Abs(b - a)
  {
  }

  /** One transformation step: a word and a strategy name to a result or an error. */
  type Stepper = (string, string) -> Result<TransformationResult, Error>

  /**
   * The loop of transform_sequence over any step function: the steps
   * recorded for names, each fed the word the previous one produced, and the
   * word the run ends with; or the error of the first step that fails.
   */
  function Run(word: string, names: seq<string>, step: Stepper): Result<(seq<LedgerStep>, string), Error>
    decreases |names|
  {
    if names == [] then Success(([], word))
    else
      match Run(word, names[..|names| - 1], step)
      case Failure(e) => Failure(e)
      case Success((steps, current)) =>
        match step(current, names[|names| - 1])
        case Failure(e) => Failure(e)
        case Success(t) => Success((steps + [StepOf(|names| - 1, t)], t.transformedWord))
  }

  /** One more name either fails or adds its step to the run so far. */
  lemma RunExtend(word: string, names: seq<string>, k: nat, steps: seq<LedgerStep>, current: string, step: Stepper)
    requires k < |names|
    requires Run(word, names[..k], step) == Success((steps, current))
    ensures Run(word, names[..k + 1], step) ==
      match step(current, names[k])
      case Failure(e) => Failure(e)
      case Success(t) => Success((steps + [StepOf(k, t)], t.transformedWord))
  {
    assert names[..k + 1][..k] == names[..k];
  }

  /** Once a prefix of the names fails, the whole run fails with the same error. */
  lemma {:induction false} RunFailureStays(word: string, names: seq<string>, k: nat, step: Stepper)
    requires k <= |names|
    requires Run(word, names[..k], step).Failure?
    ensures Run(word, names, step) == Run(word, names[..k], step)
    decreases |names|
  {
    if k < |names| {
      var init := names[..|names| - 1];
      assert init[..k] == names[..k];
      RunFailureStays(word, init, k, step);
    } else {
      assert names[..k] == names;
    }
  }

  /**
   * When a step fails exactly on the names outside known, with their
   * KeyError, the run fails exactly when some name is unknown, and then with
   * the KeyError of the first unknown name.
   */
  lemma {:induction false} RunFailsOnUnknown(word: string, names: seq<string>, step: Stepper, known: seq<string>)
    requires forall w, name :: step(w, name).Failure? <==> name !in known
    requires forall w, name :: step(w, name).Failure? ==> step(w, name).error == KeyError(name)
    ensures Run(word, names, step).Failure? <==> exists i :: 0 <= i < |names| && names[i] !in known
    ensures Run(word, names, step).Failure? ==>
      exists i :: 0 <= i < |names| && names[i] !in known
        && (forall j :: 0 <= j < i ==> names[j] in known)
        && Run(word, names, step).error == KeyError(names[i])
    decreases |names|
  {
    if names != [] {
      var init := names[..|names| - 1];
      RunFailsOnUnknown(word, init, step, known);
      assert forall i :: 0 <= i < |init| ==> init[i] == names[i];
    }
  }

  /**
   * When every step names its strategy and reads the word it is given, a
   * successful run records one step per name, in order: step i carries index
   * i and the i-th name and is the step function applied to the word it read.
   */
  lemma {:induction false} RunShape(word: string, names: seq<string>, step: Stepper)
    requires forall w, name :: step(w, name).Success? ==>
      step(w, name).value.strategy == name && step(w, name).value.readingBefore.word == w
    requires Run(word, names, step).Success?
    ensures var steps := Run(word, names, step).value.0;
      && |steps| == |names|
      && (forall i :: 0 <= i < |steps| ==> steps[i].index == i && steps[i].strategy == names[i])
      && (forall i :: 0 <= i < |steps| ==>
            step(steps[i].before.word, names[i]).Success? &&
            steps[i] == StepOf(i, step(steps[i].before.word, names[i]).value))
    decreases |names|
  {
    if names != [] {
      RunShape(word, names[..|names| - 1], step);
    }
  }

  /**
   * When every step reads the word it is given and produces a reading of its
   * result, step 0 of a successful run reads the starting word, every later
   * step reads the word the one before it produced, and the run ends on the
   * last step's word.
   */
  lemma {:induction false} RunChains(word: string, names: seq<string>, step: Stepper)
    requires forall w, name :: step(w, name).Success? ==>
      step(w, name).value.readingBefore.word == w &&
      step(w, name).value.readingAfter.word == step(w, name).value.transformedWord
    requires Run(word, names, step).Success?
    ensures var (steps, current) := Run(word, names, step).value;
      && (steps != [] ==> steps[0].before.word == word)
      && (forall i :: 0 < i < |steps| ==> steps[i].before.word == steps[i - 1].after.word)
      && current == if steps == [] then word else steps[|steps| - 1].after.word
    decreases |names|
  {
    if names != [] {
      RunChains(word, names[..|names| - 1], step);
    }
  }

  /**
   * When every step permutes its word and reports the word energies before
   * and after, a zero delta and conserved as ok, every word along a run is a
   * permutation of the first and every step of it has the first word's energy
   * on both sides, a zero delta and conserved as ok.
   */
  lemma {:induction false} RunConserves(word: string, names: seq<string>, step: Stepper, num: Numerics, ok: bool)
    requires forall w, name :: step(w, name).Success? ==>
      var t := step(w, name).value;
      && multiset(t.transformedWord) == multiset(w)
      && t.readingBefore.energy == WordEnergy(w, num)
      && t.readingAfter.energy == WordEnergy(t.transformedWord, num)
      && t.conservation.delta == 0.0
      && t.conservation.conserved == ok
    requires Run(word, names, step).Success?
    ensures var (steps, current) := Run(word, names, step).value;
      && multiset(current) == multiset(word)
      && (forall i :: 0 <= i < |steps| ==>
            steps[i].before.energy == WordEnergy(word, num) && steps[i].after.energy == WordEnergy(word, num))
      && (forall i :: 0 <= i < |steps| ==> steps[i].conservation.delta == 0.0 && steps[i].conservation.conserved == ok)
    decreases |names|
  {
    if names != [] {
      var init := names[..|names| - 1];
      RunConserves(word, init, step, num, ok);
      var (steps, current) := Run(word, init, step).value;
      var t := step(current, names[|names| - 1]).value;
      WordEnergyPermutation(current, word, num);
      WordEnergyPermutation(t.transformedWord, word, num);
    }
  }

  /**
   * When the step for the i-th name turns every word w into fns[i](w), a run
   * succeeds and ends on the word compose_sequence produces from fns.
   */
  lemma {:induction false} RunComposes(word: string, names: seq<string>, step: Stepper, fns: seq<string -> string>)
    requires |fns| == |names|
    requires forall i, w :: 0 <= i < |names| ==>
      step(w, names[i]).Success? && step(w, names[i]).value.transformedWord == fns[i](w)
    ensures Run(word, names, step).Success?
    ensures Run(word, names, step).value.1 == Composed(word, fns)
    decreases |names|
  {
    if names != [] {
      var n := |names| - 1;
      RunComposes(word, names[..n], step, fns[..n]);
    }
  }

  /** The strategies the names stand for, in the same order. */
  function Resolved(names: seq<string>): (r: seq<string -> string>)
    requires forall i :: 0 <= i < |names| ==> names[i] in AvailableTransformations()
    ensures |r| == |names|
    ensures forall i :: 0 <= i < |names| ==> GetTransformation(names[i]) == Success(r[i])
  {
    if names == [] then [] else Resolved(names[..|names| - 1]) + [GetTransformation(names[|names| - 1]).value]
  }

  class ImplicationEngine {
    const tolerance: real
    const num: Numerics
    const sha256: SignaturePayload -> string
    /** The entries appended to the configured ledger, or None when there is none. */
    ghost var ledger: Option<seq<LedgerEntry>>

    constructor(tolerance: real, hasLedger: bool, num: Numerics, sha256: SignaturePayload -> string)
      ensures this.tolerance == tolerance && this.num == num && this.sha256 == sha256
      ensures ledger == if hasLedger then Some([]) else None
    {
      this.tolerance := tolerance;
      this.num := num;
      this.sha256 := sha256;
      ledger := if hasLedger then Some([]) else None;
    }

    /** read: None is read as the empty word; any other word is kept verbatim, non-letters included. */
    function Read(word: Option<string>): (r: SymmetryReading)
      ensures word.Some? ==> r.word == word.value
      ensures word.None? ==> r.word == []
      ensures r == ReadClean(r.word, num)
    {
      ReadClean(if word.Some? then word.value else "", num)
    }

    /** _ensure_reading: a reading as it is, a word read, anything else a TypeError. */
    function EnsureReading(v: Value): (r: Result<SymmetryReading, Error>)
      ensures r.Failure? <==> v.OtherValue?
      ensures r.Failure? ==> r.error == TypeError
      ensures v.Reading? ==> r == Success(v.reading)
      ensures v.Word? ==> r == Success(Read(Some(v.text)))
    {
      match v
      case Reading(reading) => Success(reading)
      case Word(text) => Success(Read(Some(text)))
      case OtherValue => Failure(TypeError)
    }

    /** validate_conservation: energies within tolerance; an omitted candidate compares the reference with itself. */
    function ValidateConservation(reference: Value, candidate: Option<Value>): (r: Result<bool, Error>)
      ensures r.Failure? <==> reference.OtherValue? || (candidate.Some? && candidate.value.OtherValue?)
      ensures r.Failure? ==> r.error == TypeError
      ensures !reference.OtherValue? && candidate.None? ==> r == Success(0.0 <= tolerance)
      ensures r.Success? ==>
        var before := EnsureReading(reference).value;
        var after := if candidate.Some? then EnsureReading(candidate.value).value else before;
        (r.value <==> Abs(before.energy - after.energy) <= tolerance)
    {
      match EnsureReading(reference)
      case Failure(e) => Failure(e)
      case Success(before) =>
        var after := if candidate.Some? then EnsureReading(candidate.value) else Success(before);
        match after
        case Failure(e) => Failure(e)
        case Success(a) => Success(Abs(before.energy - a.energy) <= tolerance)
    }

    /** With both values given, the check compares the energies of their readings against the tolerance. */
    lemma ValidateCompares(reference: Value, candidate: Value)
      requires !reference.OtherValue? && !candidate.OtherValue?
      ensures ValidateConservation(reference, Some(candidate)) ==
        Success(Abs(EnsureReading(reference).value.energy - EnsureReading(candidate).value.energy) <= tolerance)
    {
    }

    /** The report transform builds from the readings before and after. */
    function Conservation(before: SymmetryReading, after: SymmetryReading): (c: ConservationReport)
      ensures c.initialEnergy == before.energy && c.transformedEnergy == after.energy
      ensures c.delta == after.energy - before.energy
      ensures c.conserved <==> Abs(c.delta) <= tolerance
      ensures c.signature == BuildSignature(sha256, before, after)
    {
      ValidateCompares(Reading(before), Reading(after));
      var conserved := ValidateConservation(Reading(before), Some(Reading(after))).value;
      AbsDifference(before.energy, after.energy);
      ConservationReport(before.energy, after.energy, after.energy - before.energy, conserved,
                         BuildSignature(sha256, before, after))
    }

    /** transform: look the strategy up first, then read the word before and after it. */
    function Transform(word: string, strategy: string): (r: Result<TransformationResult, Error>)
      ensures r.Failure? <==> strategy !in AvailableTransformations()
      ensures r.Failure? ==> r.error == KeyError(strategy)
      ensures r.Success? ==>
        var t := r.value;
        && t.strategy == strategy
        && t.transformedWord == GetTransformation(strategy).value(word)
        && t.readingBefore == Read(Some(word))
        && t.readingAfter == Read(Some(t.transformedWord))
        && t.conservation.initialEnergy == t.readingBefore.energy
        && t.conservation.transformedEnergy == t.readingAfter.energy
        && t.conservation.delta == t.readingAfter.energy - t.readingBefore.energy
        && (t.conservation.conserved <==> Abs(t.conservation.delta) <= tolerance)
        && t.conservation.signature == BuildSignature(sha256, t.readingBefore, t.readingAfter)
    {
      match GetTransformation(strategy)
      case Failure(e) => Failure(e)
      case Success(fn) =>
        var before := Read(Some(word));
        var transformed := fn(word);
        var after := Read(Some(transformed));
        var report := Conservation(before, after);
        Success(TransformationResult(strategy, transformed, before, after, report))
    }

    /** transform as a function value: the step transform_sequence repeats. */
    function Step(): Stepper {
      (w: string, name: string) => Transform(w, name)
    }

    /** The steps transform_sequence records for names, and the word it ends with, or the first error. */
    function RunSteps(word: string, names: seq<string>): Result<(seq<LedgerStep>, string), Error> {
      Run(word, names, Step())
    }

    /** The entry transform_sequence returns, or the error it raises. */
    function SequenceEntry(word: string, names: seq<string>, createdAt: real): Result<LedgerEntry, Error> {
      match RunSteps(word, names)
      case Failure(e) => Failure(e)
      case Success((steps, _)) =>
        Success(LedgerEntry(word, createdAt, steps, if steps == [] then None else Some(steps[|steps| - 1].conservation.signature)))
    }

    /**
     * transform_sequence: apply the strategies in order, recording one step
     * each; when log is set and a ledger is configured, append the finished
     * entry to it. A failing step raises before anything is appended.
     */
    method TransformSequence(word: string, strategies: seq<string>, log: bool, createdAt: real)
      returns (r: Result<LedgerEntry, Error>)
      modifies this
      ensures r == SequenceEntry(word, strategies, createdAt)
      ensures ledger == if r.Success? && log && old(ledger).Some? then Some(old(ledger).value + [r.value]) else old(ledger)
    {
      var steps: seq<LedgerStep> := [];
      var current := word;
      for idx := 0 to |strategies|
        invariant RunSteps(word, strategies[..idx]) == Success((steps, current))
        invariant ledger == old(ledger)
      {
        var stepResult := Transform(current, strategies[idx]);
        RunExtend(word, strategies, idx, steps, current, Step());
        if stepResult.Failure? {
          RunFailureStays(word, strategies, idx + 1, Step());
          return Failure(stepResult.error);
        }
        steps := steps + [StepOf(idx, stepResult.value)];
        current := stepResult.value.transformedWord;
      }
      assert strategies[..|strategies|] == strategies;
      var finalSignature := None;
      if steps != [] {
        finalSignature := Some(steps[|steps| - 1].conservation.signature);
      }
      var entry := LedgerEntry(word, createdAt, steps, finalSignature);
      if log && ledger.Some? {
        ledger := Some(ledger.value + [entry]);
      }
      r := Success(entry);
    }

    /** available_strategies: exactly the names transform accepts, whatever the word. */
    function AvailableStrategies(): (r: seq<string>)
      ensures forall name :: name in r <==> GetTransformation(name).Success?
      ensures forall word, name :: name in r <==> Transform(word, name).Success?
    {
      AvailableTransformations()
    }

    /** Two words with the same letters, in any order, read the same energy, vector sum and counts. */
    lemma ReadIsPermutationInvariant(a: string, b: string)
      requires multiset(a) == multiset(b)
      ensures Read(Some(a)).energy == Read(Some(b)).energy
      ensures Read(Some(a)).vectorSum == Read(Some(b)).vectorSum
      ensures Read(Some(a)).symmetryCounts == Read(Some(b)).symmetryCounts
      ensures |Read(Some(a)).classes| == |Read(Some(b)).classes|
    {
      WordEnergyPermutation(a, b, num);
      VectorSumPermutation(a, b, num);
      SymmetryCountsPermutation(a, b);
      assert |a| == |multiset(a)| == |multiset(b)| == |b|;
    }

    /**
     * Every registered strategy permutes the word, so its reading after has
     * the energy, vector sum and counts of the reading before: delta is zero
     * and the step counts as conserved exactly when the tolerance is not negative.
     */
    lemma TransformConserves(word: string, strategy: string)
      requires strategy in AvailableTransformations()
      ensures Transform(word, strategy).Success?
      ensures var t := Transform(word, strategy).value;
        && multiset(t.transformedWord) == multiset(word)
        && |t.transformedWord| == |word|
        && t.readingAfter.energy == t.readingBefore.energy
        && t.readingAfter.vectorSum == t.readingBefore.vectorSum
        && t.readingAfter.symmetryCounts == t.readingBefore.symmetryCounts
        && t.conservation.delta == 0.0
        && (t.conservation.conserved <==> 0.0 <= tolerance)
    {
      var t := Transform(word, strategy).value;
      var fn := GetTransformation(strategy).value;
      assert multiset(fn(word)) == multiset(word);
      assert |word| == |multiset(word)| == |multiset(fn(word))| == |fn(word)|;
      ReadIsPermutationInvariant(word, t.transformedWord);
    }

    /** Comparing a word or reading with itself always holds for a non-negative tolerance. */
    lemma ValidateAgainstItself(reference: Value)
      requires !reference.OtherValue?
      ensures ValidateConservation(reference, None) == Success(0.0 <= tolerance)
      ensures ValidateConservation(reference, Some(reference)) == Success(0.0 <= tolerance)
    {
    }

    /** The check does not depend on which side is the reference. */
    lemma ValidateIsSymmetric(x: Value, y: Value)
      ensures ValidateConservation(x, Some(y)).Success? ==>
        ValidateConservation(y, Some(x)) == ValidateConservation(x, Some(y))
    {
      if ValidateConservation(x, Some(y)).Success? {
        ValidateCompares(x, y);
        ValidateCompares(y, x);
        AbsDifference(EnsureReading(x).value.energy, EnsureReading(y).value.energy);
      }
    }

    /** Two words that are permutations of each other always pass for a non-negative tolerance. */
    lemma ValidatePermutedWords(a: string, b: string)
      requires multiset(a) == multiset(b)
      ensures ValidateConservation(Word(a), Some(Word(b))) == Success(0.0 <= tolerance)
    {
      ValidateCompares(Word(a), Word(b));
      ReadIsPermutationInvariant(a, b);
    }


    /** transform_sequence raises exactly when a strategy is not registered, with the first such name's KeyError. */
    lemma SequenceFailsOnUnknown(word: string, names: seq<string>, createdAt: real)
      ensures SequenceEntry(word, names, createdAt).Failure? <==>
        exists i :: 0 <= i < |names| && names[i] !in AvailableTransformations()
      ensures SequenceEntry(word, names, createdAt).Failure? ==>
        exists i :: 0 <= i < |names| && names[i] !in AvailableTransformations()
          && (forall j :: 0 <= j < i ==> names[j] in AvailableTransformations())
          && SequenceEntry(word, names, createdAt).error == KeyError(names[i])
    {
      RunFailsOnUnknown(word, names, Step(), AvailableTransformations());
    }

    /**
     * A finished entry keeps the word and the time, has one step per
     * strategy in order, and carries the last step's signature, or none when
     * there are no steps.
     */
    lemma SequenceRecordsSteps(word: string, names: seq<string>, createdAt: real)
      requires SequenceEntry(word, names, createdAt).Success?
      ensures var e := SequenceEntry(word, names, createdAt).value;
        && e.word == word && e.createdAt == createdAt
        && |e.steps| == |names|
        && (forall i :: 0 <= i < |e.steps| ==> e.steps[i].index == i && e.steps[i].strategy == names[i])
        && (e.finalSignature.None? <==> names == [])
        && (names != [] ==> e.finalSignature == Some(e.steps[|names| - 1].conservation.signature))
    {
      RunShape(word, names, Step());
    }

    /** Each step of a finished entry is what transform returns for the word that step reads. */
    lemma SequenceStepsAreTransforms(word: string, names: seq<string>, createdAt: real)
      requires SequenceEntry(word, names, createdAt).Success?
      ensures var e := SequenceEntry(word, names, createdAt).value;
        && |e.steps| == |names|
        && (forall i :: 0 <= i < |e.steps| ==>
              Transform(e.steps[i].before.word, names[i]) == Success(TransformationResult(
                names[i], e.steps[i].after.word, e.steps[i].before, e.steps[i].after, e.steps[i].conservation)))
    {
      RunShape(word, names, Step());
    }

    /** Step 0 of a finished entry reads the starting word. */
    lemma SequenceStartsOnWord(word: string, names: seq<string>, createdAt: real)
      requires SequenceEntry(word, names, createdAt).Success?
      requires names != []
      ensures SequenceEntry(word, names, createdAt).value.steps[0].before == Read(Some(word))
    {
      SequenceStepsAreTransforms(word, names, createdAt);
      RunChains(word, names, Step());
    }

    /** Every later step of a finished entry reads the reading the step before it produced. */
    lemma SequenceChainsReadings(word: string, names: seq<string>, createdAt: real)
      requires SequenceEntry(word, names, createdAt).Success?
      ensures var steps := SequenceEntry(word, names, createdAt).value.steps;
        forall i :: 0 < i < |steps| ==> steps[i].before == steps[i - 1].after
    {
      SequenceStepsAreTransforms(word, names, createdAt);
      RunChains(word, names, Step());
    }

    /**
     * Every step of a finished entry reads the starting word's energy on
     * both sides, with a zero delta, and is conserved exactly when the
     * tolerance is not negative; so the first reading's energy is the last one's.
     */
    lemma SequenceConservesEnergy(word: string, names: seq<string>, createdAt: real)
      requires SequenceEntry(word, names, createdAt).Success?
      ensures var e := SequenceEntry(word, names, createdAt).value;
        && (forall i :: 0 <= i < |e.steps| ==>
              e.steps[i].before.energy == Read(Some(word)).energy && e.steps[i].after.energy == Read(Some(word)).energy)
        && (forall i :: 0 <= i < |e.steps| ==>
              e.steps[i].conservation.delta == 0.0 && (e.steps[i].conservation.conserved <==> 0.0 <= tolerance))
        && (e.steps != [] ==> e.steps[0].before.energy == e.steps[|e.steps| - 1].after.energy)
    {
      forall w, name | Step()(w, name).Success?
        ensures var t := Step()(w, name).value;
          && multiset(t.transformedWord) == multiset(w)
          && t.readingBefore.energy == WordEnergy(w, num)
          && t.readingAfter.energy == WordEnergy(t.transformedWord, num)
          && t.conservation.delta == 0.0
          && t.conservation.conserved == (0.0 <= tolerance)
      {
        TransformConserves(w, name);
      }
      RunConserves(word, names, Step(), num, 0.0 <= tolerance);
    }

    /** With every strategy registered, the run ends on the word compose_sequence gives for the same strategies. */
    lemma SequenceEndsOnComposition(word: string, names: seq<string>)
      requires forall i :: 0 <= i < |names| ==> names[i] in AvailableTransformations()
      ensures RunSteps(word, names).Success?
      ensures RunSteps(word, names).value.1 == Composed(word, Resolved(names))
    {
      RunComposes(word, names, Step(), Resolved(names));
    }

    /** A word made only of letters reads no unknown characters. */
    lemma ReadOfLettersHasNoUnknown(w: string)
      requires forall i :: 0 <= i < |w| ==> IsAlpha(w[i])
      ensures Read(Some(w)).symmetryCounts.unknown == 0
      ensures |Read(Some(w)).classes| == |w|
    {
      UnknownCountsNonLetters(w);
      NormalizeFixedPoint(w);
    }

    /**
     * mirror, interleave, symmetry_stabilize and cycle in turn: four steps,
     * all conserved under a non-negative tolerance, the energy at the end that
     * of the start, and a final signature.
     */
    lemma FourStrategySequence(word: string, createdAt: real)
      requires 0.0 <= tolerance
      ensures var r := SequenceEntry(word, ["mirror", "interleave", "symmetry_stabilize", "cycle"], createdAt);
        && r.Success?
        && |r.value.steps| == 4
        && r.value.finalSignature.Some?
        && (forall i :: 0 <= i < 4 ==> r.value.steps[i].conservation.conserved)
        && r.value.steps[0].before.energy == r.value.steps[3].after.energy
    {
      var names := ["mirror", "interleave", "symmetry_stabilize", "cycle"];
      SequenceFailsOnUnknown(word, names, createdAt);
      SequenceRecordsSteps(word, names, createdAt);
      SequenceConservesEnergy(word, names, createdAt);
    }
  }

  /**
   * A fresh engine with a ledger, running strategies that are all registered
   * with log set: the run succeeds, records one step per strategy, and the
   * ledger holds exactly its entry.
   */
  method LogSequence(num: Numerics, sha256: SignaturePayload -> string, word: string, names: seq<string>, createdAt: real)
    returns (engine: ImplicationEngine, r: Result<LedgerEntry, Error>)
    requires forall i :: 0 <= i < |names| ==> names[i] in AvailableTransformations()
    ensures r.Success? && |r.value.steps| == |names|
    ensures engine.ledger == Some([r.value])
  {
    engine := new ImplicationEngine(DefaultTolerance, true, num, sha256);
    engine.SequenceFailsOnUnknown(word, names, createdAt);
    engine.SequenceRecordsSteps(word, names, createdAt);
    r := engine.TransformSequence(word, names, true, createdAt);
    assert [] + [r.value] == [r.value];
  }
}
