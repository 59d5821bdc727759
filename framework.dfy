/**
 * The symmetry classifier, the energy heuristic and the projection vector of
 * gdk9_framework.py. Characters are ASCII: a letter is 'A'..'Z' or 'a'..'z'.
 * The floating-point library calls (math.sin, math.sqrt, math.pi) are
 * parameters bundled in Numerics; every other quantity is exact.
 */
module Framework {
  import opened Wrappers

  datatype SymmetryClass = Idempotent | Biphasic | Involutive | Asymmetric

  /** The eight fixed letter tables. The lowercase idempotent table lacks 'h' and 'i'. */
  const IdempUpper: set<char> := {'A', 'H', 'I', 'M', 'O', 'T', 'U', 'V', 'W', 'X', 'Y'}
  const IdempLower: set<char> := {'a', 'm', 'o', 't', 'u', 'v', 'w', 'x', 'y'}
  const BiphasicUpper: set<char> := {'B', 'C', 'D', 'E', 'K'}
  const BiphasicLower: set<char> := {'b', 'c', 'd', 'e', 'k'}
  const InvolUpper: set<char> := {'N', 'S', 'Z'}
  const InvolLower: set<char> := {'n', 's', 'z'}
  const AsymUpper: set<char> := {'F', 'G', 'J', 'L', 'P', 'Q', 'R'}
  const AsymLower: set<char> := {'f', 'g', 'j', 'l', 'p', 'q', 'r'}

  /** The order that numbers the classes 1..4 in a projection vector. */
  const SymmetryOrder: seq<SymmetryClass> := [Idempotent, Biphasic, Involutive, Asymmetric]

  predicate IsUpper(c: char) { 'A' <= c <= 'Z' }
  predicate IsLower(c: char) { 'a' <= c <= 'z' }
  predicate IsAlpha(c: char) { IsUpper(c) || IsLower(c) }

  /** Python's str.isalpha on a whole string: non-empty and every character a letter. */
  predicate IsAlphaString(s: string) {
    |s| > 0 && forall i :: 0 <= i < |s| ==> IsAlpha(s[i])
  }

  function ToUpper(c: char): char {
    if IsLower(c) then (c as int - 32) as char else c
  }

  function ToLower(c: char): char {
    if IsUpper(c) then (c as int + 32) as char else c
  }

  function UpperString(s: string): string {
    seq(|s|, i requires 0 <= i < |s| => ToUpper(s[i]))
  }

  /** `u in table` for a set of one-character strings. */
  predicate InTable(u: string, table: set<char>) {
    |u| == 1 && u[0] in table
  }

  /** The uppercase table of each class. */
  function Table(k: SymmetryClass): set<char> {
    match k
    case Idempotent => IdempUpper
    case Biphasic => BiphasicUpper
    case Involutive => InvolUpper
    case Asymmetric => AsymUpper
  }

  /** The four uppercase tables are pairwise disjoint and cover exactly 'A'..'Z'. */
  lemma TablesPartitionAlphabet()
    ensures IdempUpper !! BiphasicUpper && IdempUpper !! InvolUpper && IdempUpper !! AsymUpper
    ensures BiphasicUpper !! InvolUpper && BiphasicUpper !! AsymUpper && InvolUpper !! AsymUpper
    ensures forall c :: IsUpper(c) <==> c in IdempUpper + BiphasicUpper + InvolUpper + AsymUpper
  {
    forall c | IsUpper(c)
      ensures c in IdempUpper + BiphasicUpper + InvolUpper + AsymUpper
    {
      if c <= 'M' {
        assert c in {'A', 'B', 'C', 'D', 'E', 'F', 'G', 'H', 'I', 'J', 'K', 'L', 'M'};
      } else {
        assert c in {'N', 'O', 'P', 'Q', 'R', 'S', 'T', 'U', 'V', 'W', 'X', 'Y', 'Z'};
      }
    }
  }

  /**
   * get_symmetry_type: None for the empty string and for anything that is not
   * all letters; otherwise the class whose table holds the uppercased string.
   */
  function GetSymmetryType(s: string): (r: Option<SymmetryClass>)
    ensures r.Some? <==> |s| == 1 && IsAlpha(s[0])
    ensures r.Some? ==> ToUpper(s[0]) in Table(r.value)
  {
    if |s| == 0 || !IsAlphaString(s) then None
    else
      var upper := UpperString(s);
      TablesPartitionAlphabet();
      if InTable(upper, IdempUpper) then Some(Idempotent)
      else if InTable(upper, BiphasicUpper) then Some(Biphasic)
      else if InTable(upper, InvolUpper) then Some(Involutive)
      else if InTable(upper, AsymUpper) then Some(Asymmetric)
      else if InTable(upper, IdempLower) then Some(Idempotent)
      else if InTable(upper, BiphasicLower) then Some(Biphasic)
      else if InTable(upper, InvolLower) then Some(Involutive)
      else if InTable(upper, AsymLower) then Some(Asymmetric)
      else None
  }

  /** The class of a single character. */
  function ClassOf(c: char): Option<SymmetryClass> {
    GetSymmetryType([c])
  }

  /** The classifier without its four lowercase-table branches. */
  function UpperTablesOnly(s: string): Option<SymmetryClass> {
    if |s| == 0 || !IsAlphaString(s) then None
    else
      var upper := UpperString(s);
      if InTable(upper, IdempUpper) then Some(Idempotent)
      else if InTable(upper, BiphasicUpper) then Some(Biphasic)
      else if InTable(upper, InvolUpper) then Some(Involutive)
      else if InTable(upper, AsymUpper) then Some(Asymmetric)
      else None
  }

  /** The lowercase-table branches test an uppercased string, so they never decide the result. */
  lemma LowercaseBranchesUnreachable(s: string)
    ensures GetSymmetryType(s) == UpperTablesOnly(s)
  {
    if |s| == 1 && IsAlpha(s[0]) {
      TablesPartitionAlphabet();
      assert IsUpper(UpperString(s)[0]);
    }
  }

  /** Classification depends only on the uppercase form: it is case-insensitive. */
  lemma ClassificationIsCaseInsensitive(c: char)
    ensures ClassOf(c) == ClassOf(ToUpper(c)) == ClassOf(ToLower(c))
  {
    assert UpperString([c]) == [ToUpper(c)];
    assert UpperString([ToUpper(c)]) == [ToUpper(c)];
    assert UpperString([ToLower(c)]) == [ToUpper(c)];
  }

  /** The empty string and any string holding a non-letter are unclassified. */
  lemma NonLettersAreUnclassified(s: string)
    requires |s| == 0 || exists i :: 0 <= i < |s| && !IsAlpha(s[i])
    ensures GetSymmetryType(s) == None
  {
  }

  /** 1-based alphabet position of a letter's uppercase form (A = 1). */
  function Position(c: char): int {
    ToUpper(c) as int - 'A' as int + 1
  }

  /** The floating-point operations the Python code takes from its math library. */
  datatype Numerics = Numerics(sin: real -> real, sqrt: real -> real, pi: real)

  /** Per-character energy heuristic. */
  function Energy(c: char, num: Numerics): (e: real)
    ensures ClassOf(c).None? ==> e == 0.0
    ensures ClassOf(c) == Some(Idempotent) ==> 1.0 <= e <= 26.0
    ensures ClassOf(c) == Some(Involutive) ==> 0.0 < e <= 1.0
    ensures ClassOf(c) == Some(Asymmetric) ==> 2.0 <= e <= 27.0
  {
    if !IsAlpha(c) then 0.0
    else
      var pos := Position(c);
      match ClassOf(c)
      case Some(Idempotent) => pos as real
      case Some(Biphasic) => num.sin(pos as real)
      case Some(Involutive) => 1.0 / pos as real
      case Some(Asymmetric) => (pos + 1) as real
      case None => 0.0
  }

  /** Python's sum(): 0.0 plus the values of f over s, added left to right. */
  function Sum(s: string, f: char -> real): real
    decreases |s|
  {
    if s == [] then 0.0 else Sum(s[..|s| - 1], f) + f(s[|s| - 1])
  }

  lemma {:induction false} SumConcat(a: string, b: string, f: char -> real)
    ensures Sum(a + b, f) == Sum(a, f) + Sum(b, f)
    decreases |b|
  {
    if b != [] {
      var b' := b[..|b| - 1];
      assert (a + b)[..|a + b| - 1] == a + b';
      SumConcat(a, b', f);
    } else {
      assert a + b == a;
    }
  }

  /** A sum over a word does not depend on the order of its characters. */
  lemma {:induction false} SumPermutation(a: string, b: string, f: char -> real)
    requires multiset(a) == multiset(b)
    ensures Sum(a, f) == Sum(b, f)
    decreases |a|
  {
    if a != [] {
      var x := a[|a| - 1];
      var a' := a[..|a| - 1];
      assert a == a' + [x];
      assert multiset(a) == multiset(a') + multiset{x};
      assert x in multiset(b);
      var j :| 0 <= j < |b| && b[j] == x;
      var b' := b[..j] + b[j + 1..];
      assert b == b[..j] + [x] + b[j + 1..];
      assert multiset(b) == multiset(b[..j]) + multiset([x]) + multiset(b[j + 1..]);
      assert multiset(b') == multiset(b[..j]) + multiset(b[j + 1..]);
      assert multiset(a') == multiset(a) - multiset{x} == multiset(b) - multiset{x} == multiset(b');
      SumPermutation(a', b', f);
      SumConcat(b[..j] + [x], b[j + 1..], f);
      SumConcat(b[..j], [x], f);
      SumConcat(b[..j], b[j + 1..], f);
      assert Sum([x], f) == f(x) by {
        assert [x][..0] == [];
      }
    } else {
      assert |multiset(b)| == 0;
    }
  }

  /** word_energy: the left-to-right sum of per-character energies. */
  function WordEnergy(w: string, num: Numerics): real {
    Sum(w, c => Energy(c, num))
  }

  /** Energy is equal for any permutation of a word. */
  lemma WordEnergyPermutation(a: string, b: string, num: Numerics)
    requires multiset(a) == multiset(b)
    ensures WordEnergy(a, num) == WordEnergy(b, num)
  {
    SumPermutation(a, b, c => Energy(c, num));
  }

  /** Position of s in order, the first one. */
  function Find(order: seq<SymmetryClass>, s: SymmetryClass): (i: nat)
    requires s in order
    ensures i < |order| && order[i] == s && s !in order[..i]
  {
    if order[0] == s then 0
    else
      assert order == [order[0]] + order[1..];
      Find(order[1..], s) + 1
  }

  /** type_id: 1..4 by SymmetryOrder, 0 when unclassified. */
  function TypeId(k: Option<SymmetryClass>): (id: nat)
    ensures k.None? ==> id == 0
    ensures k.Some? ==> 1 <= id <= 4 && SymmetryOrder[id - 1] == k.value
  {
    match k
    case None => 0
    case Some(s) =>
      assert s == SymmetryOrder[0] || s == SymmetryOrder[1] || s == SymmetryOrder[2] || s == SymmetryOrder[3];
      Find(SymmetryOrder, s) + 1
  }

  /** A four-component projection vector. */
  datatype Vector = Vector(pos: real, typeId: real, magnitude: real, phase: real) {
    function Add(v: Vector): Vector {
      Vector(pos + v.pos, typeId + v.typeId, magnitude + v.magnitude, phase + v.phase)
    }
  }

  const ZeroVector := Vector(0.0, 0.0, 0.0, 0.0)

  function Abs(x: real): real { if x < 0.0 then -x else x }

  /** vectorize: [pos, type_id, sqrt(|energy|), sin(pos * pi / 26)], or zeros for a non-letter. */
  function Vectorize(c: char, num: Numerics): (v: Vector)
    ensures !IsAlpha(c) ==> v == ZeroVector
    ensures IsAlpha(c) ==> 1.0 <= v.pos <= 26.0 && v.pos == Position(c) as real
    ensures IsAlpha(c) ==> 1.0 <= v.typeId <= 4.0 && SymmetryOrder[v.typeId.Floor - 1] == ClassOf(c).value
  {
    if !IsAlpha(c) then ZeroVector
    else
      var pos := Position(c);
      var typeId := TypeId(ClassOf(c));
      var e := Energy(c, num);
      var theta := pos as real * num.pi / 26.0;
      Vector(pos as real, typeId as real, num.sqrt(Abs(e)), num.sin(theta))
  }

  /** numpy's sum over axis 0: the component-wise sum of the character vectors. */
  function VectorSum(w: string, num: Numerics): Vector {
    Vector(
      Sum(w, c => Vectorize(c, num).pos),
      Sum(w, c => Vectorize(c, num).typeId),
      Sum(w, c => Vectorize(c, num).magnitude),
      Sum(w, c => Vectorize(c, num).phase))
  }

  /** The vector sum is equal for any permutation of a word. */
  lemma VectorSumPermutation(a: string, b: string, num: Numerics)
    requires multiset(a) == multiset(b)
    ensures VectorSum(a, num) == VectorSum(b, num)
  {
    SumPermutation(a, b, c => Vectorize(c, num).pos);
    SumPermutation(a, b, c => Vectorize(c, num).typeId);
    SumPermutation(a, b, c => Vectorize(c, num).magnitude);
    SumPermutation(a, b, c => Vectorize(c, num).phase);
  }

  /** classify_word: one class per character, in order. */
  function ClassifyWord(w: string): (r: seq<Option<SymmetryClass>>)
    ensures |r| == |w|
    ensures forall i :: 0 <= i < |w| ==> r[i] == ClassOf(w[i])
  {
    if w == [] then [] else ClassifyWord(w[..|w| - 1]) + [ClassOf(w[|w| - 1])]
  }

  /** The number of characters of w that satisfy p. */
  function CountWhere(w: string, p: char -> bool): nat {
    if w == [] then 0 else CountWhere(w[..|w| - 1], p) + (if p(w[|w| - 1]) then 1 else 0)
  }

  /** The number of characters of w that the classifier cls puts in class k. */
  function CountBy(w: string, cls: char -> Option<SymmetryClass>, k: Option<SymmetryClass>): nat {
    CountWhere(w, c => cls(c) == k)
  }

  /** The number of characters of w whose class is k. */
  function CountClass(w: string, k: Option<SymmetryClass>): nat {
    CountBy(w, ClassOf, k)
  }

  lemma CountByLast(w: string, cls: char -> Option<SymmetryClass>, k: Option<SymmetryClass>)
    requires w != []
    ensures CountBy(w, cls, k) == CountBy(w[..|w| - 1], cls, k) + (if cls(w[|w| - 1]) == k then 1 else 0)
  {
  }

  lemma {:induction false} CountByTotal(w: string, cls: char -> Option<SymmetryClass>)
    ensures CountBy(w, cls, Some(Idempotent)) + CountBy(w, cls, Some(Biphasic)) + CountBy(w, cls, Some(Involutive))
          + CountBy(w, cls, Some(Asymmetric)) + CountBy(w, cls, None) == |w|
  {
    if w != [] {
      var init := w[..|w| - 1];
      CountByTotal(init, cls);
      CountByLast(w, cls, Some(Idempotent));
      CountByLast(w, cls, Some(Biphasic));
      CountByLast(w, cls, Some(Involutive));
      CountByLast(w, cls, Some(Asymmetric));
      CountByLast(w, cls, None);
      match cls(w[|w| - 1])
      case None =>
      case Some(Idempotent) =>
      case Some(Biphasic) =>
      case Some(Involutive) =>
      case Some(Asymmetric) =>
    }
  }

  /** A sequence holding cls of each character of w has CountBy of k occurrences of k. */
  lemma {:induction false} MultisetCountsBy(w: string, cls: char -> Option<SymmetryClass>, cw: seq<Option<SymmetryClass>>, k: Option<SymmetryClass>)
    requires |cw| == |w|
    requires forall i :: 0 <= i < |w| ==> cw[i] == cls(w[i])
    ensures multiset(cw)[k] == CountBy(w, cls, k)
  {
    if w != [] {
      var n := |w| - 1;
      MultisetCountsBy(w[..n], cls, cw[..n], k);
      CountByLast(w, cls, k);
      assert cw == cw[..n] + [cw[n]];
    }
  }

  lemma CountByPermutation(a: string, b: string, cls: char -> Option<SymmetryClass>, k: Option<SymmetryClass>)
    requires multiset(a) == multiset(b)
    ensures CountBy(a, cls, k) == CountBy(b, cls, k)
  {
    CountWherePermutation(a, b, c => cls(c) == k);
  }

  lemma {:induction false} CountWhereIsSum(w: string, p: char -> bool)
    ensures CountWhere(w, p) as real == Sum(w, c => if p(c) then 1.0 else 0.0)
  {
    if w != [] {
      CountWhereIsSum(w[..|w| - 1], p);
    }
  }

  /** A count over a word does not depend on the order of its characters. */
  lemma CountWherePermutation(a: string, b: string, p: char -> bool)
    requires multiset(a) == multiset(b)
    ensures CountWhere(a, p) == CountWhere(b, p)
  {
    CountWhereIsSum(a, p);
    CountWhereIsSum(b, p);
    SumPermutation(a, b, c => if p(c) then 1.0 else 0.0);
  }

  /** The five buckets of symmetry_counts, in the order the dictionary lists them. */
  datatype Counts = Counts(idempotent: nat, biphasic: nat, involutive: nat, asymmetric: nat, unknown: nat) {
    function Total(): nat {
      idempotent + biphasic + involutive + asymmetric + unknown
    }
  }

  lemma ClassifyCountsClass(w: string, k: Option<SymmetryClass>)
    ensures multiset(ClassifyWord(w))[k] == CountClass(w, k)
  {
    MultisetCountsBy(w, ClassOf, ClassifyWord(w), k);
  }

  lemma CountClassesTotal(w: string)
    ensures CountClass(w, Some(Idempotent)) + CountClass(w, Some(Biphasic)) + CountClass(w, Some(Involutive))
          + CountClass(w, Some(Asymmetric)) + CountClass(w, None) == |w|
  {
    CountByTotal(w, ClassOf);
  }

  /**
   * symmetry_counts: a Counter over the classes, None renamed 'unknown'. Each
   * bucket counts the characters of its class and the buckets sum to |w|.
   */
  function SymmetryCounts(w: string): (r: Counts)
    ensures r.idempotent == CountClass(w, Some(Idempotent))
    ensures r.biphasic == CountClass(w, Some(Biphasic))
    ensures r.involutive == CountClass(w, Some(Involutive))
    ensures r.asymmetric == CountClass(w, Some(Asymmetric))
    ensures r.unknown == CountClass(w, None)
    ensures r.Total() == |w|
  {
    var counter := multiset(ClassifyWord(w));
    ClassifyCountsClass(w, Some(Idempotent));
    ClassifyCountsClass(w, Some(Biphasic));
    ClassifyCountsClass(w, Some(Involutive));
    ClassifyCountsClass(w, Some(Asymmetric));
    ClassifyCountsClass(w, None);
    CountClassesTotal(w);
    Counts(counter[Some(Idempotent)], counter[Some(Biphasic)], counter[Some(Involutive)],
           counter[Some(Asymmetric)], counter[None])
  }

  /** Class counts do not depend on the order of the characters. */
  lemma SymmetryCountsPermutation(a: string, b: string)
    requires multiset(a) == multiset(b)
    ensures SymmetryCounts(a) == SymmetryCounts(b)
  {
    CountByPermutation(a, b, ClassOf, Some(Idempotent));
    CountByPermutation(a, b, ClassOf, Some(Biphasic));
    CountByPermutation(a, b, ClassOf, Some(Involutive));
    CountByPermutation(a, b, ClassOf, Some(Asymmetric));
    CountByPermutation(a, b, ClassOf, None);
  }

  /** normalize_word: keeps exactly the letters of w, in order. */
  function NormalizeWord(w: string): (r: string)
    ensures |r| <= |w|
    ensures forall i :: 0 <= i < |r| ==> IsAlpha(r[i])
  {
    if w == [] then [] else NormalizeWord(w[..|w| - 1]) + (if IsAlpha(w[|w| - 1]) then [w[|w| - 1]] else [])
  }

  /** Every letter occurs in the normalized word as often as in w, and nothing else occurs. */
  lemma {:induction false} NormalizeKeepsLetters(w: string)
    ensures forall c :: multiset(NormalizeWord(w))[c] == if IsAlpha(c) then multiset(w)[c] else 0
  {
    if w != [] {
      NormalizeKeepsLetters(w[..|w| - 1]);
      assert w == w[..|w| - 1] + [w[|w| - 1]];
    }
  }

  /** Normalizing distributes over concatenation, so the letters keep their order. */
  lemma {:induction false} NormalizeConcat(a: string, b: string)
    ensures NormalizeWord(a + b) == NormalizeWord(a) + NormalizeWord(b)
    decreases |b|
  {
    if b != [] {
      var b' := b[..|b| - 1];
      assert (a + b)[..|a + b| - 1] == a + b';
      NormalizeConcat(a, b');
    } else {
      assert a + b == a;
    }
  }

  /** A word is left unchanged exactly when it holds letters only. */
  lemma {:induction false} NormalizeFixedPoint(w: string)
    ensures NormalizeWord(w) == w <==> forall i :: 0 <= i < |w| ==> IsAlpha(w[i])
  {
    if w != [] {
      var w' := w[..|w| - 1];
      NormalizeFixedPoint(w');
      if !IsAlpha(w[|w| - 1]) {
        assert |NormalizeWord(w)| < |w|;
      }
      if NormalizeWord(w) == w {
        assert NormalizeWord(w') == w';
      }
      if forall i :: 0 <= i < |w| ==> IsAlpha(w[i]) {
        assert forall i :: 0 <= i < |w'| ==> IsAlpha(w'[i]);
        assert w == w' + [w[|w| - 1]];
      }
    }
  }

  lemma NormalizeIdempotent(w: string)
    ensures NormalizeWord(NormalizeWord(w)) == NormalizeWord(w)
  {
    NormalizeFixedPoint(NormalizeWord(w));
  }

  /** The 'unknown' bucket counts exactly the non-letters that normalize_word drops. */
  lemma {:induction false} UnknownCountsNonLetters(w: string)
    ensures SymmetryCounts(w).unknown == |w| - |NormalizeWord(w)|
  {
    if w != [] {
      UnknownCountsNonLetters(w[..|w| - 1]);
    }
  }

  /** The type_id of each class as a real number. */
  function Weight(k: Option<SymmetryClass>): real {
    match k
    case None => 0.0
    case Some(Idempotent) => 1.0
    case Some(Biphasic) => 2.0
    case Some(Involutive) => 3.0
    case Some(Asymmetric) => 4.0
  }

  lemma TypeIdComponent(c: char, num: Numerics)
    ensures Vectorize(c, num).typeId == Weight(ClassOf(c))
  {
  }

  lemma TypeIdComponents(num: Numerics)
    ensures forall c :: Vectorize(c, num).typeId == Weight(ClassOf(c))
  {
    forall c ensures Vectorize(c, num).typeId == Weight(ClassOf(c)) {
      TypeIdComponent(c, num);
    }
  }

  lemma {:induction false} WeightedSumBy(w: string, f: char -> real, cls: char -> Option<SymmetryClass>)
    requires forall c :: f(c) == Weight(cls(c))
    ensures Sum(w, f) == (CountBy(w, cls, Some(Idempotent)) + 2 * CountBy(w, cls, Some(Biphasic))
      + 3 * CountBy(w, cls, Some(Involutive)) + 4 * CountBy(w, cls, Some(Asymmetric))) as real
  {
    if w != [] {
      var init := w[..|w| - 1];
      WeightedSumBy(init, f, cls);
      CountByLast(w, cls, Some(Idempotent));
      CountByLast(w, cls, Some(Biphasic));
      CountByLast(w, cls, Some(Involutive));
      CountByLast(w, cls, Some(Asymmetric));
    }
  }

  lemma WeightedSum(w: string, f: char -> real)
    requires forall c :: f(c) == Weight(ClassOf(c))
    ensures Sum(w, f) == (CountClass(w, Some(Idempotent)) + 2 * CountClass(w, Some(Biphasic))
      + 3 * CountClass(w, Some(Involutive)) + 4 * CountClass(w, Some(Asymmetric))) as real
  {
    WeightedSumBy(w, f, ClassOf);
  }

  lemma VectorTypeIdIsWeighted(w: string, num: Numerics)
    ensures VectorSum(w, num).typeId == (CountClass(w, Some(Idempotent)) + 2 * CountClass(w, Some(Biphasic))
      + 3 * CountClass(w, Some(Involutive)) + 4 * CountClass(w, Some(Asymmetric))) as real
  {
    TypeIdComponents(num);
    WeightedSum(w, c => Vectorize(c, num).typeId);
  }

  /** The type_id components of the vector sum weigh each bucket by its number in SymmetryOrder. */
  lemma TypeIdSumMatchesCounts(w: string, num: Numerics)
    ensures var counts := SymmetryCounts(w);
      VectorSum(w, num).typeId
        == (counts.idempotent + 2 * counts.biphasic + 3 * counts.involutive + 4 * counts.asymmetric) as real
  {
    VectorTypeIdIsWeighted(w, num);
  }
}
