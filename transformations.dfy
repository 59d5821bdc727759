/**
 * The transformation registry of src/gdk9/transformations.py: five index
 * permutations of a word, sequential composition and lookup by name.
 * pairwise_rotate, symmetry_stabilize and compose_sequence work step by step
 * in Python and are methods here, each proved equal to the function that
 * specifies it; the registry and the engine use those functions.
 */
module Transformations {
  import opened Wrappers
  import opened Framework

  /** f returns a rearrangement of its input: same characters, same counts. */
  ghost predicate IsPermutation(f: string -> string) {
    forall w :: multiset(f(w)) == multiset(w)
  }

  // ---------------------------------------------------------------- mirror

  /** mirror: the word read backwards. */
  function Mirror(w: string): (r: string)
    ensures |r| == |w|
    ensures forall i :: 0 <= i < |w| ==> r[i] == w[|w| - 1 - i]
    ensures multiset(r) == multiset(w)
  {
    if w == [] then []
    else
      assert w == [w[0]] + w[1..];
      Mirror(w[1..]) + [w[0]]
  }

  lemma MirrorInvolution(w: string)
    ensures Mirror(Mirror(w)) == w
  {
  }

  // ------------------------------------------------------- pairwise_rotate

  /** The position whose character lands at i: 2i and 2i+1 swap, an unpaired last position stays. */
  function PairPartner(i: int, n: int): int {
    if i % 2 == 0 then (if i + 1 < n then i + 1 else i) else i - 1
  }

  lemma PairPartnerInRange(n: int)
    ensures forall i :: 0 <= i < n ==> 0 <= PairPartner(i, n) < n
  {
  }

  lemma PairPartnersOfPair(i: int, n: int)
    requires 0 <= i && i % 2 == 0 && i + 1 < n
    ensures PairPartner(i, n) == i + 1 && PairPartner(i + 1, n) == i
  {
  }

  /** pairwise_rotate: the first two characters swapped, then the rest likewise. */
  function PairwiseRotated(w: string): (r: string)
    ensures |r| == |w|
  {
    if |w| < 2 then w
    else [w[1], w[0]] + PairwiseRotated(w[2..])
  }

  /** Swapping pairs keeps every character, as many times as it occurs. */
  lemma {:induction false} PairwiseRotatedPermutes(w: string)
    ensures multiset(PairwiseRotated(w)) == multiset(w)
  {
    if |w| >= 2 {
      PairwiseRotatedPermutes(w[2..]);
      assert w == [w[0], w[1]] + w[2..];
    }
  }

  lemma PairPartnerShift(i: int, n: int)
    requires i >= 2
    ensures PairPartner(i, n) == PairPartner(i - 2, n - 2) + 2
  {
    assert i % 2 == (i - 2) % 2;
  }

  /** Positions 2j and 2j+1 trade places; an unpaired last position keeps its character. */
  lemma {:induction false} PairwiseRotatedAt(w: string, i: int)
    requires 0 <= i < |w|
    ensures PairwiseRotated(w)[i] == w[PairPartner(i, |w|)]
  {
    if |w| < 2 {
      assert PairPartner(i, |w|) == i;
    } else if i < 2 {
      assert PairPartner(i, |w|) == 1 - i;
    } else {
      var rest := PairwiseRotated(w[2..]);
      assert PairwiseRotated(w) == [w[1], w[0]] + rest;
      PairwiseRotatedAt(w[2..], i - 2);
      PairPartnerShift(i, |w|);
      assert rest[i - 2] == w[2..][PairPartner(i - 2, |w| - 2)];
    }
  }

  lemma {:induction false} PairwiseRotatedInvolution(w: string)
    ensures PairwiseRotated(PairwiseRotated(w)) == w
  {
    if |w| >= 2 {
      var r := PairwiseRotated(w);
      PairwiseRotatedInvolution(w[2..]);
      assert r[2..] == PairwiseRotated(w[2..]);
      assert PairwiseRotated(r) == [w[0], w[1]] + PairwiseRotated(PairwiseRotated(w[2..]));
      assert w == [w[0], w[1]] + w[2..];
    }
  }

  /** pairwise_rotate: swaps the pairs of a character array in place, stepping by two. */
  method PairwiseRotate(w: string) returns (r: string)
    ensures r == PairwiseRotated(w)
  {
    var chars := new char[|w|](i requires 0 <= i < |w| => w[i]);
    var n := chars.Length;
    var idx := 0;
    PairPartnerInRange(n);
    while idx < n - 1
      invariant 0 <= idx <= n && idx % 2 == 0
      invariant forall k :: 0 <= k < idx ==> chars[k] == w[PairPartner(k, n)]
      invariant forall k :: idx <= k < n ==> chars[k] == w[k]
    {
      PairPartnersOfPair(idx, n);
      chars[idx], chars[idx + 1] := chars[idx + 1], chars[idx];
      idx := idx + 2;
    }
    r := chars[..];
    forall k | idx <= k < n ensures r[k] == w[PairPartner(k, n)] {
      assert k == n - 1 && PairPartner(k, n) == k;
    }
    PairwiseRotatedByPartners(w, r);
  }

  /** A word whose every position holds the character of its pair partner is pairwise_rotate's result. */
  lemma PairwiseRotatedByPartners(w: string, r: string)
    requires |r| == |w|
    requires forall k :: 0 <= k < |w| ==> r[k] == w[PairPartner(k, |w|)]
    ensures r == PairwiseRotated(w)
  {
    forall k | 0 <= k < |w| ensures r[k] == PairwiseRotated(w)[k] {
      PairwiseRotatedAt(w, k);
    }
  }

  // ------------------------------------------------------------ interleave

  /** word[::2]: the characters at even positions. */
  function Evens(s: string): (r: string)
    ensures |r| == (|s| + 1) / 2
    ensures forall j :: 0 <= j < |r| ==> r[j] == s[2 * j]
  {
    if |s| == 0 then [] else if |s| == 1 then [s[0]] else [s[0]] + Evens(s[2..])
  }

  /** word[1::2]: the characters at odd positions. */
  function Odds(s: string): (r: string)
    ensures |r| == |s| / 2
    ensures forall j :: 0 <= j < |r| ==> r[j] == s[2 * j + 1]
  {
    if |s| == 0 then [] else Evens(s[1..])
  }

  /** The even positions of s and those of s[1..] together hold every character of s once. */
  lemma {:induction false} EvensOddsSplit(s: string)
    ensures multiset(Evens(s)) + multiset(Odds(s)) == multiset(s)
  {
    if |s| >= 2 {
      var t := s[1..];
      EvensOddsSplit(t);
      assert t[1..] == s[2..];
      assert Odds(t) == Evens(s[2..]);
      assert Evens(s) == [s[0]] + Evens(s[2..]);
      assert s == [s[0]] + t;
    }
  }

  lemma HalvesAddUp(n: nat)
    ensures n / 2 + (n + 1) / 2 == n
  {
  }

  /** interleave: the odd-position characters followed by the even-position ones. */
  function Interleave(w: string): (r: string)
    ensures |r| == |w|
    ensures multiset(r) == multiset(w)
  {
    EvensOddsSplit(w);
    HalvesAddUp(|w|);
    Odds(w) + Evens(w)
  }

  /** The first |w| / 2 positions take w's odd positions in order, the rest its even positions. */
  lemma InterleaveAt(w: string, i: int)
    requires 0 <= i < |w|
    ensures i < |w| / 2 ==> Interleave(w)[i] == w[2 * i + 1]
    ensures |w| / 2 <= i ==> Interleave(w)[i] == w[2 * (i - |w| / 2)]
  {
    var odd, even := Odds(w), Evens(w);
    assert Interleave(w) == odd + even;
    var h := |odd|;
    if i < h {
      assert (odd + even)[i] == odd[i];
    } else {
      assert (odd + even)[i] == even[i - h];
    }
  }

  // ----------------------------------------------------------------- cycle

  /** cycle: rotates the word right by k positions (k taken modulo the length). */
  function Cycle(w: string, k: int): (r: string)
    ensures |r| == |w|
  {
    if w == [] then w
    else
      var n := |w|;
      var k' := k % n;
      if k' == 0 then w  // word[-0:] is the whole word and word[:-0] is empty
      else w[n - k'..] + w[..n - k']
  }

  /** A rotation keeps every character, as many times as it occurs. */
  lemma CyclePermutes(w: string, k: int)
    ensures multiset(Cycle(w, k)) == multiset(w)
  {
    if w != [] && k % |w| != 0 {
      var s := |w| - k % |w|;
      assert w == w[..s] + w[s..];
    }
  }

  lemma MulAtLeast(n: int, d: int)
    requires n > 0 && d >= 1
    ensures n * d >= n
  {
  }

  /** Euclidean remainders are unique. */
  lemma ModUnique(x: int, n: int, q: int, r: int)
    requires 0 <= r < n
    requires x == n * q + r
    ensures x % n == r
  {
    var d := x / n - q;
    assert n * (x / n) + x % n == n * q + r;
    assert n * d == r - x % n;
    if d >= 1 {
      MulAtLeast(n, d);
    } else if d <= -1 {
      MulAtLeast(n, -d);
    }
  }

  lemma CycleIndex(i: int, k: int, n: int)
    requires 0 <= i < n
    ensures (i - k) % n == if i < k % n then i + n - k % n else i - k % n
  {
    var q := k / n;
    var k' := k % n;
    assert k == n * q + k';
    if i < k' {
      ModUnique(i - k, n, -q - 1, i + n - k');
    } else {
      ModUnique(i - k, n, -q, i - k');
    }
  }

  /** Character i of cycle(w, k) is character (i - k) mod n of w. */
  lemma CycleAt(w: string, k: int, i: int)
    requires 0 <= i < |w|
    ensures Cycle(w, k)[i] == w[(i - k) % |w|]
  {
    var n := |w|;
    var k' := k % n;
    CycleIndex(i, k, n);
    if k' != 0 {
      assert Cycle(w, k) == w[n - k'..] + w[..n - k'];
    }
  }

  /** A shift that is a multiple of the length is the identity. */
  lemma CycleByMultipleIsIdentity(w: string, k: int)
    requires w == [] || k % |w| == 0
    ensures Cycle(w, k) == w
  {
  }

  lemma InverseShift(k: int, n: int)
    requires n > 0
    ensures (n - k) % n == if k % n == 0 then 0 else n - k % n
  {
    var q := k / n;
    var k' := k % n;
    assert k == n * q + k';
    if k' == 0 {
      ModUnique(n - k, n, 1 - q, 0);
    } else {
      ModUnique(n - k, n, -q, n - k');
    }
  }

  /** Rotating by k and then by (n - k) mod n restores the word. */
  lemma CycleRoundTrip(w: string, k: int)
    requires w != []
    ensures Cycle(Cycle(w, k), (|w| - k) % |w|) == w
  {
    if k % |w| == 0 {
      RoundTripWhole(w, k);
    } else {
      RoundTripProper(w, k);
    }
  }

  lemma RoundTripWhole(w: string, k: int)
    requires w != [] && k % |w| == 0
    ensures Cycle(Cycle(w, k), (|w| - k) % |w|) == w
  {
    InverseShift(k, |w|);
    CycleByMultipleIsIdentity(w, k);
    CycleByMultipleIsIdentity(w, (|w| - k) % |w|);
  }

  lemma RoundTripProper(w: string, k: int)
    requires w != [] && k % |w| != 0
    ensures Cycle(Cycle(w, k), (|w| - k) % |w|) == w
  {
    InverseShift(k, |w|);
    RotateRightThenBack(w, k, (|w| - k) % |w|);
  }

  /** Rotating right by k' = k mod n (not 0) and then right by n - k' restores the word. */
  lemma RotateRightThenBack(w: string, k: int, back: int)
    requires w != [] && k % |w| != 0
    requires back == |w| - k % |w|
    ensures Cycle(Cycle(w, k), back) == w
  {
    var c, k' := Cycle(w, k), k % |w|;
    assert c == w[|w| - k'..] + w[..|w| - k'] by {
      CycleSplit(w, k);
    }
    assert Cycle(c, |w| - k') == w by {
      RotateBack(w, k', c);
    }
  }

  lemma CycleSplit(w: string, k: int)
    requires w != [] && k % |w| != 0
    ensures Cycle(w, k) == w[|w| - k % |w|..] + w[..|w| - k % |w|]
  {
  }

  lemma RotateBack(w: string, k': int, c: string)
    requires 0 < k' < |w|
    requires c == w[|w| - k'..] + w[..|w| - k']
    ensures Cycle(c, |w| - k') == w
  {
    var n := |w|;
    var front, back := w[n - k'..], w[..n - k'];
    assert (n - k') % n == n - k';
    assert c[k'..] == back && c[..k'] == front;
    assert w == back + front;
  }

  // ---------------------------------------------------- symmetry_stabilize

  /** One element of the list the Python code sorts: (class, original index, character). */
  datatype Item = Item(cls: Option<SymmetryClass>, index: int, ch: char)

  /** The first part of the sort key: the class label, or "zz" when unclassified. */
  function Label(k: Option<SymmetryClass>): string {
    match k
    case Some(Idempotent) => "idempotent"
    case Some(Biphasic) => "biphasic"
    case Some(Involutive) => "involutive"
    case Some(Asymmetric) => "asymmetric"
    case None => "zz"
  }

  /** Python's a < b on strings: lexicographic by code point. */
  predicate StrLess(a: string, b: string) {
    if |a| == 0 then |b| > 0
    else if |b| == 0 then false
    else if a[0] != b[0] then a[0] < b[0]
    else StrLess(a[1..], b[1..])
  }

  /** The place of a class in the sorted output. */
  function Rank(k: Option<SymmetryClass>): nat {
    match k
    case Some(Asymmetric) => 0
    case Some(Biphasic) => 1
    case Some(Idempotent) => 2
    case Some(Involutive) => 3
    case None => 4
  }

  /** Each rank below five names exactly one class. */
  lemma RankIdentifies(k: Option<SymmetryClass>)
    ensures Rank(k) < 5
    ensures (Rank(k) == 0 <==> k == Some(Asymmetric)) && (Rank(k) == 1 <==> k == Some(Biphasic))
    ensures (Rank(k) == 2 <==> k == Some(Idempotent)) && (Rank(k) == 3 <==> k == Some(Involutive))
    ensures Rank(k) == 4 <==> k == None
  {
  }

  /**
   * The labels compare as strings in the order asymmetric < biphasic <
   * idempotent < involutive < zz, which is not SymmetryOrder.
   */
  lemma LabelOrderIsRankOrder(x: Option<SymmetryClass>, y: Option<SymmetryClass>)
    ensures StrLess(Label(x), Label(y)) <==> Rank(x) < Rank(y)
    ensures Label(x) == Label(y) <==> x == y
  {
    var a, b := Label(x), Label(y);
    if x == y {
      StrLessIrreflexive(a);
    } else if a[0] == b[0] {
      assert a[1] != b[1];
      assert StrLess(a, b) == StrLess(a[1..], b[1..]);
    }
  }

  lemma StrLessIrreflexive(a: string)
    ensures !StrLess(a, a)
  {
  }

  /** The sort key comparison as written: (label or "zz", index) < (label or "zz", index). */
  predicate SortKeyLess(x: Item, y: Item) {
    StrLess(Label(x.cls), Label(y.cls)) || (Label(x.cls) == Label(y.cls) && x.index < y.index)
  }

  /** The same order by class rank, then original index. */
  predicate KeyLess(x: Item, y: Item) {
    Rank(x.cls) < Rank(y.cls) || (x.cls == y.cls && x.index < y.index)
  }

  lemma SortKeyIsRankKey(x: Item, y: Item)
    ensures SortKeyLess(x, y) <==> KeyLess(x, y)
  {
    LabelOrderIsRankOrder(x.cls, y.cls);
  }

  lemma NotKeyLessTransitive(x: Item, y: Item, z: Item)
    requires !KeyLess(y, x) && !KeyLess(z, y)
    ensures !KeyLess(z, x)
  {
  }

  /** Nondecreasing by key. */
  ghost predicate Sorted(s: seq<Item>) {
    forall p, q :: 0 <= p < q < |s| ==> !KeyLess(s[q], s[p])
  }

  /** Strictly increasing by key. */
  ghost predicate StrictlySorted(s: seq<Item>) {
    forall p, q :: 0 <= p < q < |s| ==> KeyLess(s[p], s[q])
  }

  /** list.sort with the key above: an insertion sort by adjacent swaps. */
  method SortByKey(a: array<Item>)
    modifies a
    ensures Sorted(a[..])
    ensures multiset(a[..]) == old(multiset(a[..]))
  {
    var i := 0;
    while i < a.Length
      invariant 0 <= i <= a.Length
      invariant forall p, q :: 0 <= p < q < i ==> !KeyLess(a[q], a[p])
      invariant multiset(a[..]) == old(multiset(a[..]))
    {
      InsertIntoSorted(a, i);
      i := i + 1;
    }
  }

  /** Moves a[i] left past every larger item of the sorted prefix a[..i]. */
  method InsertIntoSorted(a: array<Item>, i: int)
    requires 0 <= i < a.Length
    requires forall p, q :: 0 <= p < q < i ==> !KeyLess(a[q], a[p])
    modifies a
    ensures forall p, q :: 0 <= p < q <= i ==> !KeyLess(a[q], a[p])
    ensures multiset(a[..]) == old(multiset(a[..]))
    ensures forall q :: i < q < a.Length ==> a[q] == old(a[q])
  {
    var j := i;
    while j > 0
      invariant 0 <= j <= i
      invariant forall p, q :: 0 <= p < q <= i && p != j && q != j ==> !KeyLess(a[q], a[p])
      invariant forall q :: j < q <= i ==> !KeyLess(a[q], a[j])
      invariant multiset(a[..]) == old(multiset(a[..]))
      invariant forall q :: i < q < a.Length ==> a[q] == old(a[q])
    {
      SortKeyIsRankKey(a[j], a[j - 1]);
      if !SortKeyLess(a[j], a[j - 1]) {
        forall p | 0 <= p < j - 1 ensures !KeyLess(a[j], a[p]) {
          NotKeyLessTransitive(a[p], a[j - 1], a[j]);
        }
        break;
      }
      SwapAdjacent(a, j);
      j := j - 1;
    }
  }

  /** Swaps a[j - 1] and a[j], leaving the rest of the array as it was. */
  method SwapAdjacent(a: array<Item>, j: int)
    requires 0 < j < a.Length
    modifies a
    ensures a[j - 1] == old(a[j]) && a[j] == old(a[j - 1])
    ensures forall q :: 0 <= q < a.Length && q != j - 1 && q != j ==> a[q] == old(a[q])
    ensures multiset(a[..]) == old(multiset(a[..]))
  {
    a[j - 1], a[j] := a[j], a[j - 1];
  }

  /** ''.join(ch for _, _, ch in items) */
  function Chars(items: seq<Item>): (r: string)
    ensures |r| == |items|
    ensures forall i :: 0 <= i < |items| ==> r[i] == items[i].ch
  {
    if items == [] then [] else Chars(items[..|items| - 1]) + [items[|items| - 1].ch]
  }

  /** The characters of w that the classifier f puts in class k, in their original order. */
  function ClassChars(w: string, f: char -> Option<SymmetryClass>, k: Option<SymmetryClass>): (r: string)
    ensures forall i :: 0 <= i < |r| ==> f(r[i]) == k
  {
    if w == [] then []
    else ClassChars(w[..|w| - 1], f, k) + (if f(w[|w| - 1]) == k then [w[|w| - 1]] else [])
  }

  /**
   * symmetry_stabilize, as its outcome: the asymmetric characters, then the
   * biphasic, idempotent, involutive and unclassified ones, each group in
   * its original order.
   */
  function SymmetryStabilized(w: string): (r: string)
    ensures |r| == |w|
    ensures multiset(r) == multiset(w)
  {
    ClassCharsPartition(w, ClassOf);
    var r := ClassChars(w, ClassOf, Some(Asymmetric)) + ClassChars(w, ClassOf, Some(Biphasic)) + ClassChars(w, ClassOf, Some(Idempotent))
      + ClassChars(w, ClassOf, Some(Involutive)) + ClassChars(w, ClassOf, None);
    assert |r| == |multiset(r)| == |multiset(w)| == |w|;
    r
  }

  lemma ClassCharsSnoc(w: string, f: char -> Option<SymmetryClass>, k: Option<SymmetryClass>)
    requires w != []
    ensures multiset(ClassChars(w, f, k))
      == multiset(ClassChars(w[..|w| - 1], f, k)) + if f(w[|w| - 1]) == k then multiset{w[|w| - 1]} else multiset{}
  {
  }

  lemma MultisetSnoc<T>(s: seq<T>)
    requires s != []
    ensures multiset(s) == multiset(s[..|s| - 1]) + multiset{s[|s| - 1]}
  {
    assert s == s[..|s| - 1] + [s[|s| - 1]];
  }

  /** Adding c to the bucket of its rank adds c to the union of the five buckets. */
  lemma AddToBucket<T>(m0: multiset<T>, m1: multiset<T>, m2: multiset<T>, m3: multiset<T>, m4: multiset<T>,
                       n0: multiset<T>, n1: multiset<T>, n2: multiset<T>, n3: multiset<T>, n4: multiset<T>, c: T, rank: nat)
    requires n0 == m0 + if rank == 0 then multiset{c} else multiset{}
    requires n1 == m1 + if rank == 1 then multiset{c} else multiset{}
    requires n2 == m2 + if rank == 2 then multiset{c} else multiset{}
    requires n3 == m3 + if rank == 3 then multiset{c} else multiset{}
    requires n4 == m4 + if rank == 4 then multiset{c} else multiset{}
    requires rank < 5
    ensures n0 + n1 + n2 + n3 + n4 == m0 + m1 + m2 + m3 + m4 + multiset{c}
  {
  }

  /** The five class groups of w together, as a multiset. */
  ghost function Groups(w: string, f: char -> Option<SymmetryClass>): multiset<char> {
    multiset(ClassChars(w, f, Some(Asymmetric))) + multiset(ClassChars(w, f, Some(Biphasic)))
      + multiset(ClassChars(w, f, Some(Idempotent))) + multiset(ClassChars(w, f, Some(Involutive)))
      + multiset(ClassChars(w, f, None))
  }

  /** Appending a character adds it to exactly one group. */
  lemma GroupsSnoc(w: string, f: char -> Option<SymmetryClass>)
    requires w != []
    ensures Groups(w, f) == Groups(w[..|w| - 1], f) + multiset{w[|w| - 1]}
  {
    var w', c := w[..|w| - 1], w[|w| - 1];
    RankIdentifies(f(c));
    ClassCharsSnoc(w, f, Some(Asymmetric));
    ClassCharsSnoc(w, f, Some(Biphasic));
    ClassCharsSnoc(w, f, Some(Idempotent));
    ClassCharsSnoc(w, f, Some(Involutive));
    ClassCharsSnoc(w, f, None);
    AddToBucket(
      multiset(ClassChars(w', f, Some(Asymmetric))), multiset(ClassChars(w', f, Some(Biphasic))),
      multiset(ClassChars(w', f, Some(Idempotent))), multiset(ClassChars(w', f, Some(Involutive))),
      multiset(ClassChars(w', f, None)),
      multiset(ClassChars(w, f, Some(Asymmetric))), multiset(ClassChars(w, f, Some(Biphasic))),
      multiset(ClassChars(w, f, Some(Idempotent))), multiset(ClassChars(w, f, Some(Involutive))),
      multiset(ClassChars(w, f, None)),
      c, Rank(f(c)));
  }

  /** Every character of w lands in exactly one of the five groups. */
  lemma {:induction false} ClassCharsPartition(w: string, f: char -> Option<SymmetryClass>)
    ensures Groups(w, f) == multiset(w)
  {
    if w != [] {
      ClassCharsPartition(w[..|w| - 1], f);
      GroupsSnoc(w, f);
      MultisetSnoc(w);
    }
  }

  /** symmetry_stabilize: sorts (class, index, character) triples by (label or "zz", index). */
  method SymmetryStabilize(w: string) returns (r: string)
    ensures r == SymmetryStabilized(w)
  {
    var classes := ClassifyWord(w);
    var sortable := new Item[|w|](i requires 0 <= i < |w| => Item(classes[i], i, w[i]));
    ghost var items := sortable[..];
    SortByKey(sortable);
    r := Chars(sortable[..]);
    SortedItemsAreGrouped(w, items, sortable[..]);
  }

  /** The items of w whose class is k, in order. */
  function Select(items: seq<Item>, k: Option<SymmetryClass>): seq<Item> {
    if items == [] then []
    else Select(items[..|items| - 1], k) + (if items[|items| - 1].cls == k then [items[|items| - 1]] else [])
  }

  /** items lists w's characters with their classes and positions. */
  ghost predicate Zipped(w: string, items: seq<Item>) {
    |items| == |w| && forall i :: 0 <= i < |w| ==> items[i] == Item(ClassOf(w[i]), i, w[i])
  }

  function Grouped(items: seq<Item>): seq<Item> {
    Select(items, Some(Asymmetric)) + Select(items, Some(Biphasic)) + Select(items, Some(Idempotent))
      + Select(items, Some(Involutive)) + Select(items, None)
  }

  lemma {:induction false} SelectMatchesClassChars(w: string, items: seq<Item>, k: Option<SymmetryClass>)
    requires Zipped(w, items)
    ensures Chars(Select(items, k)) == ClassChars(w, ClassOf, k)
  {
    if w != [] {
      SelectMatchesClassChars(w[..|w| - 1], items[..|items| - 1], k);
      var last := items[|items| - 1];
      if last.cls == k {
        assert Chars(Select(items, k)) == Chars(Select(items[..|items| - 1], k)) + [last.ch] by {
          var s := Select(items, k);
          assert s[..|s| - 1] == Select(items[..|items| - 1], k);
        }
      }
    }
  }

  lemma CharsConcat(a: seq<Item>, b: seq<Item>)
    ensures Chars(a + b) == Chars(a) + Chars(b)
  {
  }

  lemma {:induction false} SelectProperties(items: seq<Item>, k: Option<SymmetryClass>, bound: int)
    requires forall p, q :: 0 <= p < q < |items| ==> items[p].index < items[q].index
    requires forall p :: 0 <= p < |items| ==> items[p].index < bound
    ensures forall p :: 0 <= p < |Select(items, k)| ==> Select(items, k)[p].cls == k
    ensures forall p :: 0 <= p < |Select(items, k)| ==> Select(items, k)[p].index < bound
    ensures forall p, q :: 0 <= p < q < |Select(items, k)| ==> Select(items, k)[p].index < Select(items, k)[q].index
  {
    if items != [] {
      var last := items[|items| - 1];
      SelectProperties(items[..|items| - 1], k, last.index);
    }
  }

  lemma SelectSnoc(items: seq<Item>, k: Option<SymmetryClass>)
    requires items != []
    ensures multiset(Select(items, k))
      == multiset(Select(items[..|items| - 1], k)) + if items[|items| - 1].cls == k then multiset{items[|items| - 1]} else multiset{}
  {
  }

  /** The five selections together, as a multiset. */
  ghost function Selections(items: seq<Item>): multiset<Item> {
    multiset(Select(items, Some(Asymmetric))) + multiset(Select(items, Some(Biphasic)))
      + multiset(Select(items, Some(Idempotent))) + multiset(Select(items, Some(Involutive)))
      + multiset(Select(items, None))
  }

  /** Appending an item adds it to exactly one selection. */
  lemma SelectionsSnoc(items: seq<Item>)
    requires items != []
    ensures Selections(items) == Selections(items[..|items| - 1]) + multiset{items[|items| - 1]}
  {
    var items', x := items[..|items| - 1], items[|items| - 1];
    RankIdentifies(x.cls);
    SelectSnoc(items, Some(Asymmetric));
    SelectSnoc(items, Some(Biphasic));
    SelectSnoc(items, Some(Idempotent));
    SelectSnoc(items, Some(Involutive));
    SelectSnoc(items, None);
    AddToBucket(
      multiset(Select(items', Some(Asymmetric))), multiset(Select(items', Some(Biphasic))),
      multiset(Select(items', Some(Idempotent))), multiset(Select(items', Some(Involutive))),
      multiset(Select(items', None)),
      multiset(Select(items, Some(Asymmetric))), multiset(Select(items, Some(Biphasic))),
      multiset(Select(items, Some(Idempotent))), multiset(Select(items, Some(Involutive))),
      multiset(Select(items, None)),
      x, Rank(x.cls));
  }

  /** Grouping rearranges the items: nothing is lost or duplicated. */
  lemma {:induction false} SelectMultisets(items: seq<Item>)
    ensures Selections(items) == multiset(items)
  {
    if items != [] {
      SelectMultisets(items[..|items| - 1]);
      SelectionsSnoc(items);
      MultisetSnoc(items);
    }
  }

  lemma AppendSorted(a: seq<Item>, b: seq<Item>, rank: nat)
    requires StrictlySorted(a) && StrictlySorted(b)
    requires forall p :: 0 <= p < |a| ==> Rank(a[p].cls) < rank
    requires forall q :: 0 <= q < |b| ==> Rank(b[q].cls) == rank
    ensures StrictlySorted(a + b)
    ensures forall p :: 0 <= p < |a + b| ==> Rank((a + b)[p].cls) <= rank
  {
  }

  lemma SelectSorted(items: seq<Item>, k: Option<SymmetryClass>)
    requires forall p, q :: 0 <= p < q < |items| ==> items[p].index < items[q].index
    ensures StrictlySorted(Select(items, k))
    ensures forall p :: 0 <= p < |Select(items, k)| ==> Rank(Select(items, k)[p].cls) == Rank(k)
  {
    var bound := if items == [] then 0 else items[|items| - 1].index + 1;
    SelectProperties(items, k, bound);
  }

  lemma GroupedSorted(items: seq<Item>)
    requires forall p, q :: 0 <= p < q < |items| ==> items[p].index < items[q].index
    ensures StrictlySorted(Grouped(items))
  {
    var g0, g1, g2, g3, g4 :=
      Select(items, Some(Asymmetric)), Select(items, Some(Biphasic)), Select(items, Some(Idempotent)),
      Select(items, Some(Involutive)), Select(items, None);
    SelectSorted(items, Some(Asymmetric));
    SelectSorted(items, Some(Biphasic));
    SelectSorted(items, Some(Idempotent));
    SelectSorted(items, Some(Involutive));
    SelectSorted(items, None);
    AppendSorted(g0, g1, 1);
    AppendSorted(g0 + g1, g2, 2);
    AppendSorted(g0 + g1 + g2, g3, 3);
    AppendSorted(g0 + g1 + g2 + g3, g4, 4);
  }

  lemma HeadsAgree(a: seq<Item>, b: seq<Item>)
    requires a != [] && multiset(a) == multiset(b)
    requires StrictlySorted(a) && Sorted(b)
    ensures b != [] && a[0] == b[0]
  {
    assert a[0] in multiset(b);
    var j :| 0 <= j < |b| && b[j] == a[0];
    assert b[0] in multiset(a);
    var i :| 0 <= i < |a| && a[i] == b[0];
    assert j == 0 || !KeyLess(a[0], b[0]);
    assert i == 0 || KeyLess(a[0], b[0]);
  }

  lemma MultisetTail<T>(a: seq<T>, b: seq<T>)
    requires a != [] && b != [] && a[0] == b[0] && multiset(a) == multiset(b)
    ensures multiset(a[1..]) == multiset(b[1..])
  {
    assert a == [a[0]] + a[1..];
    assert b == [b[0]] + b[1..];
    assert multiset(a[1..]) == multiset(a) - multiset{a[0]};
    assert multiset(b[1..]) == multiset(b) - multiset{b[0]};
  }

  /** A strictly sorted sequence is the only sorted arrangement of its elements. */
  lemma {:induction false} SortedArrangementIsUnique(a: seq<Item>, b: seq<Item>)
    requires multiset(a) == multiset(b)
    requires StrictlySorted(a) && Sorted(b)
    ensures a == b
  {
    if a == [] {
      assert |multiset(b)| == 0;
    } else {
      HeadsAgree(a, b);
      MultisetTail(a, b);
      SortedArrangementIsUnique(a[1..], b[1..]);
      assert a == [a[0]] + a[1..];
      assert b == [b[0]] + b[1..];
    }
  }

  lemma SortedItemsAreGrouped(w: string, items: seq<Item>, sorted: seq<Item>)
    requires Zipped(w, items)
    requires multiset(sorted) == multiset(items) && Sorted(sorted)
    ensures Chars(sorted) == SymmetryStabilized(w)
  {
    GroupedSorted(items);
    SelectMultisets(items);
    assert multiset(Grouped(items)) == Selections(items);
    SortedArrangementIsUnique(Grouped(items), sorted);
    SelectMatchesClassChars(w, items, Some(Asymmetric));
    SelectMatchesClassChars(w, items, Some(Biphasic));
    SelectMatchesClassChars(w, items, Some(Idempotent));
    SelectMatchesClassChars(w, items, Some(Involutive));
    SelectMatchesClassChars(w, items, None);
    var g0, g1, g2, g3, g4 :=
      Select(items, Some(Asymmetric)), Select(items, Some(Biphasic)), Select(items, Some(Idempotent)),
      Select(items, Some(Involutive)), Select(items, None);
    CharsConcat(g0, g1);
    CharsConcat(g0 + g1, g2);
    CharsConcat(g0 + g1 + g2, g3);
    CharsConcat(g0 + g1 + g2 + g3, g4);
  }

  // ------------------------------------------------- symmetry_stabilize laws

  lemma {:induction false} ClassCharsConcat(a: string, b: string, f: char -> Option<SymmetryClass>, k: Option<SymmetryClass>)
    ensures ClassChars(a + b, f, k) == ClassChars(a, f, k) + ClassChars(b, f, k)
  {
    if b != [] {
      ClassCharsConcat(a, b[..|b| - 1], f, k);
      assert (a + b)[..|a + b| - 1] == a + b[..|b| - 1];
    } else {
      assert a + b == a;
    }
  }

  /** Filtering a word whose characters all have class k' keeps all of it or none of it. */
  lemma {:induction false} ClassCharsOfUniform(s: string, f: char -> Option<SymmetryClass>, k': Option<SymmetryClass>, k: Option<SymmetryClass>)
    requires forall i :: 0 <= i < |s| ==> f(s[i]) == k'
    ensures ClassChars(s, f, k) == if k == k' then s else []
  {
    if s != [] {
      ClassCharsOfUniform(s[..|s| - 1], f, k', k);
      if k == k' {
        assert s == s[..|s| - 1] + [s[|s| - 1]];
      }
    }
  }

  lemma ClassCharsTwice(w: string, k': Option<SymmetryClass>, k: Option<SymmetryClass>)
    ensures ClassChars(ClassChars(w, ClassOf, k'), ClassOf, k) == if k == k' then ClassChars(w, ClassOf, k') else []
  {
    ClassCharsOfUniform(ClassChars(w, ClassOf, k'), ClassOf, k', k);
  }

  /** Each class group of the stabilized word is the same group of the original word. */
  lemma StabilizedGroups(w: string, k: Option<SymmetryClass>)
    ensures ClassChars(SymmetryStabilized(w), ClassOf, k) == ClassChars(w, ClassOf, k)
  {
    var g0, g1, g2, g3, g4 :=
      ClassChars(w, ClassOf, Some(Asymmetric)), ClassChars(w, ClassOf, Some(Biphasic)),
      ClassChars(w, ClassOf, Some(Idempotent)), ClassChars(w, ClassOf, Some(Involutive)),
      ClassChars(w, ClassOf, None);
    assert SymmetryStabilized(w) == g0 + g1 + g2 + g3 + g4;
    var h0, h1, h2, h3, h4 :=
      ClassChars(g0, ClassOf, k), ClassChars(g1, ClassOf, k), ClassChars(g2, ClassOf, k),
      ClassChars(g3, ClassOf, k), ClassChars(g4, ClassOf, k);
    assert ClassChars(g0 + g1 + g2 + g3 + g4, ClassOf, k) == h0 + h1 + h2 + h3 + h4 by {
      ClassCharsConcat(g0, g1, ClassOf, k);
      ClassCharsConcat(g0 + g1, g2, ClassOf, k);
      ClassCharsConcat(g0 + g1 + g2, g3, ClassOf, k);
      ClassCharsConcat(g0 + g1 + g2 + g3, g4, ClassOf, k);
    }
    ClassCharsTwice(w, Some(Asymmetric), k);
    ClassCharsTwice(w, Some(Biphasic), k);
    ClassCharsTwice(w, Some(Idempotent), k);
    ClassCharsTwice(w, Some(Involutive), k);
    ClassCharsTwice(w, None, k);
    match k
    case Some(Asymmetric) => assert h0 + h1 + h2 + h3 + h4 == g0 + [] + [] + [] + [];
    case Some(Biphasic) => assert h0 + h1 + h2 + h3 + h4 == [] + g1 + [] + [] + [];
    case Some(Idempotent) => assert h0 + h1 + h2 + h3 + h4 == [] + [] + g2 + [] + [];
    case Some(Involutive) => assert h0 + h1 + h2 + h3 + h4 == [] + [] + [] + g3 + [];
    case None => assert h0 + h1 + h2 + h3 + h4 == [] + [] + [] + [] + g4;
  }

  /** Stabilizing twice is stabilizing once. */
  lemma SymmetryStabilizedIdempotent(w: string)
    ensures SymmetryStabilized(SymmetryStabilized(w)) == SymmetryStabilized(w)
  {
    var r := SymmetryStabilized(w);
    StabilizedGroups(w, Some(Asymmetric));
    StabilizedGroups(w, Some(Biphasic));
    StabilizedGroups(w, Some(Idempotent));
    StabilizedGroups(w, Some(Involutive));
    StabilizedGroups(w, None);
  }

  /** The stabilized word lists its characters by nondecreasing class rank. */
  lemma SymmetryStabilizedIsGrouped(w: string)
    ensures forall i, j :: 0 <= i < j < |w| ==>
      Rank(ClassOf(SymmetryStabilized(w)[i])) <= Rank(ClassOf(SymmetryStabilized(w)[j]))
  {
    var g0, g1, g2, g3, g4 :=
      ClassChars(w, ClassOf, Some(Asymmetric)), ClassChars(w, ClassOf, Some(Biphasic)),
      ClassChars(w, ClassOf, Some(Idempotent)), ClassChars(w, ClassOf, Some(Involutive)),
      ClassChars(w, ClassOf, None);
    assert SymmetryStabilized(w) == g0 + g1 + g2 + g3 + g4;
    GroupsAreRanked(w, ClassOf);
  }

  /** The five groups of w under any classifier, concatenated, are ordered by rank. */
  lemma GroupsAreRanked(w: string, f: char -> Option<SymmetryClass>)
    ensures var r := ClassChars(w, f, Some(Asymmetric)) + ClassChars(w, f, Some(Biphasic))
      + ClassChars(w, f, Some(Idempotent)) + ClassChars(w, f, Some(Involutive)) + ClassChars(w, f, None);
      forall i, j :: 0 <= i < j < |r| ==> Rank(f(r[i])) <= Rank(f(r[j]))
  {
    var g0, g1, g2, g3, g4 :=
      ClassChars(w, f, Some(Asymmetric)), ClassChars(w, f, Some(Biphasic)),
      ClassChars(w, f, Some(Idempotent)), ClassChars(w, f, Some(Involutive)),
      ClassChars(w, f, None);
    var r := g0 + g1 + g2 + g3 + g4;
    forall i, j | 0 <= i < j < |r| ensures Rank(f(r[i])) <= Rank(f(r[j])) {
      RankAt(g0, g1, g2, g3, g4, f, i);
      RankAt(g0, g1, g2, g3, g4, f, j);
    }
  }

  /** Position i of the five concatenated groups carries the rank of the group it falls in. */
  lemma RankAt(g0: string, g1: string, g2: string, g3: string, g4: string, f: char -> Option<SymmetryClass>, i: int)
    requires forall p :: 0 <= p < |g0| ==> f(g0[p]) == Some(Asymmetric)
    requires forall p :: 0 <= p < |g1| ==> f(g1[p]) == Some(Biphasic)
    requires forall p :: 0 <= p < |g2| ==> f(g2[p]) == Some(Idempotent)
    requires forall p :: 0 <= p < |g3| ==> f(g3[p]) == Some(Involutive)
    requires forall p :: 0 <= p < |g4| ==> f(g4[p]) == None
    requires 0 <= i < |g0 + g1 + g2 + g3 + g4|
    ensures Rank(f((g0 + g1 + g2 + g3 + g4)[i])) == GroupOf([|g0|, |g1|, |g2|, |g3|], i)
  {
  }

  /** The index of the group that position i falls in, given the lengths of the first four groups. */
  function GroupOf(lengths: seq<nat>, i: int): nat
    requires |lengths| == 4
  {
    if i < lengths[0] then 0
    else if i < lengths[0] + lengths[1] then 1
    else if i < lengths[0] + lengths[1] + lengths[2] then 2
    else if i < lengths[0] + lengths[1] + lengths[2] + lengths[3] then 3
    else 4
  }

  lemma ClassCharsFront(w: string, f: char -> Option<SymmetryClass>, k: Option<SymmetryClass>)
    requires w != []
    ensures ClassChars(w, f, k) == (if f(w[0]) == k then [w[0]] else []) + ClassChars(w[1..], f, k)
  {
    ClassCharsConcat([w[0]], w[1..], f, k);
    assert w == [w[0]] + w[1..];
    assert [w[0]][..0] == [];
  }

  lemma ExampleLetters()
    ensures ClassOf('S') == Some(Involutive) && ClassOf('Y') == Some(Idempotent) && ClassOf('M') == Some(Idempotent)
    ensures ClassOf('P') == Some(Asymmetric) && ClassOf('H') == Some(Idempotent) && ClassOf('I') == Some(Idempotent)
  {
  }

  /** The class groups of a three-character word. */
  lemma ClassCharsThree(a: char, b: char, c: char, f: char -> Option<SymmetryClass>, k: Option<SymmetryClass>)
    ensures ClassChars([a, b, c], f, k)
      == (if f(a) == k then [a] else []) + (if f(b) == k then [b] else []) + (if f(c) == k then [c] else [])
  {
    var w := [a, b, c];
    assert w[..2] == [a, b] && w[..2][..1] == [a] && w[..2][..1][..0] == [];
    assert ClassChars([a], f, k) == if f(a) == k then [a] else [];
    assert ClassChars([a, b], f, k) == ClassChars([a], f, k) + if f(b) == k then [b] else [];
  }

  /** The class groups of "SYMPHI" under any classifier that agrees with ClassOf on its letters. */
  lemma ExampleGroupsUnder(f: char -> Option<SymmetryClass>, k: Option<SymmetryClass>)
    requires f('S') == Some(Involutive) && f('Y') == Some(Idempotent) && f('M') == Some(Idempotent)
    requires f('P') == Some(Asymmetric) && f('H') == Some(Idempotent) && f('I') == Some(Idempotent)
    ensures ClassChars("SYMPHI", f, k) ==
      match k
      case Some(Asymmetric) => "P"
      case Some(Idempotent) => "YMHI"
      case Some(Involutive) => "S"
      case _ => ""
  {
    assert "SYMPHI" == ['S', 'Y', 'M'] + ['P', 'H', 'I'];
    ClassCharsConcat(['S', 'Y', 'M'], ['P', 'H', 'I'], f, k);
    ClassCharsThree('S', 'Y', 'M', f, k);
    ClassCharsThree('P', 'H', 'I', f, k);
  }

  /** The class groups of "SYMPHI": P is asymmetric, Y, M, H, I idempotent, S involutive. */
  lemma ExampleGroups(k: Option<SymmetryClass>)
    ensures ClassChars("SYMPHI", ClassOf, k) ==
      match k
      case Some(Asymmetric) => "P"
      case Some(Idempotent) => "YMHI"
      case Some(Involutive) => "S"
      case _ => ""
  {
    ExampleLetters();
    ExampleGroupsUnder(ClassOf, k);
  }

  lemma StabilizeExample()
    ensures SymmetryStabilized("SYMPHI") == "PYMHIS"
  {
    var w := "SYMPHI";
    var a, b, c, d, e :=
      ClassChars(w, ClassOf, Some(Asymmetric)), ClassChars(w, ClassOf, Some(Biphasic)),
      ClassChars(w, ClassOf, Some(Idempotent)), ClassChars(w, ClassOf, Some(Involutive)), ClassChars(w, ClassOf, None);
    assert a == "P" by { ExampleGroups(Some(Asymmetric)); }
    assert b == "" by { ExampleGroups(Some(Biphasic)); }
    assert c == "YMHI" by { ExampleGroups(Some(Idempotent)); }
    assert d == "S" by { ExampleGroups(Some(Involutive)); }
    assert e == "" by { ExampleGroups(None); }
    assert a + b + c + d + e == "PYMHIS";
  }

  // ------------------------------------------------------ compose_sequence

  /** The word after applying the strategies one after another, first to last. */
  function Composed(w: string, strategies: seq<string -> string>): string {
    if strategies == [] then w
    else strategies[|strategies| - 1](Composed(w, strategies[..|strategies| - 1]))
  }

  /** compose_sequence: feeds the word through each strategy in turn. */
  method ComposeSequence(w: string, strategies: seq<string -> string>) returns (r: string)
    ensures r == Composed(w, strategies)
  {
    r := w;
    for i := 0 to |strategies|
      invariant r == Composed(w, strategies[..i])
    {
      assert strategies[..i + 1][..i] == strategies[..i];
      r := strategies[i](r);
    }
    assert strategies[..|strategies|] == strategies;
  }

  lemma {:induction false} ComposedAppend(w: string, a: seq<string -> string>, b: seq<string -> string>)
    ensures Composed(w, a + b) == Composed(Composed(w, a), b)
  {
    if b != [] {
      ComposedAppend(w, a, b[..|b| - 1]);
      assert (a + b)[..|a + b| - 1] == a + b[..|b| - 1];
    } else {
      assert a + b == a;
    }
  }

  /** A composition of permutations is a permutation. */
  lemma {:induction false} ComposedPermutation(w: string, strategies: seq<string -> string>)
    requires forall i :: 0 <= i < |strategies| ==> IsPermutation(strategies[i])
    ensures multiset(Composed(w, strategies)) == multiset(w)
  {
    if strategies != [] {
      var n := |strategies|;
      ComposedPermutation(w, strategies[..n - 1]);
      assert IsPermutation(strategies[n - 1]);
      assert multiset(strategies[n - 1](Composed(w, strategies[..n - 1]))) == multiset(Composed(w, strategies[..n - 1]));
    }
  }

  // -------------------------------------------------------------- registry

  /** An ordered name-to-strategy table: a Python dict in insertion order. */
  type Registry = seq<(string, string -> string)>

  function Names(reg: Registry): (r: seq<string>)
    ensures |r| == |reg|
    ensures forall i :: 0 <= i < |reg| ==> r[i] == reg[i].0
  {
    if reg == [] then [] else Names(reg[..|reg| - 1]) + [reg[|reg| - 1].0]
  }

  /** The strategy registered under name, or KeyError(name). */
  function Lookup(reg: Registry, name: string): (r: Result<string -> string, Error>)
    ensures r.Success? <==> name in Names(reg)
    ensures r.Failure? ==> r.error == KeyError(name)
    ensures r.Success? ==> exists i :: 0 <= i < |reg| && reg[i] == (name, r.value)
  {
    if reg == [] then Failure(KeyError(name))
    else if reg[0].0 == name then Success(reg[0].1)
    else
      var r := Lookup(reg[1..], name);
      assert Names(reg) == [reg[0].0] + Names(reg[1..]);
      r
  }

  /** cycle as registered: called with one argument, so k = 1. */
  function CycleOnce(w: string): (r: string)
    ensures multiset(r) == multiset(w)
  {
    CyclePermutes(w, 1);
    Cycle(w, 1)
  }

  const Strategies: Registry := [
    ("mirror", Mirror),
    ("pairwise_rotate", PairwiseRotated),
    ("interleave", Interleave),
    ("symmetry_stabilize", SymmetryStabilized),
    ("cycle", CycleOnce)
  ]

  /** get_transformation */
  function GetTransformation(name: string): (r: Result<string -> string, Error>)
    ensures r.Success? <==> name in AvailableTransformations()
    ensures r.Failure? ==> r.error == KeyError(name)
    ensures r.Success? ==> IsPermutation(r.value)
  {
    EveryStrategyIsPermutation();
    Lookup(Strategies, name)
  }

  /** available_transformations: the registered names in registration order. */
  function AvailableTransformations(): (r: seq<string>)
    ensures r == ["mirror", "pairwise_rotate", "interleave", "symmetry_stabilize", "cycle"]
  {
    Names(Strategies)
  }

  lemma EveryStrategyIsPermutation()
    ensures forall i :: 0 <= i < |Strategies| ==> IsPermutation(Strategies[i].1)
  {
    forall w: string ensures multiset(Mirror(w)) == multiset(w) && multiset(PairwiseRotated(w)) == multiset(w)
      && multiset(Interleave(w)) == multiset(w) && multiset(SymmetryStabilized(w)) == multiset(w)
      && multiset(CycleOnce(w)) == multiset(w)
    {
      PairwiseRotatedPermutes(w);
    }
  }

  /** No name is registered twice, as in a dict. */
  predicate DistinctNames(reg: Registry) {
    forall i, j :: 0 <= i < j < |reg| ==> reg[i].0 != reg[j].0
  }

  /** In a registry without duplicate names, each name finds the strategy listed under it. */
  lemma {:induction false} LookupFinds(reg: Registry, i: int)
    requires DistinctNames(reg)
    requires 0 <= i < |reg|
    ensures Lookup(reg, reg[i].0) == Success(reg[i].1)
  {
    if i > 0 {
      LookupFinds(reg[1..], i - 1);
    }
  }

  /** Each registered name resolves to the strategy listed under it. */
  lemma GetTransformationResolves(i: int)
    requires 0 <= i < |Strategies|
    ensures GetTransformation(Strategies[i].0) == Success(Strategies[i].1)
  {
    LookupFinds(Strategies, i);
  }
}
