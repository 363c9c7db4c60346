/** Lexicographic order on the suffixes of a text, the specification of the suffix sort in ssort.cc. */
module SuffixOrder {

  /** The character at position i of a text that is padded with zeros. */
  function At(text: seq<int>, i: nat): int {
    if i < |text| then text[i] else 0
  }

  /** Suffix i is strictly smaller than suffix j; an exhausted suffix is smaller than any other. */
  ghost predicate Less(text: seq<int>, i: nat, j: nat)
    decreases |text| - j
  {
    if j >= |text| then false
    else if i >= |text| then true
    else text[i] < text[j] || (text[i] == text[j] && Less(text, i + 1, j + 1))
  }

  /** Dictionary order, stated without recursion: a common prefix, then an end or a smaller character. */
  ghost predicate DictionaryLess(a: seq<int>, b: seq<int>) {
    exists k: nat :: DictionaryLessAt(a, b, k)
  }

  ghost predicate DictionaryLessAt(a: seq<int>, b: seq<int>, k: nat) {
    k <= |a| && k < |b| && a[..k] == b[..k] && (k == |a| || a[k] < b[k])
  }

  ghost predicate Positive(text: seq<int>) {
    forall i :: 0 <= i < |text| ==> text[i] >= 1
  }

  ghost predicate NonNegative(text: seq<int>) {
    forall i :: 0 <= i < |text| ==> text[i] >= 0
  }

  /** sa lists the suffixes of text in strictly increasing order, each one exactly once. */
  ghost predicate IsSuffixArray(text: seq<int>, sa: seq<int>) {
    && |sa| == |text|
    && (forall k :: 0 <= k < |sa| ==> 0 <= sa[k] < |text|)
    && (forall k, l :: 0 <= k < l < |sa| ==> Less(text, sa[k], sa[l]))
    && (forall i :: 0 <= i < |text| ==> i in sa)
  }

  lemma {:induction false} LessIsDictionaryLess(text: seq<int>, i: nat, j: nat)
    requires i <= |text| && j <= |text|
    ensures Less(text, i, j) <==> DictionaryLess(text[i..], text[j..])
    decreases |text| - j
  {
    var a, b := text[i..], text[j..];
    if i == |text| || j == |text| {
      if j < |text| { assert DictionaryLessAt(a, b, 0); }
    } else {
      LessIsDictionaryLess(text, i + 1, j + 1);
      assert a == [text[i]] + text[i + 1..] && b == [text[j]] + text[j + 1..];
      if text[i] < text[j] { assert DictionaryLessAt(a, b, 0); }
      DictionaryLessCons(text[i], text[i + 1..], text[j], text[j + 1..]);
    }
  }

  lemma DictionaryLessTail(x: int, a: seq<int>, y: int, b: seq<int>, k: nat)
    requires k > 0 && DictionaryLessAt([x] + a, [y] + b, k)
    ensures x == y && DictionaryLessAt(a, b, k - 1)
  {
    var xa, yb := [x] + a, [y] + b;
    assert xa[..k] == [x] + a[..k - 1] && yb[..k] == [y] + b[..k - 1];
    assert xa[..k][0] == yb[..k][0];
    assert a[..k - 1] == xa[..k][1..] && b[..k - 1] == yb[..k][1..];
  }

  lemma DictionaryLessLonger(x: int, a: seq<int>, b: seq<int>, k: nat)
    requires DictionaryLessAt(a, b, k)
    ensures DictionaryLessAt([x] + a, [x] + b, k + 1)
  {
    assert ([x] + a)[..k + 1] == [x] + a[..k] && ([x] + b)[..k + 1] == [x] + b[..k];
  }

  lemma DictionaryLessCons(x: int, a: seq<int>, y: int, b: seq<int>)
    ensures DictionaryLess([x] + a, [y] + b) <==> x < y || (x == y && DictionaryLess(a, b))
  {
    if k: nat :| DictionaryLessAt([x] + a, [y] + b, k) {
      if k > 0 { DictionaryLessTail(x, a, y, b, k); }
    }
    if x < y { assert DictionaryLessAt([x] + a, [y] + b, 0); }
    if x == y && DictionaryLess(a, b) {
      var k: nat :| DictionaryLessAt(a, b, k);
      DictionaryLessLonger(x, a, b, k);
    }
  }

  lemma {:induction false} LessTransitive(text: seq<int>, i: nat, j: nat, k: nat)
    requires Less(text, i, j) && Less(text, j, k)
    ensures Less(text, i, k)
    decreases |text| - k
  {
    if i < |text| && text[i] == text[j] == text[k] {
      LessTransitive(text, i + 1, j + 1, k + 1);
    }
  }

  /** Of two different suffixes exactly one is smaller. */
  lemma {:induction false} LessTotal(text: seq<int>, i: nat, j: nat)
    requires i < |text| || j < |text|
    ensures i != j ==> (Less(text, i, j) <==> !Less(text, j, i))
    ensures i == j ==> !Less(text, i, j)
    decreases |text| - i
  {
    if i < |text| && j < |text| && text[i] == text[j] {
      if i + 1 < |text| || j + 1 < |text| {
        LessTotal(text, i + 1, j + 1);
      }
    }
  }

  lemma LessIrreflexive(text: seq<int>, i: nat)
    ensures !Less(text, i, i)
  {
    if i < |text| { LessTotal(text, i, i); }
  }

  /** The order of the triples at i and j. */
  ghost predicate TripleLess(text: seq<int>, i: nat, j: nat) {
    || At(text, i) < At(text, j)
    || (At(text, i) == At(text, j)
        && (|| At(text, i + 1) < At(text, j + 1)
            || (At(text, i + 1) == At(text, j + 1) && At(text, i + 2) < At(text, j + 2))))
  }

  ghost predicate TripleEq(text: seq<int>, i: nat, j: nat) {
    At(text, i) == At(text, j) && At(text, i + 1) == At(text, j + 1) && At(text, i + 2) == At(text, j + 2)
  }

  /**
   * Where the zero-padded triples differ they decide; full triples that are equal leave it to what follows them; of two
   * equal triples one of which runs past the end, the later one starts the smaller suffix.
   */
  lemma LessByTriples(text: seq<int>, i: nat, j: nat)
    requires NonNegative(text) && i <= |text| && j <= |text|
    ensures Less(text, i, j) <==>
            || TripleLess(text, i, j)
            || (TripleEq(text, i, j)
                && if i + 2 < |text| && j + 2 < |text| then Less(text, i + 3, j + 3) else i > j)
  {
    LessStep(text, i, j);
    LessStep(text, i + 1, j + 1);
    LessStep(text, i + 2, j + 2);
  }

  /** One step of the comparison, on the zero-padded text that the algorithm reads. */
  lemma LessStep(text: seq<int>, i: nat, j: nat)
    requires NonNegative(text)
    ensures i < |text| && j < |text| ==>
              (Less(text, i, j) <==>
               At(text, i) < At(text, j) || (At(text, i) == At(text, j) && Less(text, i + 1, j + 1)))
    ensures i >= |text| || j >= |text| ==> At(text, i) == 0 || At(text, j) == 0
  {
  }

  /** A text has one suffix array only. */
  lemma {:induction false} SuffixArrayUnique(text: seq<int>, a: seq<int>, b: seq<int>)
    requires IsSuffixArray(text, a) && IsSuffixArray(text, b)
    ensures a == b
  {
    forall k | 0 <= k < |a| ensures a[k] == b[k] {
      UniqueAt(text, a, b, k);
    }
  }

  lemma {:induction false} UniqueAt(text: seq<int>, a: seq<int>, b: seq<int>, k: nat)
    requires IsSuffixArray(text, a) && IsSuffixArray(text, b) && k < |a|
    ensures a[k] == b[k]
    ensures a[..k] == b[..k]
    decreases k
  {
    if k > 0 { UniqueAt(text, a, b, k - 1); }
    assert a[k] in b && b[k] in a;
    var l :| 0 <= l < |b| && b[l] == a[k];
    var m :| 0 <= m < |a| && a[m] == b[k];
    if l < k {
      assert a[l] == b[l];
      LessIrreflexive(text, a[k]);
      assert false;
    }
    if m < k {
      assert b[m] == a[m];
      LessIrreflexive(text, b[k]);
      assert false;
    }
    if l > k && m > k {
      assert Less(text, b[k], b[l]) && Less(text, a[k], a[m]);
      LessTotal(text, a[k], b[k]);
      assert false;
    }
  }
}
