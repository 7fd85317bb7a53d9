/**
 * The two orderings of `(word, count)` entries and the in-place sort that
 * imposes them.
 *
 * Words compare like Rust `String`s: lexicographically by UTF-8 byte, which
 * is the same as lexicographically by code point, so the model compares
 * `char`s. `Precedes(mode, x, y)` holds when the source's comparator does
 * not answer `Greater` for `(x, y)`, i.e. when `x` may stand before `y`.
 */
module Sort {

  /** One row of the frequency report. */
  datatype Entry = Entry(word: string, count: nat)

  /** The two orders: count descending then word ascending, or word ascending only. */
  datatype SortMode = ByCount | ByWord

  // ---------------------------------------------------------------------
  // Lexicographic order on words.

  /** `a <= b` in `String` order. */
  predicate LexLe(a: string, b: string) {
    a == [] || (b != [] && (a[0] < b[0] || (a[0] == b[0] && LexLe(a[1..], b[1..]))))
  }

  lemma {:induction false} LexLeReflexive(a: string)
    ensures LexLe(a, a)
  {
    if a != [] {
      LexLeReflexive(a[1..]);
    }
  }

  lemma {:induction false} LexLeTotal(a: string, b: string)
    ensures LexLe(a, b) || LexLe(b, a)
  {
    if a != [] && b != [] && a[0] == b[0] {
      LexLeTotal(a[1..], b[1..]);
    }
  }

  lemma {:induction false} LexLeAntisymmetric(a: string, b: string)
    requires LexLe(a, b) && LexLe(b, a)
    ensures a == b
  {
    if a != [] && b != [] {
      LexLeAntisymmetric(a[1..], b[1..]);
      assert a == [a[0]] + a[1..];
      assert b == [b[0]] + b[1..];
    }
  }

  lemma {:induction false} LexLeTransitive(a: string, b: string, c: string)
    requires LexLe(a, b) && LexLe(b, c)
    ensures LexLe(a, c)
  {
    if a != [] && a[0] == b[0] && b[0] == c[0] {
      LexLeTransitive(a[1..], b[1..], c[1..]);
    }
  }

  // ---------------------------------------------------------------------
  // The entry orders.

  /** `x` may stand before `y`: the comparator of the mode does not say `Greater`. */
  predicate Precedes(mode: SortMode, x: Entry, y: Entry) {
    match mode
    case ByCount => x.count > y.count || (x.count == y.count && LexLe(x.word, y.word))
    case ByWord => LexLe(x.word, y.word)
  }

  lemma PrecedesReflexive(mode: SortMode, x: Entry)
    ensures Precedes(mode, x, x)
  {
    LexLeReflexive(x.word);
  }

  lemma PrecedesTotal(mode: SortMode, x: Entry, y: Entry)
    ensures Precedes(mode, x, y) || Precedes(mode, y, x)
  {
    LexLeTotal(x.word, y.word);
  }

  lemma PrecedesTransitive(mode: SortMode, x: Entry, y: Entry, z: Entry)
    requires Precedes(mode, x, y) && Precedes(mode, y, z)
    ensures Precedes(mode, x, z)
  {
    if x.word != [] {
      if LexLe(x.word, y.word) && LexLe(y.word, z.word) {
        LexLeTransitive(x.word, y.word, z.word);
      }
    }
  }

  /**
   * Entries that precede each other both ways are identical under the
   * count order, and share their word under the word order.
   */
  lemma PrecedesAntisymmetric(mode: SortMode, x: Entry, y: Entry)
    requires Precedes(mode, x, y) && Precedes(mode, y, x)
    ensures x.word == y.word
    ensures mode == ByCount ==> x == y
  {
    LexLeAntisymmetric(x.word, y.word);
  }

  /** Every earlier entry may stand before every later one. */
  ghost predicate IsSorted(mode: SortMode, s: seq<Entry>) {
    forall i, j :: 0 <= i < j < |s| ==> Precedes(mode, s[i], s[j])
  }

  /** No word occurs twice, as in entries drained from a map. */
  ghost predicate DistinctWords(s: seq<Entry>) {
    forall i, j :: 0 <= i < j < |s| ==> s[i].word != s[j].word
  }

  /**
   * Sortedness is a property of adjacent pairs: for the count order, each
   * entry has a larger count than the next, or the same count and a word
   * that is not greater.
   */
  lemma {:induction false} SortedIffAdjacent(mode: SortMode, s: seq<Entry>)
    ensures IsSorted(mode, s) <==> forall i :: 0 <= i < |s| - 1 ==> Precedes(mode, s[i], s[i + 1])
  {
    if forall i :: 0 <= i < |s| - 1 ==> Precedes(mode, s[i], s[i + 1]) {
      forall i, j | 0 <= i < j < |s| ensures Precedes(mode, s[i], s[j]) {
        AdjacentChain(mode, s, i, j);
      }
    }
  }

  lemma {:induction false} AdjacentChain(mode: SortMode, s: seq<Entry>, i: int, j: int)
    requires 0 <= i < j < |s|
    requires forall k :: 0 <= k < |s| - 1 ==> Precedes(mode, s[k], s[k + 1])
    ensures Precedes(mode, s[i], s[j])
    decreases j - i
  {
    if i + 1 < j {
      AdjacentChain(mode, s, i + 1, j);
      PrecedesTransitive(mode, s[i], s[i + 1], s[j]);
    }
  }

  // ---------------------------------------------------------------------
  // Reference sort: insertion into a sorted sequence.

  function Insert(mode: SortMode, x: Entry, s: seq<Entry>): seq<Entry> {
    if s == [] || Precedes(mode, x, s[0]) then [x] + s
    else [s[0]] + Insert(mode, x, s[1..])
  }

  function SortedSeq(mode: SortMode, s: seq<Entry>): seq<Entry> {
    if s == [] then [] else Insert(mode, s[0], SortedSeq(mode, s[1..]))
  }

  /** Insertion adds exactly one entry. */
  lemma {:induction false} InsertPermutation(mode: SortMode, x: Entry, s: seq<Entry>)
    ensures multiset(Insert(mode, x, s)) == multiset(s) + multiset{x}
  {
    if s != [] && !Precedes(mode, x, s[0]) {
      assert s == [s[0]] + s[1..];
      InsertPermutation(mode, x, s[1..]);
    }
  }

  /** Insertion into a sorted sequence keeps it sorted. */
  lemma {:induction false} InsertSorted(mode: SortMode, x: Entry, s: seq<Entry>)
    requires IsSorted(mode, s)
    ensures IsSorted(mode, Insert(mode, x, s))
  {
    if s == [] {
    } else if Precedes(mode, x, s[0]) {
      forall j | 0 < j < |s| ensures Precedes(mode, x, s[j]) {
        PrecedesTransitive(mode, x, s[0], s[j]);
      }
    } else {
      InsertSorted(mode, x, s[1..]);
      InsertBehind(mode, x, s);
    }
  }

  /** When `x` goes behind the head, the head precedes everything inserted after it. */
  lemma InsertBehind(mode: SortMode, x: Entry, s: seq<Entry>)
    requires s != [] && !Precedes(mode, x, s[0])
    requires IsSorted(mode, s)
    requires IsSorted(mode, Insert(mode, x, s[1..]))
    ensures IsSorted(mode, Insert(mode, x, s))
  {
    var rest := Insert(mode, x, s[1..]);
    HeadPrecedesInserted(mode, x, s);
    ConsSorted(mode, s[0], rest);
  }

  lemma HeadPrecedesInserted(mode: SortMode, x: Entry, s: seq<Entry>)
    requires s != [] && !Precedes(mode, x, s[0])
    requires IsSorted(mode, s)
    ensures forall j :: 0 <= j < |Insert(mode, x, s[1..])| ==> Precedes(mode, s[0], Insert(mode, x, s[1..])[j])
  {
    PrecedesTotal(mode, x, s[0]);
    InsertPermutation(mode, x, s[1..]);
    var rest := Insert(mode, x, s[1..]);
    forall j | 0 <= j < |rest| ensures Precedes(mode, s[0], rest[j]) {
      assert rest[j] in multiset(s[1..]) + multiset{x};
      if rest[j] != x {
        var k :| 0 <= k < |s[1..]| && s[1..][k] == rest[j];
        assert s[k + 1] == rest[j];
      }
    }
  }

  /** A head that precedes every entry of a sorted tail makes a sorted sequence. */
  lemma ConsSorted(mode: SortMode, h: Entry, rest: seq<Entry>)
    requires IsSorted(mode, rest)
    requires forall j :: 0 <= j < |rest| ==> Precedes(mode, h, rest[j])
    ensures IsSorted(mode, [h] + rest)
  {
    var r := [h] + rest;
    forall i, j | 0 <= i < j < |r| ensures Precedes(mode, r[i], r[j]) {
      assert r[j] == rest[j - 1];
      if i > 0 {
        assert r[i] == rest[i - 1];
      }
    }
  }

  /** The reference sort returns a sorted permutation of its input. */
  lemma {:induction false} SortedSeqCorrect(mode: SortMode, s: seq<Entry>)
    ensures multiset(SortedSeq(mode, s)) == multiset(s)
    ensures IsSorted(mode, SortedSeq(mode, s))
  {
    if s != [] {
      SortedSeqCorrect(mode, s[1..]);
      InsertPermutation(mode, s[0], SortedSeq(mode, s[1..]));
      InsertSorted(mode, s[0], SortedSeq(mode, s[1..]));
      assert s == [s[0]] + s[1..];
    }
  }

  /**
   * The order fixes the result: two sorted permutations of one multiset are
   * equal, always under the count order (its comparator ties only identical
   * entries) and under the word order when words are distinct. So the
   * output never depends on the order the entries arrived in.
   */
  lemma {:induction false} SortedPermutationUnique(mode: SortMode, a: seq<Entry>, b: seq<Entry>)
    requires IsSorted(mode, a) && IsSorted(mode, b)
    requires multiset(a) == multiset(b)
    requires mode == ByWord ==> DistinctWords(a)
    ensures a == b
  {
    if a == [] {
      assert |b| == |multiset(b)|;
    } else {
      SortedHeadsEqual(mode, a, b);
      TailsPermutation(a, b);
      SortedPermutationUnique(mode, a[1..], b[1..]);
      assert a == [a[0]] + a[1..];
      assert b == [b[0]] + b[1..];
    }
  }

  /** Two sorted permutations of a non-empty multiset start with the same entry. */
  lemma SortedHeadsEqual(mode: SortMode, a: seq<Entry>, b: seq<Entry>)
    requires a != []
    requires IsSorted(mode, a) && IsSorted(mode, b)
    requires multiset(a) == multiset(b)
    requires mode == ByWord ==> DistinctWords(a)
    ensures b != [] && a[0] == b[0]
  {
    assert a[0] in multiset(b);
    var k :| 0 <= k < |b| && b[k] == a[0];
    assert b[0] in multiset(a);
    var m :| 0 <= m < |a| && a[m] == b[0];
    if k == 0 {
      PrecedesReflexive(mode, b[0]);
    }
    if m == 0 {
      PrecedesReflexive(mode, a[0]);
    }
    PrecedesAntisymmetric(mode, a[0], b[0]);
    if mode == ByWord {
      assert m == 0;
    }
  }

  /** Removing the same first entry from equal multisets leaves equal multisets. */
  lemma TailsPermutation(a: seq<Entry>, b: seq<Entry>)
    requires a != [] && b != [] && a[0] == b[0]
    requires multiset(a) == multiset(b)
    ensures multiset(a[1..]) == multiset(b[1..])
  {
    assert a == [a[0]] + a[1..];
    assert b == [b[0]] + b[1..];
    assert multiset(a[1..]) == multiset(a) - multiset{a[0]};
    assert multiset(b[1..]) == multiset(b) - multiset{b[0]};
  }

  /**
   * Sorting what is already sorted changes nothing, repeated words
   * included: the reference sort, like `sort_by`, is stable.
   */
  lemma {:induction false} SortedSeqIdempotent(mode: SortMode, s: seq<Entry>)
    requires IsSorted(mode, s)
    ensures SortedSeq(mode, s) == s
  {
    if s != [] {
      assert IsSorted(mode, s[1..]);
      SortedSeqIdempotent(mode, s[1..]);
      if |s| > 1 {
        assert Precedes(mode, s[0], s[1]);
      }
      assert s == [s[0]] + s[1..];
    }
  }

  /** The example of `sort_by_count_then_alpha`'s documentation. */
  lemma CountOrderExample()
    ensures SortedSeq(ByCount, [Entry("b", 2), Entry("a", 2), Entry("z", 1)])
            == [Entry("a", 2), Entry("b", 2), Entry("z", 1)]
  {
    var input := [Entry("b", 2), Entry("a", 2), Entry("z", 1)];
    var expected := [Entry("a", 2), Entry("b", 2), Entry("z", 1)];
    assert LexLe("a", "b");
    assert IsSorted(ByCount, expected);
    assert multiset(input) == multiset(expected);
    SortedSeqCorrect(ByCount, input);
    SortedPermutationUnique(ByCount, SortedSeq(ByCount, input), expected);
  }

  // ---------------------------------------------------------------------
  // The in-place sort.

  /**
   * `Vec::sort_by` with the comparator of `mode`, as a stable insertion sort:
   * each entry in turn is moved left past every entry the comparator puts after it.
   */
  method SortInPlace(a: array<Entry>, mode: SortMode)
    modifies a
    ensures IsSorted(mode, a[..])
    ensures multiset(a[..]) == multiset(old(a[..]))
    ensures IsSorted(mode, old(a[..])) ==> a[..] == old(a[..])
  {
    var i := 0;
    while i < a.Length
      invariant 0 <= i <= a.Length
      invariant forall p, q :: 0 <= p < q < i ==> Precedes(mode, a[p], a[q])
      invariant multiset(a[..]) == multiset(old(a[..]))
      invariant IsSorted(mode, old(a[..])) ==> a[..] == old(a[..])
    {
      InsertAt(a, mode, i);
      i := i + 1;
    }
  }

  /** Moves `a[i]` left into the sorted prefix `a[..i]`. */
  method InsertAt(a: array<Entry>, mode: SortMode, i: nat)
    requires i < a.Length
    requires forall p, q :: 0 <= p < q < i ==> Precedes(mode, a[p], a[q])
    modifies a
    ensures forall p, q :: 0 <= p < q <= i ==> Precedes(mode, a[p], a[q])
    ensures multiset(a[..i + 1]) == multiset(old(a[..i + 1]))
    ensures a[i + 1..] == old(a[i + 1..])
    ensures multiset(a[..]) == multiset(old(a[..]))
    ensures (forall p, q :: 0 <= p < q <= i ==> Precedes(mode, old(a[p]), old(a[q]))) ==> a[..] == old(a[..])
  {
    ghost var wasSorted := forall p, q :: 0 <= p < q <= i ==> Precedes(mode, a[p], a[q]);
    var j := i;
    while j > 0 && !Precedes(mode, a[j - 1], a[j])
      invariant 0 <= j <= i
      invariant forall p, q :: 0 <= p < q <= i && p != j && q != j ==> Precedes(mode, a[p], a[q])
      invariant forall q :: j < q <= i ==> Precedes(mode, a[j], a[q])
      invariant multiset(a[..]) == multiset(old(a[..]))
      invariant forall k :: i < k < a.Length ==> a[k] == old(a[k])
      invariant j == i ==> a[..] == old(a[..])
      invariant wasSorted ==> j == i
    {
      PrecedesTotal(mode, a[j - 1], a[j]);
      Swap(a, j - 1, j);
      j := j - 1;
    }
    InsertDone(mode, a[..], old(a[..]), i, j);
  }

  /** When the moved entry has stopped at `j`, the prefix up to `i` is sorted and the rest untouched. */
  lemma InsertDone(mode: SortMode, s: seq<Entry>, o: seq<Entry>, i: nat, j: nat)
    requires j <= i < |s| == |o|
    requires forall p, q :: 0 <= p < q <= i && p != j && q != j ==> Precedes(mode, s[p], s[q])
    requires forall q :: j < q <= i ==> Precedes(mode, s[j], s[q])
    requires j > 0 ==> Precedes(mode, s[j - 1], s[j])
    requires multiset(s) == multiset(o)
    requires forall k :: i < k < |s| ==> s[k] == o[k]
    ensures forall p, q :: 0 <= p < q <= i ==> Precedes(mode, s[p], s[q])
    ensures multiset(s[..i + 1]) == multiset(o[..i + 1])
    ensures s[i + 1..] == o[i + 1..]
  {
    forall p | 0 <= p < j ensures Precedes(mode, s[p], s[j]) {
      if p < j - 1 {
        PrecedesTransitive(mode, s[p], s[j - 1], s[j]);
      }
    }
    assert s[i + 1..] == o[i + 1..];
    PrefixPermutation(s, o, i + 1);
  }

  /** Permutations that agree after position `n` are permutations up to `n`. */
  lemma PrefixPermutation(x: seq<Entry>, y: seq<Entry>, n: nat)
    requires n <= |x| == |y|
    requires multiset(x) == multiset(y)
    requires x[n..] == y[n..]
    ensures multiset(x[..n]) == multiset(y[..n])
  {
    assert x == x[..n] + x[n..];
    assert y == y[..n] + y[n..];
    assert multiset(x) == multiset(x[..n]) + multiset(x[n..]);
    assert multiset(y) == multiset(y[..n]) + multiset(x[n..]);
    assert multiset(x[..n]) == multiset(x) - multiset(x[n..]);
  }

  /** Exchanges two neighbouring entries. */
  method Swap(a: array<Entry>, i: nat, j: nat)
    requires i < j < a.Length
    modifies a
    ensures a[i] == old(a[j]) && a[j] == old(a[i])
    ensures forall k :: 0 <= k < a.Length && k != i && k != j ==> a[k] == old(a[k])
    ensures multiset(a[..]) == multiset(old(a[..]))
  {
    a[i], a[j] := a[j], a[i];
  }

  /** `sort_by_count_then_alpha`: count descending, ties by word ascending. */
  method SortByCountThenAlpha(a: array<Entry>)
    modifies a
    ensures IsSorted(ByCount, a[..])
    ensures multiset(a[..]) == multiset(old(a[..]))
    ensures a[..] == SortedSeq(ByCount, old(a[..]))
  {
    SortInPlace(a, ByCount);
    SortedSeqCorrect(ByCount, old(a[..]));
    SortedPermutationUnique(ByCount, a[..], SortedSeq(ByCount, old(a[..])));
  }

  /** `sort_alpha`: word ascending; counts play no part in the order. */
  method SortAlpha(a: array<Entry>)
    modifies a
    ensures IsSorted(ByWord, a[..])
    ensures multiset(a[..]) == multiset(old(a[..]))
    ensures IsSorted(ByWord, old(a[..])) ==> a[..] == old(a[..])
    ensures DistinctWords(old(a[..])) ==> a[..] == SortedSeq(ByWord, old(a[..]))
  {
    SortInPlace(a, ByWord);
    if DistinctWords(old(a[..])) {
      SortedSeqCorrect(ByWord, old(a[..]));
      DistinctWordsPermutation(old(a[..]), a[..]);
      SortedPermutationUnique(ByWord, a[..], SortedSeq(ByWord, old(a[..])));
    }
  }

  /** Distinct words survive any permutation. */
  lemma DistinctWordsPermutation(s: seq<Entry>, t: seq<Entry>)
    requires DistinctWords(s)
    requires multiset(s) == multiset(t)
    ensures DistinctWords(t)
  {
    forall i, j | 0 <= i < j < |t| ensures t[i].word != t[j].word {
      if t[i].word == t[j].word {
        assert t[i] in multiset(s) && t[j] in multiset(s);
        var p :| 0 <= p < |s| && s[p] == t[i];
        var q :| 0 <= q < |s| && s[q] == t[j];
        assert p == q;
        MultisetTwice(t, i, j);
        DistinctCount(s, p);
        assert false;
      }
    }
  }

  /** An entry that occurs at two positions has multiplicity at least two. */
  lemma MultisetTwice(t: seq<Entry>, i: nat, j: nat)
    requires i < j < |t| && t[i] == t[j]
    ensures multiset(t)[t[i]] >= 2
  {
    assert t == t[..j] + [t[j]] + t[j + 1..];
    assert t[i] in t[..j];
  }

  /** An entry with a unique word occurs once. */
  lemma {:induction false} DistinctCount(s: seq<Entry>, p: nat)
    requires DistinctWords(s)
    requires p < |s|
    ensures multiset(s)[s[p]] == 1
  {
    var x := s[p];
    assert s == s[..p] + [x] + s[p + 1..];
    assert x !in s[..p] && x !in s[p + 1..] by {
      forall k | 0 <= k < |s| && k != p ensures s[k] != x {
      }
    }
  }
}
