/**
 * The command's pipeline: tokenize the input, count the tokens that are at
 * least `minLen` bytes long, drain the map into `(word, count)` entries,
 * sort them in the chosen order, keep the first `top` (0 keeps all), and
 * print the table.
 *
 * `Pipeline` is the specification of the entry sequence; `Run` follows
 * `main` step by step and is proved to produce exactly `Pipeline`'s
 * entries, whatever order the map is drained in, and to print the table
 * layout of `render_table` with its own placeholder for an empty result.
 * Reading the input, parsing the arguments and JSON output are outside
 * this model: the input text and the settings are parameters.
 */
module WordFreq {
  import opened Chars
  import opened Tokenizer
  import opened Freq
  import opened Sort
  import opened Output

  // ---------------------------------------------------------------------
  // The length filter, applied per occurrence inside the counting loop.

  /** The tokens of at least `minLen` bytes, in order. */
  function LongEnough(tokens: seq<string>, minLen: nat): seq<string> {
    if tokens == [] then []
    else
      var last := tokens[|tokens| - 1];
      LongEnough(tokens[..|tokens| - 1], minLen) + (if ByteLen(last) >= minLen then [last] else [])
  }

  /** The filter keeps every occurrence of a long enough word and none of a short one. */
  lemma {:induction false} LongEnoughOccurrences(tokens: seq<string>, minLen: nat)
    ensures forall w :: multiset(LongEnough(tokens, minLen))[w]
                        == if ByteLen(w) >= minLen then multiset(tokens)[w] else 0
  {
    if tokens != [] {
      var init, last := tokens[..|tokens| - 1], tokens[|tokens| - 1];
      LongEnoughOccurrences(init, minLen);
      assert tokens == init + [last];
    }
  }

  /** One more token extends the filtered sequence by that token iff it is long enough. */
  lemma LongEnoughSnoc(tokens: seq<string>, i: nat, minLen: nat)
    requires i < |tokens|
    ensures LongEnough(tokens[..i + 1], minLen)
            == if ByteLen(tokens[i]) >= minLen then LongEnough(tokens[..i], minLen) + [tokens[i]]
               else LongEnough(tokens[..i], minLen)
  {
    assert tokens[..i + 1][..i] == tokens[..i];
  }

  /** With `minLen <= 1` the filter keeps every token, since tokens are never empty. */
  lemma {:induction false} ShortMinLenKeepsAll(tokens: seq<string>, minLen: nat)
    requires minLen <= 1
    requires forall k :: 0 <= k < |tokens| ==> tokens[k] != []
    ensures LongEnough(tokens, minLen) == tokens
  {
    if tokens != [] {
      var init := tokens[..|tokens| - 1];
      ShortMinLenKeepsAll(init, minLen);
      NonEmptyByteLen(tokens[|tokens| - 1]);
      assert tokens == init + [tokens[|tokens| - 1]];
    }
  }

  /** The map the counting loop of `main` builds. */
  function FilteredCounts(input: string, ignoreCase: bool, minLen: nat): map<string, nat> {
    Frequencies(LongEnough(Tokenize(input, ignoreCase), minLen))
  }

  /**
   * A word is counted iff it is a token of at least `minLen` bytes, and
   * then with all of its occurrences: filtering never splits a count.
   */
  lemma FilteredCountsMeaning(input: string, ignoreCase: bool, minLen: nat)
    ensures var tokens := Tokenize(input, ignoreCase);
            var counts := FilteredCounts(input, ignoreCase, minLen);
            && (forall w :: w in counts <==> w in tokens && ByteLen(w) >= minLen)
            && (forall w :: w in counts ==> counts[w] == multiset(tokens)[w])
  {
    var tokens := Tokenize(input, ignoreCase);
    var kept := LongEnough(tokens, minLen);
    FrequenciesAreOccurrences(kept);
    LongEnoughOccurrences(tokens, minLen);
    forall w ensures w in kept <==> w in tokens && ByteLen(w) >= minLen {
      assert w in kept <==> multiset(kept)[w] > 0;
      assert w in tokens <==> multiset(tokens)[w] > 0;
    }
  }

  /**
   * Before any filtering, the counts add up to the number of maximal
   * alphabetic runs of the input.
   */
  lemma CountsAddUpToRuns(input: string, ignoreCase: bool)
    ensures Total(Frequencies(Tokenize(input, ignoreCase))) == |Spans(input)|
  {
    FrequenciesTotal(Tokenize(input, ignoreCase));
    TokensAreRuns(input, ignoreCase);
  }

  // ---------------------------------------------------------------------
  // Draining, sorting and truncating.

  /** The pairs of a map in some order, as `HashMap::into_iter` yields them. */
  ghost function Drain(m: map<string, nat>): (entries: seq<Entry>)
    ensures DistinctWords(entries)
    ensures forall e :: e in entries <==> e.word in m && e.count == m[e.word]
    decreases |m|
  {
    if m == map[] then []
    else
      var k :| k in m;
      assert (m - {k}).Keys == m.Keys - {k};
      assert |m - {k}| < |m|;
      var rest := Drain(m - {k});
      assert forall e :: e in rest ==> e.word != k;
      [Entry(k, m[k])] + rest
  }

  /** `if top > 0 && top < entries.len() { entries.truncate(top) }` */
  function Truncate(entries: seq<Entry>, top: nat): seq<Entry> {
    if 0 < top < |entries| then entries[..top] else entries
  }

  /**
   * Truncation keeps a prefix: exactly `top` entries when `0 < top < len`,
   * all of them otherwise. It never reorders.
   */
  lemma TruncateIsPrefix(entries: seq<Entry>, top: nat)
    ensures |Truncate(entries, top)| == if 0 < top < |entries| then top else |entries|
    ensures Truncate(entries, top) == entries[..|Truncate(entries, top)|]
  {
  }

  /** The entries `main` ends up with. */
  ghost function Pipeline(input: string, ignoreCase: bool, minLen: nat, top: nat, mode: SortMode): seq<Entry> {
    Truncate(SortedSeq(mode, Drain(FilteredCounts(input, ignoreCase, minLen))), top)
  }

  /**
   * The result is a prefix of the sorted entries; the sorted entries are
   * in the order of `mode`, have distinct words, and hold exactly the
   * tokens of at least `minLen` bytes, each with its full number of occurrences.
   */
  lemma PipelineMeaning(input: string, ignoreCase: bool, minLen: nat, top: nat, mode: SortMode)
    ensures var tokens := Tokenize(input, ignoreCase);
            var sorted := SortedSeq(mode, Drain(FilteredCounts(input, ignoreCase, minLen)));
            var result := Pipeline(input, ignoreCase, minLen, top, mode);
            && IsSorted(mode, sorted)
            && DistinctWords(sorted)
            && (forall e :: e in sorted <==>
                  e.word in tokens && ByteLen(e.word) >= minLen && e.count == multiset(tokens)[e.word])
            && result == sorted[..|result|]
            && |result| == (if 0 < top < |sorted| then top else |sorted|)
  {
    var tokens := Tokenize(input, ignoreCase);
    var drained := Drain(FilteredCounts(input, ignoreCase, minLen));
    var sorted := SortedSeq(mode, drained);
    SortedSeqCorrect(mode, drained);
    DistinctWordsPermutation(drained, sorted);
    FilteredCountsMeaning(input, ignoreCase, minLen);
    forall e ensures e in sorted <==> e in drained {
      assert e in sorted <==> e in multiset(sorted);
      assert e in drained <==> e in multiset(drained);
    }
    TruncateIsPrefix(sorted, top);
  }

  /**
   * The words of the result contain no line break, so the printed table
   * splits back into a header, a separator and one row per result entry.
   */
  lemma PipelineTableLayout(input: string, ignoreCase: bool, minLen: nat, top: nat, mode: SortMode)
    ensures var entries := Pipeline(input, ignoreCase, minLen, top, mode);
            entries != [] ==>
              var lines := SplitLines(TableText(entries));
              var width := MaxWordLen(entries);
              && |lines| == |entries| + 2
              && lines[0] == PadRight("WORD", width) + " COUNT"
              && lines[1] == Repeat('-', width) + " -----"
              && forall i :: 0 <= i < |entries| ==>
                   lines[i + 2] == PadRight(entries[i].word, width) + " " + Decimal(entries[i].count)
  {
    var entries := Pipeline(input, ignoreCase, minLen, top, mode);
    if entries != [] {
      PipelineWordsHaveNoNewline(input, ignoreCase, minLen, top, mode);
      TableLayout(entries);
    }
  }

  lemma PipelineWordsHaveNoNewline(input: string, ignoreCase: bool, minLen: nat, top: nat, mode: SortMode)
    ensures var entries := Pipeline(input, ignoreCase, minLen, top, mode);
            forall i :: 0 <= i < |entries| ==> NoNewline(entries[i].word)
  {
    var tokens := Tokenize(input, ignoreCase);
    var entries := Pipeline(input, ignoreCase, minLen, top, mode);
    var sorted := SortedSeq(mode, Drain(FilteredCounts(input, ignoreCase, minLen)));
    PipelineMeaning(input, ignoreCase, minLen, top, mode);
    TokensHaveNoNewline(input, ignoreCase);
    forall i | 0 <= i < |entries| ensures NoNewline(entries[i].word) {
      assert entries[i] == sorted[i];
      assert sorted[i] in sorted;
      var k :| 0 <= k < |tokens| && tokens[k] == entries[i].word;
    }
  }

  /** With `minLen <= 1` every token is counted. */
  lemma ShortMinLenCountsAll(input: string, ignoreCase: bool, minLen: nat)
    requires minLen <= 1
    ensures FilteredCounts(input, ignoreCase, minLen) == Frequencies(Tokenize(input, ignoreCase))
  {
    ShortMinLenKeepsAll(Tokenize(input, ignoreCase), minLen);
  }

  // ---------------------------------------------------------------------
  // The imperative pipeline.

  const NoWords: string := "(no words)\n"

  /** The counting loop of `main`: bump a token's entry only when it is at least `minLen` bytes long. */
  method CountLong(tokens: seq<string>, minLen: nat) returns (counts: map<string, nat>)
    ensures counts == Frequencies(LongEnough(tokens, minLen))
  {
    counts := map[];
    var i := 0;
    while i < |tokens|
      invariant 0 <= i <= |tokens|
      invariant counts == Frequencies(LongEnough(tokens[..i], minLen))
    {
      var word := tokens[i];
      LongEnoughSnoc(tokens, i, minLen);
      if ByteLen(word) >= minLen {
        FrequenciesSnoc(LongEnough(tokens[..i], minLen), word);
        counts := Bump(counts, word);
      }
      i := i + 1;
    }
    assert tokens[..i] == tokens;
  }

  /** `counts.into_iter().collect()`: every pair once, in whatever order the map yields them. */
  method Collect(counts: map<string, nat>) returns (drained: seq<Entry>)
    ensures DistinctWords(drained)
    ensures forall e :: e in drained <==> e.word in counts && e.count == counts[e.word]
  {
    drained := [];
    var rest := counts;
    while rest != map[]
      invariant rest.Keys <= counts.Keys
      invariant forall w :: w in rest ==> rest[w] == counts[w]
      invariant forall e :: e in drained <==> e.word in counts && e.word !in rest && e.count == counts[e.word]
      invariant DistinctWords(drained)
      decreases |rest|
    {
      var w :| w in rest;
      assert (rest - {w}).Keys == rest.Keys - {w};
      assert |rest - {w}| < |rest|;
      drained := drained + [Entry(w, rest[w])];
      rest := rest - {w};
    }
  }

  /**
   * The sort dispatch of `main`, in place on the collected vector. Whatever
   * order the map was drained in, the words are distinct, so the result is
   * the one sorted sequence of those entries.
   */
  method SortEntries(drained: seq<Entry>, ghost counts: map<string, nat>, mode: SortMode) returns (entries: seq<Entry>)
    requires DistinctWords(drained)
    requires forall e :: e in drained <==> e.word in counts && e.count == counts[e.word]
    ensures entries == SortedSeq(mode, Drain(counts))
  {
    var a := new Entry[|drained|](k => if 0 <= k < |drained| then drained[k] else Entry([], 0));
    assert a[..] == drained;
    match mode {
      case ByCount => SortByCountThenAlpha(a);
      case ByWord => SortAlpha(a);
    }
    SameEntriesSameMultiset(drained, Drain(counts));
    SortedSeqCorrect(mode, Drain(counts));
    DistinctWordsPermutation(drained, a[..]);
    SortedPermutationUnique(mode, a[..], SortedSeq(mode, Drain(counts)));
    entries := a[..];
  }

  /**
   * `main` after the input is read: count with the length filter, collect
   * the map (in any order), sort, truncate, and print the table line by
   * line (`println!` ends every line with a newline), or "(no words)".
   */
  method Run(input: string, ignoreCase: bool, minLen: nat, top: nat, mode: SortMode)
    returns (entries: seq<Entry>, out: string)
    ensures entries == Pipeline(input, ignoreCase, minLen, top, mode)
    ensures entries == [] ==> out == "(no words)\n"
    ensures entries != [] ==> out == TableText(entries)
  {
    var tokens := Tokenize(input, ignoreCase);
    var counts := CountLong(tokens, minLen);
    var drained := Collect(counts);
    entries := SortEntries(drained, counts, mode);
    if top > 0 && top < |entries| {
      entries := entries[..top];
    }
    if entries == [] {
      out := NoWords;
    } else {
      out := RenderTable(entries);
    }
  }

  /** Two sequences of entries with distinct words and the same elements are permutations of each other. */
  lemma SameEntriesSameMultiset(s: seq<Entry>, t: seq<Entry>)
    requires DistinctWords(s) && DistinctWords(t)
    requires forall e :: e in s <==> e in t
    ensures multiset(s) == multiset(t)
  {
    forall e ensures multiset(s)[e] == multiset(t)[e] {
      if e in s {
        var p :| 0 <= p < |s| && s[p] == e;
        var q :| 0 <= q < |t| && t[q] == e;
        DistinctCount(s, p);
        DistinctCount(t, q);
      }
    }
  }

  // ---------------------------------------------------------------------
  // Examples from the documentation and the smoke test.

  /**
   * Three words separated by single non-letters: `s[..i]`, `s[i+1..j]`
   * and `s[j+1..]` are its tokens.
   */
  lemma ThreeWords(s: string, i: nat, j: nat, ignoreCase: bool)
    requires i < j < |s| && !IsAlpha(s[i]) && !IsAlpha(s[j])
    requires IsWord(s[..i]) && IsWord(s[i + 1..j]) && IsWord(s[j + 1..])
    ensures Tokenize(s, ignoreCase)
            == [Normalize(s[..i], ignoreCase), Normalize(s[i + 1..j], ignoreCase), Normalize(s[j + 1..], ignoreCase)]
  {
    var rest := s[i + 1..];
    assert rest[..j - i - 1] == s[i + 1..j] && rest[j - i..] == s[j + 1..];
    TokenizeWordThen(s, i, ignoreCase);
    TokenizeWordThen(rest, j - i - 1, ignoreCase);
    TokenizeWord(s[j + 1..], ignoreCase);
  }

  /** `s` followed by one non-letter has the tokens of `s`. */
  lemma TrailingSeparator(s: string, c: char, ignoreCase: bool)
    requires !IsAlpha(c)
    ensures Tokenize(s + [c], ignoreCase) == Tokenize(s, ignoreCase)
  {
    NoLettersNoTokens([], ignoreCase);
    TokenizeConcat(s, c, [], ignoreCase);
    assert s + [c] + [] == s + [c];
  }

  lemma CountExampleTokens(input: string)
    requires input == "a a b"
    ensures Tokenize(input, true) == ["a", "a", "b"]
  {
    ThreeWords(input, 1, 3, true);
    assert input[..1] == "a" && input[2..3] == "a" && input[4..] == "b";
    ToLowerKeepsLower(input[..1]);
    ToLowerKeepsLower(input[4..]);
  }

  lemma CountExampleCounts(tokens: seq<string>)
    requires tokens == ["a", "a", "b"]
    ensures Frequencies(tokens) == map["a" := 2, "b" := 1]
  {
    FrequenciesAreOccurrences(tokens);
    assert multiset(tokens)["a"] == 2;
    assert multiset(tokens)["b"] == 1;
  }

  /** `"a a b"` counts a -> 2 and b -> 1. */
  lemma CountExample(input: string)
    requires input == "a a b"
    ensures Frequencies(Tokenize(input, true)) == map["a" := 2, "b" := 1]
  {
    CountExampleTokens(input);
    CountExampleCounts(Tokenize(input, true));
  }

  lemma CaseFoldingWords(s: string)
    requires s == "Rust rust RUST"
    ensures Tokenize(s, true) == ["rust", "rust", "rust"]
  {
    assert s[..4] == "Rust" && s[5..9] == "rust" && s[10..] == "RUST";
    ThreeWords(s, 4, 9, true);
    RustFolds(s[..4]);
    RustFolds(s[5..9]);
    RustFolds(s[10..]);
  }

  lemma CaseFoldingTokens(input: string)
    requires input == "Rust rust RUST!"
    ensures Tokenize(input, true) == ["rust", "rust", "rust"]
  {
    var s := input[..14];
    assert input == s + [input[14]];
    TrailingSeparator(s, input[14], true);
    CaseFoldingWords(s);
  }

  lemma RustFolds(w: string)
    requires w == "Rust" || w == "rust" || w == "RUST"
    ensures ToLower(w) == "rust"
  {
    forall k | 0 <= k < 4 ensures ToLower(w)[k] == "rust"[k] {
    }
  }

  lemma CaseFoldingCounts(tokens: seq<string>)
    requires tokens == ["rust", "rust", "rust"]
    ensures Frequencies(tokens) == map["rust" := 3]
  {
    FrequenciesAreOccurrences(tokens);
    assert multiset(tokens)["rust"] == 3;
  }

  /** `"Rust rust RUST!"` with case folding counts rust -> 3. */
  lemma CaseFoldingExample(input: string)
    requires input == "Rust rust RUST!"
    ensures Frequencies(Tokenize(input, true)) == map["rust" := 3]
  {
    CaseFoldingTokens(input);
    CaseFoldingCounts(Tokenize(input, true));
  }

  /** Three lower-case words of three letters, separated by spaces. */
  lemma SmokeThird(s: string)
    requires |s| == 11 && s[3] == ' ' && s[7] == ' '
    requires IsLowerAscii(s[..3]) && IsLowerAscii(s[4..7]) && IsLowerAscii(s[8..])
    ensures Tokenize(s, true) == [s[..3], s[4..7], s[8..]]
  {
    ThreeWords(s, 3, 7, true);
    ToLowerKeepsLower(s[..3]);
    ToLowerKeepsLower(s[4..7]);
    ToLowerKeepsLower(s[8..]);
  }

  /** The two space-separated halves of the smoke test's input. */
  lemma SmokeHalf(s: string, words: seq<string>)
    requires || (s == "foo bar foo" && words == ["foo", "bar", "foo"])
             || (s == "baz foo qux" && words == ["baz", "foo", "qux"])
    ensures Tokenize(s, true) == words
  {
    SmokeThird(s);
    if s == "foo bar foo" {
      assert s[..3] == "foo" && s[4..7] == "bar" && s[8..] == "foo";
    } else {
      assert s[..3] == "baz" && s[4..7] == "foo" && s[8..] == "qux";
    }
  }

  lemma SmokeSecondHalf(b: string)
    requires b == "baz foo qux\n"
    ensures Tokenize(b, true) == ["baz", "foo", "qux"]
  {
    var c := b[..11];
    assert b == c + [b[11]];
    TrailingSeparator(c, b[11], true);
    SmokeHalf(c, ["baz", "foo", "qux"]);
  }

  lemma SmokeTokens(input: string)
    requires input == "foo bar foo baz foo qux\n"
    ensures Tokenize(input, true) == ["foo", "bar", "foo"] + ["baz", "foo", "qux"]
  {
    var a, b := input[..11], input[12..];
    SmokeHalf(a, ["foo", "bar", "foo"]);
    SmokeSecondHalf(b);
    assert input == a + [input[11]] + b;
    TokenizeConcat(a, input[11], b, true);
  }

  lemma SmokeOccurrences(t1: seq<string>, t2: seq<string>)
    requires t1 == ["foo", "bar", "foo"] && t2 == ["baz", "foo", "qux"]
    ensures "foo" in t1 + t2 && multiset(t1 + t2)["foo"] == 3
    ensures forall w :: w in t1 + t2 && w != "foo" ==> multiset(t1 + t2)[w] == 1
  {
    assert multiset(t1 + t2) == multiset(t1) + multiset(t2);
    assert multiset(t1) == multiset{"foo", "foo", "bar"};
    assert multiset(t2) == multiset{"foo", "baz", "qux"};
    forall w | w in t1 + t2 && w != "foo" ensures multiset(t1 + t2)[w] == 1 {
      assert w in t1 || w in t2;
    }
  }

  /** The smoke test's input with the default settings puts foo, counted 3 times, first. */
  lemma SmokeTest(input: string)
    requires input == "foo bar foo baz foo qux\n"
    ensures var result := Pipeline(input, true, 1, 0, ByCount);
            result != [] && result[0] == Entry("foo", 3)
  {
    SmokeTokens(input);
    SmokeOccurrences(["foo", "bar", "foo"], ["baz", "foo", "qux"]);
    PipelineMeaning(input, true, 1, 0, ByCount);
    var sorted := SortedSeq(ByCount, Drain(FilteredCounts(input, true, 1)));
    var foo := Entry("foo", 3);
    assert foo in sorted;
    assert sorted[0] in sorted;
  }
}
