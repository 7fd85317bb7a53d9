/**
 * The tokenizer: split the text on every non-alphabetic character, drop the
 * empty pieces, and lower-case each remaining piece when case is ignored.
 * Digits split words just like punctuation does (the split test is
 * "not alphabetic", not "not alphanumeric").
 *
 * `Tokenize` follows the iterator chain step by step (`Split`, `NonEmpty`,
 * then the case map). `Spans` is an independent scanner that lists the
 * maximal alphabetic runs of the text by position; the lemmas below show
 * that the tokens are exactly those runs, left to right.
 */
module Tokenizer {
  import opened Chars

  /**
   * The pieces `str::split` yields for the separator test `!is_alphabetic`:
   * one more piece than there are separators, empty pieces included.
   */
  function Split(s: string): (pieces: seq<string>)
    ensures |pieces| >= 1
  {
    if s == [] then [[]]
    else if !IsAlpha(s[0]) then [[]] + Split(s[1..])
    else
      var rest := Split(s[1..]);
      [[s[0]] + rest[0]] + rest[1..]
  }

  /** The number of non-alphabetic characters of `s`. */
  function Separators(s: string): nat {
    if s == [] then 0 else (if IsAlpha(s[0]) then 0 else 1) + Separators(s[1..])
  }

  /** `Split` yields one piece more than there are separators. */
  lemma {:induction false} SplitCount(s: string)
    ensures |Split(s)| == Separators(s) + 1
  {
    if s != [] {
      SplitCount(s[1..]);
    }
  }

  /** One step of `Split` on a text that starts with `x`. */
  lemma SplitCons(x: char, s: string)
    ensures Split([x] + s) == if IsAlpha(x) then [[x] + Split(s)[0]] + Split(s)[1..] else [[]] + Split(s)
  {
    assert ([x] + s)[1..] == s;
  }

  /** Keeps the non-empty pieces, in order. */
  function NonEmpty(pieces: seq<string>): (r: seq<string>)
    ensures forall k :: 0 <= k < |r| ==> r[k] != []
  {
    if pieces == [] then []
    else if pieces[0] == [] then NonEmpty(pieces[1..])
    else [pieces[0]] + NonEmpty(pieces[1..])
  }

  /** Lower-cases a token when case is ignored, keeps it otherwise. */
  function Normalize(word: string, ignoreCase: bool): (r: string)
    ensures |r| == |word|
  {
    if ignoreCase then ToLower(word) else word
  }

  /** The tokens of `input`, in input order. */
  function Tokenize(input: string, ignoreCase: bool): (tokens: seq<string>)
    ensures forall k :: 0 <= k < |tokens| ==> tokens[k] != []
  {
    var runs := NonEmpty(Split(input));
    seq(|runs|, i requires 0 <= i < |runs| => Normalize(runs[i], ignoreCase))
  }

  // ---------------------------------------------------------------------
  // Reference definition: maximal alphabetic runs by position.

  /** `s[i..j]` is alphabetic and cannot be extended on either side. */
  ghost predicate IsMaximalRun(s: string, i: int, j: int) {
    && 0 <= i < j <= |s|
    && (forall k :: i <= k < j ==> IsAlpha(s[k]))
    && (i == 0 || !IsAlpha(s[i - 1]))
    && (j == |s| || !IsAlpha(s[j]))
  }

  /** First position at or after `i` that is not alphabetic (or the end). */
  function RunEnd(s: string, i: nat): (j: nat)
    requires i <= |s|
    ensures i <= j <= |s|
    ensures forall k :: i <= k < j ==> IsAlpha(s[k])
    ensures j == |s| || !IsAlpha(s[j])
    decreases |s| - i
  {
    if i == |s| || !IsAlpha(s[i]) then i else RunEnd(s, i + 1)
  }

  /** The alphabetic runs of `s` that start at or after `i`, as `(start, end)` pairs. */
  function SpansFrom(s: string, i: nat): (spans: seq<(nat, nat)>)
    requires i <= |s|
    ensures forall k :: 0 <= k < |spans| ==> i <= spans[k].0 < spans[k].1 <= |s|
    decreases |s| - i
  {
    if i == |s| then []
    else if !IsAlpha(s[i]) then SpansFrom(s, i + 1)
    else
      var j := RunEnd(s, i);
      [(i, j)] + SpansFrom(s, j)
  }

  function Spans(s: string): seq<(nat, nat)> {
    SpansFrom(s, 0)
  }

  /** The text of each span. */
  function Slices(s: string, spans: seq<(nat, nat)>): (r: seq<string>)
    requires forall k :: 0 <= k < |spans| ==> spans[k].0 <= spans[k].1 <= |s|
    ensures |r| == |spans|
  {
    if spans == [] then [] else [s[spans[0].0..spans[0].1]] + Slices(s, spans[1..])
  }

  lemma {:induction false} SlicesIndex(s: string, spans: seq<(nat, nat)>)
    requires forall k :: 0 <= k < |spans| ==> spans[k].0 <= spans[k].1 <= |s|
    ensures forall k :: 0 <= k < |spans| ==> Slices(s, spans)[k] == s[spans[k].0..spans[k].1]
  {
    if spans != [] {
      SlicesIndex(s, spans[1..]);
    }
  }

  // ---------------------------------------------------------------------
  // The scanner lists exactly the maximal runs, in increasing order.

  /** Every span listed from a run boundary `i` is a maximal run, and the spans increase. */
  lemma {:induction false} SpansFromAreMaximal(s: string, i: nat)
    requires i <= |s|
    requires i == 0 || i == |s| || !IsAlpha(s[i - 1]) || !IsAlpha(s[i])
    ensures forall k :: 0 <= k < |SpansFrom(s, i)| ==>
              IsMaximalRun(s, SpansFrom(s, i)[k].0, SpansFrom(s, i)[k].1)
    ensures forall k :: 0 <= k < |SpansFrom(s, i)| - 1 ==>
              SpansFrom(s, i)[k].1 < SpansFrom(s, i)[k + 1].0
    decreases |s| - i
  {
    if i == |s| {
    } else if !IsAlpha(s[i]) {
      SpansFromAreMaximal(s, i + 1);
    } else {
      var j := RunEnd(s, i);
      var rest := SpansFrom(s, j);
      SpansFromAreMaximal(s, j);
      assert SpansFrom(s, i) == [(i, j)] + rest;
      if rest != [] {
        assert rest[0].0 > j by {
          if j < |s| {
            assert rest == SpansFrom(s, j + 1);
          }
        }
      }
    }
  }

  /** Every maximal run starting at or after `i` is listed. */
  lemma {:induction false} SpansFromAreComplete(s: string, i: nat)
    requires i <= |s|
    ensures forall a, b :: a >= i && IsMaximalRun(s, a, b) ==> (a, b) in SpansFrom(s, i)
    decreases |s| - i
  {
    if i == |s| {
    } else if !IsAlpha(s[i]) {
      SpansFromAreComplete(s, i + 1);
      forall a, b | a >= i && IsMaximalRun(s, a, b) ensures (a, b) in SpansFrom(s, i) {
        assert a != i;
      }
    } else {
      var j := RunEnd(s, i);
      var rest := SpansFrom(s, j);
      SpansFromAreComplete(s, j);
      assert SpansFrom(s, i) == [(i, j)] + rest;
      forall a, b | a >= i && IsMaximalRun(s, a, b) ensures (a, b) in SpansFrom(s, i) {
        if a != i {
          assert !IsAlpha(s[a - 1]);
          assert a > j;
          assert (a, b) in rest;
        }
      }
    }
  }

  /** Every element of `Spans(s)` is a maximal run, they come in increasing order, and none is missing. */
  lemma SpansAreMaximalRuns(s: string)
    ensures forall k :: 0 <= k < |Spans(s)| ==> IsMaximalRun(s, Spans(s)[k].0, Spans(s)[k].1)
    ensures forall k :: 0 <= k < |Spans(s)| - 1 ==> Spans(s)[k].1 < Spans(s)[k + 1].0
    ensures forall a, b :: IsMaximalRun(s, a, b) ==> (a, b) in Spans(s)
  {
    SpansFromAreMaximal(s, 0);
    SpansFromAreComplete(s, 0);
  }

  // ---------------------------------------------------------------------
  // The split / filter chain agrees with the scanner.

  /** Splitting an alphabetic prefix onto the rest glues it to the first piece. */
  lemma {:induction false} SplitAlphaPrefix(a: string, rest: string)
    requires forall k :: 0 <= k < |a| ==> IsAlpha(a[k])
    ensures Split(a + rest) == [a + Split(rest)[0]] + Split(rest)[1..]
  {
    var r := Split(rest);
    if a == [] {
      assert a + rest == rest;
      assert a + r[0] == r[0];
      assert [r[0]] + r[1..] == r;
    } else {
      var u := a[1..] + rest;
      assert a + rest == [a[0]] + u;
      SplitCons(a[0], u);
      SplitAlphaPrefix(a[1..], rest);
      var p := Split(u);
      assert p[0] == a[1..] + r[0];
      assert p[1..] == r[1..];
      assert [a[0]] + (a[1..] + r[0]) == a + r[0];
    }
  }

  /** A leading separator only adds an empty piece, which the filter drops. */
  lemma SplitAtSeparator(t: string)
    requires t != [] && !IsAlpha(t[0])
    ensures Split(t) == [[]] + Split(t[1..])
    ensures NonEmpty(Split(t)) == NonEmpty(Split(t[1..]))
  {
    assert t == [t[0]] + t[1..];
    SplitCons(t[0], t[1..]);
    assert ([[]] + Split(t[1..]))[1..] == Split(t[1..]);
  }

  /** A suffix that is one alphabetic run is a single piece. */
  lemma SplitRunToEnd(s: string, i: nat)
    requires i < |s|
    requires forall k :: i <= k < |s| ==> IsAlpha(s[k])
    ensures NonEmpty(Split(s[i..])) == [s[i..]]
  {
    var run := s[i..];
    assert run + [] == run;
    SplitAlphaPrefix(run, []);
    assert Split(run) == [run];
    NonEmptyCons(run, []);
    assert [run] + [] == [run];
  }

  /** A suffix that starts with an alphabetic run ended by a separator: the run, then the pieces after the separator. */
  lemma SplitRunThenSeparator(s: string, i: nat, j: nat)
    requires i < j < |s|
    requires forall k :: i <= k < j ==> IsAlpha(s[k])
    requires !IsAlpha(s[j])
    ensures NonEmpty(Split(s[i..])) == [s[i..j]] + NonEmpty(Split(s[j + 1..]))
  {
    var run := s[i..j];
    assert s[i..] == run + s[j..];
    SplitAlphaPrefix(run, s[j..]);
    assert s[j..][1..] == s[j + 1..];
    SplitAtSeparator(s[j..]);
    var tail := Split(s[j + 1..]);
    assert run + [] == run;
    assert Split(s[i..]) == [run] + tail;
    NonEmptyCons(run, tail);
  }

  lemma SlicesCons(s: string, i: nat, j: nat, rest: seq<(nat, nat)>)
    requires i <= j <= |s|
    requires forall k :: 0 <= k < |rest| ==> rest[k].0 <= rest[k].1 <= |s|
    ensures Slices(s, [(i, j)] + rest) == [s[i..j]] + Slices(s, rest)
  {
    assert ([(i, j)] + rest)[1..] == rest;
  }

  lemma {:induction false} SplitMatchesSpans(s: string, i: nat)
    requires i <= |s|
    ensures NonEmpty(Split(s[i..])) == Slices(s, SpansFrom(s, i))
    decreases |s| - i, 1
  {
    if i == |s| {
      assert s[i..] == [];
    } else if !IsAlpha(s[i]) {
      SplitMatchesSpansAtSeparator(s, i);
    } else {
      SplitMatchesSpansAtRun(s, i);
    }
  }

  lemma {:induction false} SplitMatchesSpansAtSeparator(s: string, i: nat)
    requires i < |s| && !IsAlpha(s[i])
    ensures NonEmpty(Split(s[i..])) == Slices(s, SpansFrom(s, i))
    decreases |s| - i, 0
  {
    assert s[i..][1..] == s[i + 1..];
    SplitAtSeparator(s[i..]);
    SplitMatchesSpans(s, i + 1);
  }

  lemma {:induction false} SplitMatchesSpansAtRun(s: string, i: nat)
    requires i < |s| && IsAlpha(s[i])
    ensures NonEmpty(Split(s[i..])) == Slices(s, SpansFrom(s, i))
    decreases |s| - i, 0
  {
    var j := RunEnd(s, i);
    if j < |s| {
      SplitMatchesSpans(s, j + 1);
    }
    RunStep(s, i, j);
  }

  lemma RunStep(s: string, i: nat, j: nat)
    requires i < |s| && IsAlpha(s[i]) && j == RunEnd(s, i)
    requires j < |s| ==> NonEmpty(Split(s[j + 1..])) == Slices(s, SpansFrom(s, j + 1))
    ensures NonEmpty(Split(s[i..])) == Slices(s, SpansFrom(s, i))
  {
    if j == |s| {
      RunToEnd(s, i);
    } else {
      RunThenRest(s, i, j);
    }
  }

  /** A run that reaches the end of the text is its last piece and its last span. */
  lemma RunToEnd(s: string, i: nat)
    requires i < |s| && IsAlpha(s[i]) && RunEnd(s, i) == |s|
    ensures NonEmpty(Split(s[i..])) == Slices(s, SpansFrom(s, i))
  {
    SplitRunToEnd(s, i);
    assert SpansFrom(s, i) == [(i, |s|)];
    SlicesCons(s, i, |s|, []);
    assert s[i..|s|] == s[i..];
  }

  /** A run ended by a separator, given the claim for the text after the separator. */
  lemma RunThenRest(s: string, i: nat, j: nat)
    requires i < |s| && IsAlpha(s[i]) && j == RunEnd(s, i) && j < |s|
    requires NonEmpty(Split(s[j + 1..])) == Slices(s, SpansFrom(s, j + 1))
    ensures NonEmpty(Split(s[i..])) == Slices(s, SpansFrom(s, i))
  {
    SplitRunThenSeparator(s, i, j);
    SpansAfterRun(s, i, j);
    SlicesCons(s, i, j, SpansFrom(s, j + 1));
  }

  lemma SpansAfterRun(s: string, i: nat, j: nat)
    requires i < |s| && IsAlpha(s[i]) && j == RunEnd(s, i) && j < |s|
    ensures SpansFrom(s, i) == [(i, j)] + SpansFrom(s, j + 1)
  {
    assert SpansFrom(s, j) == SpansFrom(s, j + 1);
  }

  /**
   * The tokens are exactly the maximal alphabetic runs of the input, left to
   * right: as many tokens as runs, and token k is run k, lower-cased when
   * case is ignored. The case flag changes contents only, never number or order.
   */
  lemma TokensAreRuns(input: string, ignoreCase: bool)
    ensures |Tokenize(input, ignoreCase)| == |Spans(input)|
    ensures forall k :: 0 <= k < |Spans(input)| ==>
              Tokenize(input, ignoreCase)[k]
              == Normalize(input[Spans(input)[k].0..Spans(input)[k].1], ignoreCase)
  {
    SplitMatchesSpans(input, 0);
    SlicesIndex(input, Spans(input));
    assert input[0..] == input;
  }

  /** Without case folding every token is a non-empty, alphabetic slice of the input. */
  lemma TokensAreAlphabeticSlices(input: string, k: nat)
    requires k < |Tokenize(input, false)|
    ensures Tokenize(input, false)[k] != []
    ensures forall c :: c in Tokenize(input, false)[k] ==> IsAlpha(c)
    ensures exists i, j :: 0 <= i < j <= |input| && Tokenize(input, false)[k] == input[i..j]
  {
    TokensAreRuns(input, false);
    SpansAreMaximalRuns(input);
    var (i, j) := Spans(input)[k];
    assert Tokenize(input, false)[k] == input[i..j];
  }

  /** A normalized run of letters contains no line terminator. */
  lemma NormalizedRunHasNoNewline(run: string, ignoreCase: bool)
    requires forall i :: 0 <= i < |run| ==> IsAlpha(run[i])
    ensures forall i :: 0 <= i < |run| ==> Normalize(run, ignoreCase)[i] != '\n'
  {
    NewlineIsNotAlpha();
    forall i | 0 <= i < |run| ensures Normalize(run, ignoreCase)[i] != '\n' {
      if ignoreCase {
        LowerIsNotNewline(run[i]);
      }
    }
  }

  /** No token contains a line terminator, with or without case folding. */
  lemma TokensHaveNoNewline(input: string, ignoreCase: bool)
    ensures forall k, i :: 0 <= k < |Tokenize(input, ignoreCase)| && 0 <= i < |Tokenize(input, ignoreCase)[k]| ==>
              Tokenize(input, ignoreCase)[k][i] != '\n'
  {
    var tokens := Tokenize(input, ignoreCase);
    TokensAreRuns(input, ignoreCase);
    SpansAreMaximalRuns(input);
    forall k | 0 <= k < |tokens| ensures forall i :: 0 <= i < |tokens[k]| ==> tokens[k][i] != '\n' {
      var (a, b) := Spans(input)[k];
      assert IsMaximalRun(input, a, b);
      var run := input[a..b];
      assert forall i :: 0 <= i < |run| ==> IsAlpha(run[i]);
      NormalizedRunHasNoNewline(run, ignoreCase);
    }
  }

  /**
   * Every character of every token is alphabetic, with or without case
   * folding; with folding this rests on the model's one-character lowering.
   */
  lemma TokensAreAlphabetic(input: string, ignoreCase: bool)
    ensures forall k, i :: 0 <= k < |Tokenize(input, ignoreCase)| && 0 <= i < |Tokenize(input, ignoreCase)[k]| ==>
              IsAlpha(Tokenize(input, ignoreCase)[k][i])
  {
    var tokens := Tokenize(input, ignoreCase);
    TokensAreRuns(input, ignoreCase);
    SpansAreMaximalRuns(input);
    forall k, i | 0 <= k < |tokens| && 0 <= i < |tokens[k]| ensures IsAlpha(tokens[k][i]) {
      var (a, b) := Spans(input)[k];
      var run := input[a..b];
      assert tokens[k] == Normalize(run, ignoreCase);
      assert IsAlpha(run[i]);
      if ignoreCase {
        LowerKeepsAlpha(run[i]);
      }
    }
  }

  /** Case folding changes neither the number nor the order of tokens. */
  lemma IgnoreCaseOnlyLowers(input: string)
    ensures |Tokenize(input, true)| == |Tokenize(input, false)|
    ensures forall k :: 0 <= k < |Tokenize(input, true)| ==>
              Tokenize(input, true)[k] == ToLower(Tokenize(input, false)[k])
  {
    TokensAreRuns(input, true);
    TokensAreRuns(input, false);
  }

  /** Text without any alphabetic character (the empty text included) has no tokens. */
  lemma NoLettersNoTokens(input: string, ignoreCase: bool)
    requires forall k :: 0 <= k < |input| ==> !IsAlpha(input[k])
    ensures Tokenize(input, ignoreCase) == []
  {
    TokensAreRuns(input, ignoreCase);
    SpansAreMaximalRuns(input);
    if Spans(input) != [] {
      RunStartsWithLetter(input, Spans(input)[0].0, Spans(input)[0].1);
      assert false;
    }
  }

  lemma RunStartsWithLetter(s: string, i: int, j: int)
    requires IsMaximalRun(s, i, j)
    ensures IsAlpha(s[i])
  {
  }

  // ---------------------------------------------------------------------
  // Separators are token boundaries.

  lemma {:induction false} SplitAtSeparatorConcat(a: string, c: char, b: string)
    requires !IsAlpha(c)
    ensures Split(a + [c] + b) == Split(a) + Split(b)
  {
    if a == [] {
      SplitCons(c, b);
      assert a + [c] + b == [c] + b;
    } else {
      var u := a[1..] + [c] + b;
      assert a + [c] + b == [a[0]] + u;
      assert a == [a[0]] + a[1..];
      SplitCons(a[0], u);
      SplitCons(a[0], a[1..]);
      SplitAtSeparatorConcat(a[1..], c, b);
      PiecesConcat(a[0], Split(a[1..]), Split(b));
    }
  }

  lemma PiecesConcat(x: char, r: seq<string>, q: seq<string>)
    requires |r| >= 1
    ensures [[x] + (r + q)[0]] + (r + q)[1..] == ([[x] + r[0]] + r[1..]) + q
    ensures [[]] + (r + q) == ([[]] + r) + q
  {
    assert (r + q)[1..] == r[1..] + q;
  }

  lemma {:induction false} NonEmptyConcat(x: seq<string>, y: seq<string>)
    ensures NonEmpty(x + y) == NonEmpty(x) + NonEmpty(y)
  {
    if x != [] {
      var t := x[1..];
      assert x + y == [x[0]] + (t + y);
      assert x == [x[0]] + t;
      NonEmptyCons(x[0], t + y);
      NonEmptyCons(x[0], t);
      NonEmptyConcat(t, y);
      ConsAssoc(x[0], NonEmpty(t), NonEmpty(y));
    } else {
      assert x + y == y;
    }
  }

  /** One step of `NonEmpty` on a sequence that starts with `p`. */
  lemma NonEmptyCons(p: string, xs: seq<string>)
    ensures NonEmpty([p] + xs) == if p == [] then NonEmpty(xs) else [p] + NonEmpty(xs)
  {
    assert ([p] + xs)[1..] == xs;
  }

  lemma ConsAssoc(p: string, xs: seq<string>, ys: seq<string>)
    ensures [p] + (xs + ys) == ([p] + xs) + ys
  {
  }

  /**
   * A non-alphabetic character splits the token stream in two: the tokens
   * of the text before it, then the tokens of the text after it.
   */
  lemma TokenizeConcat(a: string, c: char, b: string, ignoreCase: bool)
    requires !IsAlpha(c)
    ensures Tokenize(a + [c] + b, ignoreCase) == Tokenize(a, ignoreCase) + Tokenize(b, ignoreCase)
  {
    SplitAtSeparatorConcat(a, c, b);
    NonEmptyConcat(Split(a), Split(b));
  }

  /** A non-empty alphabetic word is a single token. */
  lemma TokenizeWord(w: string, ignoreCase: bool)
    requires w != []
    requires forall k :: 0 <= k < |w| ==> IsAlpha(w[k])
    ensures Tokenize(w, ignoreCase) == [Normalize(w, ignoreCase)]
  {
    SplitAlphaPrefix(w, []);
    assert w + [] == w;
    assert Split(w) == [w];
    assert NonEmpty([w]) == [w] + NonEmpty([]);
  }

  /** A leading word followed by a non-letter is the first token; the rest comes after it. */
  lemma TokenizeWordThen(s: string, j: nat, ignoreCase: bool)
    requires j < |s| && !IsAlpha(s[j])
    requires IsWord(s[..j])
    ensures Tokenize(s, ignoreCase) == [Normalize(s[..j], ignoreCase)] + Tokenize(s[j + 1..], ignoreCase)
  {
    TokenizeWord(s[..j], ignoreCase);
    assert s == s[..j] + [s[j]] + s[j + 1..];
    TokenizeConcat(s[..j], s[j], s[j + 1..], ignoreCase);
  }

  /** The words with one separator character between neighbours. */
  function Joined(words: seq<string>, sep: char): (s: string)
    ensures words == [] ==> s == []
  {
    if |words| <= 1 then (if words == [] then [] else words[0])
    else words[0] + [sep] + Joined(words[1..], sep)
  }

  /** A non-empty run of alphabetic characters. */
  predicate IsWord(w: string) {
    w != [] && forall k :: 0 <= k < |w| ==> IsAlpha(w[k])
  }

  /**
   * Tokenizing words joined by a non-alphabetic separator gives back the
   * words, each normalized; without case folding, exactly the words.
   */
  lemma {:induction false} TokenizeJoined(words: seq<string>, sep: char, ignoreCase: bool)
    requires !IsAlpha(sep)
    requires forall i :: 0 <= i < |words| ==> IsWord(words[i])
    ensures |Tokenize(Joined(words, sep), ignoreCase)| == |words|
    ensures forall i :: 0 <= i < |words| ==> Tokenize(Joined(words, sep), ignoreCase)[i] == Normalize(words[i], ignoreCase)
    ensures !ignoreCase ==> Tokenize(Joined(words, sep), ignoreCase) == words
  {
    if words == [] {
      NoLettersNoTokens([], ignoreCase);
    } else if |words| == 1 {
      TokenizeWord(words[0], ignoreCase);
    } else {
      TokenizeWord(words[0], ignoreCase);
      TokenizeJoined(words[1..], sep, ignoreCase);
      TokenizeConcat(words[0], sep, Joined(words[1..], sep), ignoreCase);
    }
  }

  /** Digits separate words: `"a1b"` gives `["a", "b"]`. */
  lemma DigitsSplit(input: string)
    requires input == "a1b"
    ensures Tokenize(input, false) == ["a", "b"]
  {
    TokenizeWord("a", false);
    TokenizeWord("b", false);
    TokenizeConcat("a", '1', "b", false);
    assert "a" + ['1'] + "b" == input;
  }

  lemma RustBang(t: string)
    requires t == " Rust!"
    ensures Tokenize(t, true) == ["rust"]
  {
    TokenizeWord("Rust", true);
    assert ToLower("Rust") == "rust";
    NoLettersNoTokens([], true);
    TokenizeConcat("Rust", '!', [], true);
    TokenizeConcat([], ' ', "Rust!", true);
    assert "Rust" + ['!'] + [] == "Rust!";
    assert [] + [' '] + "Rust!" == t;
  }

  /** `"Hi, Rust!"` with case folding gives `["hi", "rust"]`. */
  lemma HiRust(input: string)
    requires input == "Hi, Rust!"
    ensures Tokenize(input, true) == ["hi", "rust"]
  {
    var t := " Rust!";
    RustBang(t);
    TokenizeWord("Hi", true);
    assert ToLower("Hi") == "hi";
    TokenizeConcat("Hi", ',', t, true);
    assert "Hi" + [','] + t == input;
  }
}
