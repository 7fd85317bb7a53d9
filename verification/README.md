# wordfreq-rs in Dafny

A model of `wordfreq-rs`, a command-line tool that counts words in a text
and prints them as a table. The model covers:

- the tokenizer: split on every non-alphabetic character, drop empty
  pieces, lower-case when case is ignored;
- the counting loop over a `HashMap<String, u64>`;
- the two sort orders of `(word, count)` entries and the in-place sort;
- the text table renderer;
- the body of `main` after the input is read:
  - count only the tokens of at least `min_len` bytes;
  - collect the map in whatever order it yields;
  - sort by count or alphabetically;
  - keep the first `top` entries (0 keeps all);
  - print the table, or `(no words)`.

Modules, one per source file:

- `Chars` (`chars.dfy`): character helpers.
  - `IsAlpha` and `LowerChar` stand for `char::is_alphabetic` and `to_lowercase`.
  - `ByteLen` is `String::len`, the exact UTF-8 byte count of the scalar values.
- `Tokenizer` (`tokenize.dfy`): `tokenize`, which is pure.
  - `Tokenize` follows the iterator chain: `Split`, then `NonEmpty`, then `Normalize`.
  - `Spans` is an independent scanner that lists the maximal alphabetic runs by position.
  - The lemmas prove that the two agree.
- `Freq` (`freq.dfy`): `count`.
  - `Count` is the loop over a `map`.
  - `Frequencies` is the fold that specifies it.
  - The lemmas give the map's meaning: keys are the distinct tokens, values are occurrence counts, the total is the number of tokens, and token order does not matter.
- `Sort` (`sort.dfy`): the two comparators and `Vec::sort_by`.
  - `SortInPlace` is an in-place insertion sort on an `array<Entry>`, proved sorted and a permutation.
  - `SortedSeq` is a reference insertion sort on sequences.
  - `SortedPermutationUnique` shows the sorted order is unique for map-drained entries, so the result does not depend on the drain order.
- `Output` (`output.dfy`): `render_table`.
  - `RenderTable` builds the string line by line.
  - `TableText` specifies it.
  - The lemmas read the text back as lines and describe each line's fields.
- `WordFreq` (`wordfreq.dfy`): `main`.
  - `Run` calls the methods above in `main`'s order.
  - It is proved to produce the entries of the specification `Pipeline` and the right text.
  - `PipelineMeaning` says what those entries are.

`main` defines its own private `tokenize` (`src/main.rs:123-134`), which is
identical to the library's. It also sorts inline with the comparators of
`src/sort.rs`. The model therefore uses one `Tokenize` and one pair of
orders for both.

`main` prints its table with `println!`, which matches `render_table`
line for line. The one exception is an empty result: `main` prints
`(no words)` while `render_table` returns `No entries found.`. So `Run`
handles the empty case itself and otherwise calls `RenderTable`.

The `--ignore-case` flag is declared with `default_value_t = true` and
`ArgAction::SetTrue`, so the binary always runs with case folding on. The
model keeps `ignoreCase` as a parameter, because the library function
takes it as one.

Where the repository's prose and its code differ, the model follows the code:

- The length filter compares the byte length (`word.len()`) with `min_len`. It is applied to each occurrence inside the counting loop, not to the finished map. Every occurrence of a word has the same length, so a word is kept with all of its occurrences or not at all (`FilteredCountsMeaning`).
- Tokens are split on "not alphabetic", so digits separate words (`DigitsSplit`), although the comments say "non-alphanumeric".
- The column width is the largest byte length of the words, with no floor of 4. `unwrap_or(4)` only applies to an empty slice, and that case has already returned. When every word is shorter than 4 bytes, the header's field is wider than the rows' (`HeaderField`).
- `{:<width$}` pads to a number of characters while the width counts bytes. A non-ASCII word therefore gets extra padding (`RowFields`).

## Model

| member | source | states |
|---|---|---|
| Chars.IsAlpha | src/tokenize.rs:15 | stands in for `char::is_alphabetic`, on ASCII letters only (see "## Left out"); its use is stated by NewlineIsNotAlpha |
| Chars.LowerChar | src/tokenize.rs:19 | stands in for the lower-case mapping of one character, on ASCII only (see "## Left out"); see LowerIsNotNewline |
| Chars.ToLower | src/tokenize.rs:19 | stands in for `str::to_lowercase`, one character for one, same length, character `i` lowered in place; ASCII only (see "## Left out") |
| Chars.NewlineIsNotAlpha | src/tokenize.rs:15 | a line break is a separator, never part of a word |
| Chars.LowerIsNotNewline | src/tokenize.rs:19 | lower-casing a letter never yields a line break |
| Chars.Utf8Width | src/output.rs:13 | a scalar takes 1 to 4 UTF-8 bytes, exactly 1 iff it is ASCII |
| Chars.ByteLen | src/output.rs:13 | `String::len`, also at src/main.rs:63: the sum of the UTF-8 widths of the characters; see ByteLenBounds |
| Chars.ByteLenBounds | src/output.rs:13 | a word has at least as many bytes as characters, and exactly as many iff it is ASCII |
| Tokenizer.Split | src/tokenize.rs:15 | `str::split` on the test `!is_alphabetic`, empty pieces included; see SplitCount and SplitAtSeparatorConcat |
| Tokenizer.SplitCount | src/tokenize.rs:15 | `split` yields one piece more than there are non-alphabetic characters |
| Tokenizer.NonEmpty | src/tokenize.rs:16 | `filter(|s| !s.is_empty())`: keeps the non-empty pieces in order (every kept piece is non-empty) |
| Tokenizer.Normalize | src/tokenize.rs:17-23 | `to_lowercase` when case is ignored, the piece unchanged otherwise; same length; see IgnoreCaseOnlyLowers |
| Tokenizer.Tokenize | src/tokenize.rs:13-24 | the iterator chain split, filter, map, also `tokenize` at src/main.rs:123-134; every token is non-empty; what the tokens are is stated by TokensAreRuns |
| Tokenizer.TokensAreRuns | src/tokenize.rs:13-24 | the tokens are exactly the maximal alphabetic runs of the input, one per run, left to right, each normalized (lower-cased iff case is ignored) |
| Tokenizer.SpansAreMaximalRuns | src/tokenize.rs:15-16 | the reference scanner lists precisely the maximal alphabetic runs, in increasing order, and every maximal run is listed |
| Tokenizer.TokensAreAlphabeticSlices | src/tokenize.rs:15-21 | without case folding each token is a non-empty, all-alphabetic slice `input[i..j]` of the input |
| Tokenizer.TokensAreAlphabetic | src/tokenize.rs:15-23 | every character of every token is alphabetic; with case folding this holds under the model's one-character lowering only (see "## Left out") |
| Tokenizer.TokensHaveNoNewline | src/tokenize.rs:15-23 | with or without case folding, no token contains a line break |
| Tokenizer.IgnoreCaseOnlyLowers | src/tokenize.rs:17-23 | case folding keeps the number and order of tokens and lower-cases each one |
| Tokenizer.NoLettersNoTokens | src/tokenize.rs:15-16 | a text with no alphabetic character, the empty text included, has no tokens |
| Tokenizer.TokenizeConcat | src/tokenize.rs:15-16 | a non-alphabetic character is a token boundary: the tokens of `a + [c] + b` are those of `a` followed by those of `b` |
| Tokenizer.TokenizeWord | src/tokenize.rs:13-24 | a non-empty alphabetic word is a single token, normalized |
| Tokenizer.TokenizeWordThen | src/tokenize.rs:13-24 | a leading word followed by a separator is the first token, then come the tokens of the rest |
| Tokenizer.TokenizeJoined | src/tokenize.rs:13-24 | words joined by a non-alphabetic separator tokenize back to the words (normalized), one token per word |
| Tokenizer.DigitsSplit | src/tokenize.rs:15 | `"a1b"` gives `["a", "b"]`: digits are separators |
| Tokenizer.HiRust | src/tokenize.rs:8-12 | the documented example: `"Hi, Rust!"` with case folding gives `["hi", "rust"]` |
| Freq.Frequencies | src/freq.rs:20-24 | the map after bumping every token front to back; see FrequenciesAreOccurrences, FrequenciesTotal and FrequenciesPermutation |
| Freq.Bump | src/freq.rs:22 | `entry(w).or_insert(0) += 1`: adds `w` as a key, increments its count from 0 or its old value, leaves other keys alone |
| Freq.Count | src/freq.rs:14-25 | the loop builds `Frequencies(tokens)`: the keys are exactly the tokens, and each count is the word's number of occurrences |
| Freq.FrequenciesAreOccurrences | src/freq.rs:20-24 | a word is a key iff it occurs; its value is its multiplicity in the tokens, at least 1 |
| Freq.FrequenciesPermutation | src/freq.rs:20-24 | the counts do not depend on the order of the tokens |
| Freq.FrequenciesTotal | src/freq.rs:20-24 | the counts add up to the number of tokens |
| Sort.LexLe | src/sort.rs:16 | `a.0.cmp(&b.0) != Greater` for `String`s: lexicographic by code point, the same as by UTF-8 byte; a total order by LexLeTotal, LexLeAntisymmetric and LexLeTransitive |
| Sort.Precedes | src/sort.rs:15-18 | the count comparator (count descending, then word ascending, also src/main.rs:74-77) or the word comparator (src/sort.rs:23, src/main.rs:81) does not answer `Greater`; see PrecedesTransitive and PrecedesAntisymmetric |
| Sort.LexLeTotal | src/sort.rs:16 | `String` order is total |
| Sort.LexLeAntisymmetric | src/sort.rs:16 | `String` order is antisymmetric |
| Sort.LexLeTransitive | src/sort.rs:16 | `String` order is transitive |
| Sort.PrecedesTransitive | src/sort.rs:15-18 | each comparator's "not Greater" relation is transitive |
| Sort.PrecedesAntisymmetric | src/sort.rs:15-18 | the count comparator ties only identical entries; the word comparator ties only equal words |
| Sort.SortedIffAdjacent | src/sort.rs:14-24 | a sequence is sorted iff each adjacent pair is in order |
| Sort.SortedSeqCorrect | src/sort.rs:14-24 | the reference sort returns a sorted permutation of its input |
| Sort.SortedPermutationUnique | src/sort.rs:14-24 | two sorted permutations of the same entries are equal (for the word order, when words are distinct), so the result is independent of input order |
| Sort.SortedSeqIdempotent | src/sort.rs:14-24 | sorting sorted entries changes nothing, repeated words included, since the sort is stable |
| Sort.CountOrderExample | src/sort.rs:8-13 | the documented example: `[("b",2),("a",2),("z",1)]` sorts to `[("a",2),("b",2),("z",1)]` |
| Sort.SortInPlace | src/sort.rs:15 | `sort_by` in place: the array ends sorted under the mode, holds the same multiset, and an already sorted array is left unchanged |
| Sort.InsertAt | src/sort.rs:15 | one insertion step of the sort: the prefix up to `i` becomes sorted and is a permutation of the old prefix, everything after `i` is unchanged, and a prefix already sorted is left as it was |
| Sort.SortByCountThenAlpha | src/sort.rs:14-19 | count descending then word ascending: the result is sorted, a permutation, and equals the reference sort of the input |
| Sort.SortAlpha | src/sort.rs:21-24 | word ascending: sorted, a permutation, and the reference sort when the words are distinct |
| Sort.DistinctWordsPermutation | src/main.rs:70 | entries drained from a map keep distinct words under any permutation |
| Output.Decimal | src/output.rs:22-24 | `{}` of a count: its decimal digits, most significant first; see DecimalRoundTrip |
| Output.PadRight | src/output.rs:18 | `{:<width$}`: the text, then spaces up to `width` characters, never truncated; see PadRightShape |
| Output.HeaderLine | src/output.rs:18 | `"WORD"` padded to the width, then `" COUNT"`; see HeaderField and TableLayout |
| Output.SeparatorLine | src/output.rs:19 | `{:-<w$} {:-<5}` of two empty strings: `width` dashes, a space, five dashes; see TableLayout |
| Output.RowLine | src/output.rs:21-26 | the word padded to the width, a space, the count in decimal; see RowFields and TableLayout |
| Output.TableText | src/output.rs:6-30 | what `render_table` returns: the placeholder for an empty slice, the newline-terminated table lines otherwise; see TableLayout |
| Output.DecimalRoundTrip | src/output.rs:21-26 | a count prints as non-empty decimal digits, with no leading zero, that read back as the count |
| Output.PadRightShape | src/output.rs:18-25 | `{:<width$}` keeps the text, fills with spaces, and is as long as the text or the width, whichever is more |
| Output.MaxWordLen | src/output.rs:11-15 | the width is the largest byte length of any word, attained by some word |
| Output.RenderTable | src/output.rs:6-30 | the built string is `TableText(entries)`; an empty slice gives `"No entries found."` |
| Output.SplitText | src/output.rs:16-29 | newline-terminated lines without newlines split back into the same lines |
| Output.TableLayout | src/output.rs:16-29 | a non-empty table has `n + 2` lines: header, dash separator, then entry i's padded word, a space and its count, in input order |
| Output.RowFields | src/output.rs:20-26 | each row's word field is exactly `width` characters, followed by a space and the count's decimal digits; the padding equals `width - ByteLen(word)` iff the word is ASCII |
| Output.HeaderField | src/output.rs:11-19 | the header starts with "WORD" padded to the width; with no floor of 4, a width below 4 makes the header longer than the separator |
| WordFreq.LongEnough | src/main.rs:62-63 | the occurrences that pass `word.len() >= min_len`, in order; see LongEnoughOccurrences |
| WordFreq.LongEnoughOccurrences | src/main.rs:62-66 | the per-occurrence byte-length filter keeps every occurrence of a long enough word and none of a short one |
| WordFreq.ShortMinLenKeepsAll | src/main.rs:21-22 | with the default `min_len` of 1 (or 0), every token is counted |
| WordFreq.FilteredCountsMeaning | src/main.rs:61-67 | a word is counted iff it is a token of at least `min_len` bytes, and then with all its occurrences |
| WordFreq.CountsAddUpToRuns | src/main.rs:61-67 | with no filtering, the counts add up to the number of maximal alphabetic runs of the input |
| WordFreq.Drain | src/main.rs:70 | `into_iter().collect()` in some order: every pair of the map exactly once, with distinct words |
| WordFreq.Truncate | src/main.rs:86-88 | `entries.truncate(top)` when `0 < top < len`, the entries unchanged otherwise; see TruncateIsPrefix |
| WordFreq.Pipeline | src/main.rs:60-88 | the entries `main` ends up with: filtered counts, drained, sorted by the mode, truncated; see PipelineMeaning and Run |
| WordFreq.TruncateIsPrefix | src/main.rs:85-88 | truncation keeps a prefix of exactly `top` entries when `0 < top < len`, and all entries otherwise |
| WordFreq.PipelineMeaning | src/main.rs:60-88 | the result is a prefix of the entries sorted by the mode; those entries have distinct words and are exactly the tokens of at least `min_len` bytes, each with its full count |
| WordFreq.PipelineTableLayout | src/main.rs:100-115 | the words of the result have no line break, so the printed table splits back into the header, the dash separator and one row per result entry, in order |
| WordFreq.CountLong | src/main.rs:61-67 | the counting loop with the filter builds the frequencies of the long enough tokens |
| WordFreq.Collect | src/main.rs:70 | the collected vector holds each pair of the map exactly once, with distinct words |
| WordFreq.SortEntries | src/main.rs:71-83 | the sort dispatch yields the one sorted sequence of the map's pairs, whatever order they were collected in |
| WordFreq.Run | src/main.rs:60-115 | the entries are `Pipeline(...)`; the output is `"(no words)\n"` when there are none, and the `render_table` text otherwise |
| WordFreq.ShortMinLenCountsAll | src/main.rs:61-67 | with `min_len <= 1`, the filtered counts are the plain token counts |
| WordFreq.CountExample | src/freq.rs:7-13 | the documented example: `"a a b"` counts a -> 2 and b -> 1 |
| WordFreq.CaseFoldingExample | src/lib.rs:3-12 | the crate example: `"Rust rust RUST!"` with case folding counts rust -> 3 |
| WordFreq.SmokeTest | tests/smoke.rs:13-23 | on the smoke test's input with the default settings, the first entry is foo with count 3 |

## Left out

- Reading the input from a file or stdin, and parsing the arguments with clap, are not modelled. The input text and the settings are parameters of `Run`. The `--ignore-case` flag is always true in the binary (see above), but the model takes it as a parameter.
- JSON output (`render_json` and the `--json` branch of `main`) is not modelled. It is serialisation by `serde_json`, a foreign library.
- Chars.IsAlpha and Chars.LowerChar cover ASCII only. Unicode's alphabetic property and case tables are not reproduced. The general lemmas use three facts about them, proved from the ASCII definitions. Two also hold for Unicode: a newline is not alphabetic (`NewlineIsNotAlpha`), and lower-casing a letter never gives a newline (`LowerIsNotNewline`). The third, that lower-casing a letter gives a letter (`LowerKeepsAlpha`), holds only for the model's one-character lowering: Unicode lowers `'İ'` to `i` followed by a combining dot, which is not alphabetic. Only `TokensAreAlphabetic`, with case folding, depends on the third fact. The table layout of the pipeline (`PipelineTableLayout`) depends only on the first two.
- Chars.ToLower maps each character to one character, independent of its neighbours. `str::to_lowercase` can change the length of a string (for example, `'İ'` becomes two scalars), and it lowers `'Σ'` to the final form `'ς'` at the end of a word and to `'σ'` elsewhere; the model captures neither.
- Freq.Count: counts are unbounded naturals. `u64` overflow is not modelled; it needs more than 2^64 tokens.
- Sort.SortInPlace is a stable insertion sort. It is not Rust's merge sort. The result is the same for every input the program sorts: ties under the count order are identical entries, and entries drained from a map have distinct words. Comparison counts and memory behaviour are not modelled.
- WordFreq.Drain and WordFreq.Collect pick keys in an unspecified order. `HashMap`'s randomised iteration order is not reproduced. `SortEntries` proves the order does not matter once sorted.
- Output.MaxWordLen requires a non-empty slice. The `unwrap_or(4)` fallback is dead code at both call sites, because both return early on an empty slice.
- `main` returning `Ok(())` and the `anyhow` error contexts belong to I/O, which is not modelled.
