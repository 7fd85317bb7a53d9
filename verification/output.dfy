/**
 * The text table: a header line, a dash separator, and one line per entry,
 * every line ending in a newline; an empty slice renders a placeholder.
 *
 * The column width is the largest `String::len` of the words, a UTF-8 byte
 * count, while `{:<width$}` pads to a number of characters. There is no
 * floor of 4: when every word is shorter than "WORD", the header's word
 * field is wider than the rows' (the `unwrap_or(4)` default only applies
 * to an empty slice, which has already returned the placeholder).
 */
module Output {
  import opened Chars
  import opened Sort

  // ---------------------------------------------------------------------
  // Decimal numbers, as `{}` prints an unsigned integer.

  predicate IsDigit(c: char) {
    '0' <= c <= '9'
  }

  predicate IsDigits(s: string) {
    forall i :: 0 <= i < |s| ==> IsDigit(s[i])
  }

  function DigitChar(d: nat): char
    requires d < 10
  {
    ('0' as int + d) as char
  }

  /** Decimal text of `n`, most significant digit first. */
  function Decimal(n: nat): string
    decreases n
  {
    if n < 10 then [DigitChar(n)] else Decimal(n / 10) + [DigitChar(n % 10)]
  }

  /** The number a string of decimal digits denotes. */
  function DecimalValue(s: string): nat
    requires IsDigits(s)
  {
    if s == [] then 0
    else DecimalValue(s[..|s| - 1]) * 10 + (s[|s| - 1] as int - '0' as int)
  }

  /** A count prints as a non-empty string of digits without a leading zero, which reads back as the count. */
  lemma {:induction false} DecimalRoundTrip(n: nat)
    ensures Decimal(n) != [] && IsDigits(Decimal(n))
    ensures DecimalValue(Decimal(n)) == n
    ensures Decimal(n)[0] == '0' ==> n == 0
    decreases n
  {
    if n >= 10 {
      DecimalRoundTrip(n / 10);
      var s := Decimal(n);
      assert s[..|s| - 1] == Decimal(n / 10);
    }
  }

  // ---------------------------------------------------------------------
  // Padding.

  function Repeat(c: char, n: nat): (r: string)
    ensures |r| == n
    ensures forall i :: 0 <= i < n ==> r[i] == c
  {
    seq(n, _ => c)
  }

  /** `{:<width$}` with a space fill: left-aligned, filled up to `width` characters, never truncated. */
  function PadRight(s: string, width: nat): string {
    if |s| < width then s + Repeat(' ', width - |s|) else s
  }

  /** The padded field starts with the text, is filled with spaces, and is as long as the text or the width, whichever is more. */
  lemma PadRightShape(s: string, width: nat)
    ensures |PadRight(s, width)| == if |s| < width then width else |s|
    ensures PadRight(s, width)[..|s|] == s
    ensures forall i :: |s| <= i < |PadRight(s, width)| ==> PadRight(s, width)[i] == ' '
  {
  }

  // ---------------------------------------------------------------------
  // The layout.

  /** `entries.iter().map(|(word, _)| word.len()).max()` on a non-empty slice. */
  function MaxWordLen(entries: seq<Entry>): (w: nat)
    requires entries != []
    ensures forall i :: 0 <= i < |entries| ==> ByteLen(entries[i].word) <= w
    ensures exists i :: 0 <= i < |entries| && ByteLen(entries[i].word) == w
  {
    if |entries| == 1 then ByteLen(entries[0].word)
    else
      var rest := MaxWordLen(entries[1..]);
      assert forall i :: 1 <= i < |entries| ==> entries[i] == entries[1..][i - 1];
      if ByteLen(entries[0].word) > rest then ByteLen(entries[0].word) else rest
  }

  function HeaderLine(width: nat): string {
    PadRight("WORD", width) + " COUNT"
  }

  function SeparatorLine(width: nat): string {
    Repeat('-', width) + " " + Repeat('-', 5)
  }

  function RowLine(width: nat, e: Entry): string {
    PadRight(e.word, width) + " " + Decimal(e.count)
  }

  /** Header, separator, then one row per entry in the given order. */
  function TableLines(entries: seq<Entry>): (lines: seq<string>)
    requires entries != []
  {
    var width := MaxWordLen(entries);
    [HeaderLine(width), SeparatorLine(width)]
      + seq(|entries|, i requires 0 <= i < |entries| => RowLine(width, entries[i]))
  }

  /** Each line followed by a newline. */
  function Text(lines: seq<string>): string {
    if lines == [] then "" else lines[0] + "\n" + Text(lines[1..])
  }

  lemma {:induction false} TextAppend(lines: seq<string>, line: string)
    ensures Text(lines + [line]) == Text(lines) + line + "\n"
  {
    if lines != [] {
      assert (lines + [line])[1..] == lines[1..] + [line];
      TextAppend(lines[1..], line);
    } else {
      assert [line][1..] == [];
    }
  }

  const NoEntries: string := "No entries found."

  /** What `render_table` returns. */
  function TableText(entries: seq<Entry>): string {
    if entries == [] then NoEntries else Text(TableLines(entries))
  }

  /** The header and the separator are the first two lines of the table. */
  lemma TableStart(entries: seq<Entry>)
    requires entries != []
    ensures var width := MaxWordLen(entries);
            Text(TableLines(entries)[..2]) == "" + HeaderLine(width) + "\n" + SeparatorLine(width) + "\n"
  {
    var lines := TableLines(entries);
    TextAppend([], lines[0]);
    TextAppend([lines[0]], lines[1]);
    assert lines[..2] == [lines[0]] + [lines[1]];
  }

  /** The text of one more line. */
  lemma TextPrefix(lines: seq<string>, k: nat)
    requires k < |lines|
    ensures Text(lines[..k + 1]) == Text(lines[..k]) + lines[k] + "\n"
  {
    assert lines[..k + 1] == lines[..k] + [lines[k]];
    TextAppend(lines[..k], lines[k]);
  }

  /** Row `i` is the table's line `i + 2`. */
  lemma TableRow(entries: seq<Entry>, i: nat)
    requires i < |entries|
    ensures var lines := TableLines(entries);
            Text(lines[..i + 3]) == Text(lines[..i + 2]) + RowLine(MaxWordLen(entries), entries[i]) + "\n"
  {
    var lines := TableLines(entries);
    TextPrefix(lines, i + 2);
    assert lines[i + 2] == RowLine(MaxWordLen(entries), entries[i]);
  }

  /** `render_table`: grows the output line by line. */
  method RenderTable(entries: seq<Entry>) returns (out: string)
    ensures out == TableText(entries)
    ensures entries == [] ==> out == "No entries found."
  {
    if entries == [] {
      return NoEntries;
    }
    var width := MaxWordLen(entries);
    out := "";
    out := out + HeaderLine(width) + "\n";
    out := out + SeparatorLine(width) + "\n";
    TableStart(entries);
    for i := 0 to |entries|
      invariant out == Text(TableLines(entries)[..i + 2])
    {
      TableRow(entries, i);
      out := out + RowLine(width, entries[i]) + "\n";
    }
    assert TableLines(entries)[..|entries| + 2] == TableLines(entries);
  }

  // ---------------------------------------------------------------------
  // Reading the text back as lines.

  /** Position of the first newline, or the length when there is none. */
  function NewlineIndex(s: string): (k: nat)
    ensures k <= |s|
    ensures forall i :: 0 <= i < k ==> s[i] != '\n'
    ensures k < |s| ==> s[k] == '\n'
  {
    if s == [] || s[0] == '\n' then 0 else 1 + NewlineIndex(s[1..])
  }

  /** The newline-terminated lines of a text (a final unterminated piece counts as a line). */
  function SplitLines(s: string): seq<string>
    decreases |s|
  {
    if s == [] then []
    else
      var k := NewlineIndex(s);
      if k == |s| then [s] else [s[..k]] + SplitLines(s[k + 1..])
  }

  predicate NoNewline(line: string) {
    forall i :: 0 <= i < |line| ==> line[i] != '\n'
  }

  /** Joining lines with newline terminators and splitting again gives the lines back. */
  lemma {:induction false} SplitText(lines: seq<string>)
    requires forall j :: 0 <= j < |lines| ==> NoNewline(lines[j])
    ensures SplitLines(Text(lines)) == lines
  {
    if lines != [] {
      SplitFirstLine(lines[0], Text(lines[1..]));
      SplitText(lines[1..]);
      assert lines == [lines[0]] + lines[1..];
    }
  }

  /** A line without newlines, then a newline, splits off as the first line. */
  lemma SplitFirstLine(l: string, rest: string)
    requires NoNewline(l)
    ensures SplitLines(l + "\n" + rest) == [l] + SplitLines(rest)
  {
    var s := l + "\n" + rest;
    assert s == l + ("\n" + rest);
    NewlineAfter(l, rest);
    assert s[..|l|] == l;
    assert s[|l| + 1..] == rest;
  }

  lemma NewlineAfter(l: string, rest: string)
    requires NoNewline(l)
    ensures NewlineIndex(l + ("\n" + rest)) == |l|
  {
    var s := l + ("\n" + rest);
    var k := NewlineIndex(s);
    assert s[|l|] == '\n';
    assert forall i :: 0 <= i < |l| ==> s[i] == l[i];
  }

  lemma PadRightNoNewline(s: string, width: nat)
    requires NoNewline(s)
    ensures NoNewline(PadRight(s, width))
  {
    if |s| < width {
      var p := PadRight(s, width);
      assert forall k :: 0 <= k < |s| ==> p[k] == s[k];
    }
  }

  lemma RowLineNoNewline(width: nat, e: Entry)
    requires NoNewline(e.word)
    ensures NoNewline(RowLine(width, e))
  {
    PadRightNoNewline(e.word, width);
    DecimalRoundTrip(e.count);
    var p, d := PadRight(e.word, width), Decimal(e.count);
    var line := RowLine(width, e);
    assert forall k :: 0 <= k < |p| ==> line[k] == p[k];
    assert forall k :: |p| < k < |line| ==> line[k] == d[k - |p| - 1];
  }

  lemma TableLinesHaveNoNewline(entries: seq<Entry>)
    requires entries != []
    requires forall i :: 0 <= i < |entries| ==> NoNewline(entries[i].word)
    ensures forall j :: 0 <= j < |TableLines(entries)| ==> NoNewline(TableLines(entries)[j])
  {
    var width := MaxWordLen(entries);
    var lines := TableLines(entries);
    PadRightNoNewline("WORD", width);
    assert NoNewline(lines[0]) by {
      var p := PadRight("WORD", width);
      assert forall k :: 0 <= k < |p| ==> lines[0][k] == p[k];
    }
    assert NoNewline(lines[1]) by {
      var d := Repeat('-', width);
      assert forall k :: 0 <= k < |d| ==> lines[1][k] == d[k];
    }
    forall j | 2 <= j < |lines| ensures NoNewline(lines[j]) {
      RowLineNoNewline(width, entries[j - 2]);
      assert lines[j] == RowLine(width, entries[j - 2]);
    }
  }

  // ---------------------------------------------------------------------
  // What the table looks like.

  /**
   * A non-empty table is n + 2 newline-terminated lines: the header
   * ("WORD" padded to the width, then " COUNT"), the separator (width
   * dashes, a space, five dashes), then entry i's row, in input order:
   * its word padded to the width, a space, and its count in decimal.
   */
  lemma TableLayout(entries: seq<Entry>)
    requires entries != []
    requires forall i :: 0 <= i < |entries| ==> NoNewline(entries[i].word)
    ensures var lines := SplitLines(TableText(entries));
            var width := MaxWordLen(entries);
            && |lines| == |entries| + 2
            && lines[0] == PadRight("WORD", width) + " COUNT"
            && lines[1] == Repeat('-', width) + " -----"
            && forall i :: 0 <= i < |entries| ==>
                 lines[i + 2] == PadRight(entries[i].word, width) + " " + Decimal(entries[i].count)
  {
    TableLinesHaveNoNewline(entries);
    SplitText(TableLines(entries));
  }

  /**
   * Every row's word field is exactly `width` characters wide, since no
   * word has more characters than bytes, and the count field is the
   * decimal text of the count. The padding is `width - ByteLen(word)`
   * spaces exactly when the word is ASCII; a non-ASCII word gets one more
   * space per byte beyond its first in each multi-byte character.
   */
  lemma RowFields(entries: seq<Entry>, i: nat)
    requires i < |entries|
    ensures var width := MaxWordLen(entries);
            var line := RowLine(width, entries[i]);
            && |PadRight(entries[i].word, width)| == width
            && line[..width] == PadRight(entries[i].word, width)
            && line[width] == ' '
            && IsDigits(line[width + 1..])
            && DecimalValue(line[width + 1..]) == entries[i].count
            && (|PadRight(entries[i].word, width)| - |entries[i].word| == width - ByteLen(entries[i].word)
                <==> IsAscii(entries[i].word))
  {
    var width := MaxWordLen(entries);
    ByteLenBounds(entries[i].word);
    PadRightShape(entries[i].word, width);
    DecimalRoundTrip(entries[i].count);
    var line := RowLine(width, entries[i]);
    assert line[width + 1..] == Decimal(entries[i].count);
  }

  /**
   * No floor of 4: the header's word field is "WORD" padded to the width,
   * so when every word is shorter than 4 bytes the header field (4
   * characters) is wider than every row field.
   */
  lemma HeaderField(entries: seq<Entry>)
    requires entries != []
    ensures var width := MaxWordLen(entries);
            && HeaderLine(width)[..4] == "WORD"
            && |HeaderLine(width)| == (if width < 4 then 4 else width) + 6
            && (width < 4 ==> |HeaderLine(width)| > |SeparatorLine(width)|)
  {
    var width := MaxWordLen(entries);
    PadRightShape("WORD", width);
  }
}
