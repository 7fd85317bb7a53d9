/**
 * Character-level helpers shared by the tokenizer, the length filter and
 * the table renderer: the alphabetic test behind `char::is_alphabetic`,
 * the lower-casing behind `str::to_lowercase`, and the UTF-8 byte length
 * behind `String::len`.
 *
 * Dafny's `char` is a Unicode scalar value, so the UTF-8 length is exact.
 * The Unicode classification and case tables are not: `IsAlpha` and
 * `LowerChar` are given on ASCII only. The general lemmas of the model use
 * them only through the three small facts stated below; the first two,
 * that a newline is not a letter and that lower-casing a letter never
 * gives a newline, hold for Unicode as well, while the third, that
 * lower-casing a letter gives a letter, holds only for the model's
 * one-character lowering.
 */
module Chars {

  /** Alphabetic classification; the model keeps the ASCII letters. */
  predicate IsAlpha(c: char) {
    ('a' <= c <= 'z') || ('A' <= c <= 'Z')
  }

  /** Lower-case mapping of one character; the model maps ASCII upper case. */
  function LowerChar(c: char): char {
    if 'A' <= c <= 'Z' then (c as int + 32) as char else c
  }

  /** Lower-casing of a whole word, character by character. */
  function ToLower(s: string): (r: string)
    ensures |r| == |s|
    ensures forall i :: 0 <= i < |s| ==> r[i] == LowerChar(s[i])
  {
    seq(|s|, i requires 0 <= i < |s| => LowerChar(s[i]))
  }

  /** The line terminator is not a letter. */
  lemma NewlineIsNotAlpha()
    ensures !IsAlpha('\n')
  {
  }

  /** Lower-casing a letter never gives a line terminator. */
  lemma LowerIsNotNewline(c: char)
    requires IsAlpha(c)
    ensures LowerChar(c) != '\n'
  {
  }

  /**
   * Lower-casing a letter gives a letter. This holds for the one-character
   * lowering of the model; Unicode's `'İ'` lowers to `i` followed by a
   * combining mark, which is not alphabetic.
   */
  lemma LowerKeepsAlpha(c: char)
    requires IsAlpha(c)
    ensures IsAlpha(LowerChar(c))
  {
  }

  predicate IsLowerAscii(s: string) {
    forall k :: 0 <= k < |s| ==> 'a' <= s[k] <= 'z'
  }

  /** A word of lower-case ASCII letters is its own lower-case form. */
  lemma ToLowerKeepsLower(s: string)
    requires IsLowerAscii(s)
    ensures ToLower(s) == s
  {
  }

  /** Number of bytes UTF-8 uses for one scalar value. */
  function Utf8Width(c: char): (n: nat)
    ensures 1 <= n <= 4
    ensures n == 1 <==> c as int < 0x80
  {
    if c as int < 0x80 then 1
    else if c as int < 0x800 then 2
    else if c as int < 0x1_0000 then 3
    else 4
  }

  /** `String::len`: the UTF-8 byte length of a word. */
  function ByteLen(s: string): nat {
    if s == [] then 0 else Utf8Width(s[0]) + ByteLen(s[1..])
  }

  predicate IsAscii(s: string) {
    forall i :: 0 <= i < |s| ==> s[i] as int < 0x80
  }

  /** A word never has fewer bytes than characters, and has exactly as many iff it is ASCII. */
  lemma {:induction false} ByteLenBounds(s: string)
    ensures |s| <= ByteLen(s)
    ensures ByteLen(s) == |s| <==> IsAscii(s)
  {
    if s != [] {
      ByteLenBounds(s[1..]);
      assert forall i :: 1 <= i < |s| ==> s[i] == s[1..][i - 1];
      if IsAscii(s) {
        assert IsAscii(s[1..]);
      }
    }
  }

  /** A non-empty word has at least one byte. */
  lemma NonEmptyByteLen(s: string)
    requires s != []
    ensures ByteLen(s) >= 1
  {
  }
}
