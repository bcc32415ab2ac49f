/**
  The per-sentence cleanup of the first pass: the sentence is lowercased
  and every character that is not an ASCII letter becomes a space, so that
  the word tokenizer only ever sees lowercase letter runs.
 */
module Cleanup {

  predicate IsAsciiUpper(c: char) { 'A' <= c <= 'Z' }

  predicate IsAsciiLower(c: char) { 'a' <= c <= 'z' }

  predicate IsAsciiLetter(c: char) { IsAsciiUpper(c) || IsAsciiLower(c) }

  /** Lowercasing of one character, restricted to ASCII case folding. */
  function LowerChar(c: char): (r: char)
    ensures IsAsciiLetter(c) <==> IsAsciiLetter(r)
    ensures IsAsciiLetter(c) ==> IsAsciiLower(r)
    ensures IsAsciiUpper(c) ==> r as int - 'a' as int == c as int - 'A' as int
    ensures !IsAsciiUpper(c) ==> r == c
  {
    if IsAsciiUpper(c) then (c as int - 'A' as int + 'a' as int) as char else c
  }

  /** The string's lower() method, character by character. */
  function Lower(s: string): (r: string)
    ensures |r| == |s|
    ensures forall i :: 0 <= i < |s| ==> r[i] == LowerChar(s[i])
  {
    if s == [] then [] else [LowerChar(s[0])] + Lower(s[1..])
  }

  /** Substitution of the pattern [^a-zA-Z] by a single space. */
  function BlankNonLetters(s: string): (r: string)
    ensures |r| == |s|
    ensures forall i :: 0 <= i < |s| ==> IsAsciiLetter(s[i]) ==> r[i] == s[i]
    ensures forall i :: 0 <= i < |s| ==> !IsAsciiLetter(s[i]) ==> r[i] == ' '
  {
    if s == [] then []
    else [if IsAsciiLetter(s[0]) then s[0] else ' '] + BlankNonLetters(s[1..])
  }

  /** The cleaned text of a sentence: lowercase first, then blank out non-letters. */
  function Clean(sentence: string): (r: string)
    ensures |r| == |sentence|
    ensures forall i :: 0 <= i < |r| ==> IsAsciiLower(r[i]) || r[i] == ' '
    ensures forall i :: 0 <= i < |sentence| && IsAsciiLetter(sentence[i]) ==>
              r[i] == LowerChar(sentence[i])
    ensures forall i :: 0 <= i < |sentence| && !IsAsciiLetter(sentence[i]) ==> r[i] == ' '
  {
    BlankNonLetters(Lower(sentence))
  }
}
