/**
 * Characters: the classes the reader tells apart, and the scan that finds
 * where a run of characters of one class ends (what nom's `take_while`,
 * `take_while1` and `space0` do on the remaining input).
 */
module Chars {

  /**
   * Rust's `char::is_whitespace`: the Unicode White_Space property. Line
   * breaks are whitespace; the characters a line is told apart by ('.',
   * ':', '~', '#') are not.
   */
  predicate IsWhitespace(c: char): (b: bool)
    ensures c == '\n' || c == '\r' ==> b
    ensures b ==> c != '.' && c != ':' && c != '~' && c != '#'
  {
    || ('\t' <= c <= '\r')
    || c == ' '
    || c == '\U{85}'
    || c == '\U{A0}'
    || c == '\U{1680}'
    || ('\U{2000}' <= c <= '\U{200A}')
    || c == '\U{2028}'
    || c == '\U{2029}'
    || c == '\U{202F}'
    || c == '\U{205F}'
    || c == '\U{3000}'
  }

  /** The characters nom's `space0` skips: spaces and tabs, all of them whitespace. */
  predicate IsSpaceOrTab(c: char): (b: bool)
    ensures b ==> IsWhitespace(c)
  {
    c == ' ' || c == '\t'
  }

  /** `is_mnemonic_char`: not whitespace, not '.', not ':'; so a unit character other than '.'. */
  predicate IsMnemonicChar(c: char): (b: bool)
    ensures b <==> IsUnitChar(c) && c != '.'
  {
    !IsWhitespace(c) && c != '.' && c != ':'
  }

  /** What `parse_unit` accepts: neither whitespace nor ':'; a '.' may occur in a unit. */
  predicate IsUnitChar(c: char): (b: bool)
    ensures c == '.' ==> b
    ensures b ==> c != ':' && !IsSpaceOrTab(c)
  {
    !IsWhitespace(c) && c != ':'
  }

  /** The character classes a scan can run over. */
  datatype CharClass = Whitespace | NotWhitespace | SpaceOrTab | Mnemonic | Unit | NotColon

  predicate In(c: char, cls: CharClass) {
    match cls
    case Whitespace => IsWhitespace(c)
    case NotWhitespace => !IsWhitespace(c)
    case SpaceOrTab => IsSpaceOrTab(c)
    case Mnemonic => IsMnemonicChar(c)
    case Unit => IsUnitChar(c)
    case NotColon => c != ':'
  }

  /** End of the maximal run of characters of class cls that starts at index i. */
  function Span(s: string, i: nat, cls: CharClass): (j: nat)
    requires i <= |s|
    ensures i <= j <= |s|
    ensures j == |s| || !In(s[j], cls)
    decreases |s| - i
  {
    if i == |s| || !In(s[i], cls) then i else Span(s, i + 1, cls)
  }

  /** Every character the run covers belongs to cls. */
  lemma {:induction false} SpanAll(s: string, i: nat, cls: CharClass)
    requires i <= |s|
    ensures forall k :: i <= k < Span(s, i, cls) ==> In(s[k], cls)
    decreases |s| - i
  {
    if i < |s| && In(s[i], cls) {
      SpanAll(s, i + 1, cls);
    }
  }

  /** A run's end is determined by its characters: all in cls before j, and none at j. */
  lemma {:induction false} SpanUnique(s: string, i: nat, j: nat, cls: CharClass)
    requires i <= j <= |s|
    requires forall k :: i <= k < j ==> In(s[k], cls)
    requires j == |s| || !In(s[j], cls)
    ensures Span(s, i, cls) == j
    decreases j - i
  {
    if i < j {
      SpanUnique(s, i + 1, j, cls);
    }
  }

  /**
   * The characters of s from index i up to j: the slice `s[i..j]`, built
   * character by character.
   */
  function Sub(s: string, i: nat, j: nat): (r: string)
    requires i <= j <= |s|
    ensures |r| == j - i
    ensures forall k :: 0 <= k < j - i ==> r[k] == s[i + k]
  {
    seq(j - i, k requires 0 <= k < j - i => s[i + k])
  }

}
