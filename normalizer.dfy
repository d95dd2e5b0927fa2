/** Character normalisation used by the signature scanner
    (src/App.jsx:18-32 and the prefix normalisation at 105-109): a character
    is lower-cased and then, if it is one of the leet-speak / homoglyph
    substitutes, replaced by the letter it stands for. */
module Normalizer {

  /** Lower-casing restricted to ASCII: `A`-`Z` become `a`-`z`, every other
      character is returned unchanged. */
  function ToLower(c: char): (r: char)
    ensures 'A' <= c <= 'Z' ==> 'a' <= r <= 'z' && r as int == c as int + 32
    ensures !('A' <= c <= 'Z') ==> r == c
  {
    if 'A' <= c <= 'Z' then (c as int + 32) as char else c
  }

  /** The keys of the substitution table. */
  predicate IsSubstitute(c: char) {
    c == '0' || c == '1' || c == '!' || c == '@' || c == '4' ||
    c == '$' || c == '5' || c == '3' || c == '7'
  }

  /** The substitution table `0→o, 1→l, !→i, @→a, 4→a, $→s, 5→s, 3→e, 7→t`;
      characters outside the table pass through. */
  function Substitute(c: char): (r: char)
    ensures IsSubstitute(c) ==> 'a' <= r <= 'z'
    ensures !IsSubstitute(c) ==> r == c
  {
    match c
    case '0' => 'o'
    case '1' => 'l'
    case '!' => 'i'
    case '@' => 'a'
    case '4' => 'a'
    case '$' => 's'
    case '5' => 's'
    case '3' => 'e'
    case '7' => 't'
    case _ => c
  }

  /** `normalizeChar`: lower-case first, then substitute. The result is always
      canonical: never an upper-case letter and never a substitution key; a
      substituted character becomes a lower-case letter, and a character
      outside the table is only lower-cased. */
  function Normalize(c: char): (r: char)
    ensures !('A' <= r <= 'Z') && !IsSubstitute(r)
    ensures IsSubstitute(c) ==> 'a' <= r <= 'z'
    ensures !IsSubstitute(c) ==> r == ToLower(c)
  {
    Substitute(ToLower(c))
  }

  /** The normalised text: `split("").map(normalizeChar).join("")`. */
  function NormalizeSeq(s: string): (r: string)
    ensures |r| == |s|
  {
    seq(|s|, i requires 0 <= i < |s| => Normalize(s[i]))
  }

  /** The nine entries of the table, each applied after lower-casing. */
  lemma NormalizeTable()
    ensures Normalize('0') == 'o' && Normalize('1') == 'l' && Normalize('!') == 'i'
    ensures Normalize('@') == 'a' && Normalize('4') == 'a' && Normalize('$') == 's'
    ensures Normalize('5') == 's' && Normalize('3') == 'e' && Normalize('7') == 't'
  {
  }

  /** Normalisation is total and maps each character to exactly one
      character, so normalising a string preserves its length and position. */
  lemma NormalizeSeqPointwise(s: string)
    ensures |NormalizeSeq(s)| == |s|
    ensures forall i :: 0 <= i < |s| ==> NormalizeSeq(s)[i] == Normalize(s[i])
  {
  }

  /** Normalising a slice is slicing the normalised text. */
  lemma NormalizeSeqSlice(s: string, a: nat, b: nat)
    requires a <= b <= |s|
    ensures NormalizeSeq(s[a..b]) == NormalizeSeq(s)[a..b]
  {
  }

  /** Normalisation distributes over concatenation. */
  lemma NormalizeSeqAppend(s: string, t: string)
    ensures NormalizeSeq(s + t) == NormalizeSeq(s) + NormalizeSeq(t)
  {
  }

  /** Normalising twice is normalising once. */
  lemma NormalizeIdempotent(s: string)
    ensures NormalizeSeq(NormalizeSeq(s)) == NormalizeSeq(s)
  {
  }

  /** Normalisation does not distinguish an ASCII letter from its upper-case
      form. */
  lemma NormalizeIgnoresCase(c: char)
    requires 'a' <= c <= 'z'
    ensures Normalize((c as int - 32) as char) == Normalize(c)
  {
  }
}
