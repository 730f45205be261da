/**
 Character classes of the server (ircd/table_gen.c), and what characters mean in masks (ircd/match.c).
 The tables say that {|}~ are lower-case letters and [\]^ their upper-case forms,
 so '|' and '^' count as alphabetic.
 */
module CharAttr {

  predicate IsLower(c: char) {
    'a' <= c <= 'z' || c == '{' || c == '|' || c == '}' || c == '~'
  }

  predicate IsUpper(c: char) {
    'A' <= c <= 'Z' || c == '[' || c == '\\' || c == ']' || c == '^'
  }

  predicate IsDigit(c: char) {
    '0' <= c <= '9'
  }

  predicate IsAlpha(c: char) {
    IsLower(c) || IsUpper(c)
  }

  predicate IsAlnum(c: char) {
    IsAlpha(c) || IsDigit(c)
  }

  predicate Wildcard(c: char) {
    c == '*' || c == '?'
  }

  /** A backslash that makes the wildcard behind it an ordinary character. */
  predicate Escape(mask: string) {
    |mask| > 1 && mask[0] == '\\' && Wildcard(mask[1])
  }

  predicate IsEol(c: char) {
    c == '\n' || c == '\r'
  }

  /** RFC 1459 case folding, extended to the ISO 8859-1 letters. */
  function ToLower(c: char): char {
    if IsUpper(c) then c + 32 as char
    else if 0xc0 <= c as int <= 0xd6 || 0xd8 <= c as int <= 0xde then c + 32 as char
    else c
  }

  function Lower(s: string): (r: string)
    ensures |r| == |s| && forall i :: 0 <= i < |s| ==> r[i] == ToLower(s[i])
  {
    seq(|s|, i requires 0 <= i < |s| => ToLower(s[i]))
  }

  /** The letters that fold: 26 of them, the brackets to the braces, backslash and '^', and those of ISO 8859-1. */
  lemma FoldedLetters()
    ensures ToLower('A') == 'a' && ToLower('Z') == 'z' && ToLower('[') == '{' && ToLower(']') == '}'
    ensures ToLower('\\') == '|' && ToLower('^') == '~'
    ensures forall c :: 'A' <= c <= 'Z' ==> ToLower(c) as int - 'a' as int == c as int - 'A' as int
    ensures forall c :: c as int < 0xc0 && !('A' <= c <= '^') ==> ToLower(c) == c
    ensures forall c :: 0xc0 <= c as int && c as int != 0xd7 && c as int < 0xdf ==> ToLower(c) as int == c as int + 32
    ensures forall c :: c as int == 0xd7 || 0xdf <= c as int ==> ToLower(c) == c
  {
  }

  lemma LowerIdempotent(s: string)
    ensures Lower(Lower(s)) == Lower(s)
  {
    assert forall i :: 0 <= i < |s| ==> ToLower(ToLower(s[i])) == ToLower(s[i]);
  }
}
