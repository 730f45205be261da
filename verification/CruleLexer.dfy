/**
 The scanner of the connection-rule compiler (ircd/crule.c). The shared cursor of the
 source points into a NUL-terminated string; here it is the text still to be read.
 */
module CruleLexer {
  import opened CharAttr

  /** The longest word the scanner reads in one go: CR_MAXARGLEN - 1. */
  const MAX_WORD: nat := 79

  datatype Token = End | And | Or | Not | OpenParen | CloseParen | Comma | Word

  /** A scanned token with the text behind it; for a Word the cursor stays on its first character. */
  datatype Lex = Lex(tok: Token, rest: string) | LexErr

  function Peek(r: string): char {
    if r == "" then '\0' else r[0]
  }

  predicate IsBlank(c: char) {
    c == ' ' || c == '\t'
  }

  predicate WordStart(c: char) {
    IsAlpha(c) || c == '*' || c == '?' || c == '.' || c == '-'
  }

  predicate WordChar(c: char) {
    IsAlnum(c) || c == '*' || c == '?' || c == '.' || c == '-'
  }

  predicate GoodLex(l: Lex) {
    l.Lex? && (l.tok == Word ==> l.rest != "" && WordStart(l.rest[0]))
  }

  /** An upper bound on what is left to read, counting the current token. */
  function Weight(l: Lex): nat
    requires l.Lex?
  {
    |l.rest| + if l.tok == Word || l.tok == End then 0 else 1
  }

  /** The next token, given a '&' or '|' seen so far in this call ('\0' for none). */
  function GetToken(r: string, pending: char := '\0'): (l: Lex)
    ensures l.Lex? ==> GoodLex(l) && Weight(l) <= |r|
    decreases |r|
  {
    var c := Peek(r);
    if c == '\0' then Lex(End, r)
    else
      var t := r[1..];
      if IsBlank(c) then GetToken(t, pending)
      else if c == '&' then
        if pending == '\0' then GetToken(t, '&') else if pending == '&' then Lex(And, t) else LexErr
      else if c == '|' then
        if pending == '\0' then GetToken(t, '|') else if pending == '|' then Lex(Or, t) else LexErr
      else if c == '!' then Lex(Not, t)
      else if c == '(' then Lex(OpenParen, t)
      else if c == ')' then Lex(CloseParen, t)
      else if c == ',' then Lex(Comma, t)
      else if c == ':' then Lex(End, t)
      else if WordStart(c) then Lex(Word, r)
      else LexErr
  }

  /** The length of the word at the front of r, at most max. */
  function WordLen(r: string, max: nat): (n: nat)
    ensures n <= |r| && n <= max
    ensures forall i :: 0 <= i < n ==> WordChar(r[i])
    ensures n == max || n == |r| || !WordChar(r[n])
  {
    if max == 0 || r == "" || !WordChar(r[0]) then 0
    else
      var m := WordLen(r[1..], max - 1);
      assert forall i :: 0 <= i < m + 1 ==> r[i] == (if i == 0 then r[0] else r[1..][i - 1]);
      m + 1
  }

  lemma WordLenUnique(w: string, r: string)
    requires |w| <= MAX_WORD && forall i :: 0 <= i < |w| ==> WordChar(w[i])
    requires r == "" || !WordChar(r[0])
    ensures WordLen(w + r, MAX_WORD) == |w|
  {
    assert forall i :: 0 <= i < |w| ==> (w + r)[i] == w[i];
    assert r != "" ==> (w + r)[|w|] == r[0];
  }

  lemma SkipBlanks(gap: string, r: string)
    requires forall i :: 0 <= i < |gap| ==> IsBlank(gap[i])
    ensures GetToken(gap + r) == GetToken(r)
  {
    if gap == "" {
      assert gap + r == r;
    } else {
      SkipBlanks(gap[1..], r);
      assert (gap + r)[1..] == gap[1..] + r;
    }
  }
}
