/** The text log of a table of the distributed database (ircd/ddb_db_native.c). */
module DdbLog {
  import opened Options
  import opened CharAttr
  import opened Decimal

  datatype Register = Register(id: nat, mask: string, key: string, content: Option<string>)

  const LINE_LIMIT := 501

  // ---- reading lines

  /** s as ddb_read copies it: without carriage returns. */
  function Strip(s: string): string {
    if s == "" then "" else if s[0] == '\r' then Strip(s[1..]) else [s[0]] + Strip(s[1..])
  }

  /** The place of the first line feed at or behind pos, or the end of the file. */
  function LineEnd(file: string, pos: nat): (n: nat)
    requires pos <= |file|
    ensures pos <= n <= |file|
    ensures n < |file| ==> file[n] == '\n'
    ensures forall i :: pos <= i < n ==> file[i] != '\n'
    decreases |file| - pos
  {
    if pos == |file| || file[pos] == '\n' then pos else LineEnd(file, pos + 1)
  }

  lemma {:induction false} StripLast(s: string, c: char)
    ensures Strip(s + [c]) == Strip(s) + if c == '\r' then "" else [c]
  {
    if s == "" {
      assert s + [c] == [c];
    } else {
      StripLast(s[1..], c);
      assert (s + [c])[1..] == s[1..] + [c];
    }
  }

  /** Carriage returns go, and everything else stays. */
  lemma {:induction false} StripIs(s: string)
    ensures '\r' !in Strip(s) && multiset(Strip(s)) == multiset(s)['\r' := 0]
    ensures '\r' !in s ==> Strip(s) == s
  {
    if s != "" {
      StripIs(s[1..]);
      assert s == [s[0]] + s[1..];
    }
  }

  lemma {:induction false} StripGrows(s: string, n: nat)
    requires n <= |s|
    ensures |Strip(s[..n])| <= |Strip(s)|
  {
    if n < |s| {
      StripGrows(s[..|s| - 1], n);
      assert s[..|s| - 1][..n] == s[..n];
      StripLast(s[..|s| - 1], s[|s| - 1]);
      assert s[..|s| - 1] + [s[|s| - 1]] == s;
    } else {
      assert s[..n] == s;
    }
  }

  lemma Slice(s: string, from: nat, to: nat, end: nat)
    requires from <= to <= end <= |s|
    ensures s[from..end][..to - from] == s[from..to]
  {
  }

  /** What ddb_read gives at pos: the line up to a line feed, if it is not too long, and the place behind it. */
  ghost predicate Got(file: string, pos: nat, line: Option<string>, next: nat)
    requires pos <= |file|
  {
    var n := LineEnd(file, pos);
    var text := Strip(file[pos..n]);
    if n < |file| && |text| <= LINE_LIMIT then line == Some(text) && next == n + 1 else line == None
  }

  /** ddb_read: the line at pos; None stands for -1, at the end of the file or for a line that is too long. */
  method Read(file: string, pos: nat) returns (line: Option<string>, next: nat)
    requires pos <= |file|
    ensures next <= |file|
    ensures Got(file, pos, line, next)
  {
    var buf := "";
    var len := 0;
    next := pos;
    ghost var n := LineEnd(file, pos);
    while next < |file|
      invariant pos <= next <= n
      invariant buf == Strip(file[pos..next]) && len == |buf| <= LINE_LIMIT
    {
      var c := file[next];
      assert file[pos..next + 1] == file[pos..next] + [c];
      StripLast(file[pos..next], c);
      next := next + 1;
      if c == '\r' {
        continue;
      }
      if c == '\n' {
        return Some(buf), next;
      }
      buf := buf + [c];
      len := len + 1;
      if len > LINE_LIMIT {
        Slice(file, pos, next, n);
        StripGrows(file[pos..n], next - pos);
        return None, next;
      }
    }
    return None, next;
  }

  // ---- numbers

  predicate IsSpace(c: char) {
    c == ' ' || ('\t' <= c <= '\r')
  }

  /** atoi and atol, without a bound on the number. */
  function Atoi(s: string): int {
    if s == "" then 0
    else if IsSpace(s[0]) then Atoi(s[1..])
    else if s[0] == '-' then -(Value(s[1..][..DigitRun(s[1..])], 0) as int)
    else if s[0] == '+' then Value(s[1..][..DigitRun(s[1..])], 0)
    else Value(s[..DigitRun(s)], 0)
  }

  lemma AtoiOf(n: nat, rest: string)
    requires rest == "" || !IsDigit(rest[0])
    ensures Atoi(Digits(n) + rest) == n
  {
    var s := Digits(n) + rest;
    assert IsDigit(s[0]);
    DigitRunOf(Digits(n), rest);
    assert s[..|Digits(n)|] == Digits(n);
    ValueOfDigits(n);
  }

  // ---- records

  function KeyPart(r: Register): string {
    match r.content
    case None => r.key
    case Some(c) => r.key + " " + c
  }

  /** The line that ddb_db_write appends, without its line feed. */
  function Line(r: Register): string {
    Digits(r.id) + " " + (r.mask + " " + KeyPart(r))
  }

  /** strchr, for a space: its place, or the end of s. */
  function Space(s: string): (n: nat)
    ensures n <= |s| && (n < |s| ==> s[n] == ' ') && forall i :: 0 <= i < n ==> s[i] != ' '
  {
    if s == "" || s[0] == ' ' then 0 else 1 + Space(s[1..])
  }

  /** An int passed as unsigned long. */
  function Unsigned(id: int): nat {
    id % 0x1_0000_0000_0000_0000
  }

  /** Key and content, at the end of a line. */
  function ParseKey(id: int, mask: string, key: string): Register {
    var k := Space(key);
    if k == |key| then Register(Unsigned(id), mask, key, None)
    else Register(Unsigned(id), mask, key[..k], Some(key[k + 1..]))
  }

  /** What follows the id. */
  function ParseMask(id: int, mask: string): Option<Register> {
    var j := Space(mask);
    if j == |mask| then None else Some(ParseKey(id, mask[..j], mask[j + 1..]))
  }

  /** The loop body of ddb_db_read: the fields of a line, or None for a line that is skipped. */
  function Parse(line: string): Option<Register> {
    var id := Atoi(line);
    var i := Space(line);
    if id == 0 || i == |line| then None else ParseMask(id, line[i + 1..])
  }

  predicate Plain(s: string) {
    forall i :: 0 <= i < |s| ==> !IsEol(s[i]) && s[i] != '\0'
  }

  /** What the network can send: words for mask and key, no line breaks, and a positive int as id. */
  predicate Sendable(r: Register) {
    && 0 < r.id < 0x8000_0000
    && Plain(r.mask) && ' ' !in r.mask
    && Plain(r.key) && ' ' !in r.key
    && (r.content.Some? ==> Plain(r.content.value))
  }

  lemma {:induction false} SpaceAt(word: string, rest: string)
    requires ' ' !in word && (rest == "" || rest[0] == ' ')
    ensures Space(word + rest) == |word|
  {
    if word == "" {
      assert word + rest == rest;
    } else {
      SpaceAt(word[1..], rest);
      assert (word + rest)[1..] == word[1..] + rest;
    }
  }

  lemma DigitsHaveNoSpace(n: nat)
    ensures ' ' !in Digits(n) && Plain(Digits(n))
  {
  }

  /** A text cut at its first space. */
  lemma Cut(word: string, rest: string)
    requires ' ' !in word
    ensures Space(word + " " + rest) == |word|
    ensures (word + " " + rest)[..|word|] == word && (word + " " + rest)[|word| + 1..] == rest
  {
    SpaceAt(word, " " + rest);
    assert word + " " + rest == word + (" " + rest);
  }

  lemma ParseKeyPart(r: Register)
    requires Sendable(r)
    ensures ParseKey(r.id, r.mask, KeyPart(r)) == r
  {
    match r.content
    case None => NoSpace(r.key);
    case Some(c) => Cut(r.key, c);
  }

  lemma IdOfLine(r: Register)
    ensures Atoi(Line(r)) == r.id
  {
    AtoiOf(r.id, " " + (r.mask + " " + KeyPart(r)));
    assert Line(r) == Digits(r.id) + (" " + (r.mask + " " + KeyPart(r)));
  }

  /** Reading a written line gives the record back. */
  lemma ParseLine(r: Register)
    requires Sendable(r)
    ensures Parse(Line(r)) == Some(r)
  {
    IdOfLine(r);
    DigitsHaveNoSpace(r.id);
    hide Digits, Atoi, Space, ParseKey, KeyPart;
    Cut(Digits(r.id), r.mask + " " + KeyPart(r));
    Cut(r.mask, KeyPart(r));
    ParseKeyPart(r);
  }

  lemma NoSpace(word: string)
    requires ' ' !in word
    ensures Space(word) == |word|
  {
    SpaceAt(word, "");
    assert word + "" == word;
  }

  lemma LinePlain(r: Register)
    requires Sendable(r)
    ensures Plain(Line(r)) && |Line(r)| >= 3
  {
    DigitsHaveNoSpace(r.id);
  }

  // ---- the file

  function File(lines: seq<string>): string {
    if lines == [] then "" else lines[0] + "\n" + File(lines[1..])
  }

  /** The place of line number k. */
  function Start(lines: seq<string>, k: nat): nat
    requires k <= |lines|
  {
    |File(lines[..k])|
  }

  lemma {:induction false} FileSplit(lines: seq<string>, k: nat)
    requires k <= |lines|
    ensures File(lines) == File(lines[..k]) + File(lines[k..])
  {
    if k == 0 {
      assert lines[..0] == [] && lines[0..] == lines;
    } else {
      FileSplit(lines[1..], k - 1);
      assert lines[..k][1..] == lines[1..][..k - 1] && lines[k..] == lines[1..][k - 1..];
    }
  }

  lemma StartNext(lines: seq<string>, k: nat)
    requires k < |lines|
    ensures File(lines[..k + 1]) == File(lines[..k]) + (lines[k] + "\n")
  {
    FileSplit(lines[..k + 1], k);
    assert lines[..k + 1][..k] == lines[..k] && lines[..k + 1][k..] == [lines[k]];
    assert [lines[k]][1..] == [];
    assert File([lines[k]]) == lines[k] + "\n";
  }

  /** The text from line k on. */
  lemma FileFrom(lines: seq<string>, k: nat)
    requires k <= |lines|
    ensures Start(lines, k) <= |File(lines)| && File(lines)[Start(lines, k)..] == File(lines[k..])
    ensures k < |lines| ==> Start(lines, k + 1) == Start(lines, k) + |lines[k]| + 1 <= |File(lines)|
    ensures k < |lines| ==> File(lines)[Start(lines, k)..Start(lines, k + 1)] == lines[k] + "\n"
    ensures k == |lines| ==> Start(lines, k) == |File(lines)|
  {
    FileSplit(lines, k);
    if k < |lines| {
      hide File;
      FileSplit(lines, k + 1);
      StartNext(lines, k);
      assert File(lines) == File(lines[..k]) + (lines[k] + "\n") + File(lines[k + 1..]);
    } else {
      assert lines[..k] == lines;
    }
  }

  lemma StartsGrow(lines: seq<string>, j: nat, k: nat)
    requires j <= k <= |lines|
    ensures Start(lines, j) <= Start(lines, k)
    ensures j < k ==> Start(lines, j) + |lines[j]| + 1 <= Start(lines, k)
  {
    FileSplit(lines[..k], j);
    assert lines[..k][..j] == lines[..j];
    if j < k {
      assert lines[..k][j..][0] == lines[j];
    }
  }

  /** Reading at the start of a line. */
  lemma ReadsLine(lines: seq<string>, k: nat)
    requires k < |lines| && Plain(lines[k])
    ensures Start(lines, k) + |lines[k]| < |File(lines)|
    ensures LineEnd(File(lines), Start(lines, k)) == Start(lines, k) + |lines[k]| == Start(lines, k + 1) - 1
    ensures File(lines)[Start(lines, k)..Start(lines, k) + |lines[k]|] == lines[k]
    ensures Strip(lines[k]) == lines[k]
  {
    hide File, Strip, LineEnd, Start;
    FileFrom(lines, k);
    var p := Start(lines, k);
    var f := File(lines);
    var both := f[p..Start(lines, k + 1)];
    assert forall i :: 0 <= i < |lines[k]| ==> f[p + i] == both[i] == lines[k][i];
    assert f[p + |lines[k]|] == both[|lines[k]|] == '\n';
    StripIs(lines[k]);
    LineEndAt(f, p, p + |lines[k]|);
  }

  lemma {:induction false} LineEndAt(file: string, pos: nat, n: nat)
    requires pos <= n < |file| && file[n] == '\n' && forall i :: pos <= i < n ==> file[i] != '\n'
    ensures LineEnd(file, pos) == n
    decreases n - pos
  {
    if pos < n {
      LineEndAt(file, pos + 1, n);
    }
  }
}
