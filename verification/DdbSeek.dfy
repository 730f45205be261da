/** The binary search over the lines of a log (ircd/ddb_db_native.c, ddb_seek) and the reading of a log. */
module DdbSeek {
  import opened Options
  import opened Sequences
  import opened DdbLog
  import opened Decimal

  ghost predicate PlainLines(lines: seq<string>) {
    forall k :: 0 <= k < |lines| ==> Plain(lines[k])
  }

  /** The line that holds position p. */
  lemma {:induction false} LineOf(lines: seq<string>, p: nat) returns (k: nat)
    requires p < |File(lines)|
    ensures k < |lines| && Start(lines, k) <= p < Start(lines, k + 1)
  {
    k := 0;
    assert lines[..0] == [];
    FileFrom(lines, |lines|);
    while k < |lines| && Start(lines, k + 1) <= p
      invariant k <= |lines| && Start(lines, k) <= p
    {
      k := k + 1;
    }
  }

  /** No line feed is inside a line, and one is at its end. */
  lemma LineFeeds(lines: seq<string>, k: nat)
    requires k < |lines| && PlainLines(lines)
    ensures Start(lines, k) < Start(lines, k + 1) <= |File(lines)|
    ensures File(lines)[Start(lines, k + 1) - 1] == '\n'
    ensures forall i :: Start(lines, k) <= i < Start(lines, k + 1) - 1 ==> File(lines)[i] != '\n'
  {
    ReadsLine(lines, k);
  }

  /** The first loop of the search: back to the start of the line that holds mid. */
  method BackToLine(file: string, lo: nat, mid: nat) returns (ptr: int)
    requires lo <= mid < |file|
    ensures lo <= ptr <= mid + 1
    ensures file[mid] == '\n' ==> ptr == mid + 1
    ensures file[mid] != '\n' ==> ptr <= mid && forall i :: ptr <= i <= mid ==> file[i] != '\n'
    ensures ptr == lo || file[ptr - 1] == '\n'
  {
    ptr := mid;
    while ptr >= lo && file[ptr] != '\n'
      invariant lo - 1 <= ptr <= mid
      invariant forall i :: ptr < i <= mid ==> file[i] != '\n'
    {
      ptr := ptr - 1;
    }
    if ptr < lo {
      ptr := lo;
    }
    if file[ptr] == '\n' {
      ptr := ptr + 1;
    }
  }

  /** The second loop: behind the line feed at or after mid. */
  method SkipLine(file: string, mid: nat, hi: nat) returns (ptr2: nat)
    requires mid <= hi <= |file|
    ensures ptr2 == if LineEnd(file, mid) < hi then LineEnd(file, mid) + 1 else hi
  {
    ptr2 := mid;
    while ptr2 < hi
      invariant mid <= ptr2 <= hi
      invariant LineEnd(file, ptr2) == LineEnd(file, mid)
    {
      ptr2 := ptr2 + 1;
      if file[ptr2 - 1] == '\n' {
        return;
      }
    }
  }

  /** Where the two loops arrive from the middle of a log. */
  lemma Arrive(lines: seq<string>, a: nat, b: nat, mid: nat, ptr: nat) returns (k: nat)
    requires PlainLines(lines) && a < b <= |lines| && Start(lines, a) <= mid &&
             mid + 1 < Start(lines, b) <= |File(lines)|
    requires Start(lines, a) <= ptr <= mid + 1
    requires File(lines)[mid] == '\n' ==> ptr == mid + 1
    requires File(lines)[mid] != '\n' ==> ptr <= mid && forall i :: ptr <= i <= mid ==> File(lines)[i] != '\n'
    requires ptr == Start(lines, a) || File(lines)[ptr - 1] == '\n'
    ensures a <= k < b && ptr == Start(lines, k)
    ensures LineEnd(File(lines), mid) + 1 == if File(lines)[mid] == '\n' then Start(lines, k) else Start(lines, k + 1)
    ensures LineEnd(File(lines), mid) < Start(lines, b)
  {
    var f := File(lines);
    k := LineOf(lines, mid);
    LineFeeds(lines, k);
    if k < a {
      StartsGrow(lines, k + 1, a);
      assert false;
    }
    if b <= k {
      StartsGrow(lines, b, k);
      assert false;
    }
    StartsGrow(lines, k + 1, b);
    LineEndAt(f, mid, Start(lines, k + 1) - 1);
    if f[mid] == '\n' {
      assert mid == Start(lines, k + 1) - 1;
      k := k + 1;
    } else {
      StartsGrow(lines, a, k);
      if k > 0 {
        LineFeeds(lines, k - 1);
      }
    }
  }

  function Lines(rs: seq<Register>): (lines: seq<string>)
    ensures |lines| == |rs| && forall i :: 0 <= i < |rs| ==> lines[i] == Line(rs[i])
  {
    seq(|rs|, i requires 0 <= i < |rs| => Line(rs[i]))
  }

  ghost predicate AllSendable(rs: seq<Register>) {
    forall i :: 0 <= i < |rs| ==> Sendable(rs[i])
  }

  ghost predicate Increasing(rs: seq<Register>) {
    forall i, j :: 0 <= i < j < |rs| ==> rs[i].id < rs[j].id
  }

  lemma LinesPlain(rs: seq<Register>)
    requires AllSendable(rs)
    ensures PlainLines(Lines(rs)) && forall i :: 0 <= i < |rs| ==> |Lines(rs)[i]| >= 3
  {
    forall i | 0 <= i < |rs| ensures Plain(Lines(rs)[i]) && |Lines(rs)[i]| >= 3 {
      LinePlain(rs[i]);
    }
  }

  lemma UnsignedId(r: Register)
    requires Sendable(r)
    ensures Unsigned(r.id) == r.id
  {
  }

  /** atol at the start of a line reads its id. */
  lemma IdAt(rs: seq<Register>, k: nat)
    requires AllSendable(rs) && k < |rs|
    ensures Start(Lines(rs), k) <= |File(Lines(rs))| &&
            Unsigned(Atoi(File(Lines(rs))[Start(Lines(rs), k)..])) == rs[k].id
  {
    var lines := Lines(rs);
    FileFrom(lines, k);
    assert lines[k..][0] == Line(rs[k]);
    var rest := File(lines[k..][1..]);
    var text := rs[k].mask + " " + KeyPart(rs[k]);
    assert File(lines[k..]) == Line(rs[k]) + "\n" + rest;
    UnsignedId(rs[k]);
    hide File, KeyPart, Atoi, Digits, Unsigned, Sendable;
    Regroup(Digits(rs[k].id), text, rest);
    AtoiOf(rs[k].id, " " + text + "\n" + rest);
  }

  lemma Regroup(digits: string, text: string, rest: string)
    ensures digits + " " + text + "\n" + rest == digits + (" " + text + "\n" + rest)
  {
  }

  /** The place of the first record with an id not below the one asked for, or the number of records. */
  function FirstFrom(rs: seq<Register>, id: nat): (k: nat)
    ensures k <= |rs| && (forall i :: 0 <= i < k ==> rs[i].id < id) && (k < |rs| ==> rs[k].id >= id)
  {
    if rs == [] || rs[0].id >= id then 0 else 1 + FirstFrom(rs[1..], id)
  }

  lemma {:induction false} FirstFromIs(rs: seq<Register>, id: nat, k: nat)
    requires k <= |rs| && (forall i :: 0 <= i < k ==> rs[i].id < id) && (k < |rs| ==> rs[k].id >= id)
    ensures FirstFrom(rs, id) == k
  {
    if k > 0 {
      FirstFromIs(rs[1..], id, k - 1);
    }
  }

  /**
   ddb_seek on a log with increasing ids: the search ends, at the first record from id on or at the end of the
   file.
   */
  method Seek(file: string, id: nat, ghost rs: seq<Register>) returns (pos: nat)
    requires AllSendable(rs) && (id == 0 || Increasing(rs)) && file == File(Lines(rs))
    ensures pos == Start(Lines(rs), FirstFrom(rs, id)) <= |file|
  {
    hide File, Start, Line, Atoi, Sendable, Unsigned;
    ghost var lines := Lines(rs);
    LinesPlain(rs);
    if id == 0 {
      StartZero(lines);
      FirstFromIs(rs, id, 0);
      return 0;
    }
    var lo, hi := 0, |file|;
    ghost var a, b := 0, |rs|;
    StartZero(lines);
    FileFrom(lines, |rs|);
    while lo != hi
      invariant a <= b <= |rs| && lo == Start(lines, a) && hi == Start(lines, b) && lo <= hi <= |file|
      invariant forall i :: 0 <= i < a ==> rs[i].id < id
      invariant forall i :: b <= i < |rs| ==> rs[i].id > id
      decreases hi - lo
    {
      StartsGrow(lines, a, b);
      var mid := lo + (hi - lo) / 2;
      var ptr := BackToLine(file, lo, mid);
      var ptr2 := SkipLine(file, mid, hi);
      ghost var k := Arrive(lines, a, b, mid, ptr);
      StartsGrow(lines, a, k);
      StartsGrow(lines, k, b);
      StartsGrow(lines, k, k + 1);
      StartsGrow(lines, k + 1, b);
      IdAt(rs, k);
      var idTable := Unsigned(Atoi(file[ptr..]));
      if idTable > id {
        hi := ptr;
        b := k;
      } else if idTable < id {
        lo := ptr2;
        a := if file[mid] == '\n' then k else k + 1;
      } else {
        FirstFromIs(rs, id, k);
        return ptr;
      }
    }
    StartsGrow(lines, a, b);
    FirstFromIs(rs, id, a);
    return lo;
  }

  lemma StartZero(lines: seq<string>)
    ensures Start(lines, 0) == 0
  {
    assert lines[..0] == [];
  }

  /** The records up to the first line that is too long for the reader. */
  function Readable(rs: seq<Register>): (p: seq<Register>)
    ensures p <= rs
  {
    if rs == [] || |Line(rs[0])| > LINE_LIMIT then [] else [rs[0]] + Readable(rs[1..])
  }

  lemma {:induction false} ReadableAll(rs: seq<Register>)
    ensures Readable(rs) == rs <==> forall i :: 0 <= i < |rs| ==> |Line(rs[i])| <= LINE_LIMIT
  {
    hide Line;
    if rs != [] {
      var tail := rs[1..];
      ReadableAll(tail);
      assert rs == [rs[0]] + tail && forall i :: 0 <= i < |tail| ==> tail[i] == rs[i + 1];
      if |Line(rs[0])| <= LINE_LIMIT {
        SameTail([rs[0]], Readable(tail), tail);
      }
    }
  }

  lemma {:induction false} ReadableAfter(rs: seq<Register>, n: nat)
    requires n <= |rs| && forall i :: 0 <= i < n ==> |Line(rs[i])| <= LINE_LIMIT
    ensures Readable(rs) == rs[..n] + Readable(rs[n..])
  {
    hide *;
    if n > 0 {
      FirstReadable(rs, n);
      ReadableAfter(rs[1..], n - 1);
      TailCut(rs, n);
      Associate([rs[0]], rs[1..][..n - 1], Readable(rs[n..]));
    } else {
      assert rs[0..] == rs && rs[..0] == [];
    }
  }

  lemma FirstReadable(rs: seq<Register>, n: nat)
    requires 0 < n <= |rs| && forall i :: 0 <= i < n ==> |Line(rs[i])| <= LINE_LIMIT
    ensures Readable(rs) == [rs[0]] + Readable(rs[1..])
    ensures forall i :: 0 <= i < n - 1 ==> |Line(rs[1..][i])| <= LINE_LIMIT
  {
    hide Line;
    assert forall i :: 0 <= i < n - 1 ==> rs[1..][i] == rs[i + 1];
  }

  /** What ddb_read gives at the start of record j. */
  lemma AtRecord(rs: seq<Register>, j: nat)
    requires AllSendable(rs) && j <= |rs|
    ensures Start(Lines(rs), j) <= |File(Lines(rs))|
    ensures var f, p := File(Lines(rs)), Start(Lines(rs), j); var n := LineEnd(f, p);
      if j == |rs| then n == |f| else
        n < |f| && Strip(f[p..n]) == Line(rs[j]) && n + 1 == Start(Lines(rs), j + 1) &&
          Parse(Line(rs[j])) == Some(rs[j])
  {
    hide File, Start, Line, Parse, Strip, LineEnd, Sendable;
    FileFrom(Lines(rs), j);
    if j < |rs| {
      LinesPlain(rs);
      ReadsLine(Lines(rs), j);
      ParseLine(rs[j]);
    }
  }

  lemma GotRecord(rs: seq<Register>, j: nat, line: Option<string>, next: nat)
    requires AllSendable(rs) && j <= |rs|
    requires Start(Lines(rs), j) <= |File(Lines(rs))| && Got(File(Lines(rs)), Start(Lines(rs), j), line, next)
    ensures line.Some? <==> j < |rs| && |Line(rs[j])| <= LINE_LIMIT
    ensures line.Some? ==> Parse(line.value) == Some(rs[j]) && next == Start(Lines(rs), j + 1)
  {
    hide File, Start, Line, Parse, Strip, LineEnd, Sendable;
    AtRecord(rs, j);
  }

  /** ddb_db_read: the records from id on, up to the first line that is too long. */
  method ReadLog(file: string, id: nat, ghost rs: seq<Register>) returns (regs: seq<Register>)
    requires AllSendable(rs) && (id == 0 || Increasing(rs)) && file == File(Lines(rs))
    ensures regs == Readable(rs[FirstFrom(rs, id)..])
  {
    hide File, Start, Line, Parse, Strip, LineEnd, Sendable, AllSendable, Readable, FirstFrom, Got;
    regs := [];
    ghost var k := FirstFrom(rs, id);
    var pos := Seek(file, id, rs);
    var line: Option<string>, next: nat := Read(file, pos);
    ghost var n: nat := 0;
    while line.Some?
      invariant k + n <= |rs| && pos == Start(Lines(rs), k + n) <= |file|
      invariant regs == rs[k..k + n] && forall i :: k <= i < k + n ==> |Line(rs[i])| <= LINE_LIMIT
      invariant Got(file, pos, line, next)
      decreases |rs| - n
    {
      GotRecord(rs, k + n, line, next);
      var parsed := Parse(line.value);
      if parsed.Some? {
        regs := regs + [parsed.value];
      }
      assert rs[k..k + n + 1] == rs[k..k + n] + [rs[k + n]];
      n := n + 1;
      assert next <= |file| by {
        AtRecord(rs, k + n);
      }
      pos := next;
      line, next := Read(file, pos);
    }
    GotRecord(rs, k + n, line, next);
    ReadableFrom(rs, k, n);
  }

  lemma ReadableFrom(rs: seq<Register>, k: nat, n: nat)
    requires k + n <= |rs| && (k + n == |rs| || |Line(rs[k + n])| > LINE_LIMIT)
    requires forall i :: k <= i < k + n ==> |Line(rs[i])| <= LINE_LIMIT
    ensures Readable(rs[k..]) == rs[k..k + n]
  {
    hide Line;
    assert rs[k..][..n] == rs[k..k + n] && rs[k..][n..] == rs[k + n..];
    ReadableAfter(rs[k..], n);
  }
}
