/**
 The file with the hashes of all tables (ircd/ddb_db_native.c, ddb_db_hash_read and ddb_db_hash_write),
 and the base 64 numbers in it (ircd/numnicks.c).
 */
module HashFile {

  const WORD := 0x1_0000_0000
  const RECORD := 15

  datatype Hash = Hash(hi: nat, lo: nat)

  predicate Fits(h: Hash) {
    h.hi < WORD && h.lo < WORD
  }

  /** The table convert2y. */
  function CharOf(v: nat): char
    requires v < 64
  {
    if v < 26 then 'A' + v as char
    else if v < 52 then 'a' + (v - 26) as char
    else if v < 62 then '0' + (v - 52) as char
    else if v == 62 then '[' else ']'
  }

  /** The table convert2n; characters outside of the alphabet count as 0. */
  function ValueOf(c: char): (v: nat)
    ensures v < 64
  {
    if 'A' <= c <= 'Z' then (c - 'A') as nat
    else if 'a' <= c <= 'z' then (c - 'a') as nat + 26
    else if '0' <= c <= '9' then (c - '0') as nat + 52
    else if c == '[' then 62
    else if c == ']' then 63
    else 0
  }

  /** The digits from 0 to 63: capitals, small letters, decimal digits and brackets, in order. */
  lemma DigitIs(v: nat)
    requires v < 64
    ensures CharOf(0) == 'A' && CharOf(26) == 'a' && CharOf(52) == '0' && CharOf(62) == '[' && CharOf(63) == ']'
    ensures v != 25 && v != 51 && v < 61 ==> CharOf(v + 1) as int == CharOf(v) as int + 1
    ensures ValueOf(CharOf(v)) == v
  {
  }

  /** The count low digits of v. */
  function Encode(v: nat, count: nat): (s: string)
    ensures |s| == count
  {
    if count == 0 then "" else Encode(v / 64, count - 1) + [CharOf(v % 64)]
  }

  /** The number, in the 32 bits of an unsigned int. */
  function Decode(s: string): (v: nat)
    ensures v < WORD
  {
    if s == "" then 0 else (Decode(s[..|s| - 1]) * 64 + ValueOf(s[|s| - 1])) % WORD
  }

  /** inttobase64: fill the buffer from its end. */
  method IntToBase64(buf: array<char>, from: nat, v: nat, count: nat)
    requires from + count <= buf.Length
    modifies buf
    ensures buf[from..from + count] == Encode(v, count)
    ensures forall i :: 0 <= i < buf.Length && !(from <= i < from + count) ==> buf[i] == old(buf[i])
  {
    var n: nat, w: nat := count, v;
    ghost var tail: string := "";
    while n > 0
      invariant n <= count && Encode(v, count) == Encode(w, n) + tail && |tail| == count - n
      invariant buf[from + n..from + count] == tail
      invariant forall i :: 0 <= i < buf.Length && !(from + n <= i < from + count) ==> buf[i] == old(buf[i])
    {
      assert Encode(w, n) + tail == Encode(w / 64, n - 1) + ([CharOf(w % 64)] + tail);
      n := n - 1;
      buf[from + n] := CharOf(w % 64);
      assert buf[from + n..from + count] == [buf[from + n]] + buf[from + n + 1..from + count];
      tail := [CharOf(w % 64)] + tail;
      w := w / 64;
    }
  }

  lemma WrapTwice(a: nat, b: nat)
    ensures (a % WORD + b) % WORD == (a + b) % WORD
  {
    var q := (a % WORD + b) / WORD;
    assert a + b == WORD * (a / WORD + q) + (a % WORD + b) % WORD;
  }

  /** base64toint. */
  method Base64ToInt(s: string) returns (v: nat)
    requires s != ""
    ensures v == Decode(s)
  {
    v := ValueOf(s[0]);
    var i := 1;
    assert s[..1] == [s[0]] && s[..1][..0] == "";
    while i < |s|
      invariant 1 <= i <= |s| && v == Decode(s[..i])
    {
      assert s[..i + 1][..i] == s[..i];
      WrapTwice(v * 64, ValueOf(s[i]));
      v := v * 64 % WORD;
      v := (v + ValueOf(s[i])) % WORD;
      i := i + 1;
    }
    assert s[..i] == s;
  }

  function Pow64(n: nat): nat {
    if n == 0 then 1 else 64 * Pow64(n - 1)
  }

  lemma {:induction false} DecodeEncode(v: nat, count: nat)
    requires v < WORD && v < Pow64(count)
    ensures Decode(Encode(v, count)) == v
  {
    if count > 0 {
      DecodeEncode(v / 64, count - 1);
      hide CharOf, ValueOf;
      var s := Encode(v, count);
      DigitIs(v % 64);
      assert s[..|s| - 1] == Encode(v / 64, count - 1) && s[|s| - 1] == CharOf(v % 64);
      hide Encode, Pow64;
      assert v / 64 * 64 + v % 64 == v;
    }
  }

  /** Six digits are enough for 32 bits. */
  lemma SixDigits(v: nat)
    requires v < WORD
    ensures Decode(Encode(v, 6)) == v
  {
    assert Pow64(2) == 4096;
    assert Pow64(4) == 4096 * Pow64(2);
    assert Pow64(6) == 4096 * Pow64(4);
    DecodeEncode(v, 6);
  }

  function RecordOf(letter: char, h: Hash): (s: string)
    ensures |s| == RECORD
  {
    [letter, ' '] + Encode(h.hi, 6) + Encode(h.lo, 6) + "\n"
  }

  /** The file has a record for the table. */
  predicate HasSlot(file: string, slot: nat) {
    (slot + 1) * RECORD <= |file|
  }

  /** ddb_db_hash_write: overwrite the record of a table. */
  function Store(file: string, slot: nat, letter: char, h: Hash): (r: string)
    requires HasSlot(file, slot)
    ensures |r| == |file|
  {
    file[..slot * RECORD] + RecordOf(letter, h) + file[(slot + 1) * RECORD..]
  }

  /** ddb_db_hash_read. */
  function Load(file: string, slot: nat): Hash
    requires HasSlot(file, slot)
  {
    var at := slot * RECORD + 2;
    Hash(Decode(file[at..at + 6]), Decode(file[at + 6..at + 12]))
  }

  /** The first digit counts most. */
  lemma DigitOrder(c: char, d: char)
    ensures Decode([c, d]) == 64 * ValueOf(c) + ValueOf(d)
  {
    assert [c, d][..1] == [c] && [c][..0] == "";
    assert Decode([c]) == ValueOf(c);
    assert Decode([c, d]) == (Decode([c]) * 64 + ValueOf(d)) % WORD;
  }

  /** The record of a table: its letter, a space, and the digits of the two words; nothing else changes. */
  lemma RecordIs(file: string, slot: nat, letter: char, h: Hash)
    requires HasSlot(file, slot)
    ensures var r, at := Store(file, slot, letter, h), 15 * slot;
            && r[at] == letter && r[at + 1] == ' ' && r[at + 14] == '\n'
            && r[at + 2..at + 8] == Encode(h.hi, 6) && r[at + 8..at + 14] == Encode(h.lo, 6)
            && forall i :: 0 <= i < |file| && !(at <= i < at + 15) ==> r[i] == file[i]
  {
    hide Encode;
    var r, at, rec := Store(file, slot, letter, h), 15 * slot, RecordOf(letter, h);
    assert r[at..at + 15] == rec;
    assert r[at + 2..at + 8] == rec[2..8] == Encode(h.hi, 6);
    assert r[at + 8..at + 14] == rec[8..14] == Encode(h.lo, 6);
    assert r[at] == rec[0] && r[at + 1] == rec[1] && r[at + 14] == rec[14];
  }

  /** A stored hash is read back. */
  lemma StoreThenLoad(file: string, slot: nat, letter: char, h: Hash)
    requires HasSlot(file, slot) && Fits(h)
    ensures Load(Store(file, slot, letter, h), slot) == h
  {
    var r := Store(file, slot, letter, h);
    var at := slot * RECORD;
    assert r[at..at + RECORD] == RecordOf(letter, h);
    var rec := RecordOf(letter, h);
    assert r[at + 2..at + 8] == rec[2..8] == Encode(h.hi, 6);
    assert r[at + 8..at + 14] == rec[8..14] == Encode(h.lo, 6);
    SixDigits(h.hi);
    SixDigits(h.lo);
  }

  /** The hashes of the other tables stay. */
  lemma StoreKeepsOthers(file: string, slot: nat, letter: char, h: Hash, other: nat)
    requires HasSlot(file, slot) && HasSlot(file, other) && other != slot
    ensures Load(Store(file, slot, letter, h), other) == Load(file, other)
  {
    var r := Store(file, slot, letter, h);
    var at := other * RECORD;
    hide RecordOf;
    assert other < slot ==> at + RECORD <= slot * RECORD;
    assert other > slot ==> (slot + 1) * RECORD <= at;
    assert forall i :: at <= i < at + RECORD ==> r[i] == file[i];
    assert r[at + 2..at + 8] == file[at + 2..at + 8] && r[at + 8..at + 14] == file[at + 8..at + 14];
  }
}
