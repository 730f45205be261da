/**
 Channel bans as values (ircd/channel.c): what a ban covers and whom it bans, one change of
 the ban list, and the marking that a MODE with several changes does before it cleans up.
 */
module BanList {
  import opened Options
  import opened Sequences
  import opened Wildcards

  /** An address mask: the leading bits of a 128-bit address. */
  datatype Cidr = Cidr(addr: seq<bool>, bits: nat)

  /** nick!user and host part; the text of the ban joins them with its last '@'. */
  datatype Mask = Mask(nu: string, host: string, ip: Option<Cidr>) {
    predicate Valid() {
      '@' !in host && Straight(nu) && Straight(host) && (ip.Some? ==> |ip.value.addr| == 128 && ip.value.bits <= 128)
    }

    function Text(): string {
      nu + "@" + host
    }
  }

  datatype Entry = Entry(mask: Mask, exception: bool)

  /** The mask functions of ircd/match.c: covers is mmatch() == 0, matches is match() == 0. */
  datatype Matcher = Matcher(covers: (string, string) -> bool, matches: (string, string) -> bool)

  datatype Client = Client(nu: string, host: string, ipText: string, alias: Option<string>, addr: seq<bool>)

  function Leading(a: seq<bool>, bits: nat): seq<bool> {
    if bits <= |a| then a[..bits] else a
  }

  /** bmatch: is the old entry a superset of the new one? */
  predicate Covers(mt: Matcher, older: Entry, newer: Entry) {
    var o, n := older.mask, newer.mask;
    if !older.exception && newer.exception then false
    else if o.ip.None? || n.ip.None? then mt.covers(o.Text(), n.Text())
    else if o.ip.value.bits > n.ip.value.bits then false
    else if !mt.covers(o.nu, n.nu) then false
    else if Leading(n.ip.value.addr, o.ip.value.bits) != Leading(o.ip.value.addr, o.ip.value.bits) then false
    else mt.covers(o.Text(), n.Text())
  }

  predicate Matches(mt: Matcher, e: Entry, c: Client) {
    && mt.matches(e.mask.nu, c.nu)
    && (|| (e.mask.ip.Some? &&
      Leading(c.addr, e.mask.ip.value.bits) == Leading(e.mask.ip.value.addr, e.mask.ip.value.bits))
        || mt.matches(e.mask.host, c.host)
        || mt.matches(e.mask.host, c.ipText)
        || (c.alias.Some? && mt.matches(e.mask.host, c.alias.value)))
  }

  /** find_ban finds a ban: some ban matches and no exception does. */
  predicate Banned(mt: Matcher, list: seq<Entry>, c: Client) {
    && (exists i :: 0 <= i < |list| && !list[i].exception && Matches(mt, list[i], c))
    && (forall i :: 0 <= i < |list| && list[i].exception ==> !Matches(mt, list[i], c))
  }

  // ----- when coverage means what it says

  /** Names and hosts of clients have no '@', and the text of an address is what ntoa prints for it. */
  predicate ClientOk(ntoa: seq<bool> -> string, c: Client) {
    && '@' !in c.nu && '@' !in c.host && '@' !in c.ipText && (c.alias.Some? ==> '@' !in c.alias.value)
    && |c.addr| == 128 && c.ipText == ntoa(c.addr)
  }

  /**
   What match.c owes: match() takes wildcards for what they are; mmatch() finds every mask that covers another
   token by token, and what it finds matches all that the other mask matches.
   */
  ghost predicate MatcherRight(mt: Matcher) {
    && (forall m, s :: Straight(m) ==> (mt.matches(m, s) <==> Glob(Tokens(m), s)))
    && (forall o, n :: Sub(Tokens(o), Tokens(n)) ==> mt.covers(o, n))
    && (forall o, n :: mt.covers(o, n) ==> Includes(Tokens(o), Tokens(n)))
  }

  /** There is such a matcher. */
  lemma WildIsRight()
    ensures MatcherRight(Matcher((o, n) => Sub(Tokens(o), Tokens(n)), (m, s) => Glob(Tokens(m), s)))
  {
    forall o, n | Sub(Tokens(o), Tokens(n)) ensures Includes(Tokens(o), Tokens(n)) {
      SubIncludes(Tokens(o), Tokens(n));
    }
  }

  /** A mask whose text covers that of another matches, part by part, whoever the other one matches. */
  lemma PartsMatch(mt: Matcher, a: Mask, b: Mask, nu: string, s: string)
    requires MatcherRight(mt) && a.Valid() && b.Valid() && mt.covers(a.Text(), b.Text())
    requires '@' !in nu && '@' !in s && mt.matches(b.nu, nu) && mt.matches(b.host, s)
    ensures mt.matches(a.nu, nu) && mt.matches(a.host, s)
  {
    hide Glob, Tokens, Straight, Includes, Sub;
    TextIncludes(a.nu, a.host, b.nu, b.host, nu, s);
  }

  /** The user part alone. */
  lemma UserMatches(mt: Matcher, a: Mask, b: Mask, nu: string)
    requires MatcherRight(mt) && a.Valid() && b.Valid() && mt.covers(a.Text(), b.Text())
    requires '@' !in nu && mt.matches(b.nu, nu)
    ensures mt.matches(a.nu, nu)
  {
    hide Glob, Tokens, Straight, Includes, Sub;
    NoAt(b.host);
    SampleMatches(Tokens(b.host));
    PartsMatch(mt, a, b, nu, Sample(Tokens(b.host)));
  }

  /** The older entry matches every client that the newer one matches. */
  ghost predicate SoundFor(mt: Matcher, ntoa: seq<bool> -> string, older: Entry, newer: Entry) {
    forall c :: ClientOk(ntoa, c) && Matches(mt, newer, c) ==> Matches(mt, older, c)
  }

  predicate InBlock(ip: Cidr, addr: seq<bool>) {
    |addr| == 128 && Leading(addr, ip.bits) == Leading(ip.addr, ip.bits)
  }

  ghost predicate MatchesNobody(mt: Matcher, e: Entry) {
    forall nu :: '@' !in nu ==> !mt.matches(e.mask.nu, nu)
  }

  /** The text of one host mask matches every address of the block of another, as it is printed. */
  ghost predicate TextTakesBlock(mt: Matcher, ntoa: seq<bool> -> string, host: string, ip: Cidr) {
    forall addr :: InBlock(ip, addr) ==> mt.matches(host, ntoa(addr))
  }

  /** No text mask is held to cover an address mask by its spelling alone, or its text matches all addresses too. */
  ghost predicate CoverageSafe(mt: Matcher, ntoa: seq<bool> -> string, older: Entry, newer: Entry) {
    || older.mask.ip.Some? || newer.mask.ip.None? || MatchesNobody(mt, newer)
    || TextTakesBlock(mt, ntoa, older.mask.host, newer.mask.ip.value)
  }

  /** Coverage is sound unless a text mask covers the spelling of an address mask but not all of its addresses. */
  lemma CoverageSoundIff(mt: Matcher, ntoa: seq<bool> -> string, older: Entry, newer: Entry)
    requires older.mask.Valid() && newer.mask.Valid() && MatcherRight(mt) && Covers(mt, older, newer)
    requires forall addr :: '@' !in ntoa(addr)
    ensures SoundFor(mt, ntoa, older, newer) <==> CoverageSafe(mt, ntoa, older, newer)
  {
    hide MatcherRight;
    if !CoverageSafe(mt, ntoa, older, newer) {
      var nu :| '@' !in nu && mt.matches(newer.mask.nu, nu);
      var addr :| InBlock(newer.mask.ip.value, addr) && !mt.matches(older.mask.host, ntoa(addr));
      var c := Client(nu, ntoa(addr), ntoa(addr), None, addr);
      assert ClientOk(ntoa, c) && Matches(mt, newer, c) && !Matches(mt, older, c);
    } else {
      forall c | ClientOk(ntoa, c) && Matches(mt, newer, c) ensures Matches(mt, older, c) {
        SafeMatches(mt, ntoa, older, newer, c);
      }
    }
  }

  lemma SafeMatches(mt: Matcher, ntoa: seq<bool> -> string, older: Entry, newer: Entry, c: Client)
    requires older.mask.Valid() && newer.mask.Valid() && MatcherRight(mt) && Covers(mt, older, newer)
    requires CoverageSafe(mt, ntoa, older, newer) && ClientOk(ntoa, c) && Matches(mt, newer, c)
    ensures Matches(mt, older, c)
  {
    var o, n := older.mask, newer.mask;
    hide MatcherRight;
    UserMatches(mt, o, n, c.nu);
    if n.ip.Some? && InBlock(n.ip.value, c.addr) {
      if o.ip.Some? {
        LeadingShorter(c.addr, n.ip.value.addr, o.ip.value.bits, n.ip.value.bits);
      } else {
        assert mt.matches(o.host, ntoa(c.addr));
      }
    } else {
      var s := if mt.matches(n.host, c.host) then c.host else if mt.matches(n.host, c.ipText) then c.ipText
        else c.alias.value;
      PartsMatch(mt, o, n, c.nu, s);
    }
  }

  /** "*!*@?.2.3.0/24" is no address mask, but is held to cover "*!*@1.2.3.0/24", and does not match 1.2.3.7. */
  lemma SpellingOnly(mt: Matcher, net: seq<bool>, c: Client)
    requires MatcherRight(mt) && |net| == 128 && InBlock(Cidr(net, 120), c.addr)
    requires c.host == c.ipText == "1.2.3.7" && c.alias.None? && mt.matches("*!*", c.nu)
    ensures var older := Entry(Mask("*!*", "?.2.3.0/24", None), false);
            var newer := Entry(Mask("*!*", "1.2.3.0/24", Some(Cidr(net, 120))), false);
            Covers(mt, older, newer) && Matches(mt, newer, c) && !Matches(mt, older, c)
  {
    hide MatcherRight;
    SpellingCovers(mt);
    AddressMissed(mt);
  }

  lemma SpellingCovers(mt: Matcher)
    requires MatcherRight(mt)
    ensures mt.covers("*!*" + "@" + "?.2.3.0/24", "*!*" + "@" + "1.2.3.0/24")
  {
    var tail := ".2.3.0/24";
    OneDigit("*!*", tail);
    hide Sub, Tokens;
    assert "?.2.3.0/24" == "?" + tail && "1.2.3.0/24" == "1" + tail;
  }

  lemma AddressMissed(mt: Matcher)
    requires MatcherRight(mt)
    ensures !mt.matches("?.2.3.0/24", "1.2.3.7")
  {
    hide Tokens, Glob, Sub;
    var mask := "?.2.3.0/24";
    assert '\\' !in mask;
    NoEscapes(mask);
    if Glob(Tokens(mask), "1.2.3.7") {
      PlainLength(mask, "1.2.3.7");
    }
  }

  lemma OneDigit(nu: string, tail: string)
    ensures Sub(Tokens(nu + "@" + ("?" + tail)), Tokens(nu + "@" + ("1" + tail)))
  {
    var p := Tokens(nu) + AT;
    TextTokens(nu, "?" + tail);
    TextTokens(nu, "1" + tail);
    assert ("?" + tail)[1..] == tail == ("1" + tail)[1..];
    assert Tokens("?" + tail) == [Any] + Tokens(tail) && Tokens("1" + tail) == [Lit('1')] + Tokens(tail);
    SubSelf(Tokens(tail));
    assert ([Any] + Tokens(tail))[1..] == Tokens(tail) == ([Lit('1')] + Tokens(tail))[1..];
    SubPrefix(p, Tokens("?" + tail), Tokens("1" + tail));
  }

  lemma LeadingShorter(a: seq<bool>, b: seq<bool>, short: nat, long: nat)
    requires short <= long && |b| == 128 && long <= 128
    ensures Leading(a, long) == Leading(b, long) ==> Leading(a, short) == Leading(b, short)
  {
    if Leading(a, long) == Leading(b, long) && short <= |a| {
      assert Leading(a, long)[..short] == Leading(a, short) && Leading(b, long)[..short] == Leading(b, short);
    }
  }

  // ----- one change of the list

  datatype Change = AddBan(e: Entry) | DelBan(e: Entry)

  predicate CoveredBy(mt: Matcher, list: seq<Entry>, e: Entry) {
    exists i :: 0 <= i < |list| && Covers(mt, list[i], e)
  }

  /** What is left of the list without the entries that e covers. */
  function Prune(mt: Matcher, list: seq<Entry>, e: Entry): seq<Entry> {
    if list == [] then []
    else (if Covers(mt, e, list[0]) then [] else [list[0]]) + Prune(mt, list[1..], e)
  }

  /** A MODE with this one change. New bans come first in the list. */
  function Step(mt: Matcher, list: seq<Entry>, ch: Change): seq<Entry> {
    match ch
    case AddBan(e) => if CoveredBy(mt, list, e) then list else [e] + Prune(mt, list, e)
    case DelBan(e) => Prune(mt, list, e)
  }

  function Steps(mt: Matcher, list: seq<Entry>, chs: seq<Change>): seq<Entry> {
    if chs == [] then list else Step(mt, Steps(mt, list, chs[..|chs| - 1]), chs[|chs| - 1])
  }

  lemma {:induction false} PruneConcat(mt: Matcher, a: seq<Entry>, b: seq<Entry>, e: Entry)
    ensures Prune(mt, a + b, e) == Prune(mt, a, e) + Prune(mt, b, e)
  {
    hide Covers;
    if a == [] {
      assert a + b == b;
    } else {
      PruneConcat(mt, a[1..], b, e);
      assert (a + b)[1..] == a[1..] + b && (a + b)[0] == a[0];
      Associate(if Covers(mt, e, a[0]) then [] else [a[0]], Prune(mt, a[1..], e), Prune(mt, b, e));
    }
  }

  lemma {:induction false} PruneMembers(mt: Matcher, list: seq<Entry>, e: Entry)
    ensures forall x :: x in Prune(mt, list, e) <==> x in list && !Covers(mt, e, x)
  {
    if list != [] {
      PruneMembers(mt, list[1..], e);
      assert list == [list[0]] + list[1..];
    }
  }

  // ----- nobody's verdict changes when covered entries are dropped

  /** No text mask of the list covers only the spelling of an address mask. */
  ghost predicate ListSafe(mt: Matcher, ntoa: seq<bool> -> string, list: seq<Entry>) {
    forall x, y :: x in list && y in list ==>
      x.mask.Valid() && (Covers(mt, x, y) ==> CoverageSafe(mt, ntoa, x, y))
  }

  lemma BannedByMembers(mt: Matcher, list: seq<Entry>, c: Client)
    ensures Banned(mt, list, c) <==>
            (exists x :: x in list && !x.exception && Matches(mt, x, c)) &&
              (forall x :: x in list && x.exception ==> !Matches(mt, x, c))
  {
    if exists x :: x in list && !x.exception && Matches(mt, x, c) {
      var x :| x in list && !x.exception && Matches(mt, x, c);
      var i :| 0 <= i < |list| && list[i] == x;
      assert !list[i].exception && Matches(mt, list[i], c);
    }
  }

  /** Adding an entry, refused or pruning what it covers, bans exactly whom appending it would ban. */
  lemma AddKeepsVerdicts(mt: Matcher, ntoa: seq<bool> -> string, list: seq<Entry>, e: Entry, c: Client)
    requires MatcherRight(mt) && ListSafe(mt, ntoa, list + [e]) && ClientOk(ntoa, c)
    ensures Banned(mt, Step(mt, list, AddBan(e)), c) <==> Banned(mt, list + [e], c)
  {
    var after, whole := Step(mt, list, AddBan(e)), list + [e];
    BannedByMembers(mt, after, c);
    BannedByMembers(mt, whole, c);
    PruneMembers(mt, list, e);
    assert forall x :: x in whole <==> x in list || x == e;
    forall x, y | x in whole && y in whole && Covers(mt, x, y) && Matches(mt, y, c) ensures Matches(mt, x, c) {
      SafeMatches(mt, ntoa, x, y, c);
    }
    hide ListSafe, MatcherRight, Matches;
    if CoveredBy(mt, list, e) {
      var i :| 0 <= i < |list| && Covers(mt, list[i], e);
      assert list[i] in whole;
    }
  }

  /**
   Two plain bans of which one covers the other: adding one to the other, refused or pruning it, changes nobody's
   verdict exactly if that coverage is more than one of spelling.
   */
  lemma PairVerdictsIff(mt: Matcher, ntoa: seq<bool> -> string, x: Entry, e: Entry)
    requires x.mask.Valid() && e.mask.Valid() && MatcherRight(mt) && forall addr :: '@' !in ntoa(addr)
    requires !x.exception && !e.exception && Covers(mt, x, e)
    ensures (forall c :: ClientOk(ntoa, c) ==> (Banned(mt, Step(mt, [x], AddBan(e)), c) <==> Banned(mt, [x] + [e], c)))
            <==> CoverageSafe(mt, ntoa, x, e)
    ensures !Covers(mt, e, x) ==>
              ((forall c :: ClientOk(ntoa, c) ==>
                (Banned(mt, Step(mt, [e], AddBan(x)), c) <==> Banned(mt, [e] + [x], c)))
               <==> CoverageSafe(mt, ntoa, x, e))
  {
    CoverageSoundIff(mt, ntoa, x, e);
    hide MatcherRight, CoverageSafe, Matches, ClientOk;
    assert [x][0] == x && CoveredBy(mt, [x], e);
    assert Step(mt, [x], AddBan(e)) == [x];
    if !Covers(mt, e, x) {
      assert Prune(mt, [e], x) == Prune(mt, [e][1..], x) == [];
      assert Step(mt, [e], AddBan(x)) == [x];
    }
    forall c
      ensures Banned(mt, [x], c) <==> Matches(mt, x, c)
      ensures Banned(mt, [x] + [e], c) <==> Matches(mt, x, c) || Matches(mt, e, c)
      ensures Banned(mt, [e] + [x], c) <==> Matches(mt, x, c) || Matches(mt, e, c)
    {
      PlainBanned(mt, x, e, c);
      PlainBanned(mt, e, x, c);
    }
  }

  lemma PlainBanned(mt: Matcher, x: Entry, e: Entry, c: Client)
    requires !x.exception && !e.exception
    ensures Banned(mt, [x], c) <==> Matches(mt, x, c)
    ensures Banned(mt, [x] + [e], c) <==> Matches(mt, x, c) || Matches(mt, e, c)
  {
    BannedByMembers(mt, [x], c);
    BannedByMembers(mt, [x] + [e], c);
    assert x in [x] + [e] && e in [x] + [e];
  }

  // ----- a MODE with several changes: mark first, clean up afterwards

  datatype Item = Item(entry: Entry, add: bool, del: bool, overlapped: bool)

  function Clean(list: seq<Entry>): (r: seq<Item>)
    ensures |r| == |list| && forall i :: 0 <= i < |r| ==> r[i] == Item(list[i], false, false, false)
  {
    seq(|list|, i requires 0 <= i < |list| => Item(list[i], false, false, false))
  }

  function MarkItem(mt: Matcher, x: Item, e: Entry): Item {
    if Covers(mt, e, x.entry) then x.(del := true, overlapped := true) else x
  }

  function Mark(mt: Matcher, items: seq<Item>, e: Entry): (r: seq<Item>)
    ensures |r| == |items| && forall i :: 0 <= i < |r| ==> r[i] == MarkItem(mt, items[i], e)
  {
    seq(|items|, i requires 0 <= i < |items| => MarkItem(mt, items[i], e))
  }

  /** A less specific entry that is still active refuses the new one. */
  predicate Refused(mt: Matcher, items: seq<Item>, e: Entry) {
    exists i :: 0 <= i < |items| && !items[i].del && Covers(mt, items[i].entry, e)
  }

  /** apply_ban: the list with its marks, a new ban at its end. */
  function Apply(mt: Matcher, items: seq<Item>, ch: Change): seq<Item> {
    match ch
    case AddBan(e) => if Refused(mt, items, e) then items else Mark(mt, items, e) + [Item(e, true, false, false)]
    case DelBan(e) => Mark(mt, items, e)
  }

  function ApplyAll(mt: Matcher, items: seq<Item>, chs: seq<Change>): seq<Item> {
    if chs == [] then items else Apply(mt, ApplyAll(mt, items, chs[..|chs| - 1]), chs[|chs| - 1])
  }

  /** The entries with these two marks, in list order. */
  function Select(items: seq<Item>, add: bool, del: bool): seq<Entry> {
    if items == [] then []
    else Pick(items[0], add, del) + Select(items[1..], add, del)
  }

  function Pick(x: Item, add: bool, del: bool): seq<Entry> {
    if x.add == add && x.del == del then [x.entry] else []
  }

  function Reverse<T>(s: seq<T>): seq<T> {
    if s == [] then [] else Reverse(s[1..]) + [s[0]]
  }

  /** What the clean-up leaves: the accepted additions, last one first, before the bans that stay. */
  function Result(items: seq<Item>): seq<Entry> {
    Reverse(Select(items, true, false)) + Select(items, false, false)
  }

  lemma {:induction false} SelectConcat(a: seq<Item>, b: seq<Item>, add: bool, del: bool)
    ensures Select(a + b, add, del) == Select(a, add, del) + Select(b, add, del)
  {
    hide Pick;
    if a == [] {
      assert a + b == b;
    } else {
      SelectConcat(a[1..], b, add, del);
      assert (a + b)[1..] == a[1..] + b && (a + b)[0] == a[0];
      Associate(Pick(a[0], add, del), Select(a[1..], add, del), Select(b, add, del));
    }
  }

  lemma {:induction false} SelectMarked(mt: Matcher, items: seq<Item>, e: Entry, add: bool)
    ensures Select(Mark(mt, items, e), add, false) == Prune(mt, Select(items, add, false), e)
  {
    if items != [] {
      SelectMarked(mt, items[1..], e, add);
      assert Mark(mt, items, e)[1..] == Mark(mt, items[1..], e);
      PruneConcat(mt, Pick(items[0], add, false), Select(items[1..], add, false), e);
    }
  }

  lemma {:induction false} PruneReversed(mt: Matcher, list: seq<Entry>, e: Entry)
    ensures Prune(mt, Reverse(list), e) == Reverse(Prune(mt, list, e))
  {
    if list != [] {
      var rest := Prune(mt, list[1..], e);
      PruneReversed(mt, list[1..], e);
      PruneConcat(mt, Reverse(list[1..]), [list[0]], e);
      assert ([list[0]] + rest)[1..] == rest;
      assert [] + rest == rest && Reverse(rest) + [] == Reverse(rest);
    }
  }

  lemma {:induction false} SelectMembers(items: seq<Item>, add: bool, del: bool)
    ensures forall x ::
              x in Select(items, add, del)
              <==> exists i :: 0 <= i < |items| && items[i].add == add && items[i].del == del && items[i].entry == x
  {
    if items != [] {
      SelectMembers(items[1..], add, del);
      forall x ensures x in Select(items, add, del)
        <==> exists i :: 0 <= i < |items| && items[i].add == add && items[i].del == del && items[i].entry == x {
        if x in Select(items[1..], add, del) {
          var i :| 0 <= i < |items[1..]| && items[1..][i].add == add && items[1..][i].del == del &&
            items[1..][i].entry == x;
          assert items[i + 1] == items[1..][i];
        }
        if i :| 0 <= i < |items| && items[i].add == add && items[i].del == del && items[i].entry == x {
          if i > 0 {
            assert items[1..][i - 1] == items[i];
          }
        }
      }
    }
  }

  lemma {:induction false} ReverseMembers<T>(s: seq<T>)
    ensures forall x :: x in Reverse(s) <==> x in s
  {
    if s != [] {
      ReverseMembers(s[1..]);
      assert s == [s[0]] + s[1..];
    }
  }

  lemma ResultMembers(items: seq<Item>)
    ensures forall x :: x in Result(items) <==> exists i :: 0 <= i < |items| && !items[i].del && items[i].entry == x
  {
    SelectMembers(items, true, false);
    SelectMembers(items, false, false);
    ReverseMembers(Select(items, true, false));
  }

  lemma RefusedIff(mt: Matcher, items: seq<Item>, e: Entry)
    ensures Refused(mt, items, e) <==> CoveredBy(mt, Result(items), e)
  {
    ResultMembers(items);
    if Refused(mt, items, e) {
      var i :| 0 <= i < |items| && !items[i].del && Covers(mt, items[i].entry, e);
      assert items[i].entry in Result(items);
    }
    if CoveredBy(mt, Result(items), e) {
      var k :| 0 <= k < |Result(items)| && Covers(mt, Result(items)[k], e);
      assert Result(items)[k] in Result(items);
    }
  }

  lemma MarkThenResult(mt: Matcher, items: seq<Item>, e: Entry)
    ensures Result(Mark(mt, items, e)) == Prune(mt, Result(items), e)
  {
    var added, kept := Select(items, true, false), Select(items, false, false);
    SelectMarked(mt, items, e, true);
    SelectMarked(mt, items, e, false);
    PruneReversed(mt, added, e);
    PruneConcat(mt, Reverse(added), kept, e);
  }

  lemma AppendThenResult(items: seq<Item>, e: Entry)
    ensures Result(items + [Item(e, true, false, false)]) == [e] + Result(items)
  {
    var last := [Item(e, true, false, false)];
    SelectConcat(items, last, true, false);
    SelectConcat(items, last, false, false);
    assert Select(last, true, false) == [e] && Select(last, false, false) == [];
    ReverseLast(Select(items, true, false), e);
  }

  lemma ApplyThenResult(mt: Matcher, items: seq<Item>, ch: Change)
    ensures Result(Apply(mt, items, ch)) == Step(mt, Result(items), ch)
  {
    MarkThenResult(mt, items, ch.e);
    if ch.AddBan? {
      RefusedIff(mt, items, ch.e);
      AppendThenResult(Mark(mt, items, ch.e), ch.e);
    }
  }

  lemma {:induction false} ReverseLast<T>(s: seq<T>, x: T)
    ensures Reverse(s + [x]) == [x] + Reverse(s)
  {
    if s == [] {
      assert s + [x] == [x];
    } else {
      ReverseLast(s[1..], x);
      assert (s + [x])[1..] == s[1..] + [x];
    }
  }

  lemma {:induction false} CleanResult(list: seq<Entry>)
    ensures Result(Clean(list)) == list && Select(Clean(list), true, false) == []
    ensures Select(Clean(list), false, true) == []
  {
    if list != [] {
      CleanResult(list[1..]);
      assert Clean(list)[1..] == Clean(list[1..]);
      assert Result(Clean(list)) == [list[0]] + Result(Clean(list[1..]));
    }
  }

  /** Marking everything first and cleaning up once leaves what the changes leave one by one. */
  lemma {:induction false} BatchIsSequential(mt: Matcher, list: seq<Entry>, chs: seq<Change>)
    ensures Result(ApplyAll(mt, Clean(list), chs)) == Steps(mt, list, chs)
  {
    if chs == [] {
      CleanResult(list);
    } else {
      BatchIsSequential(mt, list, chs[..|chs| - 1]);
      ApplyThenResult(mt, ApplyAll(mt, Clean(list), chs[..|chs| - 1]), chs[|chs| - 1]);
    }
  }

  // ----- no entry covers another one

  predicate Apart(mt: Matcher, e: Entry, list: seq<Entry>) {
    forall i :: 0 <= i < |list| ==> !Covers(mt, e, list[i]) && !Covers(mt, list[i], e)
  }

  predicate Incomparable(mt: Matcher, list: seq<Entry>) {
    forall i, j :: 0 <= i < |list| && 0 <= j < |list| && i != j ==> !Covers(mt, list[i], list[j])
  }

  lemma IncomparableCons(mt: Matcher, e: Entry, list: seq<Entry>)
    ensures Incomparable(mt, [e] + list) <==> Apart(mt, e, list) && Incomparable(mt, list)
  {
    var all := [e] + list;
    assert forall i :: 0 <= i < |list| ==> all[i + 1] == list[i];
    if Incomparable(mt, all) {
      forall i, j | 0 <= i < |list| && 0 <= j < |list| && i != j ensures !Covers(mt, list[i], list[j]) {
        assert !Covers(mt, all[i + 1], all[j + 1]);
      }
      forall i | 0 <= i < |list| ensures !Covers(mt, e, list[i]) && !Covers(mt, list[i], e) {
        assert !Covers(mt, all[0], all[i + 1]) && !Covers(mt, all[i + 1], all[0]);
      }
    }
  }

  lemma {:induction false} PruneIncomparable(mt: Matcher, list: seq<Entry>, e: Entry)
    requires Incomparable(mt, list)
    ensures Incomparable(mt, Prune(mt, list, e))
  {
    if list != [] {
      assert list == [list[0]] + list[1..];
      IncomparableCons(mt, list[0], list[1..]);
      PruneIncomparable(mt, list[1..], e);
      PruneMembers(mt, list[1..], e);
      IncomparableCons(mt, list[0], Prune(mt, list[1..], e));
      assert Prune(mt, list, e) == if Covers(mt, e, list[0]) then Prune(mt, list[1..], e)
             else [list[0]] + Prune(mt, list[1..], e);
      forall k | 0 <= k < |Prune(mt, list[1..], e)| ensures Prune(mt, list[1..], e)[k] in list[1..] {
      }
    }
  }

  lemma StepIncomparable(mt: Matcher, list: seq<Entry>, ch: Change)
    requires Incomparable(mt, list)
    ensures Incomparable(mt, Step(mt, list, ch))
  {
    PruneIncomparable(mt, list, ch.e);
    if ch.AddBan? && !CoveredBy(mt, list, ch.e) {
      var rest := Prune(mt, list, ch.e);
      PruneMembers(mt, list, ch.e);
      forall i | 0 <= i < |rest| ensures !Covers(mt, ch.e, rest[i]) && !Covers(mt, rest[i], ch.e) {
        assert rest[i] in rest;
        var j :| 0 <= j < |list| && list[j] == rest[i];
      }
      IncomparableCons(mt, ch.e, rest);
    }
  }

  /** The list stays free of entries that another one covers, over any changes. */
  lemma {:induction false} StepsIncomparable(mt: Matcher, list: seq<Entry>, chs: seq<Change>)
    requires Incomparable(mt, list)
    ensures Incomparable(mt, Steps(mt, list, chs))
  {
    if chs != [] {
      StepsIncomparable(mt, list, chs[..|chs| - 1]);
      StepIncomparable(mt, Steps(mt, list, chs[..|chs| - 1]), chs[|chs| - 1]);
    }
  }
}
