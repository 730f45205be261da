/**
 The BURST sender (send_channel_modes in ircd/channel.c): four passes over the members, ops
 sorted by level, resumed over as many lines as it takes, then the bans.
 */
module Burst {
  import opened Sequences
  import opened ChannelLimits
  import opened BurstLine
  import opened Decimal

  /** NUMNICKLEN + 3 + MAXOPLEVELDIGITS: what a member may take. */
  const ENTRY_ROOM: nat := 11

  datatype Line = Line(nicks: seq<Token>, bans: seq<string>)

  function OfClass(src: seq<Member>, k: nat): seq<Member> {
    if src == [] then []
    else (if Class(src[0]) == k then [src[0]] else []) + OfClass(src[1..], k)
  }

  function Ops(src: seq<Member>): seq<Member> {
    if src == [] then []
    else (if src[0].op then [src[0]] else []) + Ops(src[1..])
  }

  predicate Sorted(s: seq<Member>) {
    forall i, j :: 0 <= i < j < |s| ==> s[i].level <= s[j].level
  }

  predicate AnyLevel(src: seq<Member>) {
    exists i :: 0 <= i < |src| && src[i].op && src[i].level < MAX_OPLEVEL
  }

  function Flatten(parts: seq<seq<Member>>): seq<Member> {
    if parts == [] then [] else Flatten(parts[..|parts| - 1]) + parts[|parts| - 1]
  }

  /** What a receiver reads from all lines. */
  function DecodeAll(lines: seq<Line>): seq<Member> {
    if lines == [] then [] else DecodeAll(lines[..|lines| - 1]) + DecodeLine(lines[|lines| - 1].nicks, START)
  }

  function AllBans(lines: seq<Line>): seq<string> {
    if lines == [] then [] else AllBans(lines[..|lines| - 1]) + lines[|lines| - 1].bans
  }

  /** Characters of a line behind its prefix: a separator and the text per entry, and ":%" before the bans. */
  function NickLen(ts: seq<Token>): nat {
    if ts == [] then 0 else NickLen(ts[..|ts| - 1]) + 1 + |ts[|ts| - 1].user| + |ts[|ts| - 1].tag|
  }

  function BanLen(bs: seq<string>): nat {
    if bs == [] then 0 else BanLen(bs[..|bs| - 1]) + 1 + |bs[|bs| - 1]| + if |bs| == 1 then 2 else 0
  }

  function LineLen(l: Line): nat {
    NickLen(l.nicks) + BanLen(l.bans)
  }

  /** The words of a line behind its prefix: nicks with commas between them, then the bans behind ":%". */
  function LineText(l: Line): string {
    NickText(l.nicks) + BanText(l.bans)
  }

  function NickText(ts: seq<Token>): string {
    if ts == [] then ""
    else NickText(ts[..|ts| - 1]) + (if |ts| == 1 then " " else ",") + ts[|ts| - 1].user + ts[|ts| - 1].tag
  }

  function BanText(bs: seq<string>): string {
    if bs == [] then "" else BanText(bs[..|bs| - 1]) + (if |bs| == 1 then " :%" else " ") + bs[|bs| - 1]
  }

  lemma {:induction false} NickTextLength(ts: seq<Token>)
    ensures |NickText(ts)| == NickLen(ts)
  {
    if ts != [] {
      NickTextLength(ts[..|ts| - 1]);
    }
  }

  lemma {:induction false} BanTextLength(bs: seq<string>)
    ensures |BanText(bs)| == BanLen(bs)
  {
    if bs != [] {
      BanTextLength(bs[..|bs| - 1]);
    }
  }

  /** The length of a line is that of its words. */
  lemma TextLength(l: Line)
    ensures |LineText(l)| == LineLen(l)
  {
    NickTextLength(l.nicks);
    BanTextLength(l.bans);
  }

  // ----- the order of the members

  /** Plain members come first, then voices, ops, and ops with voice; ops of one kind from the lowest level up. */
  predicate NotBehind(a: Member, b: Member) {
    var x := if a.op then (if a.voice then 3 else 2) else if a.voice then 1 else 0;
    var y := if b.op then (if b.voice then 3 else 2) else if b.voice then 1 else 0;
    x < y || (x == y && (a.op ==> a.level <= b.level))
  }

  predicate InPasses(s: seq<Member>) {
    forall i, j :: 0 <= i < j < |s| ==> NotBehind(s[i], s[j])
  }

  lemma {:induction false} OneClass(src: seq<Member>, k: nat)
    ensures forall m :: m in OfClass(src, k) ==> Class(m) == k && m in src
    ensures Sorted(src) || k < 2 ==> InPasses(OfClass(src, k))
  {
    if src != [] {
      OneClass(src[1..], k);
      assert forall m :: m in src[1..] ==> m in src;
      if Sorted(src) {
        forall m | m in src[1..] ensures src[0].level <= m.level {
          var i :| 0 <= i < |src[1..]| && src[1..][i] == m;
          assert src[i + 1] == m;
        }
      }
      var rest := OfClass(src[1..], k);
      assert forall i :: 0 <= i < |rest| ==> rest[i] in rest;
    }
  }

  lemma PassesJoin(a: seq<Member>, b: seq<Member>)
    requires InPasses(a) && InPasses(b) && forall x, y :: x in a && y in b ==> Class(x) < Class(y)
    ensures InPasses(a + b)
  {
    forall i, j | 0 <= i < j < |a + b| ensures NotBehind((a + b)[i], (a + b)[j]) {
      if i < |a| <= j {
        assert a[i] in a && b[j - |a|] in b;
      }
    }
  }

  lemma PassesOrdered(members: seq<Member>, sorted: seq<Member>)
    requires Sorted(sorted)
    ensures InPasses(OfClass(members, 0) + OfClass(members, 1) + OfClass(sorted, 2) + OfClass(sorted, 3))
  {
    OneClass(members, 0);
    OneClass(members, 1);
    OneClass(sorted, 2);
    OneClass(sorted, 3);
    hide OfClass, InPasses, Class, Sorted;
    var a, b, c, d := OfClass(members, 0), OfClass(members, 1), OfClass(sorted, 2), OfClass(sorted, 3);
    PassesJoin(a, b);
    PassesJoin(a + b, c);
    PassesJoin(a + b + c, d);
  }

  // ----- the members the passes have been over

  lemma {:induction false} OfClassNext(src: seq<Member>, n: nat, k: nat)
    requires n < |src|
    ensures OfClass(src[..n + 1], k) == OfClass(src[..n], k) + if Class(src[n]) == k then [src[n]] else []
    decreases n
  {
    if n == 0 {
      assert src[..1] == [src[0]] && src[..0] == [] && src[..1][1..] == [];
    } else {
      OfClassNext(src[1..], n - 1, k);
      assert src[..n + 1][1..] == src[1..][..n] && src[..n][1..] == src[1..][..n - 1];
    }
  }

  lemma {:induction false} OpsNext(src: seq<Member>, n: nat)
    requires n < |src|
    ensures Ops(src[..n + 1]) == Ops(src[..n]) + if src[n].op then [src[n]] else []
    decreases n
  {
    if n == 0 {
      assert src[..1] == [src[0]] && src[..0] == [] && src[..1][1..] == [];
    } else {
      OpsNext(src[1..], n - 1);
      assert src[..n + 1][1..] == src[1..][..n] && src[..n][1..] == src[1..][..n - 1];
    }
  }

  lemma {:induction false} OfClassCount(src: seq<Member>, k: nat, m: Member)
    ensures multiset(OfClass(src, k))[m] == if Class(m) == k then multiset(src)[m] else 0
  {
    if src != [] {
      OfClassCount(src[1..], k, m);
      assert src == [src[0]] + src[1..];
    }
  }

  lemma {:induction false} OpsCount(src: seq<Member>, m: Member)
    ensures multiset(Ops(src))[m] == if m.op then multiset(src)[m] else 0
  {
    if src != [] {
      OpsCount(src[1..], m);
      assert src == [src[0]] + src[1..];
    }
  }

  lemma CountFour(a: seq<Member>, b: seq<Member>, c: seq<Member>, d: seq<Member>, m: Member)
    ensures multiset(a + b + c + d)[m] == multiset(a)[m] + multiset(b)[m] + multiset(c)[m] + multiset(d)[m]
  {
  }

  /** The four passes take every member exactly once. */
  lemma PassesTakeAll(members: seq<Member>, sorted: seq<Member>)
    requires multiset(sorted) == multiset(Ops(members))
    ensures multiset(OfClass(members, 0) + OfClass(members, 1) + OfClass(sorted, 2) + OfClass(sorted, 3))
            == multiset(members)
  {
    hide OfClass, Ops;
    var a, b, c, d := OfClass(members, 0), OfClass(members, 1), OfClass(sorted, 2), OfClass(sorted, 3);
    forall m ensures multiset(a + b + c + d)[m] == multiset(members)[m] {
      CountFour(a, b, c, d, m);
      OfClassCount(members, 0, m);
      OfClassCount(members, 1, m);
      OfClassCount(sorted, 2, m);
      OfClassCount(sorted, 3, m);
      OpsCount(members, m);
    }
  }

  lemma {:induction false} PlainlyConcat(a: seq<Member>, b: seq<Member>)
    ensures PlainlyAll(a + b) == PlainlyAll(a) + PlainlyAll(b)
    decreases |a|
  {
    if a == [] {
      assert a + b == b;
    } else {
      PlainlyConcat(a[1..], b);
      assert (a + b)[1..] == a[1..] + b && (a + b)[0] == a[0];
      Associate([Plainly(a[0])], PlainlyAll(a[1..]), PlainlyAll(b));
    }
  }

  // ----- the sender

  /** The locals of the sender that survive from one line to the next. */
  datatype Cursor = Cursor(flagCnt: nat, src: seq<Member>, at: nat, newMode: bool, lastLevel: nat, numberOfOps: nat,
    opped: seq<Member>, send: bool)

  ghost predicate ValidMembers(members: seq<Member>) {
    forall i :: 0 <= i < |members| ==> (members[i].op ==> members[i].level <= MAX_OPLEVEL) && |members[i].user| <= 5
  }

  /** Where the passes are: ops are counted in the first, stored in the second, and sorted for the last two. */
  ghost predicate WellPlaced(members: seq<Member>, c: Cursor) {
    && c.flagCnt <= 4 && c.at <= |c.src|
    && (c.flagCnt < 2 ==> c.src == members)
    && (c.flagCnt == 0 ==>
      c.numberOfOps == |Ops(members[..c.at])| && c.opped == [] && c.send == AnyLevel(members[..c.at]))
    && (c.flagCnt == 1 ==> c.numberOfOps == |Ops(members)| && c.opped == Ops(members[..c.at]))
    && (c.flagCnt >= 2 ==> c.src == c.opped && Sorted(c.src) && multiset(c.src) == multiset(Ops(members)))
    && (c.flagCnt >= 1 ==> c.send == AnyLevel(members))
  }

  ghost function Emitted(members: seq<Member>, c: Cursor): seq<Member>
    requires c.at <= |c.src|
  {
    if c.flagCnt == 0 then OfClass(c.src[..c.at], 0)
    else if c.flagCnt == 1 then OfClass(members, 0) + OfClass(c.src[..c.at], 1)
    else if c.flagCnt == 2 then OfClass(members, 0) + OfClass(members, 1) + OfClass(c.src[..c.at], 2)
    else if c.flagCnt == 3 then
      OfClass(members, 0) + OfClass(members, 1) + OfClass(c.src, 2) + OfClass(c.src[..c.at], 3)
    else OfClass(members, 0) + OfClass(members, 1) + OfClass(c.src, 2) + OfClass(c.src, 3)
  }

  function LastOf(part: seq<Member>): Member {
    if part == [] then PLAIN else part[|part| - 1]
  }

  /**
   The line so far against the cursor: whether the next member needs a full mark, and the level the last mark
   ended on.
   */
  ghost predicate InStep(c: Cursor, part: seq<Member>) {
    var prev := LastOf(part);
    && Class(prev) <= c.flagCnt && (c.flagCnt < 4 ==> (c.newMode <==> Class(prev) != c.flagCnt))
    && (2 <= c.flagCnt < 4 && !c.newMode ==>
          (c.send ==> c.lastLevel == prev.level) && forall j :: c.at <= j < |c.src| ==> prev.level <= c.src[j].level)
  }

  ghost predicate LineHolds(part: seq<Member>, nicks: seq<Token>, send: bool) {
    && nicks == EncodeLine(PLAIN, part, send) && Ordered(PLAIN, part, send)
    && forall i :: 0 <= i < |part| ==> LevelsFit(part[i], send)
  }

  /** The mark of a member: a full one when the mode is new in this line, else the growth of the level. */
  method Mark(c: Cursor, m: Member, ghost part: seq<Member>, ghost send: bool) returns (tag: string, lastLevel: nat)
    requires InStep(c, part) && Class(m) == c.flagCnt < 4 && LevelsFit(m, send) && (c.flagCnt >= 2 ==> c.send == send)
    requires 2 <= c.flagCnt && !c.newMode && c.send ==> c.lastLevel <= m.level
    ensures tag == Tag(LastOf(part), m, send) && |tag| <= 5
    ensures m.op && c.send ==> lastLevel == m.level
    ensures Follows(LastOf(part), m, send)
    ensures c.newMode ==>
              tag == ":" + (if m.voice then "v" else "")
                + (if !m.op then "" else if c.send then Digits(m.level) else "o")
    ensures !c.newMode ==>
              tag == if m.op && c.send && c.lastLevel != m.level then ":" + Digits(m.level - c.lastLevel) else ""
  {
    lastLevel := c.lastLevel;
    TagLength(LastOf(part), m, send);
    if c.newMode {
      tag := ":";
      if m.voice {
        tag := tag + "v";
      }
      if m.op {
        if c.send {
          lastLevel := m.level;
          tag := tag + Digits(m.level);
        } else {
          tag := tag + "o";
        }
      }
      assert tag == ":" + ModeText(m, send);
    } else if c.send && c.flagCnt > 1 && c.lastLevel != m.level {
      tag := ":" + Digits(m.level - c.lastLevel);
      lastLevel := m.level;
    } else {
      tag := "";
    }
  }

  lemma AnyLevelNext(src: seq<Member>, n: nat)
    requires n < |src|
    ensures AnyLevel(src[..n + 1]) <==> AnyLevel(src[..n]) || (src[n].op && src[n].level < MAX_OPLEVEL)
  {
    var s := src[..n + 1];
    assert forall i :: 0 <= i < n ==> s[i] == src[..n][i];
    if src[n].op && src[n].level < MAX_OPLEVEL {
      assert s[n].op;
    }
    if AnyLevel(src[..n]) {
      var i :| 0 <= i < n && src[..n][i].op && src[..n][i].level < MAX_OPLEVEL;
      assert s[i].op;
    }
  }

  lemma {:induction false} OpsMembers(src: seq<Member>, m: Member)
    requires m in Ops(src)
    ensures m in src && m.op
  {
    if m !in Ops(src[1..]) {
      assert m == src[0];
    } else {
      OpsMembers(src[1..], m);
    }
  }

  /** All members of a cursor's list fit the way levels are sent. */
  lemma SourceFits(members: seq<Member>, c: Cursor, i: nat)
    requires ValidMembers(members) && WellPlaced(members, c) && i < |c.src|
    ensures |c.src[i].user| <= 5 && LevelsFit(c.src[i], AnyLevel(members))
  {
    var m := c.src[i];
    if c.flagCnt >= 2 {
      assert m in multiset(c.src);
      OpsMembers(members, m);
    }
    var j :| 0 <= j < |members| && members[j] == m;
    assert members[j].op && members[j].level < MAX_OPLEVEL ==> AnyLevel(members);
  }

  /** One member looked at: ops are counted, then stored; the cursor moves on. */
  function Look(c: Cursor): Cursor
    requires c.at < |c.src|
  {
    var m := c.src[c.at];
    var seen := if c.flagCnt < 2 && m.op then
                  (if c.flagCnt == 0 then c.(numberOfOps := c.numberOfOps + 1) else c.(opped := c.opped + [m])).
                    (send := c.send || m.level < MAX_OPLEVEL)
                else c;
    seen.(at := c.at + 1)
  }

  lemma LookPlaced(members: seq<Member>, c: Cursor)
    requires WellPlaced(members, c) && c.flagCnt < 4 && c.at < |c.src|
    ensures WellPlaced(members, Look(c))
  {
    if c.flagCnt < 2 {
      OpsNext(members, c.at);
      AnyLevelNext(members, c.at);
      if members[c.at].op && members[c.at].level < MAX_OPLEVEL {
        assert AnyLevel(members);
      }
    }
  }

  lemma LookEmits(members: seq<Member>, c: Cursor)
    requires c.flagCnt < 4 && c.at < |c.src|
    ensures Emitted(members, Look(c)) == Emitted(members, c) + if Class(c.src[c.at]) == c.flagCnt then [c.src[c.at]]
            else []
  {
    OfClassNext(c.src, c.at, c.flagCnt);
    assert Look(c).src == c.src && Look(c).at == c.at + 1 && Look(c).flagCnt == c.flagCnt;
  }

  /** What a round of the pass keeps: the cursor's own facts do not depend on the mark just written. */
  lemma Marked(members: seq<Member>, c: Cursor, newMode: bool, level: nat)
    ensures WellPlaced(members, c) ==> WellPlaced(members, c.(newMode := newMode, lastLevel := level))
    ensures c.at <= |c.src| ==> Emitted(members, c.(newMode := newMode, lastLevel := level)) == Emitted(members, c)
  {
  }

  lemma StepOver(members: seq<Member>, c: Cursor, part: seq<Member>)
    requires InStep(c, part) && c.flagCnt < 4 && c.at < |c.src|
    ensures InStep(Look(c), part)
    ensures 2 <= c.flagCnt && !c.newMode && c.send ==> c.lastLevel <= c.src[c.at].level
  {
  }

  lemma StepOn(members: seq<Member>, c: Cursor, part: seq<Member>, level: nat)
    requires WellPlaced(members, c) && c.flagCnt < 4 && c.at < |c.src| && Class(c.src[c.at]) == c.flagCnt
    requires c.src[c.at].op && c.send ==> level == c.src[c.at].level
    ensures InStep(Look(c).(newMode := false, lastLevel := level), part + [c.src[c.at]])
  {
  }

  lemma LineGrows(part: seq<Member>, nicks: seq<Token>, send: bool, m: Member, tag: string)
    requires LineHolds(part, nicks, send) && tag == Tag(LastOf(part), m, send) && Follows(LastOf(part), m, send) &&
             LevelsFit(m, send)
    ensures LineHolds(part + [m], nicks + [Token(m.user, tag)], send)
  {
    EncodeNext(PLAIN, part, m, send);
  }

  lemma {:induction false} NickLenNext(ts: seq<Token>, t: Token)
    ensures NickLen(ts + [t]) == NickLen(ts) + 1 + |t.user| + |t.tag|
  {
    assert (ts + [t])[..|ts|] == ts;
  }

  /** The loop over the members: one pass, or as much of it as the line has room for. */
  method Pass(members: seq<Member>, c0: Cursor, room: nat, nicks0: seq<Token>, ghost part0: seq<Member>,
      ghost base: seq<Member>)
    returns (c: Cursor, bufleft: nat, nicks: seq<Token>, full: bool, ghost part: seq<Member>)
    requires ValidMembers(members) && WellPlaced(members, c0) && c0.flagCnt < 4 && c0.at <= |c0.src|
    requires InStep(c0, part0) && LineHolds(part0, nicks0, AnyLevel(members)) && base + part0 == Emitted(members, c0)
    ensures WellPlaced(members, c) && c.flagCnt == c0.flagCnt && c.src == c0.src && c0.at <= c.at
    ensures LineHolds(part, nicks, AnyLevel(members)) && base + part == Emitted(members, c)
    ensures NickLen(nicks) + bufleft == NickLen(nicks0) + room
    ensures full ==> c.at < |c.src| && c.newMode == (c.flagCnt > 0) && bufleft < ENTRY_ROOM
    ensures full ==> c.at > c0.at || room < ENTRY_ROOM
    ensures !full ==> c.at == |c.src| && InStep(c, part)
  {
    hide LineHolds, InStep, WellPlaced, Emitted, NickLen, AnyLevel, Class, Look, Tag;
    ghost var send := AnyLevel(members);
    c, bufleft, nicks, full, part := c0, room, nicks0, false, part0;
    while c.at < |c.src|
      invariant WellPlaced(members, c) && c.flagCnt == c0.flagCnt && c.src == c0.src && c0.at <= c.at <= |c.src|
      invariant InStep(c, part) && LineHolds(part, nicks, send) && base + part == Emitted(members, c)
      invariant NickLen(nicks) + bufleft == NickLen(nicks0) + room
      invariant c.at > c0.at || bufleft == room
      decreases |c.src| - c.at
    {
      var m := c.src[c.at];
      LookPlaced(members, c);
      LookEmits(members, c);
      SourceFits(members, c, c.at);
      StepOver(members, c, part);
      LookMoves(c);
      if Class(m) == c.flagCnt {
        if bufleft < ENTRY_ROOM {
          full := true;
          Marked(members, c, c.flagCnt > 0, c.lastLevel);
          c := c.(newMode := c.flagCnt > 0);
          return;
        }
        SendKnown(members, c);
        var tag, level := Mark(c, m, part, send);
        LineGrows(part, nicks, send, m, tag);
        NickLenNext(nicks, Token(m.user, tag));
        StepOn(members, c, part, level);
        nicks := nicks + [Token(m.user, tag)];
        bufleft := bufleft - (1 + |m.user| + |tag|);
        part := part + [m];
        c := Look(c);
        Marked(members, c, false, level);
        c := c.(newMode := false, lastLevel := level);
      } else {
        c := Look(c);
      }
    }
  }

  lemma LookMoves(c: Cursor)
    requires c.at < |c.src|
    ensures Look(c).at == c.at + 1 && Look(c).src == c.src && Look(c).flagCnt == c.flagCnt
  {
  }

  lemma SendKnown(members: seq<Member>, c: Cursor)
    requires WellPlaced(members, c)
    ensures c.flagCnt >= 1 ==> c.send == AnyLevel(members)
  {
  }

  function Insert(s: seq<Member>, m: Member): seq<Member> {
    if s == [] || m.level < s[0].level then [m] + s else [s[0]] + Insert(s[1..], m)
  }

  lemma {:induction false} InsertAbove(s: seq<Member>, m: Member, l: nat)
    requires l <= m.level && forall i :: 0 <= i < |s| ==> l <= s[i].level
    ensures forall i :: 0 <= i < |Insert(s, m)| ==> l <= Insert(s, m)[i].level
  {
    if s != [] && s[0].level <= m.level {
      InsertAbove(s[1..], m, l);
    }
  }

  lemma {:induction false} InsertSorted(s: seq<Member>, m: Member)
    requires Sorted(s)
    ensures Sorted(Insert(s, m))
  {
    if s != [] && s[0].level <= m.level {
      InsertSorted(s[1..], m);
      InsertAbove(s[1..], m, s[0].level);
    }
  }

  lemma {:induction false} InsertCounts(s: seq<Member>, m: Member)
    ensures multiset(Insert(s, m)) == multiset(s) + multiset{m}
  {
    if s != [] && s[0].level <= m.level {
      InsertCounts(s[1..], m);
      assert s == [s[0]] + s[1..];
    }
  }

  /** qsort with compare_member_oplevel: some ordering by level. */
  method SortByLevel(ops: seq<Member>) returns (sorted: seq<Member>)
    ensures Sorted(sorted) && multiset(sorted) == multiset(ops)
  {
    sorted := [];
    var n := 0;
    while n < |ops|
      invariant n <= |ops| && Sorted(sorted) && multiset(sorted) == multiset(ops[..n])
    {
      InsertSorted(sorted, ops[n]);
      InsertCounts(sorted, ops[n]);
      sorted := Insert(sorted, ops[n]);
      assert ops[..n + 1] == ops[..n] + [ops[n]];
      n := n + 1;
    }
    assert ops[..n] == ops;
  }

  /** The end of a pass: back to the start of the list, which is the sorted ops from the third pass on. */
  method NextPass(members: seq<Member>, c: Cursor, ghost part: seq<Member>) returns (c': Cursor)
    requires WellPlaced(members, c) && InStep(c, part) && c.flagCnt < 4 && c.at == |c.src|
    ensures WellPlaced(members, c') && InStep(c', part) && c'.flagCnt == c.flagCnt + 1 && c'.at == 0
    ensures Emitted(members, c') == Emitted(members, c)
  {
    assert c.src[..|c.src|] == c.src;
    if c.flagCnt == 0 {
      c' := c.(flagCnt := 1, src := members, at := 0, newMode := true);
    } else if c.flagCnt == 1 {
      assert c.numberOfOps == |c.opped|;
      var sorted := SortByLevel(c.opped);
      c' := c.(flagCnt := 2, src := sorted, opped := sorted, at := 0, newMode := true);
    } else {
      c' := c.(flagCnt := c.flagCnt + 1, at := 0, newMode := true);
    }
    assert c'.src[..0] == [];
  }

  /** The loop over the four passes, for one line. */
  method FillNicks(members: seq<Member>, c0: Cursor, room: nat, ghost base: seq<Member>)
    returns (c: Cursor, bufleft: nat, nicks: seq<Token>, full: bool, ghost part: seq<Member>)
    requires ValidMembers(members) && WellPlaced(members, c0) && InStep(c0, []) && base == Emitted(members, c0) &&
             c0.at <= |c0.src|
    ensures WellPlaced(members, c) && c.at <= |c.src| && base + part == Emitted(members, c)
    ensures LineHolds(part, nicks, AnyLevel(members)) && NickLen(nicks) + bufleft == room
    ensures full ==> InStep(c, []) && c.flagCnt < 4
    ensures full && room >= ENTRY_ROOM ==>
            c.flagCnt > c0.flagCnt || (c.flagCnt == c0.flagCnt && c.src == c0.src && c.at > c0.at)
    ensures c.flagCnt > c0.flagCnt || (c.flagCnt == c0.flagCnt && c.src == c0.src && c.at >= c0.at)
    ensures !full ==> c.flagCnt == 4 && (c0.flagCnt == 4 ==> c == c0 && bufleft == room)
  {
    hide InStep, WellPlaced, Emitted, Class;
    c, bufleft, nicks, full, part := c0, room, [], false, [];
    while c.flagCnt < 4
      invariant WellPlaced(members, c) && InStep(c, part) && c.at <= |c.src| && base + part == Emitted(members, c)
      invariant LineHolds(part, nicks, AnyLevel(members)) && NickLen(nicks) + bufleft == room
      invariant c.flagCnt > c0.flagCnt || (c == c0 && bufleft == room)
      decreases 4 - c.flagCnt
    {
      c, bufleft, nicks, full, part := Pass(members, c, bufleft, nicks, part, base);
      PlacedWithin(members, c);
      if full {
        FreshLine(c);
        return;
      }
      c := NextPass(members, c, part);
    }
    PlacedAtEnd(members, c);
  }

  lemma PlacedWithin(members: seq<Member>, c: Cursor)
    requires WellPlaced(members, c)
    ensures c.at <= |c.src| && c.flagCnt <= 4
  {
  }

  lemma PlacedAtEnd(members: seq<Member>, c: Cursor)
    requires WellPlaced(members, c) && c.flagCnt >= 4
    ensures c.flagCnt == 4
  {
  }

  /** A fresh line behind a full one: the next member needs a full mark unless it has no mode. */
  lemma FreshLine(c: Cursor)
    requires c.flagCnt < 4 && c.newMode == (c.flagCnt > 0)
    ensures InStep(c, [])
  {
  }

  lemma BanLenNext(bs: seq<string>, b: string)
    ensures BanLen(bs + [b]) == BanLen(bs) + 1 + |b| + if bs == [] then 2 else 0
  {
    assert (bs + [b])[..|bs|] == bs;
  }

  lemma OneBanMore(bans: seq<string>, from: nat, to: nat)
    requires from <= to < |bans|
    ensures bans[from..to + 1] == bans[from..to] + [bans[to]]
  {
  }

  lemma NoBans()
    ensures BanLen([]) == 0
  {
  }

  /** The loop over the bans, for one line. */
  method FillBans(bans: seq<string>, from: nat, room: nat) returns (to: nat, out: seq<string>, full: bool)
    requires from <= |bans|
    ensures from <= to <= |bans| && out == bans[from..to] && BanLen(out) <= room
    ensures !full ==> to == |bans|
    ensures full ==> to < |bans| && (to > from || room < |bans[to]| + 3)
  {
    hide BanLen;
    NoBans();
    to, out, full := from, [], false;
    var bufleft: nat, first := room, 2;
    while to < |bans|
      invariant from <= to <= |bans| && out == bans[from..to] && BanLen(out) + bufleft == room
      invariant first == if out == [] then 2 else 0
    {
      if bufleft < |bans[to]| + 1 + first {
        assert to == from ==> out == [];
        full := true;
        return;
      }
      BanLenNext(out, bans[to]);
      OneBanMore(bans, from, to);
      bufleft := bufleft - (1 + first + |bans[to]|);
      out := out + [bans[to]];
      first := 0;
      to := to + 1;
    }
  }

  /** The longest entry of a member and every ban fit on a line of their own. */
  predicate RoomEnough(bans: seq<string>, room: nat) {
    room >= ENTRY_ROOM && forall b :: b in bans ==> |b| + 3 <= room
  }

  /** One line: nicks while passes are left, then bans. It makes progress, unless it is a first line without room. */
  method SendLine(members: seq<Member>, bans: seq<string>, c0: Cursor, from: nat, space: nat, ghost order: seq<Member>)
    returns (c: Cursor, lp: nat, line: Line, full: bool, ghost part: seq<Member>)
    requires ValidMembers(members) && WellPlaced(members, c0) && InStep(c0, []) && order == Emitted(members, c0)
    requires c0.at <= |c0.src| && from <= |bans|
    ensures WellPlaced(members, c) && c.at <= |c.src| && order + part == Emitted(members, c) && (full ==> InStep(c, []))
    ensures from <= lp <= |bans| && line.bans == bans[from..lp] && (!full ==> c.flagCnt == 4 && lp == |bans|)
    ensures PlainlyAll(order) + DecodeLine(line.nicks, START) == PlainlyAll(order + part)
    ensures LineLen(line) <= space
    ensures c.flagCnt > c0.flagCnt || (c.flagCnt == c0.flagCnt && c.src == c0.src && c.at >= c0.at)
    ensures full && c.flagCnt == c0.flagCnt && c.at == c0.at && RoomEnough(bans, space) ==> lp > from
  {
    hide InStep, WellPlaced, Emitted, LineHolds, NickLen, BanLen, DecodeLine, PlainlyAll;
    var nicks, bufleft;
    c, bufleft, nicks, full, part := FillNicks(members, c0, space, order);
    var mine: seq<string>;
    lp, mine := from, [];
    NoBans();
    if !full {
      lp, mine, full := FillBans(bans, from, bufleft);
      BansDone(c);
    }
    LineReads(members, order, part, nicks);
    line := Line(nicks, mine);
  }

  /**
   send_channel_modes. room0 is what the first line has left behind its prefix and modes, room what every
   other line has. Reading the lines gives every member once, with its modes and the level of an op.
   */
  method SendChannelModes(members: seq<Member>, bans: seq<string>, room0: nat, room: nat)
    returns (lines: seq<Line>, ghost order: seq<Member>)
    requires ValidMembers(members) && RoomEnough(bans, room)
    ensures multiset(order) == multiset(members) && DecodeAll(lines) == PlainlyAll(order)
    ensures AllBans(lines) == bans
    ensures forall i :: 0 <= i < |lines| ==> |LineText(lines[i])| <= if i == 0 then room0 else room
    ensures InPasses(order)
  {
    hide InStep, WellPlaced, Emitted, DecodeLine, PlainlyAll, DecodeAll, AllBans, LineLen, LineText, ValidMembers,
      InPasses;
    var c := Cursor(0, members, 0, false, 0, 0, [], false);
    StartsPlaced(members, c);
    NoLines();
    var lp := 0;
    var first, full := true, true;
    lines, order := [], [];
    while full
      invariant lp <= |bans| && c.at <= |c.src|
      invariant WellPlaced(members, c) && order == Emitted(members, c) && (full ==> InStep(c, []))
      invariant !full ==> c.flagCnt == 4 && lp == |bans|
      invariant DecodeAll(lines) == PlainlyAll(order) && AllBans(lines) == bans[..lp]
      invariant first <==> lines == []
      invariant forall i :: 0 <= i < |lines| ==> LineLen(lines[i]) <= if i == 0 then room0 else room
      decreases full, 4 - c.flagCnt, |c.src| - c.at, |bans| - lp, first
    {
      ghost var from, before := lp, lines;
      PlacedWithin(members, c);
      var line; ghost var part;
      c, lp, line, full, part := SendLine(members, bans, c, lp, if first then room0 else room, order);
      PlacedWithin(members, c);
      lines := lines + [line];
      LinesGrow(before, line);
      BansFollow(bans, from, lp);
      order := order + part;
      first := false;
    }
    PassesDone(members, c);
    assert bans[..lp] == bans;
    forall i | 0 <= i < |lines| ensures |LineText(lines[i])| == LineLen(lines[i]) {
      TextLength(lines[i]);
    }
  }

  lemma NoLines()
    ensures DecodeAll([]) == [] && AllBans([]) == []
  {
  }

  lemma BansFollow(bans: seq<string>, from: nat, to: nat)
    requires from <= to <= |bans|
    ensures bans[..to] == bans[..from] + bans[from..to]
  {
  }

  lemma StartsPlaced(members: seq<Member>, c: Cursor)
    requires c == Cursor(0, members, 0, false, 0, 0, [], false)
    ensures WellPlaced(members, c) && InStep(c, []) && Emitted(members, c) == [] && PlainlyAll([]) == []
  {
    assert members[..0] == [];
  }

  lemma BansDone(c: Cursor)
    requires c.flagCnt == 4
    ensures InStep(c, [])
  {
  }

  lemma LineReads(members: seq<Member>, order: seq<Member>, part: seq<Member>, nicks: seq<Token>)
    requires LineHolds(part, nicks, AnyLevel(members))
    ensures PlainlyAll(order) + DecodeLine(nicks, START) == PlainlyAll(order + part)
  {
    LineIsLossless(PLAIN, part, AnyLevel(members));
    PlainlyConcat(order, part);
  }

  lemma LinesGrow(lines: seq<Line>, l: Line)
    ensures DecodeAll(lines + [l]) == DecodeAll(lines) + DecodeLine(l.nicks, START)
    ensures AllBans(lines + [l]) == AllBans(lines) + l.bans
  {
    assert (lines + [l])[..|lines|] == lines;
  }

  lemma PassesDone(members: seq<Member>, c: Cursor)
    requires WellPlaced(members, c) && c.flagCnt == 4
    ensures multiset(Emitted(members, c)) == multiset(members) && InPasses(Emitted(members, c))
  {
    PassesTakeAll(members, c.src);
    PassesOrdered(members, c.src);
  }
}
