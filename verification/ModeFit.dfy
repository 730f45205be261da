/**
 How long the parameters of a flush get (modebuf_flush_int in ircd/channel.c): each mode is charged
 for its own argument, but all limits are printed from one text, and a hidden key is sent to servers.
 */
module ModeFit {
  import opened Options
  import opened Decimal
  import opened ChannelLimits
  import opened ModeLine

  function ParamsLen(ps: seq<string>): nat {
    if ps == [] then 0 else ParamsLen(ps[..|ps| - 1]) + 1 + |ps[|ps| - 1]|
  }

  lemma {:induction false} ParamsLenConcat(a: seq<string>, b: seq<string>)
    ensures ParamsLen(a + b) == ParamsLen(a) + ParamsLen(b)
  {
    if b == [] {
      assert a + b == a;
    } else {
      ParamsLenConcat(a, b[..|b| - 1]);
      assert (a + b)[..|a + b| - 1] == a + b[..|b| - 1];
    }
  }

  lemma ParamsLenOne(p: string)
    ensures ParamsLen([p]) == 1 + |p|
  {
    assert [p][..0] == [];
  }

  // ----- one text for all limits

  /** The printed limit is no longer than any limit that was charged. */
  ghost predicate LimitPaid(ms: seq<Mode>)
    requires AllValid(ms)
  {
    forall i :: 0 <= i < |ms| && ms[i].kind == Limit ==> |LimitText(ms, |ms|)| <= |Digits(ms[i].arg.n)|
  }

  /** No two limits in the buffer differ. */
  ghost predicate OneLimit(ms: seq<Mode>) {
    forall x, y :: x in ms && y in ms && x.kind == Limit && y.kind == Limit ==> x.arg == y.arg
  }

  /** m is not a longer limit than one before it. */
  ghost predicate NotLonger(ms: seq<Mode>, m: Mode)
    requires AllValid(ms) && m.Valid()
  {
    forall i :: 0 <= i < |ms| && ms[i].kind == Limit && m.kind == Limit ==> |Digits(m.arg.n)| <= |Digits(ms[i].arg.n)|
  }

  /** No limit is longer than an earlier one. */
  ghost predicate LimitsShrink(ms: seq<Mode>)
    requires AllValid(ms)
  {
    forall i :: 0 <= i < |ms| ==> NotLonger(ms[..i], ms[i])
  }

  lemma ShrinkNext(ms: seq<Mode>, m: Mode)
    requires AllValid(ms) && m.Valid()
    ensures AllValid(ms + [m]) && (LimitsShrink(ms + [m]) <==> LimitsShrink(ms) && NotLonger(ms, m))
  {
    var all := ms + [m];
    assert all[..|ms|] == ms && all[|ms|] == m;
    assert forall i :: 0 <= i < |ms| ==> all[..i] == ms[..i] && all[i] == ms[i];
  }

  lemma {:induction false} LastLimit(ms: seq<Mode>, n: nat, k: nat) returns (last: nat)
    requires AllValid(ms) && k < n <= |ms| && ms[k].kind == Limit
    ensures k <= last < n && ms[last].kind == Limit && LimitText(ms, n) == Digits(ms[last].arg.n)
  {
    if ms[n - 1].kind == Limit {
      last := n - 1;
    } else {
      last := LastLimit(ms, n - 1, k);
    }
  }

  lemma ShrinkIsPaid(ms: seq<Mode>)
    requires AllValid(ms) && LimitsShrink(ms)
    ensures LimitPaid(ms)
  {
    forall i | 0 <= i < |ms| && ms[i].kind == Limit ensures |LimitText(ms, |ms|)| <= |Digits(ms[i].arg.n)| {
      var last := LastLimit(ms, |ms|, i);
      assert NotLonger(ms[..last], ms[last]);
      assert i < last ==> ms[..last][i] == ms[i];
    }
  }

  /** The one limit text is right for every limit in the buffer exactly when they agree. */
  lemma LimitTextRightIff(ms: seq<Mode>)
    requires AllValid(ms)
    ensures OneLimit(ms)
            <==> forall i :: 0 <= i < |ms| && ms[i].kind == Limit ==> LimitText(ms, |ms|) == Digits(ms[i].arg.n)
  {
    if k :| 0 <= k < |ms| && ms[k].kind == Limit {
      var last := LastLimit(ms, |ms|, k);
      if !OneLimit(ms) {
        var x, y :| x in ms && y in ms && x.kind == Limit && y.kind == Limit && x.arg != y.arg;
        ValueOfDigits(x.arg.n);
        ValueOfDigits(y.arg.n);
      }
    }
  }

  lemma FewerNotLonger(some: seq<Mode>, whole: seq<Mode>, m: Mode)
    requires AllValid(some) && AllValid(whole) && m.Valid() && NotLonger(whole, m)
    requires forall x :: x in some ==> x in whole
    ensures NotLonger(some, m)
  {
    forall i | 0 <= i < |some| && some[i].kind == Limit && m.kind == Limit
      ensures |Digits(m.arg.n)| <= |Digits(some[i].arg.n)|
    {
      assert some[i] in whole;
    }
  }

  // ----- what is charged pays for what is printed

  function Reader(servers: bool, noKey: bool): View {
    if servers then Servers(false) else Users(noKey)
  }

  /** The length of the parameters of these modes, with a space before each. */
  function Total(ms: seq<Mode>, servers: bool, noKey: bool, limit: string): nat
    requires AllValid(ms)
  {
    if ms == [] then 0
    else
      Total(ms[..|ms| - 1], servers, noKey, limit) + 1 + |Told(ms[|ms| - 1], limit, Reader(servers, noKey))|
  }

  /** What these modes are charged, with a space for each. */
  function Charge(ms: seq<Mode>, noKey: bool): nat
    requires AllValid(ms)
  {
    if ms == [] then 0 else Charge(ms[..|ms| - 1], noKey) + 1 + Cost(ms[|ms| - 1], noKey)
  }

  lemma TotalNext(ms: seq<Mode>, m: Mode, servers: bool, noKey: bool, limit: string)
    requires AllValid(ms) && m.Valid() && AllValid(ms + [m])
    ensures Total(ms + [m], servers, noKey, limit) == Total(ms, servers, noKey, limit) + 1
            + |Told(m, limit, Reader(servers, noKey))|
    ensures Charge(ms + [m], noKey) == Charge(ms, noKey) + 1 + Cost(m, noKey)
  {
    assert (ms + [m])[..|ms|] == ms;
  }

  /** The parameters of both directions are those of all modes. */
  lemma {:induction false} SidesTotal(ms: seq<Mode>, servers: bool, noKey: bool, limit: string)
    requires AllValid(ms)
    ensures ParamsLen(Params(Side(ms, false), limit, Reader(servers, noKey)))
            + ParamsLen(Params(Side(ms, true), limit, Reader(servers, noKey)))
            == Total(ms, servers, noKey, limit)
  {
    hide Side, Told;
    if ms == [] {
      NoSides();
    } else {
      var front, m := ms[..|ms| - 1], ms[|ms| - 1];
      assert ms == front + [m];
      SidesTotal(front, servers, noKey, limit);
      SideNext(front, m, m.add);
      SideNext(front, m, !m.add);
      var before := Params(Side(front, m.add), limit, Reader(servers, noKey));
      ParamsNext(Side(front, m.add), m, limit, Reader(servers, noKey));
      ParamsLenConcat(before, [Told(m, limit, Reader(servers, noKey))]);
      ParamsLenOne(Told(m, limit, Reader(servers, noKey)));
      assert Side(front, !m.add) + [] == Side(front, !m.add);
    }
  }

  lemma NoSides()
    ensures Side([], true) == [] && Side([], false) == []
  {
  }

  lemma ParamPaid(m: Mode, servers: bool, noKey: bool, limit: string)
    requires m.Valid() && (m.kind == Limit ==> |limit| <= |Digits(m.arg.n)|)
    requires servers && noKey ==> m.kind != Key
    ensures |Told(m, limit, Reader(servers, noKey))| <= Cost(m, noKey)
  {
    if m.kind == Op {
      DigitsLength(m.arg.oplevel);
    }
  }

  /**
   A client is charged nine characters, which any numeric with a level fits in, or the nickname if it is longer;
   anything else is charged as what users see, but for passwords, which are charged as what servers see.
   */
  lemma ChargedAs(m: Mode, noKey: bool)
    requires m.Valid()
    ensures m.kind == Op || m.kind == Voice ==>
              Cost(m, noKey) >= 9 && Cost(m, noKey) >= |m.arg.name| && (Cost(m, noKey) in {9, |m.arg.name|})
    ensures m.kind == Ban || m.kind == Key ==> Cost(m, noKey) == |Told(m, "", Users(noKey))|
    ensures m.kind == Apass || m.kind == Upass ==> Cost(m, noKey) == |Told(m, "", Servers(false))|
    ensures m.kind == Limit ==> Cost(m, noKey) == |Digits(m.arg.n)|
  {
  }

  /** No key is charged as hidden but sent. */
  ghost predicate KeysPaid(ms: seq<Mode>, servers: bool, noKey: bool) {
    servers && noKey ==> forall i :: 0 <= i < |ms| ==> ms[i].kind != Key
  }

  lemma {:induction false} SentFits(ms: seq<Mode>, n: nat, room: nat, servers: bool, noKey: bool)
    requires n <= |ms| && AllValid(ms) && LimitPaid(ms) && KeysPaid(ms, servers, noKey)
    ensures Total(Sent(ms, n, room, noKey), servers, noKey, LimitText(ms, |ms|)) <= room - Left(ms, n, room,
            noKey) <= room
  {
    hide LimitText, LimitPaid, KeysPaid, Cost, Told, Saved, AllValid;
    if n > 0 {
      SentFits(ms, n - 1, room, servers, noKey);
      PaidAt(ms, n - 1, servers, noKey);
      hide *;
      OneFits(ms, n - 1, room, servers, noKey, LimitText(ms, |ms|));
    }
  }

  lemma PaidAt(ms: seq<Mode>, i: nat, servers: bool, noKey: bool)
    requires AllValid(ms) && LimitPaid(ms) && KeysPaid(ms, servers, noKey) && i < |ms|
    ensures |Told(ms[i], LimitText(ms, |ms|), Reader(servers, noKey))| <= Cost(ms[i], noKey)
  {
    hide Told, Cost, LimitText, Digits;
    ParamPaid(ms[i], servers, noKey, LimitText(ms, |ms|));
  }

  lemma OneFits(ms: seq<Mode>, i: nat, room: nat, servers: bool, noKey: bool, limit: string)
    requires i < |ms| && AllValid(ms) && |Told(ms[i], limit, Reader(servers, noKey))| <= Cost(ms[i], noKey)
    requires Total(Sent(ms, i, room, noKey), servers, noKey, limit) <= room - Left(ms, i, room, noKey) <= room
    ensures Total(Sent(ms, i + 1, room, noKey), servers, noKey, limit) <= room - Left(ms, i + 1, room, noKey) <= room
  {
    hide Told, Cost, Saved, Total;
    OneWay(ms, i, room, noKey);
    TotalNext(Sent(ms, i, room, noKey), ms[i], servers, noKey, limit);
    hide Sent, AllValid;
  }

  /**
   What users see of one flush stays within the room of a line, unless the limit printed is longer than one
   charged.
   */
  lemma VisibleLineFits(ms: seq<Mode>, room: nat, noKey: bool, simpleAdd: string, simpleRem: string)
    requires AllValid(ms) && LimitPaid(ms)
    ensures ParamsLen(VisibleLine(Sent(ms, |ms|, room, noKey), LimitText(ms, |ms|), simpleAdd, simpleRem, noKey).params)
            <= room
  {
    hide LimitText, Side, Sent, Total;
    var sent, limit := Sent(ms, |ms|, room, noKey), LimitText(ms, |ms|);
    SentFits(ms, |ms|, room, false, noKey);
    SidesTotal(sent, false, noKey, limit);
    ParamsLenConcat(Params(Side(sent, false), limit, Users(noKey)), Params(Side(sent, true), limit, Users(noKey)));
  }

  lemma {:induction false} SilentShorter(ms: seq<Mode>, limit: string)
    requires AllValid(ms)
    ensures ParamsLen(Params(ms, limit, Servers(true))) <= ParamsLen(Params(ms, limit, Servers(false)))
  {
    hide Wire;
    if ms != [] {
      SilentShorter(ms[1..], limit);
      var p, tail := Told(ms[0], limit, Servers(true)), Params(ms[1..], limit, Servers(true));
      ParamsLenConcat([p], Params(ms[1..], limit, Servers(false)));
      ParamsLenConcat([p], tail);
      assert [] + tail == tail;
    }
  }

  lemma ServerParams(ms: seq<Mode>, limit: string, simpleAdd: string, simpleRem: string, bounce: bool)
    requires AllValid(ms)
    ensures var len := ParamsLen(ServerLine(ms, limit, simpleAdd, simpleRem, bounce).params);
            len <= Total(ms, true, false, limit) && (!bounce ==> len == Total(ms, true, false, limit))
  {
    hide Side, Total;
    var adds, rems := Side(ms, true), Side(ms, false);
    SidesTotal(ms, true, false, limit);
    SilentShorter(adds, limit);
    SilentShorter(rems, limit);
    ParamsLenConcat(Params(adds, limit, Servers(true)), Params(rems, limit, Servers(true)));
    ParamsLenConcat(Params(rems, limit, Servers(false)), Params(adds, limit, Servers(false)));
  }

  /** The numeric of the source to be deopped, which a flush sends as one more op. */
  ghost predicate Deops(deop: seq<Mode>) {
    |deop| <= 1 && forall i :: 0 <= i < |deop| ==>
      deop[i].Valid() && deop[i].kind == Op && deop[i].arg.oplevel == MAX_OPLEVEL
  }

  lemma {:induction false} TotalIgnoresKey(ms: seq<Mode>, noKey: bool, limit: string)
    requires AllValid(ms)
    ensures Total(ms, true, noKey, limit) == Total(ms, true, false, limit)
  {
    if ms != [] {
      TotalIgnoresKey(ms[..|ms| - 1], noKey, limit);
    }
  }

  /**
   What servers are sent fits as well, with the source to be deopped in the room kept for it, unless a key is
   hidden.
   */
  lemma ServerLineFits(ms: seq<Mode>, deop: seq<Mode>, room: nat, noKey: bool, simpleAdd: string, simpleRem: string,
      bounce: bool)
    requires AllValid(ms) && LimitPaid(ms) && KeysPaid(ms, true, noKey) && Deops(deop)
    requires AllValid(Sent(ms, |ms|, room, noKey) + deop)
    ensures var line := ServerLine(Sent(ms, |ms|, room, noKey) + deop, LimitText(ms, |ms|), simpleAdd, simpleRem,
            bounce);
            ParamsLen(line.params) <= room + 6 * |deop|
  {
    hide LimitText, Side, Sent, Total;
    var sent, limit := Sent(ms, |ms|, room, noKey), LimitText(ms, |ms|);
    SentFits(ms, |ms|, room, true, noKey);
    TotalIgnoresKey(sent, noKey, limit);
    ServerParams(sent + deop, limit, simpleAdd, simpleRem, bounce);
    if deop == [] {
      assert sent + deop == sent;
    } else {
      assert deop == [deop[0]];
      TotalNext(sent, deop[0], true, false, limit);
    }
  }

  // ----- exactly when four bans can fill a line too far

  /** The most pretty_mask leaves of a ban: NICKLEN + USERLEN + HOSTLEN + 2. */
  const BAN_LENGTH: nat := 90

  ghost predicate BanTexts(bans: seq<string>) {
    |bans| <= 4 && forall i :: 0 <= i < |bans| ==> 1 <= |bans[i]| <= BAN_LENGTH
  }

  /** The removal of these bans. */
  function BanModes(bans: seq<string>): (ms: seq<Mode>)
    ensures |ms| == |bans|
    ensures forall i :: 0 <= i < |bans| ==> ms[i] == Mode(Ban, false, Text(bans[i], None))
  {
    if bans == [] then [] else BanModes(bans[..|bans| - 1]) + [Mode(Ban, false, Text(bans[|bans| - 1], None))]
  }

  lemma {:induction false} BansAdd(ms: seq<Mode>, bans: seq<string>, servers: bool, noKey: bool, limit: string)
    requires AllValid(ms) && AllValid(ms + BanModes(bans)) && "" !in bans
    ensures Total(ms + BanModes(bans), servers, noKey, limit) == Total(ms, servers, noKey, limit) + ParamsLen(bans)
    ensures Charge(ms + BanModes(bans), noKey) == Charge(ms, noKey) + ParamsLen(bans)
    ensures LimitText(ms + BanModes(bans), |ms + BanModes(bans)|) == LimitText(ms, |ms|)
  {
    if bans == [] {
      assert ms + BanModes(bans) == ms;
    } else {
      var front, b := bans[..|bans| - 1], Mode(Ban, false, Text(bans[|bans| - 1], None));
      var before := ms + BanModes(front);
      assert ms + BanModes(bans) == before + [b];
      assert forall i :: 0 <= i < |before| ==> before[i] == (ms + BanModes(bans))[i];
      BansAdd(ms, front, servers, noKey, limit);
      TotalNext(before, b, servers, noKey, limit);
      LimitTextPrefix(before, [b], |before|);
    }
  }

  lemma {:induction false} LimitTextPrefix(a: seq<Mode>, b: seq<Mode>, n: nat)
    requires n <= |a| && AllValid(a) && AllValid(a + b)
    ensures LimitText(a + b, n) == LimitText(a, n)
  {
    if n > 0 {
      LimitTextPrefix(a, b, n - 1);
    }
  }

  /** Modes that are charged no more than the room are all sent. */
  lemma {:induction false} AllSent(ms: seq<Mode>, n: nat, room: nat, noKey: bool)
    requires n <= |ms| && AllValid(ms) && AllValid(ms[..n]) && Charge(ms[..n], noKey) <= room
    ensures Sent(ms, n, room, noKey) == ms[..n] && Left(ms, n, room, noKey) == room - Charge(ms[..n], noKey)
  {
    hide Cost;
    if n > 0 {
      assert ms[..n][..n - 1] == ms[..n - 1] && ms[..n] == ms[..n - 1] + [ms[n - 1]];
      AllSent(ms, n - 1, room, noKey);
      OneWay(ms, n - 1, room, noKey);
    }
  }

  function Repeated(n: nat): (s: string)
    ensures |s| == n
  {
    seq(n, _ => 'x')
  }

  /** Four bans that fill the line exactly behind modes charged c. */
  lemma FillingBans(c: nat) returns (bans: seq<string>)
    requires c <= 37
    ensures BanTexts(bans) && ParamsLen(bans) == TOTAL_ROOM - c
  {
    var long, last := Repeated(90), Repeated(38 - c);
    bans := [long] + [long] + [long] + [last];
    ParamsLenOne(long);
    ParamsLenOne(last);
    ParamsLenConcat([long], [long]);
    ParamsLenConcat([long] + [long], [long]);
    ParamsLenConcat([long] + [long] + [long], [last]);
  }

  /** If the parameters of some modes are longer than they were charged, four bans behind them overflow the line. */
  lemma BansOverflow(ms: seq<Mode>, servers: bool, noKey: bool) returns (bans: seq<string>)
    requires AllValid(ms) && Charge(ms, noKey) <= 37
    requires Total(ms, servers, noKey, LimitText(ms, |ms|)) > Charge(ms, noKey)
    ensures BanTexts(bans) && AllValid(ms + BanModes(bans))
    ensures var all := ms + BanModes(bans);
            && Sent(all, |all|, TOTAL_ROOM, noKey) == all
            && Total(all, servers, noKey, LimitText(all, |all|)) > TOTAL_ROOM
  {
    bans := FillingBans(Charge(ms, noKey));
    var all := ms + BanModes(bans);
    assert AllValid(all);
    BansAdd(ms, bans, servers, noKey, LimitText(ms, |ms|));
    assert all[..|all|] == all;
    AllSent(all, |all|, TOTAL_ROOM, noKey);
  }

  /** What users see of a buffer with nothing but arguments. */
  function ShownLength(ms: seq<Mode>, noKey: bool): nat
    requires AllValid(ms)
  {
    ParamsLen(VisibleLine(Sent(ms, |ms|, TOTAL_ROOM, noKey), LimitText(ms, |ms|), "", "", noKey).params)
  }

  /** What servers are sent of it. */
  function WireLength(ms: seq<Mode>, noKey: bool): nat
    requires AllValid(ms)
  {
    ParamsLen(ServerLine(Sent(ms, |ms|, TOTAL_ROOM, noKey), LimitText(ms, |ms|), "", "", false).params)
  }

  function SetLimits(a: nat, b: nat): (ms: seq<Mode>)
    ensures AllValid(ms)
  {
    [Mode(Limit, true, Number(a)), Mode(Limit, true, Number(b))]
  }

  /**
   Two limits in one buffer leave the line within its room, whatever bans go with them, exactly if the second is
   no longer.
   */
  lemma TwoLimitsFitIff(a: nat, b: nat, noKey: bool)
    requires a < 0x8000_0000 && b < 0x8000_0000
    ensures (forall bans :: BanTexts(bans) ==> ShownLength(SetLimits(a, b) + BanModes(bans), noKey) <= TOTAL_ROOM)
            <==> |Digits(b)| <= |Digits(a)|
  {
    var ms, long := SetLimits(a, b), |Digits(b)| > |Digits(a)|;
    TenDigits(a);
    TenDigits(b);
    TwoLimits(a, b, noKey);
    hide Digits, LimitText, Sent, Total, Charge;
    if long {
      var bans := BansOverflow(ms, false, noKey);
      var all := ms + BanModes(bans);
      ShownIsTotal(all, noKey);
      assert ShownLength(all, noKey) > TOTAL_ROOM;
    } else {
      forall bans | BanTexts(bans) ensures ShownLength(ms + BanModes(bans), noKey) <= TOTAL_ROOM {
        var all := ms + BanModes(bans);
        BansAdd(ms, bans, false, noKey, "");
        assert LimitPaid(all);
        VisibleLineFits(all, TOTAL_ROOM, noKey, "", "");
      }
    }
  }

  lemma ShownIsTotal(all: seq<Mode>, noKey: bool)
    requires AllValid(all) && Sent(all, |all|, TOTAL_ROOM, noKey) == all
    ensures ShownLength(all, noKey) == Total(all, false, noKey, LimitText(all, |all|))
  {
    hide LimitText, Total, Side, ParamsLen, Sent;
    var limit := LimitText(all, |all|);
    SidesTotal(all, false, noKey, limit);
    ParamsLenConcat(Params(Side(all, false), limit, Users(noKey)), Params(Side(all, true), limit, Users(noKey)));
  }

  lemma TenDigits(n: nat)
    requires n < 0x8000_0000
    ensures |Digits(n)| <= 10
  {
    assert Pow10(5) == 100000;
    assert Pow10(10) == 100000 * Pow10(5);
    DigitsAtMost(n, 10);
  }

  lemma TwoLimits(a: nat, b: nat, noKey: bool)
    ensures var ms := SetLimits(a, b);
            && LimitText(ms, 2) == Digits(b) && Total(ms, false, noKey, Digits(b)) == 2 + 2 * |Digits(b)|
            && Charge(ms, noKey) == 2 + |Digits(a)| + |Digits(b)|
  {
    hide Digits;
    var ms := SetLimits(a, b);
    assert ms[..1] == [ms[0]] && ms[..1][..0] == [];
    assert Charge(ms[..1], noKey) == 1 + |Digits(a)|;
    assert Total(ms[..1], false, noKey, Digits(b)) == 1 + |Digits(b)|;
  }

  function SetKey(key: string): (ms: seq<Mode>)
    requires key != ""
    ensures AllValid(ms)
  {
    [Mode(Key, true, Text(key, None))]
  }

  /**
   A key is charged one character when users do not see it: then what servers are sent fits exactly if it is
   that short.
   */
  lemma HiddenKeyFitsIff(key: string)
    requires key != ""
    ensures (forall bans :: BanTexts(bans) ==> WireLength(SetKey(key) + BanModes(bans), true) <= TOTAL_ROOM)
            <==> |key| <= 1
  {
    var ms := SetKey(key);
    assert ms == [] + [ms[0]];
    TotalNext([], ms[0], true, true, "");
    assert LimitText(ms, 0) == "" && LimitText(ms, 1) == "";
    hide LimitText, Sent, Total, Charge;
    if |key| > 1 {
      var bans := BansOverflow(ms, true, true);
      var all := ms + BanModes(bans);
      ServerParams(all, LimitText(all, |all|), "", "", false);
      TotalIgnoresKey(all, true, LimitText(all, |all|));
      assert WireLength(all, true) > TOTAL_ROOM;
    } else {
      forall bans | BanTexts(bans) ensures WireLength(ms + BanModes(bans), true) <= TOTAL_ROOM {
        ShortKeyFits(ms, ms + BanModes(bans));
      }
    }
  }

  lemma ShortKeyFits(ms: seq<Mode>, all: seq<Mode>)
    requires AllValid(all)
    requires forall i :: 0 <= i < |all| ==> all[i].kind == Ban || (all[i].kind == Key && |all[i].arg.text| == 1)
    ensures WireLength(all, true) <= TOTAL_ROOM
  {
    hide LimitText, Total, Side, ParamsLen;
    var limit := LimitText(all, |all|);
    SameSent(all, |all|);
    assert all[..|all|] == all;
    assert LimitPaid(all) && KeysPaid(all, true, false);
    var sent := Sent(all, |all|, TOTAL_ROOM, false);
    SentFits(all, |all|, TOTAL_ROOM, true, false);
    ServerParams(sent, limit, "", "", false);
  }

  /** A key of one character is charged the same whether it is hidden or not. */
  lemma {:induction false} SameSent(all: seq<Mode>, n: nat)
    requires n <= |all| && AllValid(all)
    requires forall i :: 0 <= i < |all| ==> all[i].kind == Ban || (all[i].kind == Key && |all[i].arg.text| == 1)
    ensures Left(all, n, TOTAL_ROOM, true) == Left(all, n, TOTAL_ROOM, false)
    ensures Sent(all, n, TOTAL_ROOM, true) == Sent(all, n, TOTAL_ROOM, false)
  {
    if n > 0 {
      SameSent(all, n - 1);
    }
  }
}
