/**
 One BURST line: how a server marks the members of a channel with their modes
 (send_channel_modes in ircd/channel.c) and how the receiving server reads the marks
 (ms_burst in ircd/m_burst.c).
 */
module BurstLine {
  import opened CharAttr
  import opened Decimal
  import opened ChannelLimits

  datatype Member = Member(user: string, voice: bool, op: bool, level: nat)

  /** A nick with the text of its mark, colon included; no mark is the empty text. */
  datatype Token = Token(user: string, tag: string)

  /** The passes of the sender: plain members, voices, ops, ops with voice. */
  function Class(m: Member): nat {
    (if m.voice then 1 else 0) + (if m.op then 2 else 0)
  }

  /** What a line starts from: a member with no mode. */
  const PLAIN: Member := Member("", false, false, 0)

  /** The mark of m behind the member prev in the same line. */
  function Tag(prev: Member, m: Member, send: bool): string {
    if Class(prev) != Class(m) then ":" + ModeText(m, send)
    else if send && m.op && prev.level < m.level then ":" + Digits(m.level - prev.level)
    else ""
  }

  function ModeText(m: Member, send: bool): string {
    (if m.voice then "v" else "") + (if !m.op then "" else if send then Digits(m.level) else "o")
  }

  /** Members may follow each other in a line when passes and levels go up. */
  predicate Follows(prev: Member, m: Member, send: bool) {
    Class(prev) < Class(m) || (Class(prev) == Class(m) && (send && m.op ==> prev.level <= m.level))
  }

  predicate Ordered(prev: Member, ms: seq<Member>, send: bool)
    decreases |ms|
  {
    ms == [] || (Follows(prev, ms[0], send) && Ordered(ms[0], ms[1..], send))
  }

  function EncodeLine(prev: Member, ms: seq<Member>, send: bool): (r: seq<Token>)
    ensures |r| == |ms|
    decreases |ms|
  {
    if ms == [] then [] else [Token(ms[0].user, Tag(prev, ms[0], send))] + EncodeLine(ms[0], ms[1..], send)
  }

  // ----- the receiver

  /** current_mode and oplevel of the receiver, -1 when the next digits are an absolute level. */
  datatype State = State(voice: bool, op: bool, oplevel: int)

  const START: State := State(false, false, -1)

  /** The flags behind a colon; reset: nothing has replaced the former mode yet. */
  function ReadFlags(s: string, st: State, reset: bool): State
    decreases |s|
  {
    if s == "" then st
    else
      var base := if reset then State(false, false, st.oplevel) else st;
      if s[0] == 'o' then
        var also := |s| > 1 && s[1] == 'v';
        ReadFlags(if also then s[2..] else s[1..], State(base.voice || also, true, MAX_OPLEVEL), false)
      else if s[0] == 'v' then ReadFlags(s[1..], State(true, base.op, -1), false)
      else if IsDigit(s[0]) then
        var absolute := st.oplevel == -1;
        var n := DigitRun(s);
        var level := (if absolute then 0 else st.oplevel) + Value(s[..n], 0);
        var voice := if absolute then base.voice else st.voice;
        if level > MAX_OPLEVEL then State(voice, true, MAX_OPLEVEL)
        else ReadFlags(s[n..], State(voice, true, level), reset && !absolute)
      else st
  }

  function ReadTag(tag: string, st: State): State {
    if tag == "" then st else ReadFlags(tag[1..], st, true)
  }

  /** The members a line announces, each with the mode current at its nick. */
  function DecodeLine(ts: seq<Token>, st: State): seq<Member> {
    if ts == [] then []
    else
      var st' := ReadTag(ts[0].tag, st);
      [Member(ts[0].user, st'.voice, st'.op, if st'.op && st'.oplevel >= 0 then st'.oplevel else 0)]
        + DecodeLine(ts[1..], st')
  }

  // ----- a line is read as it was meant

  /** A level matters for ops only. */
  function Plainly(m: Member): Member {
    if m.op then m else m.(level := 0)
  }

  function PlainlyAll(ms: seq<Member>): (r: seq<Member>)
    ensures |r| == |ms|
  {
    if ms == [] then [] else [Plainly(ms[0])] + PlainlyAll(ms[1..])
  }

  /** Levels are sent unless every op has the weakest one. */
  predicate LevelsFit(m: Member, send: bool) {
    m.op ==> m.level <= MAX_OPLEVEL && (!send ==> m.level == MAX_OPLEVEL)
  }

  function After(m: Member): State {
    State(m.voice, m.op, if m.op then m.level else -1)
  }

  lemma ReadDigits(n: nat, st: State, reset: bool)
    requires n <= MAX_OPLEVEL && (st.oplevel == -1 || (0 <= st.oplevel && st.oplevel + n <= MAX_OPLEVEL))
    ensures ReadFlags(Digits(n), st, reset) ==
            if st.oplevel == -1 then State(if reset then false else st.voice, true, n)
            else State(st.voice, true, st.oplevel + n)
  {
    var d := Digits(n);
    DigitRunOf(d, "");
    assert d + "" == d && d[..|d|] == d && d[|d|..] == "";
    ValueOfDigits(n);
    assert d[0] != 'o' && d[0] != 'v' by {
      assert IsDigit(d[0]);
    }
  }

  lemma TagIsRead(prev: Member, m: Member, send: bool)
    requires Follows(prev, m, send) && LevelsFit(prev, send) && LevelsFit(m, send)
    ensures ReadTag(Tag(prev, m, send), After(prev)) == After(m)
  {
    var st, s := After(prev), ModeText(m, send);
    if Class(prev) != Class(m) {
      assert (":" + s)[1..] == s;
      if m.voice {
        var rest := if !m.op then "" else if send then Digits(m.level) else "o";
        assert s == "v" + rest && s[0] == 'v' && s[1..] == rest;
        var voiced := State(true, false, -1);
        assert ReadFlags(s, st, true) == ReadFlags(rest, voiced, false);
        if m.op && send {
          ReadDigits(m.level, voiced, false);
        } else if m.op {
          assert rest[1..] == "";
          assert ReadFlags(rest, voiced, false) == ReadFlags("", State(true, true, MAX_OPLEVEL), false);
        }
      } else if send {
        assert m.op && !prev.op && s == Digits(m.level);
        ReadDigits(m.level, st, true);
      } else {
        assert m.op && s == "o" && s[1..] == "";
        assert ReadFlags(s, st, true) == ReadFlags("", State(false, true, MAX_OPLEVEL), false);
      }
    } else if send && m.op && prev.level < m.level {
      var d := Digits(m.level - prev.level);
      assert (":" + d)[1..] == d;
      ReadDigits(m.level - prev.level, st, true);
    }
  }

  /** Reading a line gives back its members, whatever line of the burst it is. */
  lemma {:induction false} LineIsLossless(prev: Member, ms: seq<Member>, send: bool)
    requires Ordered(prev, ms, send) && LevelsFit(prev, send) && forall i :: 0 <= i < |ms| ==> LevelsFit(ms[i], send)
    ensures DecodeLine(EncodeLine(prev, ms, send), After(prev)) == PlainlyAll(ms)
    decreases |ms|
  {
    if ms != [] {
      TagIsRead(prev, ms[0], send);
      LineIsLossless(ms[0], ms[1..], send);
    }
  }

  lemma TagLength(prev: Member, m: Member, send: bool)
    requires m.op ==> m.level <= MAX_OPLEVEL
    ensures |Tag(prev, m, send)| <= 5
  {
    if m.op {
      DigitsLength(m.level);
    }
    if m.op && prev.level < m.level {
      DigitsLength(m.level - prev.level);
    }
  }

  lemma {:induction false} EncodeNext(prev: Member, ms: seq<Member>, m: Member, send: bool)
    ensures EncodeLine(prev, ms + [m], send) == EncodeLine(prev, ms, send)
            + [Token(m.user, Tag(if ms == [] then prev else ms[|ms| - 1], m, send))]
    ensures Ordered(prev, ms + [m], send)
            == (Ordered(prev, ms, send) && Follows(if ms == [] then prev else ms[|ms| - 1], m, send))
    decreases |ms|
  {
    if ms == [] {
      assert ms + [m] == [m];
    } else {
      EncodeNext(ms[0], ms[1..], m, send);
      assert (ms + [m])[1..] == ms[1..] + [m];
    }
  }
}
