/**
 Which limits a command puts into its mode buffer (mode_parse_limit in ircd/channel.c, called
 from mode_parse; a BURST parses several parameters into one buffer).
 */
module LimitRule {
  import opened Options
  import opened Decimal
  import opened ModeLine
  import opened ModeFit
  import opened ModeFlush
  import opened ModeBuf

  /** +l with its number as 32 bits, or -l. */
  datatype LimitOp = SetLimit(t: nat) | DropLimit

  /** How a parameter is parsed: a member or server that may, a BURST, one that wipes out, and one that is applied. */
  datatype Rule = Rule(allowed: bool, burst: bool, wipeout: bool, apply: bool)

  /** The limit of the channel, whether its mode bit is set, and the limits put into the buffer so far. */
  datatype State = State(bit: bool, limit: nat, out: seq<nat>)

  /** One letter: the state behind it, and whether the parameter has had its limit. */
  function ParseLimit(r: Rule, s: State, done: bool, op: LimitOp): (State, bool) {
    match op
    case SetLimit(t) =>
      if t >= 0x8000_0000 || (!r.wipeout && (t == 0 || t == s.limit)) || !r.allowed then (s, done)
      else if r.burst && s.bit && s.limit < t then (s, done)
      else if done then (s, done)
      else (State(s.bit || r.apply, if r.apply then t else s.limit, s.out + [t]), true)
    case DropLimit =>
      if !r.allowed || s.limit == 0 || done then (s, done)
      else (if r.apply then State(false, 0, s.out) else s, true)
  }

  /** The letters of one parameter, from the left. */
  function ParseLetters(r: Rule, s: State, done: bool, ops: seq<LimitOp>): State
    decreases |ops|
  {
    if ops == [] then s
    else
      var next := ParseLimit(r, s, done, ops[0]);
      ParseLetters(r, next.0, next.1, ops[1..])
  }

  /** The parameters that one command parses into one buffer; each starts anew. */
  function ParseAll(r: Rule, s: State, params: seq<seq<LimitOp>>): State {
    if params == [] then s else ParseLetters(r, ParseAll(r, s, params[..|params| - 1]), false, params[|params| - 1])
  }

  /** One parameter puts at most one limit into the buffer. */
  lemma {:induction false} OnePerParameter(r: Rule, s: State, done: bool, ops: seq<LimitOp>)
    ensures var s' := ParseLetters(r, s, done, ops);
            s.out <= s'.out && |s'.out| <= |s.out| + if done then 0 else 1
    decreases |ops|
  {
    if ops != [] {
      var next := ParseLimit(r, s, done, ops[0]);
      OnePerParameter(r, next.0, next.1, ops[1..]);
    }
  }

  // ----- a BURST only lowers the limit

  predicate Falls(ns: seq<nat>) {
    forall i, j :: 0 <= i < j < |ns| ==> ns[j] <= ns[i]
  }

  predicate Sets(ops: seq<LimitOp>) {
    forall i :: 0 <= i < |ops| ==> ops[i].SetLimit?
  }

  /** The limits fall, and the last one is the limit of the channel. */
  predicate Falling(s: State) {
    Falls(s.out) && (s.out != [] ==> s.bit && s.limit == s.out[|s.out| - 1])
  }

  lemma {:induction false} LettersFall(r: Rule, s: State, done: bool, ops: seq<LimitOp>)
    requires r.burst && r.apply && Falling(s) && Sets(ops)
    ensures Falling(ParseLetters(r, s, done, ops))
    decreases |ops|
  {
    if ops != [] {
      var next := ParseLimit(r, s, done, ops[0]);
      assert Falling(next.0);
      LettersFall(r, next.0, next.1, ops[1..]);
    }
  }

  /** A BURST that never removes a limit puts limits into its buffer that only fall, however many parameters it has. */
  lemma {:induction false} BurstFalls(r: Rule, s: State, params: seq<seq<LimitOp>>)
    requires r.burst && r.apply && s.out == []
    requires forall i :: 0 <= i < |params| ==> Sets(params[i])
    ensures Falls(ParseAll(r, s, params).out) && Falling(ParseAll(r, s, params))
  {
    if params != [] {
      BurstFalls(r, s, params[..|params| - 1]);
      LettersFall(r, ParseAll(r, s, params[..|params| - 1]), false, params[|params| - 1]);
    }
  }

  /**
   With a removal in between any two limits can stand in one buffer; then bans can overflow its line if the
   second is longer.
   */
  lemma BurstRises(a: nat, b: nat)
    requires 0 < a < 0x8000_0000 && 0 < b < 0x8000_0000
    ensures |Digits(b)| > |Digits(a)|
            <==> exists bans :: BanTexts(bans) && ShownLength(SetLimits(a, b) + BanModes(bans), true) > TOTAL_ROOM
    ensures var r := Rule(true, true, false, true);
            ParseAll(r, State(false, 0, []), [[SetLimit(a)], [DropLimit], [SetLimit(b)]]) == State(true, b, [a, b])
  {
    var r, s := Rule(true, true, false, true), State(false, 0, []);
    var params := [[SetLimit(a)], [DropLimit], [SetLimit(b)]];
    TwoLimitsFitIff(a, b, true);
    assert params[..2] == [[SetLimit(a)], [DropLimit]] && params[..2][..1] == [[SetLimit(a)]] &&
           params[..2][..1][..0] == [];
    OneLetter(r, s, SetLimit(a));
    OneLetter(r, State(true, a, [a]), DropLimit);
    OneLetter(r, State(false, 0, [a]), SetLimit(b));
    assert ParseAll(r, s, params[..2][..1]) == State(true, a, [a]);
    assert ParseAll(r, s, params[..2]) == State(false, 0, [a]);
  }

  lemma OneLetter(r: Rule, s: State, op: LimitOp)
    ensures ParseLetters(r, s, false, [op]) == ParseLimit(r, s, false, op).0
  {
    assert [op][1..] == [];
  }

  lemma TwoShown(a: nat, b: nat, noKey: bool, limit: string)
    ensures Params(SetLimits(a, b), limit, Users(noKey)) == [limit, limit]
  {
    var ms := SetLimits(a, b);
    assert ms[1..] == [ms[1]];
    assert [ms[1]][1..] == [];
    assert Params([ms[1]], limit, Users(noKey)) == [limit] + Params([], limit, Users(noKey)) == [limit];
  }

  /** Two parameters of a BURST that lower the limit: users are shown the lower one twice. */
  lemma BurstPrintsLast(a: nat, b: nat, noKey: bool)
    requires 0 < b < a < 0x8000_0000
    ensures var r := Rule(true, true, false, true);
            ParseAll(r, State(false, 0, []), [[SetLimit(a)], [SetLimit(b)]]) == State(true, b, [a, b])
    ensures Params(SetLimits(a, b), LimitText(SetLimits(a, b), 2), Users(noKey)) == [Digits(b), Digits(b)]
    ensures Digits(a) != Digits(b)
  {
    hide Digits;
    var r, s := Rule(true, true, false, true), State(false, 0, []);
    var params := [[SetLimit(a)], [SetLimit(b)]];
    assert params[..1] == [[SetLimit(a)]] && params[..1][..0] == [];
    OneLetter(r, s, SetLimit(a));
    OneLetter(r, State(true, a, [a]), SetLimit(b));
    assert ParseAll(r, s, params[..1]) == State(true, a, [a]);
    TwoLimits(a, b, noKey);
    TwoShown(a, b, noKey, Digits(b));
    ValueOfDigits(a);
    ValueOfDigits(b);
  }

  // ----- and so its lines fit

  /** The limits among these modes, in order. */
  function LimitsOf(ms: seq<Mode>): seq<nat>
    requires AllValid(ms)
  {
    if ms == [] then []
    else LimitsOf(ms[..|ms| - 1]) + if ms[|ms| - 1].kind == Limit then [ms[|ms| - 1].arg.n] else []
  }

  lemma {:induction false} LimitsMembers(ms: seq<Mode>)
    requires AllValid(ms)
    ensures forall m :: m in ms && m.kind == Limit ==> m.arg.n in LimitsOf(ms)
  {
    if ms != [] {
      LimitsMembers(ms[..|ms| - 1]);
      assert ms == ms[..|ms| - 1] + [ms[|ms| - 1]];
    }
  }

  /** Limits that fall are charged for at least what is printed. */
  lemma {:induction false} FallingShrink(ms: seq<Mode>)
    requires AllValid(ms) && Falls(LimitsOf(ms))
    ensures LimitsShrink(ms)
  {
    if ms != [] {
      var front, m := ms[..|ms| - 1], ms[|ms| - 1];
      assert ms == front + [m];
      var before, all := LimitsOf(front), LimitsOf(ms);
      assert forall i :: 0 <= i < |before| ==> before[i] == all[i];
      FallingShrink(front);
      ShrinkNext(front, m);
      LimitsMembers(front);
      forall i | 0 <= i < |front| && front[i].kind == Limit && m.kind == Limit
        ensures |Digits(m.arg.n)| <= |Digits(front[i].arg.n)|
      {
        assert front[i] in front;
        var k :| 0 <= k < |before| && before[k] == front[i].arg.n;
        assert all[|before|] == m.arg.n && all[k] == front[i].arg.n;
        DigitsGrow(m.arg.n, front[i].arg.n);
      }
    }
  }

  /** A buffer with one limit at most has a right text for it. */
  lemma {:induction false} OneAgrees(ms: seq<Mode>)
    requires AllValid(ms) && |LimitsOf(ms)| <= 1
    ensures OneLimit(ms)
  {
    if ms != [] {
      var front, m := ms[..|ms| - 1], ms[|ms| - 1];
      assert ms == front + [m];
      OneAgrees(front);
      LimitsMembers(front);
    }
  }

  /**
   One MODE command: its limits agree, so every line has the right text for them, and fits unless it shows
   servers a hidden key.
   */
  lemma CommandFits(r: Rule, s: State, ops: seq<LimitOp>, d: Dest, asked: Option<string>, steps: seq<Step>,
      log: seq<Flush>)
    requires Finished(d, asked, steps, log) && AllValid(ModesOf(steps)) && KeysPaid(ModesOf(steps), d.toServer, d.noKey)
    requires s.out == [] && LimitsOf(ModesOf(steps)) == ParseLetters(r, s, false, ops).out
    ensures OneLimit(ModesOf(steps)) && forall k :: 0 <= k < |log| ==> FlushFits(log[k])
  {
    hide Finished, FlushFits, LimitsOf, ModesOf;
    OnePerParameter(r, s, false, ops);
    OneAgrees(ModesOf(steps));
    FallingShrink(ModesOf(steps));
    RunFits(d, asked, steps, log);
  }

  /** A BURST that removes no limit: the text may be wrong for all but the last limit, but every line fits. */
  lemma BurstFits(r: Rule, s: State, params: seq<seq<LimitOp>>, d: Dest, asked: Option<string>, steps: seq<Step>,
      log: seq<Flush>)
    requires Finished(d, asked, steps, log) && AllValid(ModesOf(steps)) && KeysPaid(ModesOf(steps), d.toServer, d.noKey)
    requires r.burst && r.apply && s.out == [] && forall i :: 0 <= i < |params| ==> Sets(params[i])
    requires LimitsOf(ModesOf(steps)) == ParseAll(r, s, params).out
    ensures forall k :: 0 <= k < |log| ==> FlushFits(log[k])
  {
    hide Finished, FlushFits, LimitsOf, ModesOf;
    BurstFalls(r, s, params);
    FallingShrink(ModesOf(steps));
    RunFits(d, asked, steps, log);
  }
}
