/**
 The mode buffer on values (modebuf_flush_int in ircd/channel.c): what one flush sends and what
 it holds back, and the lines it composes.
 */
module ModeLine {
  import opened Options
  import opened Decimal
  import opened ChannelLimits

  /** BUFSIZE - 200: the room one line has for parameters. */
  const TOTAL_ROOM: nat := 312
  const MAX_PARAMS: nat := 6

  datatype Kind = Op | Voice | Ban | Key | Apass | Upass | Limit

  /** The argument of a mode; the buffer frees a text it owns when the mode has been sent. */
  datatype Arg =
    | Client(name: string, numeric: string, oplevel: nat)
    | Text(text: string, owned: Option<nat>)
    | Number(n: nat)

  datatype Mode = Mode(kind: Kind, add: bool, arg: Arg) {
    predicate Valid() {
      match kind
      case Op => arg.Client? && |arg.numeric| == 5
      case Voice => arg.Client? && |arg.numeric| == 5
      case Limit => arg.Number? && add
      case _ => arg.Text? && arg.text != ""
    }
  }

  function Letter(k: Kind): char {
    match k
    case Op => 'o'
    case Voice => 'v'
    case Ban => 'b'
    case Key => 'k'
    case Apass => 'A'
    case Upass => 'U'
    case Limit => 'l'
  }

  /** The length a mode is charged for its argument. */
  function Cost(m: Mode, noKey: bool): nat
    requires m.Valid()
  {
    match m.kind
    case Op => if |m.arg.name| > 9 then |m.arg.name| else 9
    case Voice => if |m.arg.name| > 9 then |m.arg.name| else 9
    case Limit => |Digits(m.arg.n)|
    case Key => if noKey then 1 else |m.arg.text|
    case _ => |m.arg.text|
  }

  /** The parameter users see; limits are all printed from one text. */
  function Shown(m: Mode, noKey: bool, limit: string): string
    requires m.Valid()
  {
    match m.kind
    case Op => m.arg.name
    case Voice => m.arg.name
    case Limit => limit
    case Ban => m.arg.text
    case Key => if noKey then "*" else m.arg.text
    case _ => "*"
  }

  /** The parameter servers see. */
  function Wire(m: Mode, limit: string): string
    requires m.Valid()
  {
    match m.kind
    case Op => if m.arg.oplevel < MAX_OPLEVEL then m.arg.numeric + ":" + Digits(m.arg.oplevel) else m.arg.numeric
    case Voice => m.arg.numeric
    case Limit => limit
    case _ => m.arg.text
  }

  /** Who reads a line: users, maybe without keys, or servers, maybe the one that gets its change back. */
  datatype View = Users(noKey: bool) | Servers(bounce: bool) {
    predicate Back() {
      Servers? && bounce
    }
  }

  function Told(m: Mode, limit: string, v: View): string
    requires m.Valid()
  {
    match v
    case Users(noKey) => Shown(m, noKey, limit)
    case Servers(_) => Wire(m, limit)
  }

  ghost predicate AllValid(ms: seq<Mode>) {
    forall i :: 0 <= i < |ms| ==> ms[i].Valid()
  }

  // ----- which modes one flush sends

  /** The room left behind the first n modes. */
  function Left(ms: seq<Mode>, n: nat, room: int, noKey: bool): int
    requires n <= |ms| && AllValid(ms)
  {
    if n == 0 then room
    else
      var left := Left(ms, n - 1, room, noKey);
      if left - Cost(ms[n - 1], noKey) <= 0 then left else left - Cost(ms[n - 1], noKey) - 1
  }

  predicate HeldBack(ms: seq<Mode>, i: nat, room: int, noKey: bool)
    requires i < |ms| && AllValid(ms)
  {
    Left(ms, i, room, noKey) - Cost(ms[i], noKey) <= 0
  }

  function Sent(ms: seq<Mode>, n: nat, room: int, noKey: bool): (r: seq<Mode>)
    requires n <= |ms| && AllValid(ms)
    ensures AllValid(r)
  {
    if n == 0 then []
    else Sent(ms, n - 1, room, noKey) + if HeldBack(ms, n - 1, room, noKey) then [] else [ms[n - 1]]
  }

  function Saved(ms: seq<Mode>, n: nat, room: int, noKey: bool): (r: seq<Mode>)
    requires n <= |ms| && AllValid(ms)
    ensures AllValid(r) && |r| <= n
  {
    if n == 0 then []
    else Saved(ms, n - 1, room, noKey) + if HeldBack(ms, n - 1, room, noKey) then [ms[n - 1]] else []
  }

  lemma {:induction false} NothingLost(ms: seq<Mode>, n: nat, room: int, noKey: bool)
    requires n <= |ms| && AllValid(ms)
    ensures multiset(Sent(ms, n, room, noKey)) + multiset(Saved(ms, n, room, noKey)) == multiset(ms[..n])
  {
    hide *;
    if n == 0 {
      NothingYet(ms, room, noKey);
    } else {
      NothingLost(ms, n - 1, room, noKey);
      OneWay(ms, n - 1, room, noKey);
      FrontNext(ms, n - 1);
      var sent, saved := Sent(ms, n - 1, room, noKey), Saved(ms, n - 1, room, noKey);
      var sent', saved' := Sent(ms, n, room, noKey), Saved(ms, n, room, noKey);
      OneGains(sent, saved, sent', saved', ms[..n - 1], ms[n - 1], HeldBack(ms, n - 1, room, noKey));
    }
  }

  lemma {:induction false} OneGains(a: seq<Mode>, b: seq<Mode>, a': seq<Mode>, b': seq<Mode>, whole: seq<Mode>,
      m: Mode, held: bool)
    requires multiset(a) + multiset(b) == multiset(whole)
    requires if held then a' == a && b' == b + [m] else a' == a + [m] && b' == b
    ensures multiset(a') + multiset(b') == multiset(whole + [m])
  {
    if held {
      SecondGains(a, b, whole, m);
    } else {
      FirstGains(a, b, whole, m);
    }
  }

  lemma NothingYet(ms: seq<Mode>, room: int, noKey: bool)
    requires AllValid(ms)
    ensures Sent(ms, 0, room, noKey) == Saved(ms, 0, room, noKey) == ms[..0] == []
  {
  }

  lemma FrontNext(ms: seq<Mode>, i: nat)
    requires i < |ms|
    ensures ms[..i + 1] == ms[..i] + [ms[i]]
  {
  }

  lemma OneWay(ms: seq<Mode>, i: nat, room: int, noKey: bool)
    requires i < |ms| && AllValid(ms)
    ensures var sent, saved := Sent(ms, i, room, noKey), Saved(ms, i, room, noKey);
            var sent', saved' := Sent(ms, i + 1, room, noKey), Saved(ms, i + 1, room, noKey);
            if HeldBack(ms, i, room, noKey) then sent' == sent && saved' == saved + [ms[i]]
            else sent' == sent + [ms[i]] && saved' == saved
  {
    assert Sent(ms, i, room, noKey) + [] == Sent(ms, i, room, noKey);
    assert Saved(ms, i, room, noKey) + [] == Saved(ms, i, room, noKey);
  }

  lemma {:induction false} FirstGains(a: seq<Mode>, b: seq<Mode>, whole: seq<Mode>, m: Mode)
    requires multiset(a) + multiset(b) == multiset(whole)
    ensures multiset(a + [m]) + multiset(b) == multiset(whole + [m])
  {
  }

  lemma {:induction false} SecondGains(a: seq<Mode>, b: seq<Mode>, whole: seq<Mode>, m: Mode)
    requires multiset(a) + multiset(b) == multiset(whole)
    ensures multiset(a) + multiset(b + [m]) == multiset(whole + [m])
  {
  }

  lemma {:induction false} FirstIsSent(ms: seq<Mode>, n: nat, room: int, noKey: bool)
    requires 0 < n <= |ms| && AllValid(ms) && Cost(ms[0], noKey) < room
    ensures |Saved(ms, n, room, noKey)| < n
  {
    if n > 1 {
      FirstIsSent(ms, n - 1, room, noKey);
    }
  }

  /** The text of the last limit among the first n modes, sent or not. */
  function LimitText(ms: seq<Mode>, n: nat): string
    requires n <= |ms| && AllValid(ms)
  {
    if n == 0 then ""
    else if ms[n - 1].kind == Limit then Digits(ms[n - 1].arg.n)
    else LimitText(ms, n - 1)
  }

  // ----- a MODE line: letters with '-', letters with '+', and the parameters in that order

  datatype Line = Line(minus: string, plus: string, params: seq<string>)

  /** The modes of one direction, in order. */
  function Side(ms: seq<Mode>, add: bool): (r: seq<Mode>)
    ensures AllValid(ms) ==> AllValid(r)
  {
    if ms == [] then []
    else
      var rest := Side(ms[1..], add);
      if ms[0].add == add then [ms[0]] + rest else rest
  }

  function Letters(ms: seq<Mode>): string {
    if ms == [] then "" else [Letter(ms[0].kind)] + Letters(ms[1..])
  }

  /** The parameters of a line; a limit that is being removed by a bounce goes without. */
  function Params(ms: seq<Mode>, limit: string, v: View): seq<string>
    requires AllValid(ms)
  {
    if ms == [] then []
    else (if v.Back() && ms[0].kind == Limit then [] else [Told(ms[0], limit, v)]) + Params(ms[1..], limit, v)
  }

  /** A bounce sends the changes back with their sense reversed. */
  function ServerLine(ms: seq<Mode>, limit: string, simpleAdd: string, simpleRem: string, bounce: bool): Line
    requires AllValid(ms)
  {
    var adds, rems := Side(ms, true), Side(ms, false);
    var plus, minus := simpleAdd + Letters(adds), simpleRem + Letters(rems);
    var added, removed := Params(adds, limit, Servers(bounce)), Params(rems, limit, Servers(bounce));
    if bounce then Line(plus, minus, added + removed) else Line(minus, plus, removed + added)
  }

  function VisibleLine(ms: seq<Mode>, limit: string, simpleAdd: string, simpleRem: string, noKey: bool): Line
    requires AllValid(ms)
  {
    var adds, rems := Side(ms, true), Side(ms, false);
    Line(simpleRem + Letters(rems), simpleAdd + Letters(adds),
         Params(rems, limit, Users(noKey)) + Params(adds, limit, Users(noKey)))
  }

  // ----- one mode more

  lemma {:induction false} SideNext(ms: seq<Mode>, m: Mode, add: bool)
    ensures Side(ms + [m], add) == Side(ms, add) + if m.add == add then [m] else []
  {
    if ms == [] {
      assert ms + [m] == [m] && [m][1..] == [];
    } else {
      SideNext(ms[1..], m, add);
      assert (ms + [m])[1..] == ms[1..] + [m] && (ms + [m])[0] == ms[0];
    }
  }

  lemma {:induction false} LettersNext(ms: seq<Mode>, m: Mode)
    ensures Letters(ms + [m]) == Letters(ms) + [Letter(m.kind)]
  {
    if ms == [] {
      assert ms + [m] == [m] && [m][1..] == [];
    } else {
      LettersNext(ms[1..], m);
      assert (ms + [m])[1..] == ms[1..] + [m];
    }
  }

  lemma {:induction false} ParamsNext(ms: seq<Mode>, m: Mode, limit: string, v: View)
    requires AllValid(ms) && m.Valid() && AllValid(ms + [m])
    ensures Params(ms + [m], limit, v)
            == Params(ms, limit, v) + if v.Back() && m.kind == Limit then [] else [Told(m, limit, v)]
  {
    hide Told;
    if ms == [] {
      assert ms + [m] == [m] && [m][1..] == [];
    } else {
      ParamsNext(ms[1..], m, limit, v);
      assert (ms + [m])[1..] == ms[1..] + [m];
    }
  }
}
