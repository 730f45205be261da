/**
 How a MODE line pairs its letters with its parameters (mode_parse in ircd/channel.c), and what
 a server reads from the line of a flush.
 */
module ModeRead {
  import opened Options
  import opened Sequences
  import opened Decimal
  import opened ModeLine

  datatype Change = Change(add: bool, letter: char, param: string)

  /** Letters of modes that always have a parameter. */
  predicate HasParam(c: char) {
    c == 'o' || c == 'v' || c == 'b' || c == 'k' || c == 'A' || c == 'U'
  }

  /** Letters that take a parameter; a limit takes one only when it is set. */
  predicate Takes(c: char, add: bool) {
    HasParam(c) || (c == 'l' && add)
  }

  /** The words of a line as they are sent: "-" and the letters removed, "+" and those added, the parameters. */
  function LineText(l: Line): string {
    Marked(l.minus, '-') + Marked(l.plus, '+')
  }

  /** Letters behind their sign; without letters there is no sign. */
  function Marked(letters: string, sign: char): string {
    if letters == "" then "" else [sign] + letters
  }

  /** From the left: a sign changes the direction; a letter whose parameter is missing does nothing. */
  function Scan(letters: string, add: bool, params: seq<string>): seq<Change>
    decreases |letters|
  {
    if letters == "" then []
    else
      var c, rest := letters[0], letters[1..];
      if c == '+' || c == '-' then Scan(rest, c == '+', params)
      else if !Takes(c, add) then [Change(add, c, "")] + Scan(rest, add, params)
      else if params == [] then Scan(rest, add, [])
      else [Change(add, c, params[0])] + Scan(rest, add, params[1..])
  }

  /** Reading a line that goes on with other words, such as its timestamp. */
  function ReadLine(l: Line, more: seq<string>): seq<Change> {
    Scan(LineText(l), true, l.params + more)
  }

  function SimpleChanges(letters: string, add: bool): (r: seq<Change>)
    ensures |r| == |letters|
  {
    if letters == "" then [] else [Change(add, letters[0], "")] + SimpleChanges(letters[1..], add)
  }

  /** The flushed modes as changes in the direction add. */
  function ModeChanges(ms: seq<Mode>, add: bool, limit: string, v: View): (r: seq<Change>)
    requires AllValid(ms)
    ensures |r| == |ms|
  {
    if ms == [] then []
    else
      var param := if ms[0].kind == Limit && v.Back() then "" else Told(ms[0], limit, v);
      [Change(add, Letter(ms[0].kind), param)] + ModeChanges(ms[1..], add, limit, v)
  }

  /** What the line of a flush means: removals first, then additions; the other way round for a bounce. */
  function Meaning(ms: seq<Mode>, limit: string, simpleAdd: string, simpleRem: string, v: View): seq<Change>
    requires AllValid(ms)
  {
    var added := SimpleChanges(simpleAdd, !v.Back()) + ModeChanges(Side(ms, true), !v.Back(), limit, v);
    var removed := SimpleChanges(simpleRem, v.Back()) + ModeChanges(Side(ms, false), v.Back(), limit, v);
    if v.Back() then added + removed else removed + added
  }

  /** Letters of modes without arguments, and 'l' for the removal of a limit. */
  predicate Flags(letters: string) {
    forall i :: 0 <= i < |letters| ==> !HasParam(letters[i]) && letters[i] != '+' && letters[i] != '-'
  }

  predicate NoneTakes(letters: string, add: bool) {
    Flags(letters) && forall i :: 0 <= i < |letters| ==> !Takes(letters[i], add)
  }

  lemma FlagsTakeNothing(letters: string, add: bool)
    requires Flags(letters) && (add ==> 'l' !in letters)
    ensures NoneTakes(letters, add)
  {
  }

  lemma {:induction false} SimpleRead(letters: string, more: string, add: bool, params: seq<string>)
    requires NoneTakes(letters, add)
    ensures Scan(letters + more, add, params) == SimpleChanges(letters, add) + Scan(more, add, params)
  {
    if letters == "" {
      assert letters + more == more;
    } else {
      SimpleRead(letters[1..], more, add, params);
      assert (letters + more)[1..] == letters[1..] + more && (letters + more)[0] == letters[0];
    }
  }

  /** All modes of ms go in the direction add. */
  predicate Going(ms: seq<Mode>, add: bool) {
    forall i :: 0 <= i < |ms| ==> ms[i].add == add
  }

  lemma {:induction false} ModesRead(ms: seq<Mode>, more: string, add: bool, limit: string, v: View, rest: seq<string>)
    requires AllValid(ms) && Going(ms, add != v.Back())
    ensures Scan(Letters(ms) + more, add, Params(ms, limit, v) + rest)
            == ModeChanges(ms, add, limit, v) + Scan(more, add, rest)
  {
    hide Told;
    if ms == [] {
      assert Params(ms, limit, v) + rest == rest && Letters(ms) + more == more;
    } else {
      ModesRead(ms[1..], more, add, limit, v, rest);
      ParamsFirst(ms, limit, v, rest);
      FirstChange(ms, add, limit, v);
      LetterTakes(ms[0].kind, add);
      assert Letters(ms) + more == [Letter(ms[0].kind)] + (Letters(ms[1..]) + more);
      assert ms[0].kind == Limit && v.Back() <==> !Takes(Letter(ms[0].kind), add);
      hide *;
      ScanFirst(Letter(ms[0].kind), Letters(ms[1..]) + more, add, Params(ms, limit, v) + rest);
      Associate([ModeChanges(ms, add, limit, v)[0]], ModeChanges(ms[1..], add, limit, v), Scan(more, add, rest));
    }
  }

  lemma FirstChange(ms: seq<Mode>, add: bool, limit: string, v: View)
    requires AllValid(ms) && ms != []
    ensures var param := if ms[0].kind == Limit && v.Back() then "" else Told(ms[0], limit, v);
            ModeChanges(ms, add, limit, v)
            == [Change(add, Letter(ms[0].kind), param)] + ModeChanges(ms[1..], add, limit, v)
  {
  }

  lemma ScanFirst(c: char, text: string, add: bool, params: seq<string>)
    requires c != '+' && c != '-' && (Takes(c, add) ==> params != [])
    ensures Scan([c] + text, add, params)
            == if Takes(c, add) then [Change(add, c, params[0])] + Scan(text, add, params[1..])
               else [Change(add, c, "")] + Scan(text, add, params)
  {
    assert ([c] + text)[1..] == text;
  }

  lemma LetterTakes(k: Kind, add: bool)
    ensures Takes(Letter(k), add) <==> !(k == Limit && !add)
    ensures Letter(k) != '+' && Letter(k) != '-'
  {
  }

  lemma ParamsFirst(ms: seq<Mode>, limit: string, v: View, rest: seq<string>)
    requires AllValid(ms) && ms != []
    ensures var params, tail := Params(ms, limit, v) + rest, Params(ms[1..], limit, v) + rest;
            if v.Back() && ms[0].kind == Limit then params == tail
            else params != [] && params[0] == Told(ms[0], limit, v) && params[1..] == tail
  {
    hide Told;
    var tail := Params(ms[1..], limit, v);
    if v.Back() && ms[0].kind == Limit {
      assert [] + tail == tail;
    } else {
      assert Params(ms, limit, v) == [Told(ms[0], limit, v)] + tail;
      Associate([Told(ms[0], limit, v)], tail, rest);
    }
  }

  /** One direction of a line, simple letters first, whatever the direction was before its sign. */
  lemma SideRead(simple: string, ms: seq<Mode>, more: string, add: bool, before: bool, limit: string, v: View,
                 rest: seq<string>)
    requires AllValid(ms) && NoneTakes(simple, add) && Going(ms, add != v.Back())
    requires more == "" || more[0] == '+'
    ensures Scan(Marked(simple + Letters(ms), if add then '+' else '-') + more, before, Params(ms, limit, v) + rest)
            == SimpleChanges(simple, add) + ModeChanges(ms, add, limit, v) + Scan(more, add, rest)
  {
    var letters, sign, params := simple + Letters(ms), if add then '+' else '-', Params(ms, limit, v) + rest;
    SimpleRead(simple, Letters(ms) + more, add, params);
    ModesRead(ms, more, add, limit, v, rest);
    Associate(simple, Letters(ms), more);
    Associate(SimpleChanges(simple, add), ModeChanges(ms, add, limit, v), Scan(more, add, rest));
    if letters != "" {
      var text := Marked(letters, sign) + more;
      assert text[0] == sign && text[1..] == letters + more;
    } else {
      assert "" + more == more;
      SignFirst(more, before, add, params);
    }
  }

  /** The direction before a sign does not matter. */
  lemma SignFirst(text: string, before: bool, add: bool, params: seq<string>)
    requires text == "" || text[0] == '+'
    ensures Scan(text, before, params) == Scan(text, add, params)
  {
  }

  lemma {:induction false} SideIs(ms: seq<Mode>, add: bool)
    ensures Going(Side(ms, add), add)
  {
    if ms != [] {
      SideIs(ms[1..], add);
    }
  }

  /** The line of a flush for one of its readers. */
  function LineFor(ms: seq<Mode>, limit: string, simpleAdd: string, simpleRem: string, v: View): Line
    requires AllValid(ms)
  {
    match v
    case Users(noKey) => VisibleLine(ms, limit, simpleAdd, simpleRem, noKey)
    case Servers(bounce) => ServerLine(ms, limit, simpleAdd, simpleRem, bounce)
  }

  /** A line pairs every flushed mode with its own parameter, in its own direction, whatever follows the line. */
  lemma LineIsRead(ms: seq<Mode>, limit: string, simpleAdd: string, simpleRem: string, v: View, more: seq<string>)
    requires AllValid(ms) && Flags(simpleAdd) && Flags(simpleRem) && 'l' !in simpleAdd && !v.Back()
    ensures ReadLine(LineFor(ms, limit, simpleAdd, simpleRem, v), more) == Meaning(ms, limit, simpleAdd, simpleRem, v)
  {
    var adds, rems := Side(ms, true), Side(ms, false);
    FlagsTakeNothing(simpleAdd, true);
    FlagsTakeNothing(simpleRem, false);
    SideIs(ms, true);
    SideIs(ms, false);
    var tail, plus := Params(adds, limit, v), Marked(simpleAdd + Letters(adds), '+');
    Associate(Params(rems, limit, v), tail, more);
    SideRead(simpleRem, rems, plus, false, true, limit, v, tail + more);
    SideRead(simpleAdd, adds, "", true, false, limit, v, more);
    hide Scan, Params, Side, Letters, ModeChanges, SimpleChanges;
    assert plus + "" == plus;
    assert Scan("", true, more) == [] by {
      ScanNothing(true, more);
    }
  }

  lemma ScanNothing(add: bool, params: seq<string>)
    ensures Scan("", add, params) == []
  {
  }

  // ----- a bounce of a removed limit has no number for it

  lemma {:induction false} ReadAtMost(letters: string, add: bool, params: seq<string>)
    ensures |Scan(letters, add, params)| <= |letters|
  {
    if letters != "" {
      var rest := letters[1..];
      ReadAtMost(rest, add, params);
      ReadAtMost(rest, true, params);
      ReadAtMost(rest, false, params);
      if params != [] {
        ReadAtMost(rest, add, params[1..]);
      }
    }
  }

  /** A removed limit among the letters that are set is given the next parameter, or none and is skipped. */
  lemma {:induction false} LimitMisread(letters: string, more: string, params: seq<string>, tail: seq<Change>)
    requires Flags(letters) && 'l' in letters && |tail| == |more| && "" !in params
    ensures Scan(letters + more, true, params) != SimpleChanges(letters, true) + tail
  {
    var all, expected := letters + more, SimpleChanges(letters, true) + tail;
    assert all[0] == letters[0] && all[1..] == letters[1..] + more;
    if letters[0] == 'l' {
      ReadAtMost(all[1..], true, params);
      assert params != [] ==> Scan(all, true, params)[0].param == params[0] && params[0] in params;
      assert expected[0].param == "";
    } else {
      LimitMisread(letters[1..], more, params, tail);
      assert Scan(all, true, params)[1..] == Scan(all[1..], true, params);
      assert expected[1..] == SimpleChanges(letters[1..], true) + tail;
    }
  }

  lemma {:induction false} NoEmptyParam(ms: seq<Mode>, limit: string)
    requires AllValid(ms)
    ensures "" !in Params(ms, limit, Servers(true))
  {
    if ms != [] {
      NoEmptyParam(ms[1..], limit);
    }
  }

  lemma {:induction false} AsManyLetters(ms: seq<Mode>)
    ensures |Letters(ms)| == |ms|
  {
    if ms != [] {
      AsManyLetters(ms[1..]);
    }
  }

  /**
   A bounced line undoes: what was added is removed, and the other way round. It is read so exactly if no
   limit was removed: that letter is bounced without a number, and takes what follows as one.
   */
  lemma BouncedLineIsReadIff(ms: seq<Mode>, limit: string, simpleAdd: string, simpleRem: string, more: seq<string>)
    requires AllValid(ms) && Flags(simpleAdd) && Flags(simpleRem) && "" !in more
    ensures var line := ServerLine(ms, limit, simpleAdd, simpleRem, true);
            (ReadLine(line, more) == Meaning(ms, limit, simpleAdd, simpleRem, Servers(true))) <==> 'l' !in simpleRem
  {
    var adds, rems, v := Side(ms, true), Side(ms, false), Servers(true);
    FlagsTakeNothing(simpleAdd, false);
    SideIs(ms, true);
    SideIs(ms, false);
    var tail, plus := Params(rems, limit, v), simpleRem + Letters(rems);
    Associate(Params(adds, limit, v), tail, more);
    SideRead(simpleAdd, adds, Marked(plus, '+'), false, true, limit, v, tail + more);
    var undone := SimpleChanges(simpleAdd, false) + ModeChanges(adds, false, limit, v);
    if 'l' in simpleRem {
      NoEmptyParam(rems, limit);
      AsManyLetters(rems);
      LimitMisread(simpleRem, Letters(rems), tail + more, ModeChanges(rems, true, limit, v));
      assert Marked(plus, '+')[1..] == plus;
      SameTail(undone, Scan(plus, true, tail + more),
        SimpleChanges(simpleRem, true) + ModeChanges(rems, true, limit, v));
    } else {
      FlagsTakeNothing(simpleRem, true);
      SideRead(simpleRem, rems, "", true, false, limit, v, more);
      hide Scan, Params, Side, Letters, ModeChanges, SimpleChanges;
      assert Marked(plus, '+') + "" == Marked(plus, '+');
      ScanNothing(true, more);
    }
  }

  /** The removal of a limit and of a ban, bounced: the limit is set to the text of the ban, which is lost. */
  lemma BouncedLimitTakesBan(limit: string)
    ensures var ms := [Mode(Ban, false, Text("x", None))];
            ReadLine(ServerLine(ms, limit, "", "l", true), []) == [Change(true, 'l', "x")]
  {
    var ms := [Mode(Ban, false, Text("x", None))];
    assert ms[1..] == [];
    assert Side(ms, false) == ms && Side(ms, true) == [];
    assert Letters(ms) == "b" && Params(ms, limit, Servers(true)) == ["x"];
    assert ServerLine(ms, limit, "", "l", true) == Line("", "lb", ["x"]);
    assert "+lb"[1..] == "lb" && "lb"[1..] == "b" && "b"[1..] == "" && ["x"] + [] == ["x"] && ["x"][1..] == [];
    assert LineText(Line("", "lb", ["x"])) == "+lb";
    assert Scan("b", true, []) == [];
  }

  // ----- which changes come from modes with arguments

  /**
   What a reader must be told of a mode: the direction, turned round by a bounce, the letter, and the argument.
   Users see nicknames, no passwords, and maybe no key; servers see numerics, with the level of an op that is
   not the highest. A bounce removes the limit, which needs no number.
   */
  function Own(m: Mode, v: View): Change
    requires m.Valid()
  {
    var add, users := m.add != v.Back(), v.Users?;
    match m.kind
    case Op =>
      Change(add, 'o', if users then m.arg.name
                       else m.arg.numeric + if m.arg.oplevel < 999 then ":" + Digits(m.arg.oplevel) else "")
    case Voice => Change(add, 'v', if users then m.arg.name else m.arg.numeric)
    case Ban => Change(add, 'b', m.arg.text)
    case Key => Change(add, 'k', if users && v.noKey then "*" else m.arg.text)
    case Apass => Change(add, 'A', if users then "*" else m.arg.text)
    case Upass => Change(add, 'U', if users then "*" else m.arg.text)
    case Limit => Change(add, 'l', if v.Back() then "" else Digits(m.arg.n))
  }

  /** The changes of these modes, each once. */
  function OwnAll(ms: seq<Mode>, v: View): multiset<Change>
    requires AllValid(ms)
  {
    if ms == [] then multiset{} else multiset{Own(ms[0], v)} + OwnAll(ms[1..], v)
  }

  predicate WithArgument(c: Change, bounce: bool) {
    HasParam(c.letter) || (c.letter == 'l' && c.add != bounce)
  }

  function ArgumentOf(c: Change, bounce: bool): multiset<Change> {
    if WithArgument(c, bounce) then multiset{c} else multiset{}
  }

  /** The changes of modes with arguments among those read. */
  function Arguments(chs: seq<Change>, bounce: bool): multiset<Change> {
    if chs == [] then multiset{} else ArgumentOf(chs[0], bounce) + Arguments(chs[1..], bounce)
  }

  lemma {:induction false} ArgumentsConcat(a: seq<Change>, b: seq<Change>, bounce: bool)
    ensures Arguments(a + b, bounce) == Arguments(a, bounce) + Arguments(b, bounce)
  {
    hide ArgumentOf;
    if a == [] {
      assert a + b == b;
    } else {
      ArgumentsConcat(a[1..], b, bounce);
      assert (a + b)[1..] == a[1..] + b && (a + b)[0] == a[0];
      SumOfThree(ArgumentOf(a[0], bounce), Arguments(a[1..], bounce), Arguments(b, bounce));
    }
  }

  lemma SumOfThree(a: multiset<Change>, b: multiset<Change>, c: multiset<Change>)
    ensures (a + b) + c == a + (b + c)
  {
  }

  lemma {:induction false} SimpleHaveNone(letters: string, add: bool, bounce: bool)
    requires Flags(letters) && ('l' in letters ==> add == bounce)
    ensures Arguments(SimpleChanges(letters, add), bounce) == multiset{}
  {
    if letters != "" {
      SimpleHaveNone(letters[1..], add, bounce);
      assert SimpleChanges(letters, add)[1..] == SimpleChanges(letters[1..], add);
    }
  }

  /** The limit text is right for each limit. */
  ghost predicate TextRight(ms: seq<Mode>, limit: string)
    requires AllValid(ms)
  {
    forall i :: 0 <= i < |ms| && ms[i].kind == Limit ==> limit == Digits(ms[i].arg.n)
  }

  lemma OneIsOwn(m: Mode, limit: string, v: View)
    requires m.Valid() && (m.kind == Limit && !v.Back() ==> limit == Digits(m.arg.n))
    ensures var param := if m.kind == Limit && v.Back() then "" else Told(m, limit, v);
            Own(m, v) == Change(m.add != v.Back(), Letter(m.kind), param) && WithArgument(Own(m, v), v.Back())
  {
    assert m.kind == Op ==> m.arg.numeric + "" == m.arg.numeric;
    assert m.kind == Op ==>
           m.arg.numeric + (":" + Digits(m.arg.oplevel)) == m.arg.numeric + ":" + Digits(m.arg.oplevel);
  }

  /** The changes of one direction, if the limit text is right or goes without. */
  lemma {:induction false} ModesAreOwn(ms: seq<Mode>, add: bool, limit: string, v: View)
    requires AllValid(ms) && (v.Back() || TextRight(ms, limit)) && Going(ms, add)
    ensures Arguments(ModeChanges(ms, add != v.Back(), limit, v), v.Back()) == OwnAll(ms, v)
  {
    hide Own, Told;
    if ms != [] {
      ModesAreOwn(ms[1..], add, limit, v);
      OneIsOwn(ms[0], limit, v);
      assert ModeChanges(ms, add != v.Back(), limit, v)[1..] == ModeChanges(ms[1..], add != v.Back(), limit, v);
    }
  }

  lemma {:induction false} SidesAreAll(ms: seq<Mode>, v: View)
    requires AllValid(ms)
    ensures OwnAll(Side(ms, true), v) + OwnAll(Side(ms, false), v) == OwnAll(ms, v)
  {
    hide Own;
    if ms != [] {
      SidesAreAll(ms[1..], v);
      assert Side(ms, ms[0].add)[1..] == Side(ms[1..], ms[0].add);
    }
  }

  lemma {:induction false} SideKeepsText(ms: seq<Mode>, add: bool, limit: string)
    requires AllValid(ms) && TextRight(ms, limit)
    ensures TextRight(Side(ms, add), limit)
  {
    if ms != [] {
      SideKeepsText(ms[1..], add, limit);
    }
  }

  lemma HalfMeaning(simple: string, ms: seq<Mode>, add: bool, limit: string, v: View)
    requires AllValid(ms) && Flags(simple) && ('l' in simple ==> !add && !v.Back())
    requires v.Back() || TextRight(ms, limit)
    ensures var add' := add != v.Back(); var chs := SimpleChanges(simple, add')
            + ModeChanges(Side(ms, add), add', limit, v);
            Arguments(chs, v.Back()) == OwnAll(Side(ms, add), v)
  {
    hide ModeChanges, SimpleChanges, OwnAll, Arguments, Side;
    var side, add' := Side(ms, add), add != v.Back();
    SideIs(ms, add);
    if !v.Back() {
      SideKeepsText(ms, add, limit);
    }
    ModesAreOwn(side, add, limit, v);
    SimpleHaveNone(simple, add', v.Back());
    ArgumentsConcat(SimpleChanges(simple, add'), ModeChanges(side, add', limit, v), v.Back());
  }

  /** The changes with arguments that a line means are those of its modes, each with its own argument. */
  lemma MeaningIsOwn(ms: seq<Mode>, limit: string, simpleAdd: string, simpleRem: string, v: View)
    requires AllValid(ms) && Flags(simpleAdd) && Flags(simpleRem)
    requires 'l' !in simpleAdd && (v.Back() ==> 'l' !in simpleRem)
    requires v.Back() || TextRight(ms, limit)
    ensures Arguments(Meaning(ms, limit, simpleAdd, simpleRem, v), v.Back()) == OwnAll(ms, v)
  {
    hide ModeChanges, SimpleChanges, OwnAll, Arguments, Side;
    HalfMeaning(simpleAdd, ms, true, limit, v);
    HalfMeaning(simpleRem, ms, false, limit, v);
    SidesAreAll(ms, v);
    var added := SimpleChanges(simpleAdd, !v.Back()) + ModeChanges(Side(ms, true), !v.Back(), limit, v);
    var removed := SimpleChanges(simpleRem, v.Back()) + ModeChanges(Side(ms, false), v.Back(), limit, v);
    ArgumentsConcat(added, removed, v.Back());
    ArgumentsConcat(removed, added, v.Back());
  }

  // ----- the removal of a limit, which takes no slot

  lemma {:induction false} SimpleMembers(letters: string, add: bool, c: char)
    ensures Change(add, c, "") in SimpleChanges(letters, add) <==> c in letters
    ensures Change(!add, c, "") !in SimpleChanges(letters, add)
  {
    if letters != "" {
      SimpleMembers(letters[1..], add, c);
      assert letters == [letters[0]] + letters[1..];
    }
  }

  lemma {:induction false} ModesSetLimits(ms: seq<Mode>, add: bool, limit: string, v: View)
    requires AllValid(ms) && Going(ms, add) && !v.Back()
    ensures Change(false, 'l', "") !in ModeChanges(ms, add, limit, v)
  {
    hide Told;
    if ms != [] {
      ModesSetLimits(ms[1..], add, limit, v);
    }
  }

  lemma LimitDropped(ms: seq<Mode>, limit: string, simpleAdd: string, simpleRem: string, v: View)
    requires AllValid(ms) && !v.Back()
    ensures Change(false, 'l', "") in Meaning(ms, limit, simpleAdd, simpleRem, v) <==> 'l' in simpleRem
  {
    hide ModeChanges, SimpleChanges, Side;
    SideIs(ms, true);
    SideIs(ms, false);
    ModesSetLimits(Side(ms, true), true, limit, v);
    ModesSetLimits(Side(ms, false), false, limit, v);
    SimpleMembers(simpleAdd, true, 'l');
    SimpleMembers(simpleRem, false, 'l');
  }
}
