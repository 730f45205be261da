/**
 What a run of the mode buffer leaves behind: one record per flush, and what the lines of a whole
 run mean to a server that reads them.
 */
module ModeFlush {
  import opened Options
  import opened Sequences
  import opened Decimal
  import opened ChannelLimits
  import opened ModeLine
  import opened ModeRead
  import opened ModeFit

  /** Where the lines go (mb_dest): to users, to servers, back as a bounce, and whether users see keys. */
  datatype Dest = Dest(toChannel: bool, toServer: bool, bounce: bool, noKey: bool)

  /**
   One flush: the modes the buffer held, those it placed, the deop of the source it added, the room,
   limit text and simple letters it used, and its lines.
   */
  datatype Flush = Flush(held: seq<Mode>, modes: seq<Mode>, deop: seq<Mode>, room: nat, limit: string,
                         simpleAdd: string, simpleRem: string, visible: Option<Line>, server: Option<Line>)

  /** What callers ask of the buffer; NoLimit is the removal of a limit. */
  datatype Step = Argument(m: Mode) | Simple(add: bool, letters: set<char>) | NoLimit

  /** The simple modes in the order they are printed; 'l' stands for the removal of a limit. */
  const FLAG_ORDER: string := "psmtinrDROcCMNWuzl"

  predicate Printed(letters: set<char>) {
    forall c :: c in letters ==> c in FLAG_ORDER && c != 'l'
  }

  predicate StepValid(s: Step, noKey: bool) {
    match s
    case Argument(m) => m.Valid() && Cost(m, noKey) < TOTAL_ROOM - 6
    case Simple(_, letters) => Printed(letters)
    case NoLimit => true
  }

  predicate StepsValid(steps: seq<Step>, noKey: bool) {
    forall i :: 0 <= i < |steps| ==> StepValid(steps[i], noKey)
  }

  function ModesOf(steps: seq<Step>): seq<Mode> {
    if steps == [] then []
    else ModesOf(steps[..|steps| - 1]) + if steps[|steps| - 1].Argument? then [steps[|steps| - 1].m] else []
  }

  function SimpleLetters(order: string, s: set<char>): (r: string)
    ensures forall c :: c in r <==> c in s && c in order
  {
    if order == "" then ""
    else
      var rest := SimpleLetters(order[1..], s);
      assert order == [order[0]] + order[1..];
      (if order[0] in s then [order[0]] else "") + rest
  }

  function DeopOf(numeric: string): (m: Mode)
    ensures |numeric| == 5 ==> m.Valid()
  {
    Mode(Op, true, Client("", numeric, MAX_OPLEVEL))
  }

  function Owners(ms: seq<Mode>): seq<nat> {
    if ms == [] then []
    else Owners(ms[..|ms| - 1]) + OwnerOf(ms[|ms| - 1])
  }

  function OwnerOf(m: Mode): seq<nat> {
    if m.arg.Text? && m.arg.owned.Some? then [m.arg.owned.value] else []
  }

  function Placed(log: seq<Flush>): seq<Mode> {
    if log == [] then [] else Placed(log[..|log| - 1]) + log[|log| - 1].modes
  }

  function Deopped(log: seq<Flush>): seq<Mode> {
    if log == [] then [] else Deopped(log[..|log| - 1]) + log[|log| - 1].deop
  }

  lemma OwnersNext(ms: seq<Mode>, m: Mode)
    ensures Owners(ms + [m]) == Owners(ms) + OwnerOf(m)
  {
    assert (ms + [m])[..|ms|] == ms;
  }

  lemma {:induction false} OwnersConcat(a: seq<Mode>, b: seq<Mode>)
    ensures Owners(a + b) == Owners(a) + Owners(b)
  {
    hide OwnerOf;
    if b == [] {
      assert a + b == a;
    } else {
      var front, last := b[..|b| - 1], b[|b| - 1];
      OwnersConcat(a, front);
      hide Owners;
      assert a + b == (a + front) + [last] && b == front + [last];
      OwnersNext(a + front, last);
      OwnersNext(front, last);
      Associate(Owners(a), Owners(front), OwnerOf(last));
    }
  }

  /** The text of m is the one numbered o, which the buffer owns. */
  predicate Owns(m: Mode, o: nat) {
    m.arg.Text? && m.arg.owned == Some(o)
  }

  /** No text is owned by two modes. */
  ghost predicate OwnedOnce(bag: multiset<Mode>) {
    forall o, x, y :: x in bag && y in bag && Owns(x, o) && Owns(y, o) ==> x == y && bag[x] == 1
  }

  ghost predicate NoRepeat(ns: seq<nat>) {
    forall i, j :: 0 <= i < j < |ns| ==> ns[i] != ns[j]
  }

  /** A text that is freed is owned by one of the modes. */
  ghost predicate Frees(ms: seq<Mode>, o: nat) {
    exists m :: m in ms && Owns(m, o)
  }

  /** The texts that are freed are those of the modes. */
  lemma {:induction false} OwnersAre(ms: seq<Mode>, o: nat)
    ensures o in Owners(ms) <==> Frees(ms, o)
  {
    if ms != [] {
      var front, last := ms[..|ms| - 1], ms[|ms| - 1];
      assert ms == front + [last];
      OwnersAre(front, o);
      assert o in OwnerOf(last) <==> Owns(last, o);
      assert Owns(last, o) ==> last in ms;
      assert Frees(ms, o) <==> Frees(front, o) || Owns(last, o);
    }
  }

  /** Each is freed once if each is owned once. */
  lemma {:induction false} FreedOnce(ms: seq<Mode>)
    requires OwnedOnce(multiset(ms))
    ensures NoRepeat(Owners(ms))
  {
    if ms != [] {
      var front, last := ms[..|ms| - 1], ms[|ms| - 1];
      assert ms == front + [last];
      LastOwner(front, last);
      hide OwnedOnce;
      FreedOnce(front);
      forall o | Owns(last, o) ensures o !in Owners(front) {
        OwnersAre(front, o);
      }
      assert Owners(ms) == Owners(front) + OwnerOf(last);
      assert OwnerOf(last) != [] ==> Owns(last, OwnerOf(last)[0]);
    }
  }

  lemma LastOwner(front: seq<Mode>, last: Mode)
    requires OwnedOnce(multiset(front + [last]))
    ensures OwnedOnce(multiset(front))
    ensures forall o, m :: Owns(last, o) && m in front ==> !Owns(m, o)
  {
    var bag, all := multiset(front), multiset(front + [last]);
    assert all == bag + multiset{last};
    assert forall m :: m in bag ==> m in all && bag[m] <= all[m];
    forall o, m | Owns(last, o) && m in front ensures !Owns(m, o) {
      assert m in bag;
    }
  }

  /** A permutation of ms frees the same texts. */
  lemma SameOwners(ms: seq<Mode>, ms': seq<Mode>)
    requires multiset(ms) == multiset(ms')
    ensures forall o :: o in Owners(ms) <==> Frees(ms', o)
    ensures OwnedOnce(multiset(ms')) ==> NoRepeat(Owners(ms))
  {
    hide Owners, Owns, NoRepeat, OwnedOnce;
    if OwnedOnce(multiset(ms)) {
      FreedOnce(ms);
    }
    assert forall m :: m in ms <==> m in multiset(ms);
    assert forall m :: m in ms' <==> m in multiset(ms');
    forall o ensures o in Owners(ms) <==> Frees(ms', o) {
      OwnersAre(ms, o);
    }
  }

  // ----- a right flush

  /** A flush places what fits of what it holds, and each destination gets the line of exactly these modes. */
  ghost predicate FlushRight(d: Dest, f: Flush) {
    && AllValid(f.held) && AllValid(f.modes) && AllValid(f.modes + f.deop) && Deops(f.deop)
    && f.room + 6 * |f.deop| <= TOTAL_ROOM
    && f.modes == Sent(f.held, |f.held|, f.room, d.noKey) && f.limit == LimitText(f.held, |f.held|)
    && Flags(f.simpleAdd) && Flags(f.simpleRem) && 'l' !in f.simpleAdd
    && f.visible == (if d.toChannel then Some(VisibleLine(f.modes, f.limit, f.simpleAdd, f.simpleRem, d.noKey))
      else None)
    && f.server == (if d.toServer then Some(ServerLine(f.modes + f.deop, f.limit, f.simpleAdd, f.simpleRem, d.bounce))
      else None)
  }

  /** The lines of a flush stay within the room of a line. */
  ghost predicate FlushFits(f: Flush) {
    && (f.visible.Some? ==> ParamsLen(f.visible.value.params) <= TOTAL_ROOM)
    && (f.server.Some? ==> ParamsLen(f.server.value.params) <= TOTAL_ROOM)
  }

  lemma ShrinkingFits(d: Dest, f: Flush)
    requires FlushRight(d, f) && LimitsShrink(f.held) && KeysPaid(f.held, d.toServer, d.noKey)
    ensures FlushFits(f)
  {
    hide LimitText, Sent, VisibleLine, ServerLine, ParamsLen, LimitsShrink, LimitPaid, Deops;
    ShrinkIsPaid(f.held);
    VisibleLineFits(f.held, f.room, d.noKey, f.simpleAdd, f.simpleRem);
    if d.toServer {
      ServerLineFits(f.held, f.deop, f.room, d.noKey, f.simpleAdd, f.simpleRem, d.bounce);
    }
  }

  // ----- the readers of a run

  predicate Reads(d: Dest, v: View) {
    match v
    case Users(noKey) => d.toChannel && noKey == d.noKey
    case Servers(bounce) => d.toServer && bounce == d.bounce
  }

  function SentTo(f: Flush, v: View): Option<Line> {
    if v.Users? then f.visible else f.server
  }

  /** Only servers are told of the deop of the source. */
  function ExtraOf(f: Flush, v: View): seq<Mode> {
    if v.Users? then [] else f.deop
  }

  function Extras(log: seq<Flush>, v: View): seq<Mode> {
    if v.Users? then [] else Deopped(log)
  }

  lemma RightLine(d: Dest, f: Flush, v: View)
    requires FlushRight(d, f) && Reads(d, v)
    ensures AllValid(f.modes + ExtraOf(f, v)) && AllValid(f.modes) && AllValid(ExtraOf(f, v))
    ensures SentTo(f, v) == Some(LineFor(f.modes + ExtraOf(f, v), f.limit, f.simpleAdd, f.simpleRem, v))
  {
    hide VisibleLine, ServerLine, Sent, LimitText;
    assert f.modes + [] == f.modes;
    assert forall i :: 0 <= i < |f.deop| ==> (f.modes + f.deop)[|f.modes| + i] == f.deop[i];
  }

  /** What the line of this flush means to v. */
  function FlushMeaning(f: Flush, v: View): seq<Change>
    requires AllValid(f.modes + ExtraOf(f, v))
  {
    Meaning(f.modes + ExtraOf(f, v), f.limit, f.simpleAdd, f.simpleRem, v)
  }

  /** The line of a flush is read as it is meant, always or, for a bounce, exactly if it removes no limit. */
  lemma FlushIsReadIff(d: Dest, f: Flush, v: View, more: seq<string>)
    requires FlushRight(d, f) && Reads(d, v) && "" !in more
    ensures SentTo(f, v).Some? && AllValid(f.modes + ExtraOf(f, v))
    ensures (ReadLine(SentTo(f, v).value, more) == FlushMeaning(f, v)) <==> (v.Back() ==> 'l' !in f.simpleRem)
  {
    hide ServerLine, VisibleLine, ReadLine, Meaning;
    RightLine(d, f, v);
    if v.Back() {
      BouncedLineIsReadIff(f.modes + f.deop, f.limit, f.simpleAdd, f.simpleRem, more);
    } else {
      LineIsRead(f.modes + ExtraOf(f, v), f.limit, f.simpleAdd, f.simpleRem, v, more);
    }
  }

  // ----- all lines of a run

  /** What v reads, line by line, each followed by the words in more. */
  function ReadAll(log: seq<Flush>, v: View, more: seq<string>): seq<Change> {
    if log == [] then []
    else
      var line := SentTo(log[|log| - 1], v);
      ReadAll(log[..|log| - 1], v, more) + if line.Some? then ReadLine(line.value, more) else []
  }

  /** The simple modes after these changes. */
  function Toggle(chs: seq<Change>, s: set<char>): set<char>
    decreases |chs|
  {
    if chs == [] then s
    else
      var c := chs[0];
      Toggle(chs[1..], if HasParam(c.letter) || c.letter == 'l' then s else if c.add then s + {c.letter}
        else s - {c.letter})
  }

  /** The simple modes after these steps, each undone if they are bounced. */
  function SimpleAfter(steps: seq<Step>, bounce: bool, s: set<char>): set<char> {
    if steps == [] then s
    else
      var before, last := SimpleAfter(steps[..|steps| - 1], bounce, s), steps[|steps| - 1];
      if !last.Simple? then before else if last.add != bounce then before + last.letters else before - last.letters
  }

  /** Letters removed and added by one flush, the other way round for a bounce. */
  function OneToggle(add: set<char>, rem: set<char>, bounce: bool, s: set<char>): set<char> {
    if bounce then s - add + rem else s - rem + add
  }

  function Chars(letters: string): set<char> {
    set c | c in letters && c != 'l'
  }

  /** The simple modes after these flushes. */
  function LogToggle(log: seq<Flush>, bounce: bool, s: set<char>): set<char> {
    if log == [] then s
    else
      var f := log[|log| - 1];
      OneToggle(Chars(f.simpleAdd), Chars(f.simpleRem), bounce, LogToggle(log[..|log| - 1], bounce, s))
  }

  lemma {:induction false} ToggleConcat(a: seq<Change>, b: seq<Change>, s: set<char>)
    ensures Toggle(a + b, s) == Toggle(b, Toggle(a, s))
    decreases |a|
  {
    if a == [] {
      assert a + b == b;
    } else {
      var c := a[0];
      assert (a + b)[1..] == a[1..] + b && (a + b)[0] == c;
      var s' := if HasParam(c.letter) || c.letter == 'l' then s else if c.add then s + {c.letter} else s - {c.letter};
      ToggleConcat(a[1..], b, s');
    }
  }

  lemma {:induction false} SimpleToggle(letters: string, add: bool, s: set<char>)
    requires Flags(letters)
    ensures Toggle(SimpleChanges(letters, add), s) == if add then s + Chars(letters) else s - Chars(letters)
    decreases |letters|
  {
    if letters != "" {
      var c, chs := letters[0], SimpleChanges(letters, add);
      assert chs[0] == Change(add, c, "") && chs[1..] == SimpleChanges(letters[1..], add);
      var s' := if c == 'l' then s else if add then s + {c} else s - {c};
      SimpleToggle(letters[1..], add, s');
      assert letters == [c] + letters[1..];
      assert Chars(letters) == Chars(letters[1..]) + if c == 'l' then {} else {c};
    }
  }

  lemma {:induction false} ModesToggle(ms: seq<Mode>, add: bool, limit: string, v: View, s: set<char>)
    requires AllValid(ms)
    ensures Toggle(ModeChanges(ms, add, limit, v), s) == s
  {
    hide Told;
    if ms != [] {
      ModesToggle(ms[1..], add, limit, v, s);
      assert ModeChanges(ms, add, limit, v)[1..] == ModeChanges(ms[1..], add, limit, v);
    }
  }

  lemma HalfToggle(simple: string, ms: seq<Mode>, add: bool, limit: string, v: View, s: set<char>)
    requires AllValid(ms) && Flags(simple)
    ensures Toggle(SimpleChanges(simple, add) + ModeChanges(ms, add, limit, v), s)
            == if add then s + Chars(simple) else s - Chars(simple)
  {
    hide Toggle, SimpleChanges, ModeChanges, Chars;
    ToggleConcat(SimpleChanges(simple, add), ModeChanges(ms, add, limit, v), s);
    SimpleToggle(simple, add, s);
    ModesToggle(ms, add, limit, v, Toggle(SimpleChanges(simple, add), s));
  }

  lemma MeaningToggle(ms: seq<Mode>, limit: string, simpleAdd: string, simpleRem: string, v: View, s: set<char>)
    requires AllValid(ms) && Flags(simpleAdd) && Flags(simpleRem)
    ensures Toggle(Meaning(ms, limit, simpleAdd, simpleRem, v), s)
            == OneToggle(Chars(simpleAdd), Chars(simpleRem), v.Back(), s)
  {
    hide Toggle, SimpleChanges, ModeChanges, Chars, Side;
    var added := SimpleChanges(simpleAdd, !v.Back()) + ModeChanges(Side(ms, true), !v.Back(), limit, v);
    var removed := SimpleChanges(simpleRem, v.Back()) + ModeChanges(Side(ms, false), v.Back(), limit, v);
    if v.Back() {
      ToggleConcat(added, removed, s);
      HalfToggle(simpleAdd, Side(ms, true), false, limit, v, s);
      HalfToggle(simpleRem, Side(ms, false), true, limit, v, s - Chars(simpleAdd));
    } else {
      ToggleConcat(removed, added, s);
      HalfToggle(simpleRem, Side(ms, false), false, limit, v, s);
      HalfToggle(simpleAdd, Side(ms, true), true, limit, v, s - Chars(simpleRem));
    }
  }

  lemma OwnFirst(ms: seq<Mode>, v: View)
    requires AllValid(ms) && ms != []
    ensures AllValid(ms[1..]) && OwnAll(ms, v) == multiset{Own(ms[0], v)} + OwnAll(ms[1..], v)
  {
  }

  lemma {:induction false} OwnConcat(a: seq<Mode>, b: seq<Mode>, v: View)
    requires AllValid(a) && AllValid(b) && AllValid(a + b)
    ensures OwnAll(a + b, v) == OwnAll(a, v) + OwnAll(b, v)
  {
    hide Own;
    if a == [] {
      assert a + b == b;
    } else {
      assert (a + b)[1..] == a[1..] + b && (a + b)[0] == a[0];
      OwnConcat(a[1..], b, v);
      OwnFirst(a, v);
      OwnFirst(a + b, v);
      hide OwnAll, AllValid;
      SumOfThree(multiset{Own(a[0], v)}, OwnAll(a[1..], v), OwnAll(b, v));
    }
  }

  lemma WithoutValid(ms: seq<Mode>, k: nat)
    requires k < |ms| && AllValid(ms)
    ensures AllValid(Without(ms, k))
  {
  }

  lemma {:induction false} OwnWithout(ms: seq<Mode>, k: nat, v: View)
    requires AllValid(ms) && k < |ms|
    ensures AllValid(Without(ms, k))
    ensures OwnAll(ms, v) == multiset{Own(ms[k], v)} + OwnAll(Without(ms, k), v)
  {
    hide Own;
    WithoutValid(ms, k);
    OwnFirst(ms, v);
    if k == 0 {
      assert Without(ms, k) == ms[1..];
    } else {
      OwnWithout(ms[1..], k - 1, v);
      WithoutFirst(ms, k);
      OwnFirst(Without(ms, k), v);
      hide OwnAll, AllValid, Without;
      SumOfThree(multiset{Own(ms[0], v)}, multiset{Own(ms[k], v)}, OwnAll(Without(ms[1..], k - 1), v));
      SumOfThree(multiset{Own(ms[k], v)}, multiset{Own(ms[0], v)}, OwnAll(Without(ms[1..], k - 1), v));
    }
  }

  lemma WithoutFirst(ms: seq<Mode>, k: nat)
    requires 0 < k < |ms|
    ensures Without(ms, k) != [] && Without(ms, k)[0] == ms[0] && Without(ms, k)[1..] == Without(ms[1..], k - 1)
  {
  }

  /** The changes of modes depend on which modes they are, not on their order. */
  lemma {:induction false} OwnOfSame(a: seq<Mode>, b: seq<Mode>, v: View)
    requires AllValid(a) && AllValid(b) && multiset(a) == multiset(b)
    ensures OwnAll(a, v) == OwnAll(b, v)
    decreases |a|
  {
    if a == [] {
      assert |multiset(b)| == |b|;
    } else {
      var k := SameWithout(a, b);
      OwnWithout(a, 0, v);
      OwnWithout(b, k, v);
      hide AllValid, OwnAll, Own, Without;
      OwnOfSame(Without(a, 0), Without(b, k), v);
    }
  }

  lemma SameWithout(a: seq<Mode>, b: seq<Mode>) returns (k: nat)
    requires multiset(a) == multiset(b) && a != []
    ensures k < |b| && b[k] == a[0] && multiset(Without(a, 0)) == multiset(Without(b, k))
    ensures |Without(a, 0)| < |a|
  {
    assert a[0] in multiset(b);
    k :| 0 <= k < |b| && b[k] == a[0];
    CountWithout(a, 0);
    CountWithout(b, k);
  }

  lemma CountWithout(ms: seq<Mode>, k: nat)
    requires k < |ms|
    ensures multiset(Without(ms, k)) == multiset(ms) - multiset{ms[k]}
  {
    assert ms == ms[..k] + ([ms[k]] + ms[k + 1..]);
  }

  /** The limit texts of a run are right, as far as they are printed. */
  ghost predicate TextsRight(v: View, log: seq<Flush>) {
    forall k :: 0 <= k < |log| ==> if v.Back() then 'l' !in log[k].simpleRem else OneLimit(log[k].held)
  }

  ghost predicate AllRight(d: Dest, log: seq<Flush>) {
    forall k :: 0 <= k < |log| ==> FlushRight(d, log[k])
  }

  lemma {:induction false} SentAreOf(ms: seq<Mode>, n: nat, room: int, noKey: bool)
    requires n <= |ms| && AllValid(ms)
    ensures forall m :: m in Sent(ms, n, room, noKey) ==> m in ms
  {
    if n > 0 {
      SentAreOf(ms, n - 1, room, noKey);
    }
  }

  lemma AgreedText(d: Dest, f: Flush)
    requires FlushRight(d, f) && OneLimit(f.held)
    ensures TextRight(f.modes + f.deop, f.limit)
  {
    hide VisibleLine, ServerLine, Sent, LimitText;
    LimitTextRightIff(f.held);
    SentAreOf(f.held, |f.held|, f.room, d.noKey);
    forall i | 0 <= i < |f.modes + f.deop| && (f.modes + f.deop)[i].kind == Limit
      ensures f.limit == Digits((f.modes + f.deop)[i].arg.n)
    {
      assert (f.modes + f.deop)[i] in f.held;
    }
  }

  /** One line of a run: the arguments and simple modes its reader takes from it. */
  lemma LineTaken(d: Dest, f: Flush, v: View, more: seq<string>)
    requires FlushRight(d, f) && Reads(d, v) && "" !in more
    requires if v.Back() then 'l' !in f.simpleRem else OneLimit(f.held)
    ensures SentTo(f, v).Some? && AllValid(f.modes) && AllValid(ExtraOf(f, v))
    ensures var read := ReadLine(SentTo(f, v).value, more);
            && Arguments(read, v.Back()) == OwnAll(f.modes, v) + OwnAll(ExtraOf(f, v), v)
            && forall s :: Toggle(read, s) == OneToggle(Chars(f.simpleAdd), Chars(f.simpleRem), v.Back(), s)
  {
    hide ReadLine, Meaning, VisibleLine, ServerLine, Sent, OwnAll, Toggle, Arguments, Chars, OneToggle, LimitText;
    RightLine(d, f, v);
    FlushIsReadIff(d, f, v, more);
    var ms := f.modes + ExtraOf(f, v);
    if !v.Back() {
      AgreedText(d, f);
      TextOfExtra(f, v);
    }
    hide OneLimit;
    MeaningIsOwn(ms, f.limit, f.simpleAdd, f.simpleRem, v);
    OwnConcat(f.modes, ExtraOf(f, v), v);
    forall s {
      MeaningToggle(ms, f.limit, f.simpleAdd, f.simpleRem, v, s);
    }
  }

  lemma TextOfExtra(f: Flush, v: View)
    requires AllValid(f.modes + f.deop) && TextRight(f.modes + f.deop, f.limit) && AllValid(f.modes + ExtraOf(f, v))
    ensures TextRight(f.modes + ExtraOf(f, v), f.limit)
  {
    assert forall i :: 0 <= i < |f.modes| ==> (f.modes + f.deop)[i] == (f.modes + ExtraOf(f, v))[i];
  }

  lemma LogValid(d: Dest, log: seq<Flush>)
    requires AllRight(d, log)
    ensures AllValid(Placed(log)) && AllValid(Deopped(log))
  {
    hide VisibleLine, ServerLine, Sent, LimitText, ParamsLen;
    if log != [] {
      LogValid(d, log[..|log| - 1]);
      assert FlushRight(d, log[|log| - 1]);
    }
  }

  lemma {:induction false} LogArguments(d: Dest, log: seq<Flush>, v: View, more: seq<string>)
    requires AllRight(d, log) && TextsRight(v, log) && Reads(d, v) && "" !in more
    ensures AllValid(Placed(log)) && AllValid(Extras(log, v))
    ensures Arguments(ReadAll(log, v, more), v.Back()) == OwnAll(Placed(log), v) + OwnAll(Extras(log, v), v)
  {
    hide FlushRight, ReadLine, OwnAll, Reads, SentTo;
    if log == [] {
      NothingOwn(v);
    } else {
      var front, f := log[..|log| - 1], log[|log| - 1];
      LogArguments(d, front, v, more);
      LogValid(d, log);
      LineTaken(d, f, v, more);
      OneMoreLine(front, f, v, more);
    }
  }

  lemma OneMoreLine(log: seq<Flush>, f: Flush, v: View, more: seq<string>)
    requires AllValid(Placed(log)) && AllValid(Extras(log, v)) && AllValid(f.modes) && AllValid(ExtraOf(f, v))
    requires AllValid(Placed(log + [f])) && AllValid(Extras(log + [f], v)) && SentTo(f, v).Some?
    requires Arguments(ReadAll(log, v, more), v.Back()) == OwnAll(Placed(log), v) + OwnAll(Extras(log, v), v)
    requires Arguments(ReadLine(SentTo(f, v).value, more), v.Back()) == OwnAll(f.modes, v) + OwnAll(ExtraOf(f, v), v)
    ensures Arguments(ReadAll(log + [f], v, more), v.Back())
            == OwnAll(Placed(log + [f]), v) + OwnAll(Extras(log + [f], v), v)
  {
    hide ReadLine, OwnAll, Arguments;
    assert (log + [f])[..|log|] == log;
    assert Extras(log + [f], v) == Extras(log, v) + ExtraOf(f, v);
    assert Placed(log + [f]) == Placed(log) + f.modes;
    var read, line := ReadAll(log, v, more), ReadLine(SentTo(f, v).value, more);
    assert ReadAll(log + [f], v, more) == read + line;
    hide *;
    OwnConcat(Placed(log), f.modes, v);
    OwnConcat(Extras(log, v), ExtraOf(f, v), v);
    ArgumentsConcat(read, line, v.Back());
  }

  lemma NothingOwn(v: View)
    ensures OwnAll([], v) == multiset{}
  {
  }

  lemma {:induction false} LogSimple(d: Dest, log: seq<Flush>, v: View, more: seq<string>, s: set<char>)
    requires AllRight(d, log) && TextsRight(v, log) && Reads(d, v) && "" !in more
    ensures Toggle(ReadAll(log, v, more), s) == LogToggle(log, v.Back(), s)
  {
    hide FlushRight, ReadLine, OneToggle, Chars, OwnAll, Arguments, Reads, SentTo;
    if log != [] {
      var front, f := log[..|log| - 1], log[|log| - 1];
      LogSimple(d, front, v, more, s);
      LineTaken(d, f, v, more);
      ToggleConcat(ReadAll(front, v, more), ReadLine(SentTo(f, v).value, more), s);
    }
  }

  /** A run drops a limit exactly if its readers are told so. */
  lemma {:induction false} LogDrops(d: Dest, log: seq<Flush>, v: View, more: seq<string>)
    requires AllRight(d, log) && Reads(d, v) && !v.Back() && "" !in more
    ensures Change(false, 'l', "") in ReadAll(log, v, more) <==> LimitGone(log)
  {
    hide FlushRight, ReadLine, Reads, SentTo, LimitGone;
    if log == [] {
      NothingGone();
    } else {
      var front, f := log[..|log| - 1], log[|log| - 1];
      LogDrops(d, front, v, more);
      LineDrops(d, f, v, more);
      GoneNext(front, f);
      assert log == front + [f];
    }
  }

  lemma LineDrops(d: Dest, f: Flush, v: View, more: seq<string>)
    requires FlushRight(d, f) && Reads(d, v) && !v.Back() && "" !in more
    ensures SentTo(f, v).Some?
    ensures Change(false, 'l', "") in ReadLine(SentTo(f, v).value, more) <==> 'l' in f.simpleRem
  {
    hide FlushRight, ReadLine, Meaning, Reads, SentTo;
    FlushIsReadIff(d, f, v, more);
    LimitDropped(f.modes + ExtraOf(f, v), f.limit, f.simpleAdd, f.simpleRem, v);
  }

  lemma NothingGone()
    ensures !LimitGone([])
  {
  }

  lemma GoneNext(log: seq<Flush>, f: Flush)
    ensures LimitGone(log + [f]) <==> LimitGone(log) || 'l' in f.simpleRem
  {
    var log' := log + [f];
    assert log'[..|log|] == log && log'[|log|] == f;
    if k :| 0 <= k < |log| && 'l' in log[k].simpleRem {
      assert 'l' in log'[k].simpleRem;
    }
  }

  // ----- what stays in order

  /** a is part of b, in order. */
  ghost predicate Within(a: seq<Mode>, b: seq<Mode>) {
    || a == []
    || (&& b != []
        && (Within(a, b[..|b| - 1]) || (a[|a| - 1] == b[|b| - 1] && Within(a[..|a| - 1], b[..|b| - 1]))))
  }

  lemma {:induction false} WithinMembers(a: seq<Mode>, b: seq<Mode>)
    requires Within(a, b)
    ensures forall m :: m in a ==> m in b
  {
    if a != [] {
      var front := b[..|b| - 1];
      assert b == front + [b[|b| - 1]] && a == a[..|a| - 1] + [a[|a| - 1]];
      if Within(a, front) {
        WithinMembers(a, front);
      } else {
        WithinMembers(a[..|a| - 1], front);
      }
    }
  }

  lemma {:induction false} WithinTrans(a: seq<Mode>, b: seq<Mode>, c: seq<Mode>)
    requires Within(a, b) && Within(b, c)
    ensures Within(a, c)
    decreases |c|
  {
    if a != [] {
      var c' := c[..|c| - 1];
      if Within(b, c') {
        WithinTrans(a, b, c');
      } else if Within(a, b[..|b| - 1]) {
        WithinTrans(a, b[..|b| - 1], c');
      } else {
        WithinTrans(a[..|a| - 1], b[..|b| - 1], c');
      }
    }
  }

  lemma WithinNext(a: seq<Mode>, b: seq<Mode>, m: Mode)
    requires Within(a, b)
    ensures Within(a + [m], b + [m]) && Within(a, b + [m])
  {
    assert (a + [m])[..|a|] == a && (b + [m])[..|b|] == b;
  }

  lemma {:induction false} SavedWithin(ms: seq<Mode>, n: nat, room: int, noKey: bool)
    requires n <= |ms| && AllValid(ms)
    ensures Within(Saved(ms, n, room, noKey), ms[..n])
  {
    if n > 0 {
      SavedWithin(ms, n - 1, room, noKey);
      assert ms[..n] == ms[..n - 1] + [ms[n - 1]];
      hide *;
      OneWay(ms, n - 1, room, noKey);
      WithinNext(Saved(ms, n - 1, room, noKey), ms[..n - 1], ms[n - 1]);
    }
  }

  /** Limits that shrink over all modes shrink in every part of them. */
  lemma {:induction false} WithinShrinks(a: seq<Mode>, b: seq<Mode>)
    requires AllValid(a) && AllValid(b) && Within(a, b) && LimitsShrink(b)
    ensures LimitsShrink(a)
  {
    if a != [] {
      var front, m := b[..|b| - 1], b[|b| - 1];
      assert b == front + [m];
      ShrinkNext(front, m);
      if Within(a, front) {
        WithinShrinks(a, front);
      } else {
        var before := a[..|a| - 1];
        assert a == before + [m];
        WithinShrinks(before, front);
        WithinMembers(before, front);
        FewerNotLonger(before, front, m);
        ShrinkNext(before, m);
      }
    }
  }

  lemma WithinAgrees(a: seq<Mode>, b: seq<Mode>)
    requires Within(a, b) && OneLimit(b)
    ensures OneLimit(a)
  {
    WithinMembers(a, b);
  }

  // ----- what the buffer keeps while it is used

  predicate LimitGone(log: seq<Flush>) {
    exists k :: 0 <= k < |log| && 'l' in log[k].simpleRem
  }

  /**
   The flushes and the letters that wait have the effect of the simple modes asked for; so have removals of
   limits.
   */
  ghost predicate SimpleKept(steps: seq<Step>, log: seq<Flush>, add: set<char>, rem: set<char>) {
    && Printed(add) && Printed(rem - {'l'}) && add !! rem
    && (NoLimit in steps <==> 'l' in rem || LimitGone(log))
    && forall back, s :: SimpleAfter(steps, back, s) == OneToggle(add, rem - {'l'}, back, LogToggle(log, back, s))
  }

  /** The modes asked for are placed or pending; what a flush held was part of them, in their order. */
  ghost predicate ModesKept(steps: seq<Step>, log: seq<Flush>, pending: seq<Mode>) {
    && AllValid(ModesOf(steps)) && multiset(Placed(log)) + multiset(pending) == multiset(ModesOf(steps))
    && Within(pending, ModesOf(steps))
    && forall k :: 0 <= k < |log| ==> Within(log[k].held, ModesOf(steps))
  }

  lemma StepsNext(steps: seq<Step>, st: Step, bounce: bool, s: set<char>)
    ensures ModesOf(steps + [st]) == ModesOf(steps) + if st.Argument? then [st.m] else []
    ensures var before := SimpleAfter(steps, bounce, s);
            SimpleAfter(steps + [st], bounce, s)
            == if !st.Simple? then before else if st.add != bounce then before + st.letters else before - st.letters
  {
    assert (steps + [st])[..|steps|] == steps;
  }

  /** A step without a new mode. */
  lemma ModesKeptOther(steps: seq<Step>, st: Step, log: seq<Flush>, pending: seq<Mode>)
    requires ModesKept(steps, log, pending) && !st.Argument?
    ensures ModesKept(steps + [st], log, pending)
  {
    StepsNext(steps, st, false, {});
    assert ModesOf(steps) + [] == ModesOf(steps);
  }

  lemma ModesKeptNext(steps: seq<Step>, m: Mode, log: seq<Flush>, pending: seq<Mode>)
    requires ModesKept(steps, log, pending) && m.Valid()
    ensures ModesKept(steps + [Argument(m)], log, pending + [m])
  {
    StepsNext(steps, Argument(m), false, {});
    var modes := ModesOf(steps);
    hide ModesOf, Placed, Within;
    WithinNext(pending, modes, m);
    forall k | 0 <= k < |log| ensures Within(log[k].held, modes + [m]) {
      WithinNext(log[k].held, modes, m);
    }
  }

  lemma ModesFlushed(steps: seq<Step>, log: seq<Flush>, pending: seq<Mode>, f: Flush, noKey: bool)
    requires ModesKept(steps, log, pending) && AllValid(pending) && f.held == pending
    requires f.modes == Sent(pending, |pending|, f.room, noKey)
    ensures ModesKept(steps, log + [f], Saved(pending, |pending|, f.room, noKey))
    ensures Owners(Placed(log + [f])) == Owners(Placed(log)) + Owners(f.modes)
  {
    hide ModesOf, Sent, Saved, Within, Owners, HeldBack;
    assert (log + [f])[..|log|] == log && pending[..|pending|] == pending;
    NothingLost(pending, |pending|, f.room, noKey);
    OwnersConcat(Placed(log), f.modes);
    SavedWithin(pending, |pending|, f.room, noKey);
    WithinTrans(Saved(pending, |pending|, f.room, noKey), pending, ModesOf(steps));
    var modes := ModesOf(steps);
    forall k | 0 <= k < |log + [f]| ensures Within((log + [f])[k].held, modes) {
    }
  }

  lemma SimpleKeptOther(steps: seq<Step>, m: Mode, log: seq<Flush>, add: set<char>, rem: set<char>)
    requires SimpleKept(steps, log, add, rem)
    ensures SimpleKept(steps + [Argument(m)], log, add, rem)
  {
    hide SimpleAfter, LogToggle, OneToggle;
    forall back, s {
      StepsNext(steps, Argument(m), back, s);
    }
  }

  lemma LimitRemoved(steps: seq<Step>, log: seq<Flush>, add: set<char>, rem: set<char>)
    requires SimpleKept(steps, log, add, rem)
    ensures SimpleKept(steps + [NoLimit], log, add, rem + {'l'})
  {
    hide SimpleAfter, LogToggle, OneToggle;
    assert rem + {'l'} - {'l'} == rem - {'l'};
    forall back, s {
      StepsNext(steps, NoLimit, back, s);
    }
    assert (steps + [NoLimit])[|steps|] == NoLimit;
  }

  lemma SimpleKeptNext(steps: seq<Step>, log: seq<Flush>, add: set<char>, rem: set<char>,
                       sense: bool, letters: set<char>)
    requires SimpleKept(steps, log, add, rem) && Printed(letters)
    ensures var (add', rem') := if sense then (add + letters, rem - letters) else (add - letters, rem + letters);
            SimpleKept(steps + [Simple(sense, letters)], log, add', rem')
  {
    hide SimpleAfter, LogToggle, LimitGone;
    var (add', rem') := if sense then (add + letters, rem - letters) else (add - letters, rem + letters);
    var st := Simple(sense, letters);
    forall back, s ensures SimpleAfter(steps + [st], back, s)
      == OneToggle(add', rem' - {'l'}, back, LogToggle(log, back, s)) {
      StepsNext(steps, st, back, s);
    }
    assert NoLimit in steps + [st] <==> NoLimit in steps;
  }

  /** A flush takes the letters that wait. */
  lemma SimpleFlushed(steps: seq<Step>, log: seq<Flush>, add: set<char>, rem: set<char>, f: Flush)
    requires SimpleKept(steps, log, add, rem)
    requires f.simpleAdd == SimpleLetters(FLAG_ORDER, add) && f.simpleRem == SimpleLetters(FLAG_ORDER, rem - add)
    ensures SimpleKept(steps, log + [f], {}, {})
  {
    hide SimpleAfter, SimpleLetters;
    var log' := log + [f];
    assert log'[..|log|] == log && log'[|log|] == f;
    assert rem - add == rem && 'l' in FLAG_ORDER;
    assert Chars(f.simpleAdd) == add && Chars(f.simpleRem) == rem - {'l'};
    GoneNext(log, f);
    assert 'l' in f.simpleRem <==> 'l' in rem;
    hide Chars, LimitGone;
    forall back, s ensures SimpleAfter(steps, back, s) == OneToggle({}, {} - {'l'}, back, LogToggle(log', back, s)) {
    }
  }
}
