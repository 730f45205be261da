/**
 The mode buffer (ModeBuf in ircd/channel.c): six slots for modes with arguments, flushed in
 part when they fill up and packed down in place, flushed whole at the end.
 */
module ModeBuf {
  import opened Options
  import opened Decimal
  import opened ModeLine
  import opened ModeRead
  import opened ModeFit
  import opened ModeFlush

  datatype Slot = Empty | Used(mode: Mode, save: bool)

  class ModeBuf {
    const dest: Dest
    const asked: Option<string>  // numeric of a source to be deopped
    var slots: array<Slot>
    var count: nat
    var mbAdd: set<char>
    var mbRem: set<char>
    var deop: bool  // the source is still to be deopped
    var log: seq<Flush>
    var freed: seq<nat>
    ghost var pending: seq<Mode>  // the modes waiting in the slots
    ghost var steps: seq<Step>    // everything asked so far

    constructor (dest: Dest, asked: Option<string>)
      requires asked.Some? ==> |asked.value| == 5
      ensures Valid() && fresh(slots) && steps == [] && log == [] && count == 0
      ensures this.dest == dest && this.asked == asked
    {
      this.dest, this.asked, deop := dest, asked, asked.Some?;
      slots := new Slot[MAX_PARAMS](_ => Empty);
      count := 0;
      mbAdd, mbRem := {}, {};
      log := [];
      freed := [];
      pending, steps := [], [];
      new;
      NoLog();
    }

    /** There is a free slot, and the log and what waits are what was asked. */
    ghost predicate Valid()
      reads this, slots
    {
      SlotsHold() && Settled() && count < MAX_PARAMS
    }

    /** Every flush was right, and nothing asked is lost, doubled or freed twice. */
    ghost predicate Settled()
      reads this
    {
      && AllRight(dest, log) && freed == Owners(Placed(log))
      && SimpleKept(steps, log, mbAdd, mbRem) && ModesKept(steps, log, pending) && DeopRight(log, deop)
    }

    /** Every mode with an argument asked for so far: placed in some flush, or still waiting. */
    ghost function Everything(): multiset<Mode>
      reads this
    {
      multiset(Placed(log)) + multiset(pending)
    }

    lemma EverythingAsked()
      requires Settled()
      ensures Everything() == multiset(ModesOf(steps))
    {
    }

    lemma AskedNext(m: Mode)
      requires Settled()
      ensures multiset(ModesOf(steps + [Argument(m)])) == multiset(ModesOf(steps)) + multiset{m}
    {
      StepsNext(steps, Argument(m), false, {});
    }

    /** The source is deopped with the first flush for servers. */
    ghost predicate DeopRight(log: seq<Flush>, deop: bool) {
      && (asked.Some? ==> |asked.value| == 5) && deop == (asked.Some? && (log == [] || !dest.toServer))
      && Deopped(log) == if asked.Some? && !deop then [DeopOf(asked.value)] else []
    }

    /** The first slots hold the pending modes, with arguments short enough for a line; the others are free. */
    ghost predicate SlotsHold()
      reads this, slots
    {
      && slots.Length == MAX_PARAMS && count == |pending| <= MAX_PARAMS && AllValid(pending)
      && (forall i :: 0 <= i < MAX_PARAMS ==> slots[i] == if i < |pending| then Used(pending[i], false) else Empty)
      && (forall i :: 0 <= i < |pending| ==> Cost(pending[i], dest.noKey) < TOTAL_ROOM - 6)
    }

    /** The first loop of a flush: mark what must wait, collect the letters, and print the limit. */
    method MarkSlots(ghost ms: seq<Mode>, room: nat) returns (limit: string, addbuf: string, rembuf: string)
      requires slots.Length == MAX_PARAMS && count == |ms| <= MAX_PARAMS && AllValid(ms)
      requires forall i :: 0 <= i < count ==> slots[i] == Used(ms[i], false)
      modifies slots
      ensures forall i :: 0 <= i < MAX_PARAMS ==>
              slots[i] == if i < |ms| then Used(ms[i], HeldBack(ms, i, room, dest.noKey)) else old(slots[i])
      ensures limit == LimitText(ms, |ms|)
      ensures addbuf == Letters(Side(Sent(ms, |ms|, room, dest.noKey), true))
      ensures rembuf == Letters(Side(Sent(ms, |ms|, room, dest.noKey), false))
    {
      hide *;
      SentNone(ms, room);
      var left: int := room;
      limit, addbuf, rembuf := "", "", "";
      var i := 0;
      while i < count
        invariant i <= count == |ms|
        invariant forall j :: 0 <= j < MAX_PARAMS ==>
                  slots[j] == if j < i then Used(ms[j], HeldBack(ms, j, room, dest.noKey)) else old(slots[j])
        invariant left == Left(ms, i, room, dest.noKey) && limit == LimitText(ms, i)
        invariant addbuf == Letters(Side(Sent(ms, i, room, dest.noKey), true))
        invariant rembuf == Letters(Side(Sent(ms, i, room, dest.noKey), false))
      {
        var m := slots[i].mode;
        MarkStep(ms, i, room);
        if m.kind == Limit {
          limit := Digits(m.arg.n);
        }
        if left - Cost(m, dest.noKey) <= 0 {
          slots[i] := slots[i].(save := true);
        } else {
          if m.add {
            addbuf := addbuf + [Letter(m.kind)];
          } else {
            rembuf := rembuf + [Letter(m.kind)];
          }
          left := left - (Cost(m, dest.noKey) + 1);
        }
        i := i + 1;
      }
    }

    /** What slot i adds to the parameters. */
    lemma ParamsStep(ms: seq<Mode>, i: nat, room: nat, limit: string, v: View)
      requires AllValid(ms) && i < |ms|
      ensures var m := ms[i]; var sent, sent' := Sent(ms, i, room, dest.noKey), Sent(ms, i + 1, room, dest.noKey);
              if HeldBack(ms, i, room, dest.noKey) then sent' == sent else
                && Params(Side(sent', m.add), limit, v)
                   == Params(Side(sent, m.add), limit, v)
                     + (if v.Back() && m.kind == Limit then [] else [Told(m, limit, v)])
                && Side(sent', !m.add) == Side(sent, !m.add)
    {
      var m, before := ms[i], Sent(ms, i, room, dest.noKey);
      assert before + [] == before;
      if !HeldBack(ms, i, room, dest.noKey) {
        SideNext(before, m, true);
        SideNext(before, m, false);
        assert Side(before, !m.add) + [] == Side(before, !m.add);
        ParamsNext(Side(before, m.add), m, limit, v);
      }
    }

    lemma NoParams(ms: seq<Mode>, room: nat, limit: string, v: View)
      requires AllValid(ms)
      ensures var none := Sent(ms, 0, room, dest.noKey);
              forall add :: Params(Side(none, add), limit, v) == []
    {
    }

    /** The loop that builds the parameters for users. */
    method BuildShown(ghost ms: seq<Mode>, ghost room: nat, limit: string)
        returns (addstr: seq<string>, remstr: seq<string>)
      requires slots.Length == MAX_PARAMS && count == |ms| <= MAX_PARAMS && AllValid(ms)
      requires forall i :: 0 <= i < count ==> slots[i] == Used(ms[i], HeldBack(ms, i, room, dest.noKey))
      ensures var sent := Sent(ms, |ms|, room, dest.noKey);
              addstr == Params(Side(sent, true), limit, Users(dest.noKey)) &&
                remstr == Params(Side(sent, false), limit, Users(dest.noKey))
    {
      hide Shown, HeldBack, Sent, Side, Params, Wire;
      NoParams(ms, room, limit, Users(dest.noKey));
      addstr, remstr := [], [];
      var i := 0;
      while i < count
        invariant i <= count
        invariant addstr == Params(Side(Sent(ms, i, room, dest.noKey), true), limit, Users(dest.noKey))
        invariant remstr == Params(Side(Sent(ms, i, room, dest.noKey), false), limit, Users(dest.noKey))
      {
        ParamsStep(ms, i, room, limit, Users(dest.noKey));
        if !slots[i].save {
          var m := slots[i].mode;
          if m.add {
            addstr := addstr + [Shown(m, dest.noKey, limit)];
          } else {
            remstr := remstr + [Shown(m, dest.noKey, limit)];
          }
        }
        i := i + 1;
      }
    }

    /** The loop that builds the parameters for servers. */
    method BuildWire(ghost ms: seq<Mode>, ghost room: nat, limit: string)
        returns (addstr: seq<string>, remstr: seq<string>)
      requires slots.Length == MAX_PARAMS && count == |ms| <= MAX_PARAMS && AllValid(ms)
      requires forall i :: 0 <= i < count ==> slots[i] == Used(ms[i], HeldBack(ms, i, room, dest.noKey))
      ensures var sent := Sent(ms, |ms|, room, dest.noKey);
              addstr == Params(Side(sent, true), limit, Servers(dest.bounce)) &&
                remstr == Params(Side(sent, false), limit, Servers(dest.bounce))
    {
      hide Shown, HeldBack, Sent, Side, Params, Wire;
      NoParams(ms, room, limit, Servers(dest.bounce));
      addstr, remstr := [], [];
      var i := 0;
      while i < count
        invariant i <= count
        invariant addstr == Params(Side(Sent(ms, i, room, dest.noKey), true), limit, Servers(dest.bounce))
        invariant remstr == Params(Side(Sent(ms, i, room, dest.noKey), false), limit, Servers(dest.bounce))
      {
        ParamsStep(ms, i, room, limit, Servers(dest.bounce));
        if !slots[i].save {
          var m := slots[i].mode;
          if m.kind != Limit || !dest.bounce {
            if m.add {
              addstr := addstr + [Wire(m, limit)];
            } else {
              remstr := remstr + [Wire(m, limit)];
            }
          }
        }
        i := i + 1;
      }
    }

    /** Pack the saved modes down to the front; free what the sent ones owned. */
    method PackDown(ghost ms: seq<Mode>, ghost room: nat)
      requires slots.Length == MAX_PARAMS && count == |ms| <= MAX_PARAMS && AllValid(ms)
      requires forall i :: 0 <= i < MAX_PARAMS ==>
               slots[i] == if i < |ms| then Used(ms[i], HeldBack(ms, i, room, dest.noKey)) else Empty
      modifies this`count, this`freed, slots
      ensures var saved := Saved(ms, |ms|, room, dest.noKey);
              count == |saved| && forall i :: 0 <= i < MAX_PARAMS ==>
                slots[i] == if i < |saved| then Used(saved[i], false) else Empty
      ensures freed == old(freed) + Owners(Sent(ms, |ms|, room, dest.noKey))
    {
      hide *;
      NoneYet(ms, room);
      count := 0;
      var i := 0;
      ghost var n, saved: seq<Mode> := 0, [];
      while i < MAX_PARAMS
        invariant i <= MAX_PARAMS && n == (if i < |ms| then i else |ms|)
        invariant saved == Saved(ms, n, room, dest.noKey) && count == |saved| <= i
        invariant forall j :: 0 <= j < MAX_PARAMS ==>
                    slots[j] == if j < count then Used(saved[j], false)
                                else if i <= j < |ms| then Used(ms[j], HeldBack(ms, j, room, dest.noKey)) else Empty
        invariant freed == old(freed) + Owners(Sent(ms, n, room, dest.noKey))
      {
        var s := slots[i];
        PackStep(ms, i, room);
        if i < |ms| {
          OwnerIs(ms[i]);
          n := n + 1;
          saved := Saved(ms, n, room, dest.noKey);
        }
        if s.Used? && s.save {
          slots[count] := s.(save := false);
          count := count + 1;
          if count == i + 1 {
            i := i + 1;
            continue;
          }
        } else if s.Used? && s.mode.arg.Text? && s.mode.arg.owned.Some? {
          freed := freed + [s.mode.arg.owned.value];
        }
        slots[i] := Empty;
        i := i + 1;
      }
    }

    lemma PackStep(ms: seq<Mode>, i: nat, room: nat)
      requires AllValid(ms)
      ensures i < |ms| ==>
                var sent, saved := Sent(ms, i, room, dest.noKey), Saved(ms, i, room, dest.noKey);
                var sent', saved' := Sent(ms, i + 1, room, dest.noKey), Saved(ms, i + 1, room, dest.noKey);
                if HeldBack(ms, i, room, dest.noKey) then Owners(sent') == Owners(sent) && saved' == saved + [ms[i]]
                else Owners(sent') == Owners(sent) + OwnerOf(ms[i]) && saved' == saved
    {
      if i < |ms| {
        OwnersNext(Sent(ms, i, room, dest.noKey), ms[i]);
        OneWay(ms, i, room, dest.noKey);
      }
    }

    lemma OwnerIs(m: Mode)
      ensures OwnerOf(m) == if m.arg.Text? && m.arg.owned.Some? then [m.arg.owned.value] else []
    {
    }

    lemma NoneYet(ms: seq<Mode>, room: nat)
      requires AllValid(ms)
      ensures Saved(ms, 0, room, dest.noKey) == [] && Owners(Sent(ms, 0, room, dest.noKey)) == []
    {
    }

    lemma NoneSent(ms: seq<Mode>, room: nat)
      requires AllValid(ms)
      ensures Sent(ms, 0, room, dest.noKey) == []
    {
    }

    lemma SentNone(ms: seq<Mode>, room: nat)
      requires AllValid(ms)
      ensures Letters(Side(Sent(ms, 0, room, dest.noKey), true)) == Letters(Side(Sent(ms, 0, room, dest.noKey), false))
              == ""
      ensures Left(ms, 0, room, dest.noKey) == room && LimitText(ms, 0) == ""
    {
    }

    /** What slot i adds to the letters, the room and the limit text. */
    lemma MarkStep(ms: seq<Mode>, i: nat, room: nat)
      requires AllValid(ms) && i < |ms|
      ensures var m, held := ms[i], HeldBack(ms, i, room, dest.noKey);
              var sent, sent' := Sent(ms, i, room, dest.noKey), Sent(ms, i + 1, room, dest.noKey);
              && m.Valid() && (m.kind == Limit ==> m.arg.Number?) && sent' == sent + (if held then [] else [m])
              && Letters(Side(sent', m.add)) == Letters(Side(sent, m.add)) + (if held then "" else [Letter(m.kind)])
              && Letters(Side(sent', !m.add)) == Letters(Side(sent, !m.add))
      ensures var m, left := ms[i], Left(ms, i, room, dest.noKey);
              && HeldBack(ms, i, room, dest.noKey) == (left - Cost(m, dest.noKey) <= 0)
              && Left(ms, i + 1, room, dest.noKey)
                 == if left - Cost(m, dest.noKey) <= 0 then left else left - (Cost(m, dest.noKey) + 1)
      ensures LimitText(ms, i + 1) == if ms[i].kind == Limit then Digits(ms[i].arg.n) else LimitText(ms, i)
    {
      hide Cost;
      var sent := Sent(ms, i, room, dest.noKey);
      assert sent + [] == sent;
      LettersStep(sent, ms[i]);
      assert Letters(Side(sent, ms[i].add)) + "" == Letters(Side(sent, ms[i].add));
    }

    lemma LettersStep(sent: seq<Mode>, m: Mode)
      ensures Letters(Side(sent + [m], m.add)) == Letters(Side(sent, m.add)) + [Letter(m.kind)]
      ensures Letters(Side(sent + [m], !m.add)) == Letters(Side(sent, !m.add))
    {
      SideNext(sent, m, true);
      SideNext(sent, m, false);
      LettersNext(Side(sent, m.add), m);
      assert Side(sent, !m.add) + [] == Side(sent, !m.add);
    }

    lemma NoneIsMarked()
      ensures forall c :: c in FLAG_ORDER ==> !HasParam(c)
      ensures '+' !in FLAG_ORDER && '-' !in FLAG_ORDER
    {
    }

    lemma LettersAreFlags(s: set<char>)
      ensures Flags(SimpleLetters(FLAG_ORDER, s))
    {
      NoneIsMarked();
    }

    /** The line for servers: a source still to be deopped goes in with it, once. */
    method ComposeServer(ghost ms: seq<Mode>, ghost room: nat, limit: string, plus: string, minus: string,
                         ghost simpleAdd: string, ghost simpleRem: string)
      returns (line: Line, extra: seq<Mode>)
      requires slots.Length == MAX_PARAMS && count == |ms| <= MAX_PARAMS && AllValid(ms)
      requires deop ==> asked.Some? && |asked.value| == 5
      requires forall i :: 0 <= i < count ==> slots[i] == Used(ms[i], HeldBack(ms, i, room, dest.noKey))
      requires plus == simpleAdd + Letters(Side(Sent(ms, |ms|, room, dest.noKey), true))
      requires minus == simpleRem + Letters(Side(Sent(ms, |ms|, room, dest.noKey), false))
      modifies this`deop
      ensures var placed := Sent(ms, |ms|, room, dest.noKey);
              AllValid(placed + extra) && line == ServerLine(placed + extra, limit, simpleAdd, simpleRem, dest.bounce)
      ensures !deop && extra == if old(deop) then [DeopOf(asked.value)] else []
    {
      hide HeldBack, Letters, Side, Params, Sent;
      ghost var placed := Sent(ms, |ms|, room, dest.noKey);
      var addstr, remstr := BuildWire(ms, room, limit);
      var adds := plus;
      extra := [];
      assert placed + [] == placed;
      if deop {
        var d := DeopOf(asked.value);
        extra := [d];
        SideNext(placed, d, true);
        SideNext(placed, d, false);
        LettersNext(Side(placed, true), d);
        ParamsNext(Side(placed, true), d, limit, Servers(dest.bounce));
        assert Side(placed, false) + [] == Side(placed, false);
        adds := plus + ['o'];
        addstr := addstr + [asked.value];
        assert adds == simpleAdd + (Letters(Side(placed, true)) + ['o']);
        deop := false;
      }
      line := if dest.bounce then Line(adds, minus, addstr + remstr) else Line(minus, adds, remstr + addstr);
    }

    /** Compose the lines of one flush from the marked slots. */
    method Compose(ghost ms: seq<Mode>, room: nat, limit: string, addbuf: string, rembuf: string) returns (f: Flush)
      requires slots.Length == MAX_PARAMS && count == |ms| <= MAX_PARAMS && AllValid(ms)
      requires forall i :: 0 <= i < count ==> slots[i] == Used(ms[i], HeldBack(ms, i, room, dest.noKey))
      requires addbuf == Letters(Side(Sent(ms, |ms|, room, dest.noKey), true))
      requires rembuf == Letters(Side(Sent(ms, |ms|, room, dest.noKey), false))
      requires limit == LimitText(ms, |ms|) && room == Room()
      requires Printed(mbAdd) && (deop ==> asked.Some? && |asked.value| == 5)
      modifies this`deop
      ensures FlushRight(dest, f) && f.held == ms && f.room == room
      ensures f.simpleAdd == SimpleLetters(FLAG_ORDER, mbAdd) && f.simpleRem == SimpleLetters(FLAG_ORDER, mbRem - mbAdd)
      ensures deop == (old(deop) && !dest.toServer)
      ensures f.deop == if old(deop) && dest.toServer then [DeopOf(asked.value)] else []
    {
      hide HeldBack, Letters, Side, Params, Sent, SimpleLetters, LimitText;
      var simpleAdd, simpleRem := SimpleLetters(FLAG_ORDER, mbAdd), SimpleLetters(FLAG_ORDER, mbRem - mbAdd);
      LettersAreFlags(mbAdd);
      LettersAreFlags(mbRem - mbAdd);
      var plus, minus := simpleAdd + addbuf, simpleRem + rembuf;
      var held, placed := HeldSlots(ms, room);
      assert placed + [] == placed;
      f := Flush(held, placed, [], room, limit, simpleAdd, simpleRem, None, None);
      if dest.toChannel {
        var addstr, remstr := BuildShown(ms, room, limit);
        f := f.(visible := Some(Line(minus, plus, remstr + addstr)));
      }
      if dest.toServer {
        var line, extra := ComposeServer(ms, room, limit, plus, minus, simpleAdd, simpleRem);
        f := f.(deop := extra, server := Some(line));
      }
    }

    /** The modes held and placed, for the record of the flush. */
    method HeldSlots(ghost ms: seq<Mode>, ghost room: nat) returns (held: seq<Mode>, placed: seq<Mode>)
      requires slots.Length == MAX_PARAMS && count == |ms| <= MAX_PARAMS && AllValid(ms)
      requires forall i :: 0 <= i < count ==> slots[i] == Used(ms[i], HeldBack(ms, i, room, dest.noKey))
      ensures held == ms && placed == Sent(ms, |ms|, room, dest.noKey)
    {
      hide *;
      held, placed := [], [];
      NoneSent(ms, room);
      var i := 0;
      while i < count
        invariant i <= count && held == ms[..i] && placed == Sent(ms, i, room, dest.noKey)
      {
        MarkStep(ms, i, room);
        held := held + [slots[i].mode];
        if !slots[i].save {
          placed := placed + [slots[i].mode];
        }
        i := i + 1;
      }
    }

    /** The room of a flush: a source to be deopped takes six characters of it. */
    function Room(): (r: nat)
      reads this`deop
      ensures r == TOTAL_ROOM - if deop then 6 else 0
    {
      TOTAL_ROOM - if deop then 6 else 0
    }

    /** The first half of a flush: mark the slots and send the lines. */
    method SendLines(room: nat)
      requires SlotsHold() && room == Room() && Printed(mbAdd) && (deop ==> asked.Some? && |asked.value| == 5)
      modifies this`deop, this`log, slots
      ensures forall i :: 0 <= i < MAX_PARAMS ==>
                slots[i] == if i < |pending| then Used(pending[i], HeldBack(pending, i, room, dest.noKey)) else Empty
      ensures deop == (old(deop) && !dest.toServer)
      ensures |log| == |old(log)| + 1 && log[..|old(log)|] == old(log)
      ensures Flushed(log[|old(log)|], pending, room, mbAdd, mbRem, old(deop))
    {
      hide HeldBack, Letters, Side, Sent, Cost, LimitText, VisibleLine, ServerLine, SimpleLetters, FlushRight;
      var limit, addbuf, rembuf := MarkSlots(pending, room);
      var f := Compose(pending, room, limit, addbuf, rembuf);
      log := log + [f];
    }

    /** f is the right flush of these modes and letters. */
    ghost predicate Flushed(f: Flush, ms: seq<Mode>, room: nat, add: set<char>, rem: set<char>, deop: bool) {
      && FlushRight(dest, f) && f.room == room && f.held == ms
      && f.simpleAdd == SimpleLetters(FLAG_ORDER, add) && f.simpleRem == SimpleLetters(FLAG_ORDER, rem - add)
      && (deop ==> asked.Some?) && f.deop == if deop && dest.toServer then [DeopOf(asked.value)] else []
    }

    /** The second half: keep what was saved. */
    method KeepSaved(ghost room: nat)
      requires slots.Length == MAX_PARAMS && count == |pending| <= MAX_PARAMS && AllValid(pending)
      requires forall i :: 0 <= i < MAX_PARAMS ==>
                 slots[i] == if i < |pending| then Used(pending[i], HeldBack(pending, i, room, dest.noKey)) else Empty
      requires forall i :: 0 <= i < |pending| ==> Cost(pending[i], dest.noKey) < TOTAL_ROOM - 6
      modifies this`count, this`freed, this`pending, slots
      ensures SlotsHold() && pending == Saved(old(pending), |old(pending)|, room, dest.noKey)
      ensures freed == old(freed) + Owners(Sent(old(pending), |old(pending)|, room, dest.noKey))
    {
      hide HeldBack, Sent, Saved, Owners, Cost;
      PackDown(pending, room);
      SavedFit(pending, |pending|, room);
      pending := Saved(pending, |pending|, room, dest.noKey);
    }

    /** One flush: what fits goes out to each destination, the rest is packed down, simple modes are gone. */
    method FlushOnce()
      requires SlotsHold() && Printed(mbAdd) && (deop ==> asked.Some? && |asked.value| == 5)
      modifies this`count, this`mbAdd, this`mbRem, this`deop, this`log, this`freed, this`pending, slots
      ensures SlotsHold() && mbAdd == {} && mbRem == {} && deop == (old(deop) && !dest.toServer)
      ensures |log| == |old(log)| + 1 && log[..|old(log)|] == old(log)
      ensures var f, ms := log[|old(log)|], old(pending);
              && Flushed(f, ms, old(Room()), old(mbAdd), old(mbRem), old(deop))
              && f.modes == Sent(ms, |ms|, f.room, dest.noKey) && pending == Saved(ms, |ms|, f.room, dest.noKey)
              && freed == old(freed) + Owners(f.modes)
    {
      hide HeldBack, Sent, Saved, Owners, Cost, LimitText, VisibleLine, ServerLine, SimpleLetters;
      var room := Room();
      SendLines(room);
      mbAdd, mbRem := {}, {};
      KeepSaved(room);
    }

    /** A flush of a buffer that holds something, up to the decision to go on. */
    method FlushPart()
      requires SlotsHold() && Settled()
      modifies this`count, this`mbAdd, this`mbRem, this`deop, this`log, this`freed, this`pending, slots
      ensures Valid() && mbAdd == {} && mbRem == {} && Everything() == old(Everything())
      ensures count < old(count) || old(count) == 0 == count
      ensures |log| == |old(log)| + 1 && log[..|old(log)|] == old(log)
    {
      hide Owners, Cost, Sent, Saved, Placed, Deopped, SimpleKept, ModesKept, Flushed, AllRight, DeopRight, Everything;
      KeptFacts();
      EverythingAsked();
      ghost var ms, before, add, rem, d, room := pending, log, mbAdd, mbRem, deop, Room();
      FlushOnce();
      FlushKept(before, ms, add, rem, d, room, log[|before|]);
      assert log == before + [log[|before|]];
      EverythingAsked();
    }

    /** A right flush keeps all that is said of the log. */
    lemma FlushKept(before: seq<Flush>, ms: seq<Mode>, add: set<char>, rem: set<char>, d: bool, room: nat, f: Flush)
      requires AllRight(dest, before) && DeopRight(before, d) && AllValid(ms) && TOTAL_ROOM - 6 <= room
      requires SimpleKept(steps, before, add, rem) && ModesKept(steps, before, ms)
      requires Flushed(f, ms, room, add, rem, d) && f.modes == Sent(ms, |ms|, f.room, dest.noKey)
      requires forall i :: 0 <= i < |ms| ==> Cost(ms[i], dest.noKey) < TOTAL_ROOM - 6
      ensures AllRight(dest, before + [f]) && DeopRight(before + [f], d && !dest.toServer)
      ensures SimpleKept(steps, before + [f], {}, {})
      ensures ModesKept(steps, before + [f], Saved(ms, |ms|, f.room, dest.noKey))
      ensures Owners(Placed(before + [f])) == Owners(Placed(before)) + Owners(f.modes)
      ensures ms != [] ==> |Saved(ms, |ms|, f.room, dest.noKey)| < |ms|
    {
      hide FlushRight, Owners, Cost, Sent, Saved, Placed, Deopped, SimpleKept, ModesKept, SimpleLetters, AllRight,
        DeopRight;
      ModesFlushed(steps, before, ms, f, dest.noKey);
      SimpleFlushed(steps, before, add, rem, f);
      RightNext(before, f);
      DeopNext(before, f, d);
      if ms != [] {
        FirstIsSent(ms, |ms|, room, dest.noKey);
      }
    }

    lemma KeptFacts()
      requires Settled()
      ensures Printed(mbAdd) && (deop ==> asked.Some? && |asked.value| == 5)
    {
    }

    lemma RightNext(before: seq<Flush>, f: Flush)
      requires AllRight(dest, before) && FlushRight(dest, f)
      ensures AllRight(dest, before + [f])
    {
      hide FlushRight;
    }

    lemma DeopNext(before: seq<Flush>, f: Flush, d: bool)
      requires DeopRight(before, d) && f.deop == if d && dest.toServer then [DeopOf(asked.value)] else []
      ensures DeopRight(before + [f], d && !dest.toServer)
    {
      assert (before + [f])[..|before|] == before;
    }

    lemma NoLog()
      ensures Placed([]) == [] && Deopped([]) == [] && ModesOf([]) == [] && Owners([]) == []
      ensures forall back, s :: SimpleAfter([], back, s) == s && LogToggle([], back, s) == s
    {
    }

    /** modebuf_flush_int: send what fits; all: go on until nothing is left. */
    method FlushInt(all: bool)
      requires SlotsHold() && Settled()
      modifies this`count, this`mbAdd, this`mbRem, this`deop, this`log, this`freed, this`pending, slots
      ensures Valid() && mbAdd == {} && mbRem == {} && (all ==> pending == [])
      ensures Everything() == old(Everything())
      ensures count < old(count) || old(count) == 0 == count
      ensures |old(log)| <= |log| && log[..|old(log)|] == old(log)
      ensures log == old(log) <==> old(count) == 0 && old(mbAdd) == {} && old(mbRem) == {}
      ensures !all ==> |log| <= |old(log)| + 1
      decreases count
    {
      hide AllRight, Owners, Cost, Placed, Deopped, SimpleKept, ModesKept;
      if count == 0 && mbAdd == {} && mbRem == {} {
        return;
      }
      FlushPart();
      if all && count > 0 {
        FlushInt(true);
      }
    }

    /** modebuf_mode: simple modes replace each other. */
    method AppendSimple(add: bool, letters: set<char>)
      requires Valid() && Printed(letters)
      modifies this`mbAdd, this`mbRem, this`steps
      ensures Valid() && steps == old(steps) + [Simple(add, letters)]
      ensures if add then mbAdd == old(mbAdd) + letters && mbRem == old(mbRem) - letters
              else mbAdd == old(mbAdd) - letters && mbRem == old(mbRem) + letters
    {
      hide AllRight, Owners, Cost, Placed, Deopped, SimpleKept, ModesKept;
      SimpleKeptNext(steps, log, mbAdd, mbRem, add, letters);
      ModesKeptOther(steps, Simple(add, letters), log, pending);
      steps := steps + [Simple(add, letters)];
      if add {
        mbRem := mbRem - letters;
        mbAdd := mbAdd + letters;
      } else {
        mbAdd := mbAdd - letters;
        mbRem := mbRem + letters;
      }
    }

    /** The removal of a limit takes no slot. */
    method RemoveLimit()
      requires Valid()
      modifies this`mbRem, this`steps
      ensures Valid() && steps == old(steps) + [NoLimit] && mbRem == old(mbRem) + {'l'}
    {
      hide AllRight, Owners, Cost, Placed, Deopped, SimpleKept, ModesKept;
      LimitRemoved(steps, log, mbAdd, mbRem);
      ModesKeptOther(steps, NoLimit, log, pending);
      steps := steps + [NoLimit];
      mbRem := mbRem + {'l'};
    }

    /** Put a mode into the free slot. */
    method Enqueue(m: Mode)
      requires Valid() && m.Valid() && Cost(m, dest.noKey) < TOTAL_ROOM - 6
      modifies this`count, this`pending, this`steps, slots
      ensures SlotsHold() && Settled() && steps == old(steps) + [Argument(m)] && count == old(count) + 1
    {
      hide AllRight, Owners, Cost, Placed, Deopped, SimpleKept, ModesKept;
      ModesKeptNext(steps, m, log, pending);
      SimpleKeptOther(steps, m, log, mbAdd, mbRem);
      slots[count] := Used(m, false);
      pending := pending + [m];
      steps := steps + [Argument(m)];
      count := count + 1;
    }

    /** Append a mode with an argument; the buffer is flushed when it fills up. */
    method Append(m: Mode)
      requires Valid() && m.Valid() && Cost(m, dest.noKey) < TOTAL_ROOM - 6
      modifies this`count, this`mbAdd, this`mbRem, this`deop, this`log, this`freed, this`pending, this`steps, slots
      ensures Valid() && steps == old(steps) + [Argument(m)] && Everything() == old(Everything()) + multiset{m}
      ensures |old(log)| <= |log| && log[..|old(log)|] == old(log)
      ensures log == old(log) <==> old(count) + 1 < if old(deop) then 5 else 6
      ensures |log| <= |old(log)| + 1
      ensures log == old(log) ==> count == old(count) + 1 && mbAdd == old(mbAdd) && mbRem == old(mbRem)
    {
      hide AllRight, Owners, Cost, Placed, Deopped, SimpleKept, ModesKept, ModesOf, SlotsHold;
      EverythingAsked();
      AskedNext(m);
      Enqueue(m);
      EverythingAsked();
      if count >= MAX_PARAMS - (if deop then 1 else 0) {
        FlushInt(false);
      }
    }

    /** One step of what callers ask. */
    method Do(st: Step)
      requires Valid() && StepValid(st, dest.noKey)
      modifies this`count, this`mbAdd, this`mbRem, this`deop, this`log, this`freed, this`pending, this`steps, slots
      ensures Valid() && steps == old(steps) + [st]
    {
      hide Valid;
      match st {
        case Argument(m) => Append(m);
        case Simple(add, letters) => AppendSimple(add, letters);
        case NoLimit => RemoveLimit();
      }
    }

    /** The last flush leaves a finished run. */
    method Finish()
      requires Valid()
      modifies this`count, this`mbAdd, this`mbRem, this`deop, this`log, this`freed, this`pending, slots
      ensures Finished(dest, asked, steps, log)
      ensures multiset(Placed(log)) == multiset(ModesOf(steps)) && freed == Owners(Placed(log))
    {
      hide AllRight, Owners, Placed, Deopped, SimpleKept, ModesKept, Cost;
      FlushInt(true);
      PlacedAll(steps, log);
    }

    lemma SavedFit(ms: seq<Mode>, n: nat, room: nat)
      requires n <= |ms| && AllValid(ms) && forall i :: 0 <= i < |ms| ==> Cost(ms[i], dest.noKey) < TOTAL_ROOM - 6
      ensures forall i :: 0 <= i < |Saved(ms, n, room, dest.noKey)| ==>
                Cost(Saved(ms, n, room, dest.noKey)[i], dest.noKey) < TOTAL_ROOM - 6
    {
      hide Cost;
      if n > 0 {
        SavedFit(ms, n - 1, room);
      }
    }
  }

  /** What is left of a run: its flushes, complete and right. */
  ghost predicate Finished(d: Dest, asked: Option<string>, steps: seq<Step>, log: seq<Flush>) {
    && AllRight(d, log) && SimpleKept(steps, log, {}, {}) && ModesKept(steps, log, [])
    && (asked.Some? ==> |asked.value| == 5)
    && Deopped(log) == if asked.Some? && log != [] && d.toServer then [DeopOf(asked.value)] else []
  }

  /**
   If no limit is longer than an earlier one, every line of a run fits, for servers unless a key is hidden from
   users.
   */
  lemma RunFits(d: Dest, asked: Option<string>, steps: seq<Step>, log: seq<Flush>)
    requires Finished(d, asked, steps, log)
    requires AllValid(ModesOf(steps)) && LimitsShrink(ModesOf(steps)) && KeysPaid(ModesOf(steps), d.toServer, d.noKey)
    ensures forall k :: 0 <= k < |log| ==> FlushFits(log[k])
  {
    hide FlushFits, LimitsShrink;
    var modes := ModesOf(steps);
    forall k | 0 <= k < |log| ensures FlushFits(log[k]) {
      assert FlushRight(d, log[k]);
      WithinShrinks(log[k].held, modes);
      WithinMembers(log[k].held, modes);
      assert forall i :: 0 <= i < |log[k].held| ==> log[k].held[i] in modes;
      ShrinkingFits(d, log[k]);
    }
  }

  /** Users and servers can read every line of a run, always or, for a bounce, exactly if no limit was removed. */
  lemma RunIsReadIff(d: Dest, asked: Option<string>, steps: seq<Step>, log: seq<Flush>, v: View, more: seq<string>)
    requires Finished(d, asked, steps, log) && Reads(d, v) && "" !in more
    ensures (forall k :: 0 <= k < |log| ==> LineRead(log[k], v, more)) <==> (v.Back() ==> NoLimit !in steps)
  {
    hide ReadLine, FlushMeaning;
    forall k | 0 <= k < |log|
      ensures LineRead(log[k], v, more) <==> (v.Back() ==> 'l' !in log[k].simpleRem)
    {
      assert FlushRight(d, log[k]);
      FlushIsReadIff(d, log[k], v, more);
    }
  }

  /** v is sent a line of this flush and reads it as it is meant. */
  ghost predicate LineRead(f: Flush, v: View, more: seq<string>) {
    && SentTo(f, v).Some? && AllValid(f.modes + ExtraOf(f, v))
    && ReadLine(SentTo(f, v).value, more) == FlushMeaning(f, v)
  }

  /**
   Reading all lines of a run gives users and servers each mode with an argument once, with the argument meant
   for them, gives servers the source deopped once, and changes simple modes as all steps do; a bounce undoes
   them all. The limits must agree; a bounce must not remove one.
   */
  lemma RunIsTaken(d: Dest, asked: Option<string>, steps: seq<Step>, log: seq<Flush>, v: View, more: seq<string>)
    requires Finished(d, asked, steps, log) && Reads(d, v) && "" !in more
    requires if v.Back() then NoLimit !in steps else OneLimit(ModesOf(steps))
    ensures AllValid(ModesOf(steps)) && AllValid(Extras(log, v))
    ensures Arguments(ReadAll(log, v, more), v.Back()) == OwnAll(ModesOf(steps), v) + OwnAll(Extras(log, v), v)
    ensures forall s :: Toggle(ReadAll(log, v, more), s) == SimpleAfter(steps, v.Back(), s)
    ensures !v.Back() ==> (Change(false, 'l', "") in ReadAll(log, v, more) <==> NoLimit in steps)
    ensures OwnAll(Extras(log, v), v) == if v.Users? || asked.None? || log == [] then multiset{}
                                         else multiset{Change(!d.bounce, 'o', asked.value)}
  {
    DeopIsOwn(d, asked, log, v);
    if !v.Back() {
      LogDrops(d, log, v, more);
    }
    RunTexts(d, asked, steps, log, v);
    hide TextsRight;
    LogArguments(d, log, v, more);
    hide *;
    RunArguments(d, asked, steps, log, v);
    forall s ensures Toggle(ReadAll(log, v, more), s) == SimpleAfter(steps, v.Back(), s) {
      LogSimple(d, log, v, more, s);
      RunKept(d, asked, steps, log, v.Back(), s);
    }
  }

  lemma DeopIsOwn(d: Dest, asked: Option<string>, log: seq<Flush>, v: View)
    requires (asked.Some? ==> |asked.value| == 5) && Reads(d, v)
    requires Deopped(log) == if asked.Some? && log != [] && d.toServer then [DeopOf(asked.value)] else []
    ensures AllValid(Extras(log, v))
    ensures OwnAll(Extras(log, v), v) == if v.Users? || asked.None? || log == [] then multiset{}
                                         else multiset{Change(!d.bounce, 'o', asked.value)}
  {
    hide Deopped;
    NothingOwn(v);
    if v.Servers? && asked.Some? && log != [] {
      var m := DeopOf(asked.value);
      assert Extras(log, v) == [m] && [m][1..] == [];
      assert asked.value + "" == asked.value;
    }
  }

  lemma RunTexts(d: Dest, asked: Option<string>, steps: seq<Step>, log: seq<Flush>, v: View)
    requires Finished(d, asked, steps, log)
    requires if v.Back() then NoLimit !in steps else OneLimit(ModesOf(steps))
    ensures AllRight(d, log) && TextsRight(v, log)
  {
    hide FlushRight, Placed, Deopped, ModesOf, SimpleAfter, LogToggle, Within, OneLimit;
    forall k | 0 <= k < |log| && !v.Back() ensures OneLimit(log[k].held) {
      WithinAgrees(log[k].held, ModesOf(steps));
    }
  }

  lemma RunArguments(d: Dest, asked: Option<string>, steps: seq<Step>, log: seq<Flush>, v: View)
    requires Finished(d, asked, steps, log) && AllValid(Placed(log))
    ensures AllValid(ModesOf(steps)) && OwnAll(Placed(log), v) == OwnAll(ModesOf(steps), v)
  {
    hide Placed, ModesOf, OwnAll, AllRight, SimpleKept, Deopped;
    PlacedAll(steps, log);
    OwnOfSame(Placed(log), ModesOf(steps), v);
  }

  lemma RunKept(d: Dest, asked: Option<string>, steps: seq<Step>, log: seq<Flush>, back: bool, s: set<char>)
    requires Finished(d, asked, steps, log)
    ensures SimpleAfter(steps, back, s) == LogToggle(log, back, s)
  {
    hide AllRight, Placed, Deopped, ModesOf, SimpleAfter, LogToggle, ModesKept, LimitGone;
  }

  /**
   Any sequence of modes, then a full flush: each mode with an argument is placed exactly once, each owned
   text is freed exactly once, and what is said above of finished runs holds.
   */
  method Run(steps: seq<Step>, dest: Dest, asked: Option<string>) returns (b: ModeBuf)
    requires StepsValid(steps, dest.noKey) && (asked.Some? ==> |asked.value| == 5)
    ensures b.dest == dest && Finished(dest, asked, steps, b.log)
    ensures multiset(Placed(b.log)) == multiset(ModesOf(steps))
    ensures forall o :: o in b.freed <==> Frees(ModesOf(steps), o)
    ensures OwnedOnce(multiset(ModesOf(steps))) ==> NoRepeat(b.freed)
  {
    hide ModeBuf.Valid, Finished, StepValid, Placed, ModesOf, Owners, OwnedOnce, NoRepeat, Frees;
    b := new ModeBuf(dest, asked);
    var i := 0;
    while i < |steps|
      invariant i <= |steps| && b.Valid() && fresh(b) && fresh(b.slots) && b.dest == dest && b.asked == asked
      invariant b.steps == steps[..i]
    {
      b.Do(steps[i]);
      assert steps[..i + 1] == steps[..i] + [steps[i]];
      i := i + 1;
    }
    assert steps[..i] == steps;
    b.Finish();
    SameOwners(Placed(b.log), ModesOf(steps));
  }

  lemma PlacedAll(steps: seq<Step>, log: seq<Flush>)
    requires ModesKept(steps, log, [])
    ensures multiset(Placed(log)) == multiset(ModesOf(steps))
  {
  }
}
