/**
 Delayed joins (ircd/channel.c): on a +D channel the join of a user without op or voice stays hidden
 until the user does something. A channel that lost its +D while users are still hidden is +d, a mode
 that only the server sets.
 */
module DelayedJoin {

  datatype Member = Member(user: int, delayed: bool, zombie: bool)

  /** Somebody's join is still hidden. */
  ghost predicate Hidden(s: seq<Member>) {
    exists i :: 0 <= i < |s| && s[i].delayed
  }

  class Channel {
    const apass: bool
    var deljoins: bool  // MODE_DELJOINS, +D
    var wasdel: bool    // MODE_WASDELJOINS, +d
    var members: seq<Member>
    ghost var shownD: bool  // the modes as the members have been told
    ghost var shownd: bool

    constructor (apass: bool)
      ensures Settled() && Shown() && members == [] && !deljoins && this.apass == apass
    {
      this.apass := apass;
      deljoins, wasdel, members, shownD, shownd := false, false, [], false, false;
    }

    /** Between commands: +d says exactly that some joins are hidden on a channel that is not +D. */
    ghost predicate Settled()
      reads this
    {
      wasdel <==> !deljoins && Hidden(members)
    }

    /** The members know the modes. */
    ghost predicate Shown()
      reads this
    {
      shownD == deljoins && shownd == wasdel
    }

    /** find_delayed_joins. */
    method FindDelayedJoins() returns (found: bool)
      ensures found == Hidden(members)
    {
      var i := 0;
      while i < |members|
        invariant i <= |members| && forall j :: 0 <= j < i ==> !members[j].delayed
      {
        if members[i].delayed {
          return true;
        }
        i := i + 1;
      }
      return false;
    }

    /** CheckDelayedJoins. */
    method CheckDelayedJoins()
      modifies this`wasdel, this`shownd
      ensures wasdel == (old(wasdel) && Hidden(members))
      ensures shownd == (old(shownd) && (old(wasdel) ==> Hidden(members)))
    {
      if wasdel {
        var found := FindDelayedJoins();
        if !found {
          wasdel := false;
          shownd := false;
        }
      }
    }

    /** RevealDelayedJoin. */
    method Reveal(i: nat)
      requires i < |members|
      modifies this`members, this`wasdel, this`shownd
      ensures members == old(members)[i := old(members)[i].(delayed := false)]
      ensures wasdel == (old(wasdel) && Hidden(members))
      ensures shownd == (old(shownd) && (old(wasdel) ==> Hidden(members)))
      ensures Hidden(members) ==> Hidden(old(members))
      ensures (old(Settled()) ==> Settled()) && (old(Shown()) ==> Shown())
    {
      members := members[i := members[i].(delayed := false)];
      CheckDelayedJoins();
    }

    /** joinbuf_join, and the joins of a BURST. */
    method Join(user: int, privileged: bool)
      modifies this`members
      ensures members == [Member(user, deljoins && !privileged, false)] + old(members)
      ensures Hidden(members) <==> (deljoins && !privileged) || Hidden(old(members))
      ensures old(Settled()) ==> Settled()
    {
      ghost var was := members;
      if deljoins && !privileged {
        members := [Member(user, true, false)] + members;
      } else {
        members := [Member(user, false, false)] + members;
      }
      assert members[0].delayed == (deljoins && !privileged);
      assert forall i :: 0 <= i < |was| ==> members[i + 1] == was[i];
    }

    /** remove_member_from_channel; a channel without Apass that becomes empty loses its modes. */
    method Remove(i: nat)
      requires i < |members|
      modifies this`members, this`wasdel, this`deljoins, this`shownd, this`shownD
      ensures members == old(members)[..i] + old(members)[i + 1..]
      ensures old(Settled()) ==> Settled()
      ensures old(Shown()) ==> Shown()
      ensures members != [] || apass ==> deljoins == old(deljoins)
    {
      var m := members[i];
      members := members[..i] + members[i + 1..];
      HiddenAfterRemoval(old(members), i);
      if m.delayed {
        CheckDelayedJoins();
      }
      if members == [] && !apass {
        deljoins, wasdel := false, false;
        shownD, shownd := false, false;  // nobody is left
      }
    }

    /** A kick marks a member as zombie; the join stays hidden. */
    method MakeZombie(i: nat)
      requires i < |members|
      modifies this`members
      ensures members == old(members)[i := old(members)[i].(zombie := true)]
      ensures Hidden(members) == old(Hidden(members)) && (old(Settled()) ==> Settled())
    {
      members := members[i := members[i].(zombie := true)];
      assert forall j :: 0 <= j < |members| ==> members[j].delayed == old(members)[j].delayed;
    }
  }

  lemma HiddenAfterRemoval(s: seq<Member>, i: nat)
    requires i < |s|
    ensures !s[i].delayed ==> (Hidden(s[..i] + s[i + 1..]) <==> Hidden(s))
    ensures Hidden(s[..i] + s[i + 1..]) ==> Hidden(s)
  {
    var t := s[..i] + s[i + 1..];
    forall j | 0 <= j < |s| && j != i ensures s[j] == t[if j < i then j else j - 1] {
    }
    forall j | 0 <= j < |t| ensures t[j] == s[if j < i then j else j + 1] {
    }
  }

  /** What a command may do to a channel between the start of its ModeBuf and the last flush of it. */
  datatype Step =
    | Simple(add: bool, del: bool)  // mode_parse with +D, -D or both
    | Grant(index: nat)             // op or voice for member number index
    | Enter(user: int, privileged: bool)
    | Full                          // the buffer is full and is flushed in between

  ghost predicate Legal(steps: seq<Step>, size: nat)
  {
    steps == [] || match steps[0]
      case Simple(_, _) => Legal(steps[1..], size)
      case Grant(i) => i < size && Legal(steps[1..], size)
      case Enter(_, _) => Legal(steps[1..], size + 1)
      case Full => Legal(steps[1..], size)
  }

  /** +D and the members after the steps. */
  function ModeAfter(steps: seq<Step>, deljoins: bool): bool {
    if steps == [] then deljoins else match steps[0]
      case Simple(add, del) => ModeAfter(steps[1..], add || (!del && deljoins))
      case _ => ModeAfter(steps[1..], deljoins)
  }

  /** Member number i gets op or voice: the join is shown unless the member is a zombie. */
  function Granted(members: seq<Member>, i: nat): seq<Member>
    requires i < |members|
  {
    members[i := members[i].(delayed := members[i].delayed && members[i].zombie)]
  }

  ghost function MembersAfter(steps: seq<Step>, deljoins: bool, members: seq<Member>): seq<Member>
    requires Legal(steps, |members|)
  {
    if steps == [] then members else match steps[0]
      case Simple(add, del) => MembersAfter(steps[1..], add || (!del && deljoins), members)
      case Grant(i) => MembersAfter(steps[1..], deljoins, Granted(members, i))
      case Enter(u, p) => MembersAfter(steps[1..], deljoins, [Member(u, deljoins && !p, false)] + members)
      case Full => MembersAfter(steps[1..], deljoins, members)
  }

  // ----- what the steps mean for each member, oldest first

  /** Who comes in, in order, hidden on a channel that is +D then unless privileged. */
  function Newcomers(steps: seq<Step>, deljoins: bool): seq<Member> {
    if steps == [] then [] else match steps[0]
      case Simple(add, del) => Newcomers(steps[1..], add || (!del && deljoins))
      case Enter(u, p) => [Member(u, deljoins && !p, false)] + Newcomers(steps[1..], deljoins)
      case _ => Newcomers(steps[1..], deljoins)
  }

  /** Some step gives op or voice to the member that p members are older than. */
  predicate Named(steps: seq<Step>, size: nat, p: nat) {
    steps != [] && match steps[0]
      case Grant(i) => i + p + 1 == size || Named(steps[1..], size, p)
      case Enter(_, _) => Named(steps[1..], size + 1, p)
      case _ => Named(steps[1..], size, p)
  }

  /** Member p, counted from the oldest, of those that are there and those that come. */
  function Original(steps: seq<Step>, deljoins: bool, members: seq<Member>, p: nat): Member
    requires p < |members| + |Newcomers(steps, deljoins)|
  {
    if p < |members| then members[|members| - 1 - p] else Newcomers(steps, deljoins)[p - |members|]
  }

  /**
   Nobody is lost or exchanged, and a join is hidden at the end exactly if it was and nobody gave the member op
   or voice, or the member is a zombie.
   */
  ghost predicate EachAsNamed(steps: seq<Step>, deljoins: bool, members: seq<Member>, after: seq<Member>) {
    && |after| == |members| + |Newcomers(steps, deljoins)|
    && forall p :: 0 <= p < |after| ==>
         var was, now := Original(steps, deljoins, members, p), after[|after| - 1 - p];
         && now.user == was.user && now.zombie == was.zombie
         && (now.delayed <==> was.delayed && (was.zombie || !Named(steps, |members|, p)))
  }

  lemma {:induction false} StepsMean(steps: seq<Step>, deljoins: bool, members: seq<Member>)
    requires Legal(steps, |members|)
    ensures EachAsNamed(steps, deljoins, members, MembersAfter(steps, deljoins, members))
    decreases |steps|
  {
    if steps != [] {
      var rest, after := steps[1..], MembersAfter(steps, deljoins, members);
      hide EachAsNamed;
      match steps[0] {
        case Simple(add, del) =>
          StepsMean(rest, add || (!del && deljoins), members);
          OneOther(steps, deljoins, members, after);
        case Grant(i) =>
          StepsMean(rest, deljoins, Granted(members, i));
          OneNamed(steps, deljoins, members, after);
        case Enter(u, priv) =>
          StepsMean(rest, deljoins, [Member(u, deljoins && !priv, false)] + members);
          OneEntered(steps, deljoins, members, after);
        case Full =>
          StepsMean(rest, deljoins, members);
          OneOther(steps, deljoins, members, after);
      }
    } else {
      NoStep(deljoins, members);
    }
  }

  lemma NoStep(deljoins: bool, members: seq<Member>)
    ensures EachAsNamed([], deljoins, members, members)
  {
  }

  lemma OneOther(steps: seq<Step>, deljoins: bool, members: seq<Member>, after: seq<Member>)
    requires steps != [] && (steps[0].Simple? || steps[0].Full?)
    requires var now := if steps[0].Simple? then steps[0].add || (!steps[0].del && deljoins) else deljoins;
             EachAsNamed(steps[1..], now, members, after)
    ensures EachAsNamed(steps, deljoins, members, after)
  {
    var rest := steps[1..];
    var now := if steps[0].Simple? then steps[0].add || (!steps[0].del && deljoins) else deljoins;
    forall p | 0 <= p < |after|
      ensures Original(rest, now, members, p) == Original(steps, deljoins, members, p)
      ensures Named(rest, |members|, p) == Named(steps, |members|, p)
    {
    }
  }

  lemma OneEntered(steps: seq<Step>, deljoins: bool, members: seq<Member>, after: seq<Member>)
    requires steps != [] && steps[0].Enter?
    requires var m := Member(steps[0].user, deljoins && !steps[0].privileged, false);
             EachAsNamed(steps[1..], deljoins, [m] + members, after)
    ensures EachAsNamed(steps, deljoins, members, after)
  {
    var rest, m := steps[1..], Member(steps[0].user, deljoins && !steps[0].privileged, false);
    assert Newcomers(steps, deljoins) == [m] + Newcomers(rest, deljoins);
    forall p | 0 <= p < |after|
      ensures Original(rest, deljoins, [m] + members, p) == Original(steps, deljoins, members, p)
      ensures Named(rest, |[m] + members|, p) == Named(steps, |members|, p)
    {
    }
  }

  lemma OneNamed(steps: seq<Step>, deljoins: bool, members: seq<Member>, after: seq<Member>)
    requires steps != [] && steps[0].Grant? && steps[0].index < |members|
    requires EachAsNamed(steps[1..], deljoins, Granted(members, steps[0].index), after)
    ensures EachAsNamed(steps, deljoins, members, after)
  {
    var rest, i := steps[1..], steps[0].index;
    forall p | 0 <= p < |after|
      ensures var was, was' := Original(steps, deljoins, members, p), Original(rest, deljoins, Granted(members, i), p);
              was' == if i + p + 1 == |members| then was.(delayed := was.delayed && was.zombie) else was
    {
    }
  }

  /** The last +D or -D decides. */
  lemma {:induction false} LastModeCounts(steps: seq<Step>, deljoins: bool, k: nat)
    requires k < |steps| && steps[k].Simple? && (steps[k].add || steps[k].del)
    requires forall j :: k < j < |steps| && steps[j].Simple? ==> !steps[j].add && !steps[j].del
    ensures ModeAfter(steps, deljoins) == steps[k].add
    decreases |steps|
  {
    var now := if steps[0].Simple? then steps[0].add || (!steps[0].del && deljoins) else deljoins;
    if k > 0 {
      LastModeCounts(steps[1..], now, k - 1);
    } else {
      NoModeChange(steps[1..], now);
    }
  }

  lemma {:induction false} NoModeChange(steps: seq<Step>, deljoins: bool)
    requires forall j :: 0 <= j < |steps| && steps[j].Simple? ==> !steps[j].add && !steps[j].del
    ensures ModeAfter(steps, deljoins) == deljoins
    decreases |steps|
  {
    if steps != [] {
      NoModeChange(steps[1..], deljoins);
    }
  }

  /**
   Some join stays hidden in every state between the steps and at their end, and the channel is not +D at any
   flush, the last one included.
   */
  ghost predicate StaysWrong(steps: seq<Step>, deljoins: bool, members: seq<Member>)
    requires Legal(steps, |members|)
  {
    && Hidden(members)
    && if steps == [] then !deljoins else match steps[0]
      case Simple(add, del) => StaysWrong(steps[1..], add || (!del && deljoins), members)
      case Grant(i) => StaysWrong(steps[1..], deljoins, Granted(members, i))
      case Enter(u, p) => StaysWrong(steps[1..], deljoins, [Member(u, deljoins && !p, false)] + members)
      case Full => !deljoins && StaysWrong(steps[1..], deljoins, members)
  }

  class ModeBuf {
    const channel: Channel
    var addD: bool
    var remD: bool
    var addd: bool
    var remd: bool

    constructor (c: Channel)
      ensures channel == c && !addD && !remD && !addd && !remd
    {
      channel := c;
      addD, remD, addd, remd := false, false, false, false;
    }

    /** While modes wait in the buffer. */
    ghost predicate Open()
      reads this, channel
    {
      && (channel.wasdel ==> Hidden(channel.members))
      && (Hidden(channel.members) ==> channel.deljoins || channel.wasdel || remD)
      && (channel.deljoins && channel.wasdel ==> addD)
      && (addD ==> channel.deljoins) && (remD ==> !channel.deljoins)
      && !addd
    }

    /** What the members know of +D differs from the mode by what waits in the buffer; the same for +d. */
    ghost predicate Owed()
      reads this, channel
    {
      && channel.deljoins == (addD || (!remD && channel.shownD))
      && !remd && channel.wasdel == channel.shownd
    }

    /** The weaker form of Owed when -d waits in the buffer although the channel is still +d. */
    ghost predicate Overdue()
      reads this, channel
    {
      && channel.deljoins == (addD || (!remD && channel.shownD))
      && (channel.shownd ==> channel.wasdel || remd)
    }

    /** The members are told -d, now or at the next flush, although the channel keeps +d. */
    ghost predicate Wrong()
      reads this, channel
    {
      && channel.deljoins == (addD || (!remD && channel.shownD))
      && channel.wasdel && !addd && (remd || !channel.shownd) && (channel.deljoins ==> addD)
    }

    /** What the members know of +d, or will know at the next flush, is the mode. */
    ghost predicate Cleared()
      reads this, channel
    {
      && channel.deljoins == (addD || (!remD && channel.shownD))
      && (channel.wasdel <==> !remd && channel.shownd)
    }

    /** The end of mode_parse, for +D and -D. */
    method Simple(add: bool, del: bool)
      requires Open()
      modifies this`addD, this`remD, channel`deljoins
      ensures Open() && (old(Owed()) ==> Owed()) && (old(Overdue()) ==> Overdue())
      ensures (old(Wrong()) ==> Wrong()) && (old(Cleared()) ==> Cleared())
      ensures channel.deljoins == (add || (!del && old(channel.deljoins)))
    {
      var mode := channel.deljoins;
      if del && mode {
        addD, remD := false, true;
        mode := false;
      }
      if add && !mode {
        remD, addD := false, true;
        mode := true;
      }
      channel.deljoins := mode;
    }

    /** mode_process_clients for one member that gets op or voice. */
    method Grant(i: nat)
      requires Open() && i < |channel.members|
      modifies channel`members, channel`wasdel, channel`shownd
      ensures Open() && (old(Owed()) ==> Owed()) && (old(Overdue()) ==> Overdue())
      ensures channel.members == Granted(old(channel.members), i)
      ensures |channel.members| == |old(channel.members)|
      ensures forall j :: 0 <= j < |channel.members| && j != i ==> channel.members[j] == old(channel.members)[j]
      ensures channel.members[i] == if old(channel.members)[i].zombie then old(channel.members)[i]
                                    else Member(old(channel.members)[i].user, false, false)
      ensures old(Wrong()) ==> if Hidden(channel.members) then Wrong() else Cleared()
      ensures old(Cleared()) ==> Cleared()
    {
      if channel.members[i].delayed && !channel.members[i].zombie {
        channel.Reveal(i);
        assert Hidden(channel.members) ==> Hidden(old(channel.members));
      } else {
        assert channel.members[i := channel.members[i]] == channel.members;
      }
    }

    /** modebuf_flush_int: correct +d, tell the members, and empty the buffer. */
    method Flush()
      requires Open()
      modifies this`addD, this`remD, this`addd, this`remd, channel`wasdel, channel`shownD, channel`shownd
      ensures Open() && channel.Settled() && !addD && !remD && !remd
      ensures old(Owed()) ==> Owed() && channel.Shown()
      ensures old(Overdue()) ==> Overdue()
      ensures old(Wrong()) ==> if old(channel.deljoins) then Cleared() else Wrong()
      ensures old(Cleared()) ==> Cleared()
    {
      if remD && !channel.deljoins && !channel.wasdel {
        var found := channel.FindDelayedJoins();
        if found {
          channel.wasdel := true;
          addd, remd := true, false;
        }
      }
      if addD && channel.wasdel {
        channel.wasdel := false;
        addd, remd := false, true;
      }
      channel.shownD := addD || (!remD && channel.shownD);
      channel.shownd := addd || (!remd && channel.shownd);
      addD, remD, addd, remd := false, false, false, false;
    }

    /** The first of the steps that are left. */
    method OneStep(steps: seq<Step>)
      requires Open() && steps != [] && Legal(steps, |channel.members|)
      modifies this`addD, this`remD, this`addd, this`remd
      modifies channel`members, channel`deljoins, channel`wasdel, channel`shownD, channel`shownd
      ensures Open() && (old(Owed()) ==> Owed()) && (old(Overdue()) ==> Overdue())
      ensures Legal(steps[1..], |channel.members|)
      ensures ModeAfter(steps[1..], channel.deljoins) == ModeAfter(steps, old(channel.deljoins))
      ensures MembersAfter(steps[1..], channel.deljoins, channel.members)
              == MembersAfter(steps, old(channel.deljoins), old(channel.members))
      ensures var stays := old(StaysWrong(steps, channel.deljoins, channel.members));
              old(Wrong()) ==>
                || (Wrong() && (stays <==> StaysWrong(steps[1..], channel.deljoins, channel.members)))
                || (Cleared() && !stays)
      ensures old(Cleared()) ==> Cleared()
    {
      match steps[0] {
        case Simple(add, del) => Simple(add, del);
        case Grant(index) => Grant(index);
        case Enter(user, privileged) => channel.Join(user, privileged);
        case Full => Flush();
      }
    }

    /** The steps of a command, one after the other. */
    method Steps(steps: seq<Step>)
      requires Open() && Legal(steps, |channel.members|)
      modifies this`addD, this`remD, this`addd, this`remd
      modifies channel`members, channel`deljoins, channel`wasdel, channel`shownD, channel`shownd
      ensures Open() && (old(Owed()) ==> Owed()) && (old(Overdue()) ==> Overdue())
      ensures channel.deljoins == ModeAfter(steps, old(channel.deljoins))
      ensures channel.members == MembersAfter(steps, old(channel.deljoins), old(channel.members))
      ensures var stays := old(StaysWrong(steps, channel.deljoins, channel.members));
              old(Wrong()) ==> (Wrong() && (stays <==> !channel.deljoins)) || (Cleared() && !stays)
    {
      ghost var stays := StaysWrong(steps, channel.deljoins, channel.members);
      var rest := steps;
      while rest != []
        invariant Open() && (old(Owed()) ==> Owed()) && (old(Overdue()) ==> Overdue())
        invariant Legal(rest, |channel.members|)
        invariant ModeAfter(rest, channel.deljoins) == ModeAfter(steps, old(channel.deljoins))
        invariant MembersAfter(rest, channel.deljoins, channel.members)
                  == MembersAfter(steps, old(channel.deljoins), old(channel.members))
        invariant old(Wrong()) ==>
                  || (Wrong() && (stays <==> StaysWrong(rest, channel.deljoins, channel.members)))
                  || (Cleared() && !stays)
        decreases |rest|
      {
        OneStep(rest);
        rest := rest[1..];
      }
    }

    /** A MODE command, or anything else that changes modes through a buffer of its own. */
    method Command(steps: seq<Step>)
      requires channel.Settled() && !addD && !remD && !addd && !remd && Legal(steps, |channel.members|)
      modifies this`addD, this`remD, this`addd, this`remd
      modifies channel`members, channel`deljoins, channel`wasdel, channel`shownD, channel`shownd
      ensures channel.Settled() && (old(channel.Shown()) ==> channel.Shown())
      ensures channel.deljoins == ModeAfter(steps, old(channel.deljoins))
      ensures channel.members == MembersAfter(steps, old(channel.deljoins), old(channel.members))
      ensures EachAsNamed(steps, old(channel.deljoins), old(channel.members), channel.members)
    {
      StepsMean(steps, channel.deljoins, channel.members);
      Steps(steps);
      Flush();
    }

    /** A BURST or JOIN with an older timestamp: all modes are wiped out, but +d is kept. */
    method Wipe()
      requires channel.Settled() && !addD && !remD && !addd && !remd
      modifies this`remD, this`remd, channel`deljoins
      ensures Open() && !channel.deljoins && remd == channel.wasdel && remD == old(channel.deljoins)
      ensures old(channel.Shown()) ==> Overdue() && if channel.wasdel then Wrong() else Owed()
    {
      if channel.deljoins {
        remD := true;
      }
      if channel.wasdel {
        remd := true;
      }
      channel.deljoins := false;
    }

    /**
     After a wipe the members are told -d although the channel keeps +d. They know the modes at the end unless the
     channel was +d, joins stayed hidden all the time, and no flush found the channel +D, which would have ended +d.
     */
    method WipeCommand(steps: seq<Step>)
      requires channel.Settled() && channel.Shown() && !addD && !remD && !addd && !remd &&
               Legal(steps, |channel.members|)
      modifies this`addD, this`remD, this`addd, this`remd
      modifies channel`members, channel`deljoins, channel`wasdel, channel`shownD, channel`shownd
      ensures channel.Settled() && channel.shownD == channel.deljoins && (channel.shownd ==> channel.wasdel)
      ensures channel.Shown() <==> !(old(channel.wasdel) && StaysWrong(steps, false, old(channel.members)))
      ensures channel.deljoins == ModeAfter(steps, false)
      ensures channel.members == MembersAfter(steps, false, old(channel.members))
      ensures EachAsNamed(steps, false, old(channel.members), channel.members)
    {
      StepsMean(steps, false, channel.members);
      Wipe();
      Steps(steps);
      Flush();
    }
  }
}
