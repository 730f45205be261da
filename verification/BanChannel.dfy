/**
 The ban list as the server keeps it (ircd/channel.c): linked nodes with marks, nodes of the
 MODE parser linked behind them for a while, and the ban verdict cached per member.
 */
module BanChannel {
  import opened BanList
  import opened BanSync
  import opened BanMeaning

  /** A node: the ban with its flags, and the link. */
  class Ban {
    var next: Ban?
    var item: Item

    constructor (item: Item)
      ensures this.item == item && next == null
    {
      this.item := item;
      next := null;
    }
  }

  class Member {
    const client: Client
    var banValid: bool
    var banned: bool

    constructor (c: Client)
      ensures client == c && !banValid
    {
      client := c;
      banValid := false;
      banned := false;
    }
  }

  function NodeAt(s: seq<Ban>, i: nat): Ban? {
    if i < |s| then s[i] else null
  }

  class Channel {
    const matcher: Matcher
    var banlist: Ban?
    var members: seq<Member>
    ghost var bans: seq<Ban>    // the nodes of the list, in order
    ghost var items: seq<Item>  // and what they hold

    constructor (mt: Matcher)
      ensures matcher == mt && Valid() && items == [] && members == []
    {
      matcher := mt;
      banlist := null;
      members := [];
      bans := [];
      items := [];
    }

    /** The bans of the channel between commands. */
    ghost function Bans(): seq<Entry>
      reads this
    {
      Entries(items)
    }

    ghost predicate Linked()
      reads this, bans
    {
      && banlist == NodeAt(bans, 0)
      && |items| == |bans|
      && (forall i {:trigger bans[i].next} :: 0 <= i < |bans| ==> bans[i].next == NodeAt(bans, i + 1))
      && (forall i, j :: 0 <= i < j < |bans| ==> bans[i] != bans[j])
      && (forall i :: 0 <= i < |bans| ==> bans[i].item == items[i])
    }

    /** The state between commands: a linked list, and every cached verdict is right. */
    ghost predicate Valid()
      reads this, bans, members
    {
      && Linked()
      && (forall m :: m in members && m.banValid ==> (m.banned <==> Banned(matcher, Bans(), m.client)))
    }

    /** No plain ban in front of number k is met by the client. */
    ghost predicate FirstMet(bans: seq<Ban>, k: nat, client: Client)
      requires k < |bans|
      reads bans
    {
      forall j :: 0 <= j < k ==> bans[j].item.entry.exception || !Matches(matcher, bans[j].item.entry, client)
    }

    /** find_ban: exceptions end the search, and the first ban found is kept. */
    method FindBan(client: Client) returns (found: Ban?)
      requires Linked()
      ensures found != null <==> Banned(matcher, Bans(), client)
      ensures found != null ==>
              found in bans && !found.item.entry.exception && Matches(matcher, found.item.entry, client)
      ensures found != null ==> exists k :: 0 <= k < |bans| && bans[k] == found && FirstMet(bans, k, client)
      ensures forall e :: e in Bans() && e.exception && Matches(matcher, e, client) ==> found == null
      ensures found == null ==>
              (exists e :: e in Bans() && e.exception && Matches(matcher, e, client)) ||
              (forall e :: e in Bans() && !e.exception ==> !Matches(matcher, e, client))
    {
      hide Matches;
      ghost var list := Bans();
      found := null;
      var ban := banlist;
      ghost var i, k: nat := 0, 0;
      while ban != null
        invariant i <= |bans| && ban == NodeAt(bans, i)
        invariant found != null ==>
                  found in bans && !found.item.entry.exception && Matches(matcher, found.item.entry, client)
        invariant found != null ==> k < |bans| && bans[k] == found && FirstMet(bans, k, client)
        invariant found == null ==> forall j :: 0 <= j < i ==> list[j].exception || !Matches(matcher, list[j], client)
        invariant forall j :: 0 <= j < i && list[j].exception ==> !Matches(matcher, list[j], client)
        decreases |bans| - i
      {
        if !(found != null && !ban.item.entry.exception) && Matches(matcher, ban.item.entry, client) {
          if ban.item.entry.exception {
            assert list[i].exception && Matches(matcher, list[i], client);
            return null;
          }
          found := ban;
          k := i;
        }
        ban := ban.next;
        i := i + 1;
      }
      if found != null {
        ghost var j :| 0 <= j < |bans| && bans[j] == found;
        assert list[j] == found.item.entry;
      }
    }

    /** is_banned: the cached verdict, computed when there is none. */
    method IsBanned(m: Member) returns (yes: bool)
      requires Valid() && m in members
      modifies m
      ensures Valid()
      ensures yes <==> Banned(matcher, Bans(), m.client)
    {
      hide Banned;
      if m.banValid {
        return m.banned;
      }
      m.banValid := true;
      var found := FindBan(m.client);
      if found != null {
        m.banned := true;
        return true;
      } else {
        m.banned := false;
        return false;
      }
    }

    method Join(c: Client) returns (m: Member)
      requires Valid()
      modifies this`members
      ensures Valid() && fresh(m) && m.client == c && members == [m] + old(members)
    {
      hide Banned;
      m := new Member(c);
      members := [m] + members;
    }

    method Part(i: nat)
      requires Valid() && i < |members|
      modifies this`members
      ensures Valid() && members == old(members[..i] + members[i + 1..])
    {
      hide Banned;
      members := members[..i] + members[i + 1..];
    }

    /** mode_ban_invalidate. */
    method Invalidate()
      modifies members
      ensures forall m :: m in members ==> !m.banValid
    {
      var i := 0;
      while i < |members|
        invariant i <= |members|
        invariant forall j :: 0 <= j < i ==> !members[j].banValid
      {
        members[i].banValid := false;
        i := i + 1;
      }
    }

    predicate CoversSome(e: Entry, list: seq<Item>) {
      exists j :: 0 <= j < |list| && Covers(matcher, e, list[j].entry)
    }

    /** apply_ban: refuse the new entry, or mark what it covers and link it behind the list. */
    method ApplyBan(newban: Ban) returns (code: int)
      requires Linked() && newban !in bans && newban.next == null
      requires newban.item == Item(newban.item.entry, newban.item.add, !newban.item.add, false)
      modifies this`banlist, this`bans, this`items, bans
      ensures Linked()
      ensures bans == if newban.item.add && code == 0 then old(bans) + [newban] else old(bans)
      ensures items == Apply(matcher, old(items), if newban.item.add then AddBan(newban.item.entry)
              else DelBan(newban.item.entry))
      ensures if newban.item.add then code == (if Refused(matcher, old(items), newban.item.entry) then 1 else 0)
              else code == if CoversSome(newban.item.entry, old(items)) then 0 else 3
    {
      hide Covers;
      if newban.item.add {
        var refused := CoveredByActive(newban.item.entry);
        if refused {
          return 1;
        }
      }
      var last, removed := MarkCovered(newban.item.entry);
      if newban.item.add {
        if last == null {
          banlist := newban;
        } else {
          last.next := newban;
        }
        bans := bans + [newban];
        items := items + [newban.item];
        return 0;
      }
      return if removed > 0 then 0 else 3;
    }

    /** Is a less specific active entry in the list? */
    method CoveredByActive(e: Entry) returns (refused: bool)
      requires Linked()
      ensures refused <==> Refused(matcher, items, e)
    {
      hide Covers;
      var ban := banlist;
      ghost var i := 0;
      while ban != null
        invariant i <= |bans| && ban == NodeAt(bans, i)
        invariant forall j :: 0 <= j < i ==> items[j].del || !Covers(matcher, items[j].entry, e)
        decreases |bans| - i
      {
        if Covers(matcher, ban.item.entry, e) && !ban.item.del {
          assert items[i] == ban.item;
          return true;
        }
        ban := ban.next;
        i := i + 1;
      }
      return false;
    }

    /** Mark every entry the new one covers; last is the node the new one would be linked behind. */
    method MarkCovered(e: Entry) returns (last: Ban?, removed: nat)
      requires Linked()
      modifies this`items, bans
      ensures Linked()
      ensures items == Mark(matcher, old(items), e)
      ensures last == if bans == [] then null else bans[|bans| - 1]
      ensures removed > 0 <==> exists j :: 0 <= j < |bans| && Covers(matcher, e, old(items)[j].entry)
    {
      hide Covers;
      ghost var was := items;
      last := null;
      removed := 0;
      var ban := banlist;
      ghost var i := 0;
      while ban != null
        invariant i <= |bans| && ban == NodeAt(bans, i) && Linked()
        invariant last == if i == 0 then null else bans[i - 1]
        invariant forall j :: 0 <= j < i ==> items[j] == MarkItem(matcher, was[j], e)
        invariant forall j :: i <= j < |bans| ==> items[j] == was[j]
        invariant removed > 0 <==> exists j :: 0 <= j < i && Covers(matcher, e, was[j].entry)
        decreases |bans| - i
      {
        if Covers(matcher, e, ban.item.entry) {
          ban.item := ban.item.(del := true, overlapped := true);
          items := items[i := ban.item];
          removed := removed + 1;
        }
        last := ban;
        ban := ban.next;
        i := i + 1;
      }
    }

    /** The clean-up pass at a point: see Sweep. */
    ghost predicate Sweeping(g: Sweep)
      reads this, g.s, g.list
    {
      && |g.was| == |g.s| && g.h <= |g.s| && g.i <= |g.s|
      && (forall j {:trigger g.s[j].next} :: g.i <= j < |g.s| ==> g.s[j].next == NodeAt(g.s, j + 1))
      && (forall j :: g.i <= j < |g.s| ==> g.s[j].item == g.was[j])
      && (forall j, k :: 0 <= j < k < |g.s| ==> g.s[j] != g.s[k])
      && |g.list| == |g.built|
      && banlist == (if g.list == [] then g.end else g.list[0])
      && (forall k {:trigger g.list[k].next} :: 0 <= k < |g.list| ==>
        g.list[k].next == if k + 1 < |g.list| then g.list[k + 1] else g.end)
      && (forall k :: 0 <= k < |g.list| ==> g.list[k].item == Item(g.built[k], false, false, false))
      && (forall j, k :: 0 <= j < k < |g.list| ==> g.list[j] != g.list[k])
      && (forall j, k :: 0 <= k < |g.list| && (g.i <= j < |g.s| || g.h <= j < g.i) ==> g.list[k] != g.s[j])
    }

    /** prevban is the last node of the list, or a node of the parser that the pass has left behind. */
    ghost predicate Behind(g: Sweep, prevban: Ban?)
      requires g.i <= |g.s|
    {
      if prevban == null then g.list == []
      else prevban == g.Last() || (g.h <= g.i && prevban in g.s[g.h..g.i])
    }

    /** Cut the list behind its last node; a node of the parser may be cut as well. */
    method BreakList(prevban: Ban?, ghost g: Sweep)
      requires Sweeping(g) && Behind(g, prevban) && g.h <= g.i < |g.s|
      requires g.end != null ==> prevban == g.Last()
      modifies this`banlist, (if prevban == null then {} else {prevban})`next
      ensures var g' := g.(i := g.i + 1, end := null); Sweeping(g') && Behind(g', prevban)
    {
      if prevban != null && prevban != g.Last() {
        ghost var p :| g.h <= p < g.i && g.s[p] == prevban;
      }
      if prevban != null {
        prevban.next := null;
      } else {
        banlist := null;
      }
      assert g.s[g.h..g.i + 1] == g.s[g.h..g.i] + [g.s[g.i]];
    }

    /** Clip a deleted ban out of the list. */
    method ClipOut(prevban: Ban?, ban: Ban, ghost g: Sweep)
      requires Sweeping(g) && prevban == g.Last() && g.i < |g.s| && ban == g.s[g.i] == g.end
      modifies this`banlist, (if prevban == null then {} else {prevban})`next
      ensures Sweeping(g.(i := g.i + 1, end := NodeAt(g.s, g.i + 1)))
    {
      if prevban != null {
        prevban.next := ban.next;
      } else {
        banlist := ban.next;
      }
    }

    /** Link a new node for an accepted ban in front of the list. */
    method Install(e: Entry, ghost g: Sweep) returns (ghost g': Sweep)
      requires Sweeping(g) && g.end == null
      modifies this`banlist
      ensures g'.list != [] && fresh(g'.list[0]) && g'.list[1..] == g.list
      ensures Sweeping(g') && g' == g.(list := g'.list, built := [e] + g.built)
    {
      var newban := new Ban(Item(e, false, false, false));
      newban.next := banlist;
      banlist := newban;
      g' := g.(list := [newban] + g.list, built := [e] + g.built);
    }

    lemma KeepNode(g: Sweep)
      requires Sweeping(g) && g.i < g.h && g.end == g.s[g.i] &&
               g.was[g.i] == Item(g.was[g.i].entry, false, false, false)
      ensures Sweeping(g.(i := g.i + 1, list := g.list + [g.end], built := g.built + [g.was[g.i].entry],
              end := NodeAt(g.s, g.i + 1)))
    {
    }

    lemma StillBehind(g: Sweep, prevban: Ban?)
      requires 0 < g.i <= g.h && g.i <= |g.s| && prevban == g.Last()
      ensures Behind(g, prevban)
    {
    }

    lemma LeftBehind(g: Sweep, ban: Ban)
      requires 0 < g.i <= |g.s| && (if g.h < g.i then ban == g.s[g.i - 1] else ban == g.Last())
      ensures Behind(g, ban)
    {
      if g.h < g.i {
        assert g.s[g.h..g.i][g.i - 1 - g.h] == ban;
      }
    }

    lemma CurrentNode(g: Sweep)
      requires Sweeping(g) && g.i < |g.s|
      ensures g.s[g.i].next == NodeAt(g.s, g.i + 1) && g.s[g.i].item == g.was[g.i] && |g.was| == |g.s|
    {
    }

    /** The loop invariant of the pass, at a node ban. */
    ghost predicate Passing(lim: Limits, g: Sweep, w: Walk, prevban: Ban?, ban: Ban?, count: nat, len: nat,
        out: seq<Change>)
      reads this, g.s, g.list
    {
      && Sweeping(g) && ban == NodeAt(g.s, g.i)
      && w == WalkTo(lim, g.was, g.i) && g.built == Built(w)
      && g.end == (if g.i <= g.h then NodeAt(g.s, g.i) else null)
      && Behind(g, prevban) && (g.i <= g.h ==> prevban == g.Last() && w.added == [])
      && (prevban == null || prevban in g.s)
      && count == Size(w) && len == w.len && out == Told(w)
    }

    /** One round of the pass. */
    method ProcessNode(lim: Limits, prevban: Ban?, ban: Ban, count: nat, len: nat, out: seq<Change>, ghost g: Sweep,
        ghost w: Walk)
      returns (prevban': Ban?, count': nat, len': nat, out': seq<Change>, ghost g': Sweep, ghost w': Walk)
      requires Passing(lim, g, w, prevban, ban, count, len, out)
      requires forall i :: 0 <= i < |g.was| ==> (g.was[i].add <==> i >= g.h) && (g.was[i].overlapped ==> g.was[i].del)
      modifies this`banlist, g.s
      ensures g'.s == g.s && g'.was == g.was && g'.h == g.h && g'.i == g.i + 1
      ensures Passing(lim, g', w', prevban', NodeAt(g.s, g.i + 1), count', len', out')
      ensures forall b :: b in g'.list ==> b in g.list || (g.i < g.h && b == g.s[g.i]) || fresh(b)
    {
      hide Sweeping, Behind, WalkStep, Built, Told, Size;
      CurrentNode(g);
      StepBuilds(lim, w, g.was[g.i]);
      w' := WalkStep(lim, w, g.was[g.i]);
      prevban', count', len', out' := prevban, count + 1, len + |ban.item.entry.mask.Text()|, out;
      if ban.item.del && ban.item.add {
        BreakList(prevban, g);
        g' := g.(i := g.i + 1, end := null);
        count', len' := count, len;
      } else if ban.item.del {
        out' := out + [DelBan(ban.item.entry)];
        ClipOut(prevban, ban, g);
        g' := g.(i := g.i + 1, end := NodeAt(g.s, g.i + 1));
        StillBehind(g', prevban);
        count', len' := count, len;
      } else if ban.item.add {
        BreakList(prevban, g);
        g' := g.(i := g.i + 1, end := null);
        if !Fits(lim, count', len') {
          count', len' := count, len;
        } else {
          out' := out + [AddBan(ban.item.entry)];
          g' := Install(ban.item.entry, g');
        }
        LeftBehind(g', ban);
        prevban' := ban;
      } else {
        KeepNode(g);
        g' := g.(i := g.i + 1, list := g.list + [ban], built := g.built + [ban.item.entry],
          end := NodeAt(g.s, g.i + 1));
        LeftBehind(g', ban);
        prevban' := ban;
      }
    }

    /** The loop of mode_process_bans. */
    method RunPass(lim: Limits, ghost h: nat) returns (out: seq<Change>)
      requires Linked() && h <= |items|
      requires forall i :: 0 <= i < |items| ==> (items[i].add <==> i >= h) && (items[i].overlapped ==> items[i].del)
      modifies this`banlist, this`bans, this`items, bans
      ensures Linked()
      ensures items == Clean(Installed(lim, old(items))) && out == Announced(lim, old(items))
      ensures forall b :: b in bans ==> b in old(bans[..h]) || fresh(b)
    {
      hide Sweeping, Behind, WalkStep;
      ghost var was, nodes := items, bans;
      ghost var w := WalkTo(lim, was, 0);
      ghost var g := Sweep(nodes, was, h, 0, [], [], banlist);
      StartPass(lim, g, w);
      var count, len := 0, 0;
      var prevban: Ban?, ban := null, banlist;
      out := [];
      while ban != null
        invariant g.s == nodes && g.was == was && g.h == h && g.i <= |nodes|
        invariant Passing(lim, g, w, prevban, ban, count, len, out)
        invariant forall b :: b in g.list ==> b in nodes[..h] || fresh(b)
        decreases |nodes| - g.i
      {
        var nextban := ban.next;
        CurrentNode(g);
        prevban, count, len, out, g, w := ProcessNode(lim, prevban, ban, count, len, out, g, w);
        ban := nextban;
      }
      WalkOutcome(lim, was, h);
      EndPass(g);
    }

    /**
     mode_process_bans: unlink deleted bans and the parser's nodes, link a new node for every ban added,
     and drop the cached verdicts if that changed anything.
     */
    method ProcessBans(lim: Limits, ghost h: nat) returns (out: seq<Change>)
      requires Linked() && h <= |items|
      requires forall i :: 0 <= i < |items| ==> (items[i].add <==> i >= h) && (items[i].overlapped ==> items[i].del)
      modifies this`banlist, this`bans, this`items, bans, members
      ensures Linked()
      ensures items == Clean(Installed(lim, old(items))) && out == Announced(lim, old(items))
      ensures if out == [] then unchanged(members) else forall m :: m in members ==> !m.banValid
      ensures forall b :: b in bans ==> b in old(bans[..h]) || fresh(b)
    {
      out := RunPass(lim, h);
      if out != [] {
        Invalidate();
      }
    }

    /** Clear the marks a former MODE may have left. */
    method CleanMarks()
      requires Linked()
      modifies this`items, bans
      ensures Linked() && items == Clean(old(Bans()))
    {
      ghost var was := items;
      var ban := banlist;
      ghost var i := 0;
      while ban != null
        invariant i <= |bans| && ban == NodeAt(bans, i) && Linked()
        invariant forall j :: 0 <= j < i ==> items[j] == Item(was[j].entry, false, false, false)
        invariant forall j :: i <= j < |bans| ==> items[j] == was[j]
        decreases |bans| - i
      {
        ban.item := Item(ban.item.entry, false, false, false);
        items := items[i := ban.item];
        ban := ban.next;
        i := i + 1;
      }
    }

    /** mode_parse_ban for every change of a MODE: the first one clears old marks, each gets a node of its own. */
    method ParseBans(changes: seq<Change>) returns (ghost nodes: set<Ban>)
      requires Linked()
      modifies this`banlist, this`bans, this`items, bans
      ensures Linked() && items == ApplyAll(matcher, Clean(old(Bans())), changes)
      ensures fresh(nodes) && |nodes| == |changes|
      ensures |old(bans)| <= |bans| && bans[..|old(bans)|] == old(bans)
      ensures forall j :: |old(bans)| <= j < |bans| ==> bans[j] in nodes
    {
      hide Linked, ApplyAll;
      ghost var heap, list := bans, Bans();
      CleanMarks();
      nodes := {};
      NoChanges(list);
      var n := 0;
      while n < |changes|
        invariant n <= |changes| && Linked() && fresh(nodes) && |nodes| == n
        invariant items == ApplyAll(matcher, Clean(list), changes[..n])
        invariant |heap| <= |bans| && bans[..|heap|] == heap && forall j :: |heap| <= j < |bans| ==> bans[j] in nodes
      {
        var newban := new Ban(Item(changes[n].e, changes[n].AddBan?, changes[n].DelBan?, false));
        var _ := ApplyBan(newban);
        OneChange(list, changes, n);
        nodes := nodes + {newban};
        n := n + 1;
      }
      assert changes[..n] == changes;
    }

    lemma NoChanges(list: seq<Entry>)
      ensures ApplyAll(matcher, Clean(list), []) == Clean(list)
    {
    }

    lemma OneChange(list: seq<Entry>, changes: seq<Change>, n: nat)
      requires n < |changes|
      ensures ApplyAll(matcher, Clean(list), changes[..n + 1])
              == Apply(matcher, ApplyAll(matcher, Clean(list), changes[..n]), changes[n])
    {
      assert changes[..n + 1][..n] == changes[..n];
    }

    /**
     A MODE with these ban changes, applied to the channel; none of the nodes made while parsing stays in its
     list.
     */
    method ApplyMode(changes: seq<Change>, lim: Limits) returns (out: seq<Change>, ghost nodes: set<Ban>)
      requires Valid()
      modifies this`banlist, this`bans, this`items, bans, members
      ensures Valid()
      ensures changes != [] ==> Bans() == Installed(lim, ApplyAll(matcher, Clean(old(Bans())), changes))
      ensures changes != [] ==> out == Announced(lim, ApplyAll(matcher, Clean(old(Bans())), changes))
      ensures changes == [] ==> Bans() == old(Bans()) && out == []
      ensures Incomparable(matcher, old(Bans())) ==> Incomparable(matcher, Bans())
      ensures MatcherRight(matcher) ==>
              forall i :: 0 <= i < |changes| && Removes(changes, i) ==> changes[i].e !in Bans()
      ensures MatcherRight(matcher) && lim.Unlimited? && changes != [] && changes[|changes| - 1].AddBan? ==>
              exists x :: x in Bans() && Covers(matcher, x, changes[|changes| - 1].e)
      ensures MatcherRight(matcher) &&
              (forall i :: 0 <= i < |changes| ==> changes[i].AddBan? && changes[i].e in old(Bans())) ==>
              Bans() == old(Bans()) && out == []
      ensures fresh(nodes) && |nodes| == |changes|
      ensures forall b :: b in bans ==> b !in nodes && (b in old(bans) || fresh(b))
    {
      hide Banned, Incomparable, Installed, Announced, ApplyAll, MatcherRight, Covers;
      nodes := {};
      if changes == [] {
        return [], nodes;
      }
      ghost var heap, list := bans, Bans();
      nodes := ParseBans(changes);
      HeapPrefix(matcher, list, changes);
      out := ProcessBans(lim, |heap|);
      if out == [] {
        SilentMeansUnchanged(matcher, lim, list, changes);
      }
      if Incomparable(matcher, list) {
        InstalledIncomparable(matcher, lim, list, changes);
      }
      assert Bans() == Installed(lim, ApplyAll(matcher, Clean(list), changes));
      ModeMeans(lim, list, changes);
    }

    /** What the changes of a MODE mean for the bans they name. */
    lemma ModeMeans(lim: Limits, list: seq<Entry>, changes: seq<Change>)
      requires changes != []
      ensures var installed, out := Installed(lim, ApplyAll(matcher, Clean(list), changes)),
                Announced(lim, ApplyAll(matcher, Clean(list), changes));
              MatcherRight(matcher) ==>
                && (forall i :: 0 <= i < |changes| && Removes(changes, i) ==> changes[i].e !in installed)
                && (lim.Unlimited? && changes[|changes| - 1].AddBan? ==>
                  exists x :: x in installed && Covers(matcher, x, changes[|changes| - 1].e))
                && ((forall i :: 0 <= i < |changes| ==> changes[i].AddBan? && changes[i].e in list) ==>
                  installed == list && out == [])
    {
      hide *;
      if MatcherRight(matcher) {
        RemovedAreGone(matcher, lim, list, changes);
        if lim.Unlimited? && changes[|changes| - 1].AddBan? {
          LastAdditionCounts(matcher, list, changes);
        }
        if forall i :: 0 <= i < |changes| ==> changes[i].AddBan? && changes[i].e in list {
          ListedChangeNothing(matcher, lim, list, changes);
        }
      }
    }

    lemma StartPass(lim: Limits, g: Sweep, w: Walk)
      requires Linked() && g == Sweep(bans, items, g.h, 0, [], [], banlist) && g.h <= |g.s| &&
               w == WalkTo(lim, items, 0)
      ensures Passing(lim, g, w, null, banlist, 0, 0, [])
    {
    }

    ghost method EndPass(g: Sweep)
      requires Sweeping(g) && g.i == |g.s| && g.end == null
      modifies this`bans, this`items
      ensures Linked() && bans == g.list && items == Clean(g.built)
    {
      bans := g.list;
      items := Clean(g.built);
    }
  }

  /**
   The clean-up pass before node i of the list s that held was, the first h nodes of which are not the
   parser's: list is what the channel has by now, built its bans, and end the node the list still goes on to.
   */
  datatype Sweep = Sweep(s: seq<Ban>, was: seq<Item>, h: nat, i: nat, list: seq<Ban>, built: seq<Entry>, end: Ban?) {
    function Last(): Ban? {
      if list == [] then null else list[|list| - 1]
    }
  }
}
