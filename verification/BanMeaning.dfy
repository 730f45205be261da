/**
 What a ban means to users (ircd/channel.c), in terms of the texts and addresses it names: whom it bans, what it
 covers, that removing it removes it, and which additions the limits let in.
 */
module BanMeaning {
  import opened Options
  import opened Wildcards
  import opened BanList
  import opened BanSync

  // ----- whom a ban bans

  /** The address has the bits that the mask fixes. */
  predicate HasBits(ip: Cidr, addr: seq<bool>) {
    forall i :: 0 <= i < ip.bits && i < |addr| && i < |ip.addr| ==> addr[i] == ip.addr[i]
  }

  lemma BlockIsBits(ip: Cidr, addr: seq<bool>)
    requires |ip.addr| == |addr| == 128 && ip.bits <= 128
    ensures InBlock(ip, addr) <==> HasBits(ip, addr)
  {
    var a, b := addr[..ip.bits], ip.addr[..ip.bits];
    assert forall i :: 0 <= i < ip.bits ==> a[i] == addr[i] && b[i] == ip.addr[i];
    if HasBits(ip, addr) {
      assert a == b;
    }
  }

  /** The name and one of the places a client comes from. */
  predicate Hits(m: Mask, c: Client) {
    && Glob(Tokens(m.nu), c.nu)
    && (|| Glob(Tokens(m.host), c.host) || Glob(Tokens(m.host), c.ipText)
        || (c.alias.Some? && Glob(Tokens(m.host), c.alias.value))
        || (m.ip.Some? && HasBits(m.ip.value, c.addr)))
  }

  /** A single ban bans a client exactly if its user part and its host, address or alias are matched. */
  lemma OneBanBans(mt: Matcher, m: Mask, c: Client)
    requires MatcherRight(mt) && m.Valid() && |c.addr| == 128
    ensures Banned(mt, [Entry(m, false)], c) <==> Hits(m, c)
    ensures !Banned(mt, [Entry(m, true)], c)
  {
    hide Glob, Tokens, Sub;
    var e, x := Entry(m, false), Entry(m, true);
    BannedByMembers(mt, [e], c);
    BannedByMembers(mt, [x], c);
    assert e in [e];
    if m.ip.Some? {
      BlockIsBits(m.ip.value, c.addr);
    }
  }

  /** An exception lets through whom it hits, whatever bans there are; without one that does, one ban is enough. */
  lemma ListBans(mt: Matcher, list: seq<Entry>, c: Client)
    requires MatcherRight(mt) && |c.addr| == 128 && forall e :: e in list ==> e.mask.Valid()
    ensures Banned(mt, list, c) <==>
            (exists e :: e in list && !e.exception && Hits(e.mask, c)) &&
            !(exists e :: e in list && e.exception && Hits(e.mask, c))
  {
    forall e | e in list ensures Matches(mt, e, c) <==> Hits(e.mask, c) {
      EntryHits(mt, e, c);
    }
    hide MatcherRight, Matches, Hits;
    BannedByMembers(mt, list, c);
  }

  lemma EntryHits(mt: Matcher, e: Entry, c: Client)
    requires MatcherRight(mt) && e.mask.Valid() && |c.addr| == 128
    ensures Matches(mt, e, c) <==> Hits(e.mask, c)
  {
    hide Glob, Tokens, Sub;
    if e.mask.ip.Some? {
      BlockIsBits(e.mask.ip.value, c.addr);
    }
  }

  // ----- what a ban covers

  /** An address of the block with all bits set to b that the mask leaves free. */
  function Corner(ip: Cidr, b: bool): seq<bool>
    requires |ip.addr| == 128 && ip.bits <= 128
  {
    ip.addr[..ip.bits] + seq(128 - ip.bits, _ => b)
  }

  /** One block lies in another exactly if it fixes no fewer bits and agrees in those of the other. */
  lemma BlockWithinIff(o: Cidr, n: Cidr)
    requires |o.addr| == |n.addr| == 128 && o.bits <= 128 && n.bits <= 128
    ensures (forall addr :: |addr| == 128 && HasBits(n, addr) ==> HasBits(o, addr))
            <==> o.bits <= n.bits && Leading(n.addr, o.bits) == Leading(o.addr, o.bits)
  {
    BlockIsBits(o, n.addr);
    if o.bits <= n.bits && HasBits(o, n.addr) {
      forall addr | |addr| == 128 && HasBits(n, addr) ensures HasBits(o, addr) {
        forall i | 0 <= i < o.bits ensures addr[i] == o.addr[i] {
          assert addr[i] == n.addr[i];
        }
      }
    } else if n.bits < o.bits {
      var other := Corner(n, !o.addr[n.bits]);
      assert HasBits(n, other) && other[n.bits] != o.addr[n.bits];
    } else {
      assert HasBits(n, n.addr) && !HasBits(o, n.addr);
    }
  }

  /** Two address masks: one covers the other exactly if its block contains the other block and its texts cover. */
  lemma CoversIffBlocks(mt: Matcher, older: Entry, newer: Entry)
    requires older.mask.Valid() && newer.mask.Valid() && older.mask.ip.Some? && newer.mask.ip.Some?
    ensures Covers(mt, older, newer) <==>
            && (newer.exception ==> older.exception)
            && mt.covers(older.mask.nu, newer.mask.nu) && mt.covers(older.mask.Text(), newer.mask.Text())
            && forall addr :: |addr| == 128 && HasBits(newer.mask.ip.value, addr) ==> HasBits(older.mask.ip.value, addr)
  {
    BlockWithinIff(older.mask.ip.value, newer.mask.ip.value);
  }

  /** If one of the two is no address mask only the texts count; a ban never covers an exception. */
  lemma CoversIffTexts(mt: Matcher, older: Entry, newer: Entry)
    requires older.mask.ip.None? || newer.mask.ip.None?
    ensures Covers(mt, older, newer) <==>
            (newer.exception ==> older.exception) && mt.covers(older.mask.Text(), newer.mask.Text())
  {
  }

  /** Every ban covers itself. */
  lemma CoversSelf(mt: Matcher, e: Entry)
    requires MatcherRight(mt)
    ensures Covers(mt, e, e)
  {
    SubSelf(Tokens(e.mask.nu));
    SubSelf(Tokens(e.mask.Text()));
  }

  // ----- a removal removes, an addition adds

  /** A removal removes the ban it names. */
  lemma RemovalRemoves(mt: Matcher, list: seq<Entry>, e: Entry)
    requires MatcherRight(mt)
    ensures e !in Step(mt, list, DelBan(e))
  {
    CoversSelf(mt, e);
    PruneMembers(mt, list, e);
  }

  /** Adding a ban that is listed changes nothing. */
  lemma ListedIsRefused(mt: Matcher, list: seq<Entry>, e: Entry)
    requires MatcherRight(mt) && e in list
    ensures Step(mt, list, AddBan(e)) == list
  {
    CoversSelf(mt, e);
    var i :| 0 <= i < |list| && list[i] == e;
    assert CoveredBy(mt, list, e);
  }

  /** After an addition the ban, or one that covers it, is in the list. */
  lemma AddedIsCovered(mt: Matcher, list: seq<Entry>, e: Entry)
    requires MatcherRight(mt)
    ensures exists x :: x in Step(mt, list, AddBan(e)) && Covers(mt, x, e)
  {
    CoversSelf(mt, e);
    if CoveredBy(mt, list, e) {
      var i :| 0 <= i < |list| && Covers(mt, list[i], e);
      assert list[i] in list;
    } else {
      assert e in Step(mt, list, AddBan(e));
    }
  }

  /** Only an addition of this very ban brings it into the list. */
  lemma StepBrings(mt: Matcher, list: seq<Entry>, ch: Change, x: Entry)
    requires x in Step(mt, list, ch)
    ensures x in list || ch == AddBan(x)
  {
    PruneMembers(mt, list, ch.e);
  }

  /** Change number i removes a ban that no later change adds again. */
  predicate Removes(chs: seq<Change>, i: nat)
    requires i < |chs|
  {
    chs[i].DelBan? && forall j :: i < j < |chs| ==> chs[j] != AddBan(chs[i].e)
  }

  /** A ban that some change removed and no later one added again is gone. */
  lemma {:induction false} GoneStaysGone(mt: Matcher, list: seq<Entry>, chs: seq<Change>, i: nat)
    requires MatcherRight(mt) && i < |chs| && Removes(chs, i)
    ensures chs[i].e !in Steps(mt, list, chs)
  {
    var front, last := chs[..|chs| - 1], chs[|chs| - 1];
    if i == |front| {
      RemovalRemoves(mt, Steps(mt, list, front), last.e);
    } else {
      GoneStaysGone(mt, list, front, i);
      if chs[i].e in Steps(mt, list, chs) {
        StepBrings(mt, Steps(mt, list, front), last, chs[i].e);
      }
    }
  }

  lemma {:induction false} AcceptedMembers(lim: Limits, count: nat, len: nat, added: seq<Entry>)
    ensures forall x :: x in Accepted(lim, count, len, added) ==> x in added
    decreases |added|
  {
    if added != [] {
      var len' := len + |added[0].mask.Text()|;
      AcceptedMembers(lim, count + 1, len', added[1..]);
      AcceptedMembers(lim, count, len, added[1..]);
    }
  }

  /** What a MODE installs is among what its changes leave one by one. */
  lemma InstalledAmong(mt: Matcher, lim: Limits, list: seq<Entry>, chs: seq<Change>)
    ensures forall x :: x in Installed(lim, ApplyAll(mt, Clean(list), chs)) ==> x in Steps(mt, list, chs)
  {
    var items := ApplyAll(mt, Clean(list), chs);
    var added, kept := Select(items, true, false), Select(items, false, false);
    hide Select, ApplyAll, Steps, Clean, Accepted, TextLen, Reverse;
    BatchIsSequential(mt, list, chs);
    AcceptedMembers(lim, |kept|, TextLen(kept), added);
    ReverseMembers(AcceptedAdds(lim, items));
    ReverseMembers(added);
  }

  /** So the bans that a MODE removed, and did not add again, are gone whatever the limits. */
  lemma RemovedAreGone(mt: Matcher, lim: Limits, list: seq<Entry>, chs: seq<Change>)
    requires MatcherRight(mt)
    ensures forall i :: 0 <= i < |chs| && Removes(chs, i) ==>
            chs[i].e !in Installed(lim, ApplyAll(mt, Clean(list), chs))
  {
    hide Installed, Steps, ApplyAll, MatcherRight;
    InstalledAmong(mt, lim, list, chs);
    forall i | 0 <= i < |chs| && Removes(chs, i)
      ensures chs[i].e !in Installed(lim, ApplyAll(mt, Clean(list), chs))
    {
      GoneStaysGone(mt, list, chs, i);
    }
  }

  /** Additions of bans that are listed leave no mark. */
  lemma {:induction false} ListedLeaveNoMark(mt: Matcher, list: seq<Entry>, chs: seq<Change>)
    requires MatcherRight(mt) && forall i :: 0 <= i < |chs| ==> chs[i].AddBan? && chs[i].e in list
    ensures ApplyAll(mt, Clean(list), chs) == Clean(list)
  {
    if chs != [] {
      var front, e := chs[..|chs| - 1], chs[|chs| - 1].e;
      ListedLeaveNoMark(mt, list, front);
      CoversSelf(mt, e);
      var i :| 0 <= i < |list| && list[i] == e;
      assert Refused(mt, Clean(list), e) by {
        assert Clean(list)[i].entry == e && !Clean(list)[i].del;
      }
    }
  }

  /** So a MODE that adds only bans that are listed changes nothing and announces nothing. */
  lemma ListedChangeNothing(mt: Matcher, lim: Limits, list: seq<Entry>, chs: seq<Change>)
    requires MatcherRight(mt) && forall i :: 0 <= i < |chs| ==> chs[i].AddBan? && chs[i].e in list
    ensures Installed(lim, ApplyAll(mt, Clean(list), chs)) == list &&
            Announced(lim, ApplyAll(mt, Clean(list), chs)) == []
  {
    ListedLeaveNoMark(mt, list, chs);
    CleanResult(list);
    NoneAccepted(lim, Clean(list));
    assert Reverse<Entry>([]) + Select(Clean(list), false, false) == Select(Clean(list), false, false);
  }

  lemma NoneAccepted(lim: Limits, items: seq<Item>)
    requires Select(items, true, false) == []
    ensures AcceptedAdds(lim, items) == []
  {
  }

  /** Without limits the last addition of a MODE is in effect: the ban or one that covers it is installed. */
  lemma LastAdditionCounts(mt: Matcher, list: seq<Entry>, chs: seq<Change>)
    requires MatcherRight(mt) && chs != [] && chs[|chs| - 1].AddBan?
    ensures exists x :: x in Installed(Unlimited, ApplyAll(mt, Clean(list), chs)) && Covers(mt, x, chs[|chs| - 1].e)
  {
    hide MatcherRight, Covers, ApplyAll, Step, Select, Clean, TextLen;
    LimitedBatchIsSequentialIff(mt, Unlimited, list, chs);
    hide Installed;
    AddedIsCovered(mt, Steps(mt, list, chs[..|chs| - 1]), chs[|chs| - 1].e);
  }

  // ----- which additions the limits let in

  /**
   One addition more is let in exactly if, with what was let in before it, there are at most maxCount bans with at
   most maxLen characters, the limits themselves included; a refused one is not in the way of the next.
   */
  lemma {:induction false} OneMoreAccepted(maxCount: nat, maxLen: nat, count: nat, len: nat, added: seq<Entry>,
      e: Entry)
    ensures var lim := Limited(maxCount, maxLen);
            var before := Accepted(lim, count, len, added);
            Accepted(lim, count, len, added + [e])
            == before + if count + |before| + 1 <= maxCount &&
              len + TextLen(before) + |e.mask.Text()| <= maxLen then [e]
                        else []
    ensures Accepted(Unlimited, count, len, added + [e]) == Accepted(Unlimited, count, len, added) + [e]
    decreases |added|
  {
    if added == [] {
      assert added + [e] == [e] && [e][1..] == [];
    } else {
      assert (added + [e])[0] == added[0] && (added + [e])[1..] == added[1..] + [e];
      var len' := len + |added[0].mask.Text()|;
      OneMoreAccepted(maxCount, maxLen, count + 1, len', added[1..], e);
      OneMoreAccepted(maxCount, maxLen, count, len, added[1..], e);
    }
  }
}
