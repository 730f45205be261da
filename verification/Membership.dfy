/**
 The matrix of channels and users (struct Membership in include/channel.h): every membership is
 a node of two doubly linked lists, one per channel and one per user (ircd/channel.c).
 */
module Membership {
  import opened Sequences

  class Link {
    var user: User
    var channel: Channel
    var nextMember: Link?
    var prevMember: Link?
    var nextChannel: Link?
    var prevChannel: Link?
    var zombie: bool

    constructor (u: User, c: Channel)
      ensures user == u && channel == c && !zombie
    {
      user, channel := u, c;
      nextMember, prevMember, nextChannel, prevChannel := null, null, null, null;
      zombie := false;
    }
  }

  function At(s: seq<Link>, i: int): Link? {
    if 0 <= i < |s| then s[i] else null
  }

  ghost predicate Distinct(s: seq<Link>) {
    forall i, j :: 0 <= i < j < |s| ==> s[i] != s[j]
  }

  /** s without its node m. */
  function Minus(s: seq<Link>, m: Link): seq<Link> {
    if s == [] then [] else if s[0] == m then s[1..] else [s[0]] + Minus(s[1..], m)
  }

  lemma {:induction false} MinusIsWithout(s: seq<Link>, k: nat)
    requires k < |s| && Distinct(s)
    ensures Minus(s, s[k]) == Without(s, k)
  {
    if k > 0 {
      assert s[1..][k - 1] == s[k];
      MinusIsWithout(s[1..], k - 1);
      assert Without(s, k) == [s[0]] + Without(s[1..], k - 1);
    }
  }

  lemma {:induction false} MinusKeepsOthers(s: seq<Link>, m: Link)
    requires Distinct(s) && m in s
    ensures |Minus(s, m)| == |s| - 1
    ensures forall n :: n in Minus(s, m) <==> n in s && n != m
  {
    if s[0] == m {
      assert s == [s[0]] + s[1..];
    } else {
      assert s == [s[0]] + s[1..];
      MinusKeepsOthers(s[1..], m);
    }
  }

  class Channel {
    var members: Link?
    var users: nat
    var apass: bool
    ghost var nodes: seq<Link>

    constructor (apass: bool)
      ensures nodes == [] && members == null && users == 0 && this.apass == apass
    {
      members, users, nodes := null, 0, [];
      this.apass := apass;
    }

    ghost predicate Linked()
      reads this`members, this`nodes, nodes`nextMember, nodes`prevMember, nodes`channel
    {
      && members == At(nodes, 0)
      && (forall i {:trigger nodes[i].nextMember} :: 0 <= i < |nodes| ==> nodes[i].nextMember == At(nodes, i + 1))
      && (forall i {:trigger nodes[i].prevMember} :: 0 <= i < |nodes| ==> nodes[i].prevMember == At(nodes, i - 1))
      && (forall i :: 0 <= i < |nodes| ==> nodes[i].channel == this)
      && Distinct(nodes)
    }

    /** Walk the members for u. */
    method Find(u: User) returns (m: Link?)
      requires Linked()
      ensures m != null ==> m in nodes && m.user == u
      ensures m == null ==> forall n :: n in nodes ==> n.user != u
    {
      ghost var i := 0;
      m := members;
      while m != null
        invariant i <= |nodes| && m == At(nodes, i)
        invariant forall j :: 0 <= j < i ==> nodes[j].user != u
        decreases |nodes| - i
      {
        if m.user == u {
          return;
        }
        m := m.nextMember;
        i := i + 1;
      }
    }

    lemma UnlinkShrinks(k: nat)
      requires Linked() && k < |nodes|
      ensures Without(nodes, k) == Minus(nodes, nodes[k])
      ensures forall n :: n in nodes && n != nodes[k] ==> n in Without(nodes, k)
      ensures forall i :: 0 <= i < |nodes| - 1 ==> Without(nodes, k)[i] in nodes && Without(nodes, k)[i] != nodes[k]
    {
      MinusIsWithout(nodes, k);
      MinusKeepsOthers(nodes, nodes[k]);
    }

    method AllZombies() returns (all: bool)
      requires Linked()
      ensures all <==> forall n :: n in nodes ==> n.zombie
    {
      ghost var i := 0;
      var m := members;
      while m != null
        invariant i <= |nodes| && m == At(nodes, i)
        invariant forall j :: 0 <= j < i ==> nodes[j].zombie
        decreases |nodes| - i
      {
        if !m.zombie {
          return false;
        }
        m := m.nextMember;
        i := i + 1;
      }
      return true;
    }

    /** Link m in front of the members. */
    method Push(m: Link)
      requires Linked() && m !in nodes && m.channel == this
      modifies this`members, this`nodes, m`nextMember, m`prevMember, nodes`prevMember
      ensures Linked() && nodes == [m] + old(nodes)
    {
      m.nextMember := members;
      if m.nextMember != null {
        m.nextMember.prevMember := m;
      }
      m.prevMember := null;
      members := m;
      nodes := [m] + nodes;
    }

    /** Unlink m from the members. */
    method Unlink(m: Link, ghost k: nat)
      requires Linked() && k < |nodes| && nodes[k] == m
      modifies this`members, this`nodes, nodes`nextMember, nodes`prevMember
      ensures Linked() && nodes == Without(old(nodes), k)
    {
      Mend(m, k);
      hide LinkedPast;
      OthersInOrder(k);
      nodes := Without(nodes, k);
    }

    /** The neighbours of m are linked with each other. */
    method Mend(m: Link, ghost k: nat)
      requires Linked() && k < |nodes| && nodes[k] == m
      modifies this`members, nodes`nextMember, nodes`prevMember
      ensures LinkedPast(k) && members == At(Without(nodes, k), 0)
    {
      assert m.nextMember == At(nodes, k + 1) && m.prevMember == At(nodes, k - 1);
      if m.nextMember != null {
        m.nextMember.prevMember := m.prevMember;
      }
      if m.prevMember != null {
        m.prevMember.nextMember := m.nextMember;
      } else {
        members := m.nextMember;
      }
    }

    /** All nodes but number k are linked, past number k. */
    ghost predicate LinkedPast(k: nat)
      reads this`nodes, nodes`nextMember, nodes`prevMember
    {
      && (forall i {:trigger nodes[i].nextMember} :: 0 <= i < |nodes| && i != k ==>
            nodes[i].nextMember == At(nodes, if i + 1 == k then i + 2 else i + 1))
      && (forall i {:trigger nodes[i].prevMember} :: 0 <= i < |nodes| && i != k ==>
            nodes[i].prevMember == At(nodes, if i - 1 == k then i - 2 else i - 1))
    }

    lemma OthersInOrder(k: nat)
      requires k < |nodes| && LinkedPast(k) && Distinct(nodes) && forall i :: 0 <= i < |nodes| ==>
               nodes[i].channel == this
      ensures var s := Without(nodes, k);
              && (forall i {:trigger s[i].nextMember} :: 0 <= i < |s| ==> s[i].nextMember == At(s, i + 1))
              && (forall i {:trigger s[i].prevMember} :: 0 <= i < |s| ==> s[i].prevMember == At(s, i - 1))
              && Distinct(s) && forall i :: 0 <= i < |s| ==> s[i].channel == this
    {
      var s := Without(nodes, k);
      assert forall i :: 0 <= i < |s| ==> s[i] == if i < k then nodes[i] else nodes[i + 1];
    }
  }

  class User {
    const service: bool
    var channel: Link?
    var joined: nat
    ghost var nodes: seq<Link>

    constructor (service: bool)
      ensures nodes == [] && channel == null && joined == 0 && this.service == service
    {
      this.service := service;
      channel, joined, nodes := null, 0, [];
    }

    ghost predicate Linked()
      reads this`channel, this`nodes, nodes`nextChannel, nodes`prevChannel, nodes`user
    {
      && channel == At(nodes, 0)
      && (forall i {:trigger nodes[i].nextChannel} :: 0 <= i < |nodes| ==> nodes[i].nextChannel == At(nodes, i + 1))
      && (forall i {:trigger nodes[i].prevChannel} :: 0 <= i < |nodes| ==> nodes[i].prevChannel == At(nodes, i - 1))
      && (forall i :: 0 <= i < |nodes| ==> nodes[i].user == this)
      && Distinct(nodes)
    }

    /** Walk the channels of the user for c. */
    method Find(c: Channel) returns (m: Link?)
      requires Linked()
      ensures m != null ==> m in nodes && m.channel == c
      ensures m == null ==> forall n :: n in nodes ==> n.channel != c
    {
      ghost var i := 0;
      m := channel;
      while m != null
        invariant i <= |nodes| && m == At(nodes, i)
        invariant forall j :: 0 <= j < i ==> nodes[j].channel != c
        decreases |nodes| - i
      {
        if m.channel == c {
          return;
        }
        m := m.nextChannel;
        i := i + 1;
      }
    }

    lemma UnlinkShrinks(k: nat)
      requires Linked() && k < |nodes|
      ensures Without(nodes, k) == Minus(nodes, nodes[k])
      ensures forall n :: n in nodes && n != nodes[k] ==> n in Without(nodes, k)
      ensures forall i :: 0 <= i < |nodes| - 1 ==> Without(nodes, k)[i] in nodes && Without(nodes, k)[i] != nodes[k]
    {
      MinusIsWithout(nodes, k);
      MinusKeepsOthers(nodes, nodes[k]);
    }

    method Push(m: Link)
      requires Linked() && m !in nodes && m.user == this
      modifies this`channel, this`nodes, m`nextChannel, m`prevChannel, nodes`prevChannel
      ensures Linked() && nodes == [m] + old(nodes)
    {
      m.nextChannel := channel;
      if m.nextChannel != null {
        m.nextChannel.prevChannel := m;
      }
      m.prevChannel := null;
      channel := m;
      nodes := [m] + nodes;
    }

    method Unlink(m: Link, ghost k: nat)
      requires Linked() && k < |nodes| && nodes[k] == m
      modifies this`channel, this`nodes, nodes`nextChannel, nodes`prevChannel
      ensures Linked() && nodes == Without(old(nodes), k)
    {
      Mend(m, k);
      hide LinkedPast;
      OthersInOrder(k);
      nodes := Without(nodes, k);
    }

    /** The neighbours of m are linked with each other. */
    method Mend(m: Link, ghost k: nat)
      requires Linked() && k < |nodes| && nodes[k] == m
      modifies this`channel, nodes`nextChannel, nodes`prevChannel
      ensures LinkedPast(k) && channel == At(Without(nodes, k), 0)
    {
      assert m.nextChannel == At(nodes, k + 1) && m.prevChannel == At(nodes, k - 1);
      if m.nextChannel != null {
        m.nextChannel.prevChannel := m.prevChannel;
      }
      if m.prevChannel != null {
        m.prevChannel.nextChannel := m.nextChannel;
      } else {
        channel := m.nextChannel;
      }
    }

    /** All nodes but number k are linked, past number k. */
    ghost predicate LinkedPast(k: nat)
      reads this`nodes, nodes`nextChannel, nodes`prevChannel
    {
      && (forall i {:trigger nodes[i].nextChannel} :: 0 <= i < |nodes| && i != k ==>
            nodes[i].nextChannel == At(nodes, if i + 1 == k then i + 2 else i + 1))
      && (forall i {:trigger nodes[i].prevChannel} :: 0 <= i < |nodes| && i != k ==>
            nodes[i].prevChannel == At(nodes, if i - 1 == k then i - 2 else i - 1))
    }

    lemma OthersInOrder(k: nat)
      requires k < |nodes| && LinkedPast(k) && Distinct(nodes) && forall i :: 0 <= i < |nodes| ==> nodes[i].user == this
      ensures var s := Without(nodes, k);
              && (forall i {:trigger s[i].nextChannel} :: 0 <= i < |s| ==> s[i].nextChannel == At(s, i + 1))
              && (forall i {:trigger s[i].prevChannel} :: 0 <= i < |s| ==> s[i].prevChannel == At(s, i - 1))
              && Distinct(s) && forall i :: 0 <= i < |s| ==> s[i].user == this
    {
      var s := Without(nodes, k);
      assert forall i :: 0 <= i < |s| ==> s[i] == if i < k then nodes[i] else nodes[i + 1];
    }
  }

  class Matrix {
    const opLevels: bool
    var freeList: Link?
    ghost var channels: set<Channel>
    ghost var users: set<User>
    ghost var onChannels: set<Link>  // nodes on the list of a channel
    ghost var onUsers: set<Link>     // nodes on the list of a user
    ghost var chain: seq<Link>       // the free list in order
    ghost var free: set<Link>        // and its nodes

    constructor (opLevels: bool)
      ensures Valid() && Healthy() && channels == {} && users == {}
    {
      this.opLevels := opLevels;
      freeList, chain, free := null, [], {};
      channels, users, onChannels, onUsers := {}, {}, {}, {};
    }

    ghost predicate ChannelsRight()
      reads this`channels, this`onChannels, channels`members, channels`nodes, onChannels`nextMember,
            onChannels`prevMember, onChannels`channel
    {
      && (forall c, i :: c in channels && 0 <= i < |c.nodes| ==> c.nodes[i] in onChannels && c.nodes[i].channel == c)
      && (forall c :: c in channels ==> c.Linked())
      && (forall m :: m in onChannels ==> m.channel in channels && m in m.channel.nodes)
    }

    ghost predicate UsersRight()
      reads this`users, this`onUsers, users`channel, users`nodes, onUsers`nextChannel, onUsers`prevChannel, onUsers`user
    {
      && (forall u, i :: u in users && 0 <= i < |u.nodes| ==> u.nodes[i] in onUsers && u.nodes[i].user == u)
      && (forall u :: u in users ==> u.Linked())
      && (forall m :: m in onUsers ==> m.user in users && m in m.user.nodes)
    }

    /** No user is on a channel twice. */
    ghost predicate Single()
      reads this`onChannels, onChannels`user, onChannels`channel
    {
      forall m, n :: m in onChannels && n in onChannels && m != n ==> m.user != n.user || m.channel != n.channel
    }

    /** The free list holds nodes that are on no other list. */
    ghost predicate FreeRight()
      reads this`free, this`chain, this`freeList, this`onChannels, this`onUsers, free`nextMember
    {
      && (forall i :: 0 <= i < |chain| ==> chain[i] in free)
      && freeList == At(chain, 0)
      && (forall i {:trigger chain[i].nextMember} :: 0 <= i < |chain| ==> chain[i].nextMember == At(chain, i + 1))
      && Distinct(chain)
      && free !! onChannels && free !! onUsers
    }

    ghost predicate Counted()
      reads this`channels, channels`users, channels`nodes, this`users, users`joined, users`nodes
    {
      && (forall c :: c in channels ==> c.users == |c.nodes|)
      && (forall u :: u in users ==> u.joined == |u.nodes|)
    }

    /** Between operations every node is on both lists or on neither. */
    ghost predicate Valid()
      reads this, channels`members, channels`nodes, channels`users, users`channel, users`nodes, users`joined
      reads onChannels`nextMember, onChannels`prevMember, onChannels`channel, onChannels`user
      reads onUsers`nextChannel, onUsers`prevChannel, onUsers`user, free`nextMember
    {
      ChannelsRight() && UsersRight() && Counted() && Single() && FreeRight() && onChannels == onUsers
    }

    ghost predicate On(u: User, c: Channel)
      reads this`onChannels, onChannels`user, onChannels`channel
    {
      exists m :: m in onChannels && m.user == u && m.channel == c
    }

    /** Everybody on c but u is a zombie. */
    ghost predicate Deserted(u: User, c: Channel)
      reads this`onChannels, onChannels`user, onChannels`channel, onChannels`zombie
    {
      forall m :: m in onChannels && m.channel == c && m.user != u ==> m.zombie
    }

    /** c has no members, or one that is not a zombie. */
    ghost predicate Alive(c: Channel)
      reads this`onChannels, onChannels`channel, onChannels`zombie
    {
      (exists m :: m in onChannels && m.channel == c) ==> exists m :: m in onChannels && m.channel == c && !m.zombie
    }

    /** The memberships left after u has left c: a channel with only zombies comes to its end. */
    ghost function LeftAfter(u: User, c: Channel): set<Link>
      reads this`onChannels, onChannels`user, onChannels`channel, onChannels`zombie
    {
      if !On(u, c) then onChannels
      else if Deserted(u, c) then set n | n in onChannels && n.channel != c
      else set n | n in onChannels && (n.channel != c || n.user != u)
    }

    /**
     Who is left after u has left c: nothing changes if u was not there; only u goes if somebody else is more than
     a zombie; otherwise all go.
     */
    lemma LeavingMeans(u: User, c: Channel)
      ensures var there := exists m :: m in onChannels && m.channel == c && m.user == u;
              var alive := exists m :: m in onChannels && m.channel == c && m.user != u && !m.zombie;
              LeftAfter(u, c) == set n | n in onChannels && (n.channel == c && there ==> alive && n.user != u)
    {
    }

    /** The memberships left after u has left all its channels that are in done. */
    ghost function LeftAfterAll(u: User, done: set<Channel>): set<Link>
      reads this`onChannels, onChannels`user, onChannels`channel, onChannels`zombie
    {
      set n | n in onChannels && (n.channel in done ==> n.user != u && !Deserted(u, n.channel))
    }

    ghost predicate Healthy()
      reads this`channels, this`onChannels, onChannels`channel, onChannels`zombie
    {
      forall c :: c in channels ==> Alive(c)
    }

    lemma SinglePair(m: Link)
      requires Valid() && m in onChannels
      ensures forall n :: n in onChannels && n.channel == m.channel && n.user == m.user ==> n == m
    {
    }

    /** find_member_link: channel services walk the channel, everybody else their own channels. */
    method FindMemberLink(c: Channel, u: User) returns (m: Link?)
      requires Valid() && c in channels && u in users
      ensures m != null ==> m in onChannels && m.channel == c && m.user == u
      ensures m != null ==> forall n :: n in onChannels && n.channel == c && n.user == u ==> n == m
      ensures m == null ==> forall n :: n in onChannels ==> n.channel != c || n.user != u
    {
      if u.service {
        m := c.Find(u);
      } else {
        m := u.Find(c);
      }
      if m != null {
        SinglePair(m);
      }
    }

    /** The lists of the other channels do not feel a change of c's list. */
    twostate lemma OthersLinked(c: Channel)
      requires old(ChannelsRight()) && c in old(channels)
      requires forall d :: d in old(channels) && d != c ==> unchanged(d`members, d`nodes)
      requires forall n :: n in old(onChannels) && n !in old(c.nodes) ==>
               unchanged(n`nextMember, n`prevMember, n`channel)
      ensures forall d :: d in old(channels) && d != c ==> d.Linked()
    {
      assert old(c.Linked());
      forall d | d in old(channels) && d != c ensures d.Linked() {
        assert old(d.Linked());
        forall n | n in d.nodes ensures n !in old(c.nodes) {
          assert old(n.channel) == d;
        }
      }
    }

    /** The channel's half of a new membership. */
    method JoinChannel(c: Channel, m: Link)
      requires ChannelsRight() && c in channels && m !in onChannels && m.channel == c
      modifies this`onChannels, c`members, c`nodes, c`users, m`nextMember, m`prevMember, c.nodes`prevMember
      ensures ChannelsRight() && c.nodes == [m] + old(c.nodes) && c.users == old(c.users) + 1 &&
              onChannels == old(onChannels) + {m}
    {
      hide Channel.Linked;
      c.Push(m);
      c.users := c.users + 1;
      onChannels := onChannels + {m};
      OthersLinked(c);
    }

    twostate lemma OthersLinkedUser(u: User)
      requires old(UsersRight()) && u in old(users)
      requires forall v :: v in old(users) && v != u ==> unchanged(v`channel, v`nodes)
      requires forall n :: n in old(onUsers) && n !in old(u.nodes) ==> unchanged(n`nextChannel, n`prevChannel, n`user)
      ensures forall v :: v in old(users) && v != u ==> v.Linked()
    {
      assert old(u.Linked());
      forall v | v in old(users) && v != u ensures v.Linked() {
        assert old(v.Linked());
        forall n | n in v.nodes ensures n !in old(u.nodes) {
          assert old(n.user) == v;
        }
      }
    }

    /** The user's half of a new membership. */
    method JoinUser(u: User, m: Link)
      requires UsersRight() && u in users && m !in onUsers && m.user == u
      modifies this`onUsers, u`channel, u`nodes, u`joined, m`nextChannel, m`prevChannel, u.nodes`prevChannel
      ensures UsersRight() && u.nodes == [m] + old(u.nodes) && u.joined == old(u.joined) + 1 &&
              onUsers == old(onUsers) + {m}
    {
      hide User.Linked;
      u.Push(m);
      u.joined := u.joined + 1;
      onUsers := onUsers + {m};
      OthersLinkedUser(u);
    }

    twostate lemma ChannelsKept()
      requires old(ChannelsRight()) && unchanged(this`channels, this`onChannels)
      requires forall c :: c in channels ==> unchanged(c`members, c`nodes)
      requires forall n :: n in onChannels ==> unchanged(n`nextMember, n`prevMember, n`channel)
      ensures ChannelsRight()
    {
    }

    twostate lemma UsersKept()
      requires old(UsersRight()) && unchanged(this`users, this`onUsers)
      requires forall u :: u in users ==> unchanged(u`channel, u`nodes)
      requires forall n :: n in onUsers ==> unchanged(n`nextChannel, n`prevChannel, n`user)
      ensures UsersRight()
    {
    }

    twostate lemma FreeKept()
      requires old(FreeRight()) && unchanged(this`free, this`chain, this`freeList) && free !! onChannels &&
               free !! onUsers
      requires forall n :: n in free ==> unchanged(n`nextMember)
      ensures FreeRight()
    {
    }

    twostate lemma CountedAfterJoin(c: Channel, new u: User)
      requires old(Counted()) && unchanged(this`channels, this`users) && c in channels && u in old(users)
      requires forall d :: d in channels && d != c ==> unchanged(d`users, d`nodes)
      requires forall v :: v in users && v != u ==> unchanged(v`joined, v`nodes)
      requires c.users == old(c.users) + 1 && |c.nodes| == |old(c.nodes)| + 1
      requires u.joined == old(u.joined) + 1 && |u.nodes| == |old(u.nodes)| + 1
      ensures Counted()
    {
    }

    twostate lemma SingleGrows(new m: Link)
      requires old(Single()) && onChannels == old(onChannels) + {m}
      requires forall n :: n in old(onChannels) ==>
               unchanged(n`user, n`channel) && (n.channel != m.channel || n.user != m.user)
      ensures Single()
    {
    }

    twostate lemma ChannelAdded(new c: Channel)
      requires old(ChannelsRight()) && unchanged(this`onChannels) && channels == old(channels) + {c}
      requires c !in old(channels) && c.nodes == [] && c.members == null
      requires forall d :: d in old(channels) ==> unchanged(d`members, d`nodes)
      requires forall n :: n in onChannels ==> unchanged(n`nextMember, n`prevMember, n`channel)
      ensures ChannelsRight()
    {
    }

    twostate lemma UserAdded(new u: User)
      requires old(UsersRight()) && unchanged(this`onUsers) && users == old(users) + {u}
      requires u !in old(users) && u.nodes == [] && u.channel == null
      requires forall v :: v in old(users) ==> unchanged(v`channel, v`nodes)
      requires forall n :: n in onUsers ==> unchanged(n`nextChannel, n`prevChannel, n`user)
      ensures UsersRight()
    {
    }

    twostate lemma CountedAfterAdding()
      requires old(Counted()) && old(channels) <= channels && old(users) <= users
      requires forall c :: c in channels ==> if c in old(channels) then unchanged(c`users, c`nodes)
               else c.users == |c.nodes|
      requires forall u :: u in users ==> if u in old(users) then unchanged(u`joined, u`nodes)
               else u.joined == |u.nodes|
      ensures Counted()
    {
    }

    /** A new channel, nobody is on it yet. */
    method NewChannel(apass: bool) returns (c: Channel)
      requires Valid() && Healthy()
      modifies this`channels
      ensures Valid() && Healthy() && fresh(c) && channels == old(channels) + {c} && c.nodes == [] && c.apass == apass
    {
      hide ChannelsRight, UsersRight, Counted, Single, FreeRight;
      c := new Channel(apass);
      channels := channels + {c};
      ChannelAdded(c);
      CountedAfterAdding();
    }

    method NewUser(service: bool) returns (u: User)
      requires Valid() && Healthy()
      modifies this`users
      ensures Valid() && Healthy() && fresh(u) && users == old(users) + {u} && u.nodes == [] && u.service == service
    {
      hide ChannelsRight, UsersRight, Counted, Single, FreeRight;
      u := new User(service);
      users := users + {u};
      UserAdded(u);
      CountedAfterAdding();
    }

    /** A node for a new membership, from the free list if there is one. */
    method Alloc(u: User, c: Channel) returns (m: Link)
      requires Valid()
      modifies this`freeList, this`free, this`chain, free`user, free`channel, free`zombie
      ensures Valid() && m !in free && m !in onChannels && free !! onChannels
      ensures m.user == u && m.channel == c && !m.zombie
      ensures if old(freeList) != null then m == old(freeList) && m in old(free) && free == old(free) - {m}
              else fresh(m) && free == old(free)
    {
      hide ChannelsRight, UsersRight;
      if freeList != null {
        m := freeList;
        assert m == chain[0] && m.nextMember == At(chain, 1);
        freeList := m.nextMember;
        chain := chain[1..];
        free := free - {m};
        m.user, m.channel, m.zombie := u, c, false;
      } else {
        m := new Link(u, c);
      }
      ChannelsKept();
      UsersKept();
    }

    twostate lemma JoinIsHealthy(new m: Link)
      requires old(Healthy()) && unchanged(this`channels) && onChannels == old(onChannels) + {m} && !m.zombie
      requires forall n :: n in old(onChannels) ==> unchanged(n`channel, n`zombie)
      ensures Healthy()
    {
    }

    /** add_user_to_channel: the caller has made sure that u is not on c. */
    method AddUserToChannel(c: Channel, u: User) returns (m: Link)
      requires Valid() && Healthy() && c in channels && u in users
      requires forall n :: n in onChannels ==> n.channel != c || n.user != u
      modifies this`freeList, this`free, this`chain, free`user, free`channel, free`zombie
      modifies this`onChannels, c`members, c`nodes, c`users, free`nextMember, free`prevMember, c.nodes`prevMember
      modifies this`onUsers, u`channel, u`nodes, u`joined, free`nextChannel, free`prevChannel, u.nodes`prevChannel
      ensures Valid() && m !in old(onChannels) && onChannels == old(onChannels) + {m}
      ensures m.user == u && m.channel == c && !m.zombie
      ensures c.nodes == [m] + old(c.nodes) && u.nodes == [m] + old(u.nodes)
      ensures Healthy()
    {
      hide Valid, Healthy;
      m := Alloc(u, c);
      Enter(c, u, m);
      JoinIsHealthy(m);
    }

    /** Both lists gain the new node. */
    method Enter(c: Channel, u: User, m: Link)
      requires Valid() && c in channels && u in users && m !in free && m !in onChannels && m.user == u && m.channel == c
      requires free !! onChannels && forall n :: n in onChannels ==> n.channel != c || n.user != u
      modifies this`onChannels, c`members, c`nodes, c`users, m`nextMember, m`prevMember, c.nodes`prevMember
      modifies this`onUsers, u`channel, u`nodes, u`joined, m`nextChannel, m`prevChannel, u.nodes`prevChannel
      ensures Valid() && onChannels == old(onChannels) + {m}
      ensures c.nodes == [m] + old(c.nodes) && u.nodes == [m] + old(u.nodes)
    {
      hide ChannelsRight, UsersRight, Counted, Single, FreeRight;
      label A:
      JoinChannel(c, m);
      UsersKept@A();
      label B:
      JoinUser(u, m);
      ChannelsKept@B();
      CountedAfterJoin@A(c, u);
      FreeKept@A();
      SingleGrows@A(m);
    }

    /** The channel's half of a removal. */
    method LeaveChannel(m: Link)
      requires ChannelsRight() && m in onChannels
      modifies this`onChannels, m.channel`members, m.channel`nodes, m.channel.nodes`nextMember,
               m.channel.nodes`prevMember
      ensures ChannelsRight() && onChannels == old(onChannels) - {m}
      ensures m.channel.nodes == Minus(old(m.channel.nodes), m)
      ensures |m.channel.nodes| == |old(m.channel.nodes)| - 1
      ensures forall n :: n in onChannels && n.channel == m.channel ==> n in m.channel.nodes
    {
      hide Channel.Linked, Minus;
      ghost var c := m.channel;
      ghost var k :| 0 <= k < |c.nodes| && c.nodes[k] == m;
      c.UnlinkShrinks(k);
      m.channel.Unlink(m, k);
      onChannels := onChannels - {m};
      OthersLinked(c);
    }

    /** The user's half of a removal. */
    method LeaveUser(m: Link)
      requires UsersRight() && m in onUsers && m.user.joined == |m.user.nodes|
      modifies this`onUsers, m.user`channel, m.user`nodes, m.user`joined, m.user.nodes`nextChannel,
               m.user.nodes`prevChannel
      ensures UsersRight() && onUsers == old(onUsers) - {m}
      ensures m.user.nodes == Minus(old(m.user.nodes), m)
      ensures m.user.joined == |m.user.nodes| == |old(m.user.nodes)| - 1
    {
      hide User.Linked, Minus;
      ghost var u := m.user;
      ghost var k :| 0 <= k < |u.nodes| && u.nodes[k] == m;
      u.UnlinkShrinks(k);
      m.user.Unlink(m, k);
      m.user.joined := m.user.joined - 1;
      onUsers := onUsers - {m};
      OthersLinkedUser(u);
    }

    /** Put a node that left both lists on the free list. */
    method Release(m: Link)
      requires FreeRight() && m !in free && m !in onChannels && m !in onUsers
      modifies this`freeList, this`chain, this`free, m`nextMember
      ensures FreeRight() && free == old(free) + {m}
    {
      m.nextMember := freeList;
      freeList := m;
      chain := [m] + chain;
      free := free + {m};
    }

    /** sub1_from_channel: an empty channel without Apass is destroyed at once unless oplevels are in use. */
    method Sub1FromChannel(c: Channel) returns (more: bool)
      requires ChannelsRight() && c in channels && c.users == |c.nodes| + 1
      modifies this`channels, c`users
      ensures ChannelsRight() && c.users == |c.nodes|
      ensures more <==> c.nodes != []
      ensures channels == if c.nodes == [] && !c.apass && !opLevels then old(channels) - {c} else old(channels)
    {
      hide Channel.Linked;
      if c.users > 1 {
        c.users := c.users - 1;
        return true;
      }
      c.users := 0;
      if !c.apass && !opLevels {
        channels := channels - {c};
      }
      return false;
    }

    twostate lemma CountedAfterLeave(c: Channel, new u: User)
      requires old(Counted()) && c in old(channels) && u in old(users) && users == old(users)
      requires channels == old(channels) || channels == old(channels) - {c}
      requires forall d :: d in old(channels) && d != c ==> unchanged(d`users, d`nodes)
      requires forall v :: v in old(users) && v != u ==> unchanged(v`joined, v`nodes)
      requires c.users == |c.nodes| && u.joined == |u.nodes|
      ensures Counted()
    {
    }

    twostate lemma SingleShrinks()
      requires old(Single()) && onChannels <= old(onChannels)
      requires forall n :: n in onChannels ==> unchanged(n`user, n`channel)
      ensures Single()
    {
    }

    lemma ListedNode(m: Link)
      requires Valid() && m in onChannels
      ensures m !in free && m.channel in channels && m.user in users && m in m.channel.nodes && m in m.user.nodes
      ensures m.channel.users == |m.channel.nodes| && m.user.joined == |m.user.nodes|
      ensures free !! onUsers && forall n :: n in m.channel.nodes ==> n !in free
      ensures forall n :: n in m.user.nodes ==> n in onChannels
    {
    }

    /** remove_member_from_channel. */
    method RemoveMember(m: Link) returns (more: bool)
      requires Valid() && m in onChannels
      modifies this`onChannels, m.channel`members, m.channel`nodes, m.channel.nodes`nextMember,
               m.channel.nodes`prevMember
      modifies this`onUsers, m.user`channel, m.user`nodes, m.user`joined, m.user.nodes`nextChannel,
               m.user.nodes`prevChannel
      modifies this`freeList, this`chain, this`free, m`nextMember, this`channels, m.channel`users
      ensures Valid() && onChannels == old(onChannels) - {m} && free == old(free) + {m}
      ensures m.channel.nodes == Minus(old(m.channel.nodes), m) && m.user.nodes == Minus(old(m.user.nodes), m)
      ensures forall n :: n in onChannels && n.channel == m.channel ==> n in m.channel.nodes
      ensures more <==> m.channel.nodes != []
      ensures channels == if !more && !m.channel.apass && !opLevels then old(channels) - {m.channel} else old(channels)
    {
      hide ChannelsRight, UsersRight, Counted, Single, FreeRight, Minus;
      assert Valid();
      ListedNode(m);
      Detach(m);
      label B:
      Release(m);
      ChannelsKept@B();
      UsersKept@B();
      label C:
      more := Sub1FromChannel(m.channel);
      UsersKept@C();
      CountedAfterLeave(m.channel, m.user);
      SingleShrinks();
      FreeKept@C();
    }

    /** The node leaves both lists. */
    method Detach(m: Link)
      requires Valid() && m in onChannels
      modifies this`onChannels, m.channel`members, m.channel`nodes, m.channel.nodes`nextMember,
               m.channel.nodes`prevMember
      modifies this`onUsers, m.user`channel, m.user`nodes, m.user`joined, m.user.nodes`nextChannel,
               m.user.nodes`prevChannel
      ensures ChannelsRight() && UsersRight() && FreeRight() && onChannels == onUsers == old(onChannels) - {m}
      ensures m.channel.nodes == Minus(old(m.channel.nodes), m) && m.user.nodes == Minus(old(m.user.nodes), m)
      ensures |m.channel.nodes| == |old(m.channel.nodes)| - 1 && m.user.joined == |m.user.nodes|
      ensures forall n :: n in onChannels && n.channel == m.channel ==> n in m.channel.nodes
    {
      hide ChannelsRight, UsersRight, Counted, Single, FreeRight, Minus;
      assert Valid();
      ListedNode(m);
      LeaveChannel(m);
      UsersKept();
      label A:
      LeaveUser(m);
      ChannelsKept@A();
      FreeKept();
    }

    /** The first node of a channel that is not empty. */
    lemma FirstMember(c: Channel)
      requires Valid() && c in channels
      ensures c.members == At(c.nodes, 0) && c.Linked()
      ensures forall n :: n in c.nodes <==> n in onChannels && n.channel == c
      ensures forall n :: n in onChannels ==> n.channel in channels
    {
    }

    /** Remove one member after the other until the channel is empty; it is not read after that. */
    method RemoveEveryone(c: Channel)
      requires Valid() && c in channels && c.nodes != []
      modifies this`onChannels, this`onUsers, this`freeList, this`chain, this`free, this`channels
      modifies c`members, c`nodes, c`users, users`channel, users`nodes, users`joined
      modifies onChannels`nextMember, onChannels`prevMember, onChannels`nextChannel, onChannels`prevChannel
      ensures Valid() && c.nodes == []
      ensures onChannels == set n | n in old(onChannels) && n.channel != c
      ensures channels == if !c.apass && !opLevels then old(channels) - {c} else old(channels)
    {
      hide Valid, Minus, Channel.Linked;
      FirstMember(c);
      var more := true;
      while more
        invariant Valid() && onChannels <= old(onChannels)
        invariant forall n :: n in old(onChannels) && n.channel != c ==> n in onChannels
        invariant forall n :: n in onChannels && n.channel == c ==> n in c.nodes
        invariant more <==> c.nodes != []
        invariant channels == if !more && !c.apass && !opLevels then old(channels) - {c} else old(channels)
        decreases onChannels, more
      {
        FirstMember(c);
        var m := c.members;
        assert m == c.nodes[0];
        ListedNode(m);
        more := RemoveMember(m);
      }
    }

    /** channel_all_zombies. */
    method ChannelAllZombies(c: Channel) returns (all: bool)
      requires Valid() && c in channels
      ensures all <==> forall n :: n in onChannels && n.channel == c ==> n.zombie
    {
      hide Valid, Channel.Linked;
      FirstMember(c);
      all := c.AllZombies();
    }

    /** remove_user_from_channel, with the end of a channel on which only zombies are left. */
    method RemoveUserFromChannel(u: User, c: Channel)
      requires Valid() && c in channels && u in users
      modifies this`onChannels, this`onUsers, this`freeList, this`chain, this`free, this`channels
      modifies c`members, c`nodes, c`users, users`channel, users`nodes, users`joined
      modifies onChannels`nextMember, onChannels`prevMember, onChannels`nextChannel, onChannels`prevChannel
      ensures Valid()
      ensures onChannels == old(LeftAfter(u, c))
      ensures channels == if old(On(u, c) && Deserted(u, c)) && !c.apass && !opLevels then old(channels) - {c}
              else old(channels)
    {
      hide Valid, Minus, Channel.Linked, User.Linked;
      FirstMember(c);
      var m := FindMemberLink(c, u);
      if m != null {
        ListedNode(m);
        SinglePair(m);
        var more := RemoveMember(m);
        if more {
          var all := ChannelAllZombies(c);
          if all {
            RemoveEveryone(c);
          }
        }
      }
    }

    /** The first channel of a user. */
    lemma FirstChannel(u: User)
      requires Valid() && u in users
      ensures u.channel == At(u.nodes, 0) && u.joined == |u.nodes|
      ensures forall n :: n in u.nodes <==> n in onChannels && n.user == u
      ensures forall n :: n in onChannels ==> n.channel in channels
    {
    }

    /** Losing u leaves no channel with only zombies. */
    twostate lemma RemovalIsHealthy(u: User, new c: Channel)
      requires c in old(channels) && channels <= old(channels)
      requires onChannels == old(LeftAfter(u, c))
      requires forall n :: n in old(onChannels) ==> unchanged(n`user, n`channel, n`zombie)
      requires old(On(u, c)) && forall d :: d in old(channels) && d != c ==> old(Alive(d))
      ensures Healthy()
    {
      forall d | d in channels && exists n :: n in onChannels && n.channel == d ensures Alive(d) {
        if d == c {
          var o :| o in old(onChannels) && old(o.channel) == c && old(o.user) != u && !old(o.zombie);
          assert o in onChannels && !o.zombie;
        } else {
          var o :| o in old(onChannels) && old(o.channel) == d && !old(o.zombie);
          assert o in onChannels && !o.zombie;
        }
      }
    }

    twostate lemma OneMoreChannel(u: User, new c: Channel, new done: set<Channel>)
      requires c in old(channels) && done <= old(channels) && c !in done && On(u, c)
      requires onChannels == old(LeftAfterAll(u, done))
      requires forall n :: n in old(onChannels) ==> unchanged(n`user, n`channel, n`zombie)
      ensures LeftAfter(u, c) == old(LeftAfterAll(u, done + {c}))
    {
      forall m | m in old(onChannels) && old(m.channel) == c ensures m in onChannels {
        assert m in old(LeftAfterAll(u, done));
      }
      assert Deserted(u, c) <==> old(Deserted(u, c)) by {
        if old(Deserted(u, c)) {
          forall m | m in onChannels && m.channel == c && m.user != u ensures m.zombie {
            assert m in old(onChannels);
          }
        }
      }
    }

    /** remove_user_from_all_channels. */
    method RemoveUserFromAllChannels(u: User)
      requires Valid() && u in users
      modifies this`onChannels, this`onUsers, this`freeList, this`chain, this`free, this`channels
      modifies channels`members, channels`nodes, channels`users, users`channel, users`nodes, users`joined
      modifies onChannels`nextMember, onChannels`prevMember, onChannels`nextChannel, onChannels`prevChannel
      ensures Valid() && u.channel == null && u.joined == 0
      ensures onChannels == set n | n in old(onChannels) &&
              (old(On(u, n.channel)) ==> n.user != u && !old(Deserted(u, n.channel)))
      ensures forall n :: n in onChannels ==> n in old(onChannels) && n.user != u
      ensures forall n :: n in old(onChannels) && n.user != u ==>
                (n in onChannels <==>
                   || (forall o :: o in old(onChannels) && o.channel == n.channel ==> o.user != u)
                   || exists o :: o in old(onChannels) && o.channel == n.channel && o.user != u && !o.zombie)
      ensures old(Healthy()) ==> Healthy()
    {
      hide Valid;
      ghost var done: set<Channel> := {};
      FirstChannel(u);
      while u.channel != null
        invariant Valid() && channels <= old(channels)
        invariant done <= old(channels) && forall c :: c in done ==> old(On(u, c))
        invariant onChannels == old(LeftAfterAll(u, done))
        invariant old(Healthy()) ==> Healthy()
        decreases onChannels
      {
        FirstChannel(u);
        assert u.channel == u.nodes[0];
        var c := u.channel.channel;
        assert u.channel in old(LeftAfterAll(u, done)) && On(u, c);
        label Step:
        OneMoreChannel(u, c, done);
        RemoveUserFromChannel(u, c);
        if old(Healthy()) {
          RemovalIsHealthy@Step(u, c);
        }
        done := done + {c};
      }
      FirstChannel(u);
      AllLeft(u, done);
    }

    /** When no membership of u is left, the channels that u has left are all that u was on. */
    twostate lemma AllLeft(u: User, new done: set<Channel>)
      requires done <= old(channels) && (forall c :: c in done ==> old(On(u, c)))
      requires onChannels == old(LeftAfterAll(u, done)) && forall n :: n in onChannels ==> n.user != u
      requires forall n :: n in old(onChannels) ==> unchanged(n`user, n`channel)
      ensures onChannels == set n | n in old(onChannels) &&
              (old(On(u, n.channel)) ==> n.user != u && !old(Deserted(u, n.channel)))
    {
      hide Deserted;
      forall n | n in old(onChannels) && old(On(u, n.channel)) ensures n.channel in done {
        var m :| m in old(onChannels) && old(m.user) == u && old(m.channel) == n.channel;
        assert m !in onChannels;
      }
    }

    /**
     make_zombie: the kicked user stays as a zombie unless this server is to drop it at once (gone),
     or nobody else is left.
     */
    method MakeZombie(m: Link, gone: bool)
      requires Valid() && m in onChannels && Healthy()
      modifies m`zombie
      modifies this`onChannels, this`onUsers, this`freeList, this`chain, this`free, this`channels
      modifies channels`members, channels`nodes, channels`users, users`channel, users`nodes, users`joined
      modifies onChannels`nextMember, onChannels`prevMember, onChannels`nextChannel, onChannels`prevChannel
      ensures Valid() && Healthy()
      ensures onChannels ==
        if old(Deserted(m.user, m.channel)) then set n | n in old(onChannels) && n.channel != m.channel
        else if gone then old(onChannels) - {m}
        else old(onChannels)
      ensures m in onChannels ==> m.zombie
      ensures forall o :: o in old(onChannels) && o != m && o.channel == m.channel && !old(o.zombie) ==>
                onChannels == if gone then old(onChannels) - {m} else old(onChannels)
      ensures (forall o :: o in old(onChannels) && o != m && o.channel == m.channel ==> old(o.zombie)) ==>
                onChannels == set n | n in old(onChannels) && n.channel != m.channel
    {
      hide Valid, Minus;
      ListedNode(m);
      SinglePair(m);
      m.zombie := true;
      label Z:
      if gone {
        RemoveUserFromChannel(m.user, m.channel);
        RemovalIsHealthy@Z(m.user, m.channel);
      } else {
        var all := ChannelAllZombies(m.channel);
        if all {
          RemoveUserFromChannel(m.user, m.channel);
          RemovalIsHealthy@Z(m.user, m.channel);
        }
      }
    }
  }
}
