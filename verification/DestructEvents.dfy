/**
 The timed destruction of empty channels (ircd/destruct_event.c and the parts of ircd/channel.c that
 start and stop it): one queue for young channels, one for channels older than two days.
 */
module DestructEvents {
  import opened Sequences

  const MINUTE: nat := 60
  const TWO_DAYS: nat := 172800

  class Channel {
    var apass: bool
    var users: nat
    var destructEvent: Event?

    constructor (apass: bool)
      ensures users == 0 && destructEvent == null && this.apass == apass
    {
      this.apass := apass;
      users, destructEvent := 0, null;
    }
  }

  class Event {
    const channel: Channel
    const expires: int
    var next: Event?
    var prev: Event?

    constructor (c: Channel, expires: int, prev: Event?)
      ensures channel == c && this.expires == expires && next == null && this.prev == prev
    {
      channel, this.expires, next, this.prev := c, expires, null, prev;
    }
  }

  function At(s: seq<Event>, i: int): Event? {
    if 0 <= i < |s| then s[i] else null
  }

  /** The events of s are linked in this order, in both directions. */
  ghost predicate Chained(s: seq<Event>)
    reads s`next, s`prev
  {
    && (forall i {:trigger s[i].next} :: 0 <= i < |s| ==> s[i].next == At(s, i + 1))
    && (forall i {:trigger s[i].prev} :: 0 <= i < |s| ==> s[i].prev == At(s, i - 1))
    && (forall i, j :: 0 <= i < j < |s| ==> s[i] != s[j])
  }

  twostate lemma StillChained(s: seq<Event>)
    requires old(Chained(s)) && forall e :: e in s ==> unchanged(e`next, e`prev)
    ensures Chained(s)
  {
    assert forall i :: 0 <= i < |s| ==> s[i] in s;
  }

  /** Link the neighbours of e with each other. */
  method Bypass(e: Event, ghost s: seq<Event>, ghost k: nat)
    requires Chained(s) && k < |s| && s[k] == e
    modifies s`next, s`prev
    ensures Chained(Without(s, k)) && e.next == old(e.next) && e.prev == old(e.prev)
  {
    assert e.next == At(s, k + 1) && e.prev == At(s, k - 1);
    if e.prev != null {
      e.prev.next := e.next;
    }
    if e.next != null {
      e.next.prev := e.prev;
    }
    ChainedWithout(s, k);
  }

  /** All events but number k are linked, past number k. */
  ghost predicate LinkedPast(s: seq<Event>, k: nat)
    reads s`next, s`prev
  {
    && (forall i {:trigger s[i].next} :: 0 <= i < |s| && i != k ==>
          s[i].next == At(s, if i + 1 == k then i + 2 else i + 1))
    && (forall i {:trigger s[i].prev} :: 0 <= i < |s| && i != k ==>
          s[i].prev == At(s, if i - 1 == k then i - 2 else i - 1))
    && (forall i, j :: 0 <= i < j < |s| ==> s[i] != s[j])
  }

  lemma ChainedWithout(s: seq<Event>, k: nat)
    requires k < |s| && LinkedPast(s, k)
    ensures Chained(Without(s, k))
  {
    var w := Without(s, k);
    assert forall i :: 0 <= i < |w| ==> w[i] == if i < k then s[i] else s[i + 1];
  }

  /** Expiry times grow along s, up to limit. */
  ghost predicate InTime(s: seq<Event>, limit: int) {
    && (forall i, j :: 0 <= i < j < |s| ==> s[i].expires <= s[j].expires)
    && (forall i :: 0 <= i < |s| ==> s[i].expires <= limit)
  }

  ghost predicate Apart(s: seq<Event>, t: seq<Event>) {
    forall i, j :: 0 <= i < |s| && 0 <= j < |t| ==> s[i] != t[j]
  }

  lemma WithoutKeeps(s: seq<Event>, t: seq<Event>, k: nat, limit: int)
    requires (forall i, j :: 0 <= i < j < |s| ==> s[i] != s[j]) && InTime(s, limit) && k < |s| &&
             (Apart(s, t) || Apart(t, s))
    ensures Apart(Without(s, k), t) && Apart(t, Without(s, k)) && InTime(Without(s, k), limit)
    ensures s[k] !in t
    ensures forall e :: e in Without(s, k) <==> e in s && e != s[k]
  {
    forall e | e in s && e != s[k] ensures e in Without(s, k) {
      var i :| 0 <= i < |s| && s[i] == e;
      assert Without(s, k)[if i < k then i else i - 1] == e;
    }
  }

  /** A queue; the next events are towards the top, the oldest event is at the bottom. */
  class Queue {
    const delay: nat
    var top: Event?
    var bottom: Event?
    ghost var events: seq<Event>  // from the bottom to the top

    constructor (delay: nat)
      ensures Linked() && events == [] && this.delay == delay
    {
      this.delay := delay;
      top, bottom, events := null, null, [];
    }

    ghost predicate Linked()
      reads this, events`next, events`prev
    {
      Ends() && Chained(events)
    }

    ghost predicate Ends()
      reads this
    {
      bottom == At(events, 0) && top == At(events, |events| - 1)
    }

    ghost predicate Distinct()
      reads this
    {
      forall i, j :: 0 <= i < j < |events| ==> events[i] != events[j]
    }

    lemma LinkedAgain()
      requires Ends() && Chained(events)
      ensures Linked()
    {
    }

    twostate lemma StillLinked()
      requires old(Linked()) && unchanged(this) && forall e :: e in events ==> unchanged(e`next, e`prev)
      ensures Linked()
    {
      StillChained(events);
    }

    ghost predicate Timely(now: int)
      reads this`events
    {
      InTime(events, now + delay)
    }

    lemma Front()
      requires Linked()
      ensures bottom == At(events, 0)
    {
    }

    /** Append the new event for c. */
    method Append(c: Channel, now: int) returns (e: Event)
      requires Linked() && Timely(now)
      modifies this`top, this`bottom, this`events, events`next
      ensures Linked() && Timely(now) && fresh(e) && events == old(events) + [e]
      ensures e.channel == c && e.expires == now + delay
    {
      e := new Event(c, now + delay, top);
      if top != null {
        top.next := e;
      }
      top := e;
      if bottom == null {
        bottom := e;
      }
      events := events + [e];
    }

    /** Correct the two ends for the event e that goes; it is event k, or not of this queue (k < 0). */
    method Correct(e: Event, ghost k: int)
      requires Ends() && Distinct()
      requires if k < 0 then e !in events
               else k < |events| && events[k] == e && e.next == At(events, k + 1) && e.prev == At(events, k - 1)
      modifies this`top, this`bottom, this`events
      ensures events == (if k < 0 then old(events) else Without(old(events), k)) && Ends()
    {
      if top == e {
        top := e.prev;
      }
      if bottom == e {
        bottom := e.next;
      }
      if k >= 0 {
        events := Without(events, k);
      }
    }
  }

  /** Take the event out of mine, the queue it is on, when it is not known on which of the two it is. */
  method Unlink(e: Event, days: Queue, minute: Queue, ghost mine: Queue, ghost other: Queue, ghost k: nat)
    requires mine != other && ((mine == days && other == minute) || (mine == minute && other == days))
    requires mine.Linked() && other.Linked() && Apart(mine.events, other.events)
    requires k < |mine.events| && mine.events[k] == e
    modifies days`top, days`bottom, days`events, minute`top, minute`bottom, minute`events, mine.events`next,
             mine.events`prev
    ensures mine.Linked() && mine.events == Without(old(mine.events), k)
    ensures other.Linked() && other.events == old(other.events)
  {
    assert e.next == At(mine.events, k + 1) && e.prev == At(mine.events, k - 1);
    assert mine.Distinct() && other.Distinct() && e !in other.events;
    hide Chained, Without, At, Queue.Distinct;
    Bypass(e, mine.events, k);
    StillChained(other.events);
    CorrectBoth(e, days, minute, mine, other, k);
  }

  /** The corrections of all four ends. */
  method CorrectBoth(e: Event, days: Queue, minute: Queue, ghost mine: Queue, ghost other: Queue, ghost k: nat)
    requires mine != other && ((mine == days && other == minute) || (mine == minute && other == days))
    requires mine.Ends() && other.Ends() && mine.Distinct() && other.Distinct()
    requires k < |mine.events| && mine.events[k] == e && e !in other.events
    requires e.next == At(mine.events, k + 1) && e.prev == At(mine.events, k - 1)
    requires Chained(Without(mine.events, k)) && Chained(other.events)
    modifies days`top, days`bottom, days`events, minute`top, minute`bottom, minute`events
    ensures mine.Linked() && mine.events == Without(old(mine.events), k)
    ensures other.Linked() && other.events == old(other.events)
  {
    hide Chained, Without, At, Queue.Distinct, Queue.Ends;
    ghost var rest, others := Without(mine.events, k), other.events;
    days.Correct(e, if mine == days then k else -1);
    minute.Correct(e, if mine == minute then k else -1);
    StillChained(rest);
    StillChained(others);
    mine.LinkedAgain();
    other.LinkedAgain();
  }

  class Timers {
    var opLevels: bool
    const minute: Queue
    const days: Queue
    var now: int
    ghost var channels: set<Channel>

    constructor (opLevels: bool, now: int)
      ensures Valid() && fresh(minute) && fresh(days) && channels == {} && this.now == now && this.opLevels == opLevels
      ensures minute.events == days.events == []
    {
      this.opLevels, this.now := opLevels, now;
      minute := new Queue(MINUTE);
      days := new Queue(TWO_DAYS);
      channels := {};
    }

    /** Every event is the event of its channel. */
    ghost predicate Owned(s: seq<Event>)
      reads this`channels, set i | 0 <= i < |s| :: s[i].channel`destructEvent
    {
      forall i :: 0 <= i < |s| ==> s[i].channel in channels && s[i].channel.destructEvent == s[i]
    }

    /** A channel waits for its destruction only while it is empty, and then an event says so. */
    ghost predicate Booked()
      reads this`channels, channels`users, channels`destructEvent, minute`events, days`events
    {
      forall c :: c in channels && c.destructEvent != null ==>
        && c.users == 0 && c.destructEvent.channel == c
        && (c.destructEvent in minute.events || c.destructEvent in days.events)
    }

    ghost predicate Pair(q: Queue, o: Queue)
      reads this`channels, this`now, channels`users, channels`destructEvent, q, o, minute`events, days`events
      reads q.events`next, q.events`prev, o.events`next, o.events`prev
      reads set i | 0 <= i < |q.events| :: q.events[i].channel`destructEvent
      reads set i | 0 <= i < |o.events| :: o.events[i].channel`destructEvent
    {
      && q != o && q.Linked() && o.Linked() && Apart(q.events, o.events)
      && q.Timely(now) && o.Timely(now)
      && Owned(q.events) && Owned(o.events) && Booked()
    }

    ghost predicate Valid()
      reads this`channels, this`now, channels`users, channels`destructEvent, minute, days
      reads minute.events`next, minute.events`prev, days.events`next, days.events`prev
      reads set i | 0 <= i < |minute.events| :: minute.events[i].channel`destructEvent
      reads set i | 0 <= i < |days.events| :: days.events[i].channel`destructEvent
    {
      minute.delay == MINUTE && days.delay == TWO_DAYS && Pair(minute, days)
    }

    twostate lemma OwnedAfterAppend(s: seq<Event>, new c: Channel, new e: Event)
      requires old(Owned(s)) && unchanged(this`channels) && c in old(channels) && old(c.destructEvent) == null
      requires e.channel == c && c.destructEvent == e
      requires forall d :: d in channels && d != c ==> unchanged(d`destructEvent)
      ensures Owned(s) && Owned(s + [e])
    {
    }

    twostate lemma BookedAfterAppend(new c: Channel, new e: Event)
      requires old(Booked()) && unchanged(this`channels) && c in old(channels)
      requires e.channel == c && c.destructEvent == e && c.users == 0 && (e in minute.events || e in days.events)
      requires old(minute.events) <= minute.events && old(days.events) <= days.events
      requires forall d :: d in channels && d != c ==> unchanged(d`destructEvent, d`users)
      ensures Booked()
    {
      forall d | d in channels && d.destructEvent != null && d != c
        ensures d.destructEvent in minute.events || d.destructEvent in days.events
      {
        assert d.destructEvent in old(minute.events) || d.destructEvent in old(days.events);
      }
    }

    ghost predicate Both(q: Queue, o: Queue) {
      (q == minute && o == days) || (q == days && o == minute)
    }

    /** Queue an event for a channel that has none; q is the one queue, o is the other. */
    method Add(c: Channel, q: Queue, ghost o: Queue)
      requires Pair(q, o) && Both(q, o) && c in channels && c.users == 0 && c.destructEvent == null
      modifies q`top, q`bottom, q`events, q.events`next, c`destructEvent
      ensures Pair(q, o) && c.destructEvent != null && c.destructEvent.expires == now + q.delay &&
              fresh(c.destructEvent)
      ensures q.events == old(q.events) + [c.destructEvent]
    {
      hide Owned, Booked, Chained, Queue.Timely, Queue.Linked;
      ghost var s, t := q.events, o.events;
      var e := q.Append(c, now);
      o.StillLinked();
      c.destructEvent := e;
      OwnedAfterAppend(s, c, e);
      OwnedAfterAppend(t, c, e);
      BookedAfterAppend(c, e);
    }

    /** schedule_destruct_event_1m and schedule_destruct_event_48h. */
    method Schedule(c: Channel, q: Queue, ghost o: Queue)
      requires Pair(q, o) && Both(q, o) && c in channels && c.users == 0
      modifies q`top, q`bottom, q`events, q.events`next, c`destructEvent
      ensures Pair(q, o) && c.destructEvent != null
      ensures old(c.destructEvent) != null ==> c.destructEvent == old(c.destructEvent) && q.events == old(q.events)
      ensures old(c.destructEvent) == null ==>
              c.destructEvent.expires == now + q.delay && q.events == old(q.events) + [c.destructEvent] &&
              fresh(c.destructEvent)
    {
      hide Pair;
      if c.destructEvent == null {
        Add(c, q, o);
      }
    }

    twostate lemma OwnedAfterDrop(s: seq<Event>, new k: int, new c: Channel)
      requires old(Owned(s)) && unchanged(this`channels) && c in old(channels) && old(c.destructEvent) != null
      requires if 0 <= k < |s| then s[k] == old(c.destructEvent) else old(c.destructEvent) !in s
      requires forall i, j :: 0 <= i < j < |s| ==> s[i] != s[j]
      requires forall d :: d in channels && d != c ==> unchanged(d`destructEvent)
      ensures Owned(if 0 <= k < |s| then Without(s, k) else s)
    {
      var t := if 0 <= k < |s| then Without(s, k) else s;
      forall i | 0 <= i < |t| ensures t[i].channel in channels && t[i].channel.destructEvent == t[i] {
        var j := if 0 <= k < |s| && k <= i then i + 1 else i;
        assert t[i] == s[j] && j != k;
        assert old(s[j].channel.destructEvent) == s[j] != old(c.destructEvent);
      }
    }

    twostate lemma BookedAfterDrop(new c: Channel)
      requires old(Booked()) && unchanged(this`channels) && c in old(channels) && c.destructEvent == null &&
               old(c.destructEvent) != null
      requires forall e :: e in old(minute.events) + old(days.events) && e != old(c.destructEvent) ==>
               e in minute.events || e in days.events
      requires forall d :: d in channels && d != c ==> unchanged(d`destructEvent, d`users)
      ensures Booked()
    {
      forall d | d in channels && d.destructEvent != null
        ensures d.destructEvent in minute.events || d.destructEvent in days.events {
        assert old(d.destructEvent.channel) == d && old(c.destructEvent.channel) == c;
        assert d.destructEvent in old(minute.events) + old(days.events);
      }
    }

    twostate lemma PairAfterDrop(q: Queue, new o: Queue, new c: Channel, new k: nat)
      requires o in {minute, days} && Both(q, o) && old(Pair(q, o)) && c in old(channels) && k < |old(q.events)| &&
               old(c.destructEvent) == old(q.events)[k]
      requires q.Linked() && o.Linked() && q.events == Without(old(q.events), k) && o.events == old(o.events)
      requires c.destructEvent == null && unchanged(this) && forall d :: d in channels && d != c ==> unchanged(d)
      requires unchanged(c`users)
      ensures Pair(q, o)
      ensures forall e ::
                e in q.events || e in o.events
                <==> (e in old(q.events) || e in old(o.events)) && e != old(c.destructEvent)
    {
      ghost var t := o.events;
      WithoutKeeps(old(q.events), t, k, now + q.delay);
      hide Owned, Booked, InTime, Queue.Linked, Without, Apart;
      OwnedAfterDrop(old(q.events), k, c);
      OwnedAfterDrop(t, -1, c);
      assert forall e :: e in q.events <==> e in old(q.events) && e != old(c.destructEvent);
      assert old(c.destructEvent) !in t;
      BookedAfterDrop(c);
    }

    /** remove_destruct_event; the event is number k of q. */
    method RemoveDestructEvent(c: Channel, ghost q: Queue, ghost o: Queue, ghost k: nat)
      requires Pair(q, o) && Both(q, o) && c in channels && k < |q.events| && c.destructEvent == q.events[k]
      modifies days`top, days`bottom, days`events, minute`top, minute`bottom, minute`events, q.events`next,
               q.events`prev, c`destructEvent
      ensures Pair(q, o) && c.destructEvent == null
      ensures q.events == Without(old(q.events), k) && o.events == old(o.events)
      ensures forall e ::
                e in q.events || e in o.events
                <==> (e in old(q.events) || e in old(o.events)) && e != old(c.destructEvent)
    {
      var e := c.destructEvent;
      hide Owned, Booked, Chained, InTime, Queue.Linked, Without, Apart;
      Unlink(e, days, minute, q, o, k);
      c.destructEvent := null;
      hide Pair;
      PairAfterDrop(q, o, c, k);
    }

    lemma Swap(q: Queue, o: Queue)
      requires Pair(q, o) && Both(q, o)
      ensures Pair(o, q)
    {
    }

    /** Where the event of a channel is. */
    lemma Locate(c: Channel)
      requires Valid() && c in channels
      ensures c.destructEvent != null ==>
        && c.users == 0 && c.destructEvent.channel == c
        && (c.destructEvent in minute.events || c.destructEvent in days.events)
    {
    }

    /** The number of members of a channel without event is free. */
    twostate lemma FreeCount(c: Channel)
      requires old(Valid()) && c in channels && unchanged(this`channels, this`now, c`destructEvent)
      requires c.destructEvent == null || unchanged(c)
      requires unchanged(minute, days)
      requires forall d :: d in channels && d != c ==> unchanged(d)
      requires forall e :: e in minute.events || e in days.events ==> unchanged(e)
      ensures Valid()
    {
      minute.StillLinked();
      days.StillLinked();
    }

    /** Somebody joins c. */
    method Join(c: Channel)
      requires Valid() && c in channels
      modifies days`top, days`bottom, days`events, minute`top, minute`bottom, minute`events
      modifies days.events`next, days.events`prev, minute.events`next, minute.events`prev, c`destructEvent, c`users
      ensures Valid() && c.users == old(c.users) + 1 && c.destructEvent == null
      ensures forall e ::
                e in minute.events || e in days.events
                <==> (e in old(minute.events) || e in old(days.events)) && e != old(c.destructEvent)
    {
      hide Pair, Without;
      if c.destructEvent != null {
        Locate(c);
        Swap(minute, days);
        ghost var onMinute := c.destructEvent in minute.events;
        ghost var q, o := if onMinute then minute else days, if onMinute then days else minute;
        ghost var k :| 0 <= k < |q.events| && q.events[k] == c.destructEvent;
        RemoveDestructEvent(c, q, o, k);
        Swap(q, o);
      }
      label Free:
      c.users := c.users + 1;
      FreeCount@Free(c);
    }

    /** Events and waiting channels belong to each other. */
    lemma Bookings()
      requires Valid()
      ensures forall e :: e in minute.events || e in days.events ==>
              e.channel in channels && e.channel.destructEvent == e
      ensures forall c :: c in channels && c.destructEvent != null ==>
        && c.users == 0 && c.destructEvent.channel == c
        && (c.destructEvent in minute.events || c.destructEvent in days.events)
      ensures forall e, f :: e in minute.events && f in days.events ==> e != f
    {
    }

    /** Without c every event is still one of a channel that exists exactly if c has none. */
    lemma Destructible(c: Channel)
      requires Valid() && c in channels
      ensures (forall e :: e in minute.events || e in days.events ==> e.channel in channels - {c})
              <==> c.destructEvent == null
    {
      Bookings();
    }

    twostate lemma StillPair(q: Queue, new o: Queue, new c: Channel)
      requires o in {minute, days} && Both(q, o) && old(Pair(q, o)) && c in old(channels) &&
               old(c.destructEvent) == null
      requires channels == old(channels) - {c} && unchanged(q) && unchanged(o) && unchanged(this`now)
      requires forall d :: d in channels ==> unchanged(d)
      requires forall e :: e in q.events || e in o.events ==> unchanged(e)
      ensures Pair(q, o)
    {
      hide Owned, Booked;
      q.StillLinked();
      o.StillLinked();
      OwnedWithout(q.events, c);
      OwnedWithout(o.events, c);
      BookedWithout(c);
    }

    twostate lemma OwnedWithout(s: seq<Event>, new c: Channel)
      requires old(Owned(s)) && c in old(channels) && old(c.destructEvent) == null && channels == old(channels) - {c}
      requires forall d :: d in channels ==> unchanged(d)
      ensures Owned(s)
    {
      forall i | 0 <= i < |s| ensures s[i].channel in channels && s[i].channel.destructEvent == s[i] {
        assert old(s[i].channel.destructEvent) == s[i];
      }
    }

    twostate lemma BookedWithout(new c: Channel)
      requires old(Booked()) && channels == old(channels) - {c}
      requires minute.events == old(minute.events) && days.events == old(days.events)
      requires forall d :: d in channels ==> unchanged(d)
      ensures Booked()
    {
    }

    /**
     sub1_from_channel, also called for channels that are empty already. It destroys a channel without removing its
     event: all is well afterwards exactly if there was none, or the channel is kept.
     */
    method Sub1FromChannel(c: Channel, young: bool) returns (more: bool)
      requires Valid() && c in channels
      modifies this`channels, days`top, days`bottom, days`events, minute`top, minute`bottom, minute`events
      modifies days.events`next, minute.events`next, c`destructEvent, c`users
      ensures Valid() <==> old(c.destructEvent) == null || c.apass || opLevels
      ensures !Valid() ==> minute.events == old(minute.events) && days.events == old(days.events)
      ensures more == (c.users > 0) && c.users == if old(c.users) > 0 then old(c.users) - 1 else 0
      ensures channels == if !more && !c.apass && !opLevels then old(channels) - {c} else old(channels)
      ensures c in channels && !more ==> c.destructEvent != null
      ensures c in channels && !more && old(c.destructEvent) == null ==>
              c.destructEvent.expires == (now + if young then 60 else 172800) && fresh(c.destructEvent)
      ensures forall e :: e in minute.events || e in days.events ==>
              e in old(minute.events) || e in old(days.events) || (c in channels && e == c.destructEvent)
      ensures old(c.destructEvent) != null ==> c.destructEvent == old(c.destructEvent)
    {
      hide Pair, Queue.Linked;
      Locate(c);
      if c.users > 1 {
        c.users := c.users - 1;
        FreeCount(c);
        return true;
      }
      c.users := 0;
      if !c.apass {
        if !opLevels {
          channels := channels - {c};
          if c.destructEvent == null {
            StillPair(minute, days, c);
          } else {
            Dangles(c.destructEvent);
          }
          return false;
        }
      }
      FreeCount(c);
      if young {
        Schedule(c, minute, days);
      } else {
        Swap(minute, days);
        Schedule(c, days, minute);
        Swap(days, minute);
      }
      return false;
    }

    /** An event of a channel that is gone. */
    lemma Dangles(e: Event)
      requires (e in minute.events || e in days.events) && e.channel !in channels
      ensures !Valid()
    {
    }

    /** MODE +A and -A, also on a channel that is empty. */
    method SetApass(c: Channel, apass: bool)
      requires Valid()
      modifies c`apass
      ensures Valid() && c.apass == apass
    {
      c.apass := apass;
    }

    /** The feature oplevels, when the configuration is read again. */
    method SetOpLevels(opLevels: bool)
      requires Valid()
      modifies this`opLevels
      ensures Valid() && this.opLevels == opLevels
    {
      this.opLevels := opLevels;
    }

    method NewChannel(apass: bool) returns (c: Channel)
      requires Valid()
      modifies this`channels
      ensures Valid() && fresh(c) && channels == old(channels) + {c} && c.users == 0 && c.destructEvent == null
      ensures c.apass == apass
    {
      c := new Channel(apass);
      channels := channels + {c};
    }

    /** The clock does not go back. */
    method Advance(t: int)
      requires Valid() && now <= t
      modifies this`now
      ensures Valid() && now == t
    {
      now := t;
    }

    /** Destroy the channels of the events of q that have expired. */
    method Expire(q: Queue, ghost o: Queue)
      requires Pair(q, o) && Both(q, o)
      modifies this`channels, days`top, days`bottom, days`events, minute`top, minute`bottom, minute`events
      modifies q.events`next, q.events`prev, channels`destructEvent
      ensures Pair(q, o) && o.events == old(o.events)
      ensures forall e :: e in q.events ==> e in old(q.events) && e.expires > now
      ensures channels == old(channels) - set e | e in old(q.events) && e.expires <= now :: e.channel
      ensures forall c :: c in channels ==> c.destructEvent == old(c.destructEvent)
    {
      hide Queue.Linked, Booked, Apart;
      ghost var n := 0;
      ghost var s := q.events;
      while q.bottom != null && now >= q.bottom.expires
        invariant Pair(q, o) && o.events == old(o.events) && n <= |s| && q.events == s[n..]
        invariant channels == old(channels) - set i | 0 <= i < n :: s[i].channel
        invariant forall c :: c in channels ==> c.destructEvent == old(c.destructEvent)
        invariant forall i :: 0 <= i < n ==> s[i].expires <= now
        decreases |s| - n
      {
        q.Front();
        var c := q.bottom.channel;
        RemoveDestructEvent(c, q, o, 0);
        n := n + 1;
        label Removed:
        channels := channels - {c};
        StillPair@Removed(q, o, c);
      }
      q.Front();
    }

    /** exec_expired_destruct_events. */
    method ExecExpired()
      requires Valid()
      modifies this`channels, days`top, days`bottom, days`events, minute`top, minute`bottom, minute`events
      modifies days.events`next, days.events`prev, minute.events`next, minute.events`prev, channels`destructEvent
      ensures Valid()
      ensures forall e :: e in minute.events || e in days.events ==> e.expires > now
      ensures channels == set c | c in old(channels) &&
              (old(c.destructEvent) == null || old(c.destructEvent).expires > now)
      ensures forall c :: c in old(channels) && c !in channels ==> c.users == 0
      ensures forall c :: c in channels ==> c.destructEvent == old(c.destructEvent)
    {
      hide Pair;
      Bookings();
      Expire(minute, days);
      Swap(minute, days);
      Expire(days, minute);
      Swap(days, minute);
    }
  }

  /**
   Without oplevels a channel with Apass loses its last member and waits, a server takes the Apass away, and the end
   of a burst calls sub1_from_channel for the empty channel: it goes, and its event stays on the queue.
   */
  method LeftBehind(young: bool) returns (t: Timers, c: Channel)
    ensures c !in t.channels && c.destructEvent != null && c.destructEvent.channel == c && !t.Valid()
    ensures c.destructEvent in t.minute.events || c.destructEvent in t.days.events
  {
    hide Timers.Valid;
    t := new Timers(false, 0);
    c := t.NewChannel(true);
    assert t.minute.events == t.days.events == [];
    t.Join(c);
    assert forall i :: 0 <= i < |t.minute.events| ==> t.minute.events[i] in t.minute.events;
    assert forall i :: 0 <= i < |t.days.events| ==> t.days.events[i] in t.days.events;
    var more := t.Sub1FromChannel(c, young);
    assert forall i :: 0 <= i < |t.minute.events| ==> t.minute.events[i] in t.minute.events;
    assert forall i :: 0 <= i < |t.days.events| ==> t.days.events[i] in t.days.events;
    t.Locate(c);
    t.SetApass(c, false);
    more := t.Sub1FromChannel(c, young);
  }
}
