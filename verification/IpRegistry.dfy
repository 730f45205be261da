/**
 The registry of client addresses (ircd/IPcheck.c): one entry for a /64 prefix, with the number of its
 clients and of its recent attempts. IPv4 addresses are mapped to 6to4 prefixes (section 2 of RFC 3056).
 */
module IpRegistry {

  /** struct irc_in_addr. */
  datatype Addr = Addr(w0: bv16, w1: bv16, w2: bv16, w3: bv16, w4: bv16, w5: bv16, w6: bv16, w7: bv16)
  {
    predicate IsIPv4() {
      w0 == 0 && w1 == 0 && w2 == 0 && w3 == 0 && w4 == 0 && ((w5 == 0 && w6 != 0) || w5 == 0xffff)
    }

    /** irc_in_addr_valid: not the unspecified address. */
    predicate IsValid() {
      !(w0 == 0 && w1 == 0 && w2 == 0 && w3 == 0 && w4 == 0 && w6 == 0 && w7 == 0 && (w5 == 0 || w5 == 0xffff))
    }
  }

  /** A canonical address; its last four words are zero. */
  datatype Prefix = Prefix(a: bv16, b: bv16, c: bv16, d: bv16)

  const SIXTOFOUR: bv16 := 0x2002
  const TABLE_SIZE := 0x10000
  const MAX_CONNECTED := 0xffff
  const MAX_ATTEMPTS := 0xff

  /** ip_registry_canonicalize. */
  function Canonical(x: Addr): Prefix {
    if x.IsIPv4() then Prefix(SIXTOFOUR, x.w6, x.w7, 0) else Prefix(x.w0, x.w1, x.w2, x.w3)
  }

  /** ::ffff:a.b, an IPv4 address as IPv6 maps it. */
  function Mapped(a: bv16, b: bv16): Addr {
    Addr(0, 0, 0, 0, 0, 0xffff, a, b)
  }

  /** ::a.b, an IPv4 address in the older form. */
  function Compatible(a: bv16, b: bv16): Addr {
    Addr(0, 0, 0, 0, 0, 0, a, b)
  }

  /** Which addresses count as IPv4, and which prefix each address gets. */
  lemma PrefixOf(x: Addr)
    ensures x == Mapped(x.w6, x.w7) || (x == Compatible(x.w6, x.w7) && x.w6 != 0) <==> x.IsIPv4()
    ensures x == Mapped(x.w6, x.w7) ==> Canonical(x) == Prefix(0x2002, x.w6, x.w7, 0)
    ensures x == Compatible(x.w6, x.w7) && x.w6 != 0 ==> Canonical(x) == Prefix(0x2002, x.w6, x.w7, 0)
    ensures x != Mapped(x.w6, x.w7) && x != Compatible(x.w6, x.w7) ==> Canonical(x) == Prefix(x.w0, x.w1, x.w2, x.w3)
    ensures !x.IsValid() <==> x == Compatible(0, 0) || x == Mapped(0, 0)
  {
  }

  /** ip_registry_hash, as a word. */
  function HashWord(p: Prefix): bv16 {
    p.a ^ p.b ^ p.c ^ p.d
  }

  /** ip_registry_hash, as an index of the table. */
  function Hash(p: Prefix): (h: nat)
    ensures h < TABLE_SIZE
  {
    HashWord(p) as nat
  }

  lemma SameIndex(x: bv16, y: bv16)
    requires x as nat == y as nat
    ensures x == y
  {
    assert (x as nat) as bv16 == x;
    assert (y as nat) as bv16 == y;
  }

  lemma SameHash(p: Prefix, q: Prefix)
    requires Hash(p) == Hash(q)
    ensures HashWord(p) == HashWord(q)
  {
    hide HashWord;
    SameIndex(HashWord(p), HashWord(q));
  }

  /** ipmask_check for 48 and for 64 bits. */
  predicate SameBits(p: Prefix, q: Prefix, bits: nat) {
    p.a == q.a && p.b == q.b && p.c == q.c && (bits == 48 || p.d == q.d)
  }

  /** The comparison of ip_registry_find: only 48 bits count for a 6to4 prefix. */
  predicate Matches(canon: Prefix, addr: Prefix) {
    SameBits(canon, addr, if canon.a == SIXTOFOUR then 48 else 64)
  }

  lemma XorDetermines(a: bv16, b: bv16, c: bv16, d: bv16, e: bv16)
    requires a ^ b ^ c ^ d == a ^ b ^ c ^ e
    ensures d == e
  {
    var x := a ^ b ^ c;
    assert x ^ (x ^ d) == d && x ^ (x ^ e) == e;
  }

  lemma WordDetermines(p: Prefix, q: Prefix)
    requires HashWord(p) == HashWord(q) && p.a == q.a && p.b == q.b && p.c == q.c
    ensures p == q
  {
    XorDetermines(p.a, p.b, p.c, p.d, q.d);
  }

  /** In the bucket of a prefix the comparison is exact: three equal words and an equal bucket force the fourth. */
  lemma MatchIsExact(p: Prefix, q: Prefix)
    requires Hash(p) == Hash(q)
    ensures Matches(p, q) <==> p == q
  {
    hide Hash, HashWord;
    SameHash(p, q);
    if SameBits(p, q, 48) {
      WordDetermines(p, q);
    }
  }

  /** Which addresses share an entry: all forms of one IPv4 address and its 6to4 block; otherwise one /64 block. */
  lemma SharedEntry(x: Addr, y: Addr, a: bv16, b: bv16)
    ensures Canonical(Mapped(a, b)) == Canonical(y)
            <==> y == Mapped(a, b) || (y == Compatible(a, b) && a != 0)
                 || (y.w0 == 0x2002 && y.w1 == a && y.w2 == b && y.w3 == 0)
    ensures !x.IsIPv4() && !y.IsIPv4() ==>
              (Canonical(x) == Canonical(y) <==> x.w0 == y.w0 && x.w1 == y.w1 && x.w2 == y.w2 && x.w3 == y.w3)
  {
  }

  /** The counters of an entry: an unsigned short and an unsigned char. */
  datatype Counts = Counts(connected: nat, attempts: nat)

  datatype Entry = Entry(addr: Prefix, counts: Counts)

  /** The chain c holds exactly the entries of m that belong to bucket h, each once. */
  ghost predicate Chain(h: nat, c: seq<Entry>, m: map<Prefix, Counts>) {
    && (forall i :: 0 <= i < |c| ==> Hash(c[i].addr) == h && c[i].addr in m && m[c[i].addr] == c[i].counts)
    && (forall i, j :: 0 <= i < j < |c| ==> c[i].addr != c[j].addr)
    && (forall p :: p in m && Hash(p) == h ==> exists i :: 0 <= i < |c| && c[i].addr == p)
  }

  ghost predicate Holds(t: seq<seq<Entry>>, m: map<Prefix, Counts>) {
    |t| == TABLE_SIZE && forall h :: 0 <= h < |t| ==> Chain(h, t[h], m)
  }

  /** The place of the entry that ip_registry_find returns, or the end of the chain. */
  method FindIn(c: seq<Entry>, canon: Prefix) returns (i: nat)
    requires forall j :: 0 <= j < |c| ==> Hash(c[j].addr) == Hash(canon)
    ensures i <= |c| && (i < |c| ==> c[i].addr == canon) && forall j :: 0 <= j < i ==> c[j].addr != canon
  {
    hide Hash, Matches;
    i := 0;
    while i < |c|
      invariant i <= |c| && forall j :: 0 <= j < i ==> c[j].addr != canon
    {
      MatchIsExact(canon, c[i].addr);
      if Matches(canon, c[i].addr) {
        return;
      }
      i := i + 1;
    }
  }

  lemma ChainFacts(t: seq<seq<Entry>>, m: map<Prefix, Counts>, p: Prefix)
    requires Holds(t, m)
    ensures forall j :: 0 <= j < |t[Hash(p)]| ==>
            Hash(t[Hash(p)][j].addr) == Hash(p) && t[Hash(p)][j].addr in m &&
            m[t[Hash(p)][j].addr] == t[Hash(p)][j].counts
    ensures p in m <==> exists j :: 0 <= j < |t[Hash(p)]| && t[Hash(p)][j].addr == p
  {
    hide Hash;
    assert Chain(Hash(p), t[Hash(p)], m);
  }

  lemma ChainSet(h: nat, c: seq<Entry>, m: map<Prefix, Counts>, i: nat, n: Counts)
    requires Chain(h, c, m) && i < |c|
    ensures Chain(h, c[i := Entry(c[i].addr, n)], m[c[i].addr := n])
  {
    hide Hash;
    var d := c[i := Entry(c[i].addr, n)];
    forall p | p in m[c[i].addr := n] && Hash(p) == h ensures exists j :: 0 <= j < |d| && d[j].addr == p {
      var j :| 0 <= j < |c| && c[j].addr == p;
      assert d[j].addr == p;
    }
  }

  lemma ChainAdd(c: seq<Entry>, m: map<Prefix, Counts>, p: Prefix, n: Counts)
    requires Chain(Hash(p), c, m) && p !in m
    ensures Chain(Hash(p), [Entry(p, n)] + c, m[p := n])
  {
    hide Hash;
    var d := [Entry(p, n)] + c;
    assert d[0].addr == p;
    forall q | q in m && Hash(q) == Hash(p) ensures exists j :: 0 <= j < |d| && d[j].addr == q {
      var j :| 0 <= j < |c| && c[j].addr == q;
      assert d[j + 1].addr == q;
    }
    forall j | 0 < j < |d| ensures d[j] == c[j - 1] {
    }
  }

  lemma ChainOther(h: nat, c: seq<Entry>, m: map<Prefix, Counts>, p: Prefix, n: Counts)
    requires Chain(h, c, m) && Hash(p) != h
    ensures Chain(h, c, m[p := n])
  {
    hide Hash;
  }

  lemma HoldsAfter(t: seq<seq<Entry>>, m: map<Prefix, Counts>, p: Prefix, n: Counts, c: seq<Entry>)
    requires Holds(t, m) && Chain(Hash(p), c, m[p := n])
    ensures Holds(t[Hash(p) := c], m[p := n])
  {
    hide Hash, Chain;
    forall h | 0 <= h < |t| && h != Hash(p) ensures Chain(h, t[h], m[p := n]) {
      ChainOther(h, t[h], m, p, n);
    }
  }

  /** The counter of attempts after one more; it does not overflow. */
  function Tried(n: nat, stale: bool, max: nat): (r: nat)
    ensures n <= max && max > 0 ==> r == Least(if stale then 1 else n + 1, max)
  {
    var base := if stale then 0 else n;
    if base == max then max else base + 1
  }

  /** The counter of attempts after ip_registry_connect_fail, which does not let it become 0, but wraps it at 0. */
  function Failed(n: nat, max: nat): nat {
    if n == 0 then max else if n == 1 then 1 else n - 1
  }

  function Least(a: nat, b: nat): nat {
    if a < b then a else b
  }

  /** The counter after k tries in a row. */
  function TriedTimes(n: nat, k: nat, max: nat): nat {
    if k == 0 then n else Tried(TriedTimes(n, k - 1, max), false, max)
  }

  lemma {:induction false} InARow(n: nat, k: nat, max: nat)
    requires n <= max && max > 0
    ensures TriedTimes(n, k, max) == Least(n + k, max)
  {
    if k > 0 {
      InARow(n, k - 1, max);
    }
  }

  /** The counter after k failures in a row. */
  function FailedTimes(n: nat, k: nat, max: nat): nat {
    if k == 0 then n else Failed(FailedTimes(n, k - 1, max), max)
  }

  /** Failures take tries back down to one; a counter that a disconnection has set to 0 wraps to the top first. */
  lemma {:induction false} FailuresInARow(n: nat, k: nat, max: nat)
    requires n <= max && max > 0
    ensures FailedTimes(n, k, max)
            == if k == 0 then n else if n == 0 then (if max > k - 1 then max - (k - 1) else 1)
               else if n > k then n - k else 1
  {
    if k > 0 {
      FailuresInARow(n, k - 1, max);
    }
  }

  /** When connect_fail undoes what check_local did to the attempts. */
  lemma UndoneIff(n: nat, stale: bool, max: nat)
    requires n <= max && max > 1
    ensures Failed(Tried(n, stale, max), max) == n <==> if stale then n == 1 else 1 <= n < max
  {
  }

  class Registry {
    const cloneLimit: nat
    const cloneLimit48: nat
    const table: array<seq<Entry>>
    var attempts48: map<(bv16, bv16, bv16), nat>
    ghost var entries: map<Prefix, Counts>
    ghost var clients: multiset<Prefix>  // accepted and not yet released

    constructor (cloneLimit: nat, cloneLimit48: nat)
      ensures Valid() && Exact() && entries == map[] && clients == multiset{} && fresh(table)
    {
      this.cloneLimit, this.cloneLimit48 := cloneLimit, cloneLimit48;
      table := new seq<Entry>[TABLE_SIZE](_ => []);
      attempts48, entries, clients := map[], map[], multiset{};
      new;
      assert forall h :: 0 <= h < TABLE_SIZE ==> table[..][h] == [];
    }

    ghost predicate Valid()
      reads this`entries, table
    {
      && table.Length == TABLE_SIZE && Holds(table[..], entries)
      && forall p :: p in entries ==> entries[p].connected <= MAX_CONNECTED && entries[p].attempts <= MAX_ATTEMPTS
    }

    ghost predicate Bounded48()
      reads this`attempts48
    {
      forall k :: k in attempts48 ==> attempts48[k] <= 0xffff
    }

    /** The attempts of the /48 block of an address. */
    ghost function Attempts48(x: Addr): nat
      reads this`attempts48
    {
      if (x.w0, x.w1, x.w2) in attempts48 then attempts48[(x.w0, x.w1, x.w2)] else 0
    }

    ghost function Connected(p: Prefix): nat
      reads this`entries
    {
      if p in entries then entries[p].connected else 0
    }

    /** The registry knows the number of clients of every prefix. */
    ghost predicate Exact()
      reads this`entries, this`clients
    {
      forall p :: Connected(p) == clients[p]
    }

    /** ip_registry_find: the place of the entry in its chain. */
    method Find(p: Prefix) returns (found: bool, i: nat)
      requires Valid()
      ensures found == (p in entries)
      ensures found ==> i < |table[Hash(p)]| && table[Hash(p)][i] == Entry(p, entries[p])
    {
      hide Hash, Holds;
      ChainFacts(table[..], entries, p);
      i := FindIn(table[Hash(p)], p);
      found := i < |table[Hash(p)]|;
    }

    /** Change the counters of an entry in place. */
    method Set(p: Prefix, i: nat, n: Counts)
      requires Valid() && p in entries && i < |table[Hash(p)]| && table[Hash(p)][i].addr == p
      requires n.connected <= MAX_CONNECTED && n.attempts <= MAX_ATTEMPTS
      modifies this`entries, table
      ensures Valid() && entries == old(entries)[p := n]
    {
      hide Hash, Chain;
      var h := Hash(p);
      assert Chain(h, table[..][h], entries);
      ChainSet(h, table[h], entries, i, n);
      HoldsAfter(table[..], entries, p, n, table[h][i := Entry(p, n)]);
      table[h] := table[h][i := Entry(p, n)];
      assert table[..] == old(table[..])[h := table[h]];
      entries := entries[p := n];
    }

    /** ip_registry_add. */
    method Add(p: Prefix, n: Counts)
      requires Valid() && p !in entries && n.connected <= MAX_CONNECTED && n.attempts <= MAX_ATTEMPTS
      modifies this`entries, table
      ensures Valid() && entries == old(entries)[p := n]
    {
      hide Hash, Chain;
      var h := Hash(p);
      assert Chain(h, table[..][h], entries);
      ChainAdd(table[h], entries, p, n);
      HoldsAfter(table[..], entries, p, n, [Entry(p, n)] + table[h]);
      table[h] := [Entry(p, n)] + table[h];
      assert table[..] == old(table[..])[h := table[h]];
      entries := entries[p := n];
    }

    /** ip_48_find and one more attempt. */
    method Try48(x: Addr, stale: bool) returns (attempts: nat)
      requires Bounded48()
      modifies this`attempts48
      ensures Bounded48()
      ensures attempts == Tried(old(Attempts48(x)), stale, 0xffff) &&
              attempts48 == old(attempts48)[(x.w0, x.w1, x.w2) := attempts]
    {
      var k := (x.w0, x.w1, x.w2);
      attempts := if k in attempts48 then attempts48[k] else 0;
      if stale {
        attempts := 0;
      }
      attempts := (attempts + 1) % 0x10000;
      if attempts == 0 {
        attempts := 0xffff;
      }
      attempts48 := attempts48[k := attempts];
    }

    /** The entry of p after an accepted or refused try. */
    ghost function After(p: Prefix, stale: bool, accepted: bool): Counts
      reads this`entries
      requires p in entries
    {
      Counts(entries[p].connected + if accepted then 1 else 0, Tried(entries[p].attempts, stale, MAX_ATTEMPTS))
    }

    /** Does the /48 block refuse a local client? */
    ghost predicate Refused48(x: Addr, stale48: bool, late: bool)
      reads this`attempts48
    {
      !x.IsIPv4() && Tried(Attempts48(x), stale48, 0xffff) >= cloneLimit48 && late
    }

    /**
     A local client is refused if the counter of clients is full, or if the server has been up for a while and
     the tries, this one included, have come to a limit: those from the same entry, or, for IPv6, those from the
     same /48 block.
     */
    ghost predicate Refuses(x: Addr, stale48: bool, stale: bool, late: bool)
      reads this`entries, this`attempts48
    {
      var p, mapped := Canonical(x), x == Mapped(x.w6, x.w7) || (x == Compatible(x.w6, x.w7) && x.w6 != 0);
      || (p in entries && entries[p].connected == 0xffff)
      || (late && p in entries && cloneLimit <= Least(if stale then 1 else entries[p].attempts + 1, 0xff))
      || (late && !mapped && cloneLimit48 <= Least(if stale48 then 1 else Attempts48(x) + 1, 0xffff))
    }

    lemma RefusalIs(x: Addr, stale48: bool, stale: bool, late: bool)
      requires Valid() && Bounded48()
      ensures var p := Canonical(x);
        Refuses(x, stale48, stale, late) <==>
          || Refused48(x, stale48, late)
          || (p in entries && (entries[p].connected == MAX_CONNECTED
                               || (Tried(entries[p].attempts, stale, MAX_ATTEMPTS) >= cloneLimit && late)))
    {
      hide Canonical, Holds, Tried;
      PrefixOf(x);
    }

    /**
     ip_registry_check_local. The times are given as answers: was the last try long ago (stale), and has
     the server been up for a while (late)?
     */
    method CheckLocal(x: Addr, stale48: bool, stale: bool, late: bool) returns (accepted: bool)
      requires Valid() && Bounded48()
      modifies this`attempts48, this`entries, this`clients, table
      ensures Valid() && Bounded48() && (old(Exact()) ==> Exact())
      ensures var p := Canonical(x);
        if old(Refused48(x, stale48, late)) then !accepted && entries == old(entries)
        else if p !in old(entries) then accepted && entries == old(entries)[p := Counts(1, 1)]
        else if old(entries)[p].connected == MAX_CONNECTED then !accepted && entries == old(entries)
        else
          && accepted == (Tried(old(entries)[p].attempts, stale, MAX_ATTEMPTS) < cloneLimit || !late)
          && entries == old(entries)[p := old(After(p, stale, accepted))]
      ensures clients == old(clients) + if accepted then multiset{Canonical(x)} else multiset{}
      ensures accepted <==> !old(Refuses(x, stale48, stale, late))
    {
      RefusalIs(x, stale48, stale, late);
      hide Hash, Holds, Canonical, Refuses;
      var p := Canonical(x);
      var found, i := Find(p);
      if !x.IsIPv4() {
        var tries := Try48(x, stale48);
        if tries >= cloneLimit48 && late {
          if found {
            PassThrough(p, i);
          }
          return false;
        }
      }
      if !found {
        Add(p, Counts(1, 1));
        clients := clients + multiset{p};
        return true;
      }
      accepted := TryAgain(p, i, stale, late);
    }

    /** The part of ip_registry_check_local for an address that has an entry. */
    method TryAgain(p: Prefix, i: nat, stale: bool, late: bool) returns (accepted: bool)
      requires Valid() && p in entries && i < |table[Hash(p)]| && table[Hash(p)][i] == Entry(p, entries[p])
      modifies this`entries, this`clients, table
      ensures Valid() && (old(Exact()) ==> Exact())
      ensures if old(entries)[p].connected == MAX_CONNECTED then !accepted && entries == old(entries)
        else
          && accepted == (Tried(old(entries)[p].attempts, stale, MAX_ATTEMPTS) < cloneLimit || !late)
          && entries == old(entries)[p := old(After(p, stale, accepted))]
      ensures clients == old(clients) + if accepted then multiset{p} else multiset{}
    {
      hide Hash, Holds;
      var n := table[Hash(p)][i].counts;
      var connected := (n.connected + 1) % 0x10000;
      if connected == 0 {
        return false;
      }
      var attempts := (if stale then 0 else n.attempts) + 1;
      if attempts == 0x100 {
        attempts := MAX_ATTEMPTS;
      }
      accepted := true;
      if attempts >= cloneLimit && late {
        connected := connected - 1;
        accepted := false;
      }
      Set(p, i, Counts(connected, attempts));
      if accepted {
        clients := clients + multiset{p};
      }
    }

    /** A try that the /48 block refuses is counted and taken back, unless the counter is full. */
    method PassThrough(p: Prefix, i: nat)
      requires Valid() && p in entries && i < |table[Hash(p)]| && table[Hash(p)][i] == Entry(p, entries[p])
      modifies this`entries, table
      ensures Valid() && entries == old(entries)
    {
      hide Hash, Holds;
      var n := table[Hash(p)][i].counts;
      var connected := (n.connected + 1) % 0x10000;
      if connected == 0 {
        connected := MAX_CONNECTED;
      } else {
        connected := connected - 1;
      }
      Set(p, i, Counts(connected, n.attempts));
      assert entries == old(entries);
    }

    /** ip_registry_check_remote. A full counter is not put back: it starts again at 0. */
    method CheckRemote(x: Addr, burst: bool, stale48: bool, stale: bool) returns (accepted: bool)
      requires Valid() && Bounded48()
      modifies this`attempts48, this`entries, this`clients, table
      ensures Valid() && Bounded48()
      ensures var p := Canonical(x);
        if !x.IsValid() then accepted && entries == old(entries) && clients == old(clients)
        else if p !in old(entries) then
          accepted && entries == old(entries)[p := Counts(1, if burst then 0 else 1)] &&
            clients == old(clients) + multiset{p}
        else if old(entries)[p].connected == MAX_CONNECTED then
          !accepted && entries == old(entries)[p := old(entries)[p].(connected := 0)] && clients == old(clients)
        else
          && accepted && clients == old(clients) + multiset{p}
          && entries == old(entries)[p := if burst then
            Counts(old(entries)[p].connected + 1, if stale then 0 else old(entries)[p].attempts)
            else old(After(p, stale, true))]
      ensures old(Exact()) ==> (Exact() <==> !x.IsValid() || old(Connected(Canonical(x))) < MAX_CONNECTED)
    {
      hide Hash, Holds, Canonical;
      var p := Canonical(x);
      if !x.IsValid() {
        return true;
      }
      if !x.IsIPv4() {
        var _ := Try48(x, stale48);
      }
      var found, i := Find(p);
      if !found {
        Add(p, Counts(1, if burst then 0 else 1));
        clients := clients + multiset{p};
        return true;
      }
      accepted := Recount(p, i, burst, stale);
    }

    /** The part of ip_registry_check_remote for an address that has an entry. */
    method Recount(p: Prefix, i: nat, burst: bool, stale: bool) returns (accepted: bool)
      requires Valid() && p in entries && i < |table[Hash(p)]| && table[Hash(p)][i] == Entry(p, entries[p])
      modifies this`entries, this`clients, table
      ensures Valid()
      ensures if old(entries)[p].connected == MAX_CONNECTED then
          !accepted && entries == old(entries)[p := old(entries)[p].(connected := 0)] && clients == old(clients)
        else
          && accepted && clients == old(clients) + multiset{p}
          && entries == old(entries)[p := if burst then
            Counts(old(entries)[p].connected + 1, if stale then 0 else old(entries)[p].attempts)
            else old(After(p, stale, true))]
      ensures old(Exact()) ==> (Exact() <==> old(entries)[p].connected < MAX_CONNECTED)
    {
      hide Hash, Holds;
      var n := table[Hash(p)][i].counts;
      var connected := (n.connected + 1) % 0x10000;
      if connected == 0 {
        Set(p, i, Counts(0, n.attempts));
        assert Connected(p) != clients[p] || !old(Exact());
        return false;
      }
      var attempts := if stale then 0 else n.attempts;
      if !burst {
        attempts := (attempts + 1) % 0x100;
        if attempts == 0 {
          attempts := MAX_ATTEMPTS;
        }
      }
      Set(p, i, Counts(connected, attempts));
      clients := clients + multiset{p};
      return true;
    }

    /** ip_registry_connect_fail. */
    method ConnectFail(x: Addr, disconnect: bool)
      requires Valid() && Bounded48()
      requires disconnect && Canonical(x) in entries ==> entries[Canonical(x)].connected > 0
      modifies this`attempts48, this`entries, this`clients, table
      ensures Valid() && Bounded48()
      ensures var p := Canonical(x); entries == if p in old(entries) then
          old(entries)[p := Counts(old(entries)[p].connected - if disconnect then 1
            else 0, Failed(old(entries)[p].attempts, MAX_ATTEMPTS))]
        else old(entries)
      ensures Attempts48(x) == if x.IsIPv4() then old(Attempts48(x)) else Failed(old(Attempts48(x)), 0xffff)
      ensures clients == old(clients) - if disconnect && Canonical(x) in entries then multiset{Canonical(x)}
              else multiset{}
      ensures old(Exact()) ==> Exact()
    {
      hide Hash, Holds, Canonical;
      var p := Canonical(x);
      var found, i := Find(p);
      if !x.IsIPv4() {
        Fail48(x);
      }
      if found {
        TakeBack(p, i, disconnect);
      }
    }

    /** One client less. */
    twostate lemma ExactAfterRelease(p: Prefix)
      requires old(Exact()) && old(Connected(p)) > 0
      requires forall q :: q != p ==> Connected(q) == old(Connected(q))
      requires Connected(p) == old(Connected(p)) - 1 && clients == old(clients) - multiset{p}
      ensures Exact()
    {
    }

    /** The part of ip_registry_connect_fail for an address that has an entry. */
    method TakeBack(p: Prefix, i: nat, disconnect: bool)
      requires Valid() && p in entries && i < |table[Hash(p)]| && table[Hash(p)][i] == Entry(p, entries[p])
      requires disconnect ==> entries[p].connected > 0
      modifies this`entries, this`clients, table
      ensures Valid() && (old(Exact()) ==> Exact())
      ensures entries == old(entries)[p :=
              Counts(old(entries)[p].connected - if disconnect then 1
              else 0, Failed(old(entries)[p].attempts, MAX_ATTEMPTS))]
      ensures clients == old(clients) - if disconnect then multiset{p} else multiset{}
    {
      hide Hash, Holds, Exact;
      var n := table[Hash(p)][i].counts;
      var attempts := (n.attempts + 0xff) % 0x100;
      if attempts == 0 {
        attempts := 1;
      }
      if disconnect {
        Set(p, i, Counts(n.connected - 1, attempts));
        clients := clients - multiset{p};
        if old(Exact()) {
          ExactAfterRelease(p);
        }
      } else {
        Set(p, i, Counts(n.connected, attempts));
        if old(Exact()) {
          ExactAfterAttempt();
        }
      }
    }

    /** Attempts do not matter for the number of clients. */
    twostate lemma ExactAfterAttempt()
      requires old(Exact()) && clients == old(clients) && forall q :: Connected(q) == old(Connected(q))
      ensures Exact()
    {
    }

    method Fail48(x: Addr)
      requires Bounded48()
      modifies this`attempts48
      ensures Bounded48() && Attempts48(x) == Failed(old(Attempts48(x)), 0xffff)
    {
      var k := (x.w0, x.w1, x.w2);
      var attempts := if k in attempts48 then attempts48[k] else 0;
      attempts := (attempts + 0xffff) % 0x10000;
      if attempts == 0 {
        attempts := 1;
      }
      attempts48 := attempts48[k := attempts];
    }

    /** ip_registry_disconnect; idle: the last client was there for long. */
    method Disconnect(x: Addr, idle: bool)
      requires Valid()
      requires x.IsValid() ==> Canonical(x) in entries && entries[Canonical(x)].connected > 0
      modifies this`entries, this`clients, table
      ensures Valid() && (old(Exact()) ==> Exact())
      ensures var p := Canonical(x);
        if !x.IsValid() then entries == old(entries) && clients == old(clients)
        else
          var n := old(entries)[p];
          && entries == old(entries)[p := Counts(n.connected - 1, if n.connected == 1 && idle then 0 else n.attempts)]
          && clients == old(clients) - multiset{p}
    {
      hide Hash, Holds, Canonical;
      var p := Canonical(x);
      var found, i := Find(p);
      if !x.IsValid() {
        return;
      }
      var n := table[Hash(p)][i].counts;
      Set(p, i, Counts(n.connected - 1, if n.connected - 1 == 0 && idle then 0 else n.attempts));
      clients := clients - multiset{p};
    }

    /** ip_registry_count. */
    method Count(x: Addr) returns (n: nat)
      requires Valid()
      ensures n == Connected(Canonical(x)) && (Exact() ==> n == clients[Canonical(x)])
    {
      hide Hash, Holds, Canonical;
      var p := Canonical(x);
      var found, i := Find(p);
      n := if found then table[Hash(p)][i].counts.connected else 0;
    }

    /** ip_registry_expire: entries without clients go when they are stale, and so do stale /48 blocks. */
    method Expire(stale: Prefix -> bool, stale48: (bv16, bv16, bv16) -> bool)
      requires Valid() && Bounded48()
      modifies this`attempts48, this`entries, table
      ensures Valid() && Bounded48() && (old(Exact()) ==> Exact())
      ensures attempts48 == map k | k in old(attempts48) && !stale48(k.0, k.1, k.2) :: old(attempts48)[k]
      ensures entries == map p | p in old(entries) && !(old(entries)[p].connected == 0 && stale(p)) :: old(entries)[p]
    {
      hide Hash, Chain;
      ghost var m := map p | p in entries && !(entries[p].connected == 0 && stale(p)) :: entries[p];
      var h := 0;
      while h < TABLE_SIZE
        invariant 0 <= h <= TABLE_SIZE && entries == old(entries) && attempts48 == old(attempts48)
        invariant forall g :: 0 <= g < h ==> Chain(g, table[g], m)
        invariant forall g :: h <= g < TABLE_SIZE ==> Chain(g, table[g], entries)
      {
        var c := Survivors(table[h], stale);
        ChainSurvivors(h, table[h], entries, m, stale);
        table[h] := c;
        h := h + 1;
      }
      entries := m;
      attempts48 := map k | k in attempts48 && !stale48(k.0, k.1, k.2) :: attempts48[k];
    }
  }

  /** The entries of a chain that stay. */
  function Kept(c: seq<Entry>, stale: Prefix -> bool): seq<Entry> {
    if c == [] then []
    else if c[0].counts.connected == 0 && stale(c[0].addr) then Kept(c[1..], stale)
    else [c[0]] + Kept(c[1..], stale)
  }

  /** ip_registry_expire on one chain. */
  method Survivors(c: seq<Entry>, stale: Prefix -> bool) returns (d: seq<Entry>)
    ensures d == Kept(c, stale)
  {
    d := [];
    var i := 0;
    while i < |c|
      invariant 0 <= i <= |c| && d + Kept(c[i..], stale) == Kept(c, stale)
    {
      assert c[i..][0] == c[i] && c[i..][1..] == c[i + 1..];
      if !(c[i].counts.connected == 0 && stale(c[i].addr)) {
        d := d + [c[i]];
      }
      i := i + 1;
    }
  }

  lemma {:induction false} KeptExactly(c: seq<Entry>, stale: Prefix -> bool)
    ensures forall e :: e in Kept(c, stale) <==> e in c && !(e.counts.connected == 0 && stale(e.addr))
  {
    if c != [] {
      KeptExactly(c[1..], stale);
      assert c == [c[0]] + c[1..];
    }
  }

  lemma {:induction false} KeptDistinct(c: seq<Entry>, stale: Prefix -> bool)
    requires forall i, j :: 0 <= i < j < |c| ==> c[i].addr != c[j].addr
    ensures forall i, j :: 0 <= i < j < |Kept(c, stale)| ==> Kept(c, stale)[i].addr != Kept(c, stale)[j].addr
  {
    if c != [] {
      KeptDistinct(c[1..], stale);
      KeptExactly(c[1..], stale);
      var d := Kept(c[1..], stale);
      forall j | 0 <= j < |d| ensures d[j].addr != c[0].addr {
        assert d[j] in d && d[j] in c[1..];
        var k :| 0 <= k < |c[1..]| && c[1..][k] == d[j];
        assert c[k + 1] == d[j];
      }
    }
  }

  lemma ChainSurvivors(h: nat, c: seq<Entry>, was: map<Prefix, Counts>, m: map<Prefix, Counts>, stale: Prefix -> bool)
    requires Chain(h, c, was)
    requires m == map p | p in was && !(was[p].connected == 0 && stale(p)) :: was[p]
    ensures Chain(h, Kept(c, stale), m)
  {
    hide Hash;
    KeptExactly(c, stale);
    KeptDistinct(c, stale);
    var d := Kept(c, stale);
    forall i | 0 <= i < |d| ensures Hash(d[i].addr) == h && d[i].addr in m && m[d[i].addr] == d[i].counts {
      assert d[i] in d && d[i] in c;
    }
    forall p | p in m && Hash(p) == h ensures exists i :: 0 <= i < |d| && d[i].addr == p {
      var j :| 0 <= j < |c| && c[j].addr == p;
      assert c[j] in c && c[j] in d;
    }
  }
}
