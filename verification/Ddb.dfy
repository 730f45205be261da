/**
 A table of the distributed database in memory (ircd/ddb.c): hash chains that act as a map, the chained
 hash over all registers, the log on disk, and the restart from it.
 */
module Ddb {
  import opened Options
  import opened Maps
  import opened Sequences
  import opened CharAttr
  import opened Decimal
  import opened DdbLog
  import opened DdbSeek
  import opened HashFile

  datatype Entry = Entry(key: string, content: string)

  /**
   What the code gets from other places: the bucket of a key, the match of a mask with the name of this server,
   and TEA.
   */
  datatype Env = Env(size: nat, letter: char, bucket: string -> nat, mine: string -> bool, tea: (Hash, string) -> Hash)
  {
    ghost predicate Lawful() {
      && (forall k :: size > 0 ==> bucket(k) < size)
      && (forall h, s :: Fits(tea(h, s)))
    }

    lemma BucketLaw(key: string)
      requires Lawful() && size > 0
      ensures bucket(key) < size
    {
    }

    lemma NoRegisters()
      ensures Contents([]) == map[] && HashAfter([]) == Hash(0, 0) && LastId([]) == 0
    {
    }

    lemma {:induction false} NotResident(rs: seq<Register>)
      ensures size == 0 ==> Contents(rs) == map[]
    {
      if rs != [] {
        NotResident(rs[..|rs| - 1]);
      }
    }

    /** The text that ddb_new_register hashes. */
    function HashText(r: Register): string {
      Digits(r.id) + " " + r.mask + " " + [letter] + " " + KeyPart(r) + "\n"
    }

    /** The effect of a register on the map. */
    function Update(m: map<string, string>, r: Register): map<string, string> {
      if size == 0 || !mine(r.mask) then m
      else match r.content
        case Some(c) => m[Lower(r.key) := c]
        case None => m - {Lower(r.key)}
    }

    /** The state after registers, from a table without any. */
    function Contents(rs: seq<Register>): map<string, string> {
      if rs == [] then map[] else Update(Contents(rs[..|rs| - 1]), rs[|rs| - 1])
    }

    /** r is for the memory of this server and about this key. */
    predicate About(r: Register, key: string) {
      size > 0 && mine(r.mask) && Lower(r.key) == key
    }

    /** got is what the last register about key says; without such a register there is nothing. */
    ghost predicate LastWord(rs: seq<Register>, key: string, got: Option<string>) {
      || (got == None && forall i :: 0 <= i < |rs| ==> !About(rs[i], key))
      || exists i :: 0 <= i < |rs| && SaysLast(rs, key, i) && rs[i].content == got
    }

    ghost predicate SaysLast(rs: seq<Register>, key: string, i: nat)
      requires i < |rs|
    {
      About(rs[i], key) && forall j :: i < j < |rs| ==> !About(rs[j], key)
    }

    /** The table holds for each key what its last register says. */
    lemma {:induction false} LastRegisterCounts(rs: seq<Register>, key: string)
      ensures LastWord(rs, key, Get(Contents(rs), key))
    {
      if rs != [] {
        var front, r := rs[..|rs| - 1], rs[|rs| - 1];
        assert rs == front + [r];
        LastRegisterCounts(front, key);
        if About(r, key) {
          assert SaysLast(rs, key, |rs| - 1);
        } else if i :| 0 <= i < |front| && SaysLast(front, key, i) && front[i].content == Get(Contents(front), key) {
          assert rs[i] == front[i];
          assert SaysLast(rs, key, i);
        }
      }
    }

    function HashAfter(rs: seq<Register>): Hash {
      if rs == [] then Hash(0, 0) else tea(HashAfter(rs[..|rs| - 1]), HashText(rs[|rs| - 1]))
    }

    function LastId(rs: seq<Register>): nat {
      if rs == [] then 0 else rs[|rs| - 1].id
    }
  }

  function Get(m: map<string, string>, key: string): Option<string> {
    if key in m then Some(m[key]) else None
  }

  /** The words of a register as they are written, with a space between them. */
  lemma WrittenWords(env: Env, r: Register)
    ensures var tail := r.key + (if r.content.Some? then " " + r.content.value else "") + "\n";
            && env.HashText(r) == Digits(r.id) + " " + r.mask + " " + [env.letter] + " " + tail
            && Line(r) + "\n" == Digits(r.id) + " " + r.mask + " " + tail
  {
  }

  /** The chain c holds exactly the pairs of m whose keys belong to bucket b, each once. */
  ghost predicate Chain(env: Env, b: nat, c: seq<Entry>, m: map<string, string>) {
    && (forall i :: 0 <= i < |c| ==> env.bucket(c[i].key) == b && c[i].key in m && m[c[i].key] == c[i].content)
    && (forall i, j :: 0 <= i < j < |c| ==> c[i].key != c[j].key)
    && (forall k :: k in m && env.bucket(k) == b ==> exists i :: 0 <= i < |c| && c[i].key == k)
  }

  /** The chains hold exactly the pairs of m. */
  ghost predicate Holds(env: Env, chains: seq<seq<Entry>>, m: map<string, string>) {
    && (forall b :: 0 <= b < |chains| ==> Chain(env, b, chains[b], m))
    && (forall k :: k in m ==> env.bucket(k) < |chains|)
  }

  /** All entries, chain after chain. */
  function Flat(chains: seq<seq<Entry>>): seq<Entry> {
    if chains == [] then [] else chains[0] + Flat(chains[1..])
  }

  lemma FlatStep(chains: seq<seq<Entry>>)
    ensures Flat(chains) == if chains == [] then [] else chains[0] + Flat(chains[1..])
  {
  }

  ghost predicate LowerKeys(m: map<string, string>) {
    forall k :: k in m ==> Lower(k) == k
  }

  class Table {
    const env: Env
    const slot: nat
    const chains: array<seq<Entry>>
    var count: nat
    var lastId: nat
    var hash: Hash
    var log: string     // the file of the table
    var hashes: string  // the file with the hashes of all tables
    // the iterator: number of the current entry in the chain before iterPos
    var iterKey: Option<nat>
    var iterPos: nat
    var iterLen: nat
    ghost var contents: map<string, string>
    ghost var gone: set<string>      // keys dropped after loading
    ghost var loaded: seq<Register>  // the registers the memory comes from
    ghost var logged: seq<Register>  // the registers in the log

    constructor (env: Env, hashes: string, slot: nat)
      requires env.Lawful() && HasSlot(hashes, slot)
      ensures Valid() && Follows() && fresh(chains)
      ensures this.env == env && this.slot == slot && this.hashes == hashes && contents == map[] &&
              loaded == logged == []
    {
      this.env, this.hashes, this.slot := env, hashes, slot;
      chains := new seq<Entry>[env.size](_ => []);
      count, lastId, hash, log := 0, 0, Hash(0, 0), "";
      iterKey, iterPos, iterLen := None, 0, 0;
      contents, gone, loaded, logged := map[], {}, [], [];
      new;
      assert forall b :: 0 <= b < env.size ==> chains[..][b] == [];
    }

    ghost predicate Valid()
      reads this`contents, this`count, this`hash, this`hashes, chains
    {
      && env.Lawful() && chains.Length == env.size && HasSlot(hashes, slot)
      && Holds(env, chains[..], contents) && count == |contents|
      && LowerKeys(contents) && Fits(hash)
    }

    /** The memory is what the registers in loaded make of an empty table. */
    ghost predicate Follows()
      reads this
    {
      && contents == env.Contents(loaded) - gone && gone <= {"*"}
      && hash == env.HashAfter(loaded) && lastId == env.LastId(loaded)
      && log == File(Lines(logged))
    }

    /** Memory and disk agree. */
    ghost predicate Saved()
      reads this
      requires HasSlot(hashes, slot)
    {
      loaded == logged && Load(hashes, slot) == hash
    }

    /** ddb_del_key. */
    method DelKey(key: string) returns (deleted: bool)
      requires Valid() && env.size > 0
      modifies this`count, this`contents, this`iterKey, chains
      ensures iterKey == None
      ensures Valid() && contents == old(contents) - {key} && deleted == (key in old(contents))
    {
      hide Holds, LowerKeys, Env.Lawful;
      iterKey := None;
      env.BucketLaw(key);
      var b := env.bucket(key);
      InChain(env, chains[..], contents, key);
      var i := IndexOf(chains[b], key);
      if i < |chains[b]| {
        Take(b, i);
        return true;
      }
      assert contents - {key} == contents;
      return false;
    }

    /** Take entry i out of chain b. */
    method Take(b: nat, i: nat)
      requires Valid() && b < env.size && i < |chains[b]| && chains[b][i].key in contents
      modifies this`count, this`contents, chains
      ensures Valid() && contents == old(contents) - {old(chains[b])[i].key}
    {
      hide Holds, LowerKeys, Env.Lawful;
      HoldsAfterDelete(env, chains[..], contents, b, i);
      SizeAfterDelete(contents, chains[b][i].key);
      LowerAfter(contents, chains[b][i].key, "");
      contents := contents - {chains[b][i].key};
      chains[b] := chains[b][..i] + chains[b][i + 1..];
      assert chains[..] == old(chains[..])[b := chains[b]];
      count := count - 1;
    }

    /** ddb_add_key. */
    method AddKey(key: string, content: string) returns (update: bool)
      requires Valid() && env.size > 0 && Lower(key) == key
      modifies this`count, this`contents, this`iterKey, chains
      ensures iterKey == None
      ensures Valid() && contents == old(contents)[key := content] && update == (key in old(contents))
    {
      hide Valid;
      update := DelKey(key);
      PushFront(key, content);
      assert contents == old(contents)[key := content];
    }

    /** A new entry goes to the front of its chain. */
    method PushFront(key: string, content: string)
      requires Valid() && env.size > 0 && Lower(key) == key && key !in contents
      modifies this`count, this`contents, chains
      ensures Valid() && contents == old(contents)[key := content]
    {
      hide Holds, LowerKeys, Env.Lawful;
      env.BucketLaw(key);
      var b := env.bucket(key);
      HoldsAfterAdd(env, chains[..], contents, key, content);
      SizeAfterAdd(contents, key, content);
      LowerAfter(contents, key, content);
      chains[b] := [Entry(key, content)] + chains[b];
      assert chains[..] == old(chains[..])[b := chains[b]];
      contents := contents[key := content];
      count := count + 1;
    }

    /** ddb_find_key. */
    method FindKey(key: string) returns (content: Option<string>)
      requires Valid()
      ensures content == if Lower(key) in contents then Some(contents[Lower(key)]) else None
    {
      if env.size == 0 {
        NoChains(env, chains[..], contents);
        return None;
      }
      hide Holds;
      var k := Lower(key);
      LowerIdempotent(key);
      var chain := chains[env.bucket(k)];
      InChain(env, chains[..], contents, k);
      for i := 0 to |chain|
        invariant forall j :: 0 <= j < i ==> chain[j].key != k
      {
        if Lower(chain[i].key) == Lower(k) {
          return Some(chain[i].content);
        }
      }
      return None;
    }

    /** The part of ddb_new_register before the memory: the hash, the log and the last id. */
    method Record(r: Register, network: bool)
      requires Valid()
      modifies this`hash, this`lastId, this`log, this`hashes, this`logged
      ensures Valid() && HasSlot(hashes, slot) && |hashes| == |old(hashes)|
      ensures hash == env.tea(old(hash), env.HashText(r)) && lastId == r.id
      ensures if network then log == old(log) + Line(r) + "\n" && logged == old(logged) + [r] &&
              Load(hashes, slot) == hash
        else log == old(log) && logged == old(logged) && hashes == old(hashes)
      ensures forall other: nat :: other != slot && HasSlot(hashes, other) ==>
              Load(hashes, other) == Load(old(hashes), other)
      ensures var words := r.key + (if r.content.Some? then " " + r.content.value else "") + "\n";
              && hash == env.tea(old(hash), Digits(r.id) + " " + r.mask + " " + [env.letter] + " " + words)
              && (network ==> log == old(log) + (Digits(r.id) + " " + r.mask + " " + words))
    {
      WrittenWords(env, r);
      hide Holds, Digits, LowerKeys, Line, Load, Store, Env.HashText;
      hash := env.tea(hash, env.HashText(r));
      if network {
        Associate(log, Line(r), "\n");
        log := log + Line(r) + "\n";
        logged := logged + [r];
        StoreThenLoad(hashes, slot, env.letter, hash);
        OthersStay(hashes, slot, env.letter, hash);
        hashes := Store(hashes, slot, env.letter, hash);
      }
      lastId := r.id;
    }

    /** The memory part of ddb_new_register: only for a table that is resident, and a mask that is for this server. */
    method Remember(r: Register)
      requires Valid()
      modifies this`count, this`contents, this`iterKey, this`gone, chains
      ensures Valid() && contents == env.Update(old(contents), r)
      ensures !env.About(r, Lower(r.key)) ==> contents == old(contents)
      ensures env.About(r, Lower(r.key)) && r.content.Some? ==>
              contents == old(contents)[Lower(r.key) := r.content.value]
      ensures env.About(r, Lower(r.key)) && r.content.None? ==> contents == old(contents) - {Lower(r.key)}
      ensures gone == if env.size > 0 && env.mine(r.mask) then old(gone) - {Lower(r.key)} else old(gone)
    {
      hide Holds, LowerKeys, Env.Lawful;
      if env.size == 0 {
        return;
      }
      if env.mine(r.mask) {
        var key := Lower(r.key);
        LowerIdempotent(r.key);
        match r.content {
          case Some(c) => var _ := AddKey(key, c);
          case None => var _ := DelKey(key);
        }
        gone := gone - {key};
      }
    }

    /** ddb_new_register, from the network or from the log. */
    method NewRegister(r: Register, network: bool)
      requires Valid() && Follows()
      modifies this`count, this`contents, this`iterKey, this`hash, this`lastId, this`log, this`hashes, this`loaded,
               this`logged, this`gone, chains
      ensures Valid() && Follows() && |hashes| == |old(hashes)| && gone <= old(gone)
      ensures loaded == old(loaded) + [r] && logged == if network then old(logged) + [r] else old(logged)
      ensures contents == env.Update(old(contents), r)
      ensures !env.About(r, Lower(r.key)) ==> contents == old(contents)
      ensures env.About(r, Lower(r.key)) && r.content.Some? ==>
              contents == old(contents)[Lower(r.key) := r.content.value]
      ensures env.About(r, Lower(r.key)) && r.content.None? ==> contents == old(contents) - {Lower(r.key)}
      ensures HasSlot(hashes, slot) && (network && old(Saved()) ==> Saved())
      ensures !network ==> hashes == old(hashes) && log == old(log)
      ensures forall other: nat :: other != slot && HasSlot(hashes, other) ==>
              Load(hashes, other) == Load(old(hashes), other)
    {
      hide Valid, HasSlot, Env.Contents, Env.HashAfter, Env.Update, Env.HashText, Line, Load, File;
      Record(r, network);
      Remember(r);
      loaded := loaded + [r];
      AfterOneMore(env, old(loaded), r, old(gone));
      LogOneMore(old(logged), r);
    }

    /** ddb_drop_memory. */
    method DropMemory()
      requires Valid()
      modifies this`count, this`contents, this`hash, this`lastId, this`loaded, this`gone, chains
      ensures Valid() && loaded == [] && gone == {} && contents == map[] && hash == Hash(0, 0) && lastId == 0
    {
      hide Holds;
      lastId, count, hash := 0, 0, Hash(0, 0);
      loaded, contents, gone := [], map[], {};
      ClearChains();
      EmptyHolds(env, chains[..]);
    }

    method ClearChains()
      requires chains.Length == env.size
      modifies chains
      ensures forall b :: 0 <= b < env.size ==> chains[b] == []
    {
      var i := 0;
      while i < env.size
        invariant 0 <= i <= env.size && forall b :: 0 <= b < i ==> chains[b] == []
      {
        chains[i] := [];
        i := i + 1;
      }
    }

    /** Load the log into an empty memory. */
    method Reload()
      requires Valid() && AllSendable(logged) && log == File(Lines(logged))
      modifies this`count, this`contents, this`iterKey, this`hash, this`lastId, this`log, this`hashes, this`loaded,
               this`logged, this`gone, chains
      ensures Valid() && Follows() && loaded == Readable(logged) && gone == {}
      ensures log == old(log) && logged == old(logged) && hashes == old(hashes)
    {
      hide Valid, File, AllSendable, Env.Contents, Env.HashAfter, Readable;
      DropMemory();
      env.NoRegisters();
      var regs := ReadLog(log, 0, logged);
      FirstFromIs(logged, 0, 0);
      assert logged[0..] == logged;
      LoadAll(regs);
      assert gone == {};
    }

    /** The rest of ddb_table_init: store the hash and forget the key of a packed table. */
    method Settle()
      requires Valid() && Follows()
      modifies this`count, this`contents, this`iterKey, this`hashes, this`gone, chains
      ensures Valid() && Follows() && |hashes| == |old(hashes)|
      ensures contents == env.Contents(loaded) - {"*"} && Load(hashes, slot) == hash
    {
      hide Holds, LowerKeys, Env.Lawful, File, Load, Store, Lines, Env.Contents, Env.HashAfter, Env.LastId;
      StoreThenLoad(hashes, slot, env.letter, hash);
      hashes := Store(hashes, slot, env.letter, hash);
      env.NotResident(loaded);
      if env.size > 0 {
        Forget();
      }
    }

    /** Drop the key that a packed table has for its explanation. */
    method Forget()
      requires Valid() && Follows() && env.size > 0
      modifies this`count, this`contents, this`iterKey, this`gone, chains
      ensures Valid() && Follows() && contents == env.Contents(loaded) - {"*"}
    {
      hide Valid, File, Env.Contents, Env.HashAfter, Env.LastId;
      var _ := DelKey("*");
      gone := gone + {"*"};
    }

    /** ddb_drop. */
    method Drop()
      requires Valid()
      modifies this`count, this`contents, this`hash, this`lastId, this`log, this`hashes, this`loaded, this`logged,
               this`gone, chains
      ensures Valid() && Follows() && loaded == logged == [] && |hashes| == |old(hashes)|
    {
      hide Holds, LowerKeys, Env.Lawful, File, Load, Store, Env.Contents, Env.HashAfter, Env.LastId;
      log, logged := "", [];
      DropMemory();
      hashes := Store(hashes, slot, env.letter, hash);
      NoLines();
      env.NoRegisters();
    }

    /**
     ddb_table_init: load the table from its log, and drop it if the hash is not the one that was stored.
     A table comes back exactly if no line of its log is too long for the reader.
     */
    method TableInit() returns (corrupt: bool)
      requires Valid() && AllSendable(logged) && log == File(Lines(logged))
      modifies this`count, this`contents, this`iterKey, this`hash, this`lastId, this`log, this`hashes, this`loaded,
               this`logged, this`gone, chains
      ensures Valid() && Follows() && |hashes| == |old(hashes)|
      ensures corrupt <==> Load(old(hashes), slot) != env.HashAfter(Readable(old(logged)))
      ensures if corrupt then loaded == logged == [] else loaded == Readable(old(logged)) && logged == old(logged)
      ensures contents == env.Contents(loaded) - {"*"} && Load(hashes, slot) == hash
      ensures old(Follows() && Saved()) ==> (!corrupt && loaded == logged <==> Readable(old(logged)) == old(logged))
    {
      hide Holds, LowerKeys, Env.Lawful, File, Load, AllSendable, Env.Contents, Env.HashAfter, Env.LastId, Readable,
        Lines;
      Reload();
      var stored := Load(hashes, slot);
      corrupt := stored != hash;
      if corrupt {
        Drop();
      }
      Settle();
    }

    /**
     A restart when the log can be read to its end: everything but the explanation of a packed table is there
     again.
     */
    method Restart() returns (corrupt: bool)
      requires Valid() && Follows() && Saved() && AllSendable(logged) && Readable(logged) == logged
      modifies this`count, this`contents, this`iterKey, this`hash, this`lastId, this`log, this`hashes, this`loaded,
               this`logged, this`gone, chains
      ensures Valid() && Follows() && !corrupt && loaded == old(loaded)
      ensures contents == old(contents) - {"*"} && hash == old(hash) && lastId == old(lastId)
    {
      hide Valid, Env.Contents, Env.HashAfter, Env.LastId, Load, File, Readable;
      GoneTwice(env.Contents(loaded), gone);
      corrupt := TableInit();
    }

    /** A server that takes registers from the network and is then started again. */
    method RunAndRestart(rs: seq<Register>) returns (corrupt: bool)
      requires Valid() && Follows() && Saved() && loaded == [] && AllSendable(rs)
      modifies this`count, this`contents, this`iterKey, this`hash, this`lastId, this`log, this`hashes, this`loaded,
               this`logged, this`gone, chains
      ensures Valid() && Follows() && Load(hashes, slot) == hash
      ensures !corrupt && loaded == rs <==> forall i :: 0 <= i < |rs| ==> |Line(rs[i])| <= LINE_LIMIT
      ensures !corrupt && loaded == rs ==>
              contents == env.Contents(rs) - {"*"} && hash == env.HashAfter(rs) && lastId == env.LastId(rs)
      ensures !corrupt && loaded == rs ==> forall key :: key != "*" ==> env.LastWord(rs, key, Get(contents, key))
    {
      hide Valid, Env.LastWord, Env.Contents, Env.HashAfter, Env.LastId, Line, Load, File, Readable;
      Receive(rs);
      ReadableAll(rs);
      corrupt := TableInit();
      forall key | key != "*" ensures env.LastWord(rs, key, Get(env.Contents(rs) - {"*"}, key)) {
        env.LastRegisterCounts(rs, key);
      }
    }

    /** Registers from the network, one after the other. */
    method Receive(rs: seq<Register>)
      requires Valid() && Follows() && Saved() && loaded == []
      modifies this`count, this`contents, this`iterKey, this`hash, this`lastId, this`log, this`hashes, this`loaded,
               this`logged, this`gone, chains
      ensures Valid() && Follows() && HasSlot(hashes, slot) && Saved() && loaded == rs
    {
      assert HasSlot(hashes, slot);
      hide Valid, Follows, Saved, HasSlot;
      var i := 0;
      while i < |rs|
        invariant 0 <= i <= |rs| && Valid() && Follows() && HasSlot(hashes, slot) && Saved() && loaded == rs[..i]
      {
        NewRegister(rs[i], true);
        OneMore(rs, i);
        i := i + 1;
      }
    }

    // ---- the iterator

    /** The iterator stands on an entry, or between two chains. */
    ghost predicate Iterates()
      reads this`iterKey, this`iterPos, this`iterLen, chains
    {
      && iterPos <= iterLen <= chains.Length
      && (iterKey.Some? ==> iterPos > 0 && iterKey.value < |chains[iterPos - 1]|)
    }

    /** The entries that the iterator has not given yet. */
    ghost function Rest(): seq<Entry>
      requires Iterates()
      reads this`iterKey, this`iterPos, this`iterLen, chains
    {
      (if iterKey.Some? then chains[iterPos - 1][iterKey.value + 1..] else []) + Flat(chains[iterPos..iterLen])
    }

    /** ddb_iterator. */
    method Iterate() returns (e: Option<Entry>)
      requires Iterates()
      modifies this`iterKey, this`iterPos, this`iterLen
      ensures Iterates()
      ensures if old(Rest()) == [] then e == None && iterLen == 0
              else e == Some(old(Rest())[0]) && Rest() == old(Rest())[1..]
    {
      if iterKey.Some? {
        if iterKey.value + 1 < |chains[iterPos - 1]| {
          iterKey := Some(iterKey.value + 1);
          return Some(chains[iterPos - 1][iterKey.value]);
        }
        iterKey := None;
      }
      e := NextChain();
    }

    /** The search of ddb_iterator for the next chain that is not empty. */
    method NextChain() returns (e: Option<Entry>)
      requires Iterates() && iterKey == None
      modifies this`iterKey, this`iterPos, this`iterLen
      ensures Iterates()
      ensures if old(Rest()) == [] then e == None && iterLen == 0
              else e == Some(old(Rest())[0]) && Rest() == old(Rest())[1..]
    {
      hide Flat;
      while iterPos < iterLen
        invariant iterKey == None && Iterates() && Rest() == old(Rest()) && iterLen == old(iterLen)
        decreases iterLen - iterPos
      {
        FlatStep(chains[iterPos..iterLen]);
        assert chains[iterPos..iterLen][1..] == chains[iterPos + 1..iterLen];
        var c := chains[iterPos];
        iterPos := iterPos + 1;
        if c != [] {
          iterKey := Some(0);
          return Some(c[0]);
        }
      }
      FlatStep(chains[iterPos..iterLen]);
      iterKey, iterPos, iterLen := None, 0, 0;
      return None;
    }

    /** ddb_iterator_first. */
    method IterateFirst() returns (e: Option<Entry>)
      requires chains.Length == env.size > 0
      modifies this`iterKey, this`iterPos, this`iterLen
      ensures Iterates()
      ensures var all := Flat(chains[..]); if all == [] then e == None else e == Some(all[0]) && Rest() == all[1..]
    {
      iterLen := env.size;
      iterPos := 0;
      iterKey := None;
      assert chains[0..env.size] == chains[..];
      e := Iterate();
    }

    /** The registers of the log, one after the other. */
    method LoadAll(regs: seq<Register>)
      requires Valid() && Follows() && loaded == []
      modifies this`count, this`contents, this`iterKey, this`hash, this`lastId, this`log, this`hashes, this`loaded,
               this`logged, this`gone, chains
      ensures Valid() && Follows() && loaded == regs && gone <= old(gone)
      ensures log == old(log) && logged == old(logged) && hashes == old(hashes)
    {
      hide Valid, Follows;
      var i := 0;
      while i < |regs|
        invariant 0 <= i <= |regs| && Valid() && Follows() && loaded == regs[..i] && gone <= old(gone)
        invariant log == old(log) && logged == old(logged) && hashes == old(hashes)
      {
        NewRegister(regs[i], false);
        OneMore(regs, i);
        i := i + 1;
      }
    }
  }

  lemma AfterOneMore(env: Env, rs: seq<Register>, r: Register, gone: set<string>)
    ensures env.HashAfter(rs + [r]) == env.tea(env.HashAfter(rs), env.HashText(r))
    ensures env.LastId(rs + [r]) == r.id
    ensures env.Update(env.Contents(rs) - gone, r)
      == env.Contents(rs + [r]) - if env.size > 0 && env.mine(r.mask) then gone - {Lower(r.key)} else gone
  {
    assert (rs + [r])[..|rs|] == rs;
    assert env.Contents(rs + [r]) == env.Update(env.Contents(rs), r);
    hide Env.Contents, Env.HashText;
  }

  lemma LogOneMore(rs: seq<Register>, r: Register)
    ensures File(Lines(rs + [r])) == File(Lines(rs)) + Line(r) + "\n"
  {
    StartNext(Lines(rs + [r]), |rs|);
    assert Lines(rs + [r])[..|rs|] == Lines(rs);
    assert Lines(rs + [r])[..|rs| + 1] == Lines(rs + [r]);
  }

  lemma EmptyHolds(env: Env, chains: seq<seq<Entry>>)
    requires forall b :: 0 <= b < |chains| ==> chains[b] == []
    ensures Holds(env, chains, map[])
  {
  }

  lemma OneMore(rs: seq<Register>, i: nat)
    requires i < |rs|
    ensures rs[..i] + [rs[i]] == rs[..i + 1]
  {
  }

  lemma NoLines()
    ensures File(Lines([])) == ""
  {
    assert Lines([]) == [];
  }

  lemma OthersStay(file: string, slot: nat, letter: char, h: Hash)
    requires HasSlot(file, slot)
    ensures forall other: nat :: other != slot && HasSlot(file, other) ==>
            Load(Store(file, slot, letter, h), other) == Load(file, other)
  {
    forall other: nat | other != slot && HasSlot(file, other)
      ensures Load(Store(file, slot, letter, h), other) == Load(file, other) {
      StoreKeepsOthers(file, slot, letter, h, other);
    }
  }

  /** The place of a key in a chain, or the end of the chain. */
  method IndexOf(chain: seq<Entry>, key: string) returns (i: nat)
    ensures i <= |chain| && (i < |chain| ==> chain[i].key == key) && forall j :: 0 <= j < i ==> chain[j].key != key
  {
    i := 0;
    while i < |chain| && chain[i].key != key
      invariant i <= |chain| && forall j :: 0 <= j < i ==> chain[j].key != key
    {
      i := i + 1;
    }
  }

  lemma GoneTwice(m: map<string, string>, gone: set<string>)
    requires gone <= {"*"}
    ensures m - gone - {"*"} == m - {"*"}
  {
  }

  lemma {:induction false} InFlat(chains: seq<seq<Entry>>, e: Entry)
    ensures e in Flat(chains) <==> exists b :: 0 <= b < |chains| && e in chains[b]
  {
    if chains != [] {
      InFlat(chains[1..], e);
      assert forall b :: 0 < b < |chains| ==> chains[b] == chains[1..][b - 1];
    }
  }

  /** Nothing comes twice. */
  lemma {:induction false} FlatDistinct(env: Env, chains: seq<seq<Entry>>, m: map<string, string>, from: nat)
    requires Holds(env, chains, m) && from <= |chains|
    ensures forall i, j :: 0 <= i < j < |Flat(chains[from..])| ==>
            Flat(chains[from..])[i].key != Flat(chains[from..])[j].key
    decreases |chains| - from
  {
    if from < |chains| {
      var c, rest := chains[from], Flat(chains[from + 1..]);
      assert chains[from..][1..] == chains[from + 1..];
      FlatDistinct(env, chains, m, from + 1);
      assert Chain(env, from, c, m);
      forall i, j | 0 <= i < |c| && 0 <= j < |rest| ensures c[i].key != rest[j].key {
        assert rest[j] in rest;
        InFlat(chains[from + 1..], rest[j]);
        var b :| 0 <= b < |chains[from + 1..]| && rest[j] in chains[from + 1..][b];
        assert Chain(env, from + 1 + b, chains[from + 1 + b], m);
      }
      assert Flat(chains[from..]) == c + rest;
    }
  }

  /** A walk over the table meets every pair of the map, and each key once. */
  lemma FlatIsMap(env: Env, chains: seq<seq<Entry>>, m: map<string, string>)
    requires Holds(env, chains, m)
    ensures forall e :: e in Flat(chains) <==> e.key in m && m[e.key] == e.content
    ensures forall i, j :: 0 <= i < j < |Flat(chains)| ==> Flat(chains)[i].key != Flat(chains)[j].key
  {
    forall e: Entry ensures e in Flat(chains) <==> e.key in m && m[e.key] == e.content {
      InFlat(chains, e);
      if e in Flat(chains) {
        var b :| 0 <= b < |chains| && e in chains[b];
        assert Chain(env, b, chains[b], m);
      }
      if e.key in m && m[e.key] == e.content {
        InChain(env, chains, m, e.key);
        assert e in chains[env.bucket(e.key)];
      }
    }
    FlatDistinct(env, chains, m, 0);
    assert chains[0..] == chains;
  }

  lemma LowerAfter(m: map<string, string>, key: string, content: string)
    requires LowerKeys(m)
    ensures LowerKeys(m - {key}) && (Lower(key) == key ==> LowerKeys(m[key := content]))
  {
  }

  lemma ChainAfterDelete(env: Env, b: nat, c: seq<Entry>, m: map<string, string>, i: nat)
    requires Chain(env, b, c, m) && i < |c|
    ensures Chain(env, b, c[..i] + c[i + 1..], m - {c[i].key})
  {
    var d := c[..i] + c[i + 1..];
    assert forall j :: 0 <= j < |d| ==> d[j] == c[if j < i then j else j + 1];
    forall k | k in m && k != c[i].key && env.bucket(k) == b ensures exists j :: 0 <= j < |d| && d[j].key == k {
      var j :| 0 <= j < |c| && c[j].key == k;
      assert d[if j < i then j else j - 1].key == k;
    }
  }

  lemma ChainAfterAdd(env: Env, c: seq<Entry>, m: map<string, string>, key: string, content: string)
    requires Chain(env, env.bucket(key), c, m) && key !in m
    ensures Chain(env, env.bucket(key), [Entry(key, content)] + c, m[key := content])
  {
    var d := [Entry(key, content)] + c;
    assert d[0].key == key;
    forall k | k in m && env.bucket(k) == env.bucket(key) ensures exists j :: 0 <= j < |d| && d[j].key == k {
      var j :| 0 <= j < |c| && c[j].key == k;
      assert d[j + 1].key == k;
    }
    forall j | 0 < j < |d| ensures d[j] == c[j - 1] {
    }
  }

  lemma OtherChain(env: Env, b: nat, c: seq<Entry>, m: map<string, string>, key: string, content: string)
    requires Chain(env, b, c, m) && env.bucket(key) != b
    ensures Chain(env, b, c, m - {key}) && Chain(env, b, c, m[key := content])
  {
  }

  lemma HoldsAfterDelete(env: Env, chains: seq<seq<Entry>>, m: map<string, string>, b: nat, i: nat)
    requires Holds(env, chains, m) && b < |chains| && i < |chains[b]|
    ensures Holds(env, chains[b := chains[b][..i] + chains[b][i + 1..]], m - {chains[b][i].key})
  {
    var key := chains[b][i].key;
    assert Chain(env, b, chains[b], m);
    assert env.bucket(key) == b;
    ChainAfterDelete(env, b, chains[b], m, i);
    hide Chain;
    forall b' | 0 <= b' < |chains| && b' != b ensures Chain(env, b', chains[b'], m - {key}) {
      OtherChain(env, b', chains[b'], m, key, "");
    }
  }

  lemma HoldsAfterAdd(env: Env, chains: seq<seq<Entry>>, m: map<string, string>, key: string, content: string)
    requires Holds(env, chains, m) && key !in m && env.bucket(key) < |chains|
    ensures Holds(env, chains[env.bucket(key) := [Entry(key, content)] + chains[env.bucket(key)]], m[key := content])
  {
    hide Chain;
    ChainAfterAdd(env, chains[env.bucket(key)], m, key, content);
    forall b | 0 <= b < |chains| && b != env.bucket(key) ensures Chain(env, b, chains[b], m[key := content]) {
      OtherChain(env, b, chains[b], m, key, content);
    }
  }

  lemma NoChains(env: Env, chains: seq<seq<Entry>>, m: map<string, string>)
    requires Holds(env, chains, m) && chains == []
    ensures m == map[]
  {
    assert forall k :: k !in m;
  }

  /** A key is in the map exactly if it is in its chain. */
  lemma InChain(env: Env, chains: seq<seq<Entry>>, m: map<string, string>, key: string)
    requires Holds(env, chains, m) && env.bucket(key) < |chains|
    ensures key in m <==> exists i :: 0 <= i < |chains[env.bucket(key)]| && chains[env.bucket(key)][i].key == key
    ensures forall i :: 0 <= i < |chains[env.bucket(key)]| ==> 
      chains[env.bucket(key)][i].key in m && m[chains[env.bucket(key)][i].key] == chains[env.bucket(key)][i].content
  {
    assert Chain(env, env.bucket(key), chains[env.bucket(key)], m);
  }
}
