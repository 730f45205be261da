/**
 Byte queues over chained blocks with one free list and one pool limit (ircd/dbuf.c). Every queue is a plain
 sequence of bytes.
 */
module DBuf {
  import opened Maps
  import opened CharAttr

  const DBUF_SIZE := 2048

  /** There is no line end in s. */
  predicate NoEol(s: seq<char>) {
    forall i :: 0 <= i < |s| ==> !IsEol(s[i])
  }

  /** A block; its bytes are data[start..end]. */
  class Block {
    var next: Block?
    var start: nat
    var end: nat
    const data: array<char>
    ghost var text: seq<char>

    constructor ()
      ensures next == null && start == end == 0 && text == [] && Right() && fresh(data)
    {
      next, start, end, text := null, 0, 0, [];
      data := new char[DBUF_SIZE];
    }

    ghost predicate Right()
      reads this, data
    {
      data.Length == DBUF_SIZE && start <= end <= DBUF_SIZE && text == data[start..end]
    }

    /** Empty an allocated block. */
    method Clear()
      requires data.Length == DBUF_SIZE
      modifies this`next, this`start, this`end, this`text
      ensures Right() && text == [] && next == null && end == 0
    {
      next := null;
      start, end := 0, 0;
      text := [];
    }

    /** memcpy of bytes of buf behind the bytes of the block. */
    method Fill(buf: seq<char>)
      requires Right() && end + |buf| <= DBUF_SIZE
      modifies this`end, this`text, data
      ensures Right() && text == old(text) + buf && end == old(end) + |buf| && start == old(start)
    {
      forall i | 0 <= i < |buf| {
        data[end + i] := buf[i];
      }
      assert data[start..end] == old(data[start..end]);
      assert data[end..end + |buf|] == buf;
      assert data[start..end + |buf|] == data[start..end] + data[end..end + |buf|];
      end := end + |buf|;
      text := text + buf;
    }

    /** Skip the first n bytes. */
    method Skip(n: nat)
      requires Right() && n <= |text|
      modifies this`start, this`text
      ensures Right() && text == old(text)[n..] && start == old(start) + n
    {
      start := start + n;
      text := text[n..];
    }

    /** The characters in front of a line end, among the first limit bytes of the block. */
    method Scan(limit: nat) returns (line: seq<char>)
      requires Right()
      ensures line <= text && |line| <= limit && NoEol(line)
      ensures |line| < limit && |line| < |text| ==> IsEol(text[|line|])
    {
      line := [];
      var at := start;
      var stop := if end - start < limit then end else start + limit;
      while at < stop && !IsEol(data[at])
        invariant start <= at <= stop && line == data[start..at] && NoEol(line)
      {
        line := line + [data[at]];
        at := at + 1;
      }
    }
  }

  function At(s: seq<Block>, i: int): Block? {
    if 0 <= i < |s| then s[i] else null
  }

  ghost predicate Chained(s: seq<Block>)
    reads s`next
  {
    && (forall i {:trigger s[i].next} :: 0 <= i < |s| ==> s[i].next == At(s, i + 1))
    && (forall i, j :: 0 <= i < j < |s| ==> s[i] != s[j])
  }

  function Arrays(s: seq<Block>): set<array<char>> {
    set i | 0 <= i < |s| :: s[i].data
  }

  /** Blocks have arrays of their own. */
  ghost predicate Apart(all: set<Block>) {
    && (forall b :: b in all ==> b.data.Length == DBUF_SIZE)
    && (forall b, c :: b in all && c in all && b != c ==> b.data != c.data)
  }

  /** How many blocks the limit still lets the pool allocate. */
  function Allocatable(limit: int, allocCount: nat): nat {
    var used := allocCount * DBUF_SIZE;
    if limit <= used then 0 else (limit - used + DBUF_SIZE - 1) / DBUF_SIZE
  }

  /** How many blocks n bytes need behind a block with some room. */
  function Needed(n: nat, room: nat): nat {
    if n <= room then 0 else (n - room + DBUF_SIZE - 1) / DBUF_SIZE
  }

  lemma OneMoreAllocated(limit: int, allocCount: nat)
    ensures if allocCount * DBUF_SIZE < limit then
            Allocatable(limit, allocCount) == Allocatable(limit, allocCount + 1) + 1
      else Allocatable(limit, allocCount) == 0
  {
  }

  lemma NeededSteps(n: nat)
    ensures n > 0 ==> Needed(n, 0) == Needed(n, DBUF_SIZE) + 1
    ensures Needed(0, 0) == 0 && forall room: nat :: n <= room ==> Needed(n, room) == 0
    ensures forall room: nat :: room <= n ==> Needed(n - room, 0) == Needed(n, room)
  {
  }

  /** The blocks, their free list, and who owns a block in use. */
  class Pool {
    const limit: int  // FEAT_BUFFERPOOL
    var freeList: Block?
    var allocCount: nat
    var usedCount: nat
    ghost var chain: seq<Block>
    ghost var owner: map<Block, Queue>
    ghost var all: set<Block>

    constructor (limit: int)
      ensures Valid() && owner == map[] && chain == [] && this.limit == limit
    {
      this.limit := limit;
      freeList, allocCount, usedCount, chain, owner, all := null, 0, 0, [], map[], {};
    }

    ghost predicate Valid()
      reads this, chain`next
    {
      && freeList == At(chain, 0) && Chained(chain)
      && (forall i :: 0 <= i < |chain| ==> chain[i] in all && chain[i] !in owner)
      && owner.Keys <= all && Apart(all)
      && usedCount == |owner| && allocCount == usedCount + |chain|
    }

    ghost function Available(): nat
      reads this
    {
      |chain| + Allocatable(limit, allocCount)
    }

    /** What q does to the pool leaves the blocks of other queues with their owners. */
    twostate predicate OnlyFor(new q: Queue)
      reads this
    {
      && (forall b :: b in old(owner) && old(owner)[b] != q ==> b in owner && owner[b] == old(owner)[b])
      && (forall b :: b in owner && owner[b] != q ==> b in old(owner) && old(owner)[b] == owner[b])
    }

    twostate lemma StillValid()
      requires old(Valid()) && unchanged(this) && forall b :: b in chain ==> unchanged(b`next)
      ensures Valid()
    {
      assert forall i :: 0 <= i < |chain| ==> chain[i] in chain;
    }

    /** Blocks on the free list have no owner. */
    lemma FreeIsUnowned()
      requires Valid()
      ensures forall b :: b in chain ==> b !in owner && b in all
    {
    }

    /** dbuf_alloc, for the queue q. */
    method Alloc(q: Queue) returns (db: Block?)
      requires Valid()
      modifies this
      ensures Valid() && OnlyFor(q)
      ensures if old(Available()) == 0 then db == null && owner == old(owner)
              else db != null && Available() == old(Available()) - 1
      ensures db != null ==>
              db !in old(owner) && owner == old(owner)[db := q] && db in all && db.data.Length == DBUF_SIZE
      ensures db != null && db !in old(chain) ==> fresh(db) && fresh(db.data)
      ensures forall b :: b in chain ==> b in old(chain)
    {
      FreeListEmpty();
      OneMoreAllocated(limit, allocCount);
      hide Valid, Allocatable, Apart, Chained, At;
      db := null;
      if freeList != null {
        db := TakeFree(q);
      } else if allocCount * DBUF_SIZE < limit {
        db := new Block();
        Adopt(db, q);
      }
    }

    lemma FreeListEmpty()
      requires Valid()
      ensures freeList == null <==> chain == []
    {
    }

    method TakeFree(q: Queue) returns (db: Block)
      requires Valid() && freeList != null
      modifies this`freeList, this`chain, this`owner, this`usedCount
      ensures |chain| == |old(chain)| - 1 && forall b :: b in chain ==> b in old(chain)
      ensures Valid() && db in old(chain) && db in all && db.data.Length == DBUF_SIZE && db !in old(owner) &&
              owner == old(owner)[db := q]
    {
      assert freeList == chain[0] && freeList.data.Length == DBUF_SIZE;
      hide Apart;
      db := freeList;
      assert db == chain[0] && db.next == At(chain, 1);
      SizeAfterAdd(owner, db, q);
      freeList := db.next;
      chain := chain[1..];
      owner := owner[db := q];
      usedCount := usedCount + 1;
    }

    method Adopt(db: Block, q: Queue)
      requires Valid() && db !in all && db.data.Length == DBUF_SIZE && forall b :: b in all ==> b.data != db.data
      modifies this`all, this`owner, this`usedCount, this`allocCount
      ensures Valid() && owner == old(owner)[db := q] && all == old(all) + {db} && allocCount == old(allocCount) + 1
    {
      SizeAfterAdd(owner, db, q);
      all := all + {db};
      owner := owner[db := q];
      allocCount, usedCount := allocCount + 1, usedCount + 1;
    }

    /** dbuf_free. */
    method Free(db: Block)
      requires Valid() && db in owner
      modifies this`freeList, this`chain, this`owner, this`usedCount, db`next
      ensures Valid() && owner == old(owner) - {db} && |chain| == |old(chain)| + 1
    {
      hide Apart;
      SizeAfterDelete(owner, db);
      usedCount := usedCount - 1;
      owner := owner - {db};
      db.next := freeList;
      freeList := db;
      chain := [db] + chain;
    }
  }

  /** The bytes of blocks in a row. */
  ghost function Join(s: seq<Block>): seq<char>
    reads s`text
  {
    if s == [] then [] else s[0].text + Join(s[1..])
  }

  lemma {:induction false} JoinEnd(s: seq<Block>, b: Block)
    ensures Join(s + [b]) == Join(s) + b.text
  {
    if s == [] {
      assert s + [b] == [b] && [b][1..] == [];
    } else {
      JoinEnd(s[1..], b);
      assert (s + [b])[1..] == s[1..] + [b];
    }
  }

  twostate lemma {:induction false} JoinKept(s: seq<Block>)
    requires forall i :: 0 <= i < |s| ==> s[i].text == old(s[i].text)
    ensures Join(s) == old(Join(s))
  {
    if s != [] {
      JoinKept(s[1..]);
    }
  }

  /** The blocks of s, in this order, are the blocks that q owns. */
  ghost predicate Owns(q: Queue, s: seq<Block>, owner: map<Block, Queue>) {
    && (forall i :: 0 <= i < |s| ==> s[i] in owner && owner[s[i]] == q)
    && (forall b :: b in owner && owner[b] == q ==> b in s)
  }

  lemma OwnsRest(q: Queue, s: seq<Block>, owner: map<Block, Queue>)
    requires s != [] && Owns(q, s, owner) && forall i :: 0 < i < |s| ==> s[i] != s[0]
    ensures s[0] in owner && owner[s[0]] == q && Owns(q, s[1..], owner - {s[0]})
  {
    assert s == [s[0]] + s[1..];
  }

  lemma InArrays(s: seq<Block>, b: Block)
    ensures b in s ==> b.data in Arrays(s)
  {
  }

  lemma MoveOn(front: seq<char>, buf: seq<char>, at: nat, n: nat)
    requires at + n <= |buf|
    ensures front + buf[..at] + buf[at..][..n] == front + buf[..at + n] && buf[at..][n..] == buf[at + n..]
  {
  }

  /** The first bytes of what is left move behind those already taken. */
  lemma CarriedOver(buf: seq<char>, left: seq<char>, bytes: seq<char>, chunk: nat)
    requires bytes <= left && chunk <= |bytes|
    ensures (buf + bytes[..chunk]) + left[chunk..] == buf + left && |bytes[..chunk]| == chunk
  {
    assert left == bytes[..chunk] + left[chunk..];
  }

  lemma NothingOwned(q: Queue, owner: map<Block, Queue>)
    requires Owns(q, [], owner)
    ensures forall b :: b in owner ==> owner[b] != q
  {
  }

  twostate lemma ChainedRest(s: seq<Block>)
    requires s != [] && old(Chained(s)) && forall i :: 0 < i < |s| ==> s[i].next == old(s[i].next)
    ensures Chained(s[1..])
  {
    forall i {:trigger s[1..][i].next} | 0 <= i < |s| - 1 ensures s[1..][i].next == At(s[1..], i + 1) {
      assert old(s[i + 1].next) == At(s, i + 2);
    }
  }

  /** Free the first block of s. */
  method FreeFirst(db: Block, pool: Pool, ghost q: Queue, ghost s: seq<Block>) returns (next: Block?)
    requires pool.Valid() && Chained(s) && s != [] && s[0] == db && Owns(q, s, pool.owner)
    modifies db`next, pool`freeList, pool`chain, pool`owner, pool`usedCount
    ensures pool.Valid() && Chained(s[1..]) && next == At(s[1..], 0) && Owns(q, s[1..], pool.owner) && pool.OnlyFor(q)
    ensures pool.owner == old(pool.owner) - {db}
  {
    hide Pool.Valid, Owns, Chained;
    First(s);
    OwnsRest(q, s, pool.owner);
    next := db.next;
    pool.Free(db);
    ChainedRest(s);
  }

  lemma First(s: seq<Block>)
    requires Chained(s) && s != []
    ensures s[0].next == At(s, 1) && (forall i :: 0 < i < |s| ==> s[i] != s[0])
    ensures At(s, 1) == At(s[1..], 0)
  {
  }

  lemma {:induction false} JoinSplit(s: seq<Block>, k: nat)
    requires k < |s|
    ensures Join(s) == Join(s[..k]) + s[k].text + Join(s[k + 1..])
    ensures Join(s[..k + 1]) == Join(s[..k]) + s[k].text
  {
    assert s[..k + 1] == s[..k] + [s[k]];
    JoinEnd(s[..k], s[k]);
    if k > 0 {
      JoinSplit(s[1..], k - 1);
      assert s[1..][..k - 1] == s[..k][1..] && s[1..][k..] == s[k + 1..];
    }
  }

  /** r is what is left of s without the line ends in front. */
  predicate Stripped(s: seq<char>, r: seq<char>) {
    && |r| <= |s| && r == s[|s| - |r|..] && (r != [] ==> r[0] != '\r' && r[0] != '\n')
    && forall i :: 0 <= i < |s| - |r| ==> s[i] == '\r' || s[i] == '\n'
  }

  /**
   Asking a queue that holds s for a line of less than n bytes: the first bytes up to a line end, which goes too,
   or nothing if there is no line end among the first n bytes.
   */
  ghost predicate LineTaken(s: seq<char>, n: nat, msg: seq<char>, rest: seq<char>) {
    exists t :: Stripped(s, t) && if msg == [] then rest == t && !EndsWithin(t, n) else TookLine(t, n, msg, rest)
  }

  predicate EndsWithin(t: seq<char>, n: nat) {
    exists i :: 0 <= i < |t| && i < n && (t[i] == '\r' || t[i] == '\n')
  }

  predicate TookLine(t: seq<char>, n: nat, msg: seq<char>, rest: seq<char>) {
    && |msg| < n && |msg| < |t| && msg == t[..|msg|] && (t[|msg|] == '\r' || t[|msg|] == '\n')
    && '\r' !in msg && '\n' !in msg && Stripped(t[|msg|..], rest)
  }

  lemma NoLine(s: seq<char>, n: nat, t: seq<char>)
    requires Stripped(s, t) && (FirstEol(t) >= n || FirstEol(t) == |t|)
    ensures LineTaken(s, n, [], t)
  {
  }

  lemma OneLine(s: seq<char>, n: nat, t: seq<char>, rest: seq<char>)
    requires Stripped(s, t) && FirstEol(t) < n && FirstEol(t) < |t| && Stripped(t[FirstEol(t)..], rest)
    ensures LineTaken(s, n, t[..FirstEol(t)], rest)
  {
    assert TookLine(t, n, t[..FirstEol(t)], rest);
  }

  /** The place of the first line end, or the end of s. */
  function FirstEol(s: seq<char>): (n: nat)
    ensures n <= |s| && (forall i :: 0 <= i < n ==> !IsEol(s[i])) && (n < |s| ==> IsEol(s[n]))
  {
    if s == [] || IsEol(s[0]) then 0 else 1 + FirstEol(s[1..])
  }

  lemma {:induction false} FirstEolAt(s: seq<char>, line: seq<char>)
    requires line <= s && |line| < |s| && IsEol(s[|line|]) && NoEol(line)
    ensures FirstEol(s) == |line|
  {
    if line != [] {
      FirstEolAt(s[1..], line[1..]);
    }
  }

  lemma {:induction false} NoEolBefore(s: seq<char>, line: seq<char>)
    requires line <= s && NoEol(line)
    ensures FirstEol(s) >= |line|
  {
    if line != [] {
      NoEolBefore(s[1..], line[1..]);
    }
  }

  /** A part of the text that follows line in s. */
  lemma Walked(s: seq<char>, line: seq<char>, text: seq<char>, part: seq<char>)
    requires line <= s && |line| + |text| <= |s| && s[|line|..|line| + |text|] == text
    requires part <= text && NoEol(line) && NoEol(part)
    ensures line + part <= s && NoEol(line + part)
    ensures |part| < |text| ==> |line + part| < |s| && s[|line + part|] == text[|part|]
    ensures |part| == |text| ==> line + part == line + text
  {
    hide IsEol;
    assert forall i {:trigger text[i]} :: 0 <= i < |text| ==> s[|line|..|line| + |text|][i] == s[|line| + i];
    assert part == text[..|part|];
  }

  class Queue {
    var length: nat
    var head: Block?
    var tail: Block?
    ghost var blocks: seq<Block>
    ghost var contents: seq<char>

    constructor ()
      ensures length == 0 && head == tail == null && blocks == [] && contents == []
    {
      length, head, tail, blocks, contents := 0, null, null, [], [];
    }

    /** The blocks are linked, and they are the blocks this queue owns. */
    ghost predicate Linked(pool: Pool)
      reads this`head, this`tail, this`blocks, blocks`next, pool`owner
    {
      && head == At(blocks, 0) && (blocks != [] ==> tail == blocks[|blocks| - 1]) && Chained(blocks)
      && Owns(this, blocks, pool.owner)
    }

    ghost predicate Holding()
      reads this`blocks, this`contents, blocks, Arrays(blocks)
    {
      && (forall i :: 0 <= i < |blocks| ==> blocks[i].Right())
      && contents == Join(blocks)
    }

    /** No block is empty, but perhaps number k. */
    ghost predicate PackedBut(k: int)
      reads this`blocks, blocks`text
    {
      forall i :: 0 <= i < |blocks| && i != k ==> blocks[i].text != []
    }

    ghost predicate Packed()
      reads this`blocks, blocks`text
    {
      forall i :: 0 <= i < |blocks| ==> blocks[i].text != []
    }

    ghost predicate Valid(pool: Pool)
      reads this, blocks, Arrays(blocks), pool, pool.chain`next
    {
      && pool.Valid() && Linked(pool) && Holding() && Packed() && length == |contents|
      && (blocks == [] ==> tail == null)
    }

    /** Link a new block behind the last one. */
    method LinkTail(db: Block, pool: Pool, ghost was: map<Block, Queue>)
      requires db !in blocks && db.next == null && db !in was && pool.owner == was[db := this]
      requires head == At(blocks, 0) && tail == At(blocks, |blocks| - 1) && Chained(blocks)
      requires forall i :: 0 <= i < |blocks| ==> blocks[i] in was && was[blocks[i]] == this
      requires forall b :: b in was && was[b] == this ==> b in blocks
      modifies this`head, this`tail, this`blocks, blocks`next
      ensures Linked(pool) && blocks == old(blocks) + [db] && tail == db
    {
      if tail == null {
        head := db;
      } else {
        tail.next := db;
      }
      tail := db;
      blocks := blocks + [db];
    }

    lemma LinkFacts(pool: Pool)
      requires Linked(pool)
      ensures head == At(blocks, 0) && (blocks != [] ==> tail == blocks[|blocks| - 1]) && Chained(blocks)
      ensures forall i :: 0 <= i < |blocks| ==> blocks[i] in pool.owner && pool.owner[blocks[i]] == this
      ensures forall b :: b in pool.owner && pool.owner[b] == this ==> b in blocks
      ensures forall b :: b in blocks ==> b in pool.owner
    {
    }

    twostate lemma StillLinked(new pool: Pool)
      requires old(allocated(pool)) && old(Linked(pool)) && pool.owner == old(pool.owner)
      requires unchanged(this`head, this`tail, this`blocks) && forall b :: b in blocks ==> unchanged(b`next)
      ensures Linked(pool)
    {
      assert forall i :: 0 <= i < |blocks| ==> blocks[i] in blocks;
    }

    twostate lemma StillHolding()
      requires old(Holding()) && unchanged(this`blocks, this`contents)
      requires forall b :: b in blocks ==> unchanged(b`text, b`start, b`end, b.data)
      ensures Holding()
    {
      JoinKept(blocks);
      forall i | 0 <= i < |blocks| ensures blocks[i].Right() {
        var b := blocks[i];
        assert old(b.Right());
      }
    }

    twostate lemma HoldingMore(new db: Block)
      requires old(Holding()) && blocks == old(blocks) + [db] && db.Right() && db.text == [] && unchanged(this`contents)
      requires forall b :: b in old(blocks) ==> unchanged(b`text, b`start, b`end, b.data)
      ensures Holding()
    {
      JoinKept(old(blocks));
      JoinEnd(old(blocks), db);
      forall i | 0 <= i < |blocks| ensures blocks[i].Right() {
        if i < |old(blocks)| {
          var b := blocks[i];
          assert b == old(blocks)[i] && old(b.Right());
        }
      }
    }

    /** Clear a block that was just allocated and append it to the queue. */
    method Attach(db: Block, pool: Pool, ghost was: map<Block, Queue>)
      requires pool.Valid() && Holding() && db !in was && pool.owner == was[db := this] && db.data.Length == DBUF_SIZE
      requires head == At(blocks, 0) && tail == At(blocks, |blocks| - 1) && Chained(blocks)
      requires forall i :: 0 <= i < |blocks| ==> blocks[i] in was && was[blocks[i]] == this
      requires forall b :: b in was && was[b] == this ==> b in blocks
      modifies this`head, this`tail, this`blocks, blocks`next, db`next, db`start, db`end, db`text
      ensures pool.Valid() && Linked(pool) && Holding()
      ensures db.text == [] && db.end == 0 && blocks == old(blocks) + [db] && tail == db && db.next == null
    {
      hide Pool.Valid, Linked, Holding;
      pool.FreeIsUnowned();
      assert forall b :: b in blocks ==> b in was;
      db.Clear();
      LinkTail(db, pool, was);
      pool.StillValid();
      HoldingMore(db);
      LinkFacts(pool);
    }

    /** A new empty block at the end of the queue, or null when the pool is exhausted. */
    method NewTail(pool: Pool) returns (db: Block?)
      requires pool.Valid() && Linked(pool) && Holding() && (blocks == [] ==> tail == null)
      modifies this`head, this`tail, this`blocks, blocks`next, pool
      modifies pool.chain`next, pool.chain`start, pool.chain`end, pool.chain`text
      ensures pool.Valid() && Linked(pool) && Holding() && pool.OnlyFor(this)
      ensures if old(pool.Available()) == 0 then db == null && blocks == old(blocks) && pool.owner == old(pool.owner)
        else db != null && pool.Available() == old(pool.Available()) - 1
      ensures db != null ==>
              db.text == [] && db.end == 0 && blocks == old(blocks) + [db] && tail == db && db.next == null
      ensures db != null && db !in old(pool.chain) ==> fresh(db) && fresh(db.data)
      ensures forall b :: b in pool.chain ==> b in old(pool.chain)
      ensures forall b :: b in old(blocks) ==> b.text == old(b.text)
    {
      hide Pool.Valid, Linked, Holding;
      LinkFacts(pool);
      pool.FreeIsUnowned();
      ghost var was := pool.owner;
      db := pool.Alloc(this);
      StillHolding();
      if db == null {
        StillLinked(pool);
      } else {
        Attach(db, pool, was);
      }
    }

    /** Blocks of the queue have arrays of their own. */
    lemma OwnArrays(pool: Pool)
      requires pool.Valid() && Linked(pool)
      ensures forall i, j :: 0 <= i < j < |blocks| ==> blocks[i].data != blocks[j].data
    {
    }

    /** Copy bytes into the last block. */
    method FillTail(chunk: seq<char>, pool: Pool)
      requires pool.Valid() && Linked(pool) && Holding() && PackedBut(|blocks| - 1)
      requires tail != null && blocks != [] && tail.end + |chunk| <= DBUF_SIZE && chunk != []
      modifies this`contents, tail`end, tail`text, tail.data
      ensures pool.Valid() && Linked(pool) && Holding() && Packed()
      ensures contents == old(contents) + chunk && tail.end == old(tail.end) + |chunk|
    {
      hide Pool.Valid, Linked, Holding;
      LinkFacts(pool);
      OwnArrays(pool);
      FillLast(chunk);
      pool.StillValid();
      StillLinked(pool);
    }

    method FillLast(chunk: seq<char>)
      requires Holding() && tail != null && blocks != [] && tail == blocks[|blocks| - 1] &&
               tail.end + |chunk| <= DBUF_SIZE
      requires forall i, j :: 0 <= i < j < |blocks| ==> blocks[i] != blocks[j] && blocks[i].data != blocks[j].data
      modifies this`contents, tail`end, tail`text, tail.data
      ensures Holding() && contents == old(contents) + chunk && tail.text == old(tail.text) + chunk &&
              tail.end == old(tail.end) + |chunk|
    {
      hide Join;
      ghost var front := blocks[..|blocks| - 1];
      assert blocks == front + [tail];
      JoinEnd(front, tail);
      tail.Fill(chunk);
      contents := contents + chunk;
      JoinKept(front);
      JoinEnd(front, tail);
    }

    /** The loop of dbuf_malloc_error. */
    method FreeAll(pool: Pool)
      requires pool.Valid() && Linked(pool)
      modifies blocks`next, pool`freeList, pool`chain, pool`owner, pool`usedCount
      ensures pool.Valid() && pool.OnlyFor(this) && forall b :: b in pool.owner ==> pool.owner[b] != this
    {
      hide Pool.Valid, Owns;
      ghost var s := blocks;
      var db := head;
      while db != null
        invariant pool.Valid() && pool.OnlyFor(this) && Owns(this, s, pool.owner) && Chained(s) && db == At(s, 0)
        invariant forall b :: b in s ==> b in old(blocks)
        decreases |s|
      {
        assert db == s[0] && db in s;
        db := FreeFirst(db, pool, this, s);
        s := s[1..];
      }
      NothingOwned(this, pool.owner);
    }

    /** dbuf_malloc_error: give all blocks back. */
    method MallocError(pool: Pool)
      requires pool.Valid() && Linked(pool)
      modifies this, blocks`next, pool`freeList, pool`chain, pool`owner, pool`usedCount
      ensures Valid(pool) && contents == [] && pool.OnlyFor(this)
    {
      hide Pool.Valid, Linked, Valid;
      FreeAll(pool);
      tail, head, length := null, null, 0;
      blocks, contents := [], [];
      EmptyQueue(pool);
    }

    lemma EmptyQueue(pool: Pool)
      requires pool.Valid() && head == tail == null && blocks == [] && contents == [] && length == 0
      requires forall b :: b in pool.owner ==> pool.owner[b] != this
      ensures Valid(pool)
    {
    }

    /** Room behind the last byte of a block. */
    ghost function Room(db: Block?): nat
      reads db
    {
      if db == null || db.end > DBUF_SIZE then 0 else DBUF_SIZE - db.end
    }

    /** While bytes are appended, behind the block db. */
    ghost predicate Growing(pool: Pool, db: Block?)
      reads this`head, this`tail, this`blocks, this`contents, blocks, Arrays(blocks), pool, pool.chain`next, db
    {
      && pool.Valid() && Linked(pool) && Holding() && Packed() && (blocks == [] ==> tail == null)
      && (db == null || (db == tail && db.end <= DBUF_SIZE))
    }

    /** The blocks come from the queue, from the free list, or are new. */
    twostate predicate GrowsFrom(pool: Pool)
      reads this, pool
    {
      && pool.OnlyFor(this)
      && (forall b :: b in pool.chain ==> b in old(pool.chain))
      && (forall b :: b in blocks ==> b in old(blocks) || b in old(pool.chain) || (fresh(b) && fresh(b.data)))
    }

    twostate lemma Frame(new pool: Pool)
      requires old(allocated(pool)) && GrowsFrom(pool)
      ensures forall i :: 0 <= i < |blocks| ==>
              blocks[i] in old(blocks) || blocks[i] in old(pool.chain) || fresh(blocks[i])
      ensures forall i :: 0 <= i < |pool.chain| ==> pool.chain[i] in old(pool.chain)
      ensures forall a :: a in Arrays(blocks) ==> a in Arrays(old(blocks)) || a in Arrays(old(pool.chain)) || fresh(a)
      ensures forall a :: a in Arrays(pool.chain) ==> a in Arrays(old(pool.chain))
    {
      forall i | 0 <= i < |blocks|
        ensures blocks[i].data in Arrays(old(blocks)) || blocks[i].data in Arrays(old(pool.chain)) ||
        fresh(blocks[i].data) {
        InArrays(old(blocks), blocks[i]);
        InArrays(old(pool.chain), blocks[i]);
      }
      forall i | 0 <= i < |pool.chain| ensures pool.chain[i].data in Arrays(old(pool.chain)) {
        InArrays(old(pool.chain), pool.chain[i]);
      }
    }

    /** The loop body of dbuf_put: fill the block db, or a new one, as far as it goes. */
    method PutStep(db0: Block?, rest: seq<char>, pool: Pool) returns (db: Block?, copied: nat, ok: bool)
      requires Growing(pool, db0) && rest != []
      modifies this`head, this`tail, this`blocks, this`contents, blocks, Arrays(blocks), pool, pool.chain,
               Arrays(pool.chain)
      ensures GrowsFrom(pool)
      ensures if ok then Growing(pool, db) && copied <= |rest| && contents == old(contents) + rest[..copied]
        else pool.Valid() && Linked(pool) && old(pool.Available()) == 0 && db0 == null
      ensures ok ==> (Needed(|rest| - copied, Room(db)) <= pool.Available()
              <==> Needed(|rest|, old(Room(db0))) <= old(pool.Available()))
      ensures ok && copied == 0 ==> db0 != null && db == null
    {
      hide Pool.Valid, Linked, Holding, Needed, Allocatable;
      NeededSteps(|rest|);
      db, copied, ok := db0, 0, true;
      if db == null {
        db := NewTail(pool);
        if db == null {
          return null, 0, false;
        }
      }
      TailEnds(pool);
      var chunk := DBUF_SIZE - db.end;
      if chunk > 0 {
        copied := if chunk > |rest| then |rest| else chunk;
        InArrays(old(blocks), db);
        InArrays(old(pool.chain), db);
        FillTail(rest[..copied], pool);
        TailEnds(pool);
      }
      db := db.next;
    }

    /** The loop of dbuf_put, from the block db on. */
    method PutAll(db0: Block?, buf: seq<char>, pool: Pool) returns (ok: bool, ghost db: Block?)
      requires Growing(pool, db0)
      modifies this`head, this`tail, this`blocks, this`contents, blocks, Arrays(blocks), pool, pool.chain,
               Arrays(pool.chain)
      ensures GrowsFrom(pool)
      ensures ok <==> Needed(|buf|, old(Room(db0))) <= old(pool.Available())
      ensures if ok then Growing(pool, db) && contents == old(contents) + buf else pool.Valid() && Linked(pool)
    {
      hide Pool.Valid, Linked, Holding, Packed, Needed, Allocatable, Growing, Arrays;
      var at, rest := db0, buf;
      assert buf[..0] == [];
      while rest != []
        invariant Growing(pool, at) && GrowsFrom(pool)
        invariant |rest| <= |buf| && rest == buf[|buf| - |rest|..] && contents == old(contents) + buf[..|buf| - |rest|]
        invariant Needed(|rest|, Room(at)) <= pool.Available()
                  <==> Needed(|buf|, old(Room(db0))) <= old(pool.Available())
        decreases |rest|, if at == null then 0 else 1
      {
        NeededSteps(|rest|);
        var copied;
        Frame(pool);
        at, copied, ok := PutStep(at, rest, pool);
        if !ok {
          return false, null;
        }
        MoveOn(old(contents), buf, |buf| - |rest|, copied);
        rest := rest[copied..];
      }
      assert buf[..|buf|] == buf;
      NeededSteps(0);
      return true, at;
    }

    /**
     dbuf_put: the bytes go behind the queue, or the queue is given up; the latter exactly if the pool
     has not enough blocks left.
     */
    method Put(buf: seq<char>, pool: Pool) returns (ok: bool)
      requires Valid(pool)
      modifies this, blocks, Arrays(blocks), pool, pool.chain, Arrays(pool.chain)
      ensures Valid(pool) && pool.OnlyFor(this)
      ensures ok <==> Needed(|buf|, old(Room(tail))) <= old(pool.Available())
      ensures contents == if ok then old(contents) + buf else []
    {
      hide Pool.Valid, Linked, Holding, Packed, Needed, Allocatable, Growing, Arrays;
      var db := if length == 0 then head else tail;
      EmptyOrTail(pool);
      length := length + |buf|;
      ghost var end;
      ok, end := PutAll(db, buf, pool);
      if ok {
        Grown(pool, end);
      } else {
        Frame(pool);
        MallocError(pool);
      }
    }

    lemma TailEnds(pool: Pool)
      requires Linked(pool) && blocks != []
      ensures tail == blocks[|blocks| - 1] && tail.next == null
    {
    }

    lemma Grown(pool: Pool, db: Block?)
      requires Growing(pool, db)
      ensures pool.Valid() && Linked(pool) && Holding() && Packed() && (blocks == [] ==> tail == null)
    {
    }

    lemma EmptyOrTail(pool: Pool)
      requires Valid(pool)
      ensures Growing(pool, if length == 0 then head else tail)
      ensures length == 0 <==> blocks == []
      ensures length == 0 ==> head == null && tail == null
      ensures tail != null ==> tail.Right()
    {
    }

    /** Skip bytes of the first block. */
    method SkipHead(n: nat)
      requires Holding() && head != null && blocks != [] && head == blocks[0] && n <= |head.text|
      requires forall i :: 0 < i < |blocks| ==> blocks[i] != head
      modifies this`contents, head`start, head`text
      ensures Holding() && contents == old(contents)[n..] && head.text == old(head.text)[n..] && n <= |old(contents)|
    {
      ghost var rest := blocks[1..];
      head.Skip(n);
      contents := contents[n..];
      JoinKept(rest);
      forall i | 0 <= i < |blocks| ensures blocks[i].Right() {
        var b := blocks[i];
        assert old(b.Right());
      }
    }

    /** Unlink and free the first block, which is empty. */
    method PopHead(pool: Pool)
      requires pool.Valid() && Linked(pool) && Holding() && head != null && head.text == []
      modifies this`head, this`blocks, head`next, pool`freeList, pool`chain, pool`owner, pool`usedCount
      ensures pool.Valid() && Linked(pool) && Holding() && blocks == old(blocks)[1..] && pool.OnlyFor(this)
    {
      hide Pool.Valid, Chained, Owns;
      var db := head;
      assert old(Join(blocks)) == Join(blocks[1..]);
      head := FreeFirst(db, pool, this, blocks);
      blocks := blocks[1..];
      JoinKept(blocks);
      forall i | 0 <= i < |blocks| ensures blocks[i].Right() {
        var b := blocks[i];
        assert old(blocks)[i + 1] == b && old(b.Right());
      }
    }

    /** Drop bytes from the first block, and the block with its last byte. */
    method DropHead(n: nat, pool: Pool)
      requires pool.Valid() && Linked(pool) && Holding() && Packed() && head != null && n <= |head.text|
      requires n > 0 && length == |contents|
      modifies this`length, this`contents, this`head, this`blocks, blocks, pool`freeList, pool`chain, pool`owner,
               pool`usedCount
      ensures pool.Valid() && Linked(pool) && Holding() && Packed() && pool.OnlyFor(this)
      ensures n <= |old(contents)| && contents == old(contents)[n..] && length == |contents|
      ensures blocks == old(blocks) || blocks == old(blocks)[1..]
    {
      hide Pool.Valid, Linked, Holding;
      HeadFacts(pool);
      SkipHead(n);
      label Skipped:
      length := length - n;
      StillHolding@Skipped();
      pool.StillValid();
      StillLinked(pool);
      RightHead();
      if head.start == head.end {
        PopHead(pool);
      }
    }

    lemma RightHead()
      requires Holding() && blocks != [] && head == blocks[0]
      ensures head.start == head.end <==> head.text == []
    {
    }

    /** dbuf_delete. */
    method Delete(n: nat, pool: Pool)
      requires Valid(pool)
      modifies this, blocks, pool`freeList, pool`chain, pool`owner, pool`usedCount
      ensures Valid(pool) && pool.OnlyFor(this)
      ensures contents == old(contents)[if n < old(length) then n else old(length)..]
      ensures forall b :: b in blocks ==> b in old(blocks)
    {
      hide Pool.Valid, Linked, Holding, Packed;
      var left := if n > length then length else n;
      while left > 0
        invariant pool.Valid() && Linked(pool) && Holding() && Packed() && length == |contents| && pool.OnlyFor(this)
        invariant 0 <= left <= length && contents[left..] == old(contents)[if n < old(length) then n else old(length)..]
        invariant forall b :: b in blocks ==> b in old(blocks)
      {
        HeadFacts(pool);
        var chunk := head.end - head.start;
        if chunk > left {
          chunk := left;
        }
        assert forall i :: 0 <= i < |blocks| ==> blocks[i] in old(blocks);
        assert contents[chunk..][left - chunk..] == contents[left..];
        left := left - chunk;
        DropHead(chunk, pool);
      }
      HeadFacts(pool);
      if head == null {
        length := 0;
        tail := null;
        EmptyQueue(pool);
      }
    }

    lemma HeadFacts(pool: Pool)
      requires pool.Valid() && Linked(pool) && Holding() && Packed()
      ensures head == null <==> contents == []
      ensures head == null <==> blocks == []
      ensures head != null ==> head == blocks[0] && head.Right() && head.text != [] && head.text <= contents
      ensures forall i :: 0 < i < |blocks| ==> blocks[i] != head
      ensures blocks == [] ==> forall b :: b in pool.owner ==> pool.owner[b] != this
    {
    }

    /** dbuf_map, and a copy of the bytes it points to. */
    method Map(pool: Pool) returns (bytes: seq<char>)
      requires Valid(pool)
      ensures Valid(pool) && bytes <= contents && (bytes == [] <==> length == 0)
      ensures bytes == if head == null then [] else head.text
    {
      HeadFacts(pool);
      if length == 0 {
        return [];
      }
      return head.data[head.start..head.end];
    }

    /** dbuf_get. */
    method Get(n: nat, pool: Pool) returns (buf: seq<char>)
      requires Valid(pool)
      modifies this, blocks, pool`freeList, pool`chain, pool`owner, pool`usedCount
      ensures Valid(pool) && pool.OnlyFor(this)
      ensures buf + contents == old(contents) && |buf| == if n < old(length) then n else old(length)
    {
      hide Pool.Valid, Linked, Holding, Packed, Block.Right;
      buf := [];
      var left: nat := n;
      while left > 0 && length > 0
        invariant Valid(pool) && pool.OnlyFor(this)
        invariant buf + contents == old(contents) && |buf| + left == n
        invariant forall b :: b in blocks ==> b in old(blocks)
      {
        var bytes := Map(pool);
        var chunk := if |bytes| > left then left else |bytes|;
        assert forall i :: 0 <= i < |blocks| ==> blocks[i] in old(blocks);
        CarriedOver(buf, contents, bytes, chunk);
        Delete(chunk, pool);
        buf := buf + bytes[..chunk];
        left := left - chunk;
      }
    }

    /** dbuf_flush. */
    method Flush(pool: Pool) returns (count: nat)
      requires Valid(pool)
      modifies this, blocks, pool`freeList, pool`chain, pool`owner, pool`usedCount
      ensures Valid(pool) && pool.OnlyFor(this)
      ensures Stripped(old(contents), contents) && count == |contents|
      ensures forall b :: b in blocks ==> b in old(blocks)
    {
      hide Pool.Valid, Linked, Holding, Packed;
      HeadFacts(pool);
      ghost var k := 0;
      while head != null && IsEol(head.data[head.start])
        invariant Valid(pool) && pool.OnlyFor(this)
        invariant head != null ==>
                  head.Right() && head.start < head.end && contents != [] && head.data[head.start] == contents[0]
        invariant head == null ==> contents == []
        invariant k <= |old(contents)| && contents == old(contents)[k..]
        invariant forall i :: 0 <= i < k ==> IsEol(old(contents)[i])
        invariant forall b :: b in blocks ==> b in old(blocks)
        decreases |contents|
      {
        HeadFacts(pool);
        assert forall i :: 0 <= i < |blocks| ==> blocks[i] in old(blocks);
        DropHead(1, pool);
        k := k + 1;
        HeadFacts(pool);
        if head == null {
          tail := null;
          length := 0;
          EmptyQueue(pool);
          break;
        }
      }
      return length;
    }

    /**
     dbuf_getmsg: line ends in front go; then a line is taken, with the line ends behind it, exactly if
     its end is among the first n bytes.
     */
    method GetMsg(n: nat, pool: Pool) returns (msg: seq<char>)
      requires Valid(pool)
      modifies this, blocks, pool`freeList, pool`chain, pool`owner, pool`usedCount
      ensures Valid(pool) && pool.OnlyFor(this)
      ensures LineTaken(old(contents), n, msg, contents)
    {
      hide Pool.Valid, Linked, Holding, Packed, Join, Owns, LineTaken, FirstEol;
      var size := Flush(pool);
      ghost var t := contents;
      if size == 0 {
        NoLine(old(contents), n, t);
        return [];
      }
      var found, line := Search(n, pool);
      if !found {
        NoLine(old(contents), n, t);
        return [];
      }
      assert forall i :: 0 <= i < |blocks| ==> blocks[i] in old(blocks);
      Delete(|line|, pool);
      assert forall i :: 0 <= i < |blocks| ==> blocks[i] in old(blocks);
      var _ := Flush(pool);
      OneLine(old(contents), n, t, contents);
      return line;
    }

    /** The walk over the blocks for a line end. */
    method Search(n: nat, pool: Pool) returns (found: bool, line: seq<char>)
      requires Valid(pool)
      ensures Valid(pool)
      ensures found <==> FirstEol(contents) < n && FirstEol(contents) < |contents|
      ensures found ==> line == contents[..FirstEol(contents)]
    {
      hide Pool.Valid, Linked, Packed, Join, Owns, Holding, FirstEol, Chained, NoEol;
      var left: nat := if n > length then length else n;
      var db := head;
      ghost var k := 0;
      line := [];
      WalkFacts(pool);
      while left > 0
        invariant 0 <= k <= |blocks| && line <= contents
        invariant left > 0 ==> db == At(blocks, k) && line == Join(blocks[..k])
        invariant |line| + left == (if n > length then length else n)
        invariant NoEol(line)
        decreases |blocks| - k
      {
        InBlock(k, |line|);
        var part := db.Scan(left);
        Walked(contents, line, db.text, part);
        line := line + part;
        if |part| < left && |part| < db.end - db.start {
          FirstEolAt(contents, line);
          Kept(pool);
          return true, line;
        }
        left := left - |part|;
        db := db.next;
        k := k + 1;
        if db == null {
          assert k == |blocks|;
          break;
        }
      }
      WalkedAll(line, k, left);
      NoEolBefore(contents, line);
      Kept(pool);
      return false, [];
    }

    /** Reading keeps everything. */
    twostate lemma Kept(new pool: Pool)
      requires old(allocated(pool)) && old(Valid(pool)) && unchanged(this) && unchanged(pool)
      requires (forall b :: b in pool.chain ==> unchanged(b)) && forall b :: b in blocks ==>
               unchanged(b) && unchanged(b.data)
      ensures Valid(pool)
    {
      pool.StillValid();
      StillLinked(pool);
      StillHolding();
      assert forall i :: 0 <= i < |blocks| ==> blocks[i] in blocks;
    }

    /** The bytes of block k in the contents. */
    lemma InBlock(k: nat, at: nat)
      requires Holding() && k <= |blocks| && at == |Join(blocks[..k])| && at < |contents|
      ensures k < |blocks| && blocks[k].Right() && at + |blocks[k].text| <= |contents|
      ensures contents[at..at + |blocks[k].text|] == blocks[k].text
      ensures contents[..at] == Join(blocks[..k]) && Join(blocks[..k + 1]) == Join(blocks[..k]) + blocks[k].text
    {
      assert blocks[..|blocks|] == blocks;
      JoinSplit(blocks, k);
    }

    /** The walk stops at the end of the contents or of what is searched. */
    lemma WalkedAll(line: seq<char>, k: nat, left: nat)
      requires Holding() && line <= contents
      requires left > 0 ==> k == |blocks| && line == Join(blocks[..k])
      ensures left > 0 ==> line == contents
    {
      assert blocks[..|blocks|] == blocks;
    }

    lemma WalkFacts(pool: Pool)
      requires Valid(pool)
      ensures Holding() && |contents| == length && blocks[..0] == [] && Join([]) == [] && NoEol([])
      ensures head == At(blocks, 0) && forall i {:trigger blocks[i].next} :: 0 <= i < |blocks| ==>
              blocks[i].next == At(blocks, i + 1)
    {
    }

    /** Two queues share no blocks and no arrays, with each other or with the free list. */
    lemma Separate(q: Queue, pool: Pool)
      requires Valid(pool) && q.Valid(pool) && q != this
      ensures forall b :: b in blocks ==>
              b !in q.blocks && b !in pool.chain && b.data !in Arrays(q.blocks) && b.data !in Arrays(pool.chain)
    {
      forall b | b in blocks
        ensures b !in q.blocks && b !in pool.chain && b.data !in Arrays(q.blocks) && b.data !in Arrays(pool.chain) {
        assert b in pool.owner && pool.owner[b] == this;
        assert forall i :: 0 <= i < |q.blocks| ==> q.blocks[i] in pool.owner && pool.owner[q.blocks[i]] == q;
      }
    }

    /** What another queue does leaves this one alone. */
    twostate lemma Undisturbed(new q: Queue, new pool: Pool)
      requires old(allocated(pool)) && old(Valid(pool)) && pool.Valid() && pool.OnlyFor(q) && q != this &&
               unchanged(this)
      requires forall b :: b in blocks ==> unchanged(b) && unchanged(b.data)
      ensures Valid(pool)
    {
      hide Pool.Valid, Linked, Holding, Owns;
      LinkFactsOld(pool);
      OwnsKept(this, blocks, old(pool.owner), pool.owner, q);
      LinkedAnew(pool);
      StillHolding();
    }

    twostate lemma LinkFactsOld(new pool: Pool)
      requires old(allocated(pool)) && old(Linked(pool))
      ensures Owns(this, old(blocks), old(pool.owner))
    {
    }

    twostate lemma LinkedAnew(new pool: Pool)
      requires old(allocated(pool)) && old(Linked(pool)) && Owns(this, blocks, pool.owner)
      requires unchanged(this`head, this`tail, this`blocks) && forall b :: b in blocks ==> unchanged(b`next)
      ensures Linked(pool)
    {
      assert forall i :: 0 <= i < |blocks| ==> blocks[i] in blocks;
    }
  }

  lemma OwnsKept(q: Queue, s: seq<Block>, was: map<Block, Queue>, owner: map<Block, Queue>, actor: Queue)
    requires Owns(q, s, was) && q != actor
    requires forall b :: b in was && was[b] != actor ==> b in owner && owner[b] == was[b]
    requires forall b :: b in owner && owner[b] != actor ==> b in was && was[b] == owner[b]
    ensures Owns(q, s, owner)
  {
  }

  /** A put to one queue, also one that fails, does not touch the other queues of the pool. */
  method PutBeside(q: Queue, other: Queue, buf: seq<char>, pool: Pool) returns (ok: bool)
    requires q != other && q.Valid(pool) && other.Valid(pool)
    modifies q, q.blocks, Arrays(q.blocks), pool, pool.chain, Arrays(pool.chain)
    ensures q.Valid(pool) && q.contents == (if ok then old(q.contents) + buf else [])
    ensures other.Valid(pool) && other.contents == old(other.contents)
  {
    hide Queue.Linked, Queue.Holding, Queue.Packed, Pool.Valid;
    other.Separate(q, pool);
    ok := q.Put(buf, pool);
    other.Undisturbed(q, pool);
  }
}
