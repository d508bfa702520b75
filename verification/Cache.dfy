/** The write-back block cache of fs/cache.c: a hash table of doubly linked chains and an
    LRU list threaded through the same entries. */
module Cache {
  import opened Bytes
  import opened Sequences

  const HASH_SIZE: nat := 1024

  type Page = s: seq<byte> | |s| == 4096 witness Zeros(4096)

  class Entry {
    var block: nat
    var data: Page
    var dirty: bool
    var valid: bool
    var refs: nat         // ref_count, a uint32_t
    var stamp: nat        // access_time, a uint32_t
    var hashNext: Entry?
    var hashPrev: Entry?
    var lruNext: Entry?
    var lruPrev: Entry?

    constructor (block: nat, data: Page, stamp: nat)
      ensures this.block == block && this.data == data && this.stamp == stamp
      ensures !dirty && valid && refs == 0
      ensures hashNext == null && hashPrev == null && lruNext == null && lruPrev == null
    {
      this.block, this.data, this.stamp := block, data, stamp;
      dirty, valid, refs := false, true, 0;
      hashNext, hashPrev, lruNext, lruPrev := null, null, null, null;
    }
  }

  ghost function At(s: seq<Entry>, i: int): Entry? {
    if 0 <= i < |s| then s[i] else null
  }

  /** s is the list from head to tail, with back links. */
  ghost predicate LruList(s: seq<Entry>, head: Entry?, tail: Entry?)
    reads s`lruNext, s`lruPrev
  {
    && NoDup(s) && head == At(s, 0) && tail == At(s, |s| - 1)
    && (forall i {:trigger s[i].lruNext} :: 0 <= i < |s| ==> s[i].lruNext == At(s, i + 1))
    && (forall i {:trigger s[i].lruPrev} :: 0 <= i < |s| ==> s[i].lruPrev == At(s, i - 1))
  }

  /** s is the hash chain starting at head, with back links. */
  ghost predicate HashChain(s: seq<Entry>, head: Entry?)
    reads s`hashNext, s`hashPrev
  {
    && NoDup(s) && head == At(s, 0)
    && (forall i {:trigger s[i].hashNext} :: 0 <= i < |s| ==> s[i].hashNext == At(s, i + 1))
    && (forall i {:trigger s[i].hashPrev} :: 0 <= i < |s| ==> s[i].hashPrev == At(s, i - 1))
  }

  // ----- the device -----

  /** block_num * (4096 / 512) in 32 bits. */
  function Lba(n: nat): nat { n * 8 % TWO32 }

  const MAX_BLOCK: nat := 0x2000_0000

  /** Below 2^29 the sector address identifies the block, and only there. */
  lemma LbaExact(n: nat)
    ensures (forall m: nat :: m < MAX_BLOCK && Lba(m) == Lba(n) && n < MAX_BLOCK ==> m == n)
    ensures Lba(n + MAX_BLOCK) == Lba(n)
    ensures n < 0x2000_0000 ==> Lba(n) == 8 * n
  {
    assert (n + MAX_BLOCK) * 8 == n * 8 + TWO32;
  }

  type Device = map<nat, Page>

  function Sector(disk: Device, n: nat): Page {
    if Lba(n) in disk then disk[Lba(n)] else Zeros(4096)
  }

  // ----- list surgery -----

  /** Unlinks entry e from the chain of bucket idx. */
  method ChainRemove(hash: array<Entry?>, idx: nat, e: Entry, ghost s: seq<Entry>, ghost k: nat)
    requires idx < hash.Length && HashChain(s, hash[idx]) && k < |s| && s[k] == e
    modifies hash, s`hashNext, s`hashPrev
    ensures HashChain(Drop(s, k), hash[idx])
    ensures forall i :: 0 <= i < hash.Length && i != idx ==> hash[i] == old(hash[i])
  {
    DropFacts(s, k);
    assert e.hashNext == At(s, k + 1) && e.hashPrev == At(s, k - 1);
    if hash[idx] == e { hash[idx] := e.hashNext; }
    if e.hashPrev != null { e.hashPrev.hashNext := e.hashNext; }
    if e.hashNext != null { e.hashNext.hashPrev := e.hashPrev; }
    ghost var t := Drop(s, k);
    forall i | 0 <= i < |t|
      ensures t[i].hashNext == At(t, i + 1) && t[i].hashPrev == At(t, i - 1)
    {
      var j := if i < k then i else i + 1;
      assert t[i] == s[j] && old(s[j].hashNext) == At(s, j + 1) && old(s[j].hashPrev) == At(s, j - 1);
    }
  }

  /** Links entry e, in no chain so far, at the front of bucket idx. */
  method ChainAdd(hash: array<Entry?>, idx: nat, e: Entry, ghost s: seq<Entry>)
    requires idx < hash.Length && HashChain(s, hash[idx]) && e !in s
    modifies hash, s`hashPrev, e`hashNext, e`hashPrev
    ensures HashChain([e] + s, hash[idx])
    ensures forall i :: 0 <= i < hash.Length && i != idx ==> hash[i] == old(hash[i])
  {
    e.hashNext := hash[idx];
    e.hashPrev := null;
    if hash[idx] != null { hash[idx].hashPrev := e; }
    hash[idx] := e;
  }

  /** Unlinks e from the LRU list and returns its new ends. */
  method LruUnlink(e: Entry, head: Entry?, tail: Entry?, ghost s: seq<Entry>, ghost k: nat) returns (head': Entry?, tail': Entry?)
    requires LruList(s, head, tail) && k < |s| && s[k] == e
    modifies s`lruNext, s`lruPrev
    ensures LruList(Drop(s, k), head', tail') && e.lruNext == null && e.lruPrev == null
  {
    hide NoDup;
    Apart(s, k);
    assert e.lruNext == At(s, k + 1) && e.lruPrev == At(s, k - 1);
    head', tail' := head, tail;
    if e.lruPrev != null { e.lruPrev.lruNext := e.lruNext; } else { head' := e.lruNext; }
    if e.lruNext != null { e.lruNext.lruPrev := e.lruPrev; } else { tail' := e.lruPrev; }
    e.lruNext := null;
    e.lruPrev := null;
    forall i | 0 <= i < |s| && i != k
      ensures s[i].lruNext == At(s, if i == k - 1 then k + 1 else i + 1)
      ensures s[i].lruPrev == At(s, if i == k + 1 then k - 1 else i - 1)
    {
      assert old(s[i].lruNext) == At(s, i + 1) && old(s[i].lruPrev) == At(s, i - 1) && s[i] != e;
    }
    Bypassed(s, k, head', tail');
  }

  /** A list whose links pass over position k is the list without it. */
  lemma Bypassed(s: seq<Entry>, k: nat, head: Entry?, tail: Entry?)
    requires NoDup(s) && k < |s|
    requires head == At(s, if k == 0 then 1 else 0) && tail == At(s, if k == |s| - 1 then k - 1 else |s| - 1)
    requires forall i {:trigger s[i].lruNext} :: 0 <= i < |s| && i != k ==> s[i].lruNext == At(s, if i == k - 1 then k + 1 else i + 1)
    requires forall i {:trigger s[i].lruPrev} :: 0 <= i < |s| && i != k ==> s[i].lruPrev == At(s, if i == k + 1 then k - 1 else i - 1)
    ensures LruList(Drop(s, k), head, tail)
  {
    hide NoDup;
    hide At;
    hide Drop;
    var t := Drop(s, k);
    assert NoDup(t) by { DropFacts(s, k); }
    DropAt(s, k, 0);
    DropAt(s, k, |s| - 2);
    forall i | 0 <= i < |t|
      ensures t[i].lruNext == At(t, i + 1) && t[i].lruPrev == At(t, i - 1)
    {
      DropAt(s, k, i);
      DropAt(s, k, i + 1);
      DropAt(s, k, i - 1);
    }
  }

  lemma DropAt(s: seq<Entry>, k: nat, i: int)
    requires k < |s|
    ensures var j := if i < k then i else i + 1;
            && |Drop(s, k)| == |s| - 1 && At(Drop(s, k), i) == At(s, j)
            && (0 <= i < |s| - 1 ==> Drop(s, k)[i] == s[j])
  {
  }

  /** Links e, not in the list, at its front, and returns the list's new ends. */
  method LruLink(e: Entry, head: Entry?, tail: Entry?, ghost s: seq<Entry>) returns (head': Entry?, tail': Entry?)
    requires LruList(s, head, tail) && e !in s
    modifies s`lruPrev, e`lruNext, e`lruPrev
    ensures LruList([e] + s, head', tail')
  {
    e.lruNext := head;
    e.lruPrev := null;
    if head != null { head.lruPrev := e; }
    head' := e;
    tail' := if tail == null then e else tail;
  }

  /** The entries of s were last used before tick t, each later than those behind it, and their
      access times are those ticks in 32 bits. */
  ghost predicate Ordered(s: seq<Entry>, used: map<Entry, nat>, t: nat)
    reads s`stamp
  {
    && (forall i :: 0 <= i < |s| ==> s[i] in used && used[s[i]] < t && s[i].stamp == used[s[i]] % TWO32)
    && (forall i, j :: 0 <= i < j < |s| ==> used[s[i]] > used[s[j]])
  }

  /** Access times fall strictly from head to tail. */
  ghost predicate Falling(s: seq<Entry>)
    reads s`stamp
  {
    forall i, j :: 0 <= i < j < |s| ==> s[i].stamp > s[j].stamp
  }

  /** a was last used after b. */
  ghost predicate UsedAfter(used: map<Entry, nat>, a: Entry, b: Entry) {
    a in used && b in used && used[a] > used[b]
  }

  lemma Twice(m: map<Entry, nat>, e: Entry, a: nat, b: nat)
    ensures m[e := a][e := b] == m[e := b]
  {
  }

  lemma SameSpan(a: nat, b: nat, c: nat, d: nat)
    requires a <= b < c <= d && a / TWO32 == d / TWO32
    ensures b % TWO32 < c % TWO32
  {
  }

  lemma Wrapped(a: nat, d: nat)
    requires a < d < a + TWO32 && a / TWO32 != d / TWO32
    ensures a % TWO32 > d % TWO32
  {
  }

  lemma DropOrder(s: seq<Entry>, k: nat, used: map<Entry, nat>, t: nat)
    requires k < |s| && Ordered(s, used, t)
    ensures Ordered(Drop(s, k), used, t)
  {
    var u := Drop(s, k);
    assert forall i :: 0 <= i < |u| ==> u[i] == s[if i < k then i else i + 1];
  }

  /** The chains, the index and the set of entries speak of the same entries: one per
      block, in the block's bucket. */
  ghost predicate IndexRel(chains: seq<seq<Entry>>, repr: set<Entry>, index: map<nat, Entry>)
    reads repr`block, repr`valid
  {
    && |chains| == HASH_SIZE
    && (forall e :: e in repr ==> e.block in index && index[e.block] == e && e.valid && e.block < MAX_BLOCK)
    && (forall b :: b in index ==> index[b] in repr && index[b].block == b && index[b] in chains[b % HASH_SIZE])
    && (forall h, e {:trigger e in chains[h]} :: 0 <= h < HASH_SIZE && e in chains[h] ==> e in repr && e.block % HASH_SIZE == h)
  }

  lemma IndexAdd(chains: seq<seq<Entry>>, repr: set<Entry>, index: map<nat, Entry>, e: Entry)
    requires IndexRel(chains, repr, index) && e !in repr && e.valid && e.block !in index && e.block < MAX_BLOCK
    ensures var h := e.block % HASH_SIZE; IndexRel(chains[h := [e] + chains[h]], repr + {e}, index[e.block := e])
  {
  }

  lemma IndexDrop(chains: seq<seq<Entry>>, repr: set<Entry>, index: map<nat, Entry>, e: Entry, j: nat)
    requires IndexRel(chains, repr, index) && e in repr
    requires var h := e.block % HASH_SIZE; j < |chains[h]| && chains[h][j] == e && NoDup(chains[h])
    ensures var h := e.block % HASH_SIZE; IndexRel(chains[h := Drop(chains[h], j)], repr - {e}, index - {e.block})
  {
    DropFacts(chains[e.block % HASH_SIZE], j);
  }

  /** Entries of different buckets are different. */
  lemma ChainsApart(chains: seq<seq<Entry>>, repr: set<Entry>, index: map<nat, Entry>, idx: nat)
    requires IndexRel(chains, repr, index) && idx < HASH_SIZE
    ensures forall g, x {:trigger x in chains[g]} :: 0 <= g < HASH_SIZE && g != idx && x in chains[g] ==> x !in chains[idx]
  {
  }

  class Cache {
    const hash: array<Entry?>   // cache_hash
    var lruHead: Entry?
    var lruTail: Entry?
    var time: nat               // cache_time, a uint32_t
    var hits: nat
    var misses: nat
    var maxEntries: nat
    var disk: Device

    ghost var repr: set<Entry>          // the entries allocated and not yet freed
    ghost var lru: seq<Entry>           // from lru_head to lru_tail
    ghost var chains: seq<seq<Entry>>   // from each cache_hash[h] on
    ghost var index: map<nat, Entry>    // the entry of each cached block
    ghost var ticks: nat                // how often cache_time was advanced
    ghost var used: map<Entry, nat>     // the tick each entry was last used at
    ghost var refused: nat              // how often kmalloc had no memory

    ghost predicate LruOk()
      reads this`repr, this`lru, this`lruHead, this`lruTail, repr`lruNext, repr`lruPrev
    {
      (forall e :: e in lru ==> e in repr) && LruList(lru, lruHead, lruTail)
    }

    ghost predicate HashOk()
      reads this`repr, this`chains, hash, repr`hashNext, repr`hashPrev
    {
      && hash.Length == HASH_SIZE == |chains|
      && (forall h, e :: 0 <= h < HASH_SIZE && e in chains[h] ==> e in repr)
      && (forall h :: 0 <= h < HASH_SIZE ==> HashChain(chains[h], hash[h]))
    }

    ghost predicate IndexOk()
      reads this`repr, this`chains, this`index, repr`block, repr`valid
    {
      IndexRel(chains, repr, index)
    }

    ghost predicate SameMembers()
      reads this`repr, this`lru
    {
      (forall e :: e in repr ==> e in lru) && (forall e :: e in lru ==> e in repr)
    }

    /** A clean entry holds what the device holds. */
    ghost predicate CleanOk()
      reads this`repr, this`disk, repr`block, repr`dirty, repr`data
    {
      forall e :: e in repr && !e.dirty ==> e.data == Sector(disk, e.block)
    }

    /** The list is in order of last use; access times are the ticks of last use in 32 bits. */
    ghost predicate OrderOk()
      reads this`repr, this`lru, this`time, this`ticks, this`used, repr`stamp
    {
      time == ticks % TWO32 && (forall e :: e in lru ==> e in repr) && Ordered(lru, used, ticks)
    }

    ghost predicate Valid()
      reads this, hash, repr
    {
      LruOk() && HashOk() && IndexOk() && SameMembers() && CleanOk() && OrderOk()
    }

    /** What a reader of block n is entitled to see: the cached copy, else the device. */
    ghost function View(n: nat): Page
      reads this`index, this`disk, index.Values`data
    {
      if n in index then index[n].data else Sector(disk, n)
    }

    constructor (disk: Device)
      ensures Valid() && lru == [] && fresh(hash) && hash.Length == 1024 && this.disk == disk
      ensures hits == 0 && misses == 0 && maxEntries == 0 && refused == 0
      ensures forall n: nat :: View(n) == Sector(disk, n)
    {
      hash := new Entry?[HASH_SIZE](_ => null);
      lruHead, lruTail := null, null;
      time, hits, misses, maxEntries := 0, 0, 0, 0;
      this.disk := disk;
      repr, lru, index, ticks, used, refused := {}, [], map[], 0, map[], 0;
      chains := seq(HASH_SIZE, _ => []);
    }

    /** cache_lookup: walks the chain of the block's bucket. */
    method Lookup(n: nat) returns (e: Entry?)
      requires HashOk() && IndexOk()
      ensures e == if n in index then index[n] else null
    {
      var idx := n % HASH_SIZE;
      e := hash[idx];
      ghost var i := 0;
      while e != null
        invariant i <= |chains[idx]| && e == At(chains[idx], i)
        invariant forall j :: 0 <= j < i ==> chains[idx][j].block != n
        decreases |chains[idx]| - i
      {
        assert e == chains[idx][i] && e in chains[idx];
        if e.block == n && e.valid { return; }
        e := e.hashNext;
        i := i + 1;
      }
      assert forall x :: x in chains[idx] ==> x.block != n;
    }

    method LruRemove(e: Entry, ghost k: nat)
      requires LruOk() && k < |lru| && lru[k] == e
      modifies this`lruHead, this`lruTail, this`lru, repr`lruNext, repr`lruPrev
      ensures LruOk() && lru == Drop(old(lru), k)
    {
      lruHead, lruTail := LruUnlink(e, lruHead, lruTail, lru, k);
      lru := Drop(lru, k);
    }

    method LruAddFront(e: Entry)
      requires LruOk() && e in repr && e !in lru
      modifies this`lruHead, this`lruTail, this`lru, repr`lruNext, repr`lruPrev
      ensures LruOk() && lru == [e] + old(lru)
    {
      lruHead, lruTail := LruLink(e, lruHead, lruTail, lru);
      lru := [e] + lru;
    }

    /** Everything but the relation between clean entries and the device. */
    ghost predicate Linked()
      reads this, hash, repr
    {
      LruOk() && HashOk() && IndexOk() && SameMembers() && OrderOk()
    }

    /** Stamps the entry with the clock and moves it to the front of the LRU list. */
    method Touch(e: Entry, ghost k: nat)
      requires Linked() && k < |lru| && lru[k] == e
      modifies this`time, this`ticks, this`used, this`lruHead, this`lruTail, this`lru, repr`lruNext, repr`lruPrev, repr`stamp
      ensures Linked() && lru == [e] + Drop(old(lru), k) && ticks == old(ticks) + 1 && used == old(used)[e := old(ticks)]
    {
      hide HashOk;
      hide IndexOk;
      hide LruOk;
      hide Ordered;
      hide OrderOk;
      hide SameMembers;
      Members();
      Detach(e, k);
      Requeue(e);
    }

    /** Stamps an entry outside the list and puts it in front. */
    method Requeue(e: Entry)
      requires LruOk() && OrderOk() && e in repr && e !in lru && forall x :: x in repr && x != e ==> x in lru
      modifies this`time, this`ticks, this`used, this`lruHead, this`lruTail, this`lru, repr`lruNext, repr`lruPrev, e`stamp
      ensures LruOk() && OrderOk() && SameMembers() && lru == [e] + old(lru)
      ensures ticks == old(ticks) + 1 && used == old(used)[e := old(ticks)]
    {
      hide LruOk;
      hide Ordered;
      hide OrderOk;
      hide SameMembers;
      ClockOk();
      StampAside(e);
      PushFront(e, old(ticks));
    }

    /** Stamps an entry outside the list; the order of the others stays. */
    method StampAside(e: Entry)
      requires time == ticks % TWO32 && e !in lru && Ordered(lru, used, ticks)
      modifies this`time, this`ticks, this`used, e`stamp
      ensures e.stamp == old(time) && time == ticks % TWO32 && ticks == old(ticks) + 1 && used == old(used)[e := old(ticks)]
      ensures Ordered(lru, used, old(ticks))
    {
      Stamp(e);
    }

    lemma LruNoDup()
      requires LruOk()
      ensures NoDup(lru)
    {
    }

    /** Takes the clock as the access time and advances the clock. */
    method Stamp(e: Entry)
      requires time == ticks % TWO32
      modifies this`time, this`ticks, this`used, e`stamp
      ensures e.stamp == old(time) && time == ticks % TWO32 && ticks == old(ticks) + 1 && used == old(used)[e := old(ticks)]
    {
      e.stamp := time;
      used := used[e := ticks];
      Tick();
    }

    method Tick()
      modifies this`time, this`ticks
      ensures time == (old(time) + 1) % TWO32 && ticks == old(ticks) + 1
    {
      time := (time + 1) % TWO32;
      ticks := ticks + 1;
    }

    /** Links a new entry into the chain of its bucket. */
    method HashInsert(e: Entry)
      requires HashOk() && IndexOk() && e !in repr && e.valid && e.block !in index && e.block < MAX_BLOCK
      modifies this`repr, this`chains, this`index, hash, repr`hashPrev, e`hashNext, e`hashPrev
      ensures HashOk() && IndexOk() && repr == old(repr) + {e} && index == old(index)[e.block := e]
    {
      hide IndexRel;
      var idx := e.block % HASH_SIZE;
      ghost var s := chains[idx];
      ChainsApart(chains, repr, index, idx);
      IndexAdd(chains, repr, index, e);
      ChainAdd(hash, idx, e, s);
      chains := chains[idx := [e] + s];
      repr := repr + {e};
      index := index[e.block := e];
      forall h | 0 <= h < HASH_SIZE
        ensures HashChain(chains[h], hash[h])
      {
        if h != idx {
          assert old(HashChain(chains[h], hash[h]));
          assert forall x :: x in chains[h] ==> x.hashNext == old(x.hashNext) && x.hashPrev == old(x.hashPrev);
        }
      }
    }

    /** kmalloc may fail at any call. */
    method Kmalloc() returns (ok: bool)
      modifies this`refused
      ensures refused == old(refused) + if ok then 0 else 1
    {
      ok := *;
      if !ok { refused := refused + 1; }
    }

    /** cache_insert for a block that is not cached; null exactly when memory is refused. */
    method Insert(n: nat, data: Page) returns (e: Entry?)
      requires Linked() && n !in index && n < MAX_BLOCK
      modifies this`time, this`ticks, this`used, this`lruHead, this`lruTail, this`lru, this`repr, this`chains, this`index, this`refused, hash
      modifies repr`lruNext, repr`lruPrev, repr`hashPrev
      ensures Linked() && fresh(repr - old(repr))
      ensures e == null ==> repr == old(repr) && index == old(index) && lru == old(lru) && ticks == old(ticks) && used == old(used)
      ensures e != null ==> fresh(e) && repr == old(repr) + {e} && index == old(index)[n := e] && lru == [e] + old(lru) && ticks == old(ticks) + 1 && used == old(used)[e := old(ticks)]
      ensures e != null ==> e.data == data && !e.dirty && e.refs == 0 && e.block == n
      ensures refused == old(refused) + if e == null then 1 else 0
    {
      hide HashOk;
      hide IndexOk;
      hide LruOk;
      hide OrderOk;
      hide SameMembers;
      var gotEntry := Kmalloc();
      if !gotEntry { return null; }
      var gotData := Kmalloc();
      if !gotData { return null; }
      e := new Entry(n, data, time);
      Link(e);
    }

    /** Puts a new, stamped entry into its bucket and at the front of the LRU list. */
    method Link(e: Entry)
      requires Linked() && e !in repr && e.valid && e.block !in index && e.block < MAX_BLOCK && e.stamp == time
      modifies this`time, this`ticks, this`used, this`lruHead, this`lruTail, this`lru, this`repr, this`chains, this`index, hash
      modifies repr`lruNext, repr`lruPrev, repr`hashPrev, e`lruNext, e`lruPrev, e`hashNext, e`hashPrev
      ensures Linked() && ticks == old(ticks) + 1 && used == old(used)[e := old(ticks)]
      ensures repr == old(repr) + {e} && index == old(index)[e.block := e] && lru == [e] + old(lru)
    {
      hide HashOk;
      hide IndexOk;
      hide LruOk;
      hide Ordered;
      hide OrderOk;
      hide SameMembers;
      ClockOk();
      Enter(e);
      PushFront(e, old(ticks));
    }

    /** Takes the clock and puts the new entry into its bucket. */
    method Enter(e: Entry)
      requires Linked() && e !in repr && e.valid && e.block !in index && e.block < MAX_BLOCK
      modifies this`time, this`ticks, this`used, this`repr, this`chains, this`index, hash, repr`hashPrev, e`hashNext, e`hashPrev
      ensures LruOk() && HashOk() && IndexOk() && Ordered(lru, used, old(ticks)) && ticks == old(ticks) + 1 && time == ticks % TWO32
      ensures used == old(used)[e := old(ticks)] && repr == old(repr) + {e} && index == old(index)[e.block := e]
      ensures e !in lru && forall x :: x in repr && x != e ==> x in lru
    {
      hide HashOk;
      hide IndexOk;
      hide LruOk;
      hide LruList;
      hide Ordered;
      hide OrderOk;
      hide SameMembers;
      OpenLists();
      Members();
      Mark(e);
      Tick();
      HashInsert(e);
      LruStays();
    }

    /** Takes note that the entry, not in the list yet, is used now. */
    ghost method Mark(e: Entry)
      requires Ordered(lru, used, ticks) && e !in lru
      modifies this`used
      ensures used == old(used)[e := ticks] && Ordered(lru, used, ticks)
    {
      used := used[e := ticks];
    }

    /** Puts an entry stamped at tick t, the last one, in front of the others. */
    method PushFront(e: Entry, ghost t: nat)
      requires LruOk() && Ordered(lru, used, t) && e.stamp == t % TWO32 && ticks == t + 1 && time == ticks % TWO32
      requires e in used && used[e] == t && e in repr && e !in lru && forall x :: x in repr && x != e ==> x in lru
      modifies this`lruHead, this`lruTail, this`lru, repr`lruNext, repr`lruPrev
      ensures LruOk() && OrderOk() && SameMembers() && lru == [e] + old(lru)
    {
      hide Ordered;
      hide OrderOk;
      hide LruList;
      ghost var s := lru;
      LruAddFront(e);
      PushOrder(e, s, t);
    }

    lemma LruStays()
      requires LruList(lru, lruHead, lruTail) && forall e :: e in lru ==> e in repr
      ensures LruOk()
    {
    }

    lemma Members()
      requires SameMembers()
      ensures (forall x :: x in repr ==> x in lru) && (forall x :: x in lru ==> x in repr)
    {
    }

    lemma ClockOk()
      requires OrderOk()
      ensures time == ticks % TWO32 && Ordered(lru, used, ticks)
    {
    }

    /** An entry stamped now and pushed in front keeps the list in time order. */
    lemma PushOrder(e: Entry, s: seq<Entry>, t: nat)
      requires lru == [e] + s && e in repr && (forall x :: x in s ==> x in repr) && Ordered(s, used, t)
      requires e in used && used[e] == t && e.stamp == t % TWO32 && ticks == t + 1 && time == ticks % TWO32
      ensures OrderOk()
    {
      assert forall i :: 0 < i < |lru| ==> lru[i] == s[i - 1];
    }

    // ----- reading and writing -----

    /** Where the entry of a cached block is. */
    lemma Cached(n: nat) returns (k: nat)
      requires Linked() && n in index
      ensures index[n] in repr && index[n].block == n && k < |lru| && lru[k] == index[n]
    {
      k :| 0 <= k < |lru| && lru[k] == index[n];
    }

    /** The entries there were have the references they had, all but e. */
    twostate predicate RefsKept(new e: Entry?)
      reads this`repr, repr
    {
      forall x :: x in old(repr) && x in repr && x != e ==> x.refs == old(x.refs)
    }

    /** One more reference, in 32 bits, if counted. */
    function Refs(refs: nat, counted: bool): nat {
      if counted then (refs + 1) % TWO32 else refs
    }

    /** What an access to block n leaves. It failed exactly if memory was refused, and then the
        entries are what they were. Else the block is cached, used last and in front, its entry
        has one more reference if the access counts, and no other entry came or lost or gained
        a reference. */
    twostate predicate Served(n: nat, ok: bool, counted: bool)
      reads this, repr
    {
      && refused == old(refused) + (if ok then 0 else 1)
      && maxEntries == old(maxEntries)
      && (n in old(index) ==> ok)
      && (!ok ==> repr == old(repr) && index == old(index) && used == old(used) && lru == old(lru) && RefsKept(null))
      && (ok ==>
            && n in index && index[n] in repr && lru != [] && lru[0] == index[n]
            && ticks > 0 && used == old(used)[index[n] := ticks - 1]
            && RefsKept(index[n])
            && if n in old(index) then
                 repr == old(repr) && index == old(index) && index[n].refs == Refs(old(index[n].refs), counted)
               else
                 repr == old(repr) + {index[n]} && index == old(index)[n := index[n]] && index[n].refs == Refs(0, counted))
    }

    /** cache_read: fails exactly when memory is refused, and then changes no entry. */
    method Read(n: nat) returns (ok: bool, buf: Page)
      requires Valid() && n < MAX_BLOCK
      modifies this, hash, repr
      ensures Valid() && fresh(repr - old(repr)) && disk == old(disk)
      ensures forall m: nat :: View(m) == old(View(m))
      ensures ok ==> buf == View(n)
      ensures Served(n, ok, true)
      ensures hits == if n in old(index) then (old(hits) + 1) % TWO32 else old(hits)
      ensures misses == if n in old(index) then old(misses) else (old(misses) + 1) % TWO32
    {
      hide HashOk;
      hide IndexOk;
      hide LruOk;
      hide OrderOk;
      hide SameMembers;
      hide CleanOk;
      hide View;
      var e := Lookup(n);
      if e != null {
        buf := ReadHit(n, e);
        ok := true;
      } else {
        ok, buf := ReadMiss(n);
      }
    }

    method ReadHit(n: nat, e: Entry) returns (buf: Page)
      requires Valid() && n in index && index[n] == e
      modifies this`time, this`ticks, this`used, this`hits, this`lruHead, this`lruTail, this`lru, repr`lruNext, repr`lruPrev, repr`stamp, repr`refs
      ensures Valid() && buf == View(n) && Served(n, true, true) && hits == (old(hits) + 1) % TWO32
      ensures forall m: nat :: View(m) == old(View(m))
    {
      hide HashOk;
      hide IndexOk;
      hide LruOk;
      hide OrderOk;
      hide SameMembers;
      hide CleanOk;
      ghost var k := Cached(n);
      buf := e.data;
      e.refs := (e.refs + 1) % TWO32;
      hits := (hits + 1) % TWO32;
      Touch(e, k);
    }

    method ReadMiss(n: nat) returns (ok: bool, buf: Page)
      requires Valid() && n !in index && n < MAX_BLOCK
      modifies this, hash, repr
      ensures Valid() && fresh(repr - old(repr)) && disk == old(disk)
      ensures forall m: nat :: View(m) == old(View(m))
      ensures ok ==> buf == View(n)
      ensures Served(n, ok, true) && hits == old(hits) && misses == (old(misses) + 1) % TWO32
    {
      hide HashOk;
      hide IndexOk;
      hide LruOk;
      hide OrderOk;
      hide SameMembers;
      hide CleanOk;
      hide View;
      buf := Zeros(4096);
      misses := (misses + 1) % TWO32;
      var gotBuffer := Kmalloc();
      if !gotBuffer { return false, buf; }
      ok, buf := ReadIn(n);
    }

    /** Caches the block and refers to it, if memory allows. */
    method ReadIn(n: nat) returns (ok: bool, buf: Page)
      requires Valid() && n !in index && n < MAX_BLOCK
      modifies this`time, this`ticks, this`used, this`lruHead, this`lruTail, this`lru, this`repr, this`chains, this`index, this`refused, hash
      modifies repr`lruNext, repr`lruPrev, repr`hashPrev
      ensures Valid() && fresh(repr - old(repr)) && Served(n, ok, true)
      ensures forall m: nat :: View(m) == old(View(m))
      ensures ok ==> buf == View(n)
    {
      hide HashOk;
      hide IndexOk;
      hide LruOk;
      hide OrderOk;
      hide SameMembers;
      hide CleanOk;
      hide View;
      buf := Zeros(4096);
      var e := InsertClean(n);
      e := Lookup(n);
      if e != null {
        buf := e.data;
        Refer(e);
        Twice(old(used), e, old(ticks), ticks - 1);
      }
      ok := e != null;
    }

    /** One reference more and a second stamp for the entry already at the front. */
    method Refer(e: Entry)
      requires Valid() && lru != [] && lru[0] == e
      modifies this`time, this`ticks, this`used, e`stamp, e`refs
      ensures Valid() && ticks == old(ticks) + 1 && used == old(used)[e := old(ticks)]
      ensures e.refs == (old(e.refs) + 1) % TWO32
    {
      hide HashOk;
      hide IndexOk;
      hide LruOk;
      hide OrderOk;
      hide SameMembers;
      hide CleanOk;
      e.refs := (e.refs + 1) % TWO32;
      StampFront(e);
    }

    /** Caches what the device holds, if memory allows. */
    method InsertClean(n: nat) returns (e: Entry?)
      requires Valid() && n !in index && n < MAX_BLOCK
      modifies this`time, this`ticks, this`used, this`lruHead, this`lruTail, this`lru, this`repr, this`chains, this`index, this`refused, hash
      modifies repr`lruNext, repr`lruPrev, repr`hashPrev
      ensures Valid() && fresh(repr - old(repr))
      ensures forall m: nat :: View(m) == old(View(m))
      ensures n in index ==> index[n] in repr && index[n].data == View(n) && lru != [] && lru[0] == index[n]
      ensures n in index ==> ticks == old(ticks) + 1 && used == old(used)[index[n] := old(ticks)]
      ensures n !in index ==> used == old(used)
      ensures e == if n in index then index[n] else null
      ensures refused == old(refused) + if n in index then 0 else 1
      ensures n in index ==> repr == old(repr) + {index[n]} && index == old(index)[n := index[n]]
      ensures n !in index ==> repr == old(repr) && index == old(index) && lru == old(lru)
      ensures n in index ==> fresh(index[n]) && index[n].refs == 0
    {
      hide HashOk;
      hide IndexOk;
      hide LruOk;
      hide OrderOk;
      hide SameMembers;
      hide Sector;
      e := Insert(n, Sector(disk, n));
    }

    /** A second stamp for the entry already at the front. */
    method StampFront(e: Entry)
      requires Linked() && lru != [] && lru[0] == e
      modifies this`time, this`ticks, this`used, e`stamp
      ensures Linked() && ticks == old(ticks) + 1 && used == old(used)[e := old(ticks)]
    {
      hide HashOk;
      hide IndexOk;
      hide LruList;
      LruNoDup();
      Stamp(e);
    }

    /** cache_write: fails exactly when memory is refused, and then changes no entry. */
    method Write(n: nat, buf: Page) returns (ok: bool)
      requires Valid() && n < MAX_BLOCK
      modifies this, hash, repr
      ensures Valid() && fresh(repr - old(repr)) && disk == old(disk)
      ensures forall m: nat :: View(m) == if ok && m == n then buf else old(View(m))
      ensures Served(n, ok, false) && (ok ==> index[n].dirty) && hits == old(hits) && misses == old(misses)
    {
      hide HashOk;
      hide IndexOk;
      hide LruOk;
      hide OrderOk;
      hide SameMembers;
      hide CleanOk;
      hide View;
      var e := Lookup(n);
      if e != null {
        ghost var k := Cached(n);
        WriteHit(n, e, buf);
        ok := true;
      } else {
        ok := WriteMiss(n, buf);
      }
    }

    method WriteHit(n: nat, e: Entry, buf: Page)
      requires Valid() && n in index && index[n] == e
      modifies this`time, this`ticks, this`used, this`lruHead, this`lruTail, this`lru, repr`lruNext, repr`lruPrev, repr`stamp, e`data, e`dirty
      ensures Valid() && Served(n, true, false) && e.dirty
      ensures forall m: nat :: View(m) == if m == n then buf else old(View(m))
    {
      hide HashOk;
      hide LruOk;
      hide OrderOk;
      hide SameMembers;
      hide IndexRel;
      ghost var k := Cached(n);
      OneEntryEach(n);
      e.data := buf;
      e.dirty := true;
      Touch(e, k);
    }

    /** Different blocks have different entries. */
    lemma OneEntryEach(n: nat)
      requires IndexOk() && n in index
      ensures index[n] in repr && forall m: nat :: m in index && m != n ==> index[m] != index[n]
    {
    }

    method WriteMiss(n: nat, buf: Page) returns (ok: bool)
      requires Valid() && n !in index && n < MAX_BLOCK
      modifies this, hash, repr
      ensures Valid() && fresh(repr - old(repr)) && disk == old(disk)
      ensures forall m: nat :: View(m) == if ok && m == n then buf else old(View(m))
      ensures Served(n, ok, false) && (ok ==> index[n].dirty) && hits == old(hits) && misses == old(misses)
    {
      hide HashOk;
      hide IndexOk;
      hide LruOk;
      hide OrderOk;
      hide SameMembers;
      hide CleanOk;
      hide View;
      var e := InsertDirty(n, buf);
      if e != null {
        StampFront(e);
        Twice(old(used), e, old(ticks), ticks - 1);
      }
      ok := e != null;
    }

    /** Caches a page the device does not hold, if memory allows. */
    method InsertDirty(n: nat, buf: Page) returns (e: Entry?)
      requires Valid() && n !in index && n < MAX_BLOCK
      modifies this`time, this`ticks, this`used, this`lruHead, this`lruTail, this`lru, this`repr, this`chains, this`index, this`refused, hash
      modifies repr`lruNext, repr`lruPrev, repr`hashPrev
      ensures Valid() && fresh(repr - old(repr))
      ensures forall m: nat :: View(m) == if e != null && m == n then buf else old(View(m))
      ensures e == if n in index then index[n] else null
      ensures e != null ==> e in repr && lru != [] && lru[0] == e && ticks == old(ticks) + 1 && used == old(used)[e := old(ticks)]
      ensures e == null ==> used == old(used) && repr == old(repr) && index == old(index) && lru == old(lru)
      ensures e != null ==> fresh(e) && repr == old(repr) + {e} && index == old(index)[n := e] && e.dirty && e.refs == 0
      ensures refused == old(refused) + if e == null then 1 else 0
    {
      hide HashOk;
      hide IndexOk;
      hide LruOk;
      hide OrderOk;
      hide SameMembers;
      hide Sector;
      e := Insert(n, buf);
      e := Lookup(n);
      if e != null { e.dirty := true; }
    }

    // ----- writing back -----

    /** ide_write_sectors of an entry's page. */
    method WriteBack(e: Entry)
      requires Valid() && e in repr
      modifies this`disk
      ensures Valid() && Sector(disk, e.block) == e.data
      ensures forall m: nat :: m < MAX_BLOCK && m != e.block ==> Sector(disk, m) == old(Sector(disk, m))
      ensures forall m: nat :: m < MAX_BLOCK ==> View(m) == old(View(m))
    {
      hide HashOk;
      hide LruOk;
      hide OrderOk;
      hide SameMembers;
      LbaExact(e.block);
      disk := disk[Lba(e.block) := e.data];
    }

    /** cache_flush */
    method Flush(n: nat)
      requires Valid() && n < MAX_BLOCK
      modifies this`disk, repr`dirty
      ensures Valid()
      ensures forall m: nat :: m < MAX_BLOCK ==> View(m) == old(View(m))
      ensures Sector(disk, n) == View(n) && (n in index ==> !index[n].dirty)
      ensures forall m: nat :: m < MAX_BLOCK && m != n ==> Sector(disk, m) == old(Sector(disk, m))
      ensures forall e :: e in repr && e.block != n ==> e.dirty == old(e.dirty)
    {
      hide HashOk;
      hide LruOk;
      hide OrderOk;
      hide SameMembers;
      hide IndexRel;
      var e := Lookup(n);
      if e == null { return; }
      ghost var k := Cached(n);
      if !e.dirty { return; }
      WriteBack(e);
      e.dirty := false;
    }

    /** cache_flush_all: walks every chain and writes back what is dirty. */
    method FlushAll()
      requires Valid()
      modifies this`disk, repr`dirty
      ensures Valid()
      ensures forall m: nat :: m < MAX_BLOCK ==> View(m) == old(View(m))
      ensures forall m: nat :: m < MAX_BLOCK ==> Sector(disk, m) == View(m)
      ensures forall e :: e in repr ==> !e.dirty
    {
      hide HashOk;
      hide LruOk;
      hide OrderOk;
      hide SameMembers;
      hide IndexRel;
      hide CleanOk;
      hide View;
      ChainCount();
      var h := 0;
      while h < HASH_SIZE
        invariant h <= HASH_SIZE && Valid() && repr == old(repr) && chains == old(chains) && |chains| == HASH_SIZE
        invariant forall m: nat :: m < MAX_BLOCK ==> View(m) == old(View(m))
        invariant forall g, e {:trigger e in chains[g]} :: 0 <= g < h && e in chains[g] ==> e in repr && !e.dirty
      {
        FlushChain(h);
        h := h + 1;
      }
      AllClean();
    }

    lemma ChainCount()
      requires HashOk()
      ensures |chains| == HASH_SIZE
    {
    }

    lemma AllClean()
      requires Valid() && |chains| == HASH_SIZE
      requires forall g, e {:trigger e in chains[g]} :: 0 <= g < HASH_SIZE && e in chains[g] ==> e in repr && !e.dirty
      ensures forall m: nat :: m < MAX_BLOCK ==> Sector(disk, m) == View(m)
      ensures forall e :: e in repr ==> !e.dirty
    {
      forall e | e in repr
        ensures !e.dirty
      {
        InOwnChain(e);
      }
      forall m: nat | m < MAX_BLOCK
        ensures Sector(disk, m) == View(m)
      {
        if m in index { assert index[m] in chains[m % HASH_SIZE]; }
      }
    }

    method FlushChain(h: nat)
      requires Valid() && h < HASH_SIZE && |chains| == HASH_SIZE
      modifies this`disk, repr`dirty
      ensures Valid() && (forall e :: e in repr && !old(e.dirty) ==> !e.dirty)
      ensures forall m: nat :: m < MAX_BLOCK ==> View(m) == old(View(m))
      ensures forall e :: e in chains[h] ==> e in repr && !e.dirty
    {
      hide HashOk;
      hide CleanOk;
      hide LruOk;
      hide OrderOk;
      hide SameMembers;
      hide IndexRel;
      hide View;
      ChainStart(h);
      var e := hash[h];
      ghost var i := 0;
      while e != null
        invariant Valid() && i <= |chains[h]| && e == At(chains[h], i) && (forall x :: x in repr && !old(x.dirty) ==> !x.dirty)
        invariant forall m: nat :: m < MAX_BLOCK ==> View(m) == old(View(m))
        invariant forall j :: 0 <= j < i ==> chains[h][j] in repr && !chains[h][j].dirty
        decreases |chains[h]| - i
      {
        NextInChain(h, i);
        FlushEntry(e);
        e := e.hashNext;
        i := i + 1;
      }
    }

    lemma ChainStart(h: nat)
      requires HashOk() && h < HASH_SIZE
      ensures hash.Length == HASH_SIZE == |chains| && hash[h] == At(chains[h], 0)
    {
      assert HashChain(chains[h], hash[h]);
    }

    lemma NextInChain(h: nat, i: nat)
      requires HashOk() && h < HASH_SIZE && i < |chains[h]|
      ensures chains[h][i] in repr && chains[h][i].hashNext == At(chains[h], i + 1)
    {
      assert HashChain(chains[h], hash[h]) && chains[h][i] in chains[h];
    }

    /** Writes an entry of a chain back if it is dirty. */
    method FlushEntry(e: Entry)
      requires Valid() && e in repr
      modifies this`disk, e`dirty
      ensures Valid() && !e.dirty
      ensures forall m: nat :: m < MAX_BLOCK ==> View(m) == old(View(m))
    {
      hide HashOk;
      hide LruOk;
      hide OrderOk;
      hide SameMembers;
      hide IndexOk;
      hide Sector;
      hide View;
      StillValid(e);
      if e.dirty && e.valid {
        WriteBack(e);
        e.dirty := false;
      }
    }

    lemma StillValid(e: Entry)
      requires IndexOk() && e in repr
      ensures e.valid
    {
    }

    // ----- giving entries up -----

    /** Unlinks the entry from its bucket. */
    method HashRemove(e: Entry)
      requires HashOk() && IndexOk() && e in repr
      modifies this`repr, this`chains, this`index, hash, repr`hashNext, repr`hashPrev
      ensures HashOk() && IndexOk() && repr == old(repr) - {e} && index == old(index) - {e.block}
    {
      hide IndexRel;
      var idx := e.block % HASH_SIZE;
      ghost var s := chains[idx];
      InOwnChain(e);
      ghost var j :| 0 <= j < |s| && s[j] == e;
      assert HashChain(s, hash[idx]);
      ChainsApart(chains, repr, index, idx);
      IndexDrop(chains, repr, index, e, j);
      DropFacts(s, j);
      ChainRemove(hash, idx, e, s, j);
      chains := chains[idx := Drop(s, j)];
      repr := repr - {e};
      index := index - {e.block};
      forall h | 0 <= h < HASH_SIZE
        ensures HashChain(chains[h], hash[h]) && forall x :: x in chains[h] ==> x in repr
      {
        if h != idx {
          assert old(HashChain(chains[h], hash[h]));
          assert forall x :: x in chains[h] ==> x.hashNext == old(x.hashNext) && x.hashPrev == old(x.hashPrev);
        }
      }
    }

    lemma InOwnChain(e: Entry)
      requires IndexOk() && e in repr
      ensures |chains| == HASH_SIZE && e in chains[e.block % HASH_SIZE]
    {
      assert index[e.block] == e;
    }

    /** The counters and the references of the entries still there are what they were. */
    twostate predicate Settled()
      reads this, repr
    {
      && RefsKept(null) && refused == old(refused)
      && hits == old(hits) && misses == old(misses) && maxEntries == old(maxEntries)
    }

    /** Writes the entry back if it is dirty, then removes and frees it. */
    method Discard(e: Entry, ghost k: nat)
      requires Valid() && k < |lru| && lru[k] == e
      modifies this, hash, repr
      ensures Valid() && repr == old(repr) - {e} && index == old(index) - {old(e.block)} && lru == Drop(old(lru), k)
      ensures forall m: nat :: m < MAX_BLOCK ==> View(m) == old(View(m))
      ensures used == old(used) && ticks == old(ticks) && Settled()
    {
      hide HashOk;
      hide LruOk;
      hide OrderOk;
      hide SameMembers;
      hide IndexRel;
      hide View;
      Members();
      if e.dirty { WriteBack(e); }
      Unlink(e, k);
    }

    method Unlink(e: Entry, ghost k: nat)
      requires Valid() && k < |lru| && lru[k] == e && e in repr && e.data == Sector(disk, e.block)
      modifies this`lruHead, this`lruTail, this`lru, this`repr, this`chains, this`index, hash
      modifies repr`lruNext, repr`lruPrev, repr`hashNext, repr`hashPrev
      ensures Valid() && repr == old(repr) - {e} && index == old(index) - {e.block} && lru == Drop(old(lru), k)
      ensures forall m: nat :: View(m) == old(View(m))
    {
      hide HashOk;
      hide IndexOk;
      hide LruOk;
      hide OrderOk;
      hide SameMembers;
      hide Sector;
      OneEntry(e);
      Unthread(e, k);
    }

    /** Takes the entry out of the LRU list and out of its bucket. */
    method Unthread(e: Entry, ghost k: nat)
      requires Linked() && k < |lru| && lru[k] == e && e in repr
      modifies this`lruHead, this`lruTail, this`lru, this`repr, this`chains, this`index, hash
      modifies repr`lruNext, repr`lruPrev, repr`hashNext, repr`hashPrev
      ensures Linked() && repr == old(repr) - {e} && index == old(index) - {e.block} && lru == Drop(old(lru), k)
    {
      hide HashOk;
      hide IndexOk;
      hide LruOk;
      hide LruList;
      hide OrderOk;
      hide Ordered;
      hide SameMembers;
      Detach(e, k);
      OpenLists();
      HashRemove(e);
      CloseLists();
    }

    /** Takes the entry out of the LRU list only. */
    method Detach(e: Entry, ghost k: nat)
      requires LruOk() && OrderOk() && SameMembers() && k < |lru| && lru[k] == e
      modifies this`lruHead, this`lruTail, this`lru, repr`lruNext, repr`lruPrev
      ensures LruOk() && OrderOk() && lru == Drop(old(lru), k)
      ensures forall x :: x in lru <==> x in repr && x != e
    {
      hide LruOk;
      hide Ordered;
      hide NoDup;
      LruNoDup();
      DropFacts(lru, k);
      DropOrder(lru, k, used, ticks);
      LruRemove(e, k);
    }

    lemma OpenLists()
      requires LruOk() && OrderOk()
      ensures LruList(lru, lruHead, lruTail) && time == ticks % TWO32 && Ordered(lru, used, ticks)
    {
      hide LruList;
      hide Ordered;
    }

    lemma CloseLists()
      requires LruList(lru, lruHead, lruTail) && time == ticks % TWO32 && Ordered(lru, used, ticks)
      requires forall e :: e in lru <==> e in repr
      ensures LruOk() && OrderOk() && SameMembers()
    {
      hide LruList;
      hide Ordered;
    }

    lemma OneEntry(e: Entry)
      requires IndexOk() && e in repr
      ensures e.block in index && index[e.block] == e
    {
    }

    /** cache_evict: gives up the entry nearest the tail that nobody references. */
    method Evict() returns (ghost k: int)
      requires Valid()
      modifies this, hash, repr
      ensures Valid() && -1 <= k < |old(lru)|
      ensures used == old(used) && ticks == old(ticks) && Settled()
      ensures forall m: nat :: m < MAX_BLOCK ==> View(m) == old(View(m))
      ensures forall j :: k < j < |old(lru)| ==> old(lru[j].refs) != 0
      ensures k == -1 ==> lru == old(lru) && repr == old(repr) && index == old(index)
      ensures k >= 0 ==> old(lru[k].refs) == 0 && lru == Drop(old(lru), k) && repr == old(repr) - {old(lru)[k]}
      ensures k >= 0 ==> forall j :: 0 <= j < |old(lru)| && j != k && old(lru[j].refs) == 0 ==> UsedAfter(old(used), old(lru)[j], old(lru)[k])
    {
      hide HashOk;
      hide OrderOk;
      hide SameMembers;
      hide IndexRel;
      hide CleanOk;
      hide View;
      var e := lruTail;
      k := |lru| - 1;
      while e != null
        invariant -1 <= k < |lru| && e == At(lru, k)
        invariant forall j :: k < j < |lru| ==> lru[j].refs != 0
        decreases k
      {
        assert e == lru[k] && e.lruPrev == At(lru, k - 1);
        if e.refs == 0 {
          forall j | 0 <= j < |lru| && j != k && lru[j].refs == 0
            ensures UsedAfter(used, lru[j], lru[k])
          {
            EvictsOldest(k, j);
          }
          Discard(e, k);
          return;
        }
        e := e.lruPrev;
        k := k - 1;
      }
    }

    /** The evicted entry is the least recently used of those nobody references. */
    lemma EvictsOldest(k: nat, j: nat)
      requires Valid() && k < |lru| && j < |lru| && j != k && lru[j].refs == 0
      requires forall i :: k < i < |lru| ==> lru[i].refs != 0
      ensures UsedAfter(used, lru[j], lru[k])
    {
    }

    /** Access times compare as the uses do if all were in one span of 2^32 ticks between two
        wraps of the clock; and only then, if none is 2^32 ticks or more before another. */
    lemma StampsExact()
      requires Valid() && lru != []
      ensures lru[0] in used && lru[|lru| - 1] in used
      ensures used[lru[0]] / TWO32 == used[lru[|lru| - 1]] / TWO32 ==> Falling(lru)
      ensures used[lru[0]] < used[lru[|lru| - 1]] + TWO32 ==> (Falling(lru) <==> used[lru[0]] / TWO32 == used[lru[|lru| - 1]] / TWO32)
    {
      hide LruOk;
      hide HashOk;
      hide IndexOk;
      hide CleanOk;
      var newest, oldest := used[lru[0]], used[lru[|lru| - 1]];
      forall i, j | 0 <= i < j < |lru| && newest / TWO32 == oldest / TWO32
        ensures lru[i].stamp > lru[j].stamp
      {
        SameSpan(oldest, used[lru[j]], used[lru[i]], newest);
      }
      if newest / TWO32 != oldest / TWO32 && newest < oldest + TWO32 { Wrapped(oldest, newest); }
    }

    /** cache_invalidate */
    method Invalidate(n: nat)
      requires Valid() && n < MAX_BLOCK
      modifies this, hash, repr
      ensures Valid() && index == old(index) - {n} && repr <= old(repr)
      ensures forall m: nat :: m < MAX_BLOCK ==> View(m) == old(View(m))
      ensures used == old(used) && ticks == old(ticks) && Settled()
    {
      hide HashOk;
      hide LruOk;
      hide OrderOk;
      hide SameMembers;
      hide IndexRel;
      hide CleanOk;
      hide View;
      var e := Lookup(n);
      if e == null { return; }
      ghost var k := Cached(n);
      Discard(e, k);
    }

    lemma ListLength()
      requires LruOk() && SameMembers()
      ensures |lru| == |repr|
    {
      NoDupCard(lru);
      assert (set e | e in lru) == repr;
    }

    /** The number of linked entries, counted chain by chain: as many as the LRU list has. */
    method Count() returns (c: nat)
      requires HashOk() && IndexOk() && LruOk() && SameMembers()
      ensures c == |repr| == |lru|
    {
      hide HashOk;
      hide IndexOk;
      hide LruOk;
      hide SameMembers;
      hide SeenTo;
      ListLength();
      ChainCount();
      c := 0;
      ghost var seen: set<Entry> := {};
      SeenNone();
      var h := 0;
      while h < HASH_SIZE
        invariant h <= HASH_SIZE && c == |seen| && SeenTo(seen, h)
      {
        var len := CountChain(h);
        SeenMore(seen, h);
        seen := seen + set e | e in chains[h];
        c := c + len;
        h := h + 1;
      }
      SeenAll(seen);
    }

    /** seen holds the entries of the first h chains. */
    ghost predicate SeenTo(seen: set<Entry>, h: nat)
      reads this`repr, this`chains, repr`block
    {
      && |chains| == HASH_SIZE
      && (forall e :: e in seen ==> e in repr && e.block % HASH_SIZE < h)
      && (forall g, e {:trigger e in chains[g]} :: 0 <= g < h && g < HASH_SIZE && e in chains[g] ==> e in seen)
    }

    lemma SeenNone()
      requires |chains| == HASH_SIZE
      ensures SeenTo({}, 0)
    {
    }

    lemma SeenMore(seen: set<Entry>, h: nat)
      requires IndexOk() && h < HASH_SIZE && SeenTo(seen, h)
      ensures var more := set e | e in chains[h]; SeenTo(seen + more, h + 1) && |seen + more| == |seen| + |more|
    {
      var more := set e | e in chains[h];
      assert forall e :: e in more ==> e in chains[h] && e in repr && e.block % HASH_SIZE == h;
      assert seen !! more;
    }

    lemma SeenAll(seen: set<Entry>)
      requires IndexOk() && SeenTo(seen, HASH_SIZE)
      ensures seen == repr
    {
      forall e | e in repr
        ensures e in seen
      {
        InOwnChain(e);
      }
    }

    method CountChain(h: nat) returns (len: nat)
      requires HashOk() && IndexOk() && h < HASH_SIZE
      ensures len == |chains[h]| == |set e | e in chains[h]|
    {
      hide IndexRel;
      len := 0;
      var e := hash[h];
      ghost var i := 0;
      assert HashChain(chains[h], hash[h]);
      while e != null
        invariant len == i <= |chains[h]| && e == At(chains[h], i)
        decreases |chains[h]| - i
      {
        assert e == chains[h][i] && e in chains[h] && e.hashNext == At(chains[h], i + 1);
        StillValid(e);
        if e.valid { len := len + 1; }
        e := e.hashNext;
        i := i + 1;
      }
      NoDupCard(chains[h]);
    }

    /** cache_prefetch: fails exactly when the block is not cached and either the cache is at its
        limit or memory is refused. */
    method Prefetch(n: nat) returns (ok: bool)
      requires Valid() && n < MAX_BLOCK
      modifies this, hash, repr
      ensures Valid() && fresh(repr - old(repr)) && disk == old(disk)
      ensures forall m: nat :: View(m) == old(View(m))
      ensures var full := n !in old(index) && maxEntries > 0 && |old(repr)| >= maxEntries;
              && (full ==> !ok && refused == old(refused) && repr == old(repr) && used == old(used) && lru == old(lru) && RefsKept(null))
              && (!full ==> Served(n, ok, false))
      ensures n in old(index) ==> ok
      ensures n !in old(index) && maxEntries > 0 && ok ==> |repr| <= maxEntries
      ensures ok ==> n in index
      ensures hits == old(hits) && misses == old(misses) && maxEntries == old(maxEntries)
    {
      hide HashOk;
      hide LruOk;
      hide OrderOk;
      hide SameMembers;
      hide IndexRel;
      hide CleanOk;
      hide View;
      var e := Lookup(n);
      if e != null {
        Renew(n, e);
        return true;
      }
      if maxEntries > 0 {
        var current := Count();
        if current >= maxEntries { return false; }
      }
      ok := Fetch(n);
    }

    method Renew(n: nat, e: Entry)
      requires Valid() && n in index && index[n] == e
      modifies this`time, this`ticks, this`used, this`lruHead, this`lruTail, this`lru, repr`lruNext, repr`lruPrev, repr`stamp
      ensures Valid() && Served(n, true, false)
      ensures forall m: nat :: View(m) == old(View(m))
    {
      hide HashOk;
      hide IndexOk;
      hide LruOk;
      hide OrderOk;
      hide SameMembers;
      hide CleanOk;
      ghost var k := Cached(n);
      Touch(e, k);
    }

    method Fetch(n: nat) returns (ok: bool)
      requires Valid() && n !in index && n < MAX_BLOCK
      modifies this`time, this`ticks, this`used, this`lruHead, this`lruTail, this`lru, this`repr, this`chains, this`index, this`refused, hash
      modifies repr`lruNext, repr`lruPrev, repr`hashPrev
      ensures Valid() && fresh(repr - old(repr))
      ensures forall m: nat :: View(m) == old(View(m))
      ensures ok ==> n in index && |repr| == |old(repr)| + 1
      ensures Served(n, ok, false)
    {
      hide HashOk;
      hide IndexOk;
      hide LruOk;
      hide OrderOk;
      hide SameMembers;
      hide CleanOk;
      hide View;
      var gotBuffer := Kmalloc();
      if !gotBuffer { return false; }
      var e := InsertClean(n);
      ok := e != null;
    }
  }

  // ----- every run refines a plain disk -----

  datatype Op = OpRead(n: nat) | OpWrite(n: nat, page: Page) | OpFlush(n: nat) | OpFlushAll | OpEvict | OpPrefetch(n: nat) | OpInvalidate(n: nat) {
    predicate Ok() {
      OpFlushAll? || OpEvict? || n < MAX_BLOCK
    }
  }

  /** What one operation reported: whether it succeeded, and the page a read delivered. */
  datatype Outcome = Outcome(ok: bool, page: Page)

  /** Block m of a plain disk that started with v and saw the successful writes in ops. */
  ghost function Plain(ops: seq<Op>, outs: seq<Outcome>, m: nat, v: Page): Page
    requires |ops| == |outs|
  {
    if ops == [] then v
    else
      var op, before := ops[|ops| - 1], Plain(ops[..|ops| - 1], outs[..|ops| - 1], m, v);
      if op.OpWrite? && op.n == m && outs[|ops| - 1].ok then op.page else before
  }

  method Perform(c: Cache, op: Op) returns (out: Outcome)
    requires c.Valid() && op.Ok()
    modifies c, c.hash, c.repr
    ensures c.Valid() && fresh(c.repr - old(c.repr))
    ensures forall m: nat :: m < MAX_BLOCK ==> c.View(m) == if op.OpWrite? && op.n == m && out.ok then op.page else old(c.View(m))
    ensures op.OpRead? && out.ok ==> out.page == old(c.View(op.n))
    ensures op.OpFlushAll? ==> forall m: nat :: m < MAX_BLOCK ==> Sector(c.disk, m) == c.View(m)
    ensures c.refused >= old(c.refused)
    ensures op.OpRead? || op.OpWrite? ==> (out.ok <==> c.refused == old(c.refused))
    ensures op.OpFlush? || op.OpFlushAll? || op.OpEvict? || op.OpInvalidate? ==> out.ok && c.refused == old(c.refused)
  {
    hide c.HashOk;
    hide c.IndexOk;
    hide c.LruOk;
    hide c.OrderOk;
    hide c.SameMembers;
    hide c.CleanOk;
    hide c.View;
    var ok, page := true, Zeros(4096);
    match op {
      case OpRead(n) => ok, page := c.Read(n);
      case OpWrite(n, p) => ok := c.Write(n, p);
      case OpFlush(n) => c.Flush(n);
      case OpFlushAll => c.FlushAll();
      case OpEvict => ghost var k := c.Evict();
      case OpPrefetch(n) => ok := c.Prefetch(n);
      case OpInvalidate(n) => c.Invalidate(n);
    }
    out := Outcome(ok, page);
  }

  /** Any sequence of operations: what the cache shows afterwards is what a plain disk
      would hold after the writes that succeeded, and every successful read delivered
      what that disk held at the time. While memory is not refused every read and every
      write succeeds. */
  method Run(c: Cache, ops: seq<Op>) returns (outs: seq<Outcome>)
    requires c.Valid() && forall i :: 0 <= i < |ops| ==> ops[i].Ok()
    modifies c, c.hash, c.repr
    ensures c.Valid() && |outs| == |ops|
    ensures forall m: nat :: m < MAX_BLOCK ==> c.View(m) == Plain(ops, outs, m, old(c.View(m)))
    ensures forall i :: 0 <= i < |ops| && ops[i].OpRead? && outs[i].ok ==>
              outs[i].page == Plain(ops[..i], outs[..i], ops[i].n, old(c.View(ops[i].n)))
    ensures c.refused == old(c.refused) ==> forall i :: 0 <= i < |ops| && (ops[i].OpRead? || ops[i].OpWrite?) ==> outs[i].ok
  {
    hide c.Valid;
    hide c.View;
    outs := [];
    var i := 0;
    while i < |ops|
      invariant i == |outs| <= |ops| && c.Valid() && fresh(c.repr - old(c.repr))
      invariant forall m: nat :: m < MAX_BLOCK ==> c.View(m) == Plain(ops[..i], outs, m, old(c.View(m)))
      invariant forall j :: 0 <= j < i && ops[j].OpRead? && outs[j].ok ==>
                  outs[j].page == Plain(ops[..j], outs[..j], ops[j].n, old(c.View(ops[j].n)))
      invariant c.refused >= old(c.refused)
      invariant c.refused == old(c.refused) ==> forall j :: 0 <= j < i && (ops[j].OpRead? || ops[j].OpWrite?) ==> outs[j].ok
    {
      var out := Perform(c, ops[i]);
      ghost var outs0 := outs;
      outs := outs + [out];
      forall m: nat | m < MAX_BLOCK
        ensures c.View(m) == Plain(ops[..i + 1], outs, m, old(c.View(m)))
      {
        assert ops[..i + 1][..i] == ops[..i] && outs[..i] == outs0;
      }
      assert forall j :: 0 <= j <= i ==> outs[..j] == outs0[..j];
      i := i + 1;
    }
    assert ops[..i] == ops;
  }
}
