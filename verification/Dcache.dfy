/** The directory-entry cache of fs/dcache.c: a circular LRU list through a sentinel, with
    reference counts that protect entries from being reclaimed. */
module Dcache {
  import opened Arith
  import opened Bytes
  import opened Sequences

  const MAX_ENTRIES: nat := 1024
  const RECLAIM_BATCH: nat := 16

  class Dentry {
    var cacheNext: Dentry?
    var cachePrev: Dentry?
    var refs: nat   // d_refcount, a uint32_t

    constructor ()
      ensures cacheNext == null && cachePrev == null && refs == 0
    {
      cacheNext, cachePrev, refs := null, null, 0;
    }
  }

  /** The i-th of s, and the sentinel h on either side of it. */
  ghost function Nth(s: seq<Dentry>, h: Dentry, i: int): Dentry {
    if 0 <= i < |s| then s[i] else h
  }

  /** h, s[0], s[1], ... and back to h, with back links. */
  ghost predicate Ring(s: seq<Dentry>, h: Dentry)
    reads h`cacheNext, h`cachePrev, s`cacheNext, s`cachePrev
  {
    && NoDup(s) && h !in s && h.cacheNext == Nth(s, h, 0) && h.cachePrev == Nth(s, h, |s| - 1)
    && (forall i {:trigger s[i].cacheNext} :: 0 <= i < |s| ==> s[i].cacheNext == Nth(s, h, i + 1))
    && (forall i {:trigger s[i].cachePrev} :: 0 <= i < |s| ==> s[i].cachePrev == Nth(s, h, i - 1))
  }

  /** lru_remove on an entry that is linked. */
  method Unlink(d: Dentry, h: Dentry, ghost s: seq<Dentry>, ghost k: nat)
    requires Ring(s, h) && k < |s| && s[k] == d
    modifies h`cacheNext, h`cachePrev, s`cacheNext, s`cachePrev
    ensures Ring(Drop(s, k), h) && d.cacheNext == null && d.cachePrev == null
  {
    DropFacts(s, k);
    assert d.cacheNext == Nth(s, h, k + 1) && d.cachePrev == Nth(s, h, k - 1);
    if d.cachePrev != null && d.cacheNext != null {
      d.cachePrev.cacheNext := d.cacheNext;
      d.cacheNext.cachePrev := d.cachePrev;
      d.cachePrev := null;
      d.cacheNext := null;
    }
    ghost var t := Drop(s, k);
    forall i | 0 <= i < |t|
      ensures t[i].cacheNext == Nth(t, h, i + 1) && t[i].cachePrev == Nth(t, h, i - 1)
    {
      var j := if i < k then i else i + 1;
      assert t[i] == s[j] && j != k && s[j] != d;
      assert old(s[j].cacheNext) == Nth(s, h, j + 1) && old(s[j].cachePrev) == Nth(s, h, j - 1);
      if j != k - 1 { assert s[j].cacheNext == Nth(s, h, j + 1); }
      if j != k + 1 { assert s[j].cachePrev == Nth(s, h, j - 1); }
    }
  }

  /** lru_add_head on an entry that is not linked. */
  method LinkFront(d: Dentry, h: Dentry, ghost s: seq<Dentry>)
    requires Ring(s, h) && d !in s && d != h
    modifies h`cacheNext, s`cachePrev, h`cachePrev, d`cacheNext, d`cachePrev
    ensures Ring([d] + s, h)
  {
    d.cacheNext := h.cacheNext;
    d.cachePrev := h;
    h.cacheNext.cachePrev := d;
    h.cacheNext := d;
    ghost var t := [d] + s;
    forall i | 0 <= i < |t|
      ensures t[i].cacheNext == Nth(t, h, i + 1) && t[i].cachePrev == Nth(t, h, i - 1)
    {
      if i > 0 {
        assert t[i] == s[i - 1];
        assert old(s[i - 1].cacheNext) == Nth(s, h, i) && old(s[i - 1].cachePrev) == Nth(s, h, i - 2);
      }
    }
  }

  // ----- which entries may go -----

  ghost function Referenced(s: seq<Dentry>): seq<Dentry>
    reads s`refs
  {
    if s == [] then [] else (if s[0].refs != 0 then [s[0]] else []) + Referenced(s[1..])
  }

  ghost function Unreferenced(s: seq<Dentry>): nat
    reads s`refs
  {
    if s == [] then 0 else (if s[0].refs != 0 then 0 else 1) + Unreferenced(s[1..])
  }

  lemma {:induction false} ReferencedFacts(s: seq<Dentry>)
    ensures |Referenced(s)| + Unreferenced(s) == |s|
    ensures forall d :: d in Referenced(s) <==> d in s && d.refs != 0
    ensures Unreferenced(Referenced(s)) == 0
  {
    if s != [] {
      ReferencedFacts(s[1..]);
      var r := Referenced(s[1..]);
      if s[0].refs != 0 { assert ([s[0]] + r)[1..] == r; } else { assert Referenced(s) == r; }
    }
  }

  lemma {:induction false} UnreferencedConcat(a: seq<Dentry>, b: seq<Dentry>)
    ensures Unreferenced(a + b) == Unreferenced(a) + Unreferenced(b)
  {
    if a == [] {
      assert a + b == b;
    } else {
      UnreferencedConcat(a[1..], b);
      assert (a + b)[1..] == a[1..] + b;
    }
  }

  /** From the most to the least recently used, all before `clock`. */
  ghost predicate InOrder(s: seq<Dentry>, used: map<Dentry, nat>, clock: nat) {
    && (forall i :: 0 <= i < |s| ==> s[i] in used && used[s[i]] < clock)
    && (forall i, j :: 0 <= i < j < |s| ==> used[s[i]] > used[s[j]])
  }

  lemma {:induction false} ReferencedOrder(s: seq<Dentry>, used: map<Dentry, nat>, clock: nat)
    requires InOrder(s, used, clock)
    ensures InOrder(Referenced(s), used, clock)
  {
    if s != [] {
      var t := s[1..];
      ReferencedOrder(t, used, clock);
      ReferencedFacts(t);
      var r := Referenced(t);
      assert Referenced(s) == (if s[0].refs != 0 then [s[0]] else []) + r;
      hide Referenced;
      forall x | x in r
        ensures used[s[0]] > used[x]
      {
        var i :| 0 <= i < |t| && t[i] == x;
        assert s[i + 1] == x;
      }
    }
  }

  /** What a reclaim leaves: in order, `count` entries gone or no unreferenced one left. */
  lemma Reclaimed(s: seq<Dentry>, c: nat, count: nat, used: map<Dentry, nat>, clock: nat)
    requires c <= |s| && InOrder(s, used, clock)
    requires Unreferenced(s[c..]) <= count && (c == 0 || Unreferenced(s[c..]) == count)
    ensures InOrder(s[..c] + Referenced(s[c..]), used, clock)
    ensures Unreferenced(s[c..]) == Min(count, Unreferenced(s))
    ensures Unreferenced(s[c..]) < count ==> Unreferenced(s[..c] + Referenced(s[c..])) == 0
  {
    hide InOrder;
    hide Referenced;
    var a, b := s[..c], s[c..];
    ReclaimedOrder(s, c, used, clock);
    UnreferencedConcat(a, b);
    ReferencedFacts(b);
    assert a + b == s;
    if c == 0 { assert a + Referenced(b) == Referenced(b); }
  }

  lemma ReclaimedOrder(s: seq<Dentry>, c: nat, used: map<Dentry, nat>, clock: nat)
    requires c <= |s| && InOrder(s, used, clock)
    ensures InOrder(s[..c] + Referenced(s[c..]), used, clock)
  {
    hide Referenced;
    var a, b := s[..c], s[c..];
    var r := Referenced(b);
    ReferencedOrder(b, used, clock);
    ReferencedFacts(b);
    forall i, j | 0 <= i < |a| && 0 <= j < |r|
      ensures used[a[i]] > used[r[j]]
    {
      assert r[j] in b;
      var k :| 0 <= k < |b| && b[k] == r[j];
      assert s[i] == a[i] && s[c + k] == r[j];
    }
    OrderConcat(a, r, used, clock);
  }

  /** What goes is unreferenced, and was last used before every unreferenced entry that stays. */
  lemma OldestGo(s: seq<Dentry>, c: nat, used: map<Dentry, nat>, clock: nat, x: Dentry, y: Dentry)
    requires c <= |s| && InOrder(s, used, clock)
    requires x in s && x !in s[..c] + Referenced(s[c..])
    requires y in s[..c] + Referenced(s[c..]) && y.refs == 0
    ensures x.refs == 0 && x in used && y in used && used[x] < used[y]
  {
    ReferencedFacts(s[c..]);
    assert forall k :: 0 <= k < c ==> s[..c][k] == s[k];
    assert forall k :: c <= k < |s| ==> s[c..][k - c] == s[k];
    var i :| c <= i < |s| && s[i] == x;
    var j :| 0 <= j < c && s[j] == y;
  }

  lemma OrderConcat(a: seq<Dentry>, b: seq<Dentry>, used: map<Dentry, nat>, clock: nat)
    requires InOrder(a, used, clock) && InOrder(b, used, clock)
    requires forall i, j :: 0 <= i < |a| && 0 <= j < |b| ==> used[a[i]] > used[b[j]]
    ensures InOrder(a + b, used, clock)
  {
  }

  lemma Untouched(s: seq<Dentry>)
    ensures s[..|s|] + Referenced(s[|s|..]) == s && Unreferenced(s[|s|..]) == 0
  {
  }

  class Dcache {
    const head: Dentry            // g_lru_head
    var total: nat                // g_stats.total_entries
    var max: nat                  // g_stats.max_entries
    var reclaims: nat
    var invalidations: nat
    ghost var pool: set<Dentry>   // every dentry of the VFS
    ghost var lru: seq<Dentry>    // from the most to the least recently used
    ghost var used: map<Dentry, nat>   // when each was last used
    ghost var clock: nat

    ghost predicate Listed()
      reads this`pool, this`lru, this`total, this`max, head`cacheNext, head`cachePrev, pool`cacheNext, pool`cachePrev
    {
      && head !in pool && (forall d :: d in lru ==> d in pool) && Ring(lru, head)
      && (forall d :: d in pool && d !in lru ==> d.cacheNext == null && d.cachePrev == null)
      && total == |lru| <= max
    }

    /** The list is in order of last use. */
    ghost predicate Recent()
      reads this`lru, this`used, this`clock
    {
      InOrder(lru, used, clock)
    }

    ghost predicate Valid()
      reads this`pool, this`lru, this`total, this`max, this`used, this`clock, head`cacheNext, head`cachePrev, pool`cacheNext, pool`cachePrev
    {
      Listed() && Recent()
    }

    /** dcache_init: the sentinel linked to itself. */
    constructor (pool: set<Dentry>)
      requires forall d :: d in pool ==> d.cacheNext == null && d.cachePrev == null
      ensures Valid() && fresh(head) && this.pool == pool && lru == [] && total == 0
    {
      var h := new Dentry();
      head := h;
      total, max, reclaims, invalidations := 0, 0, 0, 0;
      this.pool := pool;
      lru, used, clock := [], map[], 0;
      new;
      head.cachePrev := head;
      head.cacheNext := head;
    }

    /** lru_is_linked tells exactly the entries of the list. */
    lemma LinkedExactly(d: Dentry)
      requires Listed() && d in pool
      ensures d.cachePrev != null && d.cacheNext != null <==> d in lru
    {
      if d in lru {
        var k :| 0 <= k < |lru| && lru[k] == d;
        assert lru[k].cacheNext == Nth(lru, head, k + 1) && lru[k].cachePrev == Nth(lru, head, k - 1);
      }
    }

    /** lru_remove and the entry count. */
    method Detach(d: Dentry, ghost k: nat)
      requires Listed() && k < |lru| && lru[k] == d
      modifies this`lru, this`total, head`cacheNext, head`cachePrev, pool`cacheNext, pool`cachePrev
      ensures Listed() && lru == Drop(old(lru), k) && total == old(total) - 1
    {
      DropFacts(lru, k);
      Unlink(d, head, lru, k);
      lru := Drop(lru, k);
      total := total - 1;
    }

    /** lru_add_head and the entry counts. */
    method Attach(d: Dentry)
      requires Listed() && d in pool && d !in lru
      modifies this`lru, this`total, this`max, head`cacheNext, head`cachePrev, pool`cacheNext, pool`cachePrev
      ensures Listed() && lru == [d] + old(lru)
    {
      LinkFront(d, head, lru);
      lru := [d] + lru;
      total := total + 1;
      if total > max { max := total; }
    }

    /** The list after d has been used: d first, the others in the order they had. */
    ghost function Used(d: Dentry): seq<Dentry>
      reads this`lru
    {
      [d] + Without(lru, d)
    }

    /** lru_touch if linked, else lru_add_head. */
    method Touch(d: Dentry)
      requires Valid() && d in pool
      modifies this`lru, this`total, this`max, this`used, this`clock, head`cacheNext, head`cachePrev, pool`cacheNext, pool`cachePrev
      ensures Valid() && lru == old(Used(d)) && used == old(used)[d := old(clock)] && clock == old(clock) + 1
    {
      hide Ring;
      hide Without;
      hide NoDup;
      hide InOrder;
      LinkedExactly(d);
      ListedNoDup();
      ghost var s := lru;
      if d.cachePrev != null && d.cacheNext != null {
        ghost var k :| 0 <= k < |lru| && lru[k] == d;
        WithoutDrop(lru, k);
        DropFacts(lru, k);
        Detach(d, k);
        Attach(d);
      } else {
        WithoutNone(lru, d);
        Attach(d);
      }
      used := used[d := clock];
      clock := clock + 1;
      UsedRecent(s, d, old(used), old(clock));
    }

    /** dcache_get */
    method Get(d: Dentry)
      requires Valid() && d in pool && d.refs + 1 < TWO32
      modifies this`lru, this`total, this`max, this`used, this`clock, head`cacheNext, head`cachePrev, pool`cacheNext, pool`cachePrev, d`refs
      ensures Valid() && lru == old(Used(d)) && used == old(used)[d := old(clock)] && clock == old(clock) + 1
      ensures d.refs == old(d.refs) + 1
    {
      Touch(d);
      d.refs := d.refs + 1;
    }

    /** dcache_put: never below zero, and the list is left alone. */
    method Put(d: Dentry)
      requires Valid() && d in pool
      modifies d`refs
      ensures Valid() && d.refs == if old(d.refs) > 0 then old(d.refs) - 1 else 0
    {
      if d.refs > 0 { d.refs := d.refs - 1; }
    }

    /** dcache_remove */
    method Remove(d: Dentry)
      requires Valid() && d in pool
      modifies this`lru, this`total, this`invalidations, head`cacheNext, head`cachePrev, pool`cacheNext, pool`cachePrev
      ensures Valid() && lru == Without(old(lru), d) && d !in lru
      ensures invalidations == old(invalidations) + if d in old(lru) then 1 else 0
    {
      hide Ring;
      hide Without;
      hide NoDup;
      LinkedExactly(d);
      ListedNoDup();
      WithoutOrder(lru, d, used);
      if d.cachePrev != null && d.cacheNext != null {
        ghost var k :| 0 <= k < |lru| && lru[k] == d;
        WithoutDrop(lru, k);
        Detach(d, k);
        invalidations := invalidations + 1;
      } else {
        WithoutNone(lru, d);
      }
    }

    /** dcache_reclaim: walks from the least recently used end and unlinks entries without
        references until it has `count` of them. Everything used before some point c of the
        list goes if it is unreferenced, everything else stays in its order. */
    method Reclaim(count: nat) returns (reclaimed: nat, ghost c: nat)
      requires Valid()
      modifies this`lru, this`total, this`reclaims, head`cacheNext, head`cachePrev, pool`cacheNext, pool`cachePrev
      ensures Valid() && c <= |old(lru)|
      ensures lru == old(lru)[..c] + Referenced(old(lru)[c..])
      ensures reclaimed == Unreferenced(old(lru)[c..]) == Min(count, Unreferenced(old(lru)))
      ensures total == old(total) - reclaimed && reclaims == old(reclaims) + reclaimed
      ensures reclaimed < count ==> Unreferenced(lru) == 0
    {
      hide Ring;
      hide NoDup;
      hide InOrder;
      hide Referenced;
      hide Unreferenced;
      hide Listed;
      hide Drop;
      ghost var s := lru;
      c := |s|;
      reclaimed := 0;
      Untouched(s);
      if count == 0 { return; }
      var victim := head.cachePrev;
      LastOf();
      while victim != head && reclaimed < count
        invariant Listed() && c <= |s| && lru == s[..c] + Referenced(s[c..]) && victim == Nth(s, head, c - 1)
        invariant reclaimed == Unreferenced(s[c..]) <= count && total == old(total) - reclaimed
        invariant reclaims == old(reclaims)
        decreases c
      {
        StepDown(s, c);
        var gone;
        victim, gone := Sweep(victim, s, c);
        if gone { reclaimed := reclaimed + 1; }
        c := c - 1;
      }
      reclaims := reclaims + reclaimed;
      Reclaimed(s, c, count, used, clock);
    }

    /** One turn of the sweep: the entry goes if nobody references it. */
    method Sweep(victim: Dentry, ghost s: seq<Dentry>, ghost c: nat) returns (prev: Dentry, gone: bool)
      requires Listed() && 0 < c <= |s| && lru == s[..c] + Referenced(s[c..]) && victim == s[c - 1]
      modifies this`lru, this`total, head`cacheNext, head`cachePrev, pool`cacheNext, pool`cachePrev
      ensures Listed() && lru == s[..c - 1] + Referenced(s[c - 1..]) && prev == Nth(s, head, c - 2)
      ensures gone == (victim.refs == 0) && total == old(total) - (if gone then 1 else 0)
    {
      hide Referenced;
      hide Listed;
      hide Drop;
      StepDown(s, c);
      BackLink(c - 1);
      assert lru[c - 1] == s[c - 1] && (c > 1 ==> lru[c - 2] == s[c - 2]);
      prev, gone := victim.cachePrev, victim.refs == 0;
      if gone { Detach(victim, c - 1); }
    }

    lemma LastOf()
      requires Listed()
      ensures head.cachePrev == Nth(lru, head, |lru| - 1) && head !in lru
    {
    }

    lemma BackLink(k: nat)
      requires Listed() && k < |lru|
      ensures lru[k].cachePrev == Nth(lru, head, k - 1)
    {
    }

    lemma ListedNoDup()
      requires Listed()
      ensures NoDup(lru)
    {
    }

    lemma UsedRecent(s: seq<Dentry>, d: Dentry, used0: map<Dentry, nat>, clock0: nat)
      requires lru == [d] + Without(s, d) && NoDup(s) && InOrder(s, used0, clock0)
      requires used == used0[d := clock0] && clock == clock0 + 1
      ensures Recent()
    {
      hide Without;
      WithoutOrder(s, d, used);
      ghost var t := Without(s, d);
      forall i | 0 <= i < |t|
        ensures t[i] in used && used[t[i]] < clock - 1
      {
        assert t[i] in t && t[i] in s && t[i] != d;
        var j :| 0 <= j < |s| && s[j] == t[i];
        assert s[j] in used0 && used0[s[j]] < clock0;
      }
      OrderConcat([d], t, used, clock);
    }

    /** dcache_add: used now; when that makes more than 1024 entries, the least recently used
        unreferenced ones go, down to 1008 or until all that is left is referenced. */
    method Add(d: Dentry) returns (ghost c: nat)
      requires Valid() && d in pool
      modifies this`lru, this`total, this`max, this`used, this`clock, this`reclaims, head`cacheNext, head`cachePrev, pool`cacheNext, pool`cachePrev
      ensures Valid() && used == old(used)[d := old(clock)] && clock == old(clock) + 1
      ensures var s := old(Used(d));
              if |s| <= 1024 then lru == s
              else
                && c <= |s| && lru == s[..c] + Referenced(s[c..])
                && Unreferenced(s[c..]) == Min(|s| - 1008, Unreferenced(s))
      ensures total <= 1024 || forall x :: x in lru ==> x.refs != 0
    {
      hide Ring;
      hide InOrder;
      hide NoDup;
      hide Without;
      c := 0;
      Touch(d);
      if total > MAX_ENTRIES {
        var n;
        n, c := Reclaim(total - MAX_ENTRIES + RECLAIM_BATCH);
        ReferencedAll(lru);
      }
    }
  }

  lemma {:induction false} ReferencedAll(s: seq<Dentry>)
    ensures Unreferenced(s) == 0 <==> forall d :: d in s ==> d.refs != 0
  {
    if s != [] {
      ReferencedAll(s[1..]);
      assert forall d :: d in s <==> d == s[0] || d in s[1..];
    }
  }

  lemma StepDown(s: seq<Dentry>, c: nat)
    requires 0 < c <= |s|
    ensures Referenced(s[c - 1..]) == (if s[c - 1].refs != 0 then [s[c - 1]] else []) + Referenced(s[c..])
    ensures Unreferenced(s[c - 1..]) == (if s[c - 1].refs != 0 then 0 else 1) + Unreferenced(s[c..])
    ensures var l := s[..c] + Referenced(s[c..]);
            if s[c - 1].refs != 0 then l == s[..c - 1] + Referenced(s[c - 1..])
            else Drop(l, c - 1) == s[..c - 1] + Referenced(s[c - 1..])
  {
    assert s[c - 1..][1..] == s[c..];
  }

  /** s with d taken out. */
  ghost function Without(s: seq<Dentry>, d: Dentry): seq<Dentry> {
    if s == [] then [] else if s[0] == d then s[1..] else [s[0]] + Without(s[1..], d)
  }

  lemma {:induction false} WithoutNone(s: seq<Dentry>, d: Dentry)
    requires d !in s
    ensures Without(s, d) == s
  {
    if s != [] { WithoutNone(s[1..], d); }
  }

  lemma {:induction false} WithoutDrop(s: seq<Dentry>, k: nat)
    requires NoDup(s) && k < |s|
    ensures Without(s, s[k]) == Drop(s, k)
  {
    if k == 0 {
    } else {
      assert NoDup(s[1..]) && s[1..][k - 1] == s[k];
      WithoutDrop(s[1..], k - 1);
      assert [s[0]] + Drop(s[1..], k - 1) == Drop(s, k);
    }
  }

  lemma {:induction false} WithoutOrder(s: seq<Dentry>, d: Dentry, used: map<Dentry, nat>)
    requires NoDup(s)
    requires forall i :: 0 <= i < |s| && s[i] != d ==> s[i] in used
    requires forall i, j :: 0 <= i < j < |s| && s[i] != d && s[j] != d ==> used[s[i]] > used[s[j]]
    ensures var t := Without(s, d);
            && (forall x :: x in t <==> x in s && x != d)
            && (forall x :: x in t ==> x in used)
            && (forall i, j :: 0 <= i < j < |t| ==> used[t[i]] > used[t[j]])
  {
    if d in s {
      var k :| 0 <= k < |s| && s[k] == d;
      WithoutDrop(s, k);
      DropFacts(s, k);
    } else {
      WithoutNone(s, d);
    }
  }
}
