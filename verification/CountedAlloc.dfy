/** The counted bitmap allocator of fs/ext2_write.c: per-group bitmaps, per-group free
    counts and the superblock's total. Blocks and inodes use the same scheme with a
    different first number (first_data_block, or 1). */
module CountedAlloc {
  import opened Arith
  import opened Bytes
  import opened Sequences

  // ----- counting clear bits -----

  function Clear(bm: seq<byte>, n: nat): (c: nat)
    requires n <= |bm| * 8
    ensures c <= n
  {
    if n == 0 then 0 else Clear(bm, n - 1) + (if Bit(bm, n - 1) then 0 else 1)
  }

  lemma {:induction false} ClearAfterPut(bm: seq<byte>, n: nat, i: nat, on: bool)
    requires n <= |bm| * 8 && i < |bm| * 8
    ensures Clear(PutBit(bm, i, on), n) == Clear(bm, n) + (if i < n && Bit(bm, i) && !on then 1 else 0) - (if i < n && !Bit(bm, i) && on then 1 else 0)
  {
    if n > 0 { ClearAfterPut(bm, n - 1, i, on); }
  }

  lemma {:induction false} ClearZero(bm: seq<byte>, n: nat)
    requires n <= |bm| * 8
    ensures Clear(bm, n) == 0 <==> forall i :: 0 <= i < n ==> Bit(bm, i)
  {
    if n > 0 {
      ClearZero(bm, n - 1);
      if forall i :: 0 <= i < n ==> Bit(bm, i) { assert Bit(bm, n - 1); }
    }
  }

  function Sum(s: seq<nat>): nat {
    if s == [] then 0 else Sum(s[..|s| - 1]) + s[|s| - 1]
  }

  lemma {:induction false} SumUpdate(s: seq<nat>, g: nat, v: nat)
    requires g < |s|
    ensures Sum(s[g := v]) == Sum(s) - s[g] + v
  {
    var t := s[g := v];
    if g == |s| - 1 {
      assert t[..|s| - 1] == s[..|s| - 1];
    } else {
      SumUpdate(s[..|s| - 1], g, v);
      assert t[..|s| - 1] == s[..|s| - 1][g := v];
    }
  }

  lemma {:induction false} SumAtLeast(s: seq<nat>, g: nat)
    requires g < |s|
    ensures s[g] <= Sum(s)
  {
    if g < |s| - 1 { SumAtLeast(s[..|s| - 1], g); }
  }

  lemma {:induction false} SumZero(s: seq<nat>)
    requires forall g :: 0 <= g < |s| ==> s[g] == 0
    ensures Sum(s) == 0
  {
    if s != [] { SumZero(s[..|s| - 1]); }
  }

  // ----- bits determine bytes -----

  lemma {:induction false} SameByte(x: nat, y: nat, w: nat)
    requires x < Pow2(w) && y < Pow2(w) && forall k: nat :: k < w ==> TestBit(x, k) == TestBit(y, k)
    ensures x == y
  {
    if w > 0 {
      assert TestBit(x, 0) == TestBit(y, 0);
      forall k: nat | k < w - 1
        ensures TestBit(x / 2, k) == TestBit(y / 2, k)
      {
        assert TestBit(x, k + 1) == TestBit(y, k + 1);
      }
      SameByte(x / 2, y / 2, w - 1);
    }
  }

  /** Bitmaps with the same bits are the same bitmap. */
  lemma SameBits(a: seq<byte>, b: seq<byte>)
    requires |a| == |b| && forall i: nat :: i < |a| * 8 ==> Bit(a, i) == Bit(b, i)
    ensures a == b
  {
    forall j | 0 <= j < |a|
      ensures a[j] == b[j]
    {
      forall k: nat | k < 8
        ensures TestBit(a[j], k) == TestBit(b[j], k)
      {
        assert (8 * j + k) / 8 == j && (8 * j + k) % 8 == k;
        assert Bit(a, 8 * j + k) == Bit(b, 8 * j + k);
      }
      assert Pow2(8) == 2 * Pow2(7) == 4 * Pow2(6) == 8 * Pow2(5) == 16 * Pow2(4) == 256;
      SameByte(a[j], b[j], 8);
    }
  }

  // ----- the allocator's state -----

  datatype Counts = Counts(maps: seq<seq<byte>>, free: seq<nat>, total: nat)

  /** What mounting leaves fixed: bytes per bitmap, items per group, number of the first item. */
  datatype Layout = Layout(size: nat, per: nat, base: nat) {
    predicate Valid() { 0 < per <= size * 8 && per < TWO16 }
    function GroupOf(n: nat): nat requires per > 0 && n >= base { Div(n - base, per) }
    function IndexOf(n: nat): (i: nat) requires per > 0 && n >= base ensures i < per { Mod(n - base, per) }
    function Number(g: nat, i: nat): nat { base + Mul(g, per) + i }
  }

  /** One bitmap and one count per group; item numbers fit 32 bits. */
  ghost predicate Shaped(l: Layout, c: Counts) {
    && l.Valid() && |c.maps| == |c.free| && l.Number(|c.maps|, 0) <= TWO32
    && forall g :: 0 <= g < |c.maps| ==> |c.maps[g]| == l.size
  }

  lemma NumberFits(l: Layout, c: Counts, n: nat)
    requires Shaped(l, c) && InRange(l, c, n)
    ensures n < TWO32
  {
    Split(n - l.base, l.per);
    MulMono(l.GroupOf(n), |c.maps|, l.per);
  }

  /** Each group's count is its number of clear bits, and the total is their sum. */
  ghost predicate Consistent(l: Layout, c: Counts) {
    && Shaped(l, c)
    && (forall g :: 0 <= g < |c.maps| ==> c.free[g] == Clear(c.maps[g], l.per))
    && c.total == Sum(c.free) < TWO32
  }

  predicate InRange(l: Layout, c: Counts, n: nat)
    requires l.Valid()
  {
    n >= l.base && l.GroupOf(n) < |c.maps|
  }

  predicate Taken(l: Layout, c: Counts, n: nat)
    requires Shaped(l, c) && InRange(l, c, n)
  {
    Bit(c.maps[l.GroupOf(n)], l.IndexOf(n))
  }

  /** The state with item n marked and counted as taken or free (counts in 16 and 32 bits). */
  function Flip(l: Layout, c: Counts, n: nat, on: bool): Counts
    requires Shaped(l, c) && InRange(l, c, n)
  {
    var g := l.GroupOf(n);
    var step16, step32 := if on then TWO16 - 1 else 1, if on then TWO32 - 1 else 1;
    Counts(c.maps[g := PutBit(c.maps[g], l.IndexOf(n), on)], c.free[g := (c.free[g] + step16) % TWO16], (c.total + step32) % TWO32)
  }

  /** Bits past the items of a group are the same in both states. */
  ghost predicate SamePadding(l: Layout, c: Counts, d: Counts)
    requires Shaped(l, c) && Shaped(l, d)
  {
    |c.maps| == |d.maps| && forall g, i :: 0 <= g < |c.maps| && l.per <= i < l.size * 8 ==> Bit(c.maps[g], i) == Bit(d.maps[g], i)
  }

  lemma FlipShaped(l: Layout, c: Counts, n: nat, on: bool)
    requires Shaped(l, c) && InRange(l, c, n)
    ensures Shaped(l, Flip(l, c, n, on)) && |Flip(l, c, n, on).maps| == |c.maps|
    ensures forall m: nat :: InRange(l, c, m) ==> Taken(l, Flip(l, c, n, on), m) == if m == n then on else Taken(l, c, m)
    ensures SamePadding(l, c, Flip(l, c, n, on))
  {
    forall m: nat | InRange(l, c, m) && l.GroupOf(m) == l.GroupOf(n) && l.IndexOf(m) == l.IndexOf(n)
      ensures m == n
    {
      Split(m - l.base, l.per);
      Split(n - l.base, l.per);
    }
  }

  /** Marking an item as what it was not keeps the counts exact; marking it as what it
      already was breaks them. */
  lemma FlipExact(l: Layout, c: Counts, n: nat, on: bool)
    requires Consistent(l, c) && InRange(l, c, n) && (!on ==> c.total + 1 < TWO32)
    ensures Consistent(l, Flip(l, c, n, on)) <==> Taken(l, c, n) != on
  {
    hide PutBit;
    hide Clear;
    hide Sum;
    hide SamePadding;
    var g, i := l.GroupOf(n), l.IndexOf(n);
    var d := Flip(l, c, n, on);
    ClearAfterPut(c.maps[g], l.per, i, on);
    SumUpdate(c.free, g, d.free[g]);
    SumAtLeast(c.free, g);
    FlipShaped(l, c, n, on);
    if Taken(l, c, n) != on {
      if on { ClearZero(c.maps[g], l.per); }
      assert d.free[g] == Clear(d.maps[g], l.per);
    } else {
      assert d.free[g] != Clear(d.maps[g], l.per);
    }
  }

  /** Item number n is the lowest-numbered free one. */
  ghost predicate LowestFree(l: Layout, c: Counts, n: nat)
    requires Shaped(l, c)
  {
    && InRange(l, c, n) && !Taken(l, c, n)
    && forall m: nat :: InRange(l, c, m) && m < n ==> Taken(l, c, m)
  }

  /** The first clear bit of the first group that has one is the lowest free item. */
  lemma FirstIsLowest(l: Layout, c: Counts, g: nat, i: nat)
    requires Shaped(l, c) && g < |c.maps| && i < l.per && !Bit(c.maps[g], i)
    requires forall h, j :: 0 <= h < g && 0 <= j < l.per ==> Bit(c.maps[h], j)
    requires forall j :: 0 <= j < i ==> Bit(c.maps[g], j)
    ensures LowestFree(l, c, l.Number(g, i)) && l.GroupOf(l.Number(g, i)) == g && l.IndexOf(l.Number(g, i)) == i
  {
    Join(g, i, l.per);
    forall m: nat | InRange(l, c, m) && m < l.Number(g, i)
      ensures Taken(l, c, m)
    {
      Split(m - l.base, l.per);
      if l.GroupOf(m) > g { MulMono(g, l.GroupOf(m), l.per); }
    }
  }

  lemma NoneFree(l: Layout, c: Counts)
    requires Consistent(l, c) && forall g :: 0 <= g < |c.maps| ==> c.free[g] == 0
    ensures c.total == 0 && forall m: nat :: InRange(l, c, m) ==> Taken(l, c, m)
  {
    SumZero(c.free);
    forall m: nat | InRange(l, c, m)
      ensures Taken(l, c, m)
    {
      ClearZero(c.maps[l.GroupOf(m)], l.per);
    }
  }

  class Allocator {
    const l: Layout
    var maps: seq<seq<byte>>   // the bitmaps
    var free: seq<nat>         // bgd->free_blocks_count, uint16_t each
    var total: nat             // g_sb.free_blocks_count, a uint32_t

    constructor (l: Layout, c: Counts)
      ensures this.l == l && State() == c
    {
      this.l := l;
      maps, free, total := c.maps, c.free, c.total;
    }

    ghost function State(): Counts
      reads this
    {
      Counts(maps, free, total)
    }

    /** find_first_clear; -1 when the first `max` bits are all set. */
    static method FindFirstClear(bm: seq<byte>, max: nat) returns (b: int)
      requires max <= |bm| * 8
      ensures -1 <= b < max
      ensures b == -1 ==> forall j :: 0 <= j < max ==> Bit(bm, j)
      ensures b >= 0 ==> !Bit(bm, b) && forall j :: 0 <= j < b ==> Bit(bm, j)
    {
      var i := 0;
      while i < max
        invariant i <= max && forall j :: 0 <= j < i ==> Bit(bm, j)
      {
        if !Bit(bm, i) { return i; }
        i := i + 1;
      }
      b := -1;
    }

    /** ext2_alloc_block, ext2_alloc_inode: takes the lowest free number n unless the total says
        nothing is free. The result is n as a signed value, so from 2^31 on it reads as a failure
        although n is taken. */
    method Alloc() returns (r: int, ghost n: nat)
      requires Consistent(l, State())
      modifies this
      ensures Consistent(l, State())
      ensures old(total) == 0 ==> r == -1 && State() == old(State()) && forall m: nat :: InRange(l, State(), m) ==> Taken(l, State(), m)
      ensures old(total) != 0 ==> LowestFree(l, old(State()), n) && State() == Flip(l, old(State()), n, true) && n < TWO32 && r == Int32(n)
      ensures r < 0 <==> old(total) == 0 || n >= TWO31
    {
      hide LowestFree;
      var g := 0;
      while g < |maps|
        invariant g <= |maps| && State() == old(State())
        invariant forall h :: 0 <= h < g ==> free[h] == 0
      {
        if free[g] != 0 {
          var max := if l.per < l.size * 8 then l.per else l.size * 8;
          var b := FindFirstClear(maps[g], max);
          ClearZero(maps[g], l.per);
          assert b >= 0;
          r, n := TakeAt(g, b);
          return;
        }
        g := g + 1;
      }
      NoneFree(l, State());
      r, n := -1, 0;
    }

    /** Sets the bit, writes the bitmap back and takes one off both counts. */
    method TakeAt(g: nat, b: nat) returns (r: int, ghost n: nat)
      requires Consistent(l, State()) && g < |maps| && b < l.per && !Bit(maps[g], b)
      requires forall h :: 0 <= h < g ==> free[h] == 0
      requires forall j :: 0 <= j < b ==> Bit(maps[g], j)
      modifies this
      ensures Consistent(l, State()) && old(total) > 0
      ensures LowestFree(l, old(State()), n) && State() == Flip(l, old(State()), n, true) && n < TWO32 && r == Int32(n)
    {
      hide LowestFree;
      hide Consistent;
      ghost var c := State();
      TakeFacts(l, c, g, b);
      FlipExact(l, c, l.Number(g, b), true);
      maps := maps[g := PutBit(maps[g], b, true)];
      free := free[g := (free[g] + (TWO16 - 1)) % TWO16];
      total := (total + (TWO32 - 1)) % TWO32;
      r, n := Int32(l.Number(g, b)), l.Number(g, b);
    }

    /** ext2_free_block, ext2_free_inode: -1 for a number outside the groups. The counts
        stay exact if and only if the item was taken. */
    method Free(n: nat) returns (r: int)
      requires Consistent(l, State()) && total + 1 < TWO32
      modifies this
      ensures r == (if InRange(l, old(State()), n) then 0 else -1)
      ensures r == -1 ==> State() == old(State())
      ensures r == 0 ==> State() == Flip(l, old(State()), n, false)
      ensures r == 0 ==> (Consistent(l, State()) <==> Taken(l, old(State()), n))
    {
      hide Consistent;
      ConsistentShaped(l, State());
      if n < l.base { return -1; }
      var g := Div(n - l.base, l.per);
      var i := Mod(n - l.base, l.per);
      if g >= |maps| { return -1; }
      FlipExact(l, State(), n, false);
      maps := maps[g := PutBit(maps[g], i, false)];
      free := free[g := (free[g] + 1) % TWO16];
      total := (total + 1) % TWO32;
      r := 0;
    }
  }

  /** Two exact states that agree on what is taken are the same state. */
  lemma SameState(l: Layout, c: Counts, d: Counts)
    requires Consistent(l, c) && Consistent(l, d) && SamePadding(l, c, d)
    requires forall m: nat :: InRange(l, c, m) ==> Taken(l, c, m) == Taken(l, d, m)
    ensures c == d
  {
    forall g | 0 <= g < |c.maps|
      ensures c.maps[g] == d.maps[g]
    {
      forall i: nat | i < l.size * 8
        ensures Bit(c.maps[g], i) == Bit(d.maps[g], i)
      {
        if i < l.per {
          Join(g, i, l.per);
          assert InRange(l, c, l.Number(g, i));
        }
      }
      SameBits(c.maps[g], d.maps[g]);
    }
    assert c.maps == d.maps && c.free == d.free;
  }

  // ----- many items at once -----

  /** d is c with exactly the items in `held`, all free in c, taken. */
  ghost predicate Holds(l: Layout, c: Counts, d: Counts, held: seq<nat>) {
    && Consistent(l, c) && Consistent(l, d) && SamePadding(l, c, d) && NoDup(held)
    && d.total == c.total - |held|
    && (forall i :: 0 <= i < |held| ==> InRange(l, c, held[i]) && !Taken(l, c, held[i]))
    && (forall m: nat :: InRange(l, c, m) ==> (Taken(l, d, m) <==> Taken(l, c, m) || m in held))
  }

  lemma HoldOne(l: Layout, c: Counts, d: Counts, held: seq<nat>, n: nat)
    requires Holds(l, c, d, held) && InRange(l, d, n) && !Taken(l, d, n) && d.total > 0
    ensures Holds(l, c, Flip(l, d, n, true), held + [n])
  {
    hide Clear;
    hide Bit;
    hide Sum;
    FlipExact(l, d, n, true);
    FlipShaped(l, d, n, true);
    var held' := held + [n];
    assert forall m: nat :: m in held' <==> m in held || m == n;
  }

  lemma DropOne(l: Layout, c: Counts, d: Counts, held: seq<nat>)
    requires Holds(l, c, d, held) && held != [] && d.total + 1 < TWO32
    ensures Holds(l, c, Flip(l, d, held[0], false), held[1..]) && InRange(l, d, held[0]) && Taken(l, d, held[0])
  {
    hide Clear;
    hide Bit;
    hide Sum;
    FlipExact(l, d, held[0], false);
    FlipShaped(l, d, held[0], false);
    assert forall m: nat :: m in held <==> m in held[1..] || m == held[0];
  }

  /** The free items below n. */
  ghost function FreeBelow(l: Layout, c: Counts, n: nat): set<nat>
    requires Shaped(l, c)
  {
    set m: nat | m < n && InRange(l, c, m) && !Taken(l, c, m)
  }

  lemma TakeBelow(l: Layout, c: Counts, n: nat, top: nat)
    requires Shaped(l, c) && LowestFree(l, c, n) && n < top
    ensures Shaped(l, Flip(l, c, n, true)) && |FreeBelow(l, Flip(l, c, n, true), top)| == |FreeBelow(l, c, top)| - 1
  {
    FlipShaped(l, c, n, true);
    assert FreeBelow(l, Flip(l, c, n, true), top) == FreeBelow(l, c, top) - {n};
  }

  lemma NoneBelow(l: Layout, c: Counts, top: nat)
    requires Shaped(l, c)
    requires (forall m: nat :: InRange(l, c, m) ==> Taken(l, c, m)) || exists n: nat :: n >= top && LowestFree(l, c, n)
    ensures FreeBelow(l, c, top) == {}
  {
  }

  /** ext2_alloc_blocks: `count` items or none. It succeeds exactly when that many below 2^31 are
      free; the items are distinct and were free. A failure restores every bitmap and count,
      unless an item from 2^31 on was free: the one it came to stays taken. */
  method AllocMany(a: Allocator, count: nat) returns (ok: bool, items: seq<nat>, ghost lost: seq<nat>)
    requires Consistent(a.l, a.State())
    modifies a
    ensures ok <==> |FreeBelow(a.l, old(a.State()), TWO31)| >= count
    ensures ok ==> |items| == count && Holds(a.l, old(a.State()), a.State(), items)
    ensures !ok && |FreeBelow(a.l, old(a.State()), TWO31)| == old(a.total) ==> a.State() == old(a.State())
    ensures !ok && |FreeBelow(a.l, old(a.State()), TWO31)| != old(a.total) ==>
              |lost| == 1 && lost[0] >= TWO31 && Holds(a.l, old(a.State()), a.State(), lost)
  {
    hide Consistent;
    hide Holds;
    hide LowestFree;
    hide Flip;
    hide FreeBelow;
    items, lost := [], [];
    ghost var c := a.State();
    HoldsNone(a.l, c);
    HoldsFacts(a.l, c, c, []);
    var i := 0;
    while i < count
      invariant i == |items| <= count && Holds(a.l, c, a.State(), items) && Shaped(a.l, a.State())
      invariant |FreeBelow(a.l, c, TWO31)| == i + |FreeBelow(a.l, a.State(), TWO31)|
    {
      ghost var d := a.State();
      HoldsFacts(a.l, c, d, items);
      var b, n := a.Alloc();
      if b < 0 {
        NoneBelow(a.l, d, TWO31);
        if d.total > 0 {
          LowestFacts(a.l, c, d, items, n);
          lost := [n];
        }
        assert items + [] == items;
        FreeMany(a, c, items, lost);
        if lost == [] { HoldsNothing(a.l, c, a.State()); }
        return false, [], lost;
      }
      LowestFacts(a.l, c, d, items, b);
      TakeBelow(a.l, d, b, TWO31);
      items := items + [b];
      i := i + 1;
    }
    HoldsFacts(a.l, c, a.State(), items);
    ok := true;
  }

  /** ext2_free_blocks, and the unwinding loop of ext2_alloc_blocks: giving back some of the items
      taken since c leaves the state c has with only the others taken. */
  method FreeMany(a: Allocator, ghost c: Counts, items: seq<nat>, ghost kept: seq<nat>)
    requires Holds(a.l, c, a.State(), items + kept)
    modifies a
    ensures Holds(a.l, c, a.State(), kept) && (kept == [] ==> a.State() == c)
  {
    hide Consistent;
    hide Holds;
    hide Flip;
    var j := 0;
    assert items[0..] == items;
    while j < |items|
      invariant j <= |items| && Holds(a.l, c, a.State(), items[j..] + kept)
    {
      ghost var held := items[j..] + kept;
      HoldsFacts(a.l, c, a.State(), held);
      DropOne(a.l, c, a.State(), held);
      assert held[0] == items[j] && held[1..] == items[j + 1..] + kept;
      var r := a.Free(items[j]);
      j := j + 1;
    }
    assert items[j..] + kept == kept;
    if kept == [] { HoldsNothing(a.l, c, a.State()); }
  }

  lemma ConsistentShaped(l: Layout, c: Counts)
    requires Consistent(l, c)
    ensures Shaped(l, c)
  {
  }

  lemma TakeFacts(l: Layout, c: Counts, g: nat, b: nat)
    requires Consistent(l, c) && g < |c.maps| && b < l.per && !Bit(c.maps[g], b)
    requires forall h :: 0 <= h < g ==> c.free[h] == 0
    requires forall j :: 0 <= j < b ==> Bit(c.maps[g], j)
    ensures Shaped(l, c) && c.total > 0 && LowestFree(l, c, l.Number(g, b)) && l.Number(g, b) < TWO32
    ensures l.GroupOf(l.Number(g, b)) == g && l.IndexOf(l.Number(g, b)) == b
  {
    forall h, j | 0 <= h < g && 0 <= j < l.per
      ensures Bit(c.maps[h], j)
    {
      ClearZero(c.maps[h], l.per);
    }
    FirstIsLowest(l, c, g, b);
    NumberFits(l, c, l.Number(g, b));
    ClearZero(c.maps[g], l.per);
    SumAtLeast(c.free, g);
  }

  lemma HoldsNone(l: Layout, c: Counts)
    requires Consistent(l, c)
    ensures Holds(l, c, c, [])
  {
  }

  lemma HoldsNothing(l: Layout, c: Counts, d: Counts)
    requires Holds(l, c, d, [])
    ensures d == c
  {
    SameState(l, c, d);
  }

  lemma HoldsFacts(l: Layout, c: Counts, d: Counts, held: seq<nat>)
    requires Holds(l, c, d, held)
    ensures Shaped(l, c) && Shaped(l, d) && Consistent(l, c) && Consistent(l, d) && c.total < TWO32 && d.total == c.total - |held|
  {
  }

  lemma LowestFacts(l: Layout, c: Counts, d: Counts, held: seq<nat>, n: nat)
    requires Consistent(l, d) && LowestFree(l, d, n) && d.total > 0 && Holds(l, c, d, held)
    ensures Holds(l, c, Flip(l, d, n, true), held + [n])
  {
    HoldOne(l, c, d, held, n);
  }
}
