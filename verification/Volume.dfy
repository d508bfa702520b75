/** A block device holding an ext2/ext4 volume: numbered blocks of bytes, some of which
    are the block bitmaps of the block groups, and the first-fit allocator over them.
    fs/ext2.c and fs/ext4.c each carry their own copy of this allocator. */
module Volumes {
  import opened Arith
  import opened Bytes

  /** The contents of the device; a block never written reads as zeros. */
  type Disk = map<nat, seq<byte>>

  /** What mounting leaves fixed: block size, first data block, blocks per group, the
      bitmap block of each group, and the blocks the on-disk layout keeps for itself
      (boot block, superblock, descriptors, bitmaps, inode tables). */
  datatype Geometry = Geometry(bs: nat, first: nat, perGroup: nat, bitmaps: seq<nat>, reserved: set<nat>) {
    ghost predicate Valid() {
      && bs >= 1024 && bs % 1024 == 0
      && 0 < perGroup <= bs * 8
      && first + Mul(|bitmaps|, perGroup) <= TWO32
      && (forall g, h :: 0 <= g < h < |bitmaps| ==> bitmaps[g] != bitmaps[h])
      && (forall g :: 0 <= g < |bitmaps| ==> first <= bitmaps[g] && bitmaps[g] in reserved)
      && 0 in reserved
    }

    function Number(g: nat, i: nat): nat { first + Mul(g, perGroup) + i }

    function GroupOf(n: nat): nat
      requires perGroup > 0 && first <= n
    {
      Div(n - first, perGroup)
    }

    function IndexOf(n: nat): (i: nat)
      requires perGroup > 0 && first <= n
      ensures i < perGroup
    {
      Mod(n - first, perGroup)
    }

    /** n is one of the blocks some group's bitmap speaks of. */
    predicate Covers(n: nat)
      requires perGroup > 0
    {
      first <= n && GroupOf(n) < |bitmaps|
    }
  }

  ghost predicate DiskOk(geo: Geometry, d: Disk) {
    forall n :: n in d ==> |d[n]| == geo.bs
  }

  function Read(geo: Geometry, d: Disk, n: nat): (b: seq<byte>)
    requires DiskOk(geo, d)
    ensures |b| == geo.bs
  {
    if n in d then d[n] else Zeros(geo.bs)
  }

  /** Bit i of group g's bitmap. */
  predicate BitAt(geo: Geometry, d: Disk, g: nat, i: nat)
    requires geo.Valid() && DiskOk(geo, d) && g < |geo.bitmaps| && i < geo.bs * 8
  {
    Bit(Read(geo, d, geo.bitmaps[g]), i)
  }

  predicate Used(geo: Geometry, d: Disk, n: nat)
    requires geo.Valid() && DiskOk(geo, d)
  {
    geo.Covers(n) && BitAt(geo, d, geo.GroupOf(n), geo.IndexOf(n))
  }

  /** The blocks the bitmaps mark used. */
  ghost function Marked(geo: Geometry, d: Disk): iset<nat>
    requires geo.Valid() && DiskOk(geo, d)
  {
    iset n: nat | Used(geo, d, n)
  }

  /** The volume is laid out as mkfs leaves it: bits past the end of a group are set,
      and every reserved block the bitmaps speak of is marked used. */
  ghost predicate Formatted(geo: Geometry, d: Disk) {
    && geo.Valid() && DiskOk(geo, d)
    && (forall g, i :: 0 <= g < |geo.bitmaps| && geo.perGroup <= i < geo.bs * 8 ==> BitAt(geo, d, g, i))
    && (forall n {:trigger Used(geo, d, n)} :: n in geo.reserved && geo.first <= n ==> Used(geo, d, n))
  }

  /** d' differs from d in at most the block n, which a write to n produces. */
  ghost predicate SameExcept(geo: Geometry, d: Disk, d': Disk, n: nat)
    requires DiskOk(geo, d) && DiskOk(geo, d')
  {
    forall m: nat :: m != n ==> Read(geo, d', m) == Read(geo, d, m)
  }

  /** No block outside `used` was written. */
  ghost predicate KeepsFree(geo: Geometry, d: Disk, d': Disk, used: iset<nat>)
    requires DiskOk(geo, d) && DiskOk(geo, d')
  {
    forall n: nat :: n !in used ==> Read(geo, d', n) == Read(geo, d, n)
  }

  // ----- block numbers -----

  lemma NumberInverse(geo: Geometry, g: nat, i: nat)
    requires geo.perGroup > 0 && i < geo.perGroup
    ensures geo.GroupOf(geo.Number(g, i)) == g && geo.IndexOf(geo.Number(g, i)) == i
  {
    Join(g, i, geo.perGroup);
  }

  lemma NumberOf(geo: Geometry, n: nat)
    requires geo.perGroup > 0 && geo.first <= n
    ensures geo.Number(geo.GroupOf(n), geo.IndexOf(n)) == n
  {
    Split(n - geo.first, geo.perGroup);
  }

  lemma NumberBound(geo: Geometry, g: nat, i: nat)
    requires geo.Valid() && g < |geo.bitmaps| && i < geo.perGroup
    ensures geo.Number(g, i) < TWO32 && geo.Covers(geo.Number(g, i))
  {
    NumberInverse(geo, g, i);
    MulMono(g, |geo.bitmaps|, geo.perGroup);
  }

  // ----- file positions -----

  /** How much of `remaining` fits in the block position pos is in. */
  function Chunk(geo: Geometry, pos: nat, remaining: nat): (n: nat)
    requires geo.bs > 0
    ensures n <= remaining && Mod(pos, geo.bs) + n <= geo.bs && (remaining > 0 ==> n > 0)
  {
    var room := geo.bs - Mod(pos, geo.bs);
    if room > remaining then remaining else room
  }

  /** One past the last file block that n bytes from offset on touch. */
  function AfterLast(geo: Geometry, offset: nat, n: nat): nat
    requires geo.bs > 0
  {
    if n == 0 then Div(offset, geo.bs) else Div(offset + n - 1, geo.bs) + 1
  }

  /** After a chunk the write is at the start of the next block, or done. */
  lemma AfterStep(geo: Geometry, offset: nat, written: nat, remaining: nat)
    requires geo.bs > 0 && remaining > 0
    ensures var n := Chunk(geo, offset + written, remaining);
            && AfterLast(geo, offset, written + n) == Div(offset + written, geo.bs) + 1
            && (n < remaining ==> Div(offset + written + n, geo.bs) == Div(offset + written, geo.bs) + 1)
  {
    var n := Chunk(geo, offset + written, remaining);
    Advance(offset + written, n - 1, geo.bs);
    Advance(offset + written, n, geo.bs);
  }

  /** Positions of one block: outside a range that lies in it, they are outside it in the block. */
  lemma WithinBlock(geo: Geometry, offset: nat, n: nat, pos: nat)
    requires geo.bs > 0 && n > 0 && Mod(offset, geo.bs) + n <= geo.bs && !(offset <= pos < offset + n)
    ensures AfterLast(geo, offset, n) == Div(offset, geo.bs) + 1
    ensures Div(pos, geo.bs) == Div(offset, geo.bs) ==> !(Mod(offset, geo.bs) <= Mod(pos, geo.bs) < Mod(offset, geo.bs) + n)
  {
    SamePage(geo.bs, offset, pos, n);
    SamePage(geo.bs, offset, offset + n - 1, n);
  }

  lemma InBlock(geo: Geometry, offset: nat, k: nat)
    requires geo.bs > 0 && k < geo.bs
    ensures offset >= Mod(offset, geo.bs) && Div(offset - Mod(offset, geo.bs) + k, geo.bs) == Div(offset, geo.bs)
    ensures Mod(offset - Mod(offset, geo.bs) + k, geo.bs) == k
  {
    Split(offset, geo.bs);
    Join(Div(offset, geo.bs), k, geo.bs);
  }

  /** What lies in block p outside [from, from + count). */
  ghost predicate BlankAround(geo: Geometry, d: Disk, p: nat, from: nat, count: nat)
    requires DiskOk(geo, d)
  {
    forall k :: 0 <= k < geo.bs && !(from <= k < from + count) ==> Read(geo, d, p)[k] == 0
  }

  /** The device after `chunk` is copied into block p at offset off and written back. */
  function StoreChunk(geo: Geometry, d: Disk, p: nat, off: nat, chunk: seq<byte>): (d': Disk)
    requires DiskOk(geo, d) && off + |chunk| <= geo.bs
    ensures DiskOk(geo, d')
  {
    d[p := Patch(Read(geo, d, p), off, chunk)]
  }

  // ----- one bit of one bitmap -----

  /** The device after bit i of group g's bitmap is written back as `on`. */
  function FlipBit(geo: Geometry, d: Disk, g: nat, i: nat, on: bool): (d': Disk)
    requires geo.Valid() && DiskOk(geo, d) && g < |geo.bitmaps| && i < geo.bs * 8
    ensures DiskOk(geo, d')
  {
    d[geo.bitmaps[g] := PutBit(Read(geo, d, geo.bitmaps[g]), i, on)]
  }

  lemma FlipBitEffect(geo: Geometry, d: Disk, g: nat, i: nat, on: bool)
    requires Formatted(geo, d) && g < |geo.bitmaps| && i < geo.perGroup
    ensures var d' := FlipBit(geo, d, g, i, on);
            && SameExcept(geo, d, d', geo.bitmaps[g])
            && (forall h, j :: 0 <= h < |geo.bitmaps| && 0 <= j < geo.bs * 8 ==>
                  BitAt(geo, d', h, j) == if h == g && j == i then on else BitAt(geo, d, h, j))
            && (forall n: nat :: Used(geo, d', n) == if n == geo.Number(g, i) then on else Used(geo, d, n))
  {
    var d' := FlipBit(geo, d, g, i, on);
    forall h, j | 0 <= h < |geo.bitmaps| && 0 <= j < geo.bs * 8
      ensures BitAt(geo, d', h, j) == if h == g && j == i then on else BitAt(geo, d, h, j)
    {
    }
    NumberBound(geo, g, i);
    NumberInverse(geo, g, i);
    forall n: nat
      ensures Used(geo, d', n) == if n == geo.Number(g, i) then on else Used(geo, d, n)
    {
      if geo.Covers(n) { NumberOf(geo, n); }
    }
  }

  /** Marking a block used, or releasing an unreserved one, keeps the layout. */
  lemma FlipBitFormatted(geo: Geometry, d: Disk, g: nat, i: nat, on: bool)
    requires Formatted(geo, d) && g < |geo.bitmaps| && i < geo.perGroup
    requires on || geo.Number(g, i) !in geo.reserved
    ensures Formatted(geo, FlipBit(geo, d, g, i, on))
  {
    FlipBitEffect(geo, d, g, i, on);
  }

  class Volume {
    const geo: Geometry
    var disk: Disk
    var freeCount: seq<nat>   // bgdt[g].free_blocks_count, a uint16_t

    constructor (geo: Geometry, disk: Disk, freeCount: seq<nat>)
      requires Formatted(geo, disk) && |freeCount| == |geo.bitmaps|
      ensures this.geo == geo && this.disk == disk && this.freeCount == freeCount && Ok()
    {
      this.geo := geo;
      this.disk := disk;
      this.freeCount := freeCount;
    }

    ghost predicate Ok()
      reads this
    {
      geo.Valid() && DiskOk(geo, disk) && Formatted(geo, disk) && |freeCount| == |geo.bitmaps|
    }

    method ReadBlock(n: nat) returns (b: seq<byte>)
      requires Ok()
      ensures b == Read(geo, disk, n)
    {
      b := Read(geo, disk, n);
    }

    method WriteBlock(n: nat, b: seq<byte>)
      requires DiskOk(geo, disk) && |b| == geo.bs
      modifies this`disk
      ensures disk == old(disk)[n := b]
    {
      disk := disk[n := b];
    }

    /** The first clear bit in group order; none when every bit of every group is set. */
    method FindFree() returns (found: bool, g: nat, i: nat)
      requires Ok()
      ensures found ==> FirstClear(geo, disk, g, i)
      ensures !found ==> forall h, j :: 0 <= h < |geo.bitmaps| && 0 <= j < geo.bs * 8 ==> BitAt(geo, disk, h, j)
    {
      g := 0;
      while g < |geo.bitmaps|
        invariant g <= |geo.bitmaps|
        invariant forall h, j :: 0 <= h < g && 0 <= j < geo.bs * 8 ==> BitAt(geo, disk, h, j)
      {
        var bitmap := ReadBlock(geo.bitmaps[g]);
        i := 0;
        while i < geo.bs * 8
          invariant i <= geo.bs * 8
          invariant forall j :: 0 <= j < i ==> BitAt(geo, disk, g, j)
        {
          if !Bit(bitmap, i) { return true, g, i; }
          i := i + 1;
        }
        g := g + 1;
      }
      return false, 0, 0;
    }

    /** Reads group g's bitmap, changes bit i and writes it back. */
    method WriteBit(g: nat, i: nat, on: bool)
      requires Ok() && g < |geo.bitmaps| && i < geo.bs * 8
      modifies this`disk
      ensures disk == FlipBit(geo, old(disk), g, i, on)
    {
      var bitmap := ReadBlock(geo.bitmaps[g]);
      bitmap := PutBit(bitmap, i, on);
      WriteBlock(geo.bitmaps[g], bitmap);
    }

    /** First-fit allocation: the lowest free block, or 0 when the bitmaps show none. */
    method AllocBlock() returns (b: nat)
      requires Ok()
      modifies this
      ensures Ok()
      ensures b == 0 ==> disk == old(disk) && freeCount == old(freeCount)
      ensures b == 0 ==> Full(geo, disk)
      ensures b != 0 ==> Allocated(geo, old(disk), disk, b) && AllUsedBelow(geo, old(disk), b)
      ensures b != 0 ==> var g := geo.GroupOf(b);
                         freeCount == old(freeCount)[g := (old(freeCount)[g] + (TWO16 - 1)) % TWO16]
    {
      var found, g, i := FindFree();
      if !found {
        NoneFree(geo, disk);
        return 0;
      }
      b := geo.Number(g, i);
      FirstFit(geo, disk, g, i);
      AllocatedBy(geo, disk, g, i);
      WriteBit(g, i, true);
      Recount(g, TWO16 - 1);
    }

    /** Adds delta to the free count of group g, in 16 bits. */
    method Recount(g: nat, delta: nat)
      requires g < |freeCount|
      modifies this`freeCount
      ensures freeCount == old(freeCount)[g := (old(freeCount)[g] + delta) % TWO16]
    {
      freeCount := freeCount[g := (freeCount[g] + delta) % TWO16];
    }

    /** Clears the block's bit. */
    method FreeBlock(b: nat)
      requires Ok() && geo.Covers(b) && b !in geo.reserved
      modifies this
      ensures Ok() && Released(geo, old(disk), disk, b)
      ensures var g := geo.GroupOf(b); freeCount == old(freeCount)[g := (old(freeCount)[g] + 1) % TWO16]
    {
      var g := geo.GroupOf(b);
      var i := geo.IndexOf(b);
      ReleasedBy(geo, disk, b);
      WriteBit(g, i, false);
      Recount(g, 1);
    }
  }

  /** b was free and unreserved in d; d' marks it used and changes nothing but a bitmap. */
  ghost predicate Allocated(geo: Geometry, d: Disk, d': Disk, b: nat) {
    && Formatted(geo, d) && Formatted(geo, d')
    && geo.Covers(b) && 0 < b < TWO32 && b !in geo.reserved && b !in Marked(geo, d)
    && SameExcept(geo, d, d', geo.bitmaps[geo.GroupOf(b)])
    && Marked(geo, d') == Marked(geo, d) + iset{b}
  }

  /** d' marks b free and changes nothing but a bitmap. */
  ghost predicate Released(geo: Geometry, d: Disk, d': Disk, b: nat) {
    && Formatted(geo, d) && Formatted(geo, d')
    && geo.Covers(b)
    && SameExcept(geo, d, d', geo.bitmaps[geo.GroupOf(b)])
    && Marked(geo, d') == Marked(geo, d) - iset{b}
  }

  /** Bit i of group g is clear and every bit before it, in group order, is set. */
  ghost predicate FirstClear(geo: Geometry, d: Disk, g: nat, i: nat) {
    && Formatted(geo, d) && g < |geo.bitmaps| && i < geo.bs * 8 && !BitAt(geo, d, g, i)
    && (forall h, j :: 0 <= h < g && 0 <= j < geo.bs * 8 ==> BitAt(geo, d, h, j))
    && (forall j :: 0 <= j < i ==> BitAt(geo, d, g, j))
  }

  ghost predicate AllUsedBelow(geo: Geometry, d: Disk, b: nat)
    requires geo.Valid() && DiskOk(geo, d)
  {
    forall n: nat :: geo.Covers(n) && n < b ==> Used(geo, d, n)
  }

  ghost predicate Full(geo: Geometry, d: Disk)
    requires geo.Valid() && DiskOk(geo, d)
  {
    forall n: nat :: geo.Covers(n) ==> Used(geo, d, n)
  }

  lemma NoneFree(geo: Geometry, d: Disk)
    requires Formatted(geo, d)
    requires forall h, j :: 0 <= h < |geo.bitmaps| && 0 <= j < geo.bs * 8 ==> BitAt(geo, d, h, j)
    ensures Full(geo, d)
  {
  }

  /** Scanning groups and bits in order meets block numbers in increasing order. */
  lemma FirstFit(geo: Geometry, d: Disk, g: nat, i: nat)
    requires FirstClear(geo, d, g, i)
    ensures i < geo.perGroup
    ensures AllUsedBelow(geo, d, geo.Number(g, i))
  {
    assert i < geo.perGroup;
    forall n: nat | geo.Covers(n) && n < geo.Number(g, i)
      ensures Used(geo, d, n)
    {
      Earlier(geo, g, i, n);
    }
  }

  lemma Earlier(geo: Geometry, g: nat, i: nat, n: nat)
    requires geo.perGroup > 0 && geo.first <= n < geo.Number(g, i) && i < geo.perGroup
    ensures geo.GroupOf(n) < g || (geo.GroupOf(n) == g && geo.IndexOf(n) < i)
  {
    NumberOf(geo, n);
    if geo.GroupOf(n) > g { MulMono(g, geo.GroupOf(n), geo.perGroup); }
  }

  lemma AllocatedBy(geo: Geometry, d: Disk, g: nat, i: nat)
    requires FirstClear(geo, d, g, i) && i < geo.perGroup
    ensures geo.GroupOf(geo.Number(g, i)) == g
    ensures Allocated(geo, d, FlipBit(geo, d, g, i, true), geo.Number(g, i))
  {
    NumberInverse(geo, g, i);
    NumberBound(geo, g, i);
    assert !Used(geo, d, geo.Number(g, i));
    FlipBitEffect(geo, d, g, i, true);
    FlipBitFormatted(geo, d, g, i, true);
  }

  lemma ReleasedBy(geo: Geometry, d: Disk, b: nat)
    requires Formatted(geo, d) && geo.Covers(b) && b !in geo.reserved
    ensures Released(geo, d, FlipBit(geo, d, geo.GroupOf(b), geo.IndexOf(b), false), b)
  {
    NumberOf(geo, b);
    FlipBitEffect(geo, d, geo.GroupOf(b), geo.IndexOf(b), false);
    FlipBitFormatted(geo, d, geo.GroupOf(b), geo.IndexOf(b), false);
  }

  /** Writing a block outside the layout keeps the bitmaps, so it keeps the layout. */
  lemma WriteKeepsFormat(geo: Geometry, d: Disk, n: nat, blk: seq<byte>)
    requires Formatted(geo, d) && n !in geo.reserved && |blk| == geo.bs
    ensures var d' := d[n := blk];
            Formatted(geo, d') && SameExcept(geo, d, d', n) && Marked(geo, d') == Marked(geo, d)
  {
    var d' := d[n := blk];
    assert DiskOk(geo, d');
    forall g, i | 0 <= g < |geo.bitmaps| && 0 <= i < geo.bs * 8
      ensures BitAt(geo, d', g, i) == BitAt(geo, d, g, i)
    {
    }
    assert forall m: nat :: Used(geo, d', m) == Used(geo, d, m);
  }

  /** The block first-fit allocation takes next. */
  ghost predicate LowestFree(geo: Geometry, d: Disk, b: nat)
    requires geo.Valid() && DiskOk(geo, d)
  {
    geo.Covers(b) && !Used(geo, d, b) && AllUsedBelow(geo, d, b)
  }

  lemma OneLowest(geo: Geometry, d: Disk, b: nat, c: nat)
    requires geo.Valid() && DiskOk(geo, d) && LowestFree(geo, d, b) && LowestFree(geo, d, c)
    ensures b == c
  {
  }

  /** b is the next free block behind c. */
  ghost predicate NextFree(geo: Geometry, d: Disk, c: nat, b: nat)
    requires geo.Valid() && DiskOk(geo, d)
  {
    c < b && geo.Covers(b) && !Used(geo, d, b) && forall n: nat :: c < n < b && geo.Covers(n) ==> Used(geo, d, n)
  }

  /** b is free and k free blocks lie below it: what the (k+1)-th allocation from d takes. */
  ghost predicate NthFree(geo: Geometry, d: Disk, k: nat, b: nat)
    requires geo.Valid() && DiskOk(geo, d)
  {
    if k == 0 then LowestFree(geo, d, b) else exists c: nat :: NthFree(geo, d, k - 1, c) && NextFree(geo, d, c, b)
  }

  /** More than k blocks are free. */
  ghost predicate MoreThan(geo: Geometry, d: Disk, k: nat)
    requires geo.Valid() && DiskOk(geo, d)
  {
    exists b: nat :: NthFree(geo, d, k, b)
  }

  lemma {:induction false} OneNth(geo: Geometry, d: Disk, k: nat, b: nat, c: nat)
    requires geo.Valid() && DiskOk(geo, d) && NthFree(geo, d, k, b) && NthFree(geo, d, k, c)
    ensures b == c
  {
    hide Used;
    if k == 0 {
      OneLowest(geo, d, b, c);
    } else {
      var b' :| NthFree(geo, d, k - 1, b') && NextFree(geo, d, b', b);
      var c' :| NthFree(geo, d, k - 1, c') && NextFree(geo, d, c', c);
      OneNth(geo, d, k - 1, b', c');
    }
  }

  lemma FullHasNone(geo: Geometry, d: Disk, k: nat)
    requires geo.Valid() && DiskOk(geo, d) && Full(geo, d)
    ensures !MoreThan(geo, d, k)
  {
  }

  lemma MoreThanFewer(geo: Geometry, d: Disk, k: nat)
    requires geo.Valid() && DiskOk(geo, d) && MoreThan(geo, d, k + 1)
    ensures MoreThan(geo, d, k)
  {
    var b :| NthFree(geo, d, k + 1, b);
    var c :| NthFree(geo, d, k, c) && NextFree(geo, d, c, b);
  }

  lemma {:induction false} AboveLowest(geo: Geometry, d: Disk, b: nat, k: nat, c: nat)
    requires geo.Valid() && DiskOk(geo, d) && LowestFree(geo, d, b) && NthFree(geo, d, k, c)
    ensures b <= c && (k > 0 ==> b < c)
  {
    hide Used;
    if k == 0 {
      OneLowest(geo, d, b, c);
    } else {
      var c' :| NthFree(geo, d, k - 1, c') && NextFree(geo, d, c', c);
      AboveLowest(geo, d, b, k - 1, c');
    }
  }

  /** On d' the next allocations take what the ones after the first j would take on d. */
  ghost predicate Shifted(geo: Geometry, d: Disk, d': Disk, j: nat) {
    && geo.Valid() && DiskOk(geo, d) && DiskOk(geo, d')
    && forall k: nat, c: nat :: ShiftedAt(geo, d, d', j, k, c)
  }

  ghost predicate ShiftedAt(geo: Geometry, d: Disk, d': Disk, j: nat, k: nat, c: nat)
    requires geo.Valid() && DiskOk(geo, d) && DiskOk(geo, d')
  {
    NthFree(geo, d', k, c) <==> NthFree(geo, d, k + j, c)
  }

  /** With the lowest free block marked, the free blocks are one fewer from below. */
  lemma TakenShifts(geo: Geometry, d: Disk, d': Disk, b: nat)
    requires geo.Valid() && DiskOk(geo, d) && DiskOk(geo, d') && LowestFree(geo, d, b)
    requires Marked(geo, d') == Marked(geo, d) + iset{b}
    ensures Shifted(geo, d, d', 1)
  {
    assert forall n: nat :: Used(geo, d', n) <==> n == b || Used(geo, d, n) by {
      assert forall n: nat :: Used(geo, d', n) <==> n in Marked(geo, d');
      assert forall n: nat :: Used(geo, d, n) <==> n in Marked(geo, d);
    }
    forall k: nat, c: nat
      ensures ShiftedAt(geo, d, d', 1, k, c)
    {
      TakenShiftsAt(geo, d, d', b, k, c);
    }
  }

  lemma {:induction false} TakenShiftsAt(geo: Geometry, d: Disk, d': Disk, b: nat, k: nat, c: nat)
    requires geo.Valid() && DiskOk(geo, d) && DiskOk(geo, d') && LowestFree(geo, d, b)
    requires forall n: nat :: Used(geo, d', n) <==> n == b || Used(geo, d, n)
    ensures NthFree(geo, d', k, c) <==> NthFree(geo, d, k + 1, c)
    decreases k
  {
    hide Used;
    if k == 0 {
      SecondLowest(geo, d, d', b, c);
      assert NthFree(geo, d, 0, b);
      if NthFree(geo, d, 1, c) {
        var b' :| NthFree(geo, d, 0, b') && NextFree(geo, d, b', c);
        OneLowest(geo, d, b, b');
      }
    } else {
      if e: nat :| NthFree(geo, d', k - 1, e) && NextFree(geo, d', e, c) {
        TakenShiftsAt(geo, d, d', b, k - 1, e);
        AboveLowest(geo, d, b, k, e);
        assert NextFree(geo, d, e, c);
      }
      if e: nat :| NthFree(geo, d, k, e) && NextFree(geo, d, e, c) {
        TakenShiftsAt(geo, d, d', b, k - 1, e);
        AboveLowest(geo, d, b, k, e);
        assert NextFree(geo, d', e, c);
      }
    }
  }

  lemma SecondLowest(geo: Geometry, d: Disk, d': Disk, b: nat, c: nat)
    requires geo.Valid() && DiskOk(geo, d) && DiskOk(geo, d') && LowestFree(geo, d, b)
    requires forall n: nat :: Used(geo, d', n) <==> n == b || Used(geo, d, n)
    ensures LowestFree(geo, d', c) <==> NextFree(geo, d, b, c)
  {
    hide Used;
  }

  // ----- a small volume, for concrete inputs -----

  /** One group of 8192 blocks of 1024 bytes, its bitmap in block 2. */
  const SMALL: Geometry := Geometry(1024, 1, 8192, [2], {0, 2})

  function AllOnes(n: nat): (r: seq<byte>)
    ensures |r| == n && forall i :: 0 <= i < n ==> r[i] == 255
  {
    seq(n, _ => 255)
  }

  lemma SmallValid()
    ensures SMALL.Valid() && forall n: nat :: 1 <= n <= 8192 ==> SMALL.Covers(n) && SMALL.GroupOf(n) == 0 && SMALL.IndexOf(n) == n - 1
  {
    assert Mul(1, 8192) == 8192;
  }

  /** With every bit of its bitmap set the volume is formatted and full. */
  lemma SmallFull(d: Disk)
    requires DiskOk(SMALL, d) && Read(SMALL, d, 2) == AllOnes(1024)
    ensures Formatted(SMALL, d) && Full(SMALL, d) && forall n: nat :: 1 <= n <= 8192 ==> n in Marked(SMALL, d)
  {
    SmallValid();
    forall i: nat | i < SMALL.bs * 8
      ensures BitAt(SMALL, d, 0, i)
    {
      AllBits(i % 8);
    }
    forall n: nat | SMALL.Covers(n) ensures Used(SMALL, d, n) {}
  }

  /** With one bit cleared exactly that block is free. */
  lemma SmallOneFree(d0: Disk, b: nat)
    requires DiskOk(SMALL, d0) && Read(SMALL, d0, 2) == AllOnes(1024) && 2 < b <= 8192
    ensures var d := FlipBit(SMALL, d0, 0, b - 1, false);
            && Formatted(SMALL, d) && LowestFree(SMALL, d, b)
            && forall n: nat :: 1 <= n <= 8192 && n != b ==> n in Marked(SMALL, d)
  {
    SmallValid();
    SmallFull(d0);
    FlipBitEffect(SMALL, d0, 0, b - 1, false);
    FlipBitFormatted(SMALL, d0, 0, b - 1, false);
  }

  /** The small volume with only block 10 free, and nines in it. */
  function Nines(): Disk {
    FlipBit(SMALL, map[2 := AllOnes(1024), 10 := seq(1024, _ => 9)], 0, 9, false)
  }

  lemma NinesFacts()
    ensures Formatted(SMALL, Nines()) && LowestFree(SMALL, Nines(), 10) && !Full(SMALL, Nines()) && Read(SMALL, Nines(), 10)[5] == 9
  {
    var d0: Disk := map[2 := AllOnes(1024), 10 := seq(1024, _ => 9)];
    SmallValid();
    SmallFull(d0);
    SmallOneFree(d0, 10);
    FlipBitEffect(SMALL, d0, 0, 9, false);
  }

  lemma AllBits(k: nat)
    requires k < 8
    ensures TestBit(255, k)
  {
    assert TestBit(255, 0) && TestBit(127, 0) && TestBit(63, 0) && TestBit(31, 0) && TestBit(15, 0) && TestBit(7, 0) && TestBit(3, 0) && TestBit(1, 0);
    assert TestBit(255, 1) == TestBit(127, 0);
    assert TestBit(255, 2) == TestBit(127, 1) == TestBit(63, 0);
    assert TestBit(255, 3) == TestBit(127, 2) == TestBit(63, 1) == TestBit(31, 0);
    assert TestBit(255, 4) == TestBit(127, 3) == TestBit(63, 2) == TestBit(31, 1) == TestBit(15, 0);
    assert TestBit(255, 5) == TestBit(127, 4) == TestBit(63, 3) == TestBit(31, 2) == TestBit(15, 1) == TestBit(7, 0);
    assert TestBit(255, 6) == TestBit(127, 5) == TestBit(63, 4) == TestBit(31, 3) == TestBit(15, 2) == TestBit(7, 1) == TestBit(3, 0);
    assert TestBit(255, 7) == TestBit(127, 6) == TestBit(63, 5) == TestBit(31, 4) == TestBit(15, 3) == TestBit(7, 2) == TestBit(3, 1) == TestBit(1, 0);
  }
}
