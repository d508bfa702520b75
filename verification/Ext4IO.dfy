/** ext4_read_extent and ext4_write_extent as operations on flat byte arrays. */
module Ext4IO {
  import opened Arith
  import opened Bytes
  import opened Volumes
  import opened Ext4Tree
  import opened Ext4Files

  ghost predicate Sound(geo: Geometry, d: Disk, files: Files) {
    Formatted(geo, d) && Inv(geo, d, files, Marked(geo, d))
  }

  /** Byte pos of a file: holes hold zeros. */
  ghost function ByteAt(geo: Geometry, d: Disk, root: Root, pos: nat): byte
    requires RootOk(geo, d, root)
  {
    var p := PhysAt(geo, d, root, Div(pos, geo.bs));
    if p == 0 then 0 else Read(geo, d, p)[Mod(pos, geo.bs)]
  }

  // ----- what a write in progress has done -----

  /** Only file f changed; it lost no mapping, and file blocks outside [first, next) are
      mapped as they were. */
  ghost predicate MapKept(geo: Geometry, d0: Disk, files0: Files, d: Disk, files: Files, f: nat, first: nat, next: nat) {
    && RootsOk(geo, d0, files0) && RootsOk(geo, d, files) && files.Keys == files0.Keys && f in files
    && (forall g :: g in files && g != f ==> files[g] == files0[g])
    && (forall g, l: nat :: g in files && g != f ==> PhysAt(geo, d, files[g], l) == PhysAt(geo, d0, files0[g], l))
    && (forall l: nat :: PhysAt(geo, d0, files0[f], l) != 0 || !(first <= l < next) ==>
          PhysAt(geo, d, files[f], l) == PhysAt(geo, d0, files0[f], l))
  }

  /** The blocks f gained were outside `used`. */
  ghost predicate GainsFree(geo: Geometry, d0: Disk, root0: Root, used: iset<nat>, d: Disk, root: Root)
    requires RootOk(geo, d0, root0) && RootOk(geo, d, root)
  {
    forall l: nat :: PhysAt(geo, d0, root0, l) == 0 && PhysAt(geo, d, root, l) != 0 ==> PhysAt(geo, d, root, l) !in used
  }

  ghost predicate OthersKept(geo: Geometry, d0: Disk, d: Disk, files: Files, f: nat)
    requires DiskOk(geo, d0) && DiskOk(geo, d) && RootsOk(geo, d, files)
  {
    forall g, l: nat :: g in files && g != f && PhysAt(geo, d, files[g], l) != 0 ==>
      Read(geo, d, PhysAt(geo, d, files[g], l)) == Read(geo, d0, PhysAt(geo, d, files[g], l))
  }

  ghost predicate StoredAt(geo: Geometry, d0: Disk, d: Disk, root: Root, lo: nat, buf: seq<byte>, pos: nat)
    requires DiskOk(geo, d0) && RootOk(geo, d, root)
  {
    var p := PhysAt(geo, d, root, Div(pos, geo.bs));
    && (lo <= pos < lo + |buf| ==> p != 0)
    && (p != 0 ==> Read(geo, d, p)[Mod(pos, geo.bs)] ==
                   if lo <= pos < lo + |buf| then buf[pos - lo] else Read(geo, d0, p)[Mod(pos, geo.bs)])
  }

  ghost predicate Stored(geo: Geometry, d0: Disk, d: Disk, root: Root, lo: nat, buf: seq<byte>)
    requires DiskOk(geo, d0) && RootOk(geo, d, root)
  {
    forall pos: nat :: StoredAt(geo, d0, d, root, lo, buf, pos)
  }

  ghost predicate Wrote(geo: Geometry, d0: Disk, files0: Files, d: Disk, files: Files, f: nat, lo: nat, buf: seq<byte>, first: nat, next: nat) {
    && f in files0 && f in files && geo.Valid() && DiskOk(geo, d0) && DiskOk(geo, d)
    && MapKept(geo, d0, files0, d, files, f, first, next)
    && GainsFree(geo, d0, files0[f], Marked(geo, d0), d, files[f])
    && OthersKept(geo, d0, d, files, f)
    && KeepsFree(geo, d0, d, Marked(geo, d))
    && Marked(geo, d0) <= Marked(geo, d)
    && Stored(geo, d0, d, files[f], lo, buf)
  }

  lemma WroteNothing(geo: Geometry, d: Disk, files: Files, f: nat, lo: nat, first: nat)
    requires Sound(geo, d, files) && f in files
    ensures Wrote(geo, d, files, d, files, f, lo, [], first, first)
  {
    hide RootOk;
    hide PhysAt;
    assert RootOk(geo, d, files[f]);
  }

  // ----- allocating and appending keep what was written -----

  /** A write to a bitmap block m, then possibly a new mapping l -> b in file f for a block
      that was free: everything a write in progress has done is kept. */
  lemma WroteThenMapped(geo: Geometry, d0: Disk, files0: Files, d: Disk, files: Files, d2: Disk, files2: Files, f: nat, m: nat,
                        lo: nat, buf: seq<byte>, first: nat, next: nat, next': nat, l: nat, b: nat)
    requires Sound(geo, d, files) && Sound(geo, d2, files2) && Wrote(geo, d0, files0, d, files, f, lo, buf, first, next)
    requires SameExcept(geo, d, d2, m) && m in geo.reserved && m in Marked(geo, d)
    requires Marked(geo, d) <= Marked(geo, d2) && next <= next'
    requires files2.Keys == files.Keys && (forall g :: g in files && g != f ==> files2[g] == files[g])
    requires forall g, x: nat :: g in files ==> PhysAt(geo, d2, files2[g], x) == if g == f && x == l && b != 0 then b else PhysAt(geo, d, files[g], x)
    requires b != 0 ==> PhysAt(geo, d, files[f], l) == 0 && b !in Marked(geo, d) && first <= l < next'
    ensures Wrote(geo, d0, files0, d2, files2, f, lo, buf, first, next')
  {
    hide RootOk;
    hide PhysAt;
    hide Formatted;
    hide Unshared;
    hide NodesClaimed;
    hide Used;
    hide Stored;
    forall g, x: nat | g in files2 && PhysAt(geo, d2, files2[g], x) != 0
      ensures Read(geo, d2, PhysAt(geo, d2, files2[g], x)) == Read(geo, d, PhysAt(geo, d2, files2[g], x))
    {
      assert PhysAt(geo, d2, files2[g], x) !in geo.reserved;
    }
    MappedStored(geo, d0, d, files[f], d2, files2[f], lo, buf, Marked(geo, d), l, b);
  }

  /** With one more mapping, to a block nobody wrote to, what was stored is still stored. */
  lemma MappedStored(geo: Geometry, d0: Disk, d: Disk, root: Root, d2: Disk, root2: Root, lo: nat, buf: seq<byte>,
                     used: iset<nat>, l: nat, b: nat)
    requires DiskOk(geo, d0) && RootOk(geo, d, root) && RootOk(geo, d2, root2) && Stored(geo, d0, d, root, lo, buf)
    requires forall x: nat :: PhysAt(geo, d2, root2, x) == if x == l && b != 0 then b else PhysAt(geo, d, root, x)
    requires b != 0 ==> PhysAt(geo, d, root, l) == 0 && b !in used
    requires KeepsFree(geo, d0, d, used)
    requires forall x: nat :: PhysAt(geo, d2, root2, x) != 0 ==> Read(geo, d2, PhysAt(geo, d2, root2, x)) == Read(geo, d, PhysAt(geo, d2, root2, x))
    ensures Stored(geo, d0, d2, root2, lo, buf)
  {
    hide RootOk;
    hide PhysAt;
    hide Div;
    hide Mod;
    forall pos: nat
      ensures StoredAt(geo, d0, d2, root2, lo, buf, pos)
    {
      assert StoredAt(geo, d0, d, root, lo, buf, pos);
    }
  }

  // ----- storing one chunk -----

  lemma WroteThenStored(geo: Geometry, d0: Disk, files0: Files, d: Disk, files: Files, f: nat,
                        lo: nat, buf: seq<byte>, first: nat, next: nat, chunk: seq<byte>, p: nat, d': Disk)
    requires f in files && Sound(geo, d, files) && Wrote(geo, d0, files0, d, files, f, lo, buf, first, next)
    requires Mod(lo + |buf|, geo.bs) + |chunk| <= geo.bs
    requires p == PhysAt(geo, d, files[f], Div(lo + |buf|, geo.bs)) && p != 0
    requires d' == StoreChunk(geo, d, p, Mod(lo + |buf|, geo.bs), chunk)
    ensures Formatted(geo, d') && Sound(geo, d', files)
    ensures Wrote(geo, d0, files0, d', files, f, lo, buf + chunk, first, next)
  {
    hide RootOk;
    hide PhysAt;
    hide Used;
    hide IsNode;
    hide StoredAt;
    WriteKeepsFormat(geo, d, p, Patch(Read(geo, d, p), Mod(lo + |buf|, geo.bs), chunk));
    WriteKeepsTrees(geo, d, d', files, p);
    SameTreesInv(geo, d, d', files, Marked(geo, d), Marked(geo, d'));
    OnlyOwner(geo, d, files, f, Div(lo + |buf|, geo.bs));
    forall pos: nat
      ensures StoredAt(geo, d0, d', files[f], lo, buf + chunk, pos)
    {
      assert StoredAt(geo, d0, d, files[f], lo, buf, pos);
      ChunkStoredAt(geo, d0, d, files[f], lo, buf, chunk, p, d', pos);
    }
  }

  lemma OnlyOwner(geo: Geometry, d: Disk, files: Files, f: nat, l: nat)
    requires RootsOk(geo, d, files) && Unshared(geo, d, files) && f in files && PhysAt(geo, d, files[f], l) != 0
    ensures forall g, m: nat :: g in files && !(g == f && m == l) ==> PhysAt(geo, d, files[g], m) != PhysAt(geo, d, files[f], l)
  {
    hide RootOk;
    hide PhysAt;
    forall g, m: nat | g in files && !(g == f && m == l)
      ensures PhysAt(geo, d, files[g], m) != PhysAt(geo, d, files[f], l)
    {
      assert (f, l) != (g, m);
    }
  }

  lemma ChunkStoredAt(geo: Geometry, d0: Disk, d: Disk, root: Root, lo: nat, buf: seq<byte>, chunk: seq<byte>, p: nat, d': Disk, pos: nat)
    requires DiskOk(geo, d) && DiskOk(geo, d0) && RootOk(geo, d, root) && RootOk(geo, d', root)
    requires StoredAt(geo, d0, d, root, lo, buf, pos)
    requires Mod(lo + |buf|, geo.bs) + |chunk| <= geo.bs
    requires p == PhysAt(geo, d, root, Div(lo + |buf|, geo.bs)) && p != 0
    requires d' == StoreChunk(geo, d, p, Mod(lo + |buf|, geo.bs), chunk)
    requires PhysAt(geo, d', root, Div(pos, geo.bs)) == PhysAt(geo, d, root, Div(pos, geo.bs))
    requires Div(pos, geo.bs) != Div(lo + |buf|, geo.bs) ==> PhysAt(geo, d, root, Div(pos, geo.bs)) != p
    ensures StoredAt(geo, d0, d', root, lo, buf + chunk, pos)
  {
    hide RootOk;
    hide PhysAt;
    var hi := lo + |buf|;
    SamePage(geo.bs, hi, pos, |chunk|);
    var off, x := Mod(hi, geo.bs), Mod(pos, geo.bs);
    if PhysAt(geo, d, root, Div(pos, geo.bs)) == p {
      assert off <= x < off + |chunk| <==> hi <= pos < hi + |chunk|;
      assert Read(geo, d', p)[x] == if off <= x < off + |chunk| then chunk[x - off] else Read(geo, d, p)[x];
    }
  }

  lemma Widen(geo: Geometry, d0: Disk, files0: Files, d: Disk, files: Files, f: nat, lo: nat, buf: seq<byte>, first: nat, next: nat, next': nat)
    requires Wrote(geo, d0, files0, d, files, f, lo, buf, first, next) && next <= next'
    ensures Wrote(geo, d0, files0, d, files, f, lo, buf, first, next')
  {
    hide RootOk;
    hide PhysAt;
    hide Stored;
    hide Used;
  }

  // ----- the operations -----

  /** The in-memory inode a file operation works on. */
  class InodeBuf {
    var size: nat
    var root: Root

    constructor (size: nat, root: Root)
      ensures this.size == size && this.root == root
    {
      this.size, this.root := size, root;
    }
  }

  /** An empty inline leaf: what a root without the extent magic is overwritten with. */
  function EmptyRoot(): (r: Root)
    ensures |r| == 60
  {
    PutU16(PutU16(Zeros(60), 0, MAGIC), 4, 4)
  }

  /** The tree a root stands for. */
  function Effective(root: Root): Root
    requires |root| == 60
  {
    if U16(root, 0) == MAGIC then root else EmptyRoot()
  }

  ghost predicate Live(vol: Volume, e: InodeBuf, files: Files, f: nat)
    reads vol, e
  {
    vol.Ok() && |e.root| == 60 && Sound(vol.geo, vol.disk, files[f := Effective(e.root)])
  }

  lemma RootOkIn(geo: Geometry, d: Disk, files: Files, f: nat)
    requires Sound(geo, d, files) && f in files
    ensures RootOk(geo, d, files[f])
  {
  }

  /** What taking block b for file block l of f (b == 0: nothing taken) did, by a write to bitmap m. */
  ghost predicate Extended(geo: Geometry, d: Disk, files: Files, d2: Disk, files2: Files, f: nat, l: nat, b: nat, m: nat) {
    && geo.Valid() && DiskOk(geo, d) && DiskOk(geo, d2) && RootsOk(geo, d, files) && RootsOk(geo, d2, files2) && f in files
    && SameExcept(geo, d, d2, m) && m in geo.reserved && m in Marked(geo, d)
    && files2.Keys == files.Keys && (forall g :: g in files && g != f ==> files2[g] == files[g])
    && (forall g, x: nat :: g in files ==> PhysAt(geo, d2, files2[g], x) == if g == f && x == l && b != 0 then b else PhysAt(geo, d, files[g], x))
    && (b != 0 ==> PhysAt(geo, d, files[f], l) == 0 && b !in Marked(geo, d) && Marked(geo, d2) == Marked(geo, d) + iset{b})
    && (b == 0 ==> Marked(geo, d2) == Marked(geo, d) && files2 == files)
  }

  lemma Took(geo: Geometry, d: Disk, files: Files, f: nat, l: nat, b: nat, d1: Disk)
    requires Sound(geo, d, files) && f in files && Allocated(geo, d, d1, b) && l + 1 < TWO32
    requires RootOk(geo, d, files[f]) && PhysAt(geo, d, files[f], l) == 0 && CanAppend(files[f])
    ensures var files2 := files[f := Append(files[f], l, b)];
            Sound(geo, d1, files2) && Extended(geo, d, files, d1, files2, f, l, b, geo.bitmaps[geo.GroupOf(b)])
  {
    hide RootOk;
    hide PhysAt;
    hide IsNode;
    hide Append;
    hide CanAppend;
    hide Unshared;
    var m := geo.bitmaps[geo.GroupOf(b)];
    assert Used(geo, d, m);
    WriteKeepsTrees(geo, d, d1, files, m);
    SameTreesInv(geo, d, d1, files, Marked(geo, d), Marked(geo, d1));
    AppendMaps(geo, d1, files[f], l, b);
    MappedInv(geo, d1, files, Marked(geo, d1), f, Append(files[f], l, b), l, b);
  }

  /** A block allocated and given back leaves every tree and every mark as it was. */
  lemma GaveBack(geo: Geometry, d: Disk, files: Files, f: nat, l: nat, b: nat, d1: Disk, d2: Disk)
    requires Sound(geo, d, files) && f in files && Allocated(geo, d, d1, b) && Released(geo, d1, d2, b)
    ensures Sound(geo, d2, files) && Extended(geo, d, files, d2, files, f, l, 0, geo.bitmaps[geo.GroupOf(b)])
  {
    hide RootOk;
    hide PhysAt;
    hide IsNode;
    hide Unshared;
    var m := geo.bitmaps[geo.GroupOf(b)];
    assert Used(geo, d, m);
    assert SameExcept(geo, d, d2, m);
    assert Marked(geo, d2) == Marked(geo, d);
    WriteKeepsTrees(geo, d, d2, files, m);
    SameTreesInv(geo, d, d2, files, Marked(geo, d), Marked(geo, d2));
  }

  /** The allocating branch of ext4_write_extent: a block for file block l, recorded as a new
      extent; if there is no room for the extent the block goes back to the bitmap. */
  method TakeBlock(vol: Volume, e: InodeBuf, l: nat, ghost files: Files, ghost f: nat) returns (b: nat, ghost m: nat)
    requires Live(vol, e, files, f) && U16(e.root, 0) == MAGIC && l + 1 < TWO32
    requires RootOk(vol.geo, vol.disk, e.root) && PhysAt(vol.geo, vol.disk, e.root, l) == 0
    modifies vol, e`root
    ensures Live(vol, e, files, f) && U16(e.root, 0) == MAGIC
    ensures b == 0 ==> e.root == old(e.root) && (Full(vol.geo, vol.disk) || !CanAppend(e.root))
    ensures b == 0 <==> Full(vol.geo, old(vol.disk)) || !CanAppend(old(e.root))
    ensures b != 0 ==> LowestFree(vol.geo, old(vol.disk), b)
    ensures (b == 0 && vol.disk == old(vol.disk)) ||
            Extended(vol.geo, old(vol.disk), files[f := old(e.root)], vol.disk, files[f := e.root], f, l, b, m)
  {
    hide Sound;
    hide RootOk;
    hide PhysAt;
    hide Formatted;
    hide Allocated;
    hide Released;
    hide Full;
    hide Append;
    hide Extended;
    hide LowestFree;
    hide AllUsedBelow;
    ghost var d, fs := vol.disk, files[f := e.root];
    b := vol.AllocBlock();
    m := 0;
    if b == 0 { return; }
    ghost var d1 := vol.disk;
    AllocatedFacts(vol.geo, d, d1, b);
    m := vol.geo.bitmaps[vol.geo.GroupOf(b)];
    if CanAppend(e.root) {
      Took(vol.geo, d, fs, f, l, b, d1);
      AppendDecodes(e.root, l, b);
      e.root := Append(e.root, l, b);
      assert files[f := e.root] == fs[f := e.root];
    } else {
      vol.FreeBlock(b);
      GaveBack(vol.geo, d, fs, f, l, b, d1, vol.disk);
      b := 0;
    }
  }

  lemma AllocatedFacts(geo: Geometry, d: Disk, d1: Disk, b: nat)
    requires Allocated(geo, d, d1, b) && AllUsedBelow(geo, d, b)
    ensures geo.Valid() && geo.Covers(b) && b !in geo.reserved && 0 < b < TWO32 && LowestFree(geo, d, b) && !Full(geo, d)
  {
  }

  /** What a finished write of `data` at offset has done to file f. */
  ghost predicate WriteDone(geo: Geometry, d0: Disk, files0: Files, d: Disk, files: Files, f: nat, offset: nat, data: seq<byte>) {
    && geo.Valid()
    && Wrote(geo, d0, files0, d, files, f, offset, data, Div(offset, geo.bs), AfterLast(geo, offset, |data|))
  }

  /** One turn of the inner loop: a chunk into block p, which holds position offset + written. */
  method WriteChunk(vol: Volume, e: InodeBuf, buf: seq<byte>, offset: nat, written: nat, p: nat,
                    ghost files: Files, ghost f: nat, ghost d0: Disk, ghost fs0: Files, ghost next: nat) returns (n: nat)
    requires Live(vol, e, files, f) && U16(e.root, 0) == MAGIC && written < |buf| && RootOk(vol.geo, vol.disk, e.root)
    requires p == PhysAt(vol.geo, vol.disk, e.root, Div(offset + written, vol.geo.bs)) && p != 0
    requires Wrote(vol.geo, d0, fs0, vol.disk, files[f := e.root], f, offset, buf[..written], Div(offset, vol.geo.bs), next)
    requires next <= Div(offset + written, vol.geo.bs) + 1
    modifies vol`disk
    ensures Live(vol, e, files, f) && RootOk(vol.geo, vol.disk, e.root)
    ensures n == Chunk(vol.geo, offset + written, |buf| - written)
    ensures Wrote(vol.geo, d0, fs0, vol.disk, files[f := e.root], f, offset, buf[..written + n],
                  Div(offset, vol.geo.bs), AfterLast(vol.geo, offset, written + n))
    ensures SameMap(vol.geo, old(vol.disk), vol.disk, e.root)
  {
    hide Sound;
    hide RootOk;
    hide PhysAt;
    hide Formatted;
    hide Wrote;
    hide SameMap;
    var geo := vol.geo;
    n := Chunk(geo, offset + written, |buf| - written);
    var off := Mod(offset + written, geo.bs);
    var chunk := buf[written..written + n];
    ghost var d, fs := vol.disk, files[f := e.root];
    var block := vol.ReadBlock(p);
    vol.WriteBlock(p, Patch(block, off, chunk));
    WroteThenStored(geo, d0, fs0, d, fs, f, offset, buf[..written], Div(offset, geo.bs), next, chunk, p, vol.disk);
    StoreKeepsMap(geo, d, fs, f, p, Patch(block, off, chunk), Div(offset + written, geo.bs));
    assert buf[..written] + chunk == buf[..written + n];
    AfterStep(geo, offset, written, |buf| - written);
    Widen(geo, d0, fs0, vol.disk, fs, f, offset, buf[..written + n], Div(offset, geo.bs), next, AfterLast(geo, offset, written + n));
    RootOkIn(geo, vol.disk, fs, f);
  }

  ghost predicate SameMap(geo: Geometry, d: Disk, d': Disk, root: Root) {
    && RootOk(geo, d, root) && RootOk(geo, d', root) && Marked(geo, d') == Marked(geo, d)
    && forall l: nat :: PhysAt(geo, d', root, l) == PhysAt(geo, d, root, l)
  }

  lemma SameMapTrans(geo: Geometry, d: Disk, d': Disk, d'': Disk, root: Root)
    requires SameMap(geo, d, d', root) && SameMap(geo, d', d'', root)
    ensures SameMap(geo, d, d'', root)
  {
    hide RootOk;
    hide PhysAt;
  }

  lemma StoreKeepsMap(geo: Geometry, d: Disk, files: Files, f: nat, p: nat, blk: seq<byte>, l: nat)
    requires Sound(geo, d, files) && f in files && RootOk(geo, d, files[f]) && p == PhysAt(geo, d, files[f], l) && p != 0 && |blk| == geo.bs
    ensures SameMap(geo, d, d[p := blk], files[f])
  {
    hide RootOk;
    hide PhysAt;
    hide IsNode;
    WriteKeepsTrees(geo, d, d[p := blk], files, p);
    WriteKeepsFormat(geo, d, p, blk);
  }

  /** File blocks [l, l + len) are device blocks [p, p + len). */
  ghost predicate RunAt(geo: Geometry, d: Disk, root: Root, l: nat, len: nat, p: nat)
    requires RootOk(geo, d, root)
  {
    forall x: nat :: l <= x < l + len ==> PhysAt(geo, d, root, x) == p + (x - l)
  }

  lemma SameMapRefl(geo: Geometry, d: Disk, root: Root)
    requires RootOk(geo, d, root)
    ensures SameMap(geo, d, d, root)
  {
    hide RootOk;
    hide PhysAt;
  }

  lemma InRun(geo: Geometry, d: Disk, d': Disk, root: Root, l: nat, len: nat, p: nat, i: nat)
    requires RootOk(geo, d, root) && RunAt(geo, d, root, l, len, p) && SameMap(geo, d, d', root) && i < len
    ensures RootOk(geo, d', root) && PhysAt(geo, d', root, l + i) == p + i
  {
    hide RootOk;
    hide PhysAt;
  }

  /** The inner loop: an extent's blocks from p on, until they or the data run out. */
  method WriteRun(vol: Volume, e: InodeBuf, buf: seq<byte>, offset: nat, start: nat, p: nat, len: nat, l: nat,
                  ghost files: Files, ghost f: nat, ghost d0: Disk, ghost fs0: Files, ghost next: nat) returns (written: nat)
    requires Live(vol, e, files, f) && U16(e.root, 0) == MAGIC && start < |buf| && len > 0 && p > 0
    requires l == Div(offset + start, vol.geo.bs) && RootOk(vol.geo, vol.disk, e.root)
    requires RunAt(vol.geo, vol.disk, e.root, l, len, p)
    requires Wrote(vol.geo, d0, fs0, vol.disk, files[f := e.root], f, offset, buf[..start], Div(offset, vol.geo.bs), next) && next <= l + 1
    modifies vol`disk
    ensures Live(vol, e, files, f) && start < written <= |buf|
    ensures SameMap(vol.geo, old(vol.disk), vol.disk, e.root) && AfterLast(vol.geo, offset, written) <= l + len
    ensures Wrote(vol.geo, d0, fs0, vol.disk, files[f := e.root], f, offset, buf[..written],
                  Div(offset, vol.geo.bs), AfterLast(vol.geo, offset, written))
    ensures written < |buf| ==> Div(offset + written, vol.geo.bs) == AfterLast(vol.geo, offset, written) == l + len && Mod(offset + written, vol.geo.bs) == 0
  {
    hide Sound;
    hide RootOk;
    hide PhysAt;
    hide Formatted;
    hide Wrote;
    hide SameMap;
    hide RunAt;
    hide Marked;
    hide Div;
    hide Mod;
    var geo := vol.geo;
    written := start;
    var i := 0;
    SameMapRefl(geo, vol.disk, e.root);
    while i < len && written < |buf|
      invariant i <= len && start <= written <= |buf| && Live(vol, e, files, f) && RootOk(geo, vol.disk, e.root)
      invariant i > 0 ==> start < written
      invariant SameMap(geo, old(vol.disk), vol.disk, e.root)
      invariant i > 0 ==> AfterLast(geo, offset, written) <= l + i
      invariant written < |buf| ==> Div(offset + written, geo.bs) == l + i && (i > 0 ==> Mod(offset + written, geo.bs) == 0 && AfterLast(geo, offset, written) == l + i)
      invariant i == 0 ==> written == start && Wrote(geo, d0, fs0, vol.disk, files[f := e.root], f, offset, buf[..written], Div(offset, geo.bs), next)
      invariant i > 0 ==> Wrote(geo, d0, fs0, vol.disk, files[f := e.root], f, offset, buf[..written], Div(offset, geo.bs), AfterLast(geo, offset, written))
    {
      ghost var d := vol.disk;
      InRun(geo, old(vol.disk), d, e.root, l, len, p, i);
      var n := WriteChunk(vol, e, buf, offset, written, p + i, files, f, d0, fs0, if i == 0 then next else AfterLast(geo, offset, written));
      AfterStep(geo, offset, written, |buf| - written);
      Advance(offset + written, n, geo.bs);
      SameMapTrans(geo, old(vol.disk), d, vol.disk, e.root);
      written := written + n;
      i := i + 1;
    }
  }

  /** File block l of f is a hole. */
  ghost predicate Unmapped(geo: Geometry, d: Disk, files: Files, f: nat, l: nat) {
    f in files && RootOk(geo, d, files[f]) && PhysAt(geo, d, files[f], l) == 0
  }

  lemma StillUnmapped(geo: Geometry, d0: Disk, files0: Files, d: Disk, files: Files, f: nat, lo: nat, buf: seq<byte>, first: nat, l: nat)
    requires Wrote(geo, d0, files0, d, files, f, lo, buf, first, l)
    requires RootOk(geo, d, files[f]) && PhysAt(geo, d, files[f], l) == 0
    ensures Unmapped(geo, d0, files0, f, l)
  {
    hide RootOk;
    hide PhysAt;
    hide Stored;
  }

  /** ext4_write_extent on the inode in e: returns how many bytes it stored. It stops short
      only when the volume is full or the inline leaf has no room for another extent. */
  method WriteExtent(vol: Volume, e: InodeBuf, buf: seq<byte>, offset: nat, ghost files: Files, ghost f: nat) returns (n: nat)
    requires Live(vol, e, files, f) && offset + |buf| < TWO32
    modifies vol, e
    ensures Live(vol, e, files, f) && U16(e.root, 0) == MAGIC && n <= |buf|
    ensures e.size == if offset + n > old(e.size) then offset + n else old(e.size)
    ensures WriteDone(vol.geo, old(vol.disk), files[f := Effective(old(e.root))], vol.disk, files[f := e.root], f, offset, buf[..n])
    ensures n < |buf| ==> Full(vol.geo, vol.disk) || !CanAppend(e.root)
    ensures n < |buf| ==> Unmapped(vol.geo, old(vol.disk), files[f := Effective(old(e.root))], f, Div(offset + n, vol.geo.bs))
    ensures n < |buf| ==> AfterLast(vol.geo, offset, n) == Div(offset + n, vol.geo.bs)
    ensures Decided(vol.geo, old(vol.disk), Effective(old(e.root)), vol.disk, e.root, Div(offset, vol.geo.bs), AfterLast(vol.geo, offset, |buf|),
                    n == |buf|, AfterLast(vol.geo, offset, n))
  {
    hide Sound;
    hide RootOk;
    hide PhysAt;
    hide Formatted;
    hide Wrote;
    hide Full;
    hide CanAppend;
    hide Unmapped;
    hide Turn;
    hide Reached;
    hide Progress;
    hide Decided;
    hide AfterLast;
    hide Div;
    hide Mod;
    EffectiveMagic(e.root);
    e.root := Effective(e.root);
    ghost var d0, fs0 := vol.disk, files[f := e.root];
    var geo := vol.geo;
    var l := Div(offset, geo.bs);
    n := 0;
    WroteNothing(geo, d0, fs0, f, offset, l);
    RootOkIn(geo, d0, fs0, f);
    AfterNothing(geo, offset);
    ghost var root0, first, hole, taken := e.root, l, -1, 0;
    NoProgress(geo, d0, root0, first);
    ghost var done := false;
    while n < |buf|
      invariant n <= |buf| && Live(vol, e, files, f) && U16(e.root, 0) == MAGIC && e.size == old(e.size)
      invariant Wrote(geo, d0, fs0, vol.disk, files[f := e.root], f, offset, buf[..n], first, AfterLast(geo, offset, n))
      invariant n < |buf| ==> l == Div(offset + n, geo.bs) == AfterLast(geo, offset, n)
      invariant Progress(geo, d0, root0, vol.disk, e.root, first, AfterLast(geo, offset, n), hole, taken)
    {
      ghost var d1, root1 := vol.disk, e.root;
      Ahead(geo, d0, fs0, d1, files[f := e.root], f, offset, buf[..n], first, l);
      DivMono(offset, offset + n, geo.bs);
      AfterPast(geo, offset, n, |buf|);
      var stored, len, p := WriteStep(vol, e, buf, offset, n, l, files, f, d0, fs0);
      if stored == 0 {
        Stopped(geo, d0, root0, d1, root1, vol.disk, e.root, first, l, AfterLast(geo, offset, |buf|), hole, taken);
        done := true;
        break;
      }
      hole, taken := Progressed(geo, d0, root0, d1, root1, vol.disk, e.root, first, l, AfterLast(geo, offset, n + stored), p, hole, taken);
      n := n + stored;
      l := l + len;
    }
    if !done { Finished(geo, d0, root0, vol.disk, e.root, first, AfterLast(geo, offset, n), hole, taken); }
    if offset + n > e.size {
      e.size := offset + n;
    }
  }

  lemma AfterNothing(geo: Geometry, offset: nat)
    requires geo.bs > 0
    ensures AfterLast(geo, offset, 0) == Div(offset, geo.bs)
  {
  }

  /** k is the first hole of the file blocks [first, last). */
  ghost predicate FirstHole(geo: Geometry, d: Disk, root: Root, first: nat, last: nat, k: nat)
    requires RootOk(geo, d, root)
  {
    first <= k < last && PhysAt(geo, d, root, k) == 0 && forall x: nat :: first <= x < k ==> PhysAt(geo, d, root, x) != 0
  }

  /** The state a write has reached before file block `next`: no hole met (hole < 0), and then no
      block taken; or the first hole met and filled with the lowest free block. */
  ghost predicate Progress(geo: Geometry, d0: Disk, root0: Root, d: Disk, root: Root, first: nat, next: nat, hole: int, taken: nat) {
    && RootOk(geo, d0, root0) && RootOk(geo, d, root)
    && (hole < 0 ==> root == root0 && Marked(geo, d) == Marked(geo, d0) && forall x: nat :: first <= x < next ==> PhysAt(geo, d0, root0, x) != 0)
    && (hole >= 0 ==>
          && FirstHole(geo, d0, root0, first, next, hole) && !Full(geo, d0) && CanAppend(root0)
          && taken != 0 && LowestFree(geo, d0, taken) && PhysAt(geo, d, root, hole) == taken)
  }

  /** What becomes of the first hole, told by the state before the write: with the volume full or
      the leaf exhausted the write stops right there and takes nothing, otherwise the hole gets
      the lowest free block; and without a hole the write is complete. */
  ghost predicate Decided(geo: Geometry, d0: Disk, root0: Root, d: Disk, root: Root, first: nat, last: nat, complete: bool, next: nat) {
    && RootOk(geo, d0, root0) && RootOk(geo, d, root)
    && ((forall x: nat :: first <= x < last ==> PhysAt(geo, d0, root0, x) != 0) ==> complete && root == root0)
    && (forall k: nat :: FirstHole(geo, d0, root0, first, last, k) ==>
          if Full(geo, d0) || !CanAppend(root0) then !complete && next == k && root == root0
          else k < next && PhysAt(geo, d, root, k) != 0 && LowestFree(geo, d0, PhysAt(geo, d, root, k)))
  }

  lemma NoProgress(geo: Geometry, d: Disk, root: Root, first: nat)
    requires RootOk(geo, d, root)
    ensures Progress(geo, d, root, d, root, first, first, -1, 0)
  {
    hide RootOk;
    hide PhysAt;
  }

  /** From file block l on the mapping is still the one before the write. */
  lemma Ahead(geo: Geometry, d0: Disk, files0: Files, d: Disk, files: Files, f: nat, lo: nat, buf: seq<byte>, first: nat, l: nat)
    requires Wrote(geo, d0, files0, d, files, f, lo, buf, first, l)
    ensures f in files0 && f in files && SameFrom(geo, d0, files0[f], d, files[f], l)
  {
    hide RootOk;
    hide PhysAt;
    hide Stored;
  }

  ghost predicate SameFrom(geo: Geometry, d0: Disk, root0: Root, d: Disk, root: Root, l: nat) {
    && RootOk(geo, d0, root0) && RootOk(geo, d, root)
    && forall x: nat :: l <= x ==> PhysAt(geo, d, root, x) == PhysAt(geo, d0, root0, x)
  }

  lemma SameMarks(geo: Geometry, d: Disk, d': Disk)
    requires geo.Valid() && DiskOk(geo, d) && DiskOk(geo, d') && Marked(geo, d') == Marked(geo, d)
    ensures Full(geo, d') == Full(geo, d)
    ensures forall b: nat :: LowestFree(geo, d', b) == LowestFree(geo, d, b)
  {
    forall n: nat
      ensures Used(geo, d', n) == Used(geo, d, n)
    {
      assert n in Marked(geo, d') <==> n in Marked(geo, d);
    }
  }

  lemma Progressed(geo: Geometry, d0: Disk, root0: Root, d1: Disk, root1: Root, d: Disk, root: Root, first: nat, l: nat, next: nat,
                   p: nat, hole: int, taken: nat) returns (hole': int, taken': nat)
    requires Progress(geo, d0, root0, d1, root1, first, l, hole, taken) && SameFrom(geo, d0, root0, d1, root1, l) && first <= l
    requires Turn(geo, d1, root1, d, root, l, p) && p != 0 && Reached(geo, d1, root1, l, next)
    ensures Progress(geo, d0, root0, d, root, first, next, hole', taken')
  {
    hide RootOk;
    hide PhysAt;
    hide CanAppend;
    hide Full;
    hide LowestFree;
    hole', taken' := hole, taken;
    if hole < 0 {
      MarksOf(geo, d0, root0, d1, root1);
      SameMarks(geo, d0, d1);
      if PhysAt(geo, d1, root1, l) == 0 { hole', taken' := l, p; }
    }
  }

  lemma MarksOf(geo: Geometry, d0: Disk, root0: Root, d1: Disk, root1: Root)
    requires RootOk(geo, d0, root0) && RootOk(geo, d1, root1)
    ensures geo.Valid() && DiskOk(geo, d0) && DiskOk(geo, d1)
  {
  }

  lemma Stopped(geo: Geometry, d0: Disk, root0: Root, d1: Disk, root1: Root, d: Disk, root: Root, first: nat, l: nat, last: nat,
                hole: int, taken: nat)
    requires Progress(geo, d0, root0, d1, root1, first, l, hole, taken) && SameFrom(geo, d0, root0, d1, root1, l) && first <= l < last
    requires Turn(geo, d1, root1, d, root, l, 0)
    ensures Decided(geo, d0, root0, d, root, first, last, false, l)
  {
    hide RootOk;
    hide PhysAt;
    hide CanAppend;
    hide Full;
    hide LowestFree;
    MarksOf(geo, d0, root0, d1, root1);
    assert PhysAt(geo, d1, root1, l) == 0;
    if hole < 0 {
      SameMarks(geo, d0, d1);
      assert FirstHole(geo, d0, root0, first, last, l);
    } else {
      assert PhysAt(geo, d, root, hole) == taken;
    }
  }

  lemma Finished(geo: Geometry, d0: Disk, root0: Root, d: Disk, root: Root, first: nat, next: nat, hole: int, taken: nat)
    requires Progress(geo, d0, root0, d, root, first, next, hole, taken)
    ensures Decided(geo, d0, root0, d, root, first, next, true, next)
  {
    hide RootOk;
    hide PhysAt;
    hide CanAppend;
    hide Full;
    hide LowestFree;
  }

  lemma EffectiveMagic(root: Root)
    requires |root| == 60
    ensures U16(Effective(root), 0) == MAGIC && Effective(Effective(root)) == Effective(root)
  {
    SameU16(PutU16(Zeros(60), 0, MAGIC), EmptyRoot(), 0);
  }

  /** What finding or making the block p of file block l did to the mapping: nothing if it was
      there; otherwise p is the lowest free block, and there is none exactly when the volume is
      full or the leaf cannot take another extent. */
  ghost predicate Turn(geo: Geometry, d: Disk, root: Root, d': Disk, root': Root, l: nat, p: nat) {
    && RootOk(geo, d, root) && RootOk(geo, d', root')
    && (forall x: nat :: PhysAt(geo, d, root, x) != 0 ==> PhysAt(geo, d', root', x) == PhysAt(geo, d, root, x))
    && (PhysAt(geo, d, root, l) != 0 ==> p == PhysAt(geo, d, root, l) && root' == root && Marked(geo, d') == Marked(geo, d))
    && (PhysAt(geo, d, root, l) == 0 ==>
          && (p == 0 <==> Full(geo, d) || !CanAppend(root)) && (p == 0 ==> root' == root)
          && (p != 0 ==> LowestFree(geo, d, p) && PhysAt(geo, d', root', l) == p))
  }

  lemma TurnThen(geo: Geometry, d: Disk, root: Root, d': Disk, d'': Disk, root': Root, l: nat, p: nat)
    requires Turn(geo, d, root, d', root', l, p) && SameMap(geo, d', d'', root')
    ensures Turn(geo, d, root, d'', root', l, p)
  {
    hide RootOk;
    hide PhysAt;
    hide CanAppend;
    hide Full;
    hide LowestFree;
  }

  lemma TurnTaken(geo: Geometry, d: Disk, files: Files, d2: Disk, files2: Files, f: nat, l: nat, b: nat, m: nat)
    requires Extended(geo, d, files, d2, files2, f, l, b, m) && RootOk(geo, d, files[f]) && PhysAt(geo, d, files[f], l) == 0
    requires b == 0 <==> Full(geo, d) || !CanAppend(files[f])
    requires b != 0 ==> LowestFree(geo, d, b)
    ensures f in files2 && Turn(geo, d, files[f], d2, files2[f], l, b)
  {
    hide RootOk;
    hide PhysAt;
    hide CanAppend;
    hide Full;
    hide LowestFree;
    hide SameExcept;
  }

  lemma TurnStill(geo: Geometry, d: Disk, root: Root, l: nat, p: nat)
    requires RootOk(geo, d, root) && p == PhysAt(geo, d, root, l) && (p == 0 ==> Full(geo, d) || !CanAppend(root))
    ensures Turn(geo, d, root, d, root, l, p)
  {
    hide RootOk;
    hide PhysAt;
  }

  /** The extent of file block l, found or made; p == 0 when there is none to be had. */
  method FindExtent(vol: Volume, e: InodeBuf, l: nat, ghost files: Files, ghost f: nat, ghost d0: Disk, ghost fs0: Files,
                    ghost lo: nat, ghost data: seq<byte>, ghost first: nat) returns (p: nat, len: nat, ghost next: nat)
    requires Live(vol, e, files, f) && U16(e.root, 0) == MAGIC && first <= l && l + 1 < TWO32
    requires Wrote(vol.geo, d0, fs0, vol.disk, files[f := e.root], f, lo, data, first, l)
    modifies vol, e`root
    ensures Live(vol, e, files, f) && U16(e.root, 0) == MAGIC && l <= next <= l + 1
    ensures Turn(vol.geo, old(vol.disk), old(e.root), vol.disk, e.root, l, p)
    ensures Wrote(vol.geo, d0, fs0, vol.disk, files[f := e.root], f, lo, data, first, if p == 0 then l else next)
    ensures p == 0 ==> (Full(vol.geo, vol.disk) || !CanAppend(e.root)) && Unmapped(vol.geo, d0, fs0, f, l)
    ensures p != 0 ==> len > 0 && RootOk(vol.geo, vol.disk, e.root) && RunAt(vol.geo, vol.disk, e.root, l, len, p)
    ensures RootOk(vol.geo, old(vol.disk), old(e.root)) && (PhysAt(vol.geo, old(vol.disk), old(e.root), l) == 0 ==> len == 1)
    ensures PhysAt(vol.geo, old(vol.disk), old(e.root), l) != 0 ==> vol.disk == old(vol.disk)
  {
    hide Sound;
    hide RootOk;
    hide PhysAt;
    hide Formatted;
    hide Wrote;
    hide Full;
    hide Extended;
    hide CanAppend;
    hide Unmapped;
    hide LowestFree;
    hide Turn;
    var geo := vol.geo;
    ghost var d, fs := vol.disk, files[f := e.root];
    RootOkIn(geo, d, fs, f);
    var found := Search(vol, e.root, l);
    next := l;
    if found != None {
      TurnStill(geo, d, e.root, l, found.phys);
      return found.phys, found.length, l;
    }
    StillUnmapped(geo, d0, fs0, d, fs, f, lo, data, first, l);
    ghost var m;
    p, m := TakeBlock(vol, e, l, files, f);
    len := 1;
    next := if p == 0 then l else l + 1;
    if p == 0 && vol.disk == d {
      TurnStill(geo, d, e.root, l, 0);
    } else {
      TurnTaken(geo, d, fs, vol.disk, files[f := e.root], f, l, p, m);
      ExtendedKeeps(geo, d0, fs0, d, fs, vol.disk, files[f := e.root], f, m, lo, data, first, l, next, l, p);
    }
    RootOkIn(geo, vol.disk, files[f := e.root], f);
  }

  /** One turn of the outer loop: find or make the extent of file block l and write into it. */
  method WriteStep(vol: Volume, e: InodeBuf, buf: seq<byte>, offset: nat, n: nat, l: nat,
                   ghost files: Files, ghost f: nat, ghost d0: Disk, ghost fs0: Files) returns (stored: nat, len: nat, ghost p: nat)
    requires Live(vol, e, files, f) && U16(e.root, 0) == MAGIC && n < |buf| && offset + |buf| < TWO32
    requires l == Div(offset + n, vol.geo.bs)
    requires Wrote(vol.geo, d0, fs0, vol.disk, files[f := e.root], f, offset, buf[..n], Div(offset, vol.geo.bs), l)
    modifies vol, e`root
    ensures Live(vol, e, files, f) && U16(e.root, 0) == MAGIC && n + stored <= |buf|
    ensures Turn(vol.geo, old(vol.disk), old(e.root), vol.disk, e.root, l, p) && (stored == 0 <==> p == 0)
    ensures stored == 0 ==> Full(vol.geo, vol.disk) || !CanAppend(e.root)
    ensures stored == 0 ==> Unmapped(vol.geo, d0, fs0, f, l)
    ensures stored == 0 ==> Wrote(vol.geo, d0, fs0, vol.disk, files[f := e.root], f, offset, buf[..n], Div(offset, vol.geo.bs), l)
    ensures stored > 0 ==> Wrote(vol.geo, d0, fs0, vol.disk, files[f := e.root], f, offset, buf[..n + stored],
                                 Div(offset, vol.geo.bs), AfterLast(vol.geo, offset, n + stored))
    ensures stored > 0 ==> Reached(vol.geo, old(vol.disk), old(e.root), l, AfterLast(vol.geo, offset, n + stored))
    ensures stored > 0 && n + stored < |buf| ==> Div(offset + n + stored, vol.geo.bs) == AfterLast(vol.geo, offset, n + stored) == l + len
  {
    hide Sound;
    hide RootOk;
    hide PhysAt;
    hide Formatted;
    hide Wrote;
    hide Full;
    hide CanAppend;
    hide Unmapped;
    hide Turn;
    hide SameMap;
    hide RunAt;
    hide Reached;
    var geo := vol.geo;
    DivLe(offset + n, geo.bs);
    DivMono(offset, offset + n, geo.bs);
    var q;
    ghost var next;
    q, len, next := FindExtent(vol, e, l, files, f, d0, fs0, offset, buf[..n], Div(offset, geo.bs));
    p := q;
    if q == 0 { return 0, 0, 0; }
    ghost var d1 := vol.disk;
    var written := WriteRun(vol, e, buf, offset, n, q, len, l, files, f, d0, fs0, next);
    TurnThen(geo, old(vol.disk), old(e.root), d1, vol.disk, e.root, l, p);
    AfterPast(geo, offset, n, written);
    ReachedBy(geo, old(vol.disk), old(e.root), d1, e.root, l, len, q, AfterLast(geo, offset, written));
    stored := written - n;
  }

  /** The file blocks a turn goes through, from l to `upto`: all mapped if l was, else just l. */
  ghost predicate Reached(geo: Geometry, d: Disk, root: Root, l: nat, upto: nat) {
    && RootOk(geo, d, root) && l < upto
    && (PhysAt(geo, d, root, l) == 0 ==> upto == l + 1)
    && (PhysAt(geo, d, root, l) != 0 ==> forall x: nat :: l <= x < upto ==> PhysAt(geo, d, root, x) != 0)
  }

  lemma ReachedBy(geo: Geometry, d: Disk, root: Root, d1: Disk, root1: Root, l: nat, len: nat, p: nat, upto: nat)
    requires Turn(geo, d, root, d1, root1, l, p) && p != 0 && RunAt(geo, d1, root1, l, len, p) && l < upto <= l + len
    requires PhysAt(geo, d, root, l) == 0 ==> len == 1
    requires PhysAt(geo, d, root, l) != 0 ==> d1 == d
    ensures Reached(geo, d, root, l, upto)
  {
    hide RootOk;
    hide PhysAt;
    hide CanAppend;
    hide Full;
    hide LowestFree;
  }

  lemma AfterPast(geo: Geometry, offset: nat, n: nat, written: nat)
    requires geo.bs > 0 && n < written
    ensures Div(offset + n, geo.bs) < AfterLast(geo, offset, written)
  {
    DivMono(offset + n, offset + written - 1, geo.bs);
  }

  lemma ExtendedKeeps(geo: Geometry, d0: Disk, files0: Files, d: Disk, files: Files, d2: Disk, files2: Files, f: nat, m: nat,
                      lo: nat, buf: seq<byte>, first: nat, next: nat, next': nat, l: nat, b: nat)
    requires Sound(geo, d, files) && Sound(geo, d2, files2) && Wrote(geo, d0, files0, d, files, f, lo, buf, first, next)
    requires Extended(geo, d, files, d2, files2, f, l, b, m) && next <= next' && (b != 0 ==> first <= l < next')
    ensures Wrote(geo, d0, files0, d2, files2, f, lo, buf, first, next')
    ensures b != 0 ==> RootOk(geo, d2, files2[f]) && PhysAt(geo, d2, files2[f], l) == b
  {
    hide RootOk;
    hide PhysAt;
    hide Wrote;
    hide Formatted;
    hide Inv;
    WroteThenMapped(geo, d0, files0, d, files, d2, files2, f, m, lo, buf, first, next, next', l, b);
  }

  /** The search of one file block in a live root, with the run of blocks it gives. */
  method Search(vol: Volume, root: Root, l: nat) returns (r: Found)
    requires vol.Ok() && RootOk(vol.geo, vol.disk, root)
    ensures r == None <==> PhysAt(vol.geo, vol.disk, root, l) == 0
    ensures r == Find(Flat(vol.geo, vol.disk, root), l)
    ensures r != None ==> r.phys > 0 && r.length > 0 && r.phys + r.length <= TWO32
    ensures r != None ==> RunAt(vol.geo, vol.disk, root, l, r.length, r.phys)
  {
    hide Shape;
    hide Ranged;
    hide Flat;
    r := Traverse(vol.geo, vol.disk, root, l, 0, BLOCKS);
    MappedNonzero(vol.geo, vol.disk, root, l);
    FlatInRange(vol.geo, vol.disk, root, 0, BLOCKS);
    FindBound(Flat(vol.geo, vol.disk, root), l);
    if r != None {
      forall x: nat | l <= x < l + r.length
        ensures PhysAt(vol.geo, vol.disk, root, x) == r.phys + (x - l)
      {
        FindRun(Flat(vol.geo, vol.disk, root), l, x - l);
      }
    }
  }

  // ----- what a write means for the bytes of files -----

  /** The written range holds the data; outside it a mapped byte is kept, a hole whose file
      block was not touched is still a hole and reads as zero, and a byte of a freshly
      taken block is whatever that block held on the device. */
  lemma FileAfterWrite(geo: Geometry, d0: Disk, files0: Files, d: Disk, files: Files, f: nat, offset: nat, data: seq<byte>, pos: nat)
    requires WriteDone(geo, d0, files0, d, files, f, offset, data)
    ensures RootOk(geo, d0, files0[f]) && RootOk(geo, d, files[f])
    ensures offset <= pos < offset + |data| ==> ByteAt(geo, d, files[f], pos) == data[pos - offset]
    ensures !(offset <= pos < offset + |data|) && PhysAt(geo, d0, files0[f], Div(pos, geo.bs)) != 0 ==>
              ByteAt(geo, d, files[f], pos) == ByteAt(geo, d0, files0[f], pos)
    ensures !(Div(offset, geo.bs) <= Div(pos, geo.bs) < AfterLast(geo, offset, |data|)) && PhysAt(geo, d0, files0[f], Div(pos, geo.bs)) == 0 ==>
              PhysAt(geo, d, files[f], Div(pos, geo.bs)) == 0 && ByteAt(geo, d, files[f], pos) == 0
    ensures !(offset <= pos < offset + |data|) && PhysAt(geo, d0, files0[f], Div(pos, geo.bs)) == 0 && PhysAt(geo, d, files[f], Div(pos, geo.bs)) != 0 ==>
              var p := PhysAt(geo, d, files[f], Div(pos, geo.bs));
              p !in Marked(geo, d0) && ByteAt(geo, d, files[f], pos) == Read(geo, d0, p)[Mod(pos, geo.bs)]
  {
    hide RootOk;
    hide PhysAt;
    hide Used;
    assert StoredAt(geo, d0, d, files[f], offset, data, pos);
  }

  /** Writing one file changes no byte of any other. */
  lemma OtherFilesAfterWrite(geo: Geometry, d0: Disk, files0: Files, d: Disk, files: Files, f: nat, offset: nat, data: seq<byte>, g: nat, pos: nat)
    requires WriteDone(geo, d0, files0, d, files, f, offset, data) && g in files0 && g != f
    ensures g in files && files[g] == files0[g] && RootOk(geo, d, files[g]) && RootOk(geo, d0, files0[g])
    ensures ByteAt(geo, d, files[g], pos) == ByteAt(geo, d0, files0[g], pos)
  {
    hide RootOk;
    hide PhysAt;
    hide Stored;
    hide Used;
    assert PhysAt(geo, d, files[g], Div(pos, geo.bs)) == PhysAt(geo, d0, files0[g], Div(pos, geo.bs));
  }

  /** If every free block of the volume holds zeros, a write changes nothing outside its range. */
  lemma BlankFreeKeeps(geo: Geometry, d0: Disk, files0: Files, d: Disk, files: Files, f: nat, offset: nat, data: seq<byte>, pos: nat)
    requires WriteDone(geo, d0, files0, d, files, f, offset, data) && !(offset <= pos < offset + |data|)
    requires forall n: nat :: n !in Marked(geo, d0) ==> Read(geo, d0, n) == Zeros(geo.bs)
    ensures RootOk(geo, d0, files0[f]) && RootOk(geo, d, files[f])
    ensures ByteAt(geo, d, files[f], pos) == ByteAt(geo, d0, files0[f], pos)
  {
    hide Wrote;
    hide PhysAt;
    hide RootOk;
    FileAfterWrite(geo, d0, files0, d, files, f, offset, data, pos);
  }

  /** A write into some of one hole, which gets the lowest free block p: nothing outside the range
      changes if and only if p is blank there. */
  lemma ExposesExactly(geo: Geometry, d0: Disk, files0: Files, d: Disk, files: Files, f: nat, offset: nat, data: seq<byte>, p: nat)
    requires WriteDone(geo, d0, files0, d, files, f, offset, data) && data != [] && Mod(offset, geo.bs) + |data| <= geo.bs
    requires Unmapped(geo, d0, files0, f, Div(offset, geo.bs)) && DiskOk(geo, d0) && LowestFree(geo, d0, p)
    requires f in files && RootOk(geo, d, files[f]) && LowestFree(geo, d0, PhysAt(geo, d, files[f], Div(offset, geo.bs)))
    ensures (forall pos: nat :: !(offset <= pos < offset + |data|) ==> ByteAt(geo, d, files[f], pos) == ByteAt(geo, d0, files0[f], pos))
            <==> BlankAround(geo, d0, p, Mod(offset, geo.bs), |data|)
  {
    hide WriteDone;
    hide RootOk;
    hide PhysAt;
    hide ByteAt;
    hide LowestFree;
    hide Div;
    hide Mod;
    DoneValid(geo, d0, files0, d, files, f, offset, data);
    OneLowest(geo, d0, p, PhysAt(geo, d, files[f], Div(offset, geo.bs)));
    var m := Mod(offset, geo.bs);
    forall pos: nat | !(offset <= pos < offset + |data|)
      ensures ByteAt(geo, d, files[f], pos) == ByteAt(geo, d0, files0[f], pos) || !BlankAround(geo, d0, p, m, |data|)
    {
      AroundHole(geo, d0, files0, d, files, f, offset, data, p, pos);
    }
    if k :| 0 <= k < geo.bs && !(m <= k < m + |data|) && Read(geo, d0, p)[k] != 0 {
      InBlock(geo, offset, k);
      AroundHole(geo, d0, files0, d, files, f, offset, data, p, offset - m + k);
    }
  }

  /** Outside the range: the byte of p in the same file block, and what was there elsewhere. */
  lemma AroundHole(geo: Geometry, d0: Disk, files0: Files, d: Disk, files: Files, f: nat, offset: nat, data: seq<byte>, p: nat, pos: nat)
    requires WriteDone(geo, d0, files0, d, files, f, offset, data) && data != [] && Mod(offset, geo.bs) + |data| <= geo.bs
    requires Unmapped(geo, d0, files0, f, Div(offset, geo.bs))
    requires f in files && RootOk(geo, d, files[f]) && DiskOk(geo, d0) && p == PhysAt(geo, d, files[f], Div(offset, geo.bs))
    requires !(offset <= pos < offset + |data|)
    ensures Div(pos, geo.bs) != Div(offset, geo.bs) ==> ByteAt(geo, d, files[f], pos) == ByteAt(geo, d0, files0[f], pos)
    ensures Div(pos, geo.bs) == Div(offset, geo.bs) ==>
              ByteAt(geo, d0, files0[f], pos) == 0 && ByteAt(geo, d, files[f], pos) == Read(geo, d0, p)[Mod(pos, geo.bs)] &&
              !(Mod(offset, geo.bs) <= Mod(pos, geo.bs) < Mod(offset, geo.bs) + |data|)
  {
    hide Wrote;
    hide RootOk;
    hide PhysAt;
    hide Marked;
    WithinBlock(geo, offset, |data|, pos);
    FileAfterWrite(geo, d0, files0, d, files, f, offset, data, pos);
    FileAfterWrite(geo, d0, files0, d, files, f, offset, data, offset);
    StoredThere(geo, d0, files0, d, files, f, offset, data, pos);
    StoredThere(geo, d0, files0, d, files, f, offset, data, offset);
  }

  lemma DoneValid(geo: Geometry, d0: Disk, files0: Files, d: Disk, files: Files, f: nat, offset: nat, data: seq<byte>)
    requires WriteDone(geo, d0, files0, d, files, f, offset, data)
    ensures geo.Valid() && DiskOk(geo, d0)
  {
  }

  lemma StoredThere(geo: Geometry, d0: Disk, files0: Files, d: Disk, files: Files, f: nat, offset: nat, data: seq<byte>, pos: nat)
    requires WriteDone(geo, d0, files0, d, files, f, offset, data)
    ensures f in files && DiskOk(geo, d0) && RootOk(geo, d, files[f]) && StoredAt(geo, d0, d, files[f], offset, data, pos)
  {
    hide RootOk;
    hide PhysAt;
    hide StoredAt;
  }

  // ----- reading -----

  /** ext4_read_extent on the inode in e: the bytes from offset on, at most count, cut at the
      end of the file; fails on a root without the extent magic. */
  method ReadExtent(vol: Volume, e: InodeBuf, offset: nat, count: nat) returns (ok: bool, out: seq<byte>)
    requires vol.Ok() && |e.root| == 60 && offset + count < TWO32
    requires U16(e.root, 0) == MAGIC ==> RootOk(vol.geo, vol.disk, e.root)
    ensures ok == (offset >= e.size || U16(e.root, 0) == MAGIC)
    ensures ok ==> |out| == if offset >= e.size then 0 else if offset + count > e.size then e.size - offset else count
    ensures U16(e.root, 0) == MAGIC ==> forall i :: 0 <= i < |out| ==> out[i] == ByteAt(vol.geo, vol.disk, e.root, offset + i)
  {
    hide Formatted;
    hide RootOk;
    hide PhysAt;
    hide Div;
    hide Mod;
    hide ByteAt;
    hide RunAt;
    out := [];
    if offset >= e.size { return true, []; }
    if U16(e.root, 0) != MAGIC { return false, []; }
    var wanted := if offset + count > e.size then e.size - offset else count;
    var geo := vol.geo;
    var l := Div(offset, geo.bs);
    while |out| < wanted
      invariant |out| <= wanted
      invariant |out| < wanted ==> l == Div(offset + |out|, geo.bs)
      invariant Yields(geo, vol.disk, e.root, offset, out)
    {
      var found := Search(vol, e.root, l);
      if found == None {
        var n := Chunk(geo, offset + |out|, wanted - |out|);
        ReadPiece(geo, vol.disk, e.root, offset + |out|, n, Zeros(n));
        Advance(offset + |out|, n, geo.bs);
        YieldsMore(geo, vol.disk, e.root, offset, out, Zeros(n));
        out := out + Zeros(n);
        l := l + 1;
      } else {
        out := ReadRun(vol, e.root, offset, wanted, out, found.phys, found.length, l);
        l := l + found.length;
      }
    }
    ok := true;
  }

  /** out holds the file's bytes from offset on. */
  ghost predicate Yields(geo: Geometry, d: Disk, root: Root, offset: nat, out: seq<byte>) {
    RootOk(geo, d, root) && forall i :: 0 <= i < |out| ==> out[i] == ByteAt(geo, d, root, offset + i)
  }

  lemma YieldsMore(geo: Geometry, d: Disk, root: Root, offset: nat, out: seq<byte>, piece: seq<byte>)
    requires Yields(geo, d, root, offset, out) && Yields(geo, d, root, offset + |out|, piece)
    ensures Yields(geo, d, root, offset, out + piece)
  {
    hide RootOk;
    hide ByteAt;
    forall i | 0 <= i < |out + piece|
      ensures (out + piece)[i] == ByteAt(geo, d, root, offset + i)
    {
      if i >= |out| { assert (out + piece)[i] == piece[i - |out|] == ByteAt(geo, d, root, offset + |out| + (i - |out|)); }
    }
  }

  /** A piece of one block, or of a hole, is the file's bytes from pos on. */
  lemma ReadPiece(geo: Geometry, d: Disk, root: Root, pos: nat, n: nat, piece: seq<byte>)
    requires RootOk(geo, d, root) && Mod(pos, geo.bs) + n <= geo.bs && |piece| == n
    requires var p := PhysAt(geo, d, root, Div(pos, geo.bs));
             piece == if p == 0 then Zeros(n) else Read(geo, d, p)[Mod(pos, geo.bs)..Mod(pos, geo.bs) + n]
    ensures Yields(geo, d, root, pos, piece)
  {
    hide RootOk;
    hide PhysAt;
    hide Div;
    hide Mod;
    forall i | 0 <= i < n
      ensures piece[i] == ByteAt(geo, d, root, pos + i)
    {
      Advance(pos, i, geo.bs);
    }
  }

  /** The inner read loop: an extent's blocks from p on, until they or the request run out. */
  method ReadRun(vol: Volume, root: Root, offset: nat, wanted: nat, out0: seq<byte>, p: nat, len: nat, l: nat) returns (out: seq<byte>)
    requires vol.Ok() && RootOk(vol.geo, vol.disk, root) && |out0| < wanted && len > 0 && p > 0
    requires l == Div(offset + |out0|, vol.geo.bs) && RunAt(vol.geo, vol.disk, root, l, len, p)
    requires Yields(vol.geo, vol.disk, root, offset, out0)
    ensures |out0| < |out| <= wanted && (|out| < wanted ==> Div(offset + |out|, vol.geo.bs) == l + len)
    ensures Yields(vol.geo, vol.disk, root, offset, out)
  {
    hide Formatted;
    hide RootOk;
    hide PhysAt;
    hide Yields;
    hide Div;
    hide Mod;
    var geo := vol.geo;
    out := out0;
    var i := 0;
    while i < len && |out| < wanted
      invariant i <= len && |out0| <= |out| <= wanted && (i > 0 ==> |out0| < |out|)
      invariant |out| < wanted ==> Div(offset + |out|, geo.bs) == l + i
      invariant Yields(geo, vol.disk, root, offset, out)
    {
      var pos := offset + |out|;
      var n := Chunk(geo, pos, wanted - |out|);
      var block := vol.ReadBlock(p + i);
      var piece := block[Mod(pos, geo.bs)..Mod(pos, geo.bs) + n];
      ReadPiece(geo, vol.disk, root, pos, n, piece);
      Advance(pos, n, geo.bs);
      YieldsMore(geo, vol.disk, root, offset, out, piece);
      out := out + piece;
      i := i + 1;
    }
  }

  /** Read over write: reading back the range just written gives exactly the bytes written. */
  method WriteThenRead(vol: Volume, e: InodeBuf, buf: seq<byte>, offset: nat, ghost files: Files, ghost f: nat) returns (n: nat, out: seq<byte>)
    requires Live(vol, e, files, f) && offset + |buf| < TWO32
    modifies vol, e
    ensures n <= |buf| && out == buf[..n]
  {
    hide Sound;
    hide Formatted;
    hide RootOk;
    hide PhysAt;
    hide Wrote;
    hide Full;
    ghost var d0, fs0 := vol.disk, files[f := Effective(e.root)];
    n := WriteExtent(vol, e, buf, offset, files, f);
    RootOkIn(vol.geo, vol.disk, files[f := e.root], f);
    var ok;
    ok, out := ReadExtent(vol, e, offset, n);
    forall i | 0 <= i < n
      ensures out[i] == buf[i]
    {
      FileAfterWrite(vol.geo, d0, fs0, vol.disk, files[f := e.root], f, offset, buf[..n], offset + i);
    }
  }
}
