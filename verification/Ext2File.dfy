/** ext2 files as flat byte arrays: reading, writing, and the proof that a write stores
    exactly its bytes, keeps every other mapped byte, and never reaches another file. */
module Ext2File {
  import opened Arith
  import opened Bytes
  import opened Volumes
  import opened Ext2Tree
  import opened Ext2Map

  // ----- the flat view -----

  /** The device block holding byte pos of the file, 0 where the file has none. */
  function BlockOf(geo: Geometry, d: Disk, tree: Tree, pos: nat): nat
    requires geo.Valid() && DiskOk(geo, d) && TreeOk(tree)
  {
    DataPtr(geo, d, tree, Div(pos, geo.bs))
  }

  function DataPtr(geo: Geometry, d: Disk, tree: Tree, fb: nat): nat
    requires geo.Valid() && DiskOk(geo, d) && TreeOk(tree)
  {
    if Mappable(geo, fb) then
      SlotForOk(geo, fb);
      PtrAt(geo, d, tree, SlotFor(geo, fb))
    else 0
  }

  /** Byte pos of the file: holes hold zeros. */
  function ByteAt(geo: Geometry, d: Disk, tree: Tree, pos: nat): byte
    requires geo.Valid() && DiskOk(geo, d) && TreeOk(tree)
  {
    var p := BlockOf(geo, d, tree, pos);
    if p == 0 then 0 else Read(geo, d, p)[Mod(pos, geo.bs)]
  }

  // ----- what a write in progress has done -----

  /** Only file f changed; it lost no pointer, and its data blocks outside file blocks
      [first, next) are where they were. */
  ghost predicate PtrsKept(geo: Geometry, d0: Disk, files0: Files, d: Disk, files: Files, f: nat, first: nat, next: nat) {
    && TreesOk(geo, d0, files0) && TreesOk(geo, d, files) && files.Keys == files0.Keys && f in files
    && (forall g :: g in files && g != f ==> files[g] == files0[g])
    && (forall g, s :: g in files && SlotOk(geo, s) && (g != f || PtrAt(geo, d0, files0[g], s) != 0) ==>
          PtrAt(geo, d, files[g], s) == PtrAt(geo, d0, files0[g], s))
    && (forall fb: nat :: !(first <= fb < next) ==> DataPtr(geo, d, files[f], fb) == DataPtr(geo, d0, files0[f], fb))
  }

  /** The data blocks of the other files hold the bytes they held. */
  ghost predicate OthersKept(geo: Geometry, d0: Disk, d: Disk, files: Files, f: nat)
    requires DiskOk(geo, d0) && TreesOk(geo, d, files)
  {
    forall g, s :: g in files && g != f && SlotOk(geo, s) && !IsPointer(s) && PtrAt(geo, d, files[g], s) != 0 ==>
      Read(geo, d, PtrAt(geo, d, files[g], s)) == Read(geo, d0, PtrAt(geo, d, files[g], s))
  }

  /** Position pos: mapped and holding its byte of buf if it is in [lo, lo + |buf|);
      otherwise, if mapped, holding what its device block held before. */
  ghost predicate StoredAt(geo: Geometry, d0: Disk, d: Disk, tree: Tree, lo: nat, buf: seq<byte>, pos: nat)
    requires geo.Valid() && DiskOk(geo, d0) && DiskOk(geo, d) && TreeOk(tree)
  {
    var p := BlockOf(geo, d, tree, pos);
    && (lo <= pos < lo + |buf| ==> p != 0)
    && (p != 0 ==> Read(geo, d, p)[Mod(pos, geo.bs)] ==
                   if lo <= pos < lo + |buf| then buf[pos - lo] else Read(geo, d0, p)[Mod(pos, geo.bs)])
  }

  ghost predicate Stored(geo: Geometry, d0: Disk, d: Disk, tree: Tree, lo: nat, buf: seq<byte>)
    requires geo.Valid() && DiskOk(geo, d0) && DiskOk(geo, d) && TreeOk(tree)
  {
    forall pos: nat :: StoredAt(geo, d0, d, tree, lo, buf, pos)
  }

  ghost predicate Wrote(geo: Geometry, d0: Disk, files0: Files, d: Disk, files: Files, f: nat,
                        lo: nat, buf: seq<byte>, first: nat, next: nat) {
    && f in files0 && f in files && TreeOk(files0[f]) && TreeOk(files[f])
    && geo.Valid() && DiskOk(geo, d0) && DiskOk(geo, d)
    && PtrsKept(geo, d0, files0, d, files, f, first, next)
    && GainsFree(geo, d0, files0[f], Marked(geo, d0), d, files[f])
    && OthersKept(geo, d0, d, files, f)
    && KeepsFree(geo, d0, d, Marked(geo, d))
    && Marked(geo, d0) <= Marked(geo, d)
    && Stored(geo, d0, d, files[f], lo, buf)
  }

  lemma WroteNothing(geo: Geometry, d: Disk, files: Files, f: nat, lo: nat, first: nat)
    requires Sound(geo, d, files) && f in files
    ensures Wrote(geo, d, files, d, files, f, lo, [], first, first)
  {
  }

  // ----- growing keeps what was written -----

  lemma GrowElsewhere(geo: Geometry, d1: Disk, files1: Files, d2: Disk, files2: Files, f: nat, fb: nat)
    requires geo.Valid() && Mappable(geo, fb) && KeepsPtrs(geo, d1, files1, d2, files2, f, SlotFor(geo, fb))
    ensures forall x: nat :: x != fb ==> DataPtr(geo, d2, files2[f], x) == DataPtr(geo, d1, files1[f], x)
  {
    forall x: nat | x != fb
      ensures DataPtr(geo, d2, files2[f], x) == DataPtr(geo, d1, files1[f], x)
    {
      if Mappable(geo, x) {
        SlotForOk(geo, x);
        if SlotFor(geo, x) == SlotFor(geo, fb) { SlotForInjective(geo, x, fb); }
      }
    }
  }

  lemma GrowPtrs(geo: Geometry, d0: Disk, files0: Files, d1: Disk, files1: Files, d2: Disk, files2: Files,
                 f: nat, first: nat, next: nat, next': nat, target: Slot)
    requires PtrsKept(geo, d0, files0, d1, files1, f, first, next) && next <= next'
    requires KeepsPtrs(geo, d1, files1, d2, files2, f, target)
    requires forall x: nat :: !(first <= x < next') ==> DataPtr(geo, d2, files2[f], x) == DataPtr(geo, d1, files1[f], x)
    ensures PtrsKept(geo, d0, files0, d2, files2, f, first, next')
  {
    hide PtrAt;
    hide DataPtr;
    hide SlotOk;
    hide TreeOk;
    hide DiskOk;
    forall g, s | g in files2 && SlotOk(geo, s) && (g != f || PtrAt(geo, d0, files0[g], s) != 0)
      ensures PtrAt(geo, d2, files2[g], s) == PtrAt(geo, d0, files0[g], s)
    {
      assert PtrAt(geo, d1, files1[g], s) == PtrAt(geo, d0, files0[g], s);
    }
  }

  lemma GrowGains(geo: Geometry, d0: Disk, files0: Files, d1: Disk, files1: Files, d2: Disk, files2: Files, f: nat,
                  target: Slot, u0: iset<nat>, u1: iset<nat>)
    requires KeepsPtrs(geo, d1, files1, d2, files2, f, target) && f in files0 && DiskOk(geo, d0) && TreeOk(files0[f])
    requires GainsFree(geo, d0, files0[f], u0, d1, files1[f]) && GainsFree(geo, d1, files1[f], u1, d2, files2[f])
    requires u0 <= u1
    ensures GainsFree(geo, d0, files0[f], u0, d2, files2[f])
  {
    forall s | SlotOk(geo, s) && PtrAt(geo, d0, files0[f], s) == 0 && PtrAt(geo, d2, files2[f], s) != 0
      ensures PtrAt(geo, d2, files2[f], s) !in u0
    {
      if PtrAt(geo, d1, files1[f], s) != 0 {
        assert PtrAt(geo, d2, files2[f], s) == PtrAt(geo, d1, files1[f], s);
      }
    }
  }

  lemma GrowOthers(geo: Geometry, d0: Disk, d1: Disk, files1: Files, d2: Disk, files2: Files, f: nat, target: Slot)
    requires KeepsPtrs(geo, d1, files1, d2, files2, f, target) && KeepsData(geo, d1, d2, files2)
    requires DiskOk(geo, d0) && OthersKept(geo, d0, d1, files1, f)
    ensures OthersKept(geo, d0, d2, files2, f)
  {
    forall g, s | g in files2 && g != f && SlotOk(geo, s) && !IsPointer(s) && PtrAt(geo, d2, files2[g], s) != 0
      ensures Read(geo, d2, PtrAt(geo, d2, files2[g], s)) == Read(geo, d0, PtrAt(geo, d2, files2[g], s))
    {
      assert PtrAt(geo, d2, files2[g], s) == PtrAt(geo, d1, files1[g], s);
    }
  }

  lemma GrowStored(geo: Geometry, d0: Disk, d1: Disk, files1: Files, u1: iset<nat>, d2: Disk, files2: Files, f: nat,
                   target: Slot, lo: nat, buf: seq<byte>)
    requires geo.Valid() && KeepsPtrs(geo, d1, files1, d2, files2, f, target) && KeepsData(geo, d1, d2, files2)
    requires GainsFree(geo, d1, files1[f], u1, d2, files2[f])
    requires DiskOk(geo, d0) && KeepsFree(geo, d0, d1, u1) && Stored(geo, d0, d1, files1[f], lo, buf)
    ensures Stored(geo, d0, d2, files2[f], lo, buf)
  {
    forall pos: nat
      ensures StoredAt(geo, d0, d2, files2[f], lo, buf, pos)
    {
      assert StoredAt(geo, d0, d1, files1[f], lo, buf, pos);
      var fb := Div(pos, geo.bs);
      if Mappable(geo, fb) {
        SlotForOk(geo, fb);
        var s := SlotFor(geo, fb);
        assert PtrAt(geo, d1, files1[f], s) == BlockOf(geo, d1, files1[f], pos);
      }
    }
  }

  /** Mapping one more block keeps everything a write has done so far. */
  lemma WroteThenGrew(geo: Geometry, d0: Disk, files0: Files, d1: Disk, files1: Files, d2: Disk, files2: Files, f: nat,
                      lo: nat, buf: seq<byte>, first: nat, next: nat, next': nat, fb: nat)
    requires geo.Valid() && Wrote(geo, d0, files0, d1, files1, f, lo, buf, first, next)
    requires Mappable(geo, fb) && Grown(geo, d1, files1, d2, files2, f, SlotFor(geo, fb))
    requires next <= next' && first <= fb
    requires fb < next' || DataPtr(geo, d2, files2[f], fb) == 0
    ensures Wrote(geo, d0, files0, d2, files2, f, lo, buf, first, next')
  {
    var u0, u1, u2 := Marked(geo, d0), Marked(geo, d1), Marked(geo, d2);
    var target := SlotFor(geo, fb);
    GrowElsewhere(geo, d1, files1, d2, files2, f, fb);
    SlotForOk(geo, fb);
    GrowPtrs(geo, d0, files0, d1, files1, d2, files2, f, first, next, next', target);
    GrowGains(geo, d0, files0, d1, files1, d2, files2, f, target, u0, u1);
    GrowOthers(geo, d0, d1, files1, d2, files2, f, target);
    GrowStored(geo, d0, d1, files1, u1, d2, files2, f, target, lo, buf);
  }

  // ----- storing one chunk -----

  /** Writing a data block of file f leaves pointers alone, and the other files' data. */
  lemma DataWriteKeeps(geo: Geometry, d: Disk, files: Files, f: nat, s: Slot, blk: seq<byte>)
    requires Sound(geo, d, files) && f in files && SlotOk(geo, s) && !IsPointer(s)
    requires PtrAt(geo, d, files[f], s) != 0 && |blk| == geo.bs
    ensures var d' := d[PtrAt(geo, d, files[f], s) := blk];
            Sound(geo, d', files) && SamePtrs(geo, d, d', files) && Marked(geo, d') == Marked(geo, d)
  {
    var p := PtrAt(geo, d, files[f], s);
    var d' := d[p := blk];
    WriteKeepsFormat(geo, d, p, blk);
    DataIsNotPointer(geo, d, files, f, s);
    PtrFrameAll(geo, d, d', files, p);
    SamePtrsKeepInv(geo, d, d', files, Marked(geo, d), Marked(geo, d'));
  }

  lemma DataIsNotPointer(geo: Geometry, d: Disk, files: Files, f: nat, s: Slot)
    requires TreesOk(geo, d, files) && Unshared(geo, d, files) && f in files && SlotOk(geo, s) && !IsPointer(s)
    requires PtrAt(geo, d, files[f], s) != 0
    ensures forall g, t :: g in files && SlotOk(geo, t) && IsPointer(t) ==>
              PtrAt(geo, d, files[g], t) != PtrAt(geo, d, files[f], s)
    ensures forall g, t :: g in files && g != f && SlotOk(geo, t) ==>
              PtrAt(geo, d, files[g], t) != PtrAt(geo, d, files[f], s)
  {
  }

  lemma ChunkStored(geo: Geometry, d0: Disk, d: Disk, files: Files, f: nat, lo: nat, buf: seq<byte>, chunk: seq<byte>, p: nat, d': Disk)
    requires geo.Valid() && TreesOk(geo, d, files) && Unshared(geo, d, files) && f in files && DiskOk(geo, d0)
    requires Stored(geo, d0, d, files[f], lo, buf)
    requires Mod(lo + |buf|, geo.bs) + |chunk| <= geo.bs
    requires p == BlockOf(geo, d, files[f], lo + |buf|) && p != 0
    requires d' == StoreChunk(geo, d, p, Mod(lo + |buf|, geo.bs), chunk) && SamePtrs(geo, d, d', files)
    ensures Stored(geo, d0, d', files[f], lo, buf + chunk)
  {
    var fb := Div(lo + |buf|, geo.bs);
    forall pos: nat
      ensures StoredAt(geo, d0, d', files[f], lo, buf + chunk, pos)
    {
      SameDataPtr(geo, d, d', files, f, Div(pos, geo.bs));
      if Div(pos, geo.bs) != fb { DataPtrDistinct(geo, d, files, f, fb, Div(pos, geo.bs)); }
      ChunkStoredAt(geo, d0, d, files[f], lo, buf, chunk, p, d', pos);
    }
  }

  lemma ChunkStoredAt(geo: Geometry, d0: Disk, d: Disk, tree: Tree, lo: nat, buf: seq<byte>, chunk: seq<byte>, p: nat, d': Disk, pos: nat)
    requires geo.Valid() && DiskOk(geo, d) && DiskOk(geo, d0) && TreeOk(tree)
    requires StoredAt(geo, d0, d, tree, lo, buf, pos)
    requires Mod(lo + |buf|, geo.bs) + |chunk| <= geo.bs
    requires p == BlockOf(geo, d, tree, lo + |buf|) && p != 0
    requires d' == StoreChunk(geo, d, p, Mod(lo + |buf|, geo.bs), chunk)
    requires BlockOf(geo, d', tree, pos) == BlockOf(geo, d, tree, pos)
    requires Div(pos, geo.bs) != Div(lo + |buf|, geo.bs) ==> BlockOf(geo, d, tree, pos) != p
    ensures StoredAt(geo, d0, d', tree, lo, buf + chunk, pos)
  {
    var hi := lo + |buf|;
    SamePage(geo.bs, hi, pos, |chunk|);
    var off, x := Mod(hi, geo.bs), Mod(pos, geo.bs);
    if BlockOf(geo, d, tree, pos) == p {
      assert off <= x < off + |chunk| <==> hi <= pos < hi + |chunk|;
      assert Read(geo, d', p)[x] == if off <= x < off + |chunk| then chunk[x - off] else Read(geo, d, p)[x];
    }
  }

  lemma SameDataPtr(geo: Geometry, d: Disk, d': Disk, files: Files, f: nat, fb: nat)
    requires TreesOk(geo, d, files) && DiskOk(geo, d') && SamePtrs(geo, d, d', files) && f in files
    ensures DataPtr(geo, d', files[f], fb) == DataPtr(geo, d, files[f], fb)
  {
    if Mappable(geo, fb) { SlotForOk(geo, fb); }
  }

  /** Two file blocks never share a device block. */
  lemma DataPtrDistinct(geo: Geometry, d: Disk, files: Files, f: nat, x: nat, y: nat)
    requires TreesOk(geo, d, files) && Unshared(geo, d, files) && f in files && x != y
    requires DataPtr(geo, d, files[f], x) != 0
    ensures DataPtr(geo, d, files[f], x) != DataPtr(geo, d, files[f], y)
  {
    SlotForOk(geo, x);
    if Mappable(geo, y) {
      SlotForOk(geo, y);
      if SlotFor(geo, x) == SlotFor(geo, y) { SlotForInjective(geo, x, y); }
    }
  }

  /** Storing a chunk where the write has got to extends what it has done by that chunk. */
  lemma WroteThenStored(geo: Geometry, d0: Disk, files0: Files, d: Disk, files: Files, f: nat,
                        lo: nat, buf: seq<byte>, first: nat, next: nat, chunk: seq<byte>, p: nat, d': Disk)
    requires f in files && Sound(geo, d, files) && Wrote(geo, d0, files0, d, files, f, lo, buf, first, next)
    requires Mod(lo + |buf|, geo.bs) + |chunk| <= geo.bs
    requires p == BlockOf(geo, d, files[f], lo + |buf|) && p != 0
    requires d' == StoreChunk(geo, d, p, Mod(lo + |buf|, geo.bs), chunk)
    ensures Formatted(geo, d') && Sound(geo, d', files)
    ensures Wrote(geo, d0, files0, d', files, f, lo, buf + chunk, first, next)
    ensures BlockOf(geo, d', files[f], lo + |buf|) == p
  {
    hide Stored;
    hide OthersKept;
    hide PtrsKept;
    hide KeepsFree;
    hide Unshared;
    hide Claimed;
    hide PtrAt;
    hide U32;
    var fb := Div(lo + |buf|, geo.bs);
    SlotForOk(geo, fb);
    var s := SlotFor(geo, fb);
    DataWriteKeeps(geo, d, files, f, s, Patch(Read(geo, d, p), Mod(lo + |buf|, geo.bs), chunk));
    ChunkStored(geo, d0, d, files, f, lo, buf, chunk, p, d');
    StoredKeepsPtrs(geo, d0, files0, d, d', files, f, first, next);
    DataIsNotPointer(geo, d, files, f, s);
    StoredKeepsOthers(geo, d0, d, d', files, f, p);
    StoredKeepsFree(geo, d0, d, d', files, f, s, p);
  }

  lemma StoredKeepsPtrs(geo: Geometry, d0: Disk, files0: Files, d: Disk, d': Disk, files: Files, f: nat, first: nat, next: nat)
    requires PtrsKept(geo, d0, files0, d, files, f, first, next)
    requires DiskOk(geo, d') && SamePtrs(geo, d, d', files)
    ensures PtrsKept(geo, d0, files0, d', files, f, first, next)
  {
    forall fb: nat | !(first <= fb < next)
      ensures DataPtr(geo, d', files[f], fb) == DataPtr(geo, d0, files0[f], fb)
    {
      SameDataPtr(geo, d, d', files, f, fb);
    }
  }

  lemma StoredKeepsOthers(geo: Geometry, d0: Disk, d: Disk, d': Disk, files: Files, f: nat, p: nat)
    requires TreesOk(geo, d, files) && DiskOk(geo, d') && DiskOk(geo, d0)
    requires SamePtrs(geo, d, d', files) && SameExcept(geo, d, d', p) && OthersKept(geo, d0, d, files, f)
    requires forall g, t :: g in files && g != f && SlotOk(geo, t) ==> PtrAt(geo, d, files[g], t) != p
    ensures OthersKept(geo, d0, d', files, f)
  {
    forall g, s | g in files && g != f && SlotOk(geo, s) && !IsPointer(s) && PtrAt(geo, d', files[g], s) != 0
      ensures Read(geo, d', PtrAt(geo, d', files[g], s)) == Read(geo, d0, PtrAt(geo, d', files[g], s))
    {
      assert PtrAt(geo, d', files[g], s) == PtrAt(geo, d, files[g], s);
    }
  }

  lemma StoredKeepsFree(geo: Geometry, d0: Disk, d: Disk, d': Disk, files: Files, f: nat, s: Slot, p: nat)
    requires Sound(geo, d, files) && f in files && SlotOk(geo, s) && p == PtrAt(geo, d, files[f], s) && p != 0
    requires DiskOk(geo, d0) && DiskOk(geo, d') && SameExcept(geo, d, d', p)
    requires KeepsFree(geo, d0, d, Marked(geo, d)) && Marked(geo, d') == Marked(geo, d)
    ensures KeepsFree(geo, d0, d', Marked(geo, d'))
  {
  }

  // ----- the write loop -----

  /** What a finished write of n bytes of buf at offset has done to file f: where the
      touched file blocks are, which bytes are stored, and that all else is kept. */
  ghost predicate WriteDone(geo: Geometry, d0: Disk, files0: Files, d: Disk, files: Files, f: nat, offset: nat, data: seq<byte>) {
    && geo.Valid()
    && Wrote(geo, d0, files0, d, files, f, offset, data, Div(offset, geo.bs), AfterLast(geo, offset, |data|))
  }

  /** Every byte of the range lies in a mapped block. */
  ghost predicate NoHoles(geo: Geometry, d: Disk, tree: Tree, offset: nat, count: nat) {
    geo.Valid() && DiskOk(geo, d) && TreeOk(tree) &&
    forall pos: nat :: offset <= pos < offset + count ==> BlockOf(geo, d, tree, pos) != 0
  }

  lemma NoHoleAt(geo: Geometry, d: Disk, tree: Tree, offset: nat, count: nat, pos: nat)
    requires geo.Valid() && DiskOk(geo, d) && TreeOk(tree) && offset <= pos < offset + count
    ensures NoHoles(geo, d, tree, offset, count) ==> BlockOf(geo, d, tree, pos) != 0
  {
  }

  /** The bytes [offset, offset + count) are some of one addressable file block. */
  predicate OneBlock(geo: Geometry, offset: nat, count: nat)
    requires geo.Valid()
  {
    count > 0 && Mod(offset, geo.bs) + count <= geo.bs && Mappable(geo, Div(offset, geo.bs))
  }

  /** How many pointer blocks are missing on the way to position pos. */
  ghost function MissingAt(geo: Geometry, d: Disk, tree: Tree, pos: nat): nat
    requires geo.Valid() && DiskOk(geo, d) && TreeOk(tree)
  {
    if Mappable(geo, Div(pos, geo.bs)) then
      SlotForOk(geo, Div(pos, geo.bs));
      Missing(geo, d, tree, SlotFor(geo, Div(pos, geo.bs)))
    else 0
  }

  /** A hole at pos gets the free block that follows those for its missing pointer blocks, if
      there are that many. */
  ghost predicate HoleTakes(geo: Geometry, d0: Disk, tree0: Tree, d: Disk, tree: Tree, pos: nat)
    requires geo.Valid() && DiskOk(geo, d0) && TreeOk(tree0) && DiskOk(geo, d) && TreeOk(tree)
  {
    Mappable(geo, Div(pos, geo.bs)) && BlockOf(geo, d0, tree0, pos) == 0 ==>
      TakesNth(geo, d0, MissingAt(geo, d0, tree0, pos), BlockOf(geo, d, tree, pos))
  }

  lemma HoleResolved(geo: Geometry, d0: Disk, tree0: Tree, d: Disk, tree: Tree, pos: nat)
    requires geo.Valid() && DiskOk(geo, d0) && TreeOk(tree0) && DiskOk(geo, d) && TreeOk(tree)
    requires Mappable(geo, Div(pos, geo.bs)) ==>
               Resolved(geo, d0, tree0, d, tree, SlotFor(geo, Div(pos, geo.bs)), BlockOf(geo, d, tree, pos))
    ensures HoleTakes(geo, d0, tree0, d, tree, pos)
    ensures BlockOf(geo, d0, tree0, pos) != 0 ==> tree == tree0 && BlockOf(geo, d, tree, pos) != 0
  {
    hide TakesNth;
    hide Shifted;
    hide NoneUnder;
  }

  lemma StillMapped(geo: Geometry, d0: Disk, files0: Files, d: Disk, files: Files, f: nat, lo: nat, buf: seq<byte>,
                    first: nat, next: nat, pos: nat)
    requires Wrote(geo, d0, files0, d, files, f, lo, buf, first, next)
    ensures BlockOf(geo, d0, files0[f], pos) != 0 ==> BlockOf(geo, d, files[f], pos) == BlockOf(geo, d0, files0[f], pos)
  {
    if Mappable(geo, Div(pos, geo.bs)) { SlotForOk(geo, Div(pos, geo.bs)); }
  }

  /** One turn of the write loop: the chunk that fits the current block, or 0 stored. */
  method WriteStep(vol: Volume, e: InodeBuf, buf: seq<byte>, offset: nat, written: nat,
                   ghost files: Files, ghost f: nat, ghost d0: Disk, ghost fs0: Files) returns (stored: nat)
    requires Live(vol, e, files, f) && written < |buf|
    requires Wrote(vol.geo, d0, fs0, vol.disk, With(files, f, e), f, offset, buf[..written],
                   Div(offset, vol.geo.bs), Div(offset + written, vol.geo.bs))
    modifies vol, e
    ensures Live(vol, e, files, f) && e.size == old(e.size)
    ensures stored == 0 ==> !Mappable(vol.geo, Div(offset + written, vol.geo.bs)) || Full(vol.geo, vol.disk)
    ensures stored == 0 || stored == Chunk(vol.geo, offset + written, |buf| - written)
    ensures stored == 0 <==> BlockOf(vol.geo, vol.disk, e.block, offset + written) == 0
    ensures old(BlockOf(vol.geo, vol.disk, e.block, offset + written)) != 0 ==> e.block == old(e.block) && stored != 0
    ensures HoleTakes(vol.geo, old(vol.disk), old(e.block), vol.disk, e.block, offset + written)
    ensures written + stored <= |buf|
    ensures Wrote(vol.geo, d0, fs0, vol.disk, With(files, f, e), f, offset, buf[..written + stored], Div(offset, vol.geo.bs),
                  Div(offset + written, vol.geo.bs) + (if stored == 0 then 0 else 1))
  {
    hide Wrote;
    hide Sound;
    hide Full;
    hide Formatted;
    hide BlockOf;
    hide TakesNth;
    var geo := vol.geo;
    var off := Mod(offset + written, geo.bs);
    stored := Chunk(geo, offset + written, |buf| - written);
    DivMono(offset, offset + written, geo.bs);
    var phys := FindBlock(vol, e, offset + written, files, f, d0, fs0, offset, buf[..written]);
    if phys == 0 { return 0; }
    ghost var d2, fs2 := vol.disk, With(files, f, e);
    var chunk := buf[written..written + stored];
    var block := vol.ReadBlock(phys);
    vol.WriteBlock(phys, Patch(block, off, chunk));
    WroteThenStored(geo, d0, fs0, d2, fs2, f, offset, buf[..written], Div(offset, geo.bs), Div(offset + written, geo.bs) + 1, chunk, phys, vol.disk);
    assert buf[..written] + chunk == buf[..written + stored];
  }

  /** The block for position pos, found or made; what the write has done so far is kept. */
  method FindBlock(vol: Volume, e: InodeBuf, pos: nat, ghost files: Files, ghost f: nat, ghost d0: Disk, ghost fs0: Files,
                   ghost lo: nat, ghost data: seq<byte>) returns (phys: nat)
    requires Live(vol, e, files, f) && Div(lo, vol.geo.bs) <= Div(pos, vol.geo.bs)
    requires Wrote(vol.geo, d0, fs0, vol.disk, With(files, f, e), f, lo, data, Div(lo, vol.geo.bs), Div(pos, vol.geo.bs))
    modifies vol, e
    ensures Live(vol, e, files, f) && e.size == old(e.size)
    ensures phys == BlockOf(vol.geo, vol.disk, e.block, pos)
    ensures phys == 0 ==> !Mappable(vol.geo, Div(pos, vol.geo.bs)) || Full(vol.geo, vol.disk)
    ensures old(BlockOf(vol.geo, vol.disk, e.block, pos)) != 0 ==> e.block == old(e.block) && phys != 0
    ensures HoleTakes(vol.geo, old(vol.disk), old(e.block), vol.disk, e.block, pos)
    ensures Wrote(vol.geo, d0, fs0, vol.disk, With(files, f, e), f, lo, data, Div(lo, vol.geo.bs),
                  Div(pos, vol.geo.bs) + (if phys == 0 then 0 else 1))
  {
    hide Wrote;
    hide Grown;
    hide Sound;
    hide Full;
    hide Formatted;
    hide Resolved;
    hide HoleTakes;
    var geo := vol.geo;
    var fb := Div(pos, geo.bs);
    ghost var d1, fs1 := vol.disk, With(files, f, e);
    phys := MapBlock(vol, e, fb, files, f);
    ghost var d2, fs2 := vol.disk, With(files, f, e);
    if Mappable(geo, fb) {
      assert DataPtr(geo, d2, fs2[f], fb) == phys;
      HoleResolved(geo, d1, fs1[f], d2, fs2[f], pos);
      WroteThenGrew(geo, d0, fs0, d1, fs1, d2, fs2, f, lo, data, Div(lo, geo.bs), fb, fb + (if phys == 0 then 0 else 1), fb);
    } else {
      HoleResolved(geo, d1, fs1[f], d2, fs2[f], pos);
    }
  }

  /** ext2_write_file: writes buf at offset into the file whose inode is in e, and returns
      how many bytes it stored. It stops short only when the volume is full or the file
      cannot address the next block. */
  method WriteFile(vol: Volume, e: InodeBuf, buf: seq<byte>, offset: nat, ghost files: Files, ghost f: nat) returns (n: nat)
    requires Live(vol, e, files, f) && offset + |buf| < TWO32
    modifies vol, e
    ensures Live(vol, e, files, f) && n <= |buf|
    ensures e.size == if offset + n > old(e.size) then offset + n else old(e.size)
    ensures WriteDone(vol.geo, old(vol.disk), old(With(files, f, e)), vol.disk, With(files, f, e), f, offset, buf[..n])
    ensures n < |buf| ==> !Mappable(vol.geo, Div(offset + n, vol.geo.bs)) || Full(vol.geo, vol.disk)
    ensures old(NoHoles(vol.geo, vol.disk, e.block, offset, |buf|)) ==> n == |buf| && e.block == old(e.block)
    ensures OneBlock(vol.geo, offset, |buf|) && old(BlockOf(vol.geo, vol.disk, e.block, offset)) == 0 ==>
              var k := old(MissingAt(vol.geo, vol.disk, e.block, offset));
              && n == (if MoreThan(vol.geo, old(vol.disk), k) then |buf| else 0)
              && (n > 0 ==> NthFree(vol.geo, old(vol.disk), k, BlockOf(vol.geo, vol.disk, e.block, offset)))
  {
    hide NoHoles;
    hide Wrote;
    hide BlockOf;
    hide Sound;
    hide Full;
    hide Formatted;
    hide Div;
    hide Mod;
    hide MissingAt;
    hide NthFree;
    hide Mappable;
    ghost var geo, d0, fs0 := vol.geo, vol.disk, With(files, f, e);
    n := 0;
    WroteNothing(geo, d0, fs0, f, offset, Div(offset, geo.bs));
    while n < |buf|
      invariant n <= |buf| && Live(vol, e, files, f) && e.size == old(e.size)
      invariant Wrote(geo, d0, fs0, vol.disk, With(files, f, e), f, offset, buf[..n], Div(offset, geo.bs), AfterLast(geo, offset, n))
      invariant n < |buf| ==> AfterLast(geo, offset, n) == Div(offset + n, geo.bs)
      invariant NoHoles(geo, d0, fs0[f], offset, |buf|) ==> e.block == fs0[f]
      invariant n == 0 ==> vol.disk == d0 && e.block == fs0[f]
      invariant n > 0 && OneBlock(geo, offset, |buf|) ==> n == |buf|
      invariant n > 0 && OneBlock(geo, offset, |buf|) && BlockOf(geo, d0, fs0[f], offset) == 0 ==>
                  NthFree(geo, d0, MissingAt(geo, d0, fs0[f], offset), BlockOf(geo, vol.disk, e.block, offset))
    {
      NoHoleAt(geo, d0, fs0[f], offset, |buf|, offset + n);
      StillMapped(geo, d0, fs0, vol.disk, With(files, f, e), f, offset, buf[..n], Div(offset, geo.bs), AfterLast(geo, offset, n), offset + n);
      var stored := WriteStep(vol, e, buf, offset, n, files, f, d0, fs0);
      if stored == 0 { break; }
      AfterStep(geo, offset, n, |buf| - n);
      n := n + stored;
    }
    if offset + n > e.size {
      e.size := offset + n;
    }
  }

  // ----- what a write means for the bytes of files -----

  /** The file as a byte array after a write: the written range holds the data; a byte
      outside it is kept if it was mapped, is still a hole if its file block was not
      touched, and otherwise is whatever the freshly taken block held on the device. */
  lemma FileAfterWrite(geo: Geometry, d0: Disk, files0: Files, d: Disk, files: Files, f: nat, offset: nat, data: seq<byte>, pos: nat)
    requires WriteDone(geo, d0, files0, d, files, f, offset, data)
    ensures offset <= pos < offset + |data| ==> ByteAt(geo, d, files[f], pos) == data[pos - offset]
    ensures !(offset <= pos < offset + |data|) && BlockOf(geo, d0, files0[f], pos) != 0 ==>
              ByteAt(geo, d, files[f], pos) == ByteAt(geo, d0, files0[f], pos)
    ensures !(Div(offset, geo.bs) <= Div(pos, geo.bs) < AfterLast(geo, offset, |data|)) && BlockOf(geo, d0, files0[f], pos) == 0 ==>
              BlockOf(geo, d, files[f], pos) == 0 && ByteAt(geo, d, files[f], pos) == 0
    ensures !(offset <= pos < offset + |data|) && BlockOf(geo, d0, files0[f], pos) == 0 && BlockOf(geo, d, files[f], pos) != 0 ==>
              var p := BlockOf(geo, d, files[f], pos);
              p !in Marked(geo, d0) && ByteAt(geo, d, files[f], pos) == Read(geo, d0, p)[Mod(pos, geo.bs)]
  {
    assert StoredAt(geo, d0, d, files[f], offset, data, pos);
    var fb := Div(pos, geo.bs);
    if Mappable(geo, fb) {
      SlotForOk(geo, fb);
      assert PtrAt(geo, d0, files0[f], SlotFor(geo, fb)) == BlockOf(geo, d0, files0[f], pos);
      assert PtrAt(geo, d, files[f], SlotFor(geo, fb)) == BlockOf(geo, d, files[f], pos);
    }
  }

  /** Writing one file changes no byte of any other. */
  lemma OtherFilesAfterWrite(geo: Geometry, d0: Disk, files0: Files, d: Disk, files: Files, f: nat, offset: nat, data: seq<byte>, g: nat, pos: nat)
    requires WriteDone(geo, d0, files0, d, files, f, offset, data) && g in files0 && g != f
    ensures g in files && files[g] == files0[g]
    ensures BlockOf(geo, d, files[g], pos) == BlockOf(geo, d0, files0[g], pos)
    ensures ByteAt(geo, d, files[g], pos) == ByteAt(geo, d0, files0[g], pos)
  {
    var fb := Div(pos, geo.bs);
    if Mappable(geo, fb) {
      SlotForOk(geo, fb);
      assert PtrAt(geo, d, files[g], SlotFor(geo, fb)) == PtrAt(geo, d0, files0[g], SlotFor(geo, fb));
    }
  }

  /** If every free block of the volume holds zeros, a write changes nothing outside its range. */
  lemma BlankFreeKeeps(geo: Geometry, d0: Disk, files0: Files, d: Disk, files: Files, f: nat, offset: nat, data: seq<byte>, pos: nat)
    requires WriteDone(geo, d0, files0, d, files, f, offset, data) && !(offset <= pos < offset + |data|)
    requires forall n: nat :: n !in Marked(geo, d0) ==> Read(geo, d0, n) == Zeros(geo.bs)
    ensures ByteAt(geo, d, files[f], pos) == ByteAt(geo, d0, files0[f], pos)
  {
    hide Wrote;
    hide BlockOf;
    FileAfterWrite(geo, d0, files0, d, files, f, offset, data, pos);
  }

  /** A write into some of one hole shows what the device held in the block p it takes, the lowest
      free one but for those its missing pointer blocks take: nothing outside the range changes if
      and only if p is blank there. */
  lemma ExposesExactly(geo: Geometry, d0: Disk, files0: Files, d: Disk, files: Files, f: nat, offset: nat, data: seq<byte>, p: nat)
    requires WriteDone(geo, d0, files0, d, files, f, offset, data) && OneBlock(geo, offset, |data|)
    requires f in files0 && TreeOk(files0[f]) && DiskOk(geo, d0) && BlockOf(geo, d0, files0[f], offset) == 0
    requires f in files && TreeOk(files[f]) && DiskOk(geo, d)
    requires var k := MissingAt(geo, d0, files0[f], offset);
             NthFree(geo, d0, k, p) && NthFree(geo, d0, k, BlockOf(geo, d, files[f], offset))
    ensures (forall pos: nat :: !(offset <= pos < offset + |data|) ==> ByteAt(geo, d, files[f], pos) == ByteAt(geo, d0, files0[f], pos))
            <==> BlankAround(geo, d0, p, Mod(offset, geo.bs), |data|)
  {
    hide Wrote;
    hide BlockOf;
    hide ByteAt;
    hide NthFree;
    OneNth(geo, d0, MissingAt(geo, d0, files0[f], offset), p, BlockOf(geo, d, files[f], offset));
    var m := Mod(offset, geo.bs);
    forall pos: nat | !(offset <= pos < offset + |data|)
      ensures ByteAt(geo, d, files[f], pos) == ByteAt(geo, d0, files0[f], pos) || !BlankAround(geo, d0, p, m, |data|)
    {
      AroundHole(geo, d0, files0, d, files, f, offset, data, p, pos);
    }
    if k :| 0 <= k < geo.bs && !(m <= k < m + |data|) && Read(geo, d0, p)[k] != 0 {
      InBlock(geo, offset, k);
      AroundHole(geo, d0, files0, d, files, f, offset, data, p, offset - m + k);
    }
  }

  /** Outside the range: the byte of p in the same file block, and what was there elsewhere. */
  lemma AroundHole(geo: Geometry, d0: Disk, files0: Files, d: Disk, files: Files, f: nat, offset: nat, data: seq<byte>, p: nat, pos: nat)
    requires WriteDone(geo, d0, files0, d, files, f, offset, data) && OneBlock(geo, offset, |data|)
    requires f in files0 && TreeOk(files0[f]) && DiskOk(geo, d0) && BlockOf(geo, d0, files0[f], offset) == 0
    requires f in files && TreeOk(files[f]) && DiskOk(geo, d) && p == BlockOf(geo, d, files[f], offset)
    requires !(offset <= pos < offset + |data|)
    ensures Div(pos, geo.bs) != Div(offset, geo.bs) ==> ByteAt(geo, d, files[f], pos) == ByteAt(geo, d0, files0[f], pos)
    ensures Div(pos, geo.bs) == Div(offset, geo.bs) ==>
              ByteAt(geo, d0, files0[f], pos) == 0 && ByteAt(geo, d, files[f], pos) == Read(geo, d0, p)[Mod(pos, geo.bs)] &&
              !(Mod(offset, geo.bs) <= Mod(pos, geo.bs) < Mod(offset, geo.bs) + |data|)
  {
    hide PtrsKept;
    hide DataPtr;
    WithinBlock(geo, offset, |data|, pos);
    FileAfterWrite(geo, d0, files0, d, files, f, offset, data, pos);
    assert StoredAt(geo, d0, d, files[f], offset, data, offset);
    assert StoredAt(geo, d0, d, files[f], offset, data, pos);
  }

  // ----- reading -----

  /** The block ext2_read_file goes to for file block fb: it follows pointers without
      looking whether a pointer block is there, so a missing one is read from block 0. */
  function Chase(geo: Geometry, d: Disk, tree: Tree, fb: nat): nat
    requires geo.Valid() && DiskOk(geo, d) && TreeOk(tree)
  {
    var P := Ptrs(geo);
    if fb < 12 then tree[fb]
    else if fb < 12 + P then U32(Read(geo, d, tree[12]), 4 * (fb - 12))
    else if Mappable(geo, fb) then
      SlotForOk(geo, fb);
      var s := SlotFor(geo, fb);
      assert SlotOk(geo, s.parent);
      U32(Read(geo, d, U32(Read(geo, d, tree[13]), 4 * s.parent.idx)), 4 * s.idx)
    else 0
  }

  /** Every pointer block on the way to file block fb exists. */
  predicate Rooted(geo: Geometry, d: Disk, tree: Tree, fb: nat)
    requires geo.Valid() && DiskOk(geo, d) && TreeOk(tree) && Mappable(geo, fb)
  {
    SlotForOk(geo, fb);
    match SlotFor(geo, fb)
    case Root(_) => true
    case Child(q, _) => PtrAt(geo, d, tree, q) != 0
  }

  /** Where the pointer blocks exist the read path leads to the file's own block; where one is
      missing the file has a hole. */
  lemma ReadPath(geo: Geometry, d: Disk, tree: Tree, fb: nat)
    requires geo.Valid() && DiskOk(geo, d) && TreeOk(tree) && Mappable(geo, fb)
    ensures Rooted(geo, d, tree, fb) ==> Chase(geo, d, tree, fb) == DataPtr(geo, d, tree, fb)
    ensures !Rooted(geo, d, tree, fb) ==> DataPtr(geo, d, tree, fb) == 0
  {
    SlotForOk(geo, fb);
    var s := SlotFor(geo, fb);
    if s.Child? && s.parent.Child? { assert SlotOk(geo, s.parent) && PtrAt(geo, d, tree, Root(13)) == tree[13]; }
  }

  function EntryOf(b: seq<byte>, i: nat): nat
    requires 4 * i + 4 <= |b|
  {
    U32(b, 4 * i)
  }

  /** Entry i of block 0, which stands in for an entry of a missing pointer block. */
  function StandIn(geo: Geometry, d: Disk, i: nat): nat
    requires geo.Valid() && DiskOk(geo, d) && i < Ptrs(geo)
  {
    EntryOf(Read(geo, d, 0), i)
  }

  /** Where a missing pointer block leads: to an entry j of block 0, or to entry j of the block
      that an entry i of block 0 names. */
  lemma Astray(geo: Geometry, d: Disk, tree: Tree, fb: nat) returns (i: nat, j: nat)
    requires geo.Valid() && DiskOk(geo, d) && TreeOk(tree) && Mappable(geo, fb) && !Rooted(geo, d, tree, fb)
    ensures i < Ptrs(geo) && j < Ptrs(geo)
    ensures Chase(geo, d, tree, fb) == StandIn(geo, d, j) || Chase(geo, d, tree, fb) == EntryOf(Read(geo, d, StandIn(geo, d, i)), j)
  {
    SlotForOk(geo, fb);
    var s := SlotFor(geo, fb);
    i, j := 0, s.idx;
    if s.parent.Child? {
      assert SlotOk(geo, s.parent) && s.parent.parent == Root(13) && PtrAt(geo, d, tree, Root(13)) == tree[13];
      i := s.parent.idx;
    }
  }

  /** A file without any block. */
  function Holes(): (t: Tree)
    ensures TreeOk(t)
  {
    seq(15, _ => 0)
  }

  lemma HolesAstray(geo: Geometry, d: Disk, i: nat)
    requires geo.Valid() && DiskOk(geo, d) && i < Ptrs(geo)
    ensures Mappable(geo, 12 + i) && Chase(geo, d, Holes(), 12 + i) == StandIn(geo, d, i)
    ensures forall fb: nat :: DataPtr(geo, d, Holes(), fb) == 0
  {
    forall fb: nat
      ensures DataPtr(geo, d, Holes(), fb) == 0
    {
      if Mappable(geo, fb) {
        SlotForOk(geo, fb);
        NoBlocks(geo, d, Holes(), SlotFor(geo, fb));
      }
    }
  }

  lemma ZerosEntry(n: nat, i: nat)
    requires 4 * i + 4 <= n
    ensures EntryOf(Zeros(n), i) == 0
  {
  }

  lemma SomeEntry(b: seq<byte>) returns (i: nat)
    requires |b| % 4 == 0 && b != Zeros(|b|)
    ensures i < |b| / 4 && EntryOf(b, i) != 0
  {
    var k :| 0 <= k < |b| && b[k] != 0;
    i := k / 4;
    FourBytes(b, i, k);
  }

  lemma FourBytes(b: seq<byte>, i: nat, k: nat)
    requires 4 * i <= k < 4 * i + 4 <= |b| && b[k] != 0
    ensures EntryOf(b, i) != 0
  {
    assert k == 4 * i || k == 4 * i + 1 || k == 4 * i + 2 || k == 4 * i + 3;
  }

  /** The read path agrees with every file's tree if and only if block 0 is all zeros. */
  lemma ReadPathExact(geo: Geometry, d: Disk)
    requires geo.Valid() && DiskOk(geo, d)
    ensures (forall tree: Tree, fb: nat :: TreeOk(tree) && Mappable(geo, fb) ==> Chase(geo, d, tree, fb) == DataPtr(geo, d, tree, fb))
            <==> Read(geo, d, 0) == Zeros(geo.bs)
  {
    hide Chase;
    hide DataPtr;
    hide EntryOf;
    hide Mappable;
    hide TreeOk;
    hide Read;
    if Read(geo, d, 0) == Zeros(geo.bs) {
      forall tree: Tree, fb: nat | TreeOk(tree) && Mappable(geo, fb)
        ensures Chase(geo, d, tree, fb) == DataPtr(geo, d, tree, fb)
      {
        ZerosAgree(geo, d, tree, fb);
      }
    } else {
      var i := SomeEntry(Read(geo, d, 0));
      HolesAstray(geo, d, i);
    }
  }

  lemma ZerosAgree(geo: Geometry, d: Disk, tree: Tree, fb: nat)
    requires geo.Valid() && DiskOk(geo, d) && TreeOk(tree) && Mappable(geo, fb) && Read(geo, d, 0) == Zeros(geo.bs)
    ensures Chase(geo, d, tree, fb) == DataPtr(geo, d, tree, fb)
  {
    hide Chase;
    hide DataPtr;
    hide EntryOf;
    hide Read;
    ReadPath(geo, d, tree, fb);
    if !Rooted(geo, d, tree, fb) {
      var i, j := Astray(geo, d, tree, fb);
      ZerosEntry(geo.bs, i);
      ZerosEntry(geo.bs, j);
    }
  }

  /** The byte ext2_read_file delivers for position pos. */
  function ReadByte(geo: Geometry, d: Disk, tree: Tree, pos: nat): byte
    requires geo.Valid() && DiskOk(geo, d) && TreeOk(tree)
  {
    var p := Chase(geo, d, tree, Div(pos, geo.bs));
    if p == 0 then 0 else Read(geo, d, p)[Mod(pos, geo.bs)]
  }

  /** Where the file is mapped, reading delivers the file's bytes. */
  lemma ReadsMapped(geo: Geometry, d: Disk, tree: Tree, pos: nat)
    requires geo.Valid() && DiskOk(geo, d) && TreeOk(tree) && BlockOf(geo, d, tree, pos) != 0
    ensures ReadByte(geo, d, tree, pos) == ByteAt(geo, d, tree, pos)
  {
    ReadPath(geo, d, tree, Div(pos, geo.bs));
  }

  /** Every block that block 0 names, read as pointers, holds zeros. */
  ghost predicate Harmless(geo: Geometry, d: Disk)
    requires geo.Valid() && DiskOk(geo, d)
  {
    forall i: nat :: i < Ptrs(geo) && StandIn(geo, d, i) != 0 ==> Read(geo, d, StandIn(geo, d, i)) == Zeros(geo.bs)
  }

  /** Every byte of every file, holes included, is read as it is if and only if block 0 is
      harmless. */
  lemma ReadBytesExact(geo: Geometry, d: Disk)
    requires geo.Valid() && DiskOk(geo, d)
    ensures (forall tree: Tree, pos: nat :: TreeOk(tree) ==> ReadByte(geo, d, tree, pos) == ByteAt(geo, d, tree, pos))
            <==> Harmless(geo, d)
  {
    hide Chase;
    hide DataPtr;
    hide StandIn;
    if Harmless(geo, d) {
      forall tree: Tree, pos: nat | TreeOk(tree)
        ensures ReadByte(geo, d, tree, pos) == ByteAt(geo, d, tree, pos)
      {
        HarmlessByte(geo, d, tree, pos);
      }
    } else {
      var i: nat :| i < Ptrs(geo) && StandIn(geo, d, i) != 0 && Read(geo, d, StandIn(geo, d, i)) != Zeros(geo.bs);
      var k: nat :| k < geo.bs && Read(geo, d, StandIn(geo, d, i))[k] != 0;
      HolesRead(geo, d, i, k);
    }
  }

  /** What an all-hole file reads as behind entry i of its missing single-indirect block. */
  lemma HolesRead(geo: Geometry, d: Disk, i: nat, k: nat)
    requires geo.Valid() && DiskOk(geo, d) && i < Ptrs(geo) && k < geo.bs && StandIn(geo, d, i) != 0
    ensures var pos := Mul(12 + i, geo.bs) + k;
            && ReadByte(geo, d, Holes(), pos) == Read(geo, d, StandIn(geo, d, i))[k]
            && ByteAt(geo, d, Holes(), pos) == 0
  {
    hide Chase;
    hide DataPtr;
    hide StandIn;
    HolesAstray(geo, d, i);
    Join(12 + i, k, geo.bs);
  }

  lemma HarmlessByte(geo: Geometry, d: Disk, tree: Tree, pos: nat)
    requires geo.Valid() && DiskOk(geo, d) && TreeOk(tree) && Harmless(geo, d)
    ensures ReadByte(geo, d, tree, pos) == ByteAt(geo, d, tree, pos)
  {
    var fb := Div(pos, geo.bs);
    if Mappable(geo, fb) {
      ReadPath(geo, d, tree, fb);
      if !Rooted(geo, d, tree, fb) { HarmlessChase(geo, d, tree, fb); }
    } else {
      assert Chase(geo, d, tree, fb) == 0;
    }
  }

  lemma HarmlessChase(geo: Geometry, d: Disk, tree: Tree, fb: nat)
    requires geo.Valid() && DiskOk(geo, d) && TreeOk(tree) && Mappable(geo, fb) && !Rooted(geo, d, tree, fb) && Harmless(geo, d)
    ensures Chase(geo, d, tree, fb) == 0 || Read(geo, d, Chase(geo, d, tree, fb)) == Zeros(geo.bs)
  {
    hide Chase;
    hide EntryOf;
    var i, j := Astray(geo, d, tree, fb);
    ZerosEntry(geo.bs, j);
  }

  lemma NoBlocks(geo: Geometry, d: Disk, tree: Tree, s: Slot)
    requires DiskOk(geo, d) && TreeOk(tree) && SlotOk(geo, s) && forall k :: 0 <= k < 15 ==> tree[k] == 0
    ensures PtrAt(geo, d, tree, s) == 0
  {
    if s.Child? { NoBlocks(geo, d, tree, s.parent); }
  }

  /** ext2_read_file: the bytes from offset on, at most count, cut at the end of the file. */
  method ReadFile(vol: Volume, e: InodeBuf, offset: nat, count: nat) returns (out: seq<byte>)
    requires vol.Ok() && TreeOk(e.block) && offset + count < TWO32
    ensures |out| == if offset >= e.size then 0 else if offset + count > e.size then e.size - offset else count
    ensures forall i :: 0 <= i < |out| ==> out[i] == ReadByte(vol.geo, vol.disk, e.block, offset + i)
  {
    hide Formatted;
    hide Chase;
    hide ReadByte;
    hide Div;
    hide Mod;
    out := [];
    if offset >= e.size { return; }
    var wanted := if offset + count > e.size then e.size - offset else count;
    var geo := vol.geo;
    while |out| < wanted
      invariant |out| <= wanted && Yields(geo, vol.disk, e.block, offset, out)
    {
      var pos := offset + |out|;
      var n := Chunk(geo, pos, wanted - |out|);
      var phys := Chase(geo, vol.disk, e.block, Div(pos, geo.bs));
      var piece: seq<byte>;
      if phys == 0 {
        piece := Zeros(n);
      } else {
        var block := vol.ReadBlock(phys);
        piece := block[Mod(pos, geo.bs)..Mod(pos, geo.bs) + n];
      }
      ReadPiece(geo, vol.disk, e.block, pos, n, piece);
      YieldsMore(geo, vol.disk, e.block, offset, out, piece);
      out := out + piece;
    }
  }

  /** out holds what reading delivers from offset on. */
  ghost predicate Yields(geo: Geometry, d: Disk, tree: Tree, offset: nat, out: seq<byte>)
    requires geo.Valid() && DiskOk(geo, d) && TreeOk(tree)
  {
    forall i :: 0 <= i < |out| ==> out[i] == ReadByte(geo, d, tree, offset + i)
  }

  lemma YieldsMore(geo: Geometry, d: Disk, tree: Tree, offset: nat, out: seq<byte>, piece: seq<byte>)
    requires geo.Valid() && DiskOk(geo, d) && TreeOk(tree)
    requires Yields(geo, d, tree, offset, out) && Yields(geo, d, tree, offset + |out|, piece)
    ensures Yields(geo, d, tree, offset, out + piece)
  {
    hide ReadByte;
    forall i | 0 <= i < |out + piece|
      ensures (out + piece)[i] == ReadByte(geo, d, tree, offset + i)
    {
      if i >= |out| { assert (out + piece)[i] == piece[i - |out|] == ReadByte(geo, d, tree, offset + |out| + (i - |out|)); }
    }
  }

  /** A piece of the one block the read path leads to, zeros where it leads nowhere. */
  lemma ReadPiece(geo: Geometry, d: Disk, tree: Tree, pos: nat, n: nat, piece: seq<byte>)
    requires geo.Valid() && DiskOk(geo, d) && TreeOk(tree) && Mod(pos, geo.bs) + n <= geo.bs && |piece| == n
    requires var p := Chase(geo, d, tree, Div(pos, geo.bs));
             piece == if p == 0 then Zeros(n) else Read(geo, d, p)[Mod(pos, geo.bs)..Mod(pos, geo.bs) + n]
    ensures Yields(geo, d, tree, pos, piece)
  {
    hide Chase;
    hide Div;
    hide Mod;
    forall i | 0 <= i < n
      ensures piece[i] == ReadByte(geo, d, tree, pos + i)
    {
      Advance(pos, i, geo.bs);
    }
  }

  /** Read over write: reading back the range just written gives exactly the bytes written. */
  method WriteThenRead(vol: Volume, e: InodeBuf, buf: seq<byte>, offset: nat, ghost files: Files, ghost f: nat) returns (n: nat, out: seq<byte>)
    requires Live(vol, e, files, f) && offset + |buf| < TWO32
    modifies vol, e
    ensures n <= |buf| && out == buf[..n]
  {
    hide Sound;
    hide Formatted;
    hide Wrote;
    hide Full;
    ghost var d0, fs0 := vol.disk, With(files, f, e);
    n := WriteFile(vol, e, buf, offset, files, f);
    out := ReadFile(vol, e, offset, n);
    forall i | 0 <= i < n
      ensures out[i] == buf[i]
    {
      WrittenIsRead(vol.geo, d0, fs0, vol.disk, With(files, f, e), f, offset, buf[..n], i);
    }
  }

  lemma WrittenIsRead(geo: Geometry, d0: Disk, files0: Files, d: Disk, files: Files, f: nat, offset: nat, data: seq<byte>, i: nat)
    requires WriteDone(geo, d0, files0, d, files, f, offset, data) && i < |data|
    ensures ReadByte(geo, d, files[f], offset + i) == data[i]
  {
    FileAfterWrite(geo, d0, files0, d, files, f, offset, data, offset + i);
    assert StoredAt(geo, d0, d, files[f], offset, data, offset + i);
    ReadsMapped(geo, d, files[f], offset + i);
  }
}
