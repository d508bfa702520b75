/** What a file that grows shows: ext2_truncate only changes the size, so the bytes it uncovers are
    whatever the file's blocks hold past the old end. */
module Ext2Grow {
  import opened Arith
  import opened Bytes
  import opened Volumes
  import opened Ext2Tree
  import opened Ext2Map
  import opened Ext2File
  import opened Ext2Truncate
  import opened Ext2Fs

  /** No file block from number `blocks` on is mapped. */
  ghost predicate NothingPast(geo: Geometry, d: Disk, tree: Tree, blocks: nat)
    requires geo.Valid() && DiskOk(geo, d) && TreeOk(tree)
  {
    forall fb: nat :: fb >= blocks ==> DataPtr(geo, d, tree, fb) == 0
  }

  /** From `size` up to `upto` the rest of the file's last block holds zeros. */
  ghost predicate TailBlank(geo: Geometry, d: Disk, tree: Tree, size: nat, upto: nat)
    requires geo.Valid() && DiskOk(geo, d) && TreeOk(tree)
  {
    forall pos: nat :: size <= pos < upto && Div(pos, geo.bs) < Blocks(geo, size) ==> ByteAt(geo, d, tree, pos) == 0
  }

  ghost predicate ReadsZero(geo: Geometry, d: Disk, tree: Tree, from: nat, upto: nat)
    requires geo.Valid() && DiskOk(geo, d) && TreeOk(tree)
  {
    forall pos: nat :: from <= pos < upto ==> ReadByte(geo, d, tree, pos) == 0
  }

  // ----- no operation leaves a block past the end -----

  /** A write ends where the file then ends, or before. */
  lemma WriteKeepsEnd(geo: Geometry, d0: Disk, files0: Files, d: Disk, files: Files, f: nat, offset: nat, data: seq<byte>, size0: nat)
    requires WriteDone(geo, d0, files0, d, files, f, offset, data)
    requires geo.Valid() && DiskOk(geo, d0) && DiskOk(geo, d) && f in files0 && f in files && TreeOk(files0[f]) && TreeOk(files[f])
    requires NothingPast(geo, d0, files0[f], Blocks(geo, size0))
    ensures NothingPast(geo, d, files[f], Blocks(geo, if offset + |data| > size0 then offset + |data| else size0))
  {
    hide DataPtr;
    hide Stored;
    hide OthersKept;
    hide KeepsFree;
    hide Div;
    EndBlocks(geo, offset, |data|, size0);
  }

  lemma EndBlocks(geo: Geometry, offset: nat, n: nat, size0: nat)
    requires geo.bs > 0
    ensures var size := if offset + n > size0 then offset + n else size0;
            Blocks(geo, size0) <= Blocks(geo, size) && (n > 0 ==> AfterLast(geo, offset, n) <= Blocks(geo, size))
  {
    var size := if offset + n > size0 then offset + n else size0;
    DivMono(size0 + geo.bs - 1, size + geo.bs - 1, geo.bs);
    if n > 0 {
      assert Div(offset + n - 1 + geo.bs, geo.bs) == 1 + Div(offset + n - 1, geo.bs);
      DivMono(offset + n - 1 + geo.bs, size + geo.bs - 1, geo.bs);
    }
  }

  /** A clean cut leaves nothing past the new end. */
  lemma CutKeepsEnd(geo: Geometry, d0: Disk, tree: Tree, d: Disk, done: seq<Slot>, cut: Cut)
    requires cut.P == Ptrs(geo) > 0 && Shrunk(geo, d0, tree, d, done, Releasing(cut)) && Clean(geo, d0, tree, cut)
    requires geo.Valid() && DiskOk(geo, d) && NothingPast(geo, d0, tree, cut.was)
    ensures NothingPast(geo, d, CutTree(cut, tree), cut.now)
  {
    hide Owned;
    hide Freed;
    hide Adds;
    hide Clean;
    hide CutTree;
    forall fb: nat | fb >= cut.now
      ensures DataPtr(geo, d, CutTree(cut, tree), fb) == 0
    {
      if Mappable(geo, fb) {
        SlotForOk(geo, fb);
        var s := SlotFor(geo, fb);
        assert DataPtr(geo, d0, tree, fb) == PtrAt(geo, d0, tree, s);
        TreeAfter(geo, d0, tree, d, done, cut, s);
        if PtrAt(geo, d0, tree, s) != 0 {
          ReleasedExactly(geo, cut, fb);
          CleanReleases(geo, d0, tree, cut, s);
        }
      }
    }
  }

  // ----- what growing uncovers -----

  /** Growing a file uncovers zeros if and only if the rest of its last block is blank. */
  lemma GrowExact(geo: Geometry, d: Disk, tree: Tree, size: nat, upto: nat)
    requires geo.Valid() && DiskOk(geo, d) && TreeOk(tree) && NothingPast(geo, d, tree, Blocks(geo, size)) && Harmless(geo, d)
    ensures ReadsZero(geo, d, tree, size, upto) <==> TailBlank(geo, d, tree, size, upto)
  {
    hide ReadByte;
    hide Harmless;
    hide DataPtr;
    ReadBytesExact(geo, d);
    assert forall pos: nat :: ReadByte(geo, d, tree, pos) == ByteAt(geo, d, tree, pos);
    assert forall pos: nat :: Div(pos, geo.bs) >= Blocks(geo, size) ==> ByteAt(geo, d, tree, pos) == 0;
  }

  /** A cut to `size` keeps the rest of the last block it keeps. */
  lemma CutKeepsTail(geo: Geometry, d0: Disk, files: Files, f: nat, d: Disk, done: seq<Slot>, cut: Cut, size: nat, upto: nat)
    requires Sound(geo, d0, files) && f in files && cut.P == Ptrs(geo) > 0 && cut.now == Blocks(geo, size) && geo.bs > 0
    requires geo.Valid() && DiskOk(geo, d0) && DiskOk(geo, d) && TreeOk(files[f])
    requires Shrunk(geo, d0, files[f], d, done, Releasing(cut))
    ensures TailBlank(geo, d, CutTree(cut, files[f]), size, upto) <==> TailBlank(geo, d0, files[f], size, upto)
  {
    hide Shrunk;
    hide Sound;
    hide ByteAt;
    hide CutTree;
    hide Div;
    forall pos: nat | Div(pos, geo.bs) < Blocks(geo, size)
      ensures ByteAt(geo, d, CutTree(cut, files[f]), pos) == ByteAt(geo, d0, files[f], pos)
    {
      TruncateKeepsBytes(geo, d0, files, f, d, done, cut, f, pos);
    }
  }

  /** ext2_truncate to `size`, a clean cut, and then to `upto`: the bytes in between read as zeros if
      and only if, before, the rest of the last block kept was blank. */
  method CutAndGrow(fs: Ext2, ino: nat, size: nat, upto: nat)
    requires fs.Valid() && ino in fs.inodes && size < fs.inodes[ino].size && size <= upto < TWO32
    requires forall i :: i in fs.inodes ==> fs.inodes[i].size + fs.vol.geo.bs <= TWO32
    requires TreeOk(fs.inodes[ino].block) && NothingPast(fs.vol.geo, fs.vol.disk, fs.inodes[ino].block, Blocks(fs.vol.geo, fs.inodes[ino].size))
    requires Clean(fs.vol.geo, fs.vol.disk, fs.inodes[ino].block, CutFor(fs.vol.geo, fs.inodes[ino].size, size))
    modifies fs`inodes, fs.vol
    ensures fs.Valid() && ino in fs.inodes && fs.inodes[ino].size == upto && TreeOk(fs.inodes[ino].block)
    ensures NothingPast(fs.vol.geo, fs.vol.disk, fs.inodes[ino].block, Blocks(fs.vol.geo, size))
    ensures Harmless(fs.vol.geo, fs.vol.disk) ==>
              (ReadsZero(fs.vol.geo, fs.vol.disk, fs.inodes[ino].block, size, upto) <==>
               TailBlank(fs.vol.geo, old(fs.vol.disk), old(fs.inodes[ino].block), size, upto))
  {
    hide Sound;
    hide Formatted;
    hide Shrunk;
    hide Clean;
    hide NothingPast;
    hide TailBlank;
    hide ReadsZero;
    hide Harmless;
    hide CutTree;
    ghost var geo, d0, files, tree := fs.vol.geo, fs.vol.disk, Trees(fs.inodes), fs.inodes[ino].block;
    ghost var cut := CutFor(geo, fs.inodes[ino].size, size);
    var r, done := fs.TruncateFile(ino, size);
    CutKeepsEnd(geo, d0, tree, fs.vol.disk, done, cut);
    CutKeepsTail(geo, d0, files, ino, fs.vol.disk, done, cut, size, upto);
    if Harmless(geo, fs.vol.disk) { GrowExact(geo, fs.vol.disk, fs.inodes[ino].block, size, upto); }
    r, done := fs.TruncateFile(ino, upto);
  }
}
