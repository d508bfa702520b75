/** The ext2 driver over all its files: the inode table, and the operations that go
    through it, each stated for every file of the volume at once. */
module Ext2Fs {
  import opened Arith
  import opened Bytes
  import opened Volumes
  import opened Ext2Tree
  import opened Ext2Map
  import opened Ext2File
  import opened Ext2Truncate

  function Trees(inodes: map<nat, Inode>): Files {
    map i | i in inodes :: inodes[i].block
  }

  lemma TreesUpdate(inodes: map<nat, Inode>, f: nat, ino: Inode)
    requires f in inodes
    ensures Trees(inodes[f := ino]) == Trees(inodes)[f := ino.block]
    ensures Trees(inodes)[f := inodes[f].block] == Trees(inodes)
  {
  }

  // ----- one file of a sound volume -----

  lemma SoundOwns(geo: Geometry, d: Disk, files: Files, f: nat)
    requires Sound(geo, d, files) && f in files
    ensures TreeOk(files[f]) && Owned(geo, d, files[f])
  {
    forall s, t | SlotOk(geo, s) && SlotOk(geo, t) && s != t && PtrAt(geo, d, files[f], s) != 0
      ensures PtrAt(geo, d, files[f], s) != PtrAt(geo, d, files[f], t)
    {
      assert (f, s) != (f, t);
    }
  }

  /** Every pointer of a file the truncation does not concern, and its mark, stays. */
  lemma TruncateOther(geo: Geometry, d0: Disk, files: Files, f: nat, d: Disk, done: seq<Slot>, g: nat, s: Slot)
    requires Sound(geo, d0, files) && f in files && g in files && g != f && SlotOk(geo, s)
    requires Freed(geo, d0, files[f], d, done)
    ensures PtrAt(geo, d, files[g], s) == PtrAt(geo, d0, files[g], s)
    ensures PtrAt(geo, d, files[g], s) != 0 ==> PtrAt(geo, d, files[g], s) in Marked(geo, d)
  {
    SamePointers(geo, d0, d, files[g], s);
    var p := PtrAt(geo, d0, files[g], s);
    forall t | t in done
      ensures PtrAt(geo, d0, files[f], t) != p
    {
      assert (f, t) != (g, s);
    }
  }

  lemma {:induction false} SamePointers(geo: Geometry, d0: Disk, d: Disk, tree: Tree, s: Slot)
    requires geo.Valid() && DiskOk(geo, d0) && DiskOk(geo, d) && TreeOk(tree) && SlotOk(geo, s)
    requires forall n: nat :: n !in geo.reserved ==> Read(geo, d, n) == Read(geo, d0, n)
    requires forall t :: SlotOk(geo, t) && PtrAt(geo, d0, tree, t) != 0 ==> PtrAt(geo, d0, tree, t) !in geo.reserved
    ensures PtrAt(geo, d, tree, s) == PtrAt(geo, d0, tree, s)
  {
    if s.Child? {
      assert SlotOk(geo, s.parent);
      SamePointers(geo, d0, d, tree, s.parent);
    }
  }

  /** Truncating one file leaves the whole volume sound exactly when the cut was clean. */
  lemma TruncateSound(geo: Geometry, d0: Disk, files: Files, f: nat, d: Disk, done: seq<Slot>, cut: Cut)
    requires Sound(geo, d0, files) && f in files && cut.P == Ptrs(geo) > 0
    requires Shrunk(geo, d0, files[f], d, done, Releasing(cut))
    ensures Sound(geo, d, files[f := CutTree(cut, files[f])]) <==> Clean(geo, d0, files[f], cut)
  {
    var files' := files[f := CutTree(cut, files[f])];
    TruncateExact(geo, d0, files[f], d, done, cut);
    if Sound(geo, d, files') { SoundOwns(geo, d, files', f); }
    if Clean(geo, d0, files[f], cut) {
      assert Owned(geo, d, files'[f]);
      forall g, s | g in files && SlotOk(geo, s)
        ensures PtrAt(geo, d, files'[g], s) == 0 || PtrAt(geo, d, files'[g], s) == PtrAt(geo, d0, files[g], s)
        ensures PtrAt(geo, d, files'[g], s) != 0 ==> PtrAt(geo, d, files'[g], s) in Marked(geo, d)
      {
        if g == f {
          TreeAfter(geo, d0, files[f], d, done, cut, s);
        } else {
          TruncateOther(geo, d0, files, f, d, done, g, s);
        }
      }
      ShrunkSound(geo, d0, files, d, files');
    }
  }

  lemma ShrunkSound(geo: Geometry, d0: Disk, files: Files, d: Disk, files': Files)
    requires Sound(geo, d0, files) && Formatted(geo, d) && files'.Keys == files.Keys
    requires forall g :: g in files' ==> TreeOk(files'[g])
    requires forall g, s :: g in files && SlotOk(geo, s) ==>
               PtrAt(geo, d, files'[g], s) == 0 || PtrAt(geo, d, files'[g], s) == PtrAt(geo, d0, files[g], s)
    requires forall g, s :: g in files && SlotOk(geo, s) && PtrAt(geo, d, files'[g], s) != 0 ==>
               PtrAt(geo, d, files'[g], s) in Marked(geo, d)
    ensures Sound(geo, d, files')
  {
    hide PtrAt;
    hide SlotOk;
    hide TreeOk;
    hide DiskOk;
    hide Marked;
    hide Unshared;
    ShrunkUnshared(geo, d0, files, d, files');
    assert forall g, s :: g in files && SlotOk(geo, s) && PtrAt(geo, d, files'[g], s) != 0 ==>
      PtrAt(geo, d, files'[g], s) == PtrAt(geo, d0, files[g], s);
  }

  lemma ShrunkUnshared(geo: Geometry, d0: Disk, files: Files, d: Disk, files': Files)
    requires TreesOk(geo, d0, files) && TreesOk(geo, d, files') && Unshared(geo, d0, files) && files'.Keys == files.Keys
    requires forall g, s :: g in files && SlotOk(geo, s) ==>
               PtrAt(geo, d, files'[g], s) == 0 || PtrAt(geo, d, files'[g], s) == PtrAt(geo, d0, files[g], s)
    ensures Unshared(geo, d, files')
  {
    hide PtrAt;
    hide SlotOk;
    hide TreeOk;
    hide DiskOk;
    forall f, s, g, t | f in files' && g in files' && SlotOk(geo, s) && SlotOk(geo, t) && (f, s) != (g, t) &&
                        PtrAt(geo, d, files'[f], s) != 0
      ensures PtrAt(geo, d, files'[f], s) != PtrAt(geo, d, files'[g], t)
    {
      assert PtrAt(geo, d, files'[f], s) == PtrAt(geo, d0, files[f], s) != PtrAt(geo, d0, files[g], t);
    }
  }

  /** Below the cut, and in every other file, each byte is where it was and what it was. */
  lemma TruncateKeepsBytes(geo: Geometry, d0: Disk, files: Files, f: nat, d: Disk, done: seq<Slot>, cut: Cut, g: nat, pos: nat)
    requires Sound(geo, d0, files) && f in files && cut.P == Ptrs(geo) > 0
    requires Shrunk(geo, d0, files[f], d, done, Releasing(cut)) && g in files
    requires g != f || Div(pos, geo.bs) < cut.now
    ensures var files' := files[f := CutTree(cut, files[f])];
            && BlockOf(geo, d, files'[g], pos) == BlockOf(geo, d0, files[g], pos)
            && ByteAt(geo, d, files'[g], pos) == ByteAt(geo, d0, files[g], pos)
  {
    var fb := Div(pos, geo.bs);
    if Mappable(geo, fb) {
      SlotForOk(geo, fb);
      var s := SlotFor(geo, fb);
      if g == f {
        TreeAfter(geo, d0, files[f], d, done, cut, s);
      } else {
        TruncateOther(geo, d0, files, f, d, done, g, s);
      }
    }
  }

  // ----- an inode that is not written back -----

  /** Every root the old tree has, the grown one has too. */
  ghost predicate Contains(grown: Tree, tree: Tree) {
    TreeOk(grown) && TreeOk(tree) && forall k :: 0 <= k < 14 ==> tree[k] == 0 || tree[k] == grown[k]
  }

  lemma RootsKept(geo: Geometry, d0: Disk, files: Files, d: Disk, files': Files, f: nat, offset: nat, data: seq<byte>)
    requires WriteDone(geo, d0, files, d, files', f, offset, data)
    ensures geo.Valid() && DiskOk(geo, d0) && DiskOk(geo, d) && f in files && f in files' && Contains(files'[f], files[f])
  {
    forall k | 0 <= k < 14 && files[f][k] != 0
      ensures files'[f][k] == files[f][k]
    {
      assert SlotOk(geo, Root(k)) && PtrAt(geo, d0, files[f], Root(k)) != 0;
      assert PtrAt(geo, d, files'[f], Root(k)) == PtrAt(geo, d0, files[f], Root(k));
    }
  }

  lemma {:induction false} OldPtr(geo: Geometry, d: Disk, grown: Tree, tree: Tree, s: Slot)
    requires DiskOk(geo, d) && Contains(grown, tree) && SlotOk(geo, s)
    ensures PtrAt(geo, d, tree, s) == 0 || PtrAt(geo, d, tree, s) == PtrAt(geo, d, grown, s)
  {
    if s.Child? { OldPtr(geo, d, grown, tree, s.parent); }
  }

  /** On two disks that agree on the grown tree's blocks, what was mapped in the old one still is. */
  lemma {:induction false} SamePtr(geo: Geometry, d0: Disk, d: Disk, grown: Tree, tree: Tree, s: Slot)
    requires DiskOk(geo, d0) && DiskOk(geo, d) && Contains(grown, tree) && SlotOk(geo, s) && PtrAt(geo, d0, tree, s) != 0
    requires forall t :: SlotOk(geo, t) && PtrAt(geo, d0, tree, t) != 0 ==> PtrAt(geo, d, grown, t) == PtrAt(geo, d0, tree, t)
    ensures PtrAt(geo, d, tree, s) == PtrAt(geo, d0, tree, s)
  {
    if s.Child? { SamePtr(geo, d0, d, grown, tree, s.parent); }
  }

  lemma SoundWithout(geo: Geometry, d: Disk, files': Files, files: Files, f: nat)
    requires Sound(geo, d, files') && f in files && files'.Keys == files.Keys && f in files' && Contains(files'[f], files[f])
    requires forall g :: g in files && g != f ==> files[g] == files'[g]
    ensures Sound(geo, d, files)
  {
    hide Unshared;
    forall g, s | g in files' && SlotOk(geo, s)
      ensures PtrAt(geo, d, files[g], s) == 0 || PtrAt(geo, d, files[g], s) == PtrAt(geo, d, files'[g], s)
      ensures PtrAt(geo, d, files[g], s) != 0 ==> PtrAt(geo, d, files[g], s) in Marked(geo, d)
    {
      if g == f { OldPtr(geo, d, files'[f], files[f], s); }
    }
    ShrunkSound(geo, d, files', d, files);
  }

  lemma BlockKept(geo: Geometry, d0: Disk, files: Files, d: Disk, files': Files, f: nat, offset: nat, data: seq<byte>, pos: nat)
    requires WriteDone(geo, d0, files, d, files', f, offset, data)
    requires f in files && f in files' && geo.Valid() && DiskOk(geo, d0) && DiskOk(geo, d) && Contains(files'[f], files[f])
    requires BlockOf(geo, d0, files[f], pos) != 0
    ensures BlockOf(geo, d, files[f], pos) == BlockOf(geo, d, files'[f], pos) == BlockOf(geo, d0, files[f], pos)
  {
    hide Stored;
    hide OthersKept;
    hide KeepsFree;
    hide Contains;
    var fb := Div(pos, geo.bs);
    SlotForOk(geo, fb);
    SamePtr(geo, d0, d, files'[f], files[f], SlotFor(geo, fb));
  }

  /** A write of `data` to file f whose inode stayed in memory: the volume holds what the write
      stored, the inode table still has the old tree. */
  ghost predicate Unsaved(geo: Geometry, d0: Disk, files: Files, d: Disk, f: nat, offset: nat, data: seq<byte>) {
    exists grown: Tree :: UnsavedAs(geo, d0, files, d, f, offset, data, grown)
  }

  ghost predicate UnsavedAs(geo: Geometry, d0: Disk, files: Files, d: Disk, f: nat, offset: nat, data: seq<byte>, grown: Tree) {
    TreeOk(grown) && WriteDone(geo, d0, files, d, files[f := grown], f, offset, data)
  }

  lemma UnsavedSound(geo: Geometry, d0: Disk, files: Files, d: Disk, f: nat, offset: nat, data: seq<byte>, grown: Tree)
    requires UnsavedAs(geo, d0, files, d, f, offset, data, grown) && Sound(geo, d, files[f := grown]) && f in files
    ensures Sound(geo, d, files) && Unsaved(geo, d0, files, d, f, offset, data)
  {
    hide WriteDone;
    hide Sound;
    RootsKept(geo, d0, files, d, files[f := grown], f, offset, data);
    SoundWithout(geo, d, files[f := grown], files, f);
  }

  /** What was mapped before still is, with the data in the range and the same byte outside it. */
  lemma UnsavedBytes(geo: Geometry, d0: Disk, files: Files, d: Disk, f: nat, offset: nat, data: seq<byte>, pos: nat)
    requires Unsaved(geo, d0, files, d, f, offset, data) && f in files && TreeOk(files[f]) && geo.Valid() && DiskOk(geo, d0) && DiskOk(geo, d)
    requires BlockOf(geo, d0, files[f], pos) != 0
    ensures BlockOf(geo, d, files[f], pos) != 0
    ensures ByteAt(geo, d, files[f], pos) == if offset <= pos < offset + |data| then data[pos - offset] else ByteAt(geo, d0, files[f], pos)
  {
    hide WriteDone;
    hide BlockOf;
    hide Div;
    hide Mod;
    hide Read;
    hide Contains;
    var grown :| UnsavedAs(geo, d0, files, d, f, offset, data, grown);
    var files' := files[f := grown];
    RootsKept(geo, d0, files, d, files', f, offset, data);
    BlockKept(geo, d0, files, d, files', f, offset, data, pos);
    FileAfterWrite(geo, d0, files, d, files', f, offset, data, pos);
  }

  class Ext2 {
    const vol: Volume
    var inodes: map<nat, Inode>   // the inode table, by inode number

    constructor (vol: Volume, inodes: map<nat, Inode>)
      requires vol.Ok() && Sound(vol.geo, vol.disk, Trees(inodes))
      ensures this.vol == vol && this.inodes == inodes && Valid()
    {
      this.vol := vol;
      this.inodes := inodes;
    }

    ghost predicate Valid()
      reads this, vol
    {
      vol.Ok() && Sound(vol.geo, vol.disk, Trees(inodes))
    }

    /** ext2_write_data: -1 for an unknown inode, else the number n of bytes stored as a 32-bit
        signed value. From 2^31 bytes on that is negative, and the inode is not written back. */
    method WriteData(ino: nat, offset: nat, buf: seq<byte>) returns (r: int, ghost n: nat)
      requires Valid() && offset + |buf| < TWO32
      modifies this`inodes, vol
      ensures Valid() && inodes.Keys == old(inodes.Keys)
      ensures ino !in old(inodes) ==> r == -1 && inodes == old(inodes) && vol.disk == old(vol.disk)
      ensures ino in old(inodes) ==>
                && n <= |buf| && r == Int32(n)
                && (n < |buf| ==> !Mappable(vol.geo, Div(offset + n, vol.geo.bs)) || Full(vol.geo, vol.disk))
      ensures ino in old(inodes) && n < TWO31 ==>
                && WriteDone(vol.geo, old(vol.disk), old(Trees(inodes)), vol.disk, Trees(inodes), ino, offset, buf[..n])
                && inodes[ino].size == (if offset + n > old(inodes[ino].size) then offset + n else old(inodes[ino].size))
                && (forall g :: g in inodes && g != ino ==> inodes[g] == old(inodes[g]))
      ensures ino in old(inodes) && n >= TWO31 ==>
                inodes == old(inodes) && Unsaved(vol.geo, old(vol.disk), Trees(inodes), vol.disk, ino, offset, buf[..n])
      ensures ino in old(inodes) && OneBlock(vol.geo, offset, |buf|) && TreeOk(old(inodes[ino].block)) && |buf| < TWO31 &&
              BlockOf(vol.geo, old(vol.disk), old(inodes[ino].block), offset) == 0 ==>
                var k := MissingAt(vol.geo, old(vol.disk), old(inodes[ino].block), offset);
                && TreeOk(inodes[ino].block)
                && n == (if MoreThan(vol.geo, old(vol.disk), k) then |buf| else 0)
                && (n > 0 ==> NthFree(vol.geo, old(vol.disk), k, BlockOf(vol.geo, vol.disk, inodes[ino].block, offset)))
    {
      hide Sound;
      hide Formatted;
      hide WriteDone;
      hide Full;
      hide NthFree;
      hide MoreThan;
      hide MissingAt;
      hide BlockOf;
      hide Unsaved;
      if ino !in inodes { return -1, 0; }
      ghost var files, d0 := Trees(inodes), vol.disk;
      TreesUpdate(inodes, ino, inodes[ino]);
      SoundTree(vol.geo, vol.disk, files, ino);
      var e := new InodeBuf(inodes[ino]);
      assert With(files, ino, e) == files;
      var stored := WriteFile(vol, e, buf, offset, files, ino);
      r, n := Int32(stored), stored;
      if r < 0 {
        UnsavedSound(vol.geo, d0, files, vol.disk, ino, offset, buf[..n], e.block);
        return;
      }
      TreesUpdate(inodes, ino, e.Rec());
      inodes := inodes[ino := e.Rec()];
    }

    /** Reads through the inode table; None for an unknown inode. */
    method ReadData(ino: nat, offset: nat, count: nat) returns (found: bool, out: seq<byte>)
      requires Valid() && offset + count < TWO32
      ensures found == (ino in inodes)
      ensures found ==> TreeOk(inodes[ino].block)
      ensures found ==> |out| == if offset >= inodes[ino].size then 0 else Min(count, inodes[ino].size - offset)
      ensures found ==> forall i :: 0 <= i < |out| ==> out[i] == ReadByte(vol.geo, vol.disk, inodes[ino].block, offset + i)
    {
      hide Sound;
      hide Formatted;
      if ino !in inodes { return false, []; }
      SoundTree(vol.geo, vol.disk, Trees(inodes), ino);
      var e := new InodeBuf(inodes[ino]);
      out := ReadFile(vol, e, offset, count);
      found := true;
    }

    /** ext2_truncate: -1 for an unknown inode. The volume is sound afterwards exactly
        when the file grew or the cut was clean. */
    method TruncateFile(ino: nat, newSize: nat) returns (r: int, ghost done: seq<Slot>)
      requires Valid() && newSize < TWO32
      requires forall i :: i in inodes ==> inodes[i].size + vol.geo.bs <= TWO32
      modifies this`inodes, vol
      ensures vol.Ok() && inodes.Keys == old(inodes.Keys) && r == if ino in old(inodes) then 0 else -1
      ensures r == -1 ==> inodes == old(inodes) && vol.disk == old(vol.disk)
      ensures r == 0 ==> inodes[ino].size == newSize && (forall g :: g in inodes && g != ino ==> inodes[g] == old(inodes[g]))
      ensures r == 0 && newSize >= old(inodes[ino].size) ==> inodes[ino].block == old(inodes[ino].block) && vol.disk == old(vol.disk) && Valid()
      ensures r == 0 && newSize < old(inodes[ino].size) ==>
                var cut := CutFor(vol.geo, old(inodes[ino].size), newSize);
                && TreeOk(old(inodes[ino].block))
                && Shrunk(vol.geo, old(vol.disk), old(inodes[ino].block), vol.disk, done, Releasing(cut))
                && inodes[ino].block == CutTree(cut, old(inodes[ino].block))
                && MarksCut(vol.geo, old(vol.disk), old(inodes[ino].block), vol.disk, cut)
                && (Valid() <==> Clean(vol.geo, old(vol.disk), old(inodes[ino].block), cut))
    {
      hide Sound;
      hide Formatted;
      hide Shrunk;
      hide Clean;
      hide MarksCut;
      done := [];
      if ino !in inodes { return -1, []; }
      ghost var files := Trees(inodes);
      ghost var d0, tree, size := vol.disk, inodes[ino].block, inodes[ino].size;
      SoundTree(vol.geo, vol.disk, files, ino);
      SoundOwns(vol.geo, vol.disk, files, ino);
      var e := new InodeBuf(inodes[ino]);
      done := Truncate(vol, e, newSize);
      TreesUpdate(inodes, ino, e.Rec());
      TreesUpdate(inodes, ino, inodes[ino]);
      if newSize < size {
        TruncateSound(vol.geo, d0, files, ino, vol.disk, done, CutFor(vol.geo, size, newSize));
      }
      inodes := inodes[ino := e.Rec()];
      r := 0;
    }
  }
}
