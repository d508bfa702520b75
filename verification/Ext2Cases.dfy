/** Concrete inputs on which the ext2 driver does not do what a file system should: each is a
    call of the driver's own operations on a sound volume of one block group. */
module Ext2Cases {
  import opened Arith
  import opened Bytes
  import opened Volumes
  import opened Ext2Tree
  import opened Ext2Map
  import opened Ext2File
  import opened Ext2Fs
  import opened Ext2Dir
  import opened Ext2Truncate
  import D = Directory

  lemma HolesSound(d: Disk)
    requires Formatted(SMALL, d)
    ensures Sound(SMALL, d, map[11 := Holes()])
  {
    forall s | SlotOk(SMALL, s)
      ensures PtrAt(SMALL, d, Holes(), s) == 0
    {
      NoBlocks(SMALL, d, Holes(), s);
    }
  }

  lemma BlockTwelve()
    ensures Div(12288, 1024) == 12 && Mod(12288, 1024) == 0 && Mul(12, 1024) == 12288
  {
    CountsUnits(12288, 12, 1024);
  }

  /** A hole need not read as zeros: the file has no single-indirect block, so entry 0 is taken
      from block 0, which names block 7. */
  method HoleReadsThroughBlockZero() returns (found: bool, out: seq<byte>)
    ensures found && out == [1]
  {
    var d: Disk := map[0 := Zeros(1024)[0 := 7], 2 := AllOnes(1024), 7 := Zeros(1024)[0 := 1]];
    SmallFull(d);
    HolesSound(d);
    var vol := new Volume(SMALL, d, [0]);
    var inodes := map[11 := Inode(13312, Holes())];
    assert Trees(inodes) == map[11 := Holes()];
    var fs := new Ext2(vol, inodes);
    found, out := fs.ReadData(11, 12288, 1);
    ghost var first := StandIn(SMALL, d, 0);
    assert first == 7;
    BlockTwelve();
    HolesRead(SMALL, d, 0, 0);
  }

  lemma FirstBlock()
    ensures Div(0, 1024) == Div(5, 1024) == 0 && Mod(0, 1024) == 0 && Mod(5, 1024) == 5
    ensures SMALL.Valid() && OneBlock(SMALL, 0, 1)
  {
    SmallValid();
  }

  lemma HoleByte(d: Disk)
    requires SMALL.Valid() && DiskOk(SMALL, d)
    ensures BlockOf(SMALL, d, Holes(), 0) == 0 && MissingAt(SMALL, d, Holes(), 0) == 0 && ReadByte(SMALL, d, Holes(), 5) == 0
  {
    FirstBlock();
  }

  /** After the write byte 5 is the one block 10 held. */
  lemma Shown(d: Disk, tree: Tree)
    requires SMALL.Valid() && DiskOk(SMALL, Nines()) && DiskOk(SMALL, d) && TreeOk(tree)
    requires WriteDone(SMALL, Nines(), map[11 := Holes()], d, map[11 := tree], 11, 0, [7])
    requires LowestFree(SMALL, Nines(), BlockOf(SMALL, d, tree, 0))
    ensures ReadByte(SMALL, d, tree, 5) == 9
  {
    hide WriteDone;
    hide LowestFree;
    hide ByteAt;
    hide ReadByte;
    NinesFacts();
    FirstBlock();
    HoleByte(Nines());
    OneLowest(SMALL, Nines(), 10, BlockOf(SMALL, d, tree, 0));
    AroundHole(SMALL, Nines(), map[11 := Holes()], d, map[11 := tree], 11, 0, [7], 10, 5);
    ReadsMapped(SMALL, d, tree, 5);
  }

  /** A short write shows what the device held: byte 5 of a hole reads as 0, one byte is written
      at 0, and byte 5 reads as 9. */
  method ShortWriteExposes() returns (before: seq<byte>, n: int, after: seq<byte>)
    ensures before == [0] && n == 1 && after == [9]
  {
    hide WriteDone;
    hide LowestFree;
    hide Full;
    hide Sound;
    hide Formatted;
    hide ReadByte;
    hide BlockOf;
    hide MissingAt;
    hide OneBlock;
    hide Nines;
    hide Holes;
    NinesFacts();
    assert NthFree(SMALL, Nines(), 0, 10);
    HolesSound(Nines());
    var vol := new Volume(SMALL, Nines(), [1]);
    var inodes := map[11 := Inode(1024, Holes())];
    assert Trees(inodes) == map[11 := Holes()];
    var fs := new Ext2(vol, inodes);
    HoleByte(Nines());
    FirstBlock();
    var found;
    found, before := fs.ReadData(11, 5, 1);
    ghost var count;
    n, count := fs.WriteData(11, 0, [7]);
    ghost var tree := fs.inodes[11].block;
    assert [7][..1] == [7];
    assert Trees(fs.inodes) == map[11 := tree];
    Shown(fs.vol.disk, tree);
    found, after := fs.ReadData(11, 5, 1);
  }

  // ----- a byte cut off and uncovered again -----

  lemma TwoBytes()
    ensures Div(0, 1024) == Div(1, 1024) == 0 && Blocks(SMALL, 2) == Blocks(SMALL, 1) == 1
    ensures SMALL.Valid() && OneBlock(SMALL, 0, 2) && Ptrs(SMALL) == 256
  {
    SmallValid();
  }

  /** A volume with one file, to which 7, 8 was written. */
  method SevenEight() returns (fs: Ext2)
    ensures fresh(fs) && fresh(fs.vol) && fs.Valid() && fs.vol.geo == SMALL && fs.inodes.Keys == {11} && fs.inodes[11].size == 2
    ensures TreeOk(fs.inodes[11].block) && BlockOf(SMALL, fs.vol.disk, fs.inodes[11].block, 1) != 0
    ensures ByteAt(SMALL, fs.vol.disk, fs.inodes[11].block, 1) == 8
  {
    hide WriteDone;
    hide LowestFree;
    hide Full;
    hide Sound;
    hide Formatted;
    hide ByteAt;
    hide BlockOf;
    hide MissingAt;
    hide OneBlock;
    hide Div;
    hide Nines;
    hide Holes;
    NinesFacts();
    assert NthFree(SMALL, Nines(), 0, 10);
    HolesSound(Nines());
    var vol := new Volume(SMALL, Nines(), [1]);
    var inodes := map[11 := Inode(0, Holes())];
    assert Trees(inodes) == map[11 := Holes()];
    fs := new Ext2(vol, inodes);
    HoleByte(Nines());
    TwoBytes();
    var r, n := fs.WriteData(11, 0, [7, 8]);
    assert [7, 8][..2] == [7, 8];
    Eight(fs.vol.disk, fs.inodes[11].block, Trees(fs.inodes));
  }

  /** A file cut in the middle of a block and grown again shows the byte it lost: 7, 8 is written,
      the file is cut to one byte and grown to two, and the second byte reads as 8. */
  method CutByteReturns() returns (after: seq<byte>)
    ensures after == [8]
  {
    hide Sound;
    hide Formatted;
    hide ReadByte;
    hide ByteAt;
    hide BlockOf;
    hide Shrunk;
    hide CutTree;
    hide Div;
    var fs := SevenEight();
    TwoBytes();
    ghost var d, files := fs.vol.disk, Trees(fs.inodes);
    var r;
    ghost var done;
    r, done := fs.TruncateFile(11, 1);
    TruncateKeepsBytes(SMALL, d, files, 11, fs.vol.disk, done, CutFor(SMALL, 2, 1), 11, 1);
    r, done := fs.TruncateFile(11, 2);
    ReadsMapped(SMALL, fs.vol.disk, fs.inodes[11].block, 1);
    var found;
    found, after := fs.ReadData(11, 1, 1);
  }

  lemma Eight(d: Disk, tree: Tree, files: Files)
    requires SMALL.Valid() && DiskOk(SMALL, d) && TreeOk(tree) && 11 in files && files[11] == tree
    requires WriteDone(SMALL, Nines(), map[11 := Holes()], d, files, 11, 0, [7, 8])
    ensures BlockOf(SMALL, d, tree, 1) != 0 && ByteAt(SMALL, d, tree, 1) == 8
  {
    hide PtrsKept;
    FileAfterWrite(SMALL, Nines(), map[11 := Holes()], d, files, 11, 0, [7, 8], 1);
  }

  // ----- a crowded directory -----

  /** Every block is marked; block 10 holds a directory without room. */
  function CrowdedDisk(): Disk {
    map[2 := AllOnes(1024), 10 := D.Crowded()]
  }

  function SoleBlock(): (t: Tree)
    ensures TreeOk(t)
  {
    seq(15, k => if k == 0 then 10 else 0)
  }

  lemma {:induction false} OnlyTen(d: Disk, s: Slot)
    requires DiskOk(SMALL, d) && SlotOk(SMALL, s)
    ensures PtrAt(SMALL, d, SoleBlock(), s) == if s == Root(0) then 10 else 0
  {
    if s.Child? { OnlyTen(d, s.parent); }
  }

  lemma CrowdedSound()
    ensures Formatted(SMALL, CrowdedDisk()) && Sound(SMALL, CrowdedDisk(), map[11 := SoleBlock()])
  {
    hide D.Crowded;
    hide OneBlock;
    var d := CrowdedDisk();
    SmallValid();
    SmallFull(d);
    forall s | SlotOk(SMALL, s)
      ensures PtrAt(SMALL, d, SoleBlock(), s) == if s == Root(0) then 10 else 0
    {
      OnlyTen(d, s);
    }
  }

  lemma CrowdedDir(need: nat)
    requires need > 0
    ensures SMALL.Valid() && DiskOk(SMALL, CrowdedDisk()) && DirOk(SMALL, CrowdedDisk(), Inode(1024, SoleBlock()))
    ensures [9] !in Names(SMALL, CrowdedDisk(), Inode(1024, SoleBlock()))
    ensures Content(SMALL, CrowdedDisk(), Inode(1024, SoleBlock())) == D.Crowded() && !D.HasRoom(D.Crowded(), need)
  {
    hide D.Crowded;
    hide D.Tiled;
    hide D.Chained;
    hide D.Entries;
    hide D.Table;
    hide D.Unique;
    hide D.HasRoom;
    hide Sound;
    CrowdedSound();
    D.CrowdedFacts(need);
    var d, node := CrowdedDisk(), Inode(1024, SoleBlock());
    forall pos: nat | pos < 1024
      ensures BlockOf(SMALL, d, node.block, pos) != 0 && ReadByte(SMALL, d, node.block, pos) == D.Crowded()[pos]
    {
      assert Div(pos, 1024) == 0 && Mod(pos, 1024) == pos;
    }
    assert Content(SMALL, d, node) == D.Crowded();
  }

  /** ext2_create says 0 for a directory without room, and the name is not there afterwards. */
  method CreateLosesName() returns (r: int, found: int)
    ensures r == 0 && found == -1
  {
    hide Sound;
    hide Formatted;
    hide DirOk;
    hide Names;
    hide OneBlock;
    hide CrowdedDisk;
    hide D.Crowded;
    hide D.HasRoom;
    hide D.Chained;
    hide D.Table;
    hide OthersSame;
    hide Content;
    assert D.Span(255) == 264;
    CrowdedSound();
    CrowdedDir(D.Span(1));
    var vol := new Volume(SMALL, CrowdedDisk(), [0]);
    var inodes := map[11 := Inode(1024, SoleBlock())];
    assert Trees(inodes) == map[11 := SoleBlock()];
    var fs := new Ext2(vol, inodes);
    r := CreateOp(fs, 11, [9], 12);
    var ino;
    found, ino := LookupOp(fs, 11, [9]);
  }
}
