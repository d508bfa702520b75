/** The ext4 driver on concrete inputs. A tree of given bytes is read as the on-disk format has it;
    the others are calls on a sound volume of one block group on which the driver does not do what
    a file system should. */
module Ext4Cases {
  import opened Arith
  import opened Bytes
  import opened Volumes
  import opened Ext4Tree
  import opened Ext4Files
  import opened Ext4IO
  import opened Ext4Fs
  import opened Ext4Dir
  import D = Directory

  /** An empty extent tree maps nothing and has no nodes. */
  lemma EmptyTree(d: Disk)
    requires SMALL.Valid() && DiskOk(SMALL, d)
    ensures RootOk(SMALL, d, EmptyRoot()) && CanAppend(EmptyRoot()) && Effective(EmptyRoot()) == EmptyRoot()
    ensures forall x: nat :: PhysAt(SMALL, d, EmptyRoot(), x) == 0
    ensures forall n: nat :: !IsNode(SMALL, d, EmptyRoot(), n)
  {
    var r := EmptyRoot();
    assert U16(r, 0) == MAGIC && Entries(r) == 0 && MaxEntries(r) == 4 && Depth(r) == 0;
    assert Extents(r) == [];
  }

  lemma EmptySound(d: Disk)
    requires Formatted(SMALL, d)
    ensures Sound(SMALL, d, map[11 := EmptyRoot()])
  {
    hide RootOk;
    hide PhysAt;
    hide IsNode;
    EmptyTree(d);
  }

  lemma FirstBlock()
    ensures Div(0, 1024) == Div(5, 1024) == 0 && Mod(0, 1024) == 0 && Mod(5, 1024) == 5
    ensures AfterLast(SMALL, 0, 0) == 0 && AfterLast(SMALL, 0, 1) == 1
  {
  }

  /** After the write byte 5 is the one block 10 held. */
  lemma Shown(d: Disk, root: Root, n: nat)
    requires n <= 1 && RootOk(SMALL, d, root)
    requires WriteDone(SMALL, Nines(), map[11 := EmptyRoot()], d, map[11 := root], 11, 0, [7][..n])
    requires Decided(SMALL, Nines(), EmptyRoot(), d, root, 0, 1, n == 1, AfterLast(SMALL, 0, n))
    ensures n == 1 && ByteAt(SMALL, d, root, 5) == 9
  {
    hide WriteDone;
    hide RootOk;
    hide PhysAt;
    hide ByteAt;
    hide LowestFree;
    hide Full;
    hide CanAppend;
    NinesFacts();
    FirstBlock();
    EmptyTree(Nines());
    assert FirstHole(SMALL, Nines(), EmptyRoot(), 0, 1, 0);
    assert [7][..n] == [7];
    OneLowest(SMALL, Nines(), 10, PhysAt(SMALL, d, root, 0));
    AroundHole(SMALL, Nines(), map[11 := EmptyRoot()], d, map[11 := root], 11, 0, [7], 10, 5);
  }

  lemma HoleByte(d: Disk)
    requires SMALL.Valid() && DiskOk(SMALL, d)
    ensures RootOk(SMALL, d, EmptyRoot()) && ByteAt(SMALL, d, EmptyRoot(), 5) == 0 && U16(EmptyRoot(), 0) == MAGIC && |EmptyRoot()| == 60
  {
    hide RootOk;
    hide PhysAt;
    EmptyTree(d);
  }

  /** A short write shows what the device held: byte 5 of a hole reads as 0, one byte is written
      at 0, and byte 5 reads as 9. */
  method ShortWriteExposes() returns (before: seq<byte>, n: int, after: seq<byte>)
    ensures before == [0] && n == 1 && after == [9]
  {
    hide WriteDone;
    hide LowestFree;
    hide Full;
    hide Sound;
    hide Formatted;
    hide ByteAt;
    hide RootOk;
    hide Decided;
    hide Nines;
    hide EmptyRoot;
    hide AfterLast;
    hide Div;
    hide Mod;
    hide PhysAt;
    hide Unmapped;
    NinesFacts();
    EmptySound(Nines());
    EmptyTree(Nines());
    HoleByte(Nines());
    FirstBlock();
    var vol := new Volume(SMALL, Nines(), [1]);
    var inodes := map[11 := Node(1024, EmptyRoot())];
    assert Trees(inodes) == map[11 := EmptyRoot()];
    var fs := new Ext4(vol, inodes);
    var r;
    ghost var ok, count;
    r, before, ok := fs.ReadData(11, 5, 1);
    n, count := fs.WriteData(11, 0, [7]);
    ghost var root := fs.inodes[11].root;
    assert Trees(fs.inodes) == map[11 := root];
    RootOkIn(SMALL, fs.vol.disk, map[11 := root], 11);
    Shown(fs.vol.disk, root, count);
    r, after, ok := fs.ReadData(11, 5, 1);
  }

  // ----- a tree of two levels, byte by byte -----

  /** Depth 1, one entry: file blocks from 0 on are under block 10. */
  function TopBytes(): (r: seq<byte>)
    ensures |r| == 60
  {
    [0x0A, 0xF3, 1, 0, 4, 0, 1, 0, 0, 0,
     0, 0, 0, 0, 10, 0, 0, 0, 0, 0, 0, 0] + Zeros(38)
  }

  /** Block 10 is a leaf, one extent: file blocks 2 and 3 are blocks 20 and 21. */
  function LeafBytes(): (r: seq<byte>)
    ensures |r| == 1024
  {
    [0x0A, 0xF3, 1, 0, 84, 0, 0, 0, 0, 0,
     2, 0, 0, 0, 2, 0, 0, 0, 20, 0, 0, 0] + Zeros(1002)
  }

  lemma TwoLevelFields()
    ensures var t := TopBytes(); Entries(t) == 1 && Depth(t) == 1 && KeyAt(t, 0) == 0 && LeafAt(t, 0) == 10
    ensures var b := LeafBytes(); Entries(b) == 1 && Depth(b) == 0 && ExtentAt(b, 0) == Extent(2, 2, 20)
  {
  }

  /** The search goes through the index entry to the leaf: file block 3 is block 21, with one block
      left in its extent, and file block 1 is a hole. */
  method TwoLevels() returns (mapped: Found, hole: Found)
    ensures mapped == Some(21, 1) && hole == None
  {
    hide TopBytes;
    hide LeafBytes;
    hide KeyAt;
    hide LeafAt;
    hide ExtentAt;
    hide Entries;
    hide Depth;
    TwoLevelFields();
    var t, b := TopBytes(), LeafBytes();
    var d: Disk := map[10 := b];
    assert Child(SMALL, d, t, 0) == b;
    assert Extents(b) == [Extent(2, 2, 20)];
    assert FlatFrom(SMALL, d, t, 1) == [];
    assert Flat(SMALL, d, t) == [Extent(2, 2, 20)];
    mapped := Traverse(SMALL, d, t, 3, 0, TWO32);
    hole := Traverse(SMALL, d, t, 1, 0, TWO32);
  }

  // ----- an extent that ends at 2^32 -----

  /** One extent: file block 0xFFFFFFFF in block 10. */
  function LastRoot(): (r: Root)
    ensures |r| == 60
  {
    assert U16(EmptyRoot(), 2) == 0 && U16(EmptyRoot(), 4) == 4 && U16(EmptyRoot(), 6) == 0;
    Append(EmptyRoot(), TWO32 - 1, 10)
  }

  lemma LastMapped(d: Disk)
    requires DiskOk(SMALL, d)
    ensures Shape(SMALL, d, LastRoot()) && Ranged(SMALL, d, LastRoot(), 0, TWO32)
    ensures Flat(SMALL, d, LastRoot()) == [Extent(TWO32 - 1, 1, 10)]
    ensures Apart(Flat(SMALL, d, LastRoot())) && Find(Flat(SMALL, d, LastRoot()), TWO32 - 1) == Some(10, 1)
  {
    hide Append;
    hide U16;
    hide U32;
    EmptyFields();
    AppendDecodes(EmptyRoot(), TWO32 - 1, 10);
    var r, e := LastRoot(), Extent(TWO32 - 1, 1, 10);
    assert Extents(EmptyRoot()) == [] && Extents(r) == [e];
    assert ExtentAt(r, 0) == Extents(r)[0];
  }

  lemma EmptyFields()
    ensures U16(EmptyRoot(), 0) == MAGIC && U16(EmptyRoot(), 2) == 0 && U16(EmptyRoot(), 4) == 4 && U16(EmptyRoot(), 6) == 0
  {
  }

  /** The search fails on a mapped block: the end of the extent, 2^32, is 0 in 32 bits. */
  method LastBlockMissed(d: Disk) returns (r: Found)
    requires DiskOk(SMALL, d)
    ensures Shape(SMALL, d, LastRoot()) && Find(Flat(SMALL, d, LastRoot()), TWO32 - 1) == Some(10, 1)
    ensures r == None
  {
    hide Shape;
    hide Ranged;
    hide LastRoot;
    LastMapped(d);
    r := Traverse(SMALL, d, LastRoot(), TWO32 - 1, 0, TWO32);
  }

  // ----- a crowded directory on a full volume -----

  /** Every block is marked; block 10 holds the crowded directory. */
  function CrowdedDisk(): Disk {
    map[2 := AllOnes(1024), 10 := D.Crowded()]
  }

  /** One extent: file block 0 in block 10. */
  function OneExtent(): (r: Root)
    ensures |r| == 60
  {
    assert U16(EmptyRoot(), 2) == 0 && U16(EmptyRoot(), 4) == 4 && U16(EmptyRoot(), 6) == 0;
    Append(EmptyRoot(), 0, 10)
  }

  lemma CrowdedMapped()
    ensures Formatted(SMALL, CrowdedDisk()) && Full(SMALL, CrowdedDisk()) && RootOk(SMALL, CrowdedDisk(), OneExtent())
    ensures forall x: nat :: PhysAt(SMALL, CrowdedDisk(), OneExtent(), x) == if x == 0 then 10 else 0
    ensures Sound(SMALL, CrowdedDisk(), map[11 := OneExtent()])
  {
    hide RootOk;
    hide PhysAt;
    hide IsNode;
    hide Append;
    hide D.Crowded;
    hide EmptyRoot;
    var d := CrowdedDisk();
    SmallValid();
    SmallFull(d);
    EmptySound(d);
    EmptyTree(d);
    AppendMaps(SMALL, d, EmptyRoot(), 0, 10);
    var files := map[11 := EmptyRoot()];
    MappedInv(SMALL, d, files, Marked(SMALL, d), 11, OneExtent(), 0, 10);
    assert files[11 := OneExtent()] == map[11 := OneExtent()];
  }

  lemma SmallUnits()
    ensures Div(1024, 1024) == 1 && Div(0, 1024) == 0 && D.Span(255) == 264 && D.Span(1) == 12
  {
  }

  lemma CrowdedDir(need: nat)
    requires need > 0
    ensures DirOk(SMALL, CrowdedDisk(), OneExtent(), 1024)
    ensures [9] !in Names(SMALL, CrowdedDisk(), OneExtent(), 1024)
    ensures Content(SMALL, CrowdedDisk(), OneExtent(), 1024) == D.Crowded() && !D.HasRoom(D.Crowded(), need)
  {
    hide RootOk;
    hide PhysAt;
    hide OneExtent;
    hide D.Crowded;
    hide D.Tiled;
    hide D.Chained;
    hide D.Entries;
    hide D.Table;
    hide D.Unique;
    hide D.HasRoom;
    hide Sound;
    CrowdedMapped();
    D.CrowdedFacts(need);
    var d, root := CrowdedDisk(), OneExtent();
    forall pos: nat | pos < 1024
      ensures Div(pos, 1024) == 0 && Mod(pos, 1024) == pos
    {
    }
    assert Mod(1024, 1024) == 0;
    assert Content(SMALL, d, root, 1024) == D.Crowded();
  }

  /** ext4_add_dir_entry says 0 for a directory without room on a full volume, and the name is not
      there afterwards. */
  method AddFailsSilently() returns (r: int, found: int)
    ensures r == 0 && found == -1
  {
    hide Sound;
    hide Formatted;
    hide RootOk;
    hide PhysAt;
    hide DirOk;
    hide Names;
    hide Full;
    hide CanAppend;
    hide OneExtent;
    hide CrowdedDisk;
    hide D.Crowded;
    hide D.HasRoom;
    hide D.Chained;
    hide D.Table;
    hide OthersSame;
    hide Content;
    hide D.Tiled;
    hide D.Entries;
    hide D.Unique;
    hide Div;
    hide Mod;
    hide D.Span;
    hide LowestFree;
    SmallUnits();
    CrowdedMapped();
    CrowdedDir(D.Span(1));
    var vol := new Volume(SMALL, CrowdedDisk(), [0]);
    var e := new InodeBuf(1024, OneExtent());
    ghost var files: Files := map[11 := OneExtent()];
    DirParts(SMALL, vol.disk, e.root, e.size);
    assert files[11 := Effective(e.root)] == files;
    ghost var added;
    r, added := AddOp(vol, e, [9], 12, 1, files, 11);
    assert !added;
    var ino;
    found, ino := LookupOp(vol, e, [9]);
  }
}
