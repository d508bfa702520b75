/** Directories through the file layer of fs/ext2.c: the records are read with
    ext2_read_file, changed in memory, and written back with ext2_write_file. */
module Ext2Dir {
  import opened Arith
  import opened Bytes
  import opened Volumes
  import opened Ext2Tree
  import opened Ext2Map
  import opened Ext2File
  import opened Ext2Fs
  import D = Directory

  /** What reading the whole file delivers. */
  ghost function Content(geo: Geometry, d: Disk, node: Inode): (r: seq<byte>)
    requires geo.Valid() && DiskOk(geo, d) && TreeOk(node.block)
    ensures |r| == node.size && forall i :: 0 <= i < |r| ==> r[i] == ReadByte(geo, d, node.block, i)
  {
    seq(node.size, i requires 0 <= i => ReadByte(geo, d, node.block, i))
  }

  /** The directory in inode `node`: fully mapped, its records chained, no name twice. */
  ghost predicate DirOk(geo: Geometry, d: Disk, node: Inode) {
    && NoHoles(geo, d, node.block, 0, node.size)
    && D.Chained(Content(geo, d, node)) && D.Unique(D.Entries(Content(geo, d, node)))
    && node.size < TWO32
  }

  /** The names in it. */
  ghost function Names(geo: Geometry, d: Disk, node: Inode): map<D.Name, nat>
    requires DirOk(geo, d, node)
  {
    D.Table(D.Entries(Content(geo, d, node)))
  }

  lemma DirParts(geo: Geometry, d: Disk, node: Inode)
    requires DirOk(geo, d, node)
    ensures NoHoles(geo, d, node.block, 0, node.size) && geo.Valid() && DiskOk(geo, d) && TreeOk(node.block) && node.size < TWO32
    ensures D.Chained(Content(geo, d, node)) && D.Unique(D.Entries(Content(geo, d, node)))
    ensures Names(geo, d, node) == D.Table(D.Entries(Content(geo, d, node)))
  {
  }

  /** Overwriting a fully mapped file from its start replaces its content, and leaves it
      fully mapped. */
  lemma Rewritten(geo: Geometry, d0: Disk, files0: Files, d: Disk, files: Files, f: nat, node: Inode, buf: seq<byte>)
    requires WriteDone(geo, d0, files0, d, files, f, 0, buf) && |buf| == node.size
    requires f in files0 && files0[f] == node.block && files[f] == node.block
    requires NoHoles(geo, d0, node.block, 0, node.size)
    ensures NoHoles(geo, d, node.block, 0, node.size) && Content(geo, d, node) == buf
  {
    hide Wrote;
    hide BlockOf;
    hide ReadByte;
    assert TreeOk(node.block) && DiskOk(geo, d) by { WroteParts(geo, d0, files0, d, files, f, buf); }
    forall pos: nat | pos < node.size
      ensures BlockOf(geo, d, node.block, pos) != 0
    {
      StillMapped(geo, d0, files0, d, files, f, 0, buf, Div(0, geo.bs), AfterLast(geo, 0, |buf|), pos);
    }
    forall i: nat | i < node.size
      ensures ReadByte(geo, d, node.block, i) == buf[i]
    {
      WrittenIsRead(geo, d0, files0, d, files, f, 0, buf, i);
    }
  }

  lemma WroteParts(geo: Geometry, d0: Disk, files0: Files, d: Disk, files: Files, f: nat, buf: seq<byte>)
    requires WriteDone(geo, d0, files0, d, files, f, 0, buf)
    ensures f in files && TreeOk(files[f]) && DiskOk(geo, d)
  {
  }

  /** Every other file holds the bytes it held. */
  ghost predicate OthersSame(geo: Geometry, d0: Disk, d: Disk, inodes: map<nat, Inode>, f: nat) {
    && geo.Valid() && DiskOk(geo, d0) && DiskOk(geo, d) && (forall g :: g in inodes ==> TreeOk(inodes[g].block))
    && forall g, pos: nat :: g in inodes && g != f ==>
         ByteAt(geo, d, inodes[g].block, pos) == ByteAt(geo, d0, inodes[g].block, pos)
  }

  lemma OthersAfter(geo: Geometry, d0: Disk, d: Disk, inodes: map<nat, Inode>, f: nat, buf: seq<byte>)
    requires WriteDone(geo, d0, Trees(inodes), d, Trees(inodes), f, 0, buf)
    ensures OthersSame(geo, d0, d, inodes, f)
  {
    hide ByteAt;
    var files := Trees(inodes);
    forall g | g in inodes
      ensures TreeOk(inodes[g].block)
    {
      assert TreeOk(files[g]);
    }
    forall g, pos: nat | g in inodes && g != f
      ensures ByteAt(geo, d, inodes[g].block, pos) == ByteAt(geo, d0, inodes[g].block, pos)
    {
      OtherFilesAfterWrite(geo, d0, files, d, files, f, 0, buf, g, pos);
      assert files[g] == inodes[g].block;
    }
  }

  /** Writes the directory's bytes back with ext2_write_file on the local copy of its inode,
      which the callers never write to the inode table. Every block is mapped, so nothing is
      allocated, all bytes are stored, and the inode in the table is still right. */
  method WriteBack(fs: Ext2, dir: nat, out: seq<byte>)
    requires fs.Valid() && dir in fs.inodes && DirOk(fs.vol.geo, fs.vol.disk, fs.inodes[dir]) && |out| == fs.inodes[dir].size
    modifies fs.vol
    ensures fs.Valid() && NoHoles(fs.vol.geo, fs.vol.disk, fs.inodes[dir].block, 0, fs.inodes[dir].size)
    ensures Content(fs.vol.geo, fs.vol.disk, fs.inodes[dir]) == out
    ensures OthersSame(fs.vol.geo, old(fs.vol.disk), fs.vol.disk, fs.inodes, dir)
  {
    hide Sound;
    hide Formatted;
    hide WriteDone;
    hide Full;
    hide NoHoles;
    hide DirOk;
    hide OthersSame;
    DirParts(fs.vol.geo, fs.vol.disk, fs.inodes[dir]);
    ghost var files, d0, geo := Trees(fs.inodes), fs.vol.disk, fs.vol.geo;
    var e := new InodeBuf(fs.inodes[dir]);
    assert With(files, dir, e) == files;
    var n := WriteFile(fs.vol, e, out, 0, files, dir);
    assert out[..n] == out;
    assert With(files, dir, e) == files;
    Rewritten(geo, d0, files, fs.vol.disk, files, dir, fs.inodes[dir], out);
    OthersAfter(geo, d0, fs.vol.disk, fs.inodes, dir, out);
  }

  /** The whole directory, as ext2_read_file delivers it. */
  method ReadAll(fs: Ext2, dir: nat) returns (buf: seq<byte>)
    requires fs.Valid() && dir in fs.inodes && DirOk(fs.vol.geo, fs.vol.disk, fs.inodes[dir])
    ensures TreeOk(fs.inodes[dir].block) && buf == Content(fs.vol.geo, fs.vol.disk, fs.inodes[dir])
  {
    hide Sound;
    hide Formatted;
    hide DirOk;
    DirParts(fs.vol.geo, fs.vol.disk, fs.inodes[dir]);
    var e := new InodeBuf(fs.inodes[dir]);
    buf := ReadFile(fs.vol, e, 0, e.size);
  }

  /** ext2_lookup: the inode under that name, -1 when the directory or the name is missing. */
  method LookupOp(fs: Ext2, dir: nat, name: D.Name) returns (r: int, ino: nat)
    requires fs.Valid() && (dir in fs.inodes ==> DirOk(fs.vol.geo, fs.vol.disk, fs.inodes[dir]))
    ensures r == 0 || r == -1
    ensures r == 0 <==> dir in fs.inodes && name in Names(fs.vol.geo, fs.vol.disk, fs.inodes[dir])
    ensures r == 0 ==> ino == Names(fs.vol.geo, fs.vol.disk, fs.inodes[dir])[name]
  {
    hide Sound;
    hide Formatted;
    hide NoHoles;
    hide DirOk;
    hide OthersSame;
    hide Names;
    hide D.Chained;
    hide D.Tiled;
    hide D.Entries;
    hide D.Table;
    hide D.Unique;
    hide D.Added;
    hide D.Dropped;
    hide D.HasRoom;
    hide D.MergedLen;
    if dir !in fs.inodes { return -1, 0; }
    DirParts(fs.vol.geo, fs.vol.disk, fs.inodes[dir]);
    var buf := ReadAll(fs, dir);
    r, ino := D.Lookup(buf, name);
  }

  /** The record length that unlinking the name stores. */
  ghost function Merge(geo: Geometry, d: Disk, node: Inode, name: D.Name): (r: nat)
    requires DirOk(geo, d, node)
    ensures r <= node.size
  {
    D.MergedBound(Content(geo, d, node), 0, name);
    D.MergedLen(Content(geo, d, node), 0, name)
  }

  /** The records cover the directory. */
  ghost predicate Covered(geo: Geometry, d: Disk, node: Inode)
    requires DirOk(geo, d, node)
  {
    D.Tiled(Content(geo, d, node))
  }

  /** ext2_unlink_op, when the two record lengths it adds fit 16 bits (always under 64 KiB): the
      name is gone, every other name and every other file is as it was, the directory is still
      well formed, and its records cover it if they did. */
  method UnlinkOp(fs: Ext2, dir: nat, name: D.Name) returns (r: int)
    requires fs.Valid() && (dir in fs.inodes ==> DirOk(fs.vol.geo, fs.vol.disk, fs.inodes[dir]) && Merge(fs.vol.geo, fs.vol.disk, fs.inodes[dir], name) < TWO16)
    modifies fs.vol
    ensures fs.Valid() && (r == 0 || r == -1)
    ensures dir in fs.inodes ==> DirOk(fs.vol.geo, fs.vol.disk, fs.inodes[dir])
    ensures r == 0 <==> dir in fs.inodes && name in old(Names(fs.vol.geo, fs.vol.disk, fs.inodes[dir]))
    ensures r == -1 ==> fs.vol.disk == old(fs.vol.disk)
    ensures r == 0 ==> Names(fs.vol.geo, fs.vol.disk, fs.inodes[dir]) == old(Names(fs.vol.geo, fs.vol.disk, fs.inodes[dir])) - {name}
    ensures r == 0 ==> (Covered(fs.vol.geo, fs.vol.disk, fs.inodes[dir]) <==> old(Covered(fs.vol.geo, fs.vol.disk, fs.inodes[dir])))
    ensures r == 0 ==> OthersSame(fs.vol.geo, old(fs.vol.disk), fs.vol.disk, fs.inodes, dir)
  {
    hide Sound;
    hide Formatted;
    hide NoHoles;
    hide DirOk;
    hide OthersSame;
    hide Names;
    hide D.Chained;
    hide D.Tiled;
    hide D.Entries;
    hide D.Table;
    hide D.Unique;
    hide D.Added;
    hide D.Dropped;
    hide D.HasRoom;
    hide D.MergedLen;
    if dir !in fs.inodes { return -1; }
    DirParts(fs.vol.geo, fs.vol.disk, fs.inodes[dir]);
    var buf := ReadAll(fs, dir);
    var out: seq<byte>;
    ghost var at: nat;
    r, out, at := D.Unlink(buf, name);
    if r == 0 {
      D.DroppedTable(buf, out, at, name);
      D.DroppedChained(buf, out, at);
      WriteBack(fs, dir, out);
      DirWhole(fs.vol.geo, fs.vol.disk, fs.inodes[dir]);
    }
  }

  lemma DirWhole(geo: Geometry, d: Disk, node: Inode)
    requires NoHoles(geo, d, node.block, 0, node.size) && node.size < TWO32
    requires geo.Valid() && DiskOk(geo, d) && TreeOk(node.block)
    requires D.Chained(Content(geo, d, node)) && D.Unique(D.Entries(Content(geo, d, node)))
    ensures DirOk(geo, d, node) && Names(geo, d, node) == D.Table(D.Entries(Content(geo, d, node)))
  {
  }

  /** Some record of the directory has room for a name of n bytes. */
  ghost predicate Roomy(geo: Geometry, d: Disk, node: Inode, n: nat)
    requires DirOk(geo, d, node)
  {
    D.HasRoom(Content(geo, d, node), D.Span(n))
  }

  /** ext2_create for a name not in the directory and the inode number just allocated for it. It
      always returns 0. With room in some record that name is added and nothing else changes.
      Without, a block is appended to the file, but the grown inode is never written back: the
      directory has the names it had. */
  method CreateOp(fs: Ext2, dir: nat, name: D.Name, ino: nat) returns (r: int)
    requires fs.Valid() && dir in fs.inodes && DirOk(fs.vol.geo, fs.vol.disk, fs.inodes[dir])
    requires 0 < ino < TWO32 && |name| <= 255 && name !in Names(fs.vol.geo, fs.vol.disk, fs.inodes[dir])
    requires D.Span(255) <= fs.vol.geo.bs < TWO16 && fs.inodes[dir].size + fs.vol.geo.bs < TWO32
    modifies fs.vol
    ensures r == 0 && fs.Valid() && DirOk(fs.vol.geo, fs.vol.disk, fs.inodes[dir])
    ensures Names(fs.vol.geo, fs.vol.disk, fs.inodes[dir]) ==
            var before := old(Names(fs.vol.geo, fs.vol.disk, fs.inodes[dir]));
            if old(Roomy(fs.vol.geo, fs.vol.disk, fs.inodes[dir], |name|)) then before[name := ino] else before
    ensures Covered(fs.vol.geo, fs.vol.disk, fs.inodes[dir]) <==> old(Covered(fs.vol.geo, fs.vol.disk, fs.inodes[dir]))
    ensures OthersSame(fs.vol.geo, old(fs.vol.disk), fs.vol.disk, fs.inodes, dir)
  {
    hide Sound;
    hide Formatted;
    hide NoHoles;
    hide DirOk;
    hide OthersSame;
    hide Names;
    hide D.Chained;
    hide D.Tiled;
    hide D.Entries;
    hide D.Table;
    hide D.Unique;
    hide D.Added;
    hide D.Dropped;
    hide D.HasRoom;
    hide D.MergedLen;
    hide D.Span;
    DirParts(fs.vol.geo, fs.vol.disk, fs.inodes[dir]);
    var buf := ReadAll(fs, dir);
    var out, at := D.AddEntry(buf, ino, name, 1, fs.vol.geo.bs);
    if |out| == |buf| {
      D.AddedTable(buf, out, at, D.Entry(name, ino, 1));
      D.AddedChained(buf, out, at, D.Entry(name, ino, 1));
      WriteBack(fs, dir, out);
    } else {
      WriteLonger(fs, dir, out);
    }
    DirWhole(fs.vol.geo, fs.vol.disk, fs.inodes[dir]);
    r := 0;
  }

  /** Writes the directory's bytes and a block more with ext2_write_file on a copy of the inode
      that is then dropped: the directory in the table holds what it held. */
  method WriteLonger(fs: Ext2, dir: nat, out: seq<byte>)
    requires fs.Valid() && dir in fs.inodes && DirOk(fs.vol.geo, fs.vol.disk, fs.inodes[dir])
    requires fs.inodes[dir].size < |out| < TWO32 && TreeOk(fs.inodes[dir].block)
    requires out[..fs.inodes[dir].size] == Content(fs.vol.geo, fs.vol.disk, fs.inodes[dir])
    modifies fs.vol
    ensures fs.Valid() && NoHoles(fs.vol.geo, fs.vol.disk, fs.inodes[dir].block, 0, fs.inodes[dir].size)
    ensures Content(fs.vol.geo, fs.vol.disk, fs.inodes[dir]) == old(Content(fs.vol.geo, fs.vol.disk, fs.inodes[dir]))
    ensures OthersSame(fs.vol.geo, old(fs.vol.disk), fs.vol.disk, fs.inodes, dir)
  {
    hide Sound;
    hide Formatted;
    hide WriteDone;
    hide Full;
    hide NoHoles;
    hide DirOk;
    hide OthersSame;
    hide Content;
    hide BlockOf;
    hide LowestFree;
    DirParts(fs.vol.geo, fs.vol.disk, fs.inodes[dir]);
    ghost var files, d0, geo := Trees(fs.inodes), fs.vol.disk, fs.vol.geo;
    var e := new InodeBuf(fs.inodes[dir]);
    assert With(files, dir, e) == files;
    var n := WriteFile(fs.vol, e, out, 0, files, dir);
    Forgotten(geo, d0, fs.inodes, fs.vol.disk, e.block, dir, out, n);
  }

  /** Dropping the inode of a file that has only grown. */
  lemma Forgotten(geo: Geometry, d0: Disk, inodes: map<nat, Inode>, d: Disk, grown: Tree, f: nat, out: seq<byte>, n: nat)
    requires f in inodes && n <= |out| && inodes[f].size <= |out| && TreeOk(inodes[f].block) && TreeOk(grown)
    requires WriteDone(geo, d0, Trees(inodes), d, Trees(inodes)[f := grown], f, 0, out[..n])
    requires Sound(geo, d, Trees(inodes)[f := grown]) && NoHoles(geo, d0, inodes[f].block, 0, inodes[f].size)
    requires out[..inodes[f].size] == Content(geo, d0, inodes[f])
    ensures geo.Valid() && DiskOk(geo, d) && Sound(geo, d, Trees(inodes)) && NoHoles(geo, d, inodes[f].block, 0, inodes[f].size)
    ensures Content(geo, d, inodes[f]) == Content(geo, d0, inodes[f]) && OthersSame(geo, d0, d, inodes, f)
  {
    hide Wrote;
    hide Sound;
    hide BlockOf;
    hide ByteAt;
    hide ReadByte;
    hide OthersSame;
    var files, node := Trees(inodes), inodes[f];
    var files' := files[f := grown];
    RootsKept(geo, d0, files, d, files', f, 0, out[..n]);
    SoundWithout(geo, d, files', files, f);
    forall pos: nat | pos < node.size
      ensures BlockOf(geo, d, node.block, pos) != 0 && ReadByte(geo, d, node.block, pos) == ReadByte(geo, d0, node.block, pos)
    {
      ByteKept(geo, d0, files, d, files', f, out, n, pos, Content(geo, d0, node));
    }
    assert Content(geo, d, node) == Content(geo, d0, node);
    OthersGrown(geo, d0, d, inodes, f, grown, out[..n]);
  }

  lemma ByteKept(geo: Geometry, d0: Disk, files: Files, d: Disk, files': Files, f: nat, out: seq<byte>, n: nat, pos: nat, was: seq<byte>)
    requires n <= |out| && WriteDone(geo, d0, files, d, files', f, 0, out[..n]) && pos < |was| <= |out| && out[..|was|] == was
    requires f in files && f in files' && geo.Valid() && DiskOk(geo, d0) && DiskOk(geo, d) && Contains(files'[f], files[f])
    requires BlockOf(geo, d0, files[f], pos) != 0 && was[pos] == ReadByte(geo, d0, files[f], pos)
    ensures BlockOf(geo, d, files[f], pos) != 0 && ReadByte(geo, d, files[f], pos) == ReadByte(geo, d0, files[f], pos)
  {
    hide ReadByte;
    hide WriteDone;
    hide BlockOf;
    hide Div;
    hide Mod;
    hide Read;
    BlockKept(geo, d0, files, d, files', f, 0, out[..n], pos);
    FileAfterWrite(geo, d0, files, d, files', f, 0, out[..n], pos);
    ReadsMapped(geo, d0, files[f], pos);
    ReadsMapped(geo, d, files[f], pos);
    assert out[..|was|][pos] == out[pos];
  }

  lemma OthersGrown(geo: Geometry, d0: Disk, d: Disk, inodes: map<nat, Inode>, f: nat, grown: Tree, buf: seq<byte>)
    requires f in inodes && WriteDone(geo, d0, Trees(inodes), d, Trees(inodes)[f := grown], f, 0, buf)
    ensures OthersSame(geo, d0, d, inodes, f)
  {
    hide ByteAt;
    var files := Trees(inodes);
    forall g | g in inodes
      ensures TreeOk(inodes[g].block)
    {
      assert TreeOk(files[g]);
    }
    forall g, pos: nat | g in inodes && g != f
      ensures ByteAt(geo, d, inodes[g].block, pos) == ByteAt(geo, d0, inodes[g].block, pos)
    {
      OtherFilesAfterWrite(geo, d0, files, d, files[f := grown], f, 0, buf, g, pos);
      assert files[g] == inodes[g].block;
    }
  }
}
