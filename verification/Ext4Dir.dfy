/** Directories through the file layer of fs/ext4.c: ext4_lookup, ext4_add_dir_entry and
    ext4_unlink_op read the records with ext4_read_extent and write them back with
    ext4_write_extent. */
module Ext4Dir {
  import opened Arith
  import opened Bytes
  import opened Volumes
  import opened Ext4Tree
  import opened Ext4Files
  import opened Ext4IO
  import D = Directory

  /** What reading the whole file delivers. */
  ghost function Content(geo: Geometry, d: Disk, root: Root, size: nat): (r: seq<byte>)
    requires RootOk(geo, d, root)
    ensures |r| == size && forall i :: 0 <= i < |r| ==> r[i] == ByteAt(geo, d, root, i)
  {
    seq(size, i requires 0 <= i => ByteAt(geo, d, root, i))
  }

  ghost predicate NoHoles(geo: Geometry, d: Disk, root: Root, size: nat)
    requires RootOk(geo, d, root)
  {
    forall pos: nat :: pos < size ==> PhysAt(geo, d, root, Div(pos, geo.bs)) != 0
  }

  /** A directory of whole, mapped blocks whose records cover it, with no name twice. */
  ghost predicate DirOk(geo: Geometry, d: Disk, root: Root, size: nat) {
    && RootOk(geo, d, root) && NoHoles(geo, d, root, size)
    && geo.bs > 0 && Mod(size, geo.bs) == 0 && size + geo.bs < TWO32
    && D.Tiled(Content(geo, d, root, size)) && D.Chained(Content(geo, d, root, size))
    && D.Unique(D.Entries(Content(geo, d, root, size)))
  }

  ghost function Names(geo: Geometry, d: Disk, root: Root, size: nat): map<D.Name, nat>
    requires DirOk(geo, d, root, size)
  {
    D.Table(D.Entries(Content(geo, d, root, size)))
  }

  lemma DirParts(geo: Geometry, d: Disk, root: Root, size: nat)
    requires DirOk(geo, d, root, size)
    ensures RootOk(geo, d, root) && NoHoles(geo, d, root, size) && |root| == 60 && U16(root, 0) == MAGIC
    ensures geo.bs > 0 && Mod(size, geo.bs) == 0 && size + geo.bs < TWO32
    ensures D.Tiled(Content(geo, d, root, size)) && D.Chained(Content(geo, d, root, size))
    ensures D.Unique(D.Entries(Content(geo, d, root, size)))
    ensures Names(geo, d, root, size) == D.Table(D.Entries(Content(geo, d, root, size)))
  {
  }

  lemma DirWhole(geo: Geometry, d: Disk, root: Root, size: nat)
    requires RootOk(geo, d, root) && NoHoles(geo, d, root, size)
    requires geo.bs > 0 && Mod(size, geo.bs) == 0 && size + geo.bs < TWO32
    requires D.Tiled(Content(geo, d, root, size)) && D.Chained(Content(geo, d, root, size))
    requires D.Unique(D.Entries(Content(geo, d, root, size)))
    ensures DirOk(geo, d, root, size)
    ensures Names(geo, d, root, size) == D.Table(D.Entries(Content(geo, d, root, size)))
  {
  }

  /** A write from the start of the file: what it stored is the file, mapped. */
  lemma Rewritten(geo: Geometry, d0: Disk, files0: Files, d: Disk, files: Files, f: nat, data: seq<byte>)
    requires WriteDone(geo, d0, files0, d, files, f, 0, data)
    ensures f in files && RootOk(geo, d, files[f]) && NoHoles(geo, d, files[f], |data|) && Content(geo, d, files[f], |data|) == data
  {
    hide RootOk;
    hide PhysAt;
    hide ByteAt;
    hide MapKept;
    FileAfterWrite(geo, d0, files0, d, files, f, 0, data, 0);
    var root := files[f];
    forall pos: nat | pos < |data|
      ensures PhysAt(geo, d, root, Div(pos, geo.bs)) != 0
      ensures ByteAt(geo, d, root, pos) == data[pos]
    {
      assert StoredAt(geo, d0, d, root, 0, data, pos);
      FileAfterWrite(geo, d0, files0, d, files, f, 0, data, pos);
    }
  }

  /** A write to a fully mapped file of whole blocks, one block longer than the file at most,
      is complete or stops exactly at the old end. */
  lemma StopsAtEnd(geo: Geometry, d0: Disk, files0: Files, f: nat, size: nat, n: nat, total: nat)
    requires f in files0 && RootOk(geo, d0, files0[f]) && NoHoles(geo, d0, files0[f], size)
    requires geo.bs > 0 && Mod(size, geo.bs) == 0 && n < total && (total == size || total == size + geo.bs)
    requires Unmapped(geo, d0, files0, f, Div(n, geo.bs)) && AfterLast(geo, 0, n) == Div(n, geo.bs)
    ensures n == size && total == size + geo.bs
  {
    hide RootOk;
    hide PhysAt;
    assert n >= size;
    SamePage(geo.bs, size, n, geo.bs);
    if n > size { SamePage(geo.bs, size, n - 1, geo.bs); }
  }

  /** Byte pos of a file is the same on both disks. */
  ghost predicate KeptAt(geo: Geometry, d0: Disk, d: Disk, root: Root, pos: nat) {
    RootOk(geo, d0, root) && RootOk(geo, d, root) && ByteAt(geo, d, root, pos) == ByteAt(geo, d0, root, pos)
  }

  /** Every other file holds the bytes it held. */
  ghost predicate OthersSame(geo: Geometry, d0: Disk, d: Disk, files: Files, f: nat) {
    forall g, pos: nat :: g in files && g != f ==> KeptAt(geo, d0, d, files[g], pos)
  }

  lemma OthersAfter(geo: Geometry, d0: Disk, d: Disk, files: Files, f: nat, root0: Root, root: Root, data: seq<byte>)
    requires WriteDone(geo, d0, files[f := root0], d, files[f := root], f, 0, data)
    ensures OthersSame(geo, d0, d, files, f)
  {
    hide ByteAt;
    hide RootOk;
    hide WriteDone;
    forall g, pos: nat | g in files && g != f
      ensures KeptAt(geo, d0, d, files[g], pos)
    {
      OtherFilesAfterWrite(geo, d0, files[f := root0], d, files[f := root], f, 0, data, g, pos);
    }
  }

  /** The directory's bytes, as ext4_read_extent delivers them. */
  method ReadAll(vol: Volume, e: InodeBuf) returns (buf: seq<byte>)
    requires vol.Ok() && DirOk(vol.geo, vol.disk, e.root, e.size)
    ensures RootOk(vol.geo, vol.disk, e.root) && buf == Content(vol.geo, vol.disk, e.root, e.size)
  {
    hide Formatted;
    hide RootOk;
    hide ByteAt;
    hide DirOk;
    DirParts(vol.geo, vol.disk, e.root, e.size);
    var ok;
    ok, buf := ReadExtent(vol, e, 0, e.size);
  }

  /** ext4_lookup on a directory. */
  method LookupOp(vol: Volume, e: InodeBuf, name: D.Name) returns (r: int, ino: nat)
    requires vol.Ok() && DirOk(vol.geo, vol.disk, e.root, e.size)
    ensures r == 0 || r == -1
    ensures r == 0 <==> name in Names(vol.geo, vol.disk, e.root, e.size)
    ensures r == 0 ==> ino == Names(vol.geo, vol.disk, e.root, e.size)[name]
  {
    hide Sound;
    hide Formatted;
    hide RootOk;
    hide NoHoles;
    hide DirOk;
    hide OthersSame;
    hide Names;
    hide ByteAt;
    hide D.Chained;
    hide D.Tiled;
    hide D.Entries;
    hide D.Table;
    hide D.Unique;
    hide D.Added;
    hide D.Dropped;
    hide D.HasRoom;
    hide D.MergedLen;
    DirParts(vol.geo, vol.disk, e.root, e.size);
    var buf := ReadAll(vol, e);
    r, ino := D.Lookup(buf, name);
  }

  /** There is a block for the file block right behind the end: already mapped, or to be had. */
  ghost predicate CanGrow(geo: Geometry, d: Disk, root: Root, size: nat) {
    && RootOk(geo, d, root) && geo.bs > 0
    && (PhysAt(geo, d, root, Div(size, geo.bs)) != 0 || (!Full(geo, d) && CanAppend(root)))
  }

  /** A rewrite that appends one block is complete exactly when there is a block for it. */
  lemma GrowsExactly(geo: Geometry, d0: Disk, files0: Files, f: nat, size: nat, d: Disk, root: Root, n: nat)
    requires f in files0 && RootOk(geo, d0, files0[f]) && NoHoles(geo, d0, files0[f], size)
    requires geo.bs > 0 && Mod(size, geo.bs) == 0 && n <= size + geo.bs
    requires Decided(geo, d0, files0[f], d, root, Div(0, geo.bs), AfterLast(geo, 0, size + geo.bs), n == size + geo.bs, AfterLast(geo, 0, n))
    requires n < size + geo.bs ==> n == size && Unmapped(geo, d0, files0, f, Div(n, geo.bs))
    ensures n == size + geo.bs <==> CanGrow(geo, d0, files0[f], size)
  {
    hide RootOk;
    hide PhysAt;
    hide Full;
    hide CanAppend;
    hide LowestFree;
    var k := Div(size, geo.bs);
    Ends(geo, size);
    if PhysAt(geo, d0, files0[f], k) == 0 {
      forall x: nat | x < k
        ensures PhysAt(geo, d0, files0[f], x) != 0
      {
        var pos := Starts(geo, size, x);
      }
      assert FirstHole(geo, d0, files0[f], 0, k + 1, k);
    }
  }

  /** The blocks of a file of whole blocks, and of one a block longer. */
  lemma Ends(geo: Geometry, size: nat)
    requires geo.bs > 0 && Mod(size, geo.bs) == 0
    ensures Div(0, geo.bs) == 0 && AfterLast(geo, 0, size) == Div(size, geo.bs) && AfterLast(geo, 0, size + geo.bs) == Div(size, geo.bs) + 1
  {
    SamePage(geo.bs, size, size + geo.bs - 1, geo.bs);
    if size > 0 {
      assert size >= geo.bs && Div(size, geo.bs) == 1 + Div(size - geo.bs, geo.bs) && Mod(size - geo.bs, geo.bs) == 0;
      SamePage(geo.bs, size - geo.bs, size - 1, geo.bs);
    }
  }

  /** A position of each file block before the end. */
  lemma Starts(geo: Geometry, size: nat, x: nat) returns (pos: nat)
    requires geo.bs > 0 && x < Div(size, geo.bs)
    ensures pos < size && Div(pos, geo.bs) == x
  {
    pos := Mul(x, geo.bs);
    Join(x, 0, geo.bs);
    Split(size, geo.bs);
    MulMono(x, Div(size, geo.bs), geo.bs);
  }

  /** Writes `out` from the start: either all of it is there afterwards, or the volume had no
      block for the new end and the directory reads as before. */
  method WriteBack(vol: Volume, e: InodeBuf, out: seq<byte>, ghost files: Files, ghost f: nat) returns (ghost all: bool)
    requires Live(vol, e, files, f) && DirOk(vol.geo, vol.disk, e.root, e.size)
    requires |out| == e.size || (|out| == e.size + vol.geo.bs && Content(vol.geo, vol.disk, e.root, e.size) == out[..e.size])
    modifies vol, e
    ensures Live(vol, e, files, f) && RootOk(vol.geo, vol.disk, e.root) && NoHoles(vol.geo, vol.disk, e.root, e.size)
    ensures e.size == if all then |out| else old(e.size)
    ensures Content(vol.geo, vol.disk, e.root, e.size) == if all then out else old(Content(vol.geo, vol.disk, e.root, e.size))
    ensures all <==> |out| == old(e.size) || CanGrow(vol.geo, old(vol.disk), old(e.root), old(e.size))
    ensures OthersSame(vol.geo, old(vol.disk), vol.disk, files, f)
  {
    hide Sound;
    hide Formatted;
    hide RootOk;
    hide ByteAt;
    hide PhysAt;
    hide DirOk;
    hide NoHoles;
    hide WriteDone;
    hide Full;
    hide CanAppend;
    hide Unmapped;
    hide OthersSame;
    hide AfterLast;
    hide Decided;
    hide CanGrow;
    hide Div;
    hide Mod;
    DirParts(vol.geo, vol.disk, e.root, e.size);
    hide Content;
    ghost var d0, root0, size, geo := vol.disk, e.root, e.size, vol.geo;
    assert Effective(root0) == root0;
    var n := WriteExtent(vol, e, out, 0, files, f);
    WroteBack(geo, d0, files, f, root0, size, vol.disk, e.root, out, n);
    all := n == |out|;
  }

  /** What WriteBack leaves, from what the write did. */
  lemma WroteBack(geo: Geometry, d0: Disk, files: Files, f: nat, root0: Root, size: nat, d: Disk, root: Root, out: seq<byte>, n: nat)
    requires DirOk(geo, d0, root0, size) && n <= |out|
    requires RootOk(geo, d0, root0) && (|out| == size || (|out| == size + geo.bs && Content(geo, d0, root0, size) == out[..size]))
    requires geo.bs > 0 && WriteDone(geo, d0, files[f := root0], d, files[f := root], f, 0, out[..n])
    requires n < |out| ==> Unmapped(geo, d0, files[f := root0], f, Div(n, geo.bs)) && AfterLast(geo, 0, n) == Div(n, geo.bs)
    requires Decided(geo, d0, root0, d, root, Div(0, geo.bs), AfterLast(geo, 0, |out|), n == |out|, AfterLast(geo, 0, n))
    ensures RootOk(geo, d, root) && NoHoles(geo, d, root, n) && Content(geo, d, root, n) == if n == |out| then out else Content(geo, d0, root0, size)
    ensures n == |out| || (n == size && |out| > size)
    ensures n == |out| <==> |out| == size || CanGrow(geo, d0, root0, size)
    ensures OthersSame(geo, d0, d, files, f)
  {
    hide RootOk;
    hide ByteAt;
    hide PhysAt;
    hide DirOk;
    hide NoHoles;
    hide WriteDone;
    hide CanAppend;
    hide Unmapped;
    hide OthersSame;
    hide AfterLast;
    hide Decided;
    hide CanGrow;
    hide Content;
    hide Names;
    hide D.Tiled;
    hide D.Chained;
    hide D.Entries;
    hide D.Unique;
    hide D.Table;
    hide Div;
    hide Mod;
    DirParts(geo, d0, root0, size);
    var fs0 := files[f := root0];
    if n < |out| { StopsAtEnd(geo, d0, fs0, f, size, n, |out|); }
    if |out| > size { GrowsExactly(geo, d0, fs0, f, size, d, root, n); }
    Rewritten(geo, d0, fs0, d, files[f := root], f, out[..n]);
    OthersAfter(geo, d0, d, files, f, root0, root, out[..n]);
    if n == |out| { assert out[..n] == out; }
  }

  /** ext4_add_dir_entry for an absent name. It always returns 0; the name is added if and only if
      some record has room for it or there is a block to append, and otherwise the directory is
      left as it was. */
  method AddOp(vol: Volume, e: InodeBuf, name: D.Name, ino: nat, kind: byte, ghost files: Files, ghost f: nat)
    returns (r: int, ghost added: bool)
    requires Live(vol, e, files, f) && DirOk(vol.geo, vol.disk, e.root, e.size) && e.size + 2 * vol.geo.bs < TWO32
    requires 0 < ino < TWO32 && |name| <= 255 && name !in Names(vol.geo, vol.disk, e.root, e.size)
    requires D.Span(255) <= vol.geo.bs < TWO16
    modifies vol, e
    ensures Live(vol, e, files, f) && DirOk(vol.geo, vol.disk, e.root, e.size)
    ensures Names(vol.geo, vol.disk, e.root, e.size) ==
            var before := old(Names(vol.geo, vol.disk, e.root, e.size)); if added then before[name := ino] else before
    ensures r == 0
    ensures added <==> Roomy(vol.geo, old(vol.disk), old(e.root), old(e.size), |name|) || CanGrow(vol.geo, old(vol.disk), old(e.root), old(e.size))
    ensures OthersSame(vol.geo, old(vol.disk), vol.disk, files, f)
  {
    hide Sound;
    hide Formatted;
    hide RootOk;
    hide NoHoles;
    hide DirOk;
    hide OthersSame;
    hide Names;
    hide ByteAt;
    hide D.Chained;
    hide D.Tiled;
    hide D.Entries;
    hide D.Table;
    hide D.Unique;
    hide D.Added;
    hide D.Dropped;
    hide D.HasRoom;
    hide D.MergedLen;
    hide D.Span;
    hide Full;
    hide CanAppend;
    hide CanGrow;
    hide Mod;
    DirParts(vol.geo, vol.disk, e.root, e.size);
    var buf := ReadAll(vol, e);
    var out, at := D.AddEntry(buf, ino, name, kind, vol.geo.bs);
    D.AddedTable(buf, out, at, D.Entry(name, ino, kind));
    D.AddedChained(buf, out, at, D.Entry(name, ino, kind));
    ghost var size := e.size;
    Longer(size, vol.geo.bs);
    added := WriteBack(vol, e, out, files, f);
    DirWhole(vol.geo, vol.disk, e.root, e.size);
    r := 0;
  }

  /** Some record of the directory has room for a name of n bytes. */
  ghost predicate Roomy(geo: Geometry, d: Disk, root: Root, size: nat, n: nat)
    requires DirOk(geo, d, root, size)
  {
    D.HasRoom(Content(geo, d, root, size), D.Span(n))
  }

  lemma Longer(size: nat, bs: nat)
    requires bs > 0
    ensures Mod(size + bs, bs) == Mod(size, bs)
  {
  }

  /** ext4_unlink_op, when the two record lengths it adds fit 16 bits: always under 64 KiB. */
  method UnlinkOp(vol: Volume, e: InodeBuf, name: D.Name, ghost files: Files, ghost f: nat) returns (r: int)
    requires Live(vol, e, files, f) && DirOk(vol.geo, vol.disk, e.root, e.size)
    requires Merge(vol.geo, vol.disk, e.root, e.size, name) < TWO16
    modifies vol, e
    ensures Live(vol, e, files, f) && DirOk(vol.geo, vol.disk, e.root, e.size)
    ensures r == 0 || r == -1
    ensures r == 0 <==> name in old(Names(vol.geo, vol.disk, e.root, e.size))
    ensures Names(vol.geo, vol.disk, e.root, e.size) == old(Names(vol.geo, vol.disk, e.root, e.size)) - {name}
    ensures r == -1 ==> vol.disk == old(vol.disk)
    ensures r == 0 ==> OthersSame(vol.geo, old(vol.disk), vol.disk, files, f)
  {
    hide Sound;
    hide Formatted;
    hide RootOk;
    hide NoHoles;
    hide DirOk;
    hide OthersSame;
    hide Names;
    hide ByteAt;
    hide D.Chained;
    hide D.Tiled;
    hide D.Entries;
    hide D.Table;
    hide D.Unique;
    hide D.Added;
    hide D.Dropped;
    hide D.HasRoom;
    hide D.MergedLen;
    DirParts(vol.geo, vol.disk, e.root, e.size);
    var buf := ReadAll(vol, e);
    var out: seq<byte>;
    ghost var at: nat;
    r, out, at := D.Unlink(buf, name);
    if r == 0 {
      D.DroppedTable(buf, out, at, name);
      D.DroppedChained(buf, out, at);
      ghost var all := WriteBack(vol, e, out, files, f);
      DirWhole(vol.geo, vol.disk, e.root, e.size);
    }
  }

  /** The record length that unlinking the name stores. */
  ghost function Merge(geo: Geometry, d: Disk, root: Root, size: nat, name: D.Name): (r: nat)
    requires DirOk(geo, d, root, size)
    ensures r <= size
  {
    D.MergedBound(Content(geo, d, root, size), 0, name);
    D.MergedLen(Content(geo, d, root, size), 0, name)
  }
}
