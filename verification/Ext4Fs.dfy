/** The ext4 driver over all its files: the inode table, reading and writing through it, and
    whole runs of such operations. */
module Ext4Fs {
  import opened Arith
  import opened Bytes
  import opened Volumes
  import opened Ext4Tree
  import opened Ext4Files
  import opened Ext4IO
  import opened FileModel

  /** The fields of an on-disk inode that say where a file's bytes are. */
  datatype Node = Node(size: nat, root: Root)

  predicate Sized(inodes: map<nat, Node>) {
    forall i :: i in inodes ==> |inodes[i].root| == 60
  }

  /** The extent trees of the files; a root without the magic is an empty tree. */
  function Trees(inodes: map<nat, Node>): Files
    requires Sized(inodes)
  {
    map i | i in inodes :: Effective(inodes[i].root)
  }

  lemma TreesUpdate(inodes: map<nat, Node>, f: nat, node: Node)
    requires Sized(inodes) && f in inodes && |node.root| == 60
    ensures Sized(inodes[f := node]) && Trees(inodes[f := node]) == Trees(inodes)[f := Effective(node.root)]
    ensures Trees(inodes)[f := Effective(inodes[f].root)] == Trees(inodes)
  {
  }

  class Ext4 {
    const vol: Volume
    var inodes: map<nat, Node>

    constructor (vol: Volume, inodes: map<nat, Node>)
      requires vol.Ok() && Sized(inodes) && Sound(vol.geo, vol.disk, Trees(inodes))
      ensures this.vol == vol && this.inodes == inodes && Valid()
    {
      this.vol := vol;
      this.inodes := inodes;
    }

    ghost predicate Valid()
      reads this, vol
    {
      vol.Ok() && Sized(inodes) && Sound(vol.geo, vol.disk, Trees(inodes))
    }

    /** ext4_write_extent: -1 for an unknown inode, else the number n of bytes stored as a 32-bit
        signed value; the inode is written back. */
    method WriteData(ino: nat, offset: nat, buf: seq<byte>) returns (r: int, ghost n: nat)
      requires Valid() && offset + |buf| < TWO32
      modifies this`inodes, vol
      ensures Valid() && inodes.Keys == old(inodes.Keys)
      ensures ino !in old(inodes) ==> r == -1 && inodes == old(inodes) && vol.disk == old(vol.disk)
      ensures ino in old(inodes) ==>
                && n <= |buf| && r == Int32(n) && U16(inodes[ino].root, 0) == MAGIC
                && WriteDone(vol.geo, old(vol.disk), old(Trees(inodes)), vol.disk, Trees(inodes), ino, offset, buf[..n])
                && inodes[ino].size == (if offset + n > old(inodes[ino].size) then offset + n else old(inodes[ino].size))
                && (forall g :: g in inodes && g != ino ==> inodes[g] == old(inodes[g]))
                && Decided(vol.geo, old(vol.disk), Effective(old(inodes[ino].root)), vol.disk, inodes[ino].root,
                           Div(offset, vol.geo.bs), AfterLast(vol.geo, offset, |buf|), n == |buf|, AfterLast(vol.geo, offset, n))
    {
      hide Sound;
      hide Formatted;
      hide WriteDone;
      hide Decided;
      hide Full;
      hide CanAppend;
      if ino !in inodes { return -1, 0; }
      ghost var files := Trees(inodes);
      TreesUpdate(inodes, ino, inodes[ino]);
      var e := new InodeBuf(inodes[ino].size, inodes[ino].root);
      var stored := WriteExtent(vol, e, buf, offset, files, ino);
      r, n := Int32(stored), stored;
      TreesUpdate(inodes, ino, Node(e.size, e.root));
      inodes := inodes[ino := Node(e.size, e.root)];
    }

    /** ext4_read_extent: -1 for an unknown inode, or for one without the extent magic unless the
        offset is past its end. */
    method ReadData(ino: nat, offset: nat, count: nat) returns (r: int, out: seq<byte>, ghost ok: bool)
      requires Valid() && offset + count < TWO32
      ensures ok <==> ino in inodes && (offset >= inodes[ino].size || U16(inodes[ino].root, 0) == MAGIC)
      ensures !ok ==> r == -1
      ensures ok ==> |out| == (if offset >= inodes[ino].size then 0 else Min(count, inodes[ino].size - offset)) && r == Int32(|out|)
      ensures ok ==> forall i :: 0 <= i < |out| ==>
                RootOk(vol.geo, vol.disk, inodes[ino].root) && out[i] == ByteAt(vol.geo, vol.disk, inodes[ino].root, offset + i)
    {
      hide Sound;
      hide Formatted;
      hide RootOk;
      hide ByteAt;
      if ino !in inodes { return -1, [], false; }
      var e := new InodeBuf(inodes[ino].size, inodes[ino].root);
      RootOkIn(vol.geo, vol.disk, Trees(inodes), ino);
      var done;
      done, out := ReadExtent(vol, e, offset, count);
      r := if done then Int32(|out|) else -1;
      ok := done;
    }
  }

  // ----- runs -----

  /** The byte at pos of file ino where the file is mapped. */
  ghost function ByteOf(geo: Geometry, d: Disk, inodes: map<nat, Node>, ino: nat, pos: nat): Option<byte> {
    if ino in inodes && pos < inodes[ino].size && |inodes[ino].root| == 60 && RootOk(geo, d, inodes[ino].root) &&
       PhysAt(geo, d, inodes[ino].root, Div(pos, geo.bs)) != 0
    then Option.Some(ByteAt(geo, d, inodes[ino].root, pos))
    else Option.None
  }

  ghost function BytesOf(geo: Geometry, d: Disk, inodes: map<nat, Node>): View {
    (ino: nat, pos: nat) => ByteOf(geo, d, inodes, ino, pos)
  }

  /** What a write through the table leaves, as far as the bytes of files go. */
  ghost predicate Saved(geo: Geometry, d0: Disk, inodes0: map<nat, Node>, d: Disk, inodes: map<nat, Node>, f: nat,
                        offset: nat, data: seq<byte>, n: nat) {
    && n <= |data| && f in inodes0 && inodes.Keys == inodes0.Keys && Sized(inodes0) && Sized(inodes)
    && WriteDone(geo, d0, Trees(inodes0), d, Trees(inodes), f, offset, data[..n])
    && inodes[f].size == (if offset + n > inodes0[f].size then offset + n else inodes0[f].size)
    && U16(inodes[f].root, 0) == MAGIC && forall g :: g in inodes && g != f ==> inodes[g] == inodes0[g]
  }

  lemma AfterWrite(geo: Geometry, d0: Disk, inodes0: map<nat, Node>, d: Disk, inodes: map<nat, Node>, f: nat,
                   offset: nat, data: seq<byte>, n: nat, ino: nat, pos: nat, b: Option<byte>)
    requires Saved(geo, d0, inodes0, d, inodes, f, offset, data, n)
    requires Refines(BytesOf(geo, d0, inodes0), ino, pos, b)
    ensures Refines(BytesOf(geo, d, inodes), ino, pos, After(Write(f, offset, data), Outcome(n, []), ino, pos, b))
  {
    hide Saved;
    hide BytesOf;
    if ino == f {
      AfterOwn(geo, d0, inodes0, d, inodes, f, offset, data, n, pos, b);
    } else if b.Some? {
      AfterOther(geo, d0, inodes0, d, inodes, f, offset, data, n, ino, pos, b);
    }
  }

  lemma AfterOwn(geo: Geometry, d0: Disk, inodes0: map<nat, Node>, d: Disk, inodes: map<nat, Node>, f: nat,
                 offset: nat, data: seq<byte>, n: nat, pos: nat, b: Option<byte>)
    requires Saved(geo, d0, inodes0, d, inodes, f, offset, data, n)
    requires Refines(BytesOf(geo, d0, inodes0), f, pos, b)
    ensures Refines(BytesOf(geo, d, inodes), f, pos, After(Write(f, offset, data), Outcome(n, []), f, pos, b))
  {
    hide WriteDone;
    hide RootOk;
    hide PhysAt;
    hide ByteAt;
    hide Div;
    hide U16;
    var files0, files := Trees(inodes0), Trees(inodes);
    assert files[f] == inodes[f].root;
    WriteStays(geo, d0, files0, d, files, f, offset, data[..n], pos);
    if b.Some? { Magical(geo, d0, inodes0[f].root); }
  }

  lemma AfterOther(geo: Geometry, d0: Disk, inodes0: map<nat, Node>, d: Disk, inodes: map<nat, Node>, f: nat,
                   offset: nat, data: seq<byte>, n: nat, ino: nat, pos: nat, b: Option<byte>)
    requires Saved(geo, d0, inodes0, d, inodes, f, offset, data, n) && ino != f
    requires b.Some? && Refines(BytesOf(geo, d0, inodes0), ino, pos, b)
    ensures Refines(BytesOf(geo, d, inodes), ino, pos, b)
  {
    hide WriteDone;
    hide RootOk;
    hide PhysAt;
    hide ByteAt;
    hide Div;
    hide U16;
    var files0, files := Trees(inodes0), Trees(inodes);
    Magical(geo, d0, inodes0[ino].root);
    OtherStays(geo, d0, files0, d, files, f, offset, data[..n], ino, pos);
  }

  lemma Magical(geo: Geometry, d: Disk, root: Root)
    requires RootOk(geo, d, root)
    ensures |root| == 60 && Effective(root) == root
  {
  }

  lemma WriteStays(geo: Geometry, d0: Disk, files0: Files, d: Disk, files: Files, f: nat, offset: nat, data: seq<byte>, pos: nat)
    requires WriteDone(geo, d0, files0, d, files, f, offset, data)
    ensures geo.bs > 0 && f in files0 && f in files && RootOk(geo, d0, files0[f]) && RootOk(geo, d, files[f])
    ensures offset <= pos < offset + |data| ==>
              PhysAt(geo, d, files[f], Div(pos, geo.bs)) != 0 && ByteAt(geo, d, files[f], pos) == data[pos - offset]
    ensures !(offset <= pos < offset + |data|) && PhysAt(geo, d0, files0[f], Div(pos, geo.bs)) != 0 ==>
              PhysAt(geo, d, files[f], Div(pos, geo.bs)) != 0 && ByteAt(geo, d, files[f], pos) == ByteAt(geo, d0, files0[f], pos)
  {
    hide RootOk;
    hide PhysAt;
    hide ByteAt;
    hide OthersKept;
    hide Stored;
    FileAfterWrite(geo, d0, files0, d, files, f, offset, data, pos);
    StoredThere(geo, d0, files0, d, files, f, offset, data, pos);
  }

  lemma OtherStays(geo: Geometry, d0: Disk, files0: Files, d: Disk, files: Files, f: nat, offset: nat, data: seq<byte>, g: nat, pos: nat)
    requires WriteDone(geo, d0, files0, d, files, f, offset, data) && g in files0 && g != f
    ensures geo.bs > 0 && g in files && files[g] == files0[g] && RootOk(geo, d0, files0[g]) && RootOk(geo, d, files[g])
    ensures PhysAt(geo, d, files[g], Div(pos, geo.bs)) == PhysAt(geo, d0, files0[g], Div(pos, geo.bs))
    ensures ByteAt(geo, d, files[g], pos) == ByteAt(geo, d0, files0[g], pos)
  {
    hide RootOk;
    hide PhysAt;
    hide ByteAt;
    hide Stored;
    OtherFilesAfterWrite(geo, d0, files0, d, files, f, offset, data, g, pos);
  }

  method Perform(fs: Ext4, op: Op) returns (out: Outcome)
    requires fs.Valid() && op.Ok(fs.vol.geo.bs) && !op.Resize?
    modifies fs`inodes, fs.vol
    ensures fs.Valid()
    ensures Stepped(BytesOf(fs.vol.geo, old(fs.vol.disk), old(fs.inodes)), BytesOf(fs.vol.geo, fs.vol.disk, fs.inodes), op, out)
    ensures Delivers(BytesOf(fs.vol.geo, old(fs.vol.disk), old(fs.inodes)), op, out)
  {
    if op.Write? {
      out := PerformWrite(fs, op.ino, op.offset, op.data);
    } else {
      out := PerformRead(fs, op.ino, op.offset, op.count);
    }
  }

  method PerformWrite(fs: Ext4, i: nat, offset: nat, data: seq<byte>) returns (out: Outcome)
    requires fs.Valid() && offset + |data| + fs.vol.geo.bs <= TWO32
    modifies fs`inodes, fs.vol
    ensures fs.Valid()
    ensures Stepped(BytesOf(fs.vol.geo, old(fs.vol.disk), old(fs.inodes)), BytesOf(fs.vol.geo, fs.vol.disk, fs.inodes), Write(i, offset, data), out)
  {
    hide Sound;
    hide Formatted;
    hide WriteDone;
    hide Decided;
    hide Refines;
    hide BytesOf;
    assert fs.vol.geo.bs > 0;
    ghost var geo, d0, inodes0 := fs.vol.geo, fs.vol.disk, fs.inodes;
    var r, n := fs.WriteData(i, offset, data);
    out := Outcome(if i in fs.inodes then Count(r) else 0, []);
    if i in fs.inodes {
      forall ino: nat, pos: nat, b: Option<byte> | Refines(BytesOf(geo, d0, inodes0), ino, pos, b)
        ensures Refines(BytesOf(geo, fs.vol.disk, fs.inodes), ino, pos, After(Write(i, offset, data), out, ino, pos, b))
      {
        AfterWrite(geo, d0, inodes0, fs.vol.disk, fs.inodes, i, offset, data, n, ino, pos, b);
      }
    }
  }

  method PerformRead(fs: Ext4, i: nat, offset: nat, count: nat) returns (out: Outcome)
    requires fs.Valid() && offset + count < TWO32
    ensures Stepped(BytesOf(fs.vol.geo, fs.vol.disk, fs.inodes), BytesOf(fs.vol.geo, fs.vol.disk, fs.inodes), Read(i, offset, count), out)
    ensures Delivers(BytesOf(fs.vol.geo, fs.vol.disk, fs.inodes), Read(i, offset, count), out)
  {
    hide Sound;
    hide Formatted;
    hide PhysAt;
    hide ByteAt;
    var r, bytes, ok := fs.ReadData(i, offset, count);
    out := Outcome(r, bytes);
    forall pos: nat, b: Option<byte> | offset <= pos < offset + count && b.Some? && Refines(BytesOf(fs.vol.geo, fs.vol.disk, fs.inodes), i, pos, b)
      ensures Has(Read(i, offset, count), out, pos, b.value)
    {
      assert bytes[pos - offset] == ByteAt(fs.vol.geo, fs.vol.disk, fs.inodes[i].root, offset + (pos - offset));
    }
  }

  /** After any run of writes and reads, every byte of every file that was mapped in the beginning
      or written since is the one last written; and every read of the run delivered those. */
  method Run(fs: Ext4, ops: seq<Op>) returns (outs: seq<Outcome>)
    requires fs.Valid() && forall i :: 0 <= i < |ops| ==> ops[i].Ok(fs.vol.geo.bs) && !ops[i].Resize?
    modifies fs`inodes, fs.vol
    ensures fs.Valid() && |outs| == |ops|
    ensures Tracks(BytesOf(fs.vol.geo, old(fs.vol.disk), old(fs.inodes)), BytesOf(fs.vol.geo, fs.vol.disk, fs.inodes), ops, outs)
    ensures forall i :: 0 <= i < |ops| ==> ReadsLatest(BytesOf(fs.vol.geo, old(fs.vol.disk), old(fs.inodes)), ops, outs, i)
  {
    hide Sound;
    hide Formatted;
    hide Refines;
    hide Tracks;
    hide ReadsLatest;
    hide Stepped;
    hide Delivers;
    hide BytesOf;
    outs := [];
    ghost var geo, v0 := fs.vol.geo, BytesOf(fs.vol.geo, fs.vol.disk, fs.inodes);
    TracksNothing(v0);
    var n := 0;
    while n < |ops|
      invariant n <= |ops| && |outs| == n && fs.Valid()
      invariant Tracks(v0, BytesOf(geo, fs.vol.disk, fs.inodes), ops[..n], outs)
      invariant forall i :: 0 <= i < n ==> ReadsLatest(v0, ops[..n], outs, i)
    {
      ghost var v1 := BytesOf(geo, fs.vol.disk, fs.inodes);
      var out := Perform(fs, ops[n]);
      TracksMore(v0, v1, BytesOf(geo, fs.vol.disk, fs.inodes), ops[..n], outs, ops[n], out);
      assert ops[..n] + [ops[n]] == ops[..n + 1];
      outs := outs + [out];
      n := n + 1;
    }
    assert ops[..n] == ops;
  }
}
