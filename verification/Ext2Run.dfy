/** Whole runs of the ext2 driver: any sequence of writes, truncations and reads on any number
    of files behaves as if every file were a byte array of its own. */
module Ext2Run {
  import opened Arith
  import opened Bytes
  import opened Volumes
  import opened Ext2Tree
  import opened Ext2Map
  import opened Ext2File
  import opened Ext2Truncate
  import opened Ext2Fs
  import opened FileModel

  /** The byte at pos of file ino where the file is mapped. */
  ghost function ByteOf(geo: Geometry, d: Disk, inodes: map<nat, Inode>, ino: nat, pos: nat): Option<byte> {
    if geo.Valid() && DiskOk(geo, d) && ino in inodes && TreeOk(inodes[ino].block) && pos < inodes[ino].size &&
       BlockOf(geo, d, inodes[ino].block, pos) != 0
    then Some(ByteAt(geo, d, inodes[ino].block, pos))
    else None
  }

  ghost function BytesOf(geo: Geometry, d: Disk, inodes: map<nat, Inode>): View {
    (ino: nat, pos: nat) => ByteOf(geo, d, inodes, ino, pos)
  }

  // ----- one operation -----

  lemma AfterWrite(geo: Geometry, d0: Disk, inodes0: map<nat, Inode>, d: Disk, inodes: map<nat, Inode>, f: nat,
                   offset: nat, data: seq<byte>, n: nat, ino: nat, pos: nat, b: Option<byte>)
    requires n <= |data| && n < TWO31 && f in inodes0 && inodes.Keys == inodes0.Keys
    requires WriteDone(geo, d0, Trees(inodes0), d, Trees(inodes), f, offset, data[..n])
    requires inodes[f].size == if offset + n > inodes0[f].size then offset + n else inodes0[f].size
    requires forall g :: g in inodes && g != f ==> inodes[g] == inodes0[g]
    requires Refines(BytesOf(geo, d0, inodes0), ino, pos, b)
    ensures Refines(BytesOf(geo, d, inodes), ino, pos, After(Write(f, offset, data), Outcome(n, []), ino, pos, b))
  {
    hide Wrote;
    hide BlockOf;
    hide ByteAt;
    var files0, files := Trees(inodes0), Trees(inodes);
    WroteTrees(geo, d0, files0, d, files, f, offset, data[..n]);
    if ino == f {
      WriteStays(geo, d0, files0, d, files, f, offset, data[..n], pos);
    } else if ino in inodes0 {
      OtherFilesAfterWrite(geo, d0, files0, d, files, f, offset, data[..n], ino, pos);
    }
  }

  /** The same for a write of 2^31 bytes or more, whose inode is not written back. */
  lemma AfterUnsaved(geo: Geometry, d0: Disk, d: Disk, inodes: map<nat, Inode>, f: nat,
                     offset: nat, data: seq<byte>, n: nat, ino: nat, pos: nat, b: Option<byte>)
    requires TWO31 <= n <= |data| && n < TWO32 && f in inodes && geo.Valid() && DiskOk(geo, d)
    requires Unsaved(geo, d0, Trees(inodes), d, f, offset, data[..n])
    requires Refines(BytesOf(geo, d0, inodes), ino, pos, b)
    ensures Refines(BytesOf(geo, d, inodes), ino, pos, After(Write(f, offset, data), Outcome(Int32(n), []), ino, pos, b))
  {
    hide WriteDone;
    hide BlockOf;
    hide ByteAt;
    if b.Some? {
      var files := Trees(inodes);
      if ino == f {
        UnsavedBytes(geo, d0, files, d, f, offset, data[..n], pos);
      } else {
        var grown :| UnsavedAs(geo, d0, files, d, f, offset, data[..n], grown);
        OtherFilesAfterWrite(geo, d0, files, d, files[f := grown], f, offset, data[..n], ino, pos);
      }
    }
  }

  lemma WroteTrees(geo: Geometry, d0: Disk, files0: Files, d: Disk, files: Files, f: nat, offset: nat, data: seq<byte>)
    requires WriteDone(geo, d0, files0, d, files, f, offset, data)
    ensures geo.Valid() && DiskOk(geo, d0) && DiskOk(geo, d) && f in files0 && f in files && TreeOk(files0[f]) && TreeOk(files[f])
  {
  }

  lemma WriteStays(geo: Geometry, d0: Disk, files0: Files, d: Disk, files: Files, f: nat, offset: nat, data: seq<byte>, pos: nat)
    requires WriteDone(geo, d0, files0, d, files, f, offset, data)
    requires f in files0 && f in files && TreeOk(files0[f]) && TreeOk(files[f]) && geo.Valid() && DiskOk(geo, d0) && DiskOk(geo, d)
    ensures offset <= pos < offset + |data| ==>
              BlockOf(geo, d, files[f], pos) != 0 && ByteAt(geo, d, files[f], pos) == data[pos - offset]
    ensures !(offset <= pos < offset + |data|) && BlockOf(geo, d0, files0[f], pos) != 0 ==>
              BlockOf(geo, d, files[f], pos) != 0 && ByteAt(geo, d, files[f], pos) == ByteAt(geo, d0, files0[f], pos)
  {
    hide PtrsKept;
    hide BlockOf;
    hide ByteAt;
    FileAfterWrite(geo, d0, files0, d, files, f, offset, data, pos);
    StillMapped(geo, d0, files0, d, files, f, offset, data, Div(offset, geo.bs), AfterLast(geo, offset, |data|), pos);
    assert StoredAt(geo, d0, d, files[f], offset, data, pos);
  }

  lemma AfterResize(geo: Geometry, d0: Disk, inodes0: map<nat, Inode>, d: Disk, inodes: map<nat, Inode>, f: nat, size: nat,
                    done: seq<Slot>, ino: nat, pos: nat, b: Option<byte>)
    requires Sound(geo, d0, Trees(inodes0)) && f in inodes0 && inodes.Keys == inodes0.Keys && geo.Valid() && DiskOk(geo, d)
    requires inodes[f].size == size && forall g :: g in inodes && g != f ==> inodes[g] == inodes0[g]
    requires size >= inodes0[f].size ==> d == d0 && inodes[f].block == inodes0[f].block
    requires size < inodes0[f].size ==>
               var cut := CutFor(geo, inodes0[f].size, size);
               && TreeOk(inodes0[f].block) && Ptrs(geo) > 0
               && Shrunk(geo, d0, inodes0[f].block, d, done, Releasing(cut)) && inodes[f].block == CutTree(cut, inodes0[f].block)
    requires Refines(BytesOf(geo, d0, inodes0), ino, pos, b)
    ensures Refines(BytesOf(geo, d, inodes), ino, pos, After(Resize(f, size), Outcome(0, []), ino, pos, b))
  {
    hide Shrunk;
    hide Sound;
    hide BlockOf;
    hide ByteAt;
    if b.Some? && size < inodes0[f].size && !(ino == f && pos >= size) {
      var files, cut := Trees(inodes0), CutFor(geo, inodes0[f].size, size);
      if ino == f { BelowCut(geo, pos, size); }
      TruncateKeepsBytes(geo, d0, files, f, d, done, cut, ino, pos);
    }
  }

  lemma BelowCut(geo: Geometry, pos: nat, size: nat)
    requires geo.bs > 0 && pos < size
    ensures Div(pos, geo.bs) < Blocks(geo, size)
  {
    DivMono(pos, size - 1, geo.bs);
  }

  // ----- runs -----

  ghost predicate SizesOk(geo: Geometry, inodes: map<nat, Inode>) {
    forall i :: i in inodes ==> inodes[i].size + geo.bs <= TWO32
  }

  /** A resize that cuts a file where the cut is not clean: the one thing that can break a volume. */
  predicate UncleanCut(geo: Geometry, d: Disk, inodes: map<nat, Inode>, op: Op)
    requires geo.Valid() && DiskOk(geo, d)
  {
    op.Resize? && op.ino in inodes && op.size < inodes[op.ino].size && TreeOk(inodes[op.ino].block) &&
    !Clean(geo, d, inodes[op.ino].block, CutFor(geo, inodes[op.ino].size, op.size))
  }

  method Perform(fs: Ext2, op: Op) returns (out: Outcome)
    requires fs.Valid() && SizesOk(fs.vol.geo, fs.inodes) && fs.vol.geo.bs > 0 && op.Ok(fs.vol.geo.bs)
    requires !UncleanCut(fs.vol.geo, fs.vol.disk, fs.inodes, op)
    modifies fs`inodes, fs.vol
    ensures fs.Valid() && SizesOk(fs.vol.geo, fs.inodes)
    ensures Stepped(BytesOf(fs.vol.geo, old(fs.vol.disk), old(fs.inodes)), BytesOf(fs.vol.geo, fs.vol.disk, fs.inodes), op, out)
    ensures Delivers(BytesOf(fs.vol.geo, old(fs.vol.disk), old(fs.inodes)), op, out)
  {
    hide Sound;
    hide Formatted;
    hide WriteDone;
    hide Shrunk;
    hide Clean;
    hide Refines;
    hide Full;
    match op
    case Write(i, offset, data) =>
      out := PerformWrite(fs, i, offset, data);
    case Resize(i, size) =>
      out := PerformResize(fs, i, size);
    case Read(i, offset, count) =>
      out := PerformRead(fs, i, offset, count);
  }

  method PerformWrite(fs: Ext2, i: nat, offset: nat, data: seq<byte>) returns (out: Outcome)
    requires fs.Valid() && SizesOk(fs.vol.geo, fs.inodes) && offset + |data| + fs.vol.geo.bs <= TWO32 && fs.vol.geo.bs > 0
    modifies fs`inodes, fs.vol
    ensures fs.Valid() && SizesOk(fs.vol.geo, fs.inodes)
    ensures Stepped(BytesOf(fs.vol.geo, old(fs.vol.disk), old(fs.inodes)), BytesOf(fs.vol.geo, fs.vol.disk, fs.inodes), Write(i, offset, data), out)
  {
    hide Sound;
    hide Formatted;
    hide WriteDone;
    hide Refines;
    hide Full;
    ghost var geo, d0, inodes0 := fs.vol.geo, fs.vol.disk, fs.inodes;
    var r, n := fs.WriteData(i, offset, data);
    out := Outcome(r, []);
    forall ino: nat, pos: nat, b: Option<byte> | Refines(BytesOf(geo, d0, inodes0), ino, pos, b)
      ensures Refines(BytesOf(geo, fs.vol.disk, fs.inodes), ino, pos, After(Write(i, offset, data), out, ino, pos, b))
    {
      if i !in inodes0 {
        NoFile(geo, d0, inodes0, i, pos, b);
      } else if n < TWO31 {
        AfterWrite(geo, d0, inodes0, fs.vol.disk, fs.inodes, i, offset, data, n, ino, pos, b);
      } else {
        AfterUnsaved(geo, d0, fs.vol.disk, fs.inodes, i, offset, data, n, ino, pos, b);
      }
    }
  }

  /** A file that does not exist has no bytes. */
  lemma NoFile(geo: Geometry, d: Disk, inodes: map<nat, Inode>, ino: nat, pos: nat, b: Option<byte>)
    requires ino !in inodes
    ensures Refines(BytesOf(geo, d, inodes), ino, pos, b) ==> b.None?
  {
  }

  method PerformResize(fs: Ext2, i: nat, size: nat) returns (out: Outcome)
    requires fs.Valid() && SizesOk(fs.vol.geo, fs.inodes) && fs.vol.geo.bs > 0 && size + fs.vol.geo.bs <= TWO32
    requires !UncleanCut(fs.vol.geo, fs.vol.disk, fs.inodes, Resize(i, size))
    modifies fs`inodes, fs.vol
    ensures fs.Valid() && SizesOk(fs.vol.geo, fs.inodes)
    ensures Stepped(BytesOf(fs.vol.geo, old(fs.vol.disk), old(fs.inodes)), BytesOf(fs.vol.geo, fs.vol.disk, fs.inodes), Resize(i, size), out)
  {
    hide Sound;
    hide Formatted;
    hide Shrunk;
    hide Refines;
    ghost var geo, d0, inodes0 := fs.vol.geo, fs.vol.disk, fs.inodes;
    var r, done := fs.TruncateFile(i, size);
    out := Outcome(r, []);
    if r == 0 {
      forall ino: nat, pos: nat, b: Option<byte> | Refines(BytesOf(geo, d0, inodes0), ino, pos, b)
        ensures Refines(BytesOf(geo, fs.vol.disk, fs.inodes), ino, pos, After(Resize(i, size), out, ino, pos, b))
      {
        AfterResize(geo, d0, inodes0, fs.vol.disk, fs.inodes, i, size, done, ino, pos, b);
      }
    }
  }

  method PerformRead(fs: Ext2, i: nat, offset: nat, count: nat) returns (out: Outcome)
    requires fs.Valid() && offset + count < TWO32
    ensures Stepped(BytesOf(fs.vol.geo, fs.vol.disk, fs.inodes), BytesOf(fs.vol.geo, fs.vol.disk, fs.inodes), Read(i, offset, count), out)
    ensures Delivers(BytesOf(fs.vol.geo, fs.vol.disk, fs.inodes), Read(i, offset, count), out)
  {
    hide Sound;
    hide Formatted;
    hide BlockOf;
    hide ByteAt;
    hide ReadByte;
    var found, bytes := fs.ReadData(i, offset, count);
    out := Outcome(if found then |bytes| else -1, bytes);
    forall pos: nat, b: Option<byte> | offset <= pos < offset + count && b.Some? && Refines(BytesOf(fs.vol.geo, fs.vol.disk, fs.inodes), i, pos, b)
      ensures Has(Read(i, offset, count), out, pos, b.value)
    {
      ReadsMapped(fs.vol.geo, fs.vol.disk, fs.inodes[i].block, pos);
      assert bytes[pos - offset] == ReadByte(fs.vol.geo, fs.vol.disk, fs.inodes[i].block, offset + (pos - offset));
    }
  }

  /** After any run, every byte of every file that was mapped in the beginning or written since,
      and not cut off, is the one last written; and every read of the run delivered those. The
      run goes through unless it comes to a cut that is not clean at that moment. */
  method Run(fs: Ext2, ops: seq<Op>) returns (outs: seq<Outcome>)
    requires fs.Valid() && SizesOk(fs.vol.geo, fs.inodes) && fs.vol.geo.bs > 0
    requires forall i :: 0 <= i < |ops| ==> ops[i].Ok(fs.vol.geo.bs)
    modifies fs`inodes, fs.vol
    ensures fs.Valid() && |outs| <= |ops|
    ensures |outs| < |ops| ==> UncleanCut(fs.vol.geo, fs.vol.disk, fs.inodes, ops[|outs|])
    ensures Tracks(BytesOf(fs.vol.geo, old(fs.vol.disk), old(fs.inodes)), BytesOf(fs.vol.geo, fs.vol.disk, fs.inodes), ops[..|outs|], outs)
    ensures forall i :: 0 <= i < |outs| ==> ReadsLatest(BytesOf(fs.vol.geo, old(fs.vol.disk), old(fs.inodes)), ops[..|outs|], outs, i)
  {
    hide Sound;
    hide Formatted;
    hide Refines;
    hide Tracks;
    hide ReadsLatest;
    hide Stepped;
    hide Delivers;
    hide SizesOk;
    hide UncleanCut;
    hide BytesOf;
    outs := [];
    ghost var geo, v0 := fs.vol.geo, BytesOf(fs.vol.geo, fs.vol.disk, fs.inodes);
    TracksNothing(v0);
    var n := 0;
    while n < |ops|
      invariant n <= |ops| && |outs| == n && fs.Valid() && SizesOk(geo, fs.inodes)
      invariant Tracks(v0, BytesOf(geo, fs.vol.disk, fs.inodes), ops[..n], outs)
      invariant forall i :: 0 <= i < n ==> ReadsLatest(v0, ops[..n], outs, i)
    {
      if UncleanCut(fs.vol.geo, fs.vol.disk, fs.inodes, ops[n]) { return; }
      ghost var v1 := BytesOf(geo, fs.vol.disk, fs.inodes);
      var out := Perform(fs, ops[n]);
      TracksMore(v0, v1, BytesOf(geo, fs.vol.disk, fs.inodes), ops[..n], outs, ops[n], out);
      assert ops[..n] + [ops[n]] == ops[..n + 1];
      outs := outs + [out];
      n := n + 1;
    }
  }
}
