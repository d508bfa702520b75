/** Nodes of the extent tree written out byte by byte, as the structures of the on-disk format lay
    them out, and the proof that the driver reads back what was written: an index node whose
    entries name well-formed children holds exactly the children's extents, in order. */
module Ext4Layout {
  import opened Bytes
  import opened Volumes
  import opened Ext4Tree

  function Le16(v: nat): (r: seq<byte>)
    requires v < TWO16
    ensures |r| == 2
  {
    [v % 256, v / 256]
  }

  function Le32(v: nat): (r: seq<byte>)
    requires v < TWO32
    ensures |r| == 4
  {
    Le16(v % TWO16) + Le16(v / TWO16)
  }

  lemma Le16Reads(a: seq<byte>, v: nat, z: seq<byte>)
    requires v < TWO16
    ensures U16(a + Le16(v) + z, |a|) == v
  {
    var s := a + Le16(v) + z;
    assert s[|a|] == Le16(v)[0] && s[|a| + 1] == Le16(v)[1];
  }

  lemma Le32Reads(a: seq<byte>, v: nat, z: seq<byte>)
    requires v < TWO32
    ensures U32(a + Le32(v) + z, |a|) == v
  {
    var s, lo, hi := a + Le32(v) + z, Le16(v % TWO16), Le16(v / TWO16);
    assert s[|a|] == lo[0] && s[|a| + 1] == lo[1] && s[|a| + 2] == hi[0] && s[|a| + 3] == hi[1];
  }

  // ----- the header: eh_magic, eh_entries, eh_max, eh_depth, eh_generation -----

  datatype Header = Header(entries: nat, max: nat, depth: nat, generation: nat) {
    predicate Ok() { entries < TWO16 && max < TWO16 && depth < TWO16 && generation < TWO16 }

    function Written(): (r: seq<byte>)
      requires Ok()
      ensures |r| == 10
    {
      [0x0A, 0xF3] + Le16(entries) + Le16(max) + Le16(depth) + Le16(generation)
    }
  }

  lemma MagicBytes()
    ensures Le16(MAGIC) == [0x0A, 0xF3]
  {
  }

  lemma HeaderReads(h: Header, z: seq<byte>)
    requires h.Ok()
    ensures var b := h.Written() + z;
            U16(b, 0) == MAGIC && Entries(b) == h.entries && MaxEntries(b) == h.max && Depth(b) == h.depth
  {
    hide U16;
    hide Le16;
    var b := h.Written() + z;
    var m, e, x, d, g: seq<byte> := [0x0A, 0xF3], Le16(h.entries), Le16(h.max), Le16(h.depth), Le16(h.generation);
    MagicBytes();
    Le16Reads([], MAGIC, e + x + d + g + z);
    assert b == [] + m + (e + x + d + g + z);
    Le16Reads(m, h.entries, x + d + g + z);
    assert b == m + e + (x + d + g + z);
    Le16Reads(m + e, h.max, d + g + z);
    assert b == m + e + x + (d + g + z);
    Le16Reads(m + e + x, h.depth, g + z);
    assert b == m + e + x + d + (g + z);
  }

  // ----- entries: ei_block, ei_leaf_lo, ei_leaf_hi, ei_unused; ee_block, ee_len, ee_start_hi, ee_start_lo -----

  datatype Index = Index(key: nat, leafLo: nat, leafHi: nat, unused: nat) {
    predicate Ok() { key < TWO32 && leafLo < TWO32 && leafHi < TWO16 && unused < TWO16 }

    function Written(): (r: seq<byte>)
      requires Ok()
      ensures |r| == 12
    {
      Le32(key) + Le32(leafLo) + Le16(leafHi) + Le16(unused)
    }
  }

  predicate Storable(e: Extent) { e.block < TWO32 && e.len < TWO16 && e.start < TWO16 * TWO32 }

  function ExtentWritten(e: Extent): (r: seq<byte>)
    requires Storable(e)
    ensures |r| == 12
  {
    Le32(e.block) + Le16(e.len) + Le16(e.start / TWO32) + Le32(e.start % TWO32)
  }

  lemma IndexReads(a: seq<byte>, e: Index, z: seq<byte>, i: nat)
    requires e.Ok() && |a| == 10 + 12 * i
    ensures var b := a + e.Written() + z;
            KeyAt(b, i) == e.key && LeafAt(b, i) == e.leafLo
  {
    hide U32;
    hide Le16;
    hide Le32;
    var b := a + e.Written() + z;
    var k, l, h, u := Le32(e.key), Le32(e.leafLo), Le16(e.leafHi), Le16(e.unused);
    Le32Reads(a, e.key, l + h + u + z);
    assert b == a + k + (l + h + u + z);
    Le32Reads(a + k, e.leafLo, h + u + z);
    assert b == a + k + l + (h + u + z);
  }

  lemma ExtentReads(a: seq<byte>, e: Extent, z: seq<byte>, i: nat)
    requires Storable(e) && |a| == 10 + 12 * i
    ensures ExtentAt(a + ExtentWritten(e) + z, i) == e
  {
    hide U16;
    hide U32;
    hide Le16;
    hide Le32;
    var b := a + ExtentWritten(e) + z;
    var k, n, h, l := Le32(e.block), Le16(e.len), Le16(e.start / TWO32), Le32(e.start % TWO32);
    Le32Reads(a, e.block, n + h + l + z);
    assert b == a + k + (n + h + l + z);
    Le16Reads(a + k, e.len, h + l + z);
    assert b == a + k + n + (h + l + z);
    Le16Reads(a + k + n, e.start / TWO32, l + z);
    assert b == a + k + n + h + (l + z);
    Le32Reads(a + k + n + h, e.start % TWO32, z);
    assert b == a + k + n + h + l + z;
  }

  // ----- nodes -----

  function Packed(ws: seq<seq<byte>>): (r: seq<byte>)
    requires forall w :: w in ws ==> |w| == 12
    ensures |r| == 12 * |ws|
  {
    if ws == [] then [] else ws[0] + Packed(ws[1..])
  }

  /** A node: its header, its entries, and whatever the rest of the block holds. */
  function NodeOf(h: Header, ws: seq<seq<byte>>, rest: seq<byte>): (r: seq<byte>)
    requires h.Ok() && h.entries == |ws| && forall w :: w in ws ==> |w| == 12
    ensures |r| == 10 + 12 * |ws| + |rest|
  {
    h.Written() + Packed(ws) + rest
  }

  lemma {:induction false} PackedConcat(u: seq<seq<byte>>, v: seq<seq<byte>>)
    requires forall w :: w in u + v ==> |w| == 12
    ensures Packed(u + v) == Packed(u) + Packed(v)
  {
    if u == [] {
      assert u + v == v;
    } else {
      assert (u + v)[1..] == u[1..] + v;
      PackedConcat(u[1..], v);
    }
  }

  lemma PackedAt(ws: seq<seq<byte>>, i: nat)
    requires i < |ws| && forall w :: w in ws ==> |w| == 12
    ensures Packed(ws) == Packed(ws[..i]) + ws[i] + Packed(ws[i + 1..])
  {
    assert ws == ws[..i] + ws[i..];
    PackedConcat(ws[..i], ws[i..]);
    assert ws[i..][1..] == ws[i + 1..];
  }

  lemma NodeAt(h: Header, ws: seq<seq<byte>>, rest: seq<byte>, i: nat) returns (a: seq<byte>, z: seq<byte>)
    requires h.Ok() && h.entries == |ws| && i < |ws| && forall w :: w in ws ==> |w| == 12
    ensures |a| == 10 + 12 * i && NodeOf(h, ws, rest) == a + ws[i] + z
  {
    PackedAt(ws, i);
    a, z := h.Written() + Packed(ws[..i]), Packed(ws[i + 1..]) + rest;
  }

  function IndexNode(h: Header, es: seq<Index>, rest: seq<byte>): (r: seq<byte>)
    requires h.Ok() && h.entries == |es| && forall e :: e in es ==> e.Ok()
    ensures |r| == 10 + 12 * |es| + |rest|
  {
    NodeOf(h, seq(|es|, i requires 0 <= i < |es| => es[i].Written()), rest)
  }

  function LeafNode(h: Header, es: seq<Extent>, rest: seq<byte>): (r: seq<byte>)
    requires h.Ok() && h.entries == |es| && forall e :: e in es ==> Storable(e)
    ensures |r| == 10 + 12 * |es| + |rest|
  {
    NodeOf(h, seq(|es|, i requires 0 <= i < |es| => ExtentWritten(es[i])), rest)
  }

  /** A leaf written out reads back as its extents. */
  lemma LeafDecodes(geo: Geometry, d: Disk, h: Header, es: seq<Extent>, rest: seq<byte>)
    requires DiskOk(geo, d) && geo.bs >= HEADER
    requires h.Ok() && h.entries == |es| && h.depth == 0 && forall e :: e in es ==> Storable(e)
    ensures var b := LeafNode(h, es, rest); Depth(b) == 0 && Shape(geo, d, b) && Flat(geo, d, b) == es
  {
    hide ExtentWritten;
    hide ExtentAt;
    hide U16;
    hide Packed;
    var ws := seq(|es|, i requires 0 <= i < |es| => ExtentWritten(es[i]));
    var b := LeafNode(h, es, rest);
    HeaderReads(h, Packed(ws) + rest);
    assert b == h.Written() + (Packed(ws) + rest);
    hide NodeOf;
    forall i | 0 <= i < |es|
      ensures ExtentAt(b, i) == es[i]
    {
      var a, z := NodeAt(h, ws, rest, i);
      ExtentReads(a, es[i], z, i);
    }
  }

  // ----- an index node stands for its children -----

  ghost predicate Children(geo: Geometry, d: Disk, depth: nat, es: seq<Index>)
    requires DiskOk(geo, d) && geo.bs >= HEADER
  {
    forall e :: e in es ==>
      e.Ok() && Depth(Read(geo, d, e.leafLo)) == depth - 1 && Shape(geo, d, Read(geo, d, e.leafLo))
  }

  /** The extents of the children, one child after the other. */
  ghost function Joined(geo: Geometry, d: Disk, depth: nat, es: seq<Index>): seq<Extent>
    requires DiskOk(geo, d) && geo.bs >= HEADER && Children(geo, d, depth, es)
  {
    if es == [] then [] else Flat(geo, d, Read(geo, d, es[0].leafLo)) + Joined(geo, d, depth, es[1..])
  }

  lemma IndexDecodes(h: Header, es: seq<Index>, rest: seq<byte>)
    requires h.Ok() && h.entries == |es| && forall e :: e in es ==> e.Ok()
    ensures var b := IndexNode(h, es, rest);
            && Entries(b) == |es| && Depth(b) == h.depth
            && forall i :: 0 <= i < |es| ==> KeyAt(b, i) == es[i].key && LeafAt(b, i) == es[i].leafLo
  {
    hide KeyAt;
    hide LeafAt;
    hide U16;
    hide Packed;
    hide Index.Written;
    var ws := seq(|es|, i requires 0 <= i < |es| => es[i].Written());
    var b := IndexNode(h, es, rest);
    HeaderReads(h, Packed(ws) + rest);
    assert b == h.Written() + (Packed(ws) + rest);
    hide NodeOf;
    forall i | 0 <= i < |es|
      ensures KeyAt(b, i) == es[i].key && LeafAt(b, i) == es[i].leafLo
    {
      var a, z := NodeAt(h, ws, rest, i);
      IndexReads(a, es[i], z, i);
    }
  }

  /** An index node written out over well-formed children is well-formed, and its extents are the
      extents of the blocks its entries name, in the order of the entries. */
  lemma IndexFlat(geo: Geometry, d: Disk, h: Header, es: seq<Index>, rest: seq<byte>)
    requires DiskOk(geo, d) && geo.bs >= HEADER && Children(geo, d, h.depth, es)
    requires h.Ok() && h.entries == |es| && h.depth > 0
    ensures var b := IndexNode(h, es, rest); Shape(geo, d, b) && Flat(geo, d, b) == Joined(geo, d, h.depth, es)
  {
    hide IndexNode;
    hide LeafAt;
    hide KeyAt;
    IndexDecodes(h, es, rest);
    var b := IndexNode(h, es, rest);
    assert forall i :: 0 <= i < |es| ==> es[i] in es && Child(geo, d, b, i) == Read(geo, d, es[i].leafLo);
    assert Shape(geo, d, b);
    FlatJoined(geo, d, b, es, 0);
    assert es[0..] == es;
  }

  lemma {:induction false} FlatJoined(geo: Geometry, d: Disk, b: seq<byte>, es: seq<Index>, i: nat)
    requires DiskOk(geo, d) && geo.bs >= HEADER && |b| >= HEADER && Shape(geo, d, b) && Depth(b) > 0
    requires Entries(b) == |es| && i <= |es| && Children(geo, d, Depth(b), es)
    requires forall k :: 0 <= k < |es| ==> LeafAt(b, k) == es[k].leafLo
    ensures FlatFrom(geo, d, b, i) == Joined(geo, d, Depth(b), es[i..])
    decreases |es| - i
  {
    hide LeafAt;
    if i < |es| {
      FlatJoined(geo, d, b, es, i + 1);
      assert es[i..][1..] == es[i + 1..] && es[i..][0] == es[i];
    }
  }

  /** One entry, one child: the node's extents are the child's, whatever its key. */
  lemma OneChild(geo: Geometry, d: Disk, h: Header, e: Index, rest: seq<byte>)
    requires DiskOk(geo, d) && geo.bs >= HEADER && Children(geo, d, h.depth, [e])
    requires h.Ok() && h.entries == 1 && h.depth > 0
    ensures var b := IndexNode(h, [e], rest);
            assert e in [e];
            Shape(geo, d, b) && Flat(geo, d, b) == Flat(geo, d, Read(geo, d, e.leafLo))
  {
    IndexFlat(geo, d, h, [e], rest);
    assert e in [e];
    assert [e][1..] == [];
    assert Joined(geo, d, h.depth, [e]) == Flat(geo, d, Read(geo, d, e.leafLo)) + Joined(geo, d, h.depth, []);
  }
}
