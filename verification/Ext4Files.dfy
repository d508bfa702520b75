/** ext4 files over their extent trees: which device block holds which file block, who
    owns it, and what allocating, appending an extent and writing data do to that. */
module Ext4Files {
  import opened Bytes
  import opened Volumes
  import opened Ext4Tree

  type Root = seq<byte>              // the 60 bytes of i_block
  type Files = map<nat, Root>

  /** n is the block of some tree node below b. */
  ghost predicate IsNode(geo: Geometry, d: Disk, b: seq<byte>, n: nat)
    requires DiskOk(geo, d) && geo.bs >= HEADER && |b| >= HEADER && Shape(geo, d, b)
    decreases Depth(b)
  {
    Depth(b) > 0 && exists i :: 0 <= i < Entries(b) && (LeafAt(b, i) == n || IsNode(geo, d, Child(geo, d, b, i), n))
  }

  /** Two extents never cover the same file block. */
  ghost predicate Apart(es: seq<Extent>) {
    forall i, j, l: nat :: 0 <= i < j < |es| && es[i].Has(l) ==> !es[j].Has(l)
  }

  /** A tree whose file blocks stay below 2^32 - 1, so that the end of every extent fits 32 bits. */
  ghost predicate RootOk(geo: Geometry, d: Disk, root: Root) {
    && geo.Valid() && DiskOk(geo, d)
    && |root| == 60 && U16(root, 0) == MAGIC && MaxEntries(root) <= 4
    && Shape(geo, d, root) && Ranged(geo, d, root, 0, BLOCKS) && Apart(Flat(geo, d, root))
  }

  /** The device block of file block l, 0 in a hole. */
  ghost function PhysAt(geo: Geometry, d: Disk, root: Root, l: nat): nat
    requires RootOk(geo, d, root)
  {
    match Find(Flat(geo, d, root), l)
    case None => 0
    case Some(p, _) => p
  }

  /** A tree depends on the device only through its node blocks. */
  lemma {:induction false} TreeFrame(geo: Geometry, d: Disk, d': Disk, b: seq<byte>)
    requires DiskOk(geo, d) && DiskOk(geo, d') && geo.bs >= HEADER && |b| >= HEADER && Shape(geo, d, b)
    requires forall n: nat :: IsNode(geo, d, b, n) ==> Read(geo, d', n) == Read(geo, d, n)
    ensures Shape(geo, d', b) && Flat(geo, d', b) == Flat(geo, d, b)
    ensures forall n: nat :: IsNode(geo, d', b, n) == IsNode(geo, d, b, n)
    ensures forall lo, hi :: Ranged(geo, d', b, lo, hi) == Ranged(geo, d, b, lo, hi)
    decreases Depth(b)
  {
    if Depth(b) > 0 {
      forall i | 0 <= i < Entries(b)
        ensures Child(geo, d', b, i) == Child(geo, d, b, i) && Shape(geo, d', Child(geo, d, b, i))
        ensures Flat(geo, d', Child(geo, d, b, i)) == Flat(geo, d, Child(geo, d, b, i))
        ensures forall n: nat :: IsNode(geo, d', Child(geo, d, b, i), n) == IsNode(geo, d, Child(geo, d, b, i), n)
        ensures forall lo, hi :: Ranged(geo, d', Child(geo, d, b, i), lo, hi) == Ranged(geo, d, Child(geo, d, b, i), lo, hi)
      {
        assert IsNode(geo, d, b, LeafAt(b, i));
        forall n: nat | IsNode(geo, d, Child(geo, d, b, i), n)
          ensures Read(geo, d', n) == Read(geo, d, n)
        {
          assert IsNode(geo, d, b, n);
        }
        TreeFrame(geo, d, d', Child(geo, d, b, i));
      }
      assert Shape(geo, d', b);
      FlatFrame(geo, d, d', b, 0);
    }
  }

  lemma {:induction false} FlatFrame(geo: Geometry, d: Disk, d': Disk, b: seq<byte>, i: nat)
    requires DiskOk(geo, d) && DiskOk(geo, d') && geo.bs >= HEADER && |b| >= HEADER
    requires Shape(geo, d, b) && Shape(geo, d', b) && Depth(b) > 0 && i <= Entries(b)
    requires forall j :: 0 <= j < Entries(b) ==> Child(geo, d', b, j) == Child(geo, d, b, j)
    requires forall j :: 0 <= j < Entries(b) ==> Flat(geo, d', Child(geo, d, b, j)) == Flat(geo, d, Child(geo, d, b, j))
    ensures FlatFrom(geo, d', b, i) == FlatFrom(geo, d, b, i)
    decreases Entries(b) - i
  {
    hide Shape;
    hide Depth;
    hide Entries;
    if i < Entries(b) { FlatFrame(geo, d, d', b, i + 1); }
  }

  // ----- appending an extent to the inline leaf -----

  predicate CanAppend(root: Root) {
    |root| == 60 && Depth(root) == 0 && Entries(root) < MaxEntries(root) <= 4
  }

  /** The root with one more extent, of one block, at the end of its leaf. */
  function Append(root: Root, l: nat, b: nat): (r: Root)
    requires CanAppend(root) && l < TWO32 && b < TWO32
    ensures |r| == 60
  {
    var n := Entries(root);
    var at := HEADER + ENTRY * n;
    PutU16(PutU32(PutU16(PutU16(PutU32(root, at, l), at + 4, 1), at + 6, 0), at + 8, b), 2, n + 1)
  }

  lemma AppendDecodes(root: Root, l: nat, b: nat)
    requires CanAppend(root) && l < TWO32 && b < TWO32
    ensures var r := Append(root, l, b);
            && U16(r, 0) == U16(root, 0) && Entries(r) == Entries(root) + 1 && MaxEntries(r) == MaxEntries(root) && Depth(r) == 0
            && Extents(r) == Extents(root) + [Extent(l, 1, b)]
  {
    hide PutU16;
    hide PutU32;
    hide U16;
    hide U32;
    var n := Entries(root);
    var at := HEADER + ENTRY * n;
    var r1 := PutU32(root, at, l);
    var r2 := PutU16(r1, at + 4, 1);
    var r3 := PutU16(r2, at + 6, 0);
    var r4 := PutU32(r3, at + 8, b);
    var r := PutU16(r4, 2, n + 1);
    SameU32(r1, r, at);
    SameU16(r2, r, at + 4);
    SameU16(r3, r, at + 6);
    SameU32(r4, r, at + 8);
    SameU16(root, r, 0);
    SameU16(root, r, 4);
    SameU16(root, r, 6);
    forall i | 0 <= i < n
      ensures ExtentAt(r, i) == ExtentAt(root, i)
    {
      SameExtent(root, r, i);
    }
  }

  lemma SameExtent(b: seq<byte>, b': seq<byte>, i: nat)
    requires HEADER + ENTRY * i + ENTRY <= |b| == |b'|
    requires forall k :: HEADER + ENTRY * i <= k < HEADER + ENTRY * i + ENTRY ==> b'[k] == b[k]
    ensures ExtentAt(b', i) == ExtentAt(b, i)
  {
    var at := HEADER + ENTRY * i;
    SameU32(b, b', at);
    SameU16(b, b', at + 4);
    SameU16(b, b', at + 6);
    SameU32(b, b', at + 8);
  }

  /** Appending block b for the unmapped file block l maps l to b and nothing else. */
  lemma AppendMaps(geo: Geometry, d: Disk, root: Root, l: nat, b: nat)
    requires RootOk(geo, d, root) && CanAppend(root) && l + 1 < TWO32 && 0 < b < TWO32 && PhysAt(geo, d, root, l) == 0
    ensures var r := Append(root, l, b);
            && RootOk(geo, d, r)
            && (forall x: nat :: PhysAt(geo, d, r, x) == if x == l then b else PhysAt(geo, d, root, x))
            && (forall n: nat :: !IsNode(geo, d, r, n))
  {
    hide Append;
    hide U16;
    hide U32;
    hide Find;
    var r := Append(root, l, b);
    AppendDecodes(root, l, b);
    var es, e := Extents(root), Extent(l, 1, b);
    assert Flat(geo, d, r) == es + [e] && Flat(geo, d, root) == es;
    assert Find(es, l) == None by { MappedNonzero(geo, d, root, l); }
    FindNone(es, l);
    AppendApart(es, e);
    assert forall i :: 0 <= i < Entries(r) ==> ExtentAt(r, i) == (es + [e])[i];
    assert forall i :: 0 <= i < |es| ==> ExtentAt(root, i) == es[i];
    forall x: nat
      ensures PhysAt(geo, d, r, x) == if x == l then b else PhysAt(geo, d, root, x)
    {
      FindConcat(es, [e], x);
      FindOne(e, x);
    }
  }

  lemma FindOne(e: Extent, x: nat)
    ensures Find([e], x) == if e.Has(x) then Some(e.start + (x - e.block), e.len - (x - e.block)) else None
  {
    assert [e][1..] == [];
  }

  lemma AppendApart(es: seq<Extent>, e: Extent)
    requires Apart(es) && e.len == 1 && forall i :: 0 <= i < |es| ==> !es[i].Has(e.block)
    ensures Apart(es + [e])
  {
  }

  /** In a hole the search fails; elsewhere it gives a block number that is not 0. */
  lemma MappedNonzero(geo: Geometry, d: Disk, root: Root, l: nat)
    requires RootOk(geo, d, root)
    ensures Find(Flat(geo, d, root), l).Some? ==> 0 < PhysAt(geo, d, root, l) < TWO32
    ensures Find(Flat(geo, d, root), l).Some? ==> l < TWO32
  {
    FlatInRange(geo, d, root, 0, BLOCKS);
    FindBound(Flat(geo, d, root), l);
  }

  lemma {:induction false} FindBound(es: seq<Extent>, l: nat)
    requires forall e :: e in es ==> ExtentOk(e, 0, BLOCKS)
    ensures Find(es, l).Some? ==> 0 < Find(es, l).phys && Find(es, l).phys + Find(es, l).length <= TWO32 && Find(es, l).length > 0
    ensures Find(es, l).Some? ==> l + Find(es, l).length < TWO32
  {
    if es != [] {
      assert ExtentOk(es[0], 0, BLOCKS);
      FindBound(es[1..], l);
    }
  }

  lemma {:induction false} FindAt(es: seq<Extent>, k: nat, l: nat)
    requires Apart(es) && k < |es| && es[k].Has(l)
    ensures Find(es, l) == es[k].From(l)
  {
    if k > 0 {
      assert !es[0].Has(l);
      assert Apart(es[1..]);
      FindAt(es[1..], k - 1, l);
    }
  }

  /** The search of a tree agrees with its extents at every 32-bit block number if and only if
      no extent ends at or past 2^32. */
  lemma SearchExact(geo: Geometry, d: Disk, b: seq<byte>)
    requires DiskOk(geo, d) && geo.bs >= HEADER && |b| >= HEADER && Shape(geo, d, b) && Apart(Flat(geo, d, b))
    ensures (forall l: nat :: l < TWO32 ==> Scan(Flat(geo, d, b), l) == Find(Flat(geo, d, b), l))
            <==> forall e :: e in Flat(geo, d, b) ==> e.block + e.len < TWO32
  {
    hide Apart;
    hide Scan;
    hide Find;
    var es := Flat(geo, d, b);
    FlatDecoded(geo, d, b);
    if k: nat :| k < |es| && es[k].block + es[k].len >= TWO32 {
      assert es[k] in es;
      FindAt(es, k, es[k].block);
      ScanExact(es, es[k].block);
    } else {
      forall l: nat
        ensures Scan(es, l) == Find(es, l)
      {
        ScanExact(es, l);
        FindEnds(es, l);
      }
    }
  }

  lemma {:induction false} FindEnds(es: seq<Extent>, l: nat)
    requires forall e :: e in es ==> e.block + e.len < TWO32
    ensures Find(es, l).Some? ==> l + Find(es, l).length < TWO32
  {
    if es != [] {
      assert es[0] in es;
      FindEnds(es[1..], l);
    }
  }

  /** The rest of the extent a search ends in maps the following file blocks. */
  lemma {:induction false} FindRun(es: seq<Extent>, l: nat, i: nat)
    requires Apart(es) && Find(es, l).Some? && i < Find(es, l).length
    ensures Find(es, l + i) == Some(Find(es, l).phys + i, Find(es, l).length - i)
  {
    if !es[0].Has(l) {
      assert Apart(es[1..]);
      FindRun(es[1..], l, i);
      if es[0].Has(l + i) {
        FindNone(es[1..], l + i);
        assert false;
      }
    }
  }

  // ----- ownership over all files -----

  ghost predicate RootsOk(geo: Geometry, d: Disk, files: Files) {
    forall f :: f in files ==> RootOk(geo, d, files[f])
  }

  /** Tree nodes are marked used and lie outside the layout. */
  ghost predicate NodesClaimed(geo: Geometry, d: Disk, files: Files, used: iset<nat>)
    requires RootsOk(geo, d, files)
  {
    forall f, n: nat :: f in files && IsNode(geo, d, files[f], n) ==> n in used && n !in geo.reserved
  }

  /** Data blocks are marked used, outside the layout, and not tree nodes. */
  ghost predicate DataClaimed(geo: Geometry, d: Disk, files: Files, used: iset<nat>)
    requires RootsOk(geo, d, files)
  {
    forall f, l: nat :: f in files && PhysAt(geo, d, files[f], l) != 0 ==>
      var p := PhysAt(geo, d, files[f], l); p in used && p !in geo.reserved && NotNode(geo, d, files, p)
  }

  ghost predicate NotNode(geo: Geometry, d: Disk, files: Files, p: nat)
    requires RootsOk(geo, d, files)
  {
    forall g :: g in files ==> !IsNode(geo, d, files[g], p)
  }

  /** No device block serves two file blocks, of one file or of two. */
  ghost predicate Unshared(geo: Geometry, d: Disk, files: Files)
    requires RootsOk(geo, d, files)
  {
    forall f, l: nat, g, m: nat ::
      (f in files && g in files && (f, l) != (g, m) && PhysAt(geo, d, files[f], l) != 0) ==>
        PhysAt(geo, d, files[f], l) != PhysAt(geo, d, files[g], m)
  }

  ghost predicate Inv(geo: Geometry, d: Disk, files: Files, used: iset<nat>) {
    && geo.Valid() && DiskOk(geo, d) && RootsOk(geo, d, files)
    && NodesClaimed(geo, d, files, used) && DataClaimed(geo, d, files, used) && Unshared(geo, d, files)
  }

  /** The same mapping and the same nodes on d' as on d. */
  ghost predicate SameTrees(geo: Geometry, d: Disk, d': Disk, files: Files)
    requires RootsOk(geo, d, files)
  {
    && RootsOk(geo, d', files)
    && (forall f, l: nat :: f in files ==> PhysAt(geo, d', files[f], l) == PhysAt(geo, d, files[f], l))
    && (forall f, n: nat :: f in files ==> IsNode(geo, d', files[f], n) == IsNode(geo, d, files[f], n))
  }

  /** Writing a block that is no tree node changes no mapping. */
  lemma WriteKeepsTrees(geo: Geometry, d: Disk, d': Disk, files: Files, w: nat)
    requires RootsOk(geo, d, files) && DiskOk(geo, d') && DiskOk(geo, d) && SameExcept(geo, d, d', w)
    requires NotNode(geo, d, files, w)
    ensures SameTrees(geo, d, d', files)
  {
    forall f | f in files
      ensures RootOk(geo, d', files[f])
      ensures forall l: nat :: PhysAt(geo, d', files[f], l) == PhysAt(geo, d, files[f], l)
      ensures forall n: nat :: IsNode(geo, d', files[f], n) == IsNode(geo, d, files[f], n)
    {
      TreeFrame(geo, d, d', files[f]);
    }
  }

  lemma SameTreesInv(geo: Geometry, d: Disk, d': Disk, files: Files, used: iset<nat>, used': iset<nat>)
    requires Inv(geo, d, files, used) && DiskOk(geo, d') && SameTrees(geo, d, d', files) && used <= used'
    ensures Inv(geo, d', files, used')
  {
    hide RootOk;
    hide IsNode;
    hide PhysAt;
    assert forall p: nat :: NotNode(geo, d, files, p) ==> NotNode(geo, d', files, p);
    forall f, l: nat, g, m: nat | f in files && g in files && (f, l) != (g, m) && PhysAt(geo, d', files[f], l) != 0
      ensures PhysAt(geo, d', files[f], l) != PhysAt(geo, d', files[g], m)
    {
      assert PhysAt(geo, d', files[f], l) == PhysAt(geo, d, files[f], l);
      assert PhysAt(geo, d', files[g], m) == PhysAt(geo, d, files[g], m);
    }
  }

  /** Files with file f's root replaced by one that maps l to b and is otherwise the same. */
  ghost predicate Mapped(geo: Geometry, d: Disk, files: Files, f: nat, root': Root, l: nat, b: nat)
    requires RootsOk(geo, d, files)
  {
    && f in files && RootOk(geo, d, root') && PhysAt(geo, d, files[f], l) == 0
    && (forall x: nat :: PhysAt(geo, d, root', x) == if x == l then b else PhysAt(geo, d, files[f], x))
    && (forall n: nat :: IsNode(geo, d, root', n) ==> IsNode(geo, d, files[f], n))
  }

  /** Appending an extent for a fresh block keeps ownership. */
  lemma MappedInv(geo: Geometry, d: Disk, files: Files, used: iset<nat>, f: nat, root': Root, l: nat, b: nat)
    requires Inv(geo, d, files, used) && Mapped(geo, d, files, f, root', l, b)
    requires b != 0 && b in used && b !in geo.reserved && NotNode(geo, d, files, b)
    requires forall g, m: nat :: g in files ==> PhysAt(geo, d, files[g], m) != b
    ensures Inv(geo, d, files[f := root'], used)
  {
    hide RootOk;
    hide IsNode;
    hide PhysAt;
    var files' := files[f := root'];
    assert forall p: nat :: NotNode(geo, d, files, p) ==> NotNode(geo, d, files', p);
    forall g, m: nat | g in files'
      ensures PhysAt(geo, d, files'[g], m) == if g == f && m == l then b else PhysAt(geo, d, files[g], m)
    {
    }
    forall g, m: nat, h, n: nat | g in files' && h in files' && (g, m) != (h, n) && PhysAt(geo, d, files'[g], m) != 0
      ensures PhysAt(geo, d, files'[g], m) != PhysAt(geo, d, files'[h], n)
    {
      assert PhysAt(geo, d, files'[h], n) == if h == f && n == l then b else PhysAt(geo, d, files[h], n);
    }
  }
}
