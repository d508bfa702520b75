/** The ext2 pointer tree of an inode: twelve direct pointers, one single-indirect block
    and one double-indirect block. Every place a block number can be stored is a Slot, so
    "who owns this block" is a question about slots, whatever their depth. */
module Ext2Tree {
  import opened Bytes
  import opened Volumes

  type Tree = seq<nat>   // i_block[15]

  datatype Slot = Root(k: nat) | Child(parent: Slot, idx: nat)

  /** The pointer tree of each live inode of the volume. */
  type Files = map<nat, Tree>

  function Ptrs(geo: Geometry): nat { geo.bs / 4 }

  predicate TreeOk(tree: Tree) {
    |tree| == 15 && forall k :: 0 <= k < 15 ==> tree[k] < TWO32
  }

  /** The slots the driver reads and writes; i_block[14] is never touched. */
  predicate SlotOk(geo: Geometry, s: Slot) {
    match s
    case Root(k) => k < 14
    case Child(q, i) => i < Ptrs(geo) && IsPointer(q) && SlotOk(geo, q)
  }

  /** Slots whose block holds further pointers rather than file data. */
  predicate IsPointer(s: Slot) {
    match s
    case Root(k) => k == 12 || k == 13
    case Child(q, _) => q == Root(13)
  }

  function PtrAt(geo: Geometry, d: Disk, tree: Tree, s: Slot): (r: nat)
    requires DiskOk(geo, d) && TreeOk(tree) && SlotOk(geo, s)
    ensures r < TWO32
  {
    match s
    case Root(k) => tree[k]
    case Child(q, i) =>
      var p := PtrAt(geo, d, tree, q);
      if p == 0 then 0 else U32(Read(geo, d, p), 4 * i)
  }

  ghost predicate TreesOk(geo: Geometry, d: Disk, files: Files) {
    geo.Valid() && DiskOk(geo, d) && forall f :: f in files ==> TreeOk(files[f])
  }

  /** Every block a file points at is in `used` and is not part of the layout. */
  ghost predicate Claimed(geo: Geometry, d: Disk, files: Files, used: iset<nat>)
    requires TreesOk(geo, d, files)
  {
    forall f, s :: f in files && SlotOk(geo, s) && PtrAt(geo, d, files[f], s) != 0 ==>
      var p := PtrAt(geo, d, files[f], s); p in used && p !in geo.reserved
  }

  /** No block is pointed at twice, within a file or across files. */
  ghost predicate Unshared(geo: Geometry, d: Disk, files: Files)
    requires TreesOk(geo, d, files)
  {
    forall f, s, g, t ::
      (f in files && g in files && SlotOk(geo, s) && SlotOk(geo, t) && (f, s) != (g, t) &&
       PtrAt(geo, d, files[f], s) != 0) ==> PtrAt(geo, d, files[f], s) != PtrAt(geo, d, files[g], t)
  }

  /** The ownership invariant; `used` is the set of blocks the bitmaps mark. */
  ghost predicate Inv(geo: Geometry, d: Disk, files: Files, used: iset<nat>) {
    TreesOk(geo, d, files) && Claimed(geo, d, files, used) && Unshared(geo, d, files)
  }

  /** No slot of any file holds n. */
  ghost predicate Unowned(geo: Geometry, d: Disk, files: Files, n: nat)
    requires TreesOk(geo, d, files)
  {
    forall f, s :: f in files && SlotOk(geo, s) ==> PtrAt(geo, d, files[f], s) != n
  }

  // ----- what a write to one block can change -----

  /** A write to a block no pointer slot holds leaves every pointer as it was. */
  lemma {:induction false} PtrFrame(geo: Geometry, d: Disk, d': Disk, tree: Tree, s: Slot, w: nat)
    requires DiskOk(geo, d) && DiskOk(geo, d') && TreeOk(tree) && SlotOk(geo, s)
    requires SameExcept(geo, d, d', w)
    requires forall a :: SlotOk(geo, a) && IsPointer(a) ==> PtrAt(geo, d, tree, a) != w || w == 0
    ensures PtrAt(geo, d', tree, s) == PtrAt(geo, d, tree, s)
  {
    match s
    case Root(k) =>
    case Child(q, i) => PtrFrame(geo, d, d', tree, q, w);
  }

  ghost predicate SamePtrs(geo: Geometry, d: Disk, d': Disk, files: Files)
    requires TreesOk(geo, d, files) && DiskOk(geo, d')
  {
    forall f, s :: f in files && SlotOk(geo, s) ==> PtrAt(geo, d', files[f], s) == PtrAt(geo, d, files[f], s)
  }

  lemma PtrFrameAll(geo: Geometry, d: Disk, d': Disk, files: Files, w: nat)
    requires TreesOk(geo, d, files) && TreesOk(geo, d', files) && SameExcept(geo, d, d', w)
    requires forall f, s :: f in files && SlotOk(geo, s) && IsPointer(s) ==> PtrAt(geo, d, files[f], s) != w || w == 0
    ensures SamePtrs(geo, d, d', files)
  {
    forall f, s | f in files && SlotOk(geo, s)
      ensures PtrAt(geo, d', files[f], s) == PtrAt(geo, d, files[f], s)
    {
      PtrFrame(geo, d, d', files[f], s, w);
    }
  }

  lemma SamePtrsKeepInv(geo: Geometry, d: Disk, d': Disk, files: Files, used: iset<nat>, used': iset<nat>)
    requires Inv(geo, d, files, used) && TreesOk(geo, d', files) && SamePtrs(geo, d, d', files) && used <= used'
    ensures Inv(geo, d', files, used')
  {
    hide PtrAt;
    hide SlotOk;
    hide TreeOk;
    hide DiskOk;
    forall f, s, g, t | f in files && g in files && SlotOk(geo, s) && SlotOk(geo, t) && (f, s) != (g, t) &&
                        PtrAt(geo, d', files[f], s) != 0
      ensures PtrAt(geo, d', files[f], s) != PtrAt(geo, d', files[g], t)
    {
      assert PtrAt(geo, d', files[f], s) == PtrAt(geo, d, files[f], s);
      assert PtrAt(geo, d', files[g], t) == PtrAt(geo, d, files[g], t);
    }
  }

  /** A write inside the layout (a bitmap) moves no pointer; a block outside `used` has no owner. */
  lemma LayoutWrite(geo: Geometry, d: Disk, d': Disk, files: Files, used: iset<nat>, m: nat, b: nat)
    requires Inv(geo, d, files, used) && DiskOk(geo, d') && SameExcept(geo, d, d', m) && m in geo.reserved
    requires b != 0 && b !in used
    ensures TreesOk(geo, d', files) && SamePtrs(geo, d, d', files) && Unowned(geo, d', files, b)
  {
    PtrFrameAll(geo, d, d', files, m);
  }

  // ----- installing a pointer -----

  /** s has no block yet but the block that would hold its pointer exists. */
  predicate Installable(geo: Geometry, d: Disk, tree: Tree, s: Slot)
    requires DiskOk(geo, d) && TreeOk(tree) && SlotOk(geo, s)
  {
    PtrAt(geo, d, tree, s) == 0 && (s.Child? ==> PtrAt(geo, d, tree, s.parent) != 0)
  }

  /** Storing b in slot s: a field of the inode, or an entry of the parent's block. */
  function InstallDisk(geo: Geometry, d: Disk, tree: Tree, s: Slot, b: nat): (d': Disk)
    requires DiskOk(geo, d) && TreeOk(tree) && SlotOk(geo, s) && b < TWO32
    ensures DiskOk(geo, d')
  {
    match s
    case Root(_) => d
    case Child(q, i) =>
      var p := PtrAt(geo, d, tree, q);
      d[p := PutU32(Read(geo, d, p), 4 * i, b)]
  }

  function InstallTree(tree: Tree, s: Slot, b: nat): (r: Tree)
    requires TreeOk(tree) && b < TWO32 && (s.Root? ==> s.k < 14)
    ensures TreeOk(r)
  {
    match s
    case Root(k) => tree[k := b]
    case Child(_, _) => tree
  }

  /** What installing b in slot s of file f asks of the state. */
  ghost predicate CanInstall(geo: Geometry, d: Disk, files: Files, f: nat, s: Slot, b: nat) {
    && TreesOk(geo, d, files) && Unshared(geo, d, files)
    && f in files && SlotOk(geo, s) && Installable(geo, d, files[f], s)
    && 0 < b < TWO32 && Unowned(geo, d, files, b)
    && (IsPointer(s) ==> Read(geo, d, b) == Zeros(geo.bs))
  }

  function InstallFiles(files: Files, f: nat, s: Slot, b: nat): (r: Files)
    requires f in files && TreeOk(files[f]) && b < TWO32 && (s.Root? ==> s.k < 14)
    ensures r.Keys == files.Keys
  {
    files[f := InstallTree(files[f], s, b)]
  }

  /** Installing a fresh block changes that one slot of that one file and no other. */
  lemma {:induction false} InstallPtr(geo: Geometry, d: Disk, files: Files, f: nat, s: Slot, b: nat, g: nat, t: Slot)
    requires CanInstall(geo, d, files, f, s, b) && g in files && SlotOk(geo, t)
    ensures PtrAt(geo, InstallDisk(geo, d, files[f], s, b), InstallFiles(files, f, s, b)[g], t)
         == if g == f && t == s then b else PtrAt(geo, d, files[g], t)
  {
    hide Unshared;
    hide Unowned;
    match t
    case Root(k) =>
    case Child(q, i) =>
      InstallPtr(geo, d, files, f, s, b, g, q);
      if (g, q) == (f, s) {
        FreshUntouched(geo, d, files, f, s, b);
      } else if PtrAt(geo, d, files[g], q) != 0 {
        InstallEntry(geo, d, files, f, s, b, g, q, i);
      }
  }

  lemma FreshUntouched(geo: Geometry, d: Disk, files: Files, f: nat, s: Slot, b: nat)
    requires CanInstall(geo, d, files, f, s, b)
    ensures Read(geo, InstallDisk(geo, d, files[f], s, b), b) == Read(geo, d, b)
  {
    if s.Child? {
      assert SlotOk(geo, s.parent);
      assert PtrAt(geo, d, files[f], s.parent) != b;
    }
  }

  /** Entry i of the block behind slot q, when that block was there before. */
  lemma InstallEntry(geo: Geometry, d: Disk, files: Files, f: nat, s: Slot, b: nat, g: nat, q: Slot, i: nat)
    requires CanInstall(geo, d, files, f, s, b) && g in files && SlotOk(geo, Child(q, i))
    requires (g, q) != (f, s) && PtrAt(geo, d, files[g], q) != 0
    ensures var p := PtrAt(geo, d, files[g], q);
            var e := U32(Read(geo, InstallDisk(geo, d, files[f], s, b), p), 4 * i);
            e == if (g, Child(q, i)) == (f, s) then b else U32(Read(geo, d, p), 4 * i)
  {
    var p := PtrAt(geo, d, files[g], q);
    if s.Child? {
      var w := PtrAt(geo, d, files[f], s.parent);
      if p == w {
        assert (g, q) == (f, s.parent);
        if i != s.idx { PutU32Elsewhere(Read(geo, d, p), 4 * s.idx, b, 4 * i); }
      }
    }
  }

  lemma InstallAll(geo: Geometry, d: Disk, files: Files, f: nat, s: Slot, b: nat)
    requires CanInstall(geo, d, files, f, s, b)
    ensures Installed(geo, d, files, InstallDisk(geo, d, files[f], s, b), InstallFiles(files, f, s, b), f, s, b)
  {
    hide PtrAt;
    hide Unshared;
    hide Unowned;
    hide InstallDisk;
    hide InstallTree;
    var d' := InstallDisk(geo, d, files[f], s, b);
    var files' := InstallFiles(files, f, s, b);
    forall g, t | g in files && SlotOk(geo, t)
      ensures PtrAt(geo, d', files'[g], t) == if g == f && t == s then b else PtrAt(geo, d, files[g], t)
    {
      InstallPtr(geo, d, files, f, s, b, g, t);
    }
  }

  /** The pointers of files' are those of files, but for slot s of file f, which holds b. */
  ghost predicate Installed(geo: Geometry, d: Disk, files: Files, d': Disk, files': Files, f: nat, s: Slot, b: nat) {
    && TreesOk(geo, d, files) && TreesOk(geo, d', files') && files'.Keys == files.Keys
    && f in files && SlotOk(geo, s)
    && (forall g :: g in files && g != f ==> files'[g] == files[g])
    && forall g, t :: g in files && SlotOk(geo, t) ==>
         PtrAt(geo, d', files'[g], t) == if g == f && t == s then b else PtrAt(geo, d, files[g], t)
  }

  lemma InstalledUnshared(geo: Geometry, d: Disk, files: Files, d': Disk, files': Files, f: nat, s: Slot, b: nat)
    requires Installed(geo, d, files, d', files', f, s, b)
    requires Unshared(geo, d, files) && Unowned(geo, d, files, b)
    ensures Unshared(geo, d', files')
  {
    hide PtrAt;
    hide SlotOk;
    hide TreeOk;
    hide DiskOk;
    hide Installed;
    hide Unowned;
    InstalledParts(geo, d, files, d', files', f, s, b);
    forall g, t, h, u | g in files' && h in files' && SlotOk(geo, t) && SlotOk(geo, u) && (g, t) != (h, u)
      ensures var p := PtrAt(geo, d', files'[g], t); p != 0 ==> p != PtrAt(geo, d', files'[h], u)
    {
      InstalledPair(geo, d, files, d', files', f, s, b, g, t, h, u);
    }
  }

  lemma InstalledParts(geo: Geometry, d: Disk, files: Files, d': Disk, files': Files, f: nat, s: Slot, b: nat)
    requires Installed(geo, d, files, d', files', f, s, b)
    ensures TreesOk(geo, d, files) && TreesOk(geo, d', files') && files'.Keys == files.Keys && f in files && SlotOk(geo, s)
  {
  }

  lemma InstalledPair(geo: Geometry, d: Disk, files: Files, d': Disk, files': Files, f: nat, s: Slot, b: nat, g: nat, t: Slot, h: nat, u: Slot)
    requires Installed(geo, d, files, d', files', f, s, b)
    requires Unshared(geo, d, files) && Unowned(geo, d, files, b)
    requires g in files && h in files && SlotOk(geo, t) && SlotOk(geo, u) && (g, t) != (h, u)
    ensures var p := PtrAt(geo, d', files'[g], t); p != 0 ==> p != PtrAt(geo, d', files'[h], u)
  {
    hide PtrAt;
    hide SlotOk;
    hide TreeOk;
    hide DiskOk;
    var p, q := PtrAt(geo, d, files[g], t), PtrAt(geo, d, files[h], u);
    assert p != 0 ==> p != q;
  }

  lemma InstalledKeepsInv(geo: Geometry, d: Disk, files: Files, used: iset<nat>, d': Disk, files': Files, f: nat, s: Slot, b: nat)
    requires Inv(geo, d, files, used) && Installed(geo, d, files, d', files', f, s, b)
    requires Unowned(geo, d, files, b) && b in used && b !in geo.reserved
    ensures Inv(geo, d', files', used)
  {
    hide PtrAt;
    hide SlotOk;
    hide TreeOk;
    hide DiskOk;
    InstalledUnshared(geo, d, files, d', files', f, s, b);
    forall g, t | g in files' && SlotOk(geo, t) && PtrAt(geo, d', files'[g], t) != 0
      ensures var p := PtrAt(geo, d', files'[g], t); p in used && p !in geo.reserved
    {
      if !(g == f && t == s) { assert PtrAt(geo, d', files'[g], t) == PtrAt(geo, d, files[g], t); }
    }
  }

  // ----- growth: what mapping a block for writing may do -----

  /** Only file f changed, and it only gained pointers; `target` is the one data slot that may be new. */
  ghost predicate KeepsPtrs(geo: Geometry, d: Disk, files: Files, d': Disk, files': Files, f: nat, target: Slot) {
    && TreesOk(geo, d, files) && TreesOk(geo, d', files') && files'.Keys == files.Keys && f in files
    && (forall g :: g in files && g != f ==> files'[g] == files[g])
    && (forall g, s :: (g in files && SlotOk(geo, s) &&
          (g != f || PtrAt(geo, d, files[g], s) != 0 || (!IsPointer(s) && s != target))) ==>
            PtrAt(geo, d', files'[g], s) == PtrAt(geo, d, files[g], s))
  }

  /** The pointers f gained are to blocks outside `used`. */
  ghost predicate GainsFree(geo: Geometry, d: Disk, tree: Tree, used: iset<nat>, d': Disk, tree': Tree)
    requires DiskOk(geo, d) && DiskOk(geo, d') && TreeOk(tree) && TreeOk(tree')
  {
    forall s :: SlotOk(geo, s) && PtrAt(geo, d, tree, s) == 0 && PtrAt(geo, d', tree', s) != 0 ==>
      PtrAt(geo, d', tree', s) !in used
  }

  /** No data block of files' holds other bytes in d' than it did in d. */
  ghost predicate KeepsData(geo: Geometry, d: Disk, d': Disk, files': Files)
    requires TreesOk(geo, d', files') && DiskOk(geo, d)
  {
    forall g, s :: g in files' && SlotOk(geo, s) && !IsPointer(s) && PtrAt(geo, d', files'[g], s) != 0 ==>
      Read(geo, d', PtrAt(geo, d', files'[g], s)) == Read(geo, d, PtrAt(geo, d', files'[g], s))
  }

  /** One or more steps of growth of file f. */
  ghost predicate Grows(geo: Geometry, d: Disk, files: Files, used: iset<nat>,
                        d': Disk, files': Files, used': iset<nat>, f: nat, target: Slot) {
    && KeepsPtrs(geo, d, files, d', files', f, target)
    && GainsFree(geo, d, files[f], used, d', files'[f])
    && KeepsData(geo, d, d', files')
    && KeepsFree(geo, d, d', used')
    && used <= used'
  }

  lemma GrowsTrans(geo: Geometry, d0: Disk, files0: Files, u0: iset<nat>, d1: Disk, files1: Files, u1: iset<nat>,
                   d2: Disk, files2: Files, u2: iset<nat>, f: nat, target: Slot)
    requires Grows(geo, d0, files0, u0, d1, files1, u1, f, target)
    requires Grows(geo, d1, files1, u1, d2, files2, u2, f, target)
    ensures Grows(geo, d0, files0, u0, d2, files2, u2, f, target)
  {
    KeepsPtrsTrans(geo, d0, files0, d1, files1, d2, files2, f, target);
    GainsFreeTrans(geo, d0, files0, u0, d1, files1, u1, d2, files2, f, target);
    KeepsDataTrans(geo, d0, d1, files1, u1, d2, files2, f, target);
  }

  lemma KeepsPtrsTrans(geo: Geometry, d0: Disk, files0: Files, d1: Disk, files1: Files, d2: Disk, files2: Files, f: nat, target: Slot)
    requires KeepsPtrs(geo, d0, files0, d1, files1, f, target) && KeepsPtrs(geo, d1, files1, d2, files2, f, target)
    ensures KeepsPtrs(geo, d0, files0, d2, files2, f, target)
  {
  }

  lemma GainsFreeTrans(geo: Geometry, d0: Disk, files0: Files, u0: iset<nat>, d1: Disk, files1: Files, u1: iset<nat>,
                       d2: Disk, files2: Files, f: nat, target: Slot)
    requires KeepsPtrs(geo, d0, files0, d1, files1, f, target) && KeepsPtrs(geo, d1, files1, d2, files2, f, target)
    requires GainsFree(geo, d0, files0[f], u0, d1, files1[f]) && GainsFree(geo, d1, files1[f], u1, d2, files2[f])
    requires u0 <= u1
    ensures GainsFree(geo, d0, files0[f], u0, d2, files2[f])
  {
    forall s | SlotOk(geo, s) && PtrAt(geo, d0, files0[f], s) == 0 && PtrAt(geo, d2, files2[f], s) != 0
      ensures PtrAt(geo, d2, files2[f], s) !in u0
    {
      if PtrAt(geo, d1, files1[f], s) != 0 {
        assert PtrAt(geo, d2, files2[f], s) == PtrAt(geo, d1, files1[f], s);
      }
    }
  }

  lemma KeepsDataTrans(geo: Geometry, d0: Disk, d1: Disk, files1: Files, u1: iset<nat>, d2: Disk, files2: Files, f: nat, target: Slot)
    requires KeepsPtrs(geo, d1, files1, d2, files2, f, target) && GainsFree(geo, d1, files1[f], u1, d2, files2[f])
    requires DiskOk(geo, d0) && KeepsData(geo, d0, d1, files1) && KeepsData(geo, d1, d2, files2)
    requires KeepsFree(geo, d0, d1, u1)
    ensures KeepsData(geo, d0, d2, files2)
  {
    forall g, s | g in files2 && SlotOk(geo, s) && !IsPointer(s) && PtrAt(geo, d2, files2[g], s) != 0
      ensures Read(geo, d2, PtrAt(geo, d2, files2[g], s)) == Read(geo, d0, PtrAt(geo, d2, files2[g], s))
    {
      if PtrAt(geo, d1, files1[g], s) == 0 { assert g == f; }
    }
  }

  /** The device once b, just allocated for slot s, is ready to be installed there. */
  function Prepared(geo: Geometry, d: Disk, s: Slot, b: nat): (d': Disk)
    requires DiskOk(geo, d)
    ensures DiskOk(geo, d')
  {
    if IsPointer(s) then d[b := Zeros(geo.bs)] else d
  }

  /** Taking a free block for an empty slot (which writes a bitmap block m), clearing it if
      it will hold pointers, and storing its number keeps the ownership invariant. */
  lemma AddSlot(geo: Geometry, d: Disk, files: Files, used: iset<nat>, f: nat, s: Slot, b: nat, d1: Disk, m: nat, target: Slot)
    requires Inv(geo, d, files, used) && f in files && SlotOk(geo, s) && Installable(geo, d, files[f], s)
    requires DiskOk(geo, d1) && SameExcept(geo, d, d1, m) && m in geo.reserved
    requires 0 < b < TWO32 && b !in used && b !in geo.reserved && (IsPointer(s) || s == target)
    ensures var d3 := InstallDisk(geo, Prepared(geo, d1, s, b), files[f], s, b);
            var files3 := InstallFiles(files, f, s, b);
            && SamePtrs(geo, d, Prepared(geo, d1, s, b), files)
            && Inv(geo, d3, files3, used + iset{b}) && Installed(geo, d, files, d3, files3, f, s, b)
            && (m in used ==> Grows(geo, d, files, used, d3, files3, used + iset{b}, f, target))
  {
    var used' := used + iset{b};
    LayoutWrite(geo, d, d1, files, used, m, b);
    var d2 := Prepared(geo, d1, s, b);
    PrepareKeepsPtrs(geo, d1, files, s, b);
    SamePtrsKeepInv(geo, d, d2, files, used, used');
    PreparedInstallable(geo, d, d2, files, f, s);
    InstallAll(geo, d2, files, f, s, b);
    var d3 := InstallDisk(geo, d2, files[f], s, b);
    var files3 := InstallFiles(files, f, s, b);
    InstalledKeepsInv(geo, d2, files, used', d3, files3, f, s, b);
    InstalledFrom(geo, d, d2, files, d3, files3, f, s, b);
    if m in used {
      OtherBlocks(geo, d, files, f, s, b, d1, m);
      InstalledGrows(geo, d, files, used, f, s, b, d3, files3, m, target);
    }
  }

  lemma InstalledFrom(geo: Geometry, d: Disk, d2: Disk, files: Files, d3: Disk, files3: Files, f: nat, s: Slot, b: nat)
    requires TreesOk(geo, d, files) && Installed(geo, d2, files, d3, files3, f, s, b) && SamePtrs(geo, d, d2, files)
    ensures Installed(geo, d, files, d3, files3, f, s, b)
  {
  }

  lemma PreparedInstallable(geo: Geometry, d: Disk, d': Disk, files: Files, f: nat, s: Slot)
    requires TreesOk(geo, d, files) && TreesOk(geo, d', files) && SamePtrs(geo, d, d', files)
    requires f in files && SlotOk(geo, s) && Installable(geo, d, files[f], s)
    ensures Installable(geo, d', files[f], s)
  {
    if s.Child? { assert SlotOk(geo, s.parent); }
  }

  lemma PrepareKeepsPtrs(geo: Geometry, d: Disk, files: Files, s: Slot, b: nat)
    requires TreesOk(geo, d, files) && Unowned(geo, d, files, b)
    ensures var d' := Prepared(geo, d, s, b);
            && TreesOk(geo, d', files) && SamePtrs(geo, d, d', files) && Unowned(geo, d', files, b)
            && (IsPointer(s) ==> Read(geo, d', b) == Zeros(geo.bs))
  {
    if IsPointer(s) { PtrFrameAll(geo, d, d[b := Zeros(geo.bs)], files, b); }
  }

  /** The block whose contents change when slot s is filled: the parent's, if it has one. */
  function Holder(geo: Geometry, d: Disk, tree: Tree, s: Slot, otherwise: nat): nat
    requires DiskOk(geo, d) && TreeOk(tree) && SlotOk(geo, s)
  {
    if s.Child? then PtrAt(geo, d, tree, s.parent) else otherwise
  }

  /** Adding a slot writes the bitmap m, b if it will hold pointers, and the parent's block. */
  ghost predicate WritesOnly(geo: Geometry, d: Disk, d3: Disk, tree: Tree, s: Slot, b: nat, m: nat)
    requires DiskOk(geo, d) && DiskOk(geo, d3) && TreeOk(tree) && SlotOk(geo, s)
  {
    forall n: nat :: n != m && (n != b || !IsPointer(s)) && n != Holder(geo, d, tree, s, m) ==>
      Read(geo, d3, n) == Read(geo, d, n)
  }

  lemma OtherBlocks(geo: Geometry, d: Disk, files: Files, f: nat, s: Slot, b: nat, d1: Disk, m: nat)
    requires TreesOk(geo, d, files) && f in files && SlotOk(geo, s) && DiskOk(geo, d1) && b < TWO32
    requires SameExcept(geo, d, d1, m) && SamePtrs(geo, d, Prepared(geo, d1, s, b), files)
    ensures WritesOnly(geo, d, InstallDisk(geo, Prepared(geo, d1, s, b), files[f], s, b), files[f], s, b, m)
  {
    if s.Child? { assert SlotOk(geo, s.parent); }
  }

  lemma InstalledGrows(geo: Geometry, d: Disk, files: Files, used: iset<nat>, f: nat, s: Slot, b: nat,
                       d3: Disk, files3: Files, m: nat, target: Slot)
    requires Inv(geo, d, files, used) && Installed(geo, d, files, d3, files3, f, s, b)
    requires Installable(geo, d, files[f], s) && WritesOnly(geo, d, d3, files[f], s, b, m)
    requires m in geo.reserved && m in used && b != 0 && b !in used && b !in geo.reserved
    requires IsPointer(s) || s == target
    ensures Grows(geo, d, files, used, d3, files3, used + iset{b}, f, target)
  {
    InstalledKeepsPtrs(geo, d, files, used, d3, files3, f, s, b, target);
    OldBlocksWritten(geo, d, files, used, f, s, b, d3, m);
    WrittenAreNotData(geo, d, files, used, f, s, b, d3, files3, m);
  }

  lemma InstalledKeepsPtrs(geo: Geometry, d: Disk, files: Files, used: iset<nat>, d3: Disk, files3: Files,
                           f: nat, s: Slot, b: nat, target: Slot)
    requires Installed(geo, d, files, d3, files3, f, s, b) && PtrAt(geo, d, files[f], s) == 0 && b !in used
    requires IsPointer(s) || s == target
    ensures KeepsPtrs(geo, d, files, d3, files3, f, target)
    ensures GainsFree(geo, d, files[f], used, d3, files3[f])
  {
    forall g, t | g in files && SlotOk(geo, t) &&
                  (g != f || PtrAt(geo, d, files[g], t) != 0 || (!IsPointer(t) && t != target))
      ensures PtrAt(geo, d3, files3[g], t) == PtrAt(geo, d, files[g], t)
    {
    }
  }

  lemma OldBlocksWritten(geo: Geometry, d: Disk, files: Files, used: iset<nat>, f: nat, s: Slot, b: nat, d3: Disk, m: nat)
    requires TreesOk(geo, d, files) && Claimed(geo, d, files, used) && f in files && SlotOk(geo, s) && DiskOk(geo, d3)
    requires Installable(geo, d, files[f], s) && WritesOnly(geo, d, d3, files[f], s, b, m) && m in used
    ensures KeepsFree(geo, d, d3, used + iset{b})
  {
    if s.Child? { assert SlotOk(geo, s.parent); }
  }

  lemma WrittenAreNotData(geo: Geometry, d: Disk, files: Files, used: iset<nat>, f: nat, s: Slot, b: nat,
                          d3: Disk, files3: Files, m: nat)
    requires Inv(geo, d, files, used) && Installed(geo, d, files, d3, files3, f, s, b)
    requires Installable(geo, d, files[f], s) && WritesOnly(geo, d, d3, files[f], s, b, m)
    requires m in geo.reserved && b !in used && b != 0 && b !in geo.reserved
    ensures KeepsData(geo, d, d3, files3)
  {
    hide PtrAt;
    hide Holder;
    hide Unshared;
    HolderUsed(geo, d, files, used, f, s, m);
    forall g, t | g in files3 && SlotOk(geo, t) && !IsPointer(t)
      ensures var p := PtrAt(geo, d3, files3[g], t); p != 0 ==> Read(geo, d3, p) == Read(geo, d, p)
    {
      NotHolder(geo, d, files, used, f, s, m, g, t);
    }
  }

  /** The block that holds the pointer is the layout's or a file's. */
  lemma HolderUsed(geo: Geometry, d: Disk, files: Files, used: iset<nat>, f: nat, s: Slot, m: nat)
    requires Inv(geo, d, files, used) && f in files && SlotOk(geo, s) && Installable(geo, d, files[f], s) && m in geo.reserved
    ensures Holder(geo, d, files[f], s, m) in geo.reserved || Holder(geo, d, files[f], s, m) in used
  {
    hide PtrAt;
    hide Unshared;
    if s.Child? { assert SlotOk(geo, s.parent); }
  }

  /** No data block is the one that holds the pointer. */
  lemma NotHolder(geo: Geometry, d: Disk, files: Files, used: iset<nat>, f: nat, s: Slot, m: nat, g: nat, t: Slot)
    requires Inv(geo, d, files, used) && f in files && SlotOk(geo, s) && Installable(geo, d, files[f], s) && m in geo.reserved
    requires g in files && SlotOk(geo, t) && !IsPointer(t)
    ensures var p := PtrAt(geo, d, files[g], t); p != 0 ==> p in used && p !in geo.reserved && p != Holder(geo, d, files[f], s, m)
  {
    hide PtrAt;
    if s.Child? { assert SlotOk(geo, s.parent) && IsPointer(s.parent); }
  }
}
