/** Mapping file blocks to device blocks while a file grows: the allocating half of
    ext2_write_file, one pointer at a time. */
module Ext2Map {
  import opened Arith
  import opened Bytes
  import opened Volumes
  import opened Ext2Tree

  /** The fields of an on-disk ext2_inode_t that say where a file's bytes are. */
  datatype Inode = Inode(size: nat, block: Tree)

  /** The in-memory ext2_inode_t a file operation works on. */
  class InodeBuf {
    var size: nat
    var block: seq<nat>

    constructor (ino: Inode)
      ensures Rec() == ino
    {
      size := ino.size;
      block := ino.block;
    }

    function Rec(): Inode
      reads this
    {
      Inode(size, block)
    }
  }

  // ----- file block numbers and slots -----

  predicate Mappable(geo: Geometry, fb: nat) {
    fb < 12 + Ptrs(geo) + Mul(Ptrs(geo), Ptrs(geo))
  }

  function SlotFor(geo: Geometry, fb: nat): Slot
    requires Ptrs(geo) > 0 && Mappable(geo, fb)
  {
    if fb < 12 then Root(fb)
    else if fb < 12 + Ptrs(geo) then Child(Root(12), fb - 12)
    else
      var r := fb - 12 - Ptrs(geo);
      Child(Child(Root(13), Div(r, Ptrs(geo))), Mod(r, Ptrs(geo)))
  }

  /** Every addressable file block has a data slot of its own. */
  lemma SlotForOk(geo: Geometry, fb: nat)
    requires Ptrs(geo) > 0 && Mappable(geo, fb)
    ensures SlotOk(geo, SlotFor(geo, fb)) && !IsPointer(SlotFor(geo, fb))
  {
    var P := Ptrs(geo);
    if fb >= 12 + P {
      var r := fb - 12 - P;
      Split(r, P);
      if Div(r, P) >= P { MulMono(P, Div(r, P), P); }
      assert SlotOk(geo, Child(Root(13), Div(r, P)));
    }
  }

  lemma SlotForInjective(geo: Geometry, x: nat, y: nat)
    requires Ptrs(geo) > 0 && Mappable(geo, x) && Mappable(geo, y)
    requires SlotFor(geo, x) == SlotFor(geo, y)
    ensures x == y
  {
    var P := Ptrs(geo);
    if x >= 12 + P && y >= 12 + P {
      Split(x - 12 - P, P);
      Split(y - 12 - P, P);
    }
  }

  /** Every data slot is the slot of some file block. */
  lemma SlotForOnto(geo: Geometry, s: Slot) returns (fb: nat)
    requires Ptrs(geo) > 0 && SlotOk(geo, s) && !IsPointer(s)
    ensures Mappable(geo, fb) && SlotFor(geo, fb) == s
  {
    var P := Ptrs(geo);
    match s
    case Root(k) => fb := k;
    case Child(q, j) =>
      if q == Root(12) {
        fb := 12 + j;
      } else {
        var i := q.idx;
        Join(i, j, P);
        MulMono(i, P, P);
        fb := 12 + P + Mul(i, P) + j;
      }
  }

  // ----- the state a file operation keeps -----

  /** The files of the volume, with file f as the buffer has it. */
  ghost function With(files: Files, f: nat, e: InodeBuf): Files
    reads e
  {
    files[f := e.block]
  }

  /** A formatted volume on which every block of every file has exactly one owner. */
  ghost predicate Sound(geo: Geometry, d: Disk, files: Files) {
    Formatted(geo, d) && Inv(geo, d, files, Marked(geo, d))
  }

  ghost predicate Grown(geo: Geometry, d: Disk, files: Files, d': Disk, files': Files, f: nat, target: Slot) {
    && geo.Valid() && DiskOk(geo, d) && DiskOk(geo, d')
    && Grows(geo, d, files, Marked(geo, d), d', files', Marked(geo, d'), f, target)
  }

  lemma GrownRefl(geo: Geometry, d: Disk, files: Files, f: nat, target: Slot)
    requires Sound(geo, d, files) && f in files
    ensures Grown(geo, d, files, d, files, f, target)
  {
  }

  lemma GrownTrans(geo: Geometry, d0: Disk, files0: Files, d1: Disk, files1: Files, d2: Disk, files2: Files, f: nat, target: Slot)
    requires Grown(geo, d0, files0, d1, files1, f, target) && Grown(geo, d1, files1, d2, files2, f, target)
    ensures Grown(geo, d0, files0, d2, files2, f, target)
  {
    GrowsTrans(geo, d0, files0, Marked(geo, d0), d1, files1, Marked(geo, d1), d2, files2, Marked(geo, d2), f, target);
  }

  // ----- which free block a missing slot gets -----

  /** p is what the allocation after k others takes, 0 if there are no more than k free blocks. */
  ghost predicate TakesNth(geo: Geometry, d: Disk, k: nat, p: nat)
    requires geo.Valid() && DiskOk(geo, d)
  {
    if p == 0 then !MoreThan(geo, d, k) else NthFree(geo, d, k, p)
  }

  /** How many pointer blocks are missing on the way to slot s. */
  ghost function Missing(geo: Geometry, d: Disk, tree: Tree, s: Slot): nat
    requires DiskOk(geo, d) && TreeOk(tree) && SlotOk(geo, s)
  {
    match s
    case Root(_) => 0
    case Child(q, _) => if PtrAt(geo, d, tree, q) != 0 then 0 else 1 + Missing(geo, d, tree, q)
  }

  ghost predicate OnlySlot(geo: Geometry, d: Disk, tree: Tree, d': Disk, tree': Tree, s: Slot)
    requires DiskOk(geo, d) && DiskOk(geo, d') && TreeOk(tree) && TreeOk(tree')
  {
    forall t :: SlotOk(geo, t) && t != s ==> PtrAt(geo, d', tree', t) == PtrAt(geo, d, tree, t)
  }

  /** One slot, found as b or filled with the lowest free block b, if there is one. */
  ghost predicate Filled(geo: Geometry, d: Disk, tree: Tree, d': Disk, tree': Tree, s: Slot, b: nat) {
    && geo.Valid() && DiskOk(geo, d) && DiskOk(geo, d') && TreeOk(tree) && TreeOk(tree') && SlotOk(geo, s)
    && (PtrAt(geo, d, tree, s) != 0 || b == 0 ==> d' == d && tree' == tree && b == PtrAt(geo, d, tree, s))
    && (PtrAt(geo, d, tree, s) == 0 ==> TakesNth(geo, d, 0, b))
    && (PtrAt(geo, d, tree, s) == 0 && b != 0 ==>
          Shifted(geo, d, d', 1) && OnlySlot(geo, d, tree, d', tree', s) && PtrAt(geo, d', tree', s) == b)
  }

  /** Slot s with everything on the way to it, found as b or filled: a missing one gets the free
      block that follows those for its missing pointer blocks. */
  ghost predicate Resolved(geo: Geometry, d: Disk, tree: Tree, d': Disk, tree': Tree, s: Slot, b: nat) {
    && geo.Valid() && DiskOk(geo, d) && DiskOk(geo, d') && TreeOk(tree) && TreeOk(tree') && SlotOk(geo, s)
    && (PtrAt(geo, d, tree, s) != 0 ==> d' == d && tree' == tree && b == PtrAt(geo, d, tree, s))
    && (PtrAt(geo, d, tree, s) == 0 ==> TakesNth(geo, d, Missing(geo, d, tree, s), b))
    && (PtrAt(geo, d, tree, s) == 0 && b != 0 ==>
          Shifted(geo, d, d', Missing(geo, d, tree, s) + 1) && NoneUnder(geo, d', tree', s))
  }

  ghost predicate NoneUnder(geo: Geometry, d: Disk, tree: Tree, s: Slot)
    requires DiskOk(geo, d) && TreeOk(tree)
  {
    forall i: nat :: SlotOk(geo, Child(s, i)) ==> PtrAt(geo, d, tree, Child(s, i)) == 0
  }

  lemma ResolvedRoot(geo: Geometry, d: Disk, tree: Tree, d': Disk, tree': Tree, k: nat, b: nat)
    requires Filled(geo, d, tree, d', tree', Root(k), b)
    ensures Resolved(geo, d, tree, d', tree', Root(k), b)
  {
    hide TakesNth;
    hide Shifted;
    FilledNoneUnder(geo, d, tree, d', tree', Root(k), b);
  }

  lemma FilledNoneUnder(geo: Geometry, d: Disk, tree: Tree, d': Disk, tree': Tree, s: Slot, b: nat)
    requires Filled(geo, d, tree, d', tree', s, b)
    ensures PtrAt(geo, d, tree, s) == 0 && b != 0 ==> NoneUnder(geo, d', tree', s)
  {
    hide TakesNth;
    hide Shifted;
    if PtrAt(geo, d, tree, s) == 0 && b != 0 {
      forall i: nat | SlotOk(geo, Child(s, i))
        ensures PtrAt(geo, d', tree', Child(s, i)) == 0
      {
        assert PtrAt(geo, d, tree, Child(s, i)) == 0;
      }
    }
  }

  /** From a pointer block to one of its entries. */
  lemma ResolvedChild(geo: Geometry, d0: Disk, tree0: Tree, d1: Disk, tree1: Tree, d2: Disk, tree2: Tree, q: Slot, p: nat, i: nat, b: nat)
    requires Resolved(geo, d0, tree0, d1, tree1, q, p) && p != 0 && Filled(geo, d1, tree1, d2, tree2, Child(q, i), b)
    ensures Resolved(geo, d0, tree0, d2, tree2, Child(q, i), b)
  {
    hide TakesNth;
    hide Shifted;
    hide PtrAt;
    hide NoneUnder;
    hide Filled;
    hide SlotOk;
    FilledNoneUnder(geo, d1, tree1, d2, tree2, Child(q, i), b);
    FilledParts(geo, d1, tree1, d2, tree2, Child(q, i), b);
    NoneBelow(geo, d0, tree0, d1, tree1, q, i);
    if PtrAt(geo, d0, tree0, q) == 0 {
      var m := Missing(geo, d0, tree0, q);
      TakesLater(geo, d0, d1, m + 1, b);
      if b != 0 { ShiftedTwice(geo, d0, d1, d2, m + 1); }
    }
  }

  lemma NoneBelow(geo: Geometry, d0: Disk, tree0: Tree, d1: Disk, tree1: Tree, q: Slot, i: nat)
    requires DiskOk(geo, d0) && TreeOk(tree0) && DiskOk(geo, d1) && TreeOk(tree1) && SlotOk(geo, Child(q, i))
    ensures SlotOk(geo, q) && (PtrAt(geo, d0, tree0, q) == 0 ==> PtrAt(geo, d0, tree0, Child(q, i)) == 0)
    ensures NoneUnder(geo, d1, tree1, q) ==> PtrAt(geo, d1, tree1, Child(q, i)) == 0
  {
  }

  lemma FilledParts(geo: Geometry, d: Disk, tree: Tree, d': Disk, tree': Tree, s: Slot, b: nat)
    requires Filled(geo, d, tree, d', tree', s, b)
    ensures geo.Valid() && DiskOk(geo, d) && DiskOk(geo, d') && TreeOk(tree) && TreeOk(tree') && SlotOk(geo, s)
    ensures PtrAt(geo, d, tree, s) != 0 ==> d' == d && tree' == tree && b == PtrAt(geo, d, tree, s)
    ensures PtrAt(geo, d, tree, s) == 0 ==> TakesNth(geo, d, 0, b) && (b != 0 ==> Shifted(geo, d, d', 1))
  {
  }

  /** If a pointer block on the way is not to be had, the slot is not. */
  lemma ResolvedNot(geo: Geometry, d0: Disk, tree0: Tree, d1: Disk, tree1: Tree, q: Slot, i: nat)
    requires Resolved(geo, d0, tree0, d1, tree1, q, 0) && SlotOk(geo, Child(q, i))
    ensures Resolved(geo, d0, tree0, d1, tree1, Child(q, i), 0)
  {
    hide NthFree;
    hide MoreThan;
    var m := Missing(geo, d0, tree0, q);
    if MoreThan(geo, d0, m + 1) { MoreThanFewer(geo, d0, m); }
  }

  lemma TakesLater(geo: Geometry, d0: Disk, d1: Disk, j: nat, b: nat)
    requires Shifted(geo, d0, d1, j) && TakesNth(geo, d1, 0, b)
    ensures TakesNth(geo, d0, j, b)
  {
    hide NthFree;
    forall c: nat
      ensures NthFree(geo, d1, 0, c) <==> NthFree(geo, d0, j, c)
    {
      assert ShiftedAt(geo, d0, d1, j, 0, c);
    }
  }

  lemma ShiftedTwice(geo: Geometry, d0: Disk, d1: Disk, d2: Disk, j: nat)
    requires Shifted(geo, d0, d1, j) && Shifted(geo, d1, d2, 1)
    ensures Shifted(geo, d0, d2, j + 1)
  {
    hide NthFree;
    var m := j + 1;
    forall k: nat, c: nat
      ensures ShiftedAt(geo, d0, d2, m, k, c)
    {
      assert ShiftedAt(geo, d1, d2, 1, k, c) && ShiftedAt(geo, d0, d1, j, k + 1, c);
      assert k + 1 + j == k + m;
    }
  }

  /** Filling an empty slot with the block just allocated for it. */
  lemma Fill(geo: Geometry, d: Disk, files: Files, f: nat, s: Slot, b: nat, d1: Disk, target: Slot)
    requires Sound(geo, d, files) && f in files && SlotOk(geo, s) && Installable(geo, d, files[f], s)
    requires Allocated(geo, d, d1, b) && AllUsedBelow(geo, d, b) && (IsPointer(s) || s == target)
    ensures var d3 := InstallDisk(geo, Prepared(geo, d1, s, b), files[f], s, b);
            var files3 := InstallFiles(files, f, s, b);
            && Sound(geo, d3, files3) && Grown(geo, d, files, d3, files3, f, target) && PtrAt(geo, d3, files3[f], s) == b
            && Formatted(geo, d3) && Filled(geo, d, files[f], d3, files3[f], s, b)
  {
    hide AllUsedBelow;
    hide Filled;
    var m := geo.bitmaps[geo.GroupOf(b)];
    assert Used(geo, d, m);
    AddSlot(geo, d, files, Marked(geo, d), f, s, b, d1, m, target);
    FillKeepsFormat(geo, d, files, f, s, b, d1);
    FillFilled(geo, d, files, f, s, b, d1, InstallDisk(geo, Prepared(geo, d1, s, b), files[f], s, b), InstallFiles(files, f, s, b));
  }

  lemma FillFilled(geo: Geometry, d: Disk, files: Files, f: nat, s: Slot, b: nat, d1: Disk, d3: Disk, files3: Files)
    requires Allocated(geo, d, d1, b) && AllUsedBelow(geo, d, b)
    requires Installed(geo, d, files, d3, files3, f, s, b) && Marked(geo, d3) == Marked(geo, d1) && PtrAt(geo, d, files[f], s) == 0
    ensures Filled(geo, d, files[f], d3, files3[f], s, b)
  {
    hide PtrAt;
    hide Shifted;
    hide Formatted;
    hide LowestFree;
    hide AllUsedBelow;
    AllocatedNotFull(geo, d, d1, b);
    TakenShifts(geo, d, d3, b);
    assert NthFree(geo, d, 0, b);
  }

  /** A slot found, and one for which there is no block. */
  lemma FilledStill(geo: Geometry, d: Disk, tree: Tree, s: Slot)
    requires geo.Valid() && DiskOk(geo, d) && TreeOk(tree) && SlotOk(geo, s) && (PtrAt(geo, d, tree, s) != 0 || Full(geo, d))
    ensures Filled(geo, d, tree, d, tree, s, PtrAt(geo, d, tree, s))
  {
    hide PtrAt;
    if Full(geo, d) { FullHasNone(geo, d, 0); }
  }

  lemma FillKeepsFormat(geo: Geometry, d: Disk, files: Files, f: nat, s: Slot, b: nat, d1: Disk)
    requires TreesOk(geo, d, files) && Claimed(geo, d, files, Marked(geo, d))
    requires f in files && SlotOk(geo, s) && Installable(geo, d, files[f], s)
    requires Allocated(geo, d, d1, b) && SamePtrs(geo, d, Prepared(geo, d1, s, b), files)
    ensures var d3 := InstallDisk(geo, Prepared(geo, d1, s, b), files[f], s, b);
            Formatted(geo, d3) && Marked(geo, d3) == Marked(geo, d1)
  {
    var d2 := Prepared(geo, d1, s, b);
    if IsPointer(s) { WriteKeepsFormat(geo, d1, b, Zeros(geo.bs)); }
    if s.Child? {
      assert SlotOk(geo, s.parent);
      var p := PtrAt(geo, d2, files[f], s.parent);
      WriteKeepsFormat(geo, d2, p, PutU32(Read(geo, d2, p), 4 * s.idx, b));
    }
  }

  ghost predicate Live(vol: Volume, e: InodeBuf, files: Files, f: nat)
    reads vol, e
  {
    vol.Ok() && TreeOk(e.block) && Sound(vol.geo, vol.disk, With(files, f, e))
  }

  /** Root k of the inode: if it is 0, allocate it, and clear it if it is to hold pointers. */
  method FillRoot(vol: Volume, e: InodeBuf, k: nat, ghost files: Files, ghost f: nat, ghost target: Slot) returns (ok: bool)
    requires Live(vol, e, files, f) && k < 14 && (IsPointer(Root(k)) || target == Root(k))
    modifies vol, e
    ensures Live(vol, e, files, f) && e.size == old(e.size)
    ensures Grown(vol.geo, old(vol.disk), old(With(files, f, e)), vol.disk, With(files, f, e), f, target)
    ensures TreeOk(e.block) && ok == (e.block[k] != 0)
    ensures !ok ==> Full(vol.geo, vol.disk)
    ensures Filled(vol.geo, old(vol.disk), old(e.block), vol.disk, e.block, Root(k), e.block[k])
  {
    hide Grown;
    hide Sound;
    hide Full;
    hide Formatted;
    hide Allocated;
    hide AllUsedBelow;
    hide Filled;
    ok := true;
    ghost var geo, d, fs := vol.geo, vol.disk, With(files, f, e);
    assert PtrAt(geo, d, e.block, Root(k)) == e.block[k];
    if e.block[k] != 0 {
      GrownRefl(geo, d, fs, f, target);
      FilledStill(geo, d, e.block, Root(k));
      return;
    }
    var b := vol.AllocBlock();
    if b == 0 {
      GrownRefl(geo, d, fs, f, target);
      FilledStill(geo, d, e.block, Root(k));
      return false;
    }
    Fill(geo, d, fs, f, Root(k), b, vol.disk, target);
    e.block := e.block[k := b];
    if k == 12 || k == 13 {
      vol.WriteBlock(b, Zeros(vol.geo.bs));
    }
    assert With(files, f, e) == InstallFiles(fs, f, Root(k), b);
  }

  /** Entry i of pointer block p (the block behind slot q): if it is 0, allocate it, clear it
      if it is itself to hold pointers, and write p back with the entry filled in. */
  method FillEntry(vol: Volume, e: InodeBuf, p: nat, i: nat, holdsPointers: bool,
                   ghost q: Slot, ghost files: Files, ghost f: nat, ghost target: Slot) returns (b: nat)
    requires Live(vol, e, files, f) && IsPointer(q) && SlotOk(vol.geo, q) && i < Ptrs(vol.geo)
    requires p != 0 && TreeOk(e.block) && p == PtrAt(vol.geo, vol.disk, e.block, q)
    requires holdsPointers == IsPointer(Child(q, i)) && (holdsPointers || target == Child(q, i))
    modifies vol
    ensures Live(vol, e, files, f) && e.size == old(e.size)
    ensures Grown(vol.geo, old(vol.disk), old(With(files, f, e)), vol.disk, With(files, f, e), f, target)
    ensures PtrAt(vol.geo, vol.disk, e.block, Child(q, i)) == b
    ensures b == 0 ==> Full(vol.geo, vol.disk)
    ensures Filled(vol.geo, old(vol.disk), e.block, vol.disk, e.block, Child(q, i), b)
  {
    hide InstallDisk;
    hide InstallFiles;
    hide PutU32;
    hide Grown;
    hide Sound;
    hide Full;
    hide Formatted;
    hide Allocated;
    hide AllUsedBelow;
    hide Filled;
    ghost var geo, d, fs, s := vol.geo, vol.disk, With(files, f, e), Child(q, i);
    var entries := vol.ReadBlock(p);
    b := U32(entries, 4 * i);
    assert PtrAt(geo, d, e.block, s) == b;
    if b != 0 {
      GrownRefl(geo, d, fs, f, target);
      FilledStill(geo, d, e.block, s);
      return;
    }
    b := vol.AllocBlock();
    if b == 0 {
      GrownRefl(geo, d, fs, f, target);
      FilledStill(geo, d, e.block, s);
      return;
    }
    Fill(geo, d, fs, f, s, b, vol.disk, target);
    EntryUnmoved(geo, d, fs, f, q, i, b, vol.disk);
    if holdsPointers { vol.WriteBlock(b, Zeros(vol.geo.bs)); }
    vol.WriteBlock(p, PutU32(entries, 4 * i, b));
    ChildInstall(fs, f, s, b);
  }

  /** A pointer in a pointer block is not in the inode. */
  lemma ChildInstall(files: Files, f: nat, s: Slot, b: nat)
    requires f in files && TreeOk(files[f]) && b < TWO32 && s.Child?
    ensures InstallFiles(files, f, s, b) == files
  {
  }

  /** The copy of p read before allocating is still p's contents when it is written back. */
  lemma EntryUnmoved(geo: Geometry, d: Disk, files: Files, f: nat, q: Slot, i: nat, b: nat, d1: Disk)
    requires Sound(geo, d, files) && f in files && SlotOk(geo, Child(q, i)) && PtrAt(geo, d, files[f], q) != 0
    requires Allocated(geo, d, d1, b)
    ensures var p := PtrAt(geo, d, files[f], q);
            var d2 := Prepared(geo, d1, Child(q, i), b);
            InstallDisk(geo, d2, files[f], Child(q, i), b) == d2[p := PutU32(Read(geo, d, p), 4 * i, b)]
  {
    var m := geo.bitmaps[geo.GroupOf(b)];
    LayoutWrite(geo, d, d1, files, Marked(geo, d), m, b);
    PrepareKeepsPtrs(geo, d1, files, Child(q, i), b);
    assert SlotOk(geo, q);
  }

  /** Finds the device block for file block fb, allocating whatever is missing on the way;
      0 when the volume is full or fb is past what the inode can address. */
  method MapBlock(vol: Volume, e: InodeBuf, fb: nat, ghost files: Files, ghost f: nat) returns (phys: nat)
    requires Live(vol, e, files, f)
    modifies vol, e
    ensures Live(vol, e, files, f) && e.size == old(e.size)
    ensures TreeOk(e.block)
    ensures !Mappable(vol.geo, fb) ==> phys == 0 && vol.disk == old(vol.disk) && e.block == old(e.block)
    ensures Mappable(vol.geo, fb) ==>
              Grown(vol.geo, old(vol.disk), old(With(files, f, e)), vol.disk, With(files, f, e), f, SlotFor(vol.geo, fb))
    ensures Mappable(vol.geo, fb) ==>
              SlotOk(vol.geo, SlotFor(vol.geo, fb)) && PtrAt(vol.geo, vol.disk, e.block, SlotFor(vol.geo, fb)) == phys
    ensures Mappable(vol.geo, fb) && phys == 0 ==> Full(vol.geo, vol.disk)
    ensures Mappable(vol.geo, fb) ==> Resolved(vol.geo, old(vol.disk), old(e.block), vol.disk, e.block, SlotFor(vol.geo, fb), phys)
  {
    hide Full;
    hide Resolved;
    assert TreeOk(With(files, f, e)[f]);
    if Mappable(vol.geo, fb) {
      SlotForOk(vol.geo, fb);
      if fb < 12 {
        phys := MapDirect(vol, e, fb, files, f);
      } else if fb < 12 + Ptrs(vol.geo) {
        phys := MapIndirect(vol, e, fb, files, f);
      } else {
        phys := MapDouble(vol, e, fb, files, f);
      }
    } else {
      phys := 0;
    }
  }

  method MapDirect(vol: Volume, e: InodeBuf, fb: nat, ghost files: Files, ghost f: nat) returns (phys: nat)
    requires Live(vol, e, files, f) && fb < 12
    modifies vol, e
    ensures Live(vol, e, files, f) && e.size == old(e.size)
    ensures Grown(vol.geo, old(vol.disk), old(With(files, f, e)), vol.disk, With(files, f, e), f, Root(fb))
    ensures TreeOk(e.block) && PtrAt(vol.geo, vol.disk, e.block, Root(fb)) == phys
    ensures phys == 0 ==> Full(vol.geo, vol.disk)
    ensures Resolved(vol.geo, old(vol.disk), old(e.block), vol.disk, e.block, Root(fb), phys)
  {
    hide Full;
    hide Filled;
    hide Resolved;
    var ok := FillRoot(vol, e, fb, files, f, Root(fb));
    ResolvedRoot(vol.geo, old(vol.disk), old(e.block), vol.disk, e.block, fb, e.block[fb]);
    if !ok { return 0; }
    phys := e.block[fb];
  }

  method MapIndirect(vol: Volume, e: InodeBuf, fb: nat, ghost files: Files, ghost f: nat) returns (phys: nat)
    requires Live(vol, e, files, f) && 12 <= fb < 12 + Ptrs(vol.geo)
    modifies vol, e
    ensures Live(vol, e, files, f) && e.size == old(e.size)
    ensures Grown(vol.geo, old(vol.disk), old(With(files, f, e)), vol.disk, With(files, f, e), f, Child(Root(12), fb - 12))
    ensures TreeOk(e.block) && PtrAt(vol.geo, vol.disk, e.block, Child(Root(12), fb - 12)) == phys
    ensures phys == 0 ==> Full(vol.geo, vol.disk)
    ensures Resolved(vol.geo, old(vol.disk), old(e.block), vol.disk, e.block, Child(Root(12), fb - 12), phys)
  {
    hide Grown;
    hide Sound;
    hide Full;
    hide Formatted;
    hide Filled;
    hide Resolved;
    ghost var s, d0, t0 := Child(Root(12), fb - 12), vol.disk, e.block;
    var ok := FillRoot(vol, e, 12, files, f, s);
    ghost var d1, t1, fs1 := vol.disk, e.block, With(files, f, e);
    ResolvedRoot(vol.geo, d0, t0, d1, t1, 12, t1[12]);
    if !ok {
      ResolvedNot(vol.geo, d0, t0, d1, t1, Root(12), fb - 12);
      return 0;
    }
    phys := FillEntry(vol, e, e.block[12], fb - 12, false, Root(12), files, f, s);
    ResolvedChild(vol.geo, d0, t0, d1, t1, vol.disk, e.block, Root(12), t1[12], fb - 12, phys);
    GrownTrans(vol.geo, old(vol.disk), old(With(files, f, e)), d1, fs1, vol.disk, With(files, f, e), f, s);
  }

  method MapDouble(vol: Volume, e: InodeBuf, fb: nat, ghost files: Files, ghost f: nat) returns (phys: nat)
    requires Live(vol, e, files, f) && 12 + Ptrs(vol.geo) <= fb && Mappable(vol.geo, fb)
    requires SlotOk(vol.geo, SlotFor(vol.geo, fb))
    modifies vol, e
    ensures Live(vol, e, files, f) && e.size == old(e.size)
    ensures Grown(vol.geo, old(vol.disk), old(With(files, f, e)), vol.disk, With(files, f, e), f, SlotFor(vol.geo, fb))
    ensures TreeOk(e.block) && PtrAt(vol.geo, vol.disk, e.block, SlotFor(vol.geo, fb)) == phys
    ensures phys == 0 ==> Full(vol.geo, vol.disk)
    ensures Resolved(vol.geo, old(vol.disk), old(e.block), vol.disk, e.block, SlotFor(vol.geo, fb), phys)
  {
    hide Grown;
    hide Sound;
    hide Full;
    hide Formatted;
    hide Filled;
    hide Resolved;
    var idx1 := Div(fb - 12 - Ptrs(vol.geo), Ptrs(vol.geo));
    var idx2 := Mod(fb - 12 - Ptrs(vol.geo), Ptrs(vol.geo));
    ghost var s := SlotFor(vol.geo, fb);
    assert SlotOk(vol.geo, s.parent) && s == Child(Child(Root(13), idx1), idx2);
    ghost var d0, t0, fs0 := vol.disk, e.block, With(files, f, e);
    var ok := FillRoot(vol, e, 13, files, f, s);
    ghost var d1, t1, fs1 := vol.disk, e.block, With(files, f, e);
    ResolvedRoot(vol.geo, d0, t0, d1, t1, 13, t1[13]);
    if !ok {
      assert PtrAt(vol.geo, d1, t1, s.parent) == 0;
      ResolvedNot(vol.geo, d0, t0, d1, t1, Root(13), idx1);
      ResolvedNot(vol.geo, d0, t0, d1, t1, s.parent, idx2);
      return 0;
    }
    var leaf := FillEntry(vol, e, e.block[13], idx1, true, Root(13), files, f, s);
    ghost var d2, t2, fs2 := vol.disk, e.block, With(files, f, e);
    GrownTrans(vol.geo, d0, fs0, d1, fs1, d2, fs2, f, s);
    ResolvedChild(vol.geo, d0, t0, d1, t1, d2, t2, Root(13), t1[13], idx1, leaf);
    if leaf == 0 {
      ResolvedNot(vol.geo, d0, t0, d2, t2, s.parent, idx2);
      return 0;
    }
    phys := FillEntry(vol, e, leaf, idx2, false, s.parent, files, f, s);
    ResolvedChild(vol.geo, d0, t0, d2, t2, vol.disk, e.block, s.parent, leaf, idx2, phys);
    GrownTrans(vol.geo, d0, fs0, d2, fs2, vol.disk, With(files, f, e), f, s);
  }

  lemma SoundTree(geo: Geometry, d: Disk, files: Files, f: nat)
    requires Sound(geo, d, files) && f in files
    ensures TreeOk(files[f])
  {
  }

  lemma AllocatedNotFull(geo: Geometry, d: Disk, d': Disk, b: nat)
    requires Allocated(geo, d, d', b) && AllUsedBelow(geo, d, b)
    ensures LowestFree(geo, d, b) && !Full(geo, d)
  {
  }
}
