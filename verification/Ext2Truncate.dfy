/** ext2_truncate: which blocks shrinking a file releases, and when that is right. */
module Ext2Truncate {
  import opened Arith
  import opened Bytes
  import opened Sequences
  import opened Volumes
  import opened Ext2Tree
  import opened Ext2Map
  import opened Ext2File

  // ----- the slots a truncation releases -----

  function Less(a: nat, b: nat): nat { if a > b then a - b else 0 }

  /** How a shrink from `was` to `now` file blocks cuts the double-indirect range: the
      leaves [first, end) are released, the first of them from entry `from` on. */
  datatype Cut = Cut(was: nat, now: nat, P: nat) {
    predicate HasIndirect() { was > 12 }
    predicate HasDouble() { was > 12 + P }
    function IndStart(): nat { Less(now, 12) }
    function IndEnd(): nat { Min(Less(was, 12), P) }
    function LeafStart(): nat requires P > 0 { if now > 12 + P then Div(now - 12 - P, P) else 0 }
    function LeafEnd(): nat requires P > 0 { Min(Div(Less(was, 12 + P) + P - 1, P), P) }
    function EntryStart(leaf: nat): nat
      requires P > 0
    {
      if leaf == LeafStart() && now > 12 + P then Mod(now - 12 - P, P) else 0
    }

    /** The slots the truncation walks over. */
    predicate Releases(s: Slot)
      requires P > 0
    {
      match s
      case Root(k) => if k < 12 then now <= k < was else if k == 12 then HasIndirect() && now <= 12 else HasDouble() && now <= 12 + P
      case Child(Root(k), i) => if k == 12 then HasIndirect() && IndStart() <= i < IndEnd() else HasDouble() && LeafStart() <= i < LeafEnd()
      case Child(Child(q, i), j) => HasDouble() && LeafStart() <= i < LeafEnd() && EntryStart(i) <= j
    }
  }

  // ----- releasing slot by slot -----

  ghost function BlocksOf(geo: Geometry, d: Disk, tree: Tree, done: seq<Slot>): iset<nat>
    requires DiskOk(geo, d) && TreeOk(tree) && forall s :: s in done ==> SlotOk(geo, s)
  {
    iset s | s in done :: PtrAt(geo, d, tree, s)
  }

  /** d is d0 with the blocks behind the slots in `done` marked free, and nothing else. */
  ghost predicate Freed(geo: Geometry, d0: Disk, tree: Tree, d: Disk, done: seq<Slot>) {
    && Formatted(geo, d0) && Formatted(geo, d) && TreeOk(tree) && NoDup(done)
    && (forall s :: s in done ==> SlotOk(geo, s) && PtrAt(geo, d0, tree, s) != 0)
    && (forall n: nat :: n !in geo.reserved ==> Read(geo, d, n) == Read(geo, d0, n))
    && Marked(geo, d) == Marked(geo, d0) - BlocksOf(geo, d0, tree, done)
  }

  /** The tree of a sound file: its blocks are marked, outside the layout, and distinct. */
  ghost predicate Owned(geo: Geometry, d: Disk, tree: Tree) {
    && Formatted(geo, d) && TreeOk(tree)
    && (forall s :: SlotOk(geo, s) && PtrAt(geo, d, tree, s) != 0 ==>
          PtrAt(geo, d, tree, s) in Marked(geo, d) && PtrAt(geo, d, tree, s) !in geo.reserved)
    && (forall s, t :: SlotOk(geo, s) && SlotOk(geo, t) && s != t && PtrAt(geo, d, tree, s) != 0 ==>
          PtrAt(geo, d, tree, s) != PtrAt(geo, d, tree, t))
  }

  lemma FreedOne(geo: Geometry, d0: Disk, tree: Tree, d: Disk, done: seq<Slot>, s: Slot, d': Disk)
    requires Owned(geo, d0, tree) && Freed(geo, d0, tree, d, done)
    requires SlotOk(geo, s) && s !in done && PtrAt(geo, d0, tree, s) != 0
    requires Released(geo, d, d', PtrAt(geo, d0, tree, s))
    ensures Freed(geo, d0, tree, d', done + [s])
  {
    hide PtrAt;
    hide SlotOk;
    hide TreeOk;
    hide Marked;
    hide Used;
    hide BlocksOf;
    BlocksMore(geo, d0, tree, done, s);
  }

  lemma BlocksMore(geo: Geometry, d: Disk, tree: Tree, done: seq<Slot>, s: Slot)
    requires DiskOk(geo, d) && TreeOk(tree) && SlotOk(geo, s) && forall t :: t in done ==> SlotOk(geo, t)
    ensures BlocksOf(geo, d, tree, done + [s]) == BlocksOf(geo, d, tree, done) + iset{PtrAt(geo, d, tree, s)}
  {
    hide PtrAt;
    hide SlotOk;
    hide TreeOk;
    hide DiskOk;
    assert s == (done + [s])[|done|];
    forall t | t in done ensures t in done + [s] {}
  }

  method FreeSlot(vol: Volume, b: nat, ghost d0: Disk, ghost tree: Tree, ghost done: seq<Slot>, ghost s: Slot)
    requires vol.Ok() && Owned(vol.geo, d0, tree) && Freed(vol.geo, d0, tree, vol.disk, done)
    requires SlotOk(vol.geo, s) && s !in done && b == PtrAt(vol.geo, d0, tree, s) && b != 0
    modifies vol
    ensures vol.Ok() && Freed(vol.geo, d0, tree, vol.disk, done + [s])
  {
    ghost var d := vol.disk;
    assert b in Marked(vol.geo, d0);
    vol.FreeBlock(b);
    FreedOne(vol.geo, d0, tree, d, done, s, vol.disk);
  }

  /** done is done0 together with exactly the mapped slots that satisfy `among`. */
  ghost predicate Adds(geo: Geometry, d0: Disk, tree: Tree, done0: seq<Slot>, done: seq<Slot>, among: Slot -> bool)
    requires DiskOk(geo, d0) && TreeOk(tree)
  {
    forall s :: s in done <==> s in done0 || (SlotOk(geo, s) && among(s) && PtrAt(geo, d0, tree, s) != 0)
  }

  /** The entries [from, upto) of the pointer block behind slot q. */
  ghost function Entries(q: Slot, from: nat, upto: nat): Slot -> bool {
    (s: Slot) => s.Child? && s.parent == q && from <= s.idx < upto
  }

  /** Releases the entries [from, upto) of pointer block p, the block behind slot q. */
  method FreeEntries(vol: Volume, p: nat, from: nat, upto: nat,
                     ghost d0: Disk, ghost tree: Tree, ghost done0: seq<Slot>, ghost q: Slot) returns (ghost done: seq<Slot>)
    requires vol.Ok() && Owned(vol.geo, d0, tree) && Freed(vol.geo, d0, tree, vol.disk, done0)
    requires SlotOk(vol.geo, q) && IsPointer(q) && p == PtrAt(vol.geo, d0, tree, q) && p != 0
    requires upto <= Ptrs(vol.geo) && forall s :: s in done0 && s.Child? ==> s.parent != q
    modifies vol
    ensures vol.Ok() && Freed(vol.geo, d0, tree, vol.disk, done)
    ensures Adds(vol.geo, d0, tree, done0, done, Entries(q, from, upto))
  {
    hide Freed;
    hide Adds;
    hide Formatted;
    hide Owned;
    done := done0;
    var entries := vol.ReadBlock(p);
    EntriesRead(vol.geo, d0, tree, vol.disk, done0, q);
    AddedNone(vol.geo, d0, tree, done0, Entries(q, from, from));
    var i := from;
    while i < upto
      invariant i == from || i <= upto
      invariant vol.Ok() && Freed(vol.geo, d0, tree, vol.disk, done)
      invariant Adds(vol.geo, d0, tree, done0, done, Entries(q, from, i)) && i >= from
    {
      ghost var s := Child(q, i);
      NotYet(vol.geo, d0, tree, done0, done, q, from, i);
      ghost var before := done;
      if U32(entries, 4 * i) != 0 {
        FreeSlot(vol, U32(entries, 4 * i), d0, tree, done, s);
        done := done + [s];
      }
      AddedOne(vol.geo, d0, tree, done0, before, done, q, from, i);
      i := i + 1;
    }
    AddedSame(vol.geo, d0, tree, done0, done, Entries(q, from, i), Entries(q, from, upto));
  }

  lemma EntriesRead(geo: Geometry, d0: Disk, tree: Tree, d: Disk, done: seq<Slot>, q: Slot)
    requires Owned(geo, d0, tree) && Freed(geo, d0, tree, d, done) && SlotOk(geo, q) && IsPointer(q)
    requires PtrAt(geo, d0, tree, q) != 0
    ensures DiskOk(geo, d0) && TreeOk(tree) && DiskOk(geo, d)
    ensures Read(geo, d, PtrAt(geo, d0, tree, q)) == Read(geo, d0, PtrAt(geo, d0, tree, q))
    ensures forall i: nat :: i < Ptrs(geo) ==>
              SlotOk(geo, Child(q, i)) && PtrAt(geo, d0, tree, Child(q, i)) == U32(Read(geo, d, PtrAt(geo, d0, tree, q)), 4 * i)
  {
  }

  lemma NotYet(geo: Geometry, d0: Disk, tree: Tree, done0: seq<Slot>, done: seq<Slot>, q: Slot, from: nat, i: nat)
    requires DiskOk(geo, d0) && TreeOk(tree) && Adds(geo, d0, tree, done0, done, Entries(q, from, i))
    requires forall s :: s in done0 && s.Child? ==> s.parent != q
    ensures Child(q, i) !in done
  {
  }

  lemma AddedNone(geo: Geometry, d0: Disk, tree: Tree, done: seq<Slot>, among: Slot -> bool)
    requires DiskOk(geo, d0) && TreeOk(tree) && forall s :: !among(s)
    ensures Adds(geo, d0, tree, done, done, among)
  {
  }

  lemma AddedSame(geo: Geometry, d0: Disk, tree: Tree, done0: seq<Slot>, done: seq<Slot>, among: Slot -> bool, among': Slot -> bool)
    requires DiskOk(geo, d0) && TreeOk(tree) && Adds(geo, d0, tree, done0, done, among)
    requires forall s :: SlotOk(geo, s) && PtrAt(geo, d0, tree, s) != 0 ==> among(s) == among'(s)
    ensures Adds(geo, d0, tree, done0, done, among')
  {
  }

  lemma AddedOne(geo: Geometry, d0: Disk, tree: Tree, done0: seq<Slot>, before: seq<Slot>, done: seq<Slot>, q: Slot, from: nat, i: nat)
    requires DiskOk(geo, d0) && TreeOk(tree) && SlotOk(geo, Child(q, i)) && from <= i
    requires Adds(geo, d0, tree, done0, before, Entries(q, from, i))
    requires done == if PtrAt(geo, d0, tree, Child(q, i)) != 0 then before + [Child(q, i)] else before
    ensures Adds(geo, d0, tree, done0, done, Entries(q, from, i + 1))
  {
  }

  lemma AddsChain(geo: Geometry, d0: Disk, tree: Tree, done0: seq<Slot>, done1: seq<Slot>, done2: seq<Slot>,
                  first: Slot -> bool, second: Slot -> bool, both: Slot -> bool)
    requires DiskOk(geo, d0) && TreeOk(tree)
    requires Adds(geo, d0, tree, done0, done1, first) && Adds(geo, d0, tree, done1, done2, second)
    requires forall s :: SlotOk(geo, s) && PtrAt(geo, d0, tree, s) != 0 ==> both(s) == (first(s) || second(s))
    ensures Adds(geo, d0, tree, done0, done2, both)
  {
  }

  lemma AddsRoot(geo: Geometry, d0: Disk, tree: Tree, done: seq<Slot>, s: Slot)
    requires DiskOk(geo, d0) && TreeOk(tree) && SlotOk(geo, s) && PtrAt(geo, d0, tree, s) != 0
    ensures Adds(geo, d0, tree, done, done + [s], Just(s))
  {
  }

  ghost function Just(s: Slot): Slot -> bool { (t: Slot) => t == s }

  lemma AddsKeepsOut(geo: Geometry, d0: Disk, tree: Tree, done0: seq<Slot>, done: seq<Slot>, among: Slot -> bool)
    requires DiskOk(geo, d0) && TreeOk(tree) && Adds(geo, d0, tree, done0, done, among)
    ensures forall s :: s !in done0 && !among(s) ==> s !in done
  {
  }

  /** What truncating has done so far: the blocks behind `done` are free, and `done` is
      exactly the mapped slots that satisfy `among`. */
  ghost predicate Shrunk(geo: Geometry, d0: Disk, tree: Tree, d: Disk, done: seq<Slot>, among: Slot -> bool) {
    && Owned(geo, d0, tree) && DiskOk(geo, d0) && TreeOk(tree)
    && Freed(geo, d0, tree, d, done) && Adds(geo, d0, tree, [], done, among)
  }

  ghost function Directs(from: nat, upto: nat): Slot -> bool {
    (s: Slot) => s.Root? && s.k < 12 && from <= s.k < upto
  }

  /** The direct blocks past the new end: released, and cleared in the inode. */
  method FreeDirects(vol: Volume, e: InodeBuf, cut: Cut, ghost d0: Disk, ghost tree: Tree) returns (ghost done: seq<Slot>)
    requires vol.Ok() && Owned(vol.geo, d0, tree) && d0 == vol.disk && tree == e.block && TreeOk(tree)
    modifies vol, e`block
    ensures vol.Ok() && TreeOk(e.block) && Shrunk(vol.geo, d0, tree, vol.disk, done, Directs(cut.now, cut.was))
    ensures e.block == seq(15, k requires 0 <= k < 15 => if k < 12 && cut.now <= k < cut.was then 0 else tree[k])
  {
    hide Freed;
    hide Adds;
    hide Formatted;
    hide Owned;
    done := [];
    FreedNone(vol.geo, d0, tree);
    AddedNone(vol.geo, d0, tree, [], Directs(cut.now, cut.now));
    var i := cut.now;
    while i < cut.was && i < 12
      invariant i >= cut.now && (i == cut.now || (i <= cut.was && i <= 12))
      invariant vol.Ok() && Freed(vol.geo, d0, tree, vol.disk, done) && Adds(vol.geo, d0, tree, [], done, Directs(cut.now, i))
      invariant |e.block| == 15 && forall k :: 0 <= k < 15 ==> e.block[k] == if k < 12 && cut.now <= k < i then 0 else tree[k]
    {
      AddsKeepsOut(vol.geo, d0, tree, [], done, Directs(cut.now, i));
      ghost var before := done;
      if e.block[i] != 0 {
        FreeSlot(vol, e.block[i], d0, tree, done, Root(i));
        done := done + [Root(i)];
        e.block := e.block[i := 0];
      }
      AddedRoot(vol.geo, d0, tree, before, done, cut.now, i);
      i := i + 1;
    }
    AddedSame(vol.geo, d0, tree, [], done, Directs(cut.now, i), Directs(cut.now, cut.was));
  }

  lemma FreedNone(geo: Geometry, d: Disk, tree: Tree)
    requires Owned(geo, d, tree)
    ensures DiskOk(geo, d) && Freed(geo, d, tree, d, [])
  {
  }

  lemma AddedRoot(geo: Geometry, d0: Disk, tree: Tree, before: seq<Slot>, done: seq<Slot>, from: nat, i: nat)
    requires DiskOk(geo, d0) && TreeOk(tree) && from <= i < 12
    requires Adds(geo, d0, tree, [], before, Directs(from, i))
    requires done == if tree[i] != 0 then before + [Root(i)] else before
    ensures Adds(geo, d0, tree, [], done, Directs(from, i + 1))
  {
    assert PtrAt(geo, d0, tree, Root(i)) == tree[i] && SlotOk(geo, Root(i));
    hide PtrAt;
    hide SlotOk;
    forall s
      ensures s in done <==> SlotOk(geo, s) && Directs(from, i + 1)(s) && PtrAt(geo, d0, tree, s) != 0
    {
      if s != Root(i) {
        assert s in done <==> s in before;
        assert Directs(from, i + 1)(s) <==> Directs(from, i)(s);
      }
    }
  }

  /** Releases root k and clears it in the inode. */
  method FreeRoot(vol: Volume, e: InodeBuf, k: nat, ghost d0: Disk, ghost tree: Tree, ghost done0: seq<Slot>) returns (ghost done: seq<Slot>)
    requires vol.Ok() && Owned(vol.geo, d0, tree) && Freed(vol.geo, d0, tree, vol.disk, done0)
    requires k < 14 && TreeOk(tree) && DiskOk(vol.geo, d0) && |e.block| == 15 && e.block[k] == tree[k] != 0 && Root(k) !in done0
    modifies vol, e`block
    ensures vol.Ok() && Freed(vol.geo, d0, tree, vol.disk, done) && Adds(vol.geo, d0, tree, done0, done, Just(Root(k)))
    ensures e.block == old(e.block)[k := 0]
  {
    hide Freed;
    hide Adds;
    hide Formatted;
    hide Owned;
    assert PtrAt(vol.geo, d0, tree, Root(k)) == tree[k];
    FreeSlot(vol, e.block[k], d0, tree, done0, Root(k));
    AddsRoot(vol.geo, d0, tree, done0, Root(k));
    done := done0 + [Root(k)];
    e.block := e.block[k := 0];
  }

  /** Writes a pointer block back with the contents it was read with. */
  method WriteBack(vol: Volume, p: nat, ghost d0: Disk, ghost tree: Tree, ghost done: seq<Slot>, ghost q: Slot)
    requires vol.Ok() && Owned(vol.geo, d0, tree) && Freed(vol.geo, d0, tree, vol.disk, done)
    requires SlotOk(vol.geo, q) && p == PtrAt(vol.geo, d0, tree, q) && p != 0
    modifies vol`disk
    ensures vol.Ok() && Freed(vol.geo, d0, tree, vol.disk, done)
  {
    WriteKeepsFormat(vol.geo, vol.disk, p, Read(vol.geo, vol.disk, p));
    vol.WriteBlock(p, Read(vol.geo, vol.disk, p));
  }

  ghost function Indirects(cut: Cut): Slot -> bool {
    (s: Slot) => (s == Root(12) && cut.HasIndirect() && cut.now <= 12)
                 || (cut.HasIndirect() && Entries(Root(12), cut.IndStart(), cut.IndEnd())(s))
  }

  /** The single-indirect entries past the new end, and the block itself
      once no entry is kept. */
  method FreeIndirect(vol: Volume, e: InodeBuf, cut: Cut, ghost d0: Disk, ghost tree: Tree, ghost done0: seq<Slot>) returns (ghost done: seq<Slot>)
    requires vol.Ok() && Owned(vol.geo, d0, tree) && Freed(vol.geo, d0, tree, vol.disk, done0)
    requires TreeOk(tree) && DiskOk(vol.geo, d0) && |e.block| == 15 && e.block[12] == tree[12] && cut.P == Ptrs(vol.geo)
    requires forall s :: s in done0 ==> s.Root? && s.k < 12
    modifies vol, e`block
    ensures vol.Ok() && Freed(vol.geo, d0, tree, vol.disk, done)
    ensures Adds(vol.geo, d0, tree, done0, done, Indirects(cut))
    ensures e.block == old(e.block)[12 := if cut.HasIndirect() && cut.now <= 12 then 0 else tree[12]]
  {
    hide Freed;
    hide Adds;
    hide Formatted;
    hide Owned;
    ghost var geo := vol.geo;
    done := done0;
    assert PtrAt(geo, d0, tree, Root(12)) == tree[12];
    if cut.was > 12 && e.block[12] != 0 {
      var p := e.block[12];
      ghost var done1 := FreeEntries(vol, p, cut.IndStart(), cut.IndEnd(), d0, tree, done0, Root(12));
      if cut.now <= 12 {
        AddsKeepsOut(geo, d0, tree, done0, done1, Entries(Root(12), cut.IndStart(), cut.IndEnd()));
        done := FreeRoot(vol, e, 12, d0, tree, done1);
        AddsChain(geo, d0, tree, done0, done1, done, Entries(Root(12), cut.IndStart(), cut.IndEnd()), Just(Root(12)), Indirects(cut));
      } else {
        WriteBack(vol, p, d0, tree, done1, Root(12));
        done := done1;
        AddedSame(geo, d0, tree, done0, done, Entries(Root(12), cut.IndStart(), cut.IndEnd()), Indirects(cut));
      }
    } else {
      NothingIndirect(geo, d0, tree, done0, cut);
    }
  }

  lemma NothingIndirect(geo: Geometry, d0: Disk, tree: Tree, done: seq<Slot>, cut: Cut)
    requires DiskOk(geo, d0) && TreeOk(tree) && !(cut.was > 12 && tree[12] != 0)
    ensures Adds(geo, d0, tree, done, done, Indirects(cut))
  {
    forall s | SlotOk(geo, s) && Indirects(cut)(s)
      ensures PtrAt(geo, d0, tree, s) == 0
    {
      assert PtrAt(geo, d0, tree, Root(12)) == tree[12];
      if s.Child? {
        assert Entries(Root(12), cut.IndStart(), cut.IndEnd())(s);
        assert s.parent == Root(12) && PtrAt(geo, d0, tree, s.parent) == 0;
      } else {
        assert !Entries(Root(12), cut.IndStart(), cut.IndEnd())(s);
      }
    }
  }

  /** The leaves [LeafStart, upto) of the double-indirect tree and their released entries. */
  ghost function Leaves(cut: Cut, upto: nat): Slot -> bool
    requires cut.P > 0
  {
    (s: Slot) =>
      match s
      case Root(_) => false
      case Child(Root(k), i) => k == 13 && cut.LeafStart() <= i < upto
      case Child(Child(q, i), j) => q == Root(13) && cut.LeafStart() <= i < upto && cut.EntryStart(i) <= j
  }

  ghost function Doubles(cut: Cut): Slot -> bool
    requires cut.P > 0
  {
    (s: Slot) => cut.HasDouble() && ((s == Root(13) && cut.now <= 12 + cut.P) || Leaves(cut, cut.LeafEnd())(s))
  }

  /** One leaf: its entries from EntryStart on, then the leaf block itself. */
  method FreeLeaf(vol: Volume, leaf: nat, di: nat, cut: Cut,
                  ghost d0: Disk, ghost tree: Tree, ghost done0: seq<Slot>, ghost done1: seq<Slot>) returns (ghost done: seq<Slot>)
    requires vol.Ok() && Owned(vol.geo, d0, tree) && Freed(vol.geo, d0, tree, vol.disk, done1)
    requires TreeOk(tree) && DiskOk(vol.geo, d0) && cut.P == Ptrs(vol.geo) && cut.LeafStart() <= di < cut.P
    requires leaf == PtrAt(vol.geo, d0, tree, Child(Root(13), di))
    requires forall s :: s in done0 ==> Early(s)
    requires Adds(vol.geo, d0, tree, done0, done1, Leaves(cut, di))
    modifies vol
    ensures vol.Ok() && Freed(vol.geo, d0, tree, vol.disk, done)
    ensures Adds(vol.geo, d0, tree, done0, done, Leaves(cut, di + 1))
  {
    hide Freed;
    hide Adds;
    hide Formatted;
    hide Owned;
    ghost var geo := vol.geo;
    ghost var q := Child(Root(13), di);
    if leaf == 0 {
      done := done1;
      AddedSame(geo, d0, tree, done0, done1, Leaves(cut, di), Leaves(cut, di + 1));
    } else {
      AddsOnly(geo, d0, tree, done0, done1, Leaves(cut, di));
      ghost var done2 := FreeEntries(vol, leaf, cut.EntryStart(di), cut.P, d0, tree, done1, q);
      AddsOnly(geo, d0, tree, done1, done2, Entries(q, cut.EntryStart(di), cut.P));
      FreeSlot(vol, leaf, d0, tree, done2, q);
      AddsRoot(geo, d0, tree, done2, q);
      done := done2 + [q];
      ghost var both := (s: Slot) => Leaves(cut, di)(s) || Entries(q, cut.EntryStart(di), cut.P)(s);
      AddsChain(geo, d0, tree, done0, done1, done2, Leaves(cut, di), Entries(q, cut.EntryStart(di), cut.P), both);
      AddsChain(geo, d0, tree, done0, done2, done, both, Just(q), Leaves(cut, di + 1));
    }
  }

  /** Slots outside the double-indirect tree. */
  predicate Early(s: Slot) {
    match s
    case Root(k) => k <= 12
    case Child(q, _) => q == Root(12)
  }

  lemma AddsOnly(geo: Geometry, d0: Disk, tree: Tree, done0: seq<Slot>, done: seq<Slot>, among: Slot -> bool)
    requires DiskOk(geo, d0) && TreeOk(tree) && Adds(geo, d0, tree, done0, done, among)
    ensures forall s :: s in done ==> s in done0 || among(s)
  {
  }

  /** The double-indirect leaves past the new end. */
  method FreeDouble(vol: Volume, e: InodeBuf, cut: Cut, ghost d0: Disk, ghost tree: Tree, ghost done0: seq<Slot>) returns (ghost done: seq<Slot>)
    requires vol.Ok() && Owned(vol.geo, d0, tree) && Freed(vol.geo, d0, tree, vol.disk, done0)
    requires TreeOk(tree) && DiskOk(vol.geo, d0) && |e.block| == 15 && e.block[13] == tree[13] && cut.P == Ptrs(vol.geo) > 0
    requires forall s :: s in done0 ==> Early(s)
    modifies vol, e`block
    ensures vol.Ok() && Freed(vol.geo, d0, tree, vol.disk, done)
    ensures Adds(vol.geo, d0, tree, done0, done, Doubles(cut))
    ensures e.block == old(e.block)[13 := if cut.HasDouble() && cut.now <= 12 + cut.P then 0 else tree[13]]
  {
    hide Freed;
    hide Adds;
    hide Formatted;
    hide Owned;
    ghost var geo := vol.geo;
    assert PtrAt(geo, d0, tree, Root(13)) == tree[13];
    if cut.was > 12 + cut.P && e.block[13] != 0 {
      var p := e.block[13];
      ghost var done1 := FreeLeaves(vol, p, cut, d0, tree, done0);
      if cut.now <= 12 + cut.P {
        AddsOnly(geo, d0, tree, done0, done1, Leaves(cut, cut.LeafEnd()));
        done := FreeRoot(vol, e, 13, d0, tree, done1);
        AddsChain(geo, d0, tree, done0, done1, done, Leaves(cut, cut.LeafEnd()), Just(Root(13)), Doubles(cut));
      } else {
        WriteBack(vol, p, d0, tree, done1, Root(13));
        done := done1;
        AddedSame(geo, d0, tree, done0, done, Leaves(cut, cut.LeafEnd()), Doubles(cut));
      }
    } else {
      done := done0;
      NothingDouble(geo, d0, tree, done0, cut);
    }
  }

  /** The loop over the leaves. */
  method FreeLeaves(vol: Volume, p: nat, cut: Cut, ghost d0: Disk, ghost tree: Tree, ghost done0: seq<Slot>) returns (ghost done: seq<Slot>)
    requires vol.Ok() && Owned(vol.geo, d0, tree) && Freed(vol.geo, d0, tree, vol.disk, done0)
    requires TreeOk(tree) && DiskOk(vol.geo, d0) && p == tree[13] != 0 && cut.was > 12 + cut.P && cut.P == Ptrs(vol.geo) > 0
    requires forall s :: s in done0 ==> Early(s)
    modifies vol
    ensures vol.Ok() && Freed(vol.geo, d0, tree, vol.disk, done)
    ensures Adds(vol.geo, d0, tree, done0, done, Leaves(cut, cut.LeafEnd()))
  {
    hide Freed;
    hide Adds;
    hide Formatted;
    hide Owned;
    ghost var geo := vol.geo;
    assert PtrAt(geo, d0, tree, Root(13)) == tree[13];
    var entries := vol.ReadBlock(p);
    EntriesRead(geo, d0, tree, vol.disk, done0, Root(13));
    done := done0;
    AddedNone(geo, d0, tree, done0, Leaves(cut, cut.LeafStart()));
    var di := cut.LeafStart();
    while di < cut.LeafEnd()
      invariant di >= cut.LeafStart() && (di == cut.LeafStart() || di <= cut.LeafEnd())
      invariant vol.Ok() && Freed(geo, d0, tree, vol.disk, done) && Adds(geo, d0, tree, done0, done, Leaves(cut, di))
    {
      done := FreeLeaf(vol, U32(entries, 4 * di), di, cut, d0, tree, done0, done);
      di := di + 1;
    }
    AddedSame(geo, d0, tree, done0, done, Leaves(cut, di), Leaves(cut, cut.LeafEnd()));
  }

  lemma NothingDouble(geo: Geometry, d0: Disk, tree: Tree, done: seq<Slot>, cut: Cut)
    requires DiskOk(geo, d0) && TreeOk(tree) && cut.P > 0 && !(cut.was > 12 + cut.P && tree[13] != 0)
    ensures Adds(geo, d0, tree, done, done, Doubles(cut))
  {
    forall s | SlotOk(geo, s) && Doubles(cut)(s)
      ensures PtrAt(geo, d0, tree, s) == 0
    {
      assert PtrAt(geo, d0, tree, Root(13)) == tree[13];
      if s.Child? {
        assert Leaves(cut, cut.LeafEnd())(s);
        if s.parent.Child? { assert PtrAt(geo, d0, tree, s.parent.parent) == 0; }
        assert PtrAt(geo, d0, tree, s.parent) == 0;
      } else {
        assert !Leaves(cut, cut.LeafEnd())(s);
      }
    }
  }

  // ----- the whole truncation -----

  /** The i_block array a truncation leaves. */
  function CutTree(cut: Cut, tree: Tree): (r: Tree)
    requires TreeOk(tree)
    ensures TreeOk(r)
  {
    seq(15, k requires 0 <= k < 15 => if Clears(cut, k) then 0 else tree[k])
  }

  predicate Clears(cut: Cut, k: nat) {
    if k < 12 then cut.now <= k < cut.was
    else if k == 12 then cut.HasIndirect() && cut.now <= 12
    else k == 13 && cut.HasDouble() && cut.now <= 12 + cut.P
  }

  ghost function Releasing(cut: Cut): Slot -> bool
    requires cut.P > 0
  {
    (s: Slot) => cut.Releases(s)
  }

  lemma ReleasesSplit(geo: Geometry, cut: Cut, s: Slot)
    requires cut.P > 0 && SlotOk(geo, s)
    ensures cut.Releases(s) == (Directs(cut.now, cut.was)(s) || Indirects(cut)(s) || Doubles(cut)(s))
  {
    assert Entries(Root(12), cut.IndStart(), cut.IndEnd())(s) == (s.Child? && s.parent == Root(12) && cut.IndStart() <= s.idx < cut.IndEnd());
    match s
    case Root(_) => assert !Leaves(cut, cut.LeafEnd())(s);
    case Child(Root(k), i) => assert Leaves(cut, cut.LeafEnd())(s) == (k == 13 && cut.LeafStart() <= i < cut.LeafEnd());
    case Child(Child(q, i), j) =>
      assert SlotOk(geo, Child(q, i)) && q == Root(13);
      assert Leaves(cut, cut.LeafEnd())(s) == (cut.LeafStart() <= i < cut.LeafEnd() && cut.EntryStart(i) <= j);
  }

  function Blocks(geo: Geometry, size: nat): nat
    requires geo.bs > 0
  {
    Div(size + geo.bs - 1, geo.bs)
  }

  function CutFor(geo: Geometry, size: nat, newSize: nat): Cut
    requires geo.bs > 0
  {
    Cut(Blocks(geo, size), Blocks(geo, newSize), Ptrs(geo))
  }

  lemma CutShrinks(geo: Geometry, size: nat, newSize: nat)
    requires geo.bs > 0 && newSize <= size
    ensures CutFor(geo, size, newSize).now <= CutFor(geo, size, newSize).was
  {
    DivMono(newSize + geo.bs - 1, size + geo.bs - 1, geo.bs);
  }

  // ----- file blocks and the cut -----

  /** The first file block that shares its leaf with fb; fb itself outside the double-indirect range. */
  function LeafBase(P: nat, fb: nat): nat
    requires P > 0
  {
    if fb < 12 + P then fb else fb - Mod(fb - 12 - P, P)
  }

  /** The cut walks over a data slot if and only if its file block is not below the cut and starts,
      or has a leaf that starts, before the old end. */
  lemma ReleasedExactly(geo: Geometry, cut: Cut, fb: nat)
    requires cut.P == Ptrs(geo) > 0 && Mappable(geo, fb) && cut.now <= cut.was
    ensures cut.Releases(SlotFor(geo, fb)) <==> cut.now <= fb && LeafBase(cut.P, fb) < cut.was
  {
    hide Div;
    hide Mod;
    SlotForOk(geo, fb);
    if fb >= 12 + cut.P {
      var x := fb - 12 - cut.P;
      Split(x, cut.P);
      if cut.HasDouble() { LeafBefore(Div(x, cut.P), cut.was - 12 - cut.P, cut.P); }
      if cut.now > 12 + cut.P {
        var y := cut.now - 12 - cut.P;
        Split(y, cut.P);
        if x < y { DivMono(x, y, cut.P); } else { DivMono(y, x, cut.P); }
        assert x < y ==> Div(x, cut.P) < Div(y, cut.P) || Mod(x, cut.P) < Mod(y, cut.P);
      }
    }
  }

  /** A leaf is walked over if and only if it covers a file block that is not below the cut and one
      before the old end. */
  lemma LeavesExactly(geo: Geometry, cut: Cut, i: nat)
    requires cut.P == Ptrs(geo) > 0 && i < cut.P && cut.now <= cut.was
    ensures cut.Releases(Child(Root(13), i)) <==>
            cut.now < 12 + cut.P + Mul(i, cut.P) + cut.P && 12 + cut.P + Mul(i, cut.P) < cut.was
  {
    hide Div;
    hide Mod;
    if cut.HasDouble() { LeafBefore(i, cut.was - 12 - cut.P, cut.P); }
    if cut.now > 12 + cut.P {
      var y := cut.now - 12 - cut.P;
      Split(y, cut.P);
      if Div(y, cut.P) <= i { MulMono(Div(y, cut.P), i, cut.P); } else { MulMono(i, Div(y, cut.P), cut.P); }
    }
  }

  /** Leaf i starts before w if and only if it is one of the first w / m leaves, rounded up. */
  lemma LeafBefore(i: nat, w: nat, m: nat)
    requires m > 0
    ensures i < Div(w + m - 1, m) <==> Mul(i, m) < w
  {
    var q := Div(w + m - 1, m);
    Split(w + m - 1, m);
    if i < q {
      MulMono(i, q, m);
    } else {
      MulMono(q, i, m);
    }
  }

  /** Of the data blocks of the file exactly those the cut walks over are no longer marked: each one
      below the cut still is. */
  ghost predicate MarksCut(geo: Geometry, d0: Disk, tree: Tree, d: Disk, cut: Cut)
    requires geo.Valid() && DiskOk(geo, d0) && DiskOk(geo, d) && TreeOk(tree) && cut.P > 0
  {
    forall fb: nat :: DataPtr(geo, d0, tree, fb) != 0 ==>
      (DataPtr(geo, d0, tree, fb) in Marked(geo, d) <==> !(cut.now <= fb && LeafBase(cut.P, fb) < cut.was))
  }

  /** This holds of every cut of a sound file, clean or not. */
  lemma CutMarks(geo: Geometry, d0: Disk, tree: Tree, d: Disk, done: seq<Slot>, cut: Cut)
    requires geo.Valid() && cut.P == Ptrs(geo) > 0 && cut.now <= cut.was && Shrunk(geo, d0, tree, d, done, Releasing(cut))
    ensures MarksCut(geo, d0, tree, d, cut)
  {
    hide LeafBase;
    forall fb: nat | DataPtr(geo, d0, tree, fb) != 0
      ensures DataPtr(geo, d0, tree, fb) in Marked(geo, d) <==> !(cut.now <= fb && LeafBase(cut.P, fb) < cut.was)
    {
      CutMarksAt(geo, d0, tree, d, done, cut, fb);
    }
  }

  lemma CutMarksAt(geo: Geometry, d0: Disk, tree: Tree, d: Disk, done: seq<Slot>, cut: Cut, fb: nat)
    requires geo.Valid() && cut.P == Ptrs(geo) > 0 && cut.now <= cut.was && Shrunk(geo, d0, tree, d, done, Releasing(cut))
    requires DataPtr(geo, d0, tree, fb) != 0
    ensures DataPtr(geo, d0, tree, fb) in Marked(geo, d) <==> !(cut.now <= fb && LeafBase(cut.P, fb) < cut.was)
  {
    hide PtrAt;
    SlotForOk(geo, fb);
    var s := SlotFor(geo, fb);
    ReleasedExactly(geo, cut, fb);
    assert Releasing(cut)(s) == cut.Releases(s);
    if s in done {
      assert PtrAt(geo, d0, tree, s) in BlocksOf(geo, d0, tree, done);
    } else {
      assert forall t :: t in done ==> PtrAt(geo, d0, tree, t) != PtrAt(geo, d0, tree, s);
    }
  }

  /** ext2_truncate on the inode in e. `done` lists, without repetition, the slots whose
      blocks were handed back to the allocator. */
  method Truncate(vol: Volume, e: InodeBuf, newSize: nat) returns (ghost done: seq<Slot>)
    requires vol.Ok() && TreeOk(e.block) && Owned(vol.geo, vol.disk, e.block)
    requires e.size + vol.geo.bs <= TWO32 && newSize < TWO32
    modifies vol, e
    ensures vol.Ok() && TreeOk(e.block) && e.size == newSize
    ensures newSize >= old(e.size) ==> vol.disk == old(vol.disk) && e.block == old(e.block) && done == []
    ensures newSize < old(e.size) ==>
              var cut := CutFor(vol.geo, old(e.size), newSize);
              Shrunk(vol.geo, old(vol.disk), old(e.block), vol.disk, done, Releasing(cut)) && e.block == CutTree(cut, old(e.block))
    ensures newSize < old(e.size) ==>
              MarksCut(vol.geo, old(vol.disk), old(e.block), vol.disk, CutFor(vol.geo, old(e.size), newSize))
  {
    hide Freed;
    hide Adds;
    hide Formatted;
    hide Owned;
    hide MarksCut;
    hide Div;
    done := [];
    if newSize >= e.size {
      e.size := newSize;
      return;
    }
    var cut := CutFor(vol.geo, e.size, newSize);
    ghost var geo, d0, tree := vol.geo, vol.disk, e.block;
    ghost var done1 := FreeDirects(vol, e, cut, d0, tree);
    AddsOnly(geo, d0, tree, [], done1, Directs(cut.now, cut.was));
    ghost var done2 := FreeIndirect(vol, e, cut, d0, tree, done1);
    AddsOnly(geo, d0, tree, done1, done2, Indirects(cut));
    forall s | Indirects(cut)(s)
      ensures Early(s)
    {
      assert Entries(Root(12), cut.IndStart(), cut.IndEnd())(s) ==> s.parent == Root(12);
    }
    done := FreeDouble(vol, e, cut, d0, tree, done2);
    assert e.block == CutTree(cut, tree);
    ghost var both := (s: Slot) => Directs(cut.now, cut.was)(s) || Indirects(cut)(s);
    AddsChain(geo, d0, tree, [], done1, done2, Directs(cut.now, cut.was), Indirects(cut), both);
    forall s | SlotOk(geo, s)
      ensures Releasing(cut)(s) == (both(s) || Doubles(cut)(s))
    {
      ReleasesSplit(geo, cut, s);
    }
    AddsChain(geo, d0, tree, [], done2, done, both, Doubles(cut), Releasing(cut));
    e.size := newSize;
    CutShrinks(geo, old(e.size), newSize);
    CutMarks(geo, d0, tree, vol.disk, done, cut);
  }

  // ----- what it means for the file -----

  function RootOf(s: Slot): nat {
    match s
    case Root(k) => k
    case Child(q, _) => RootOf(q)
  }

  /** After the cut a slot is empty if its root was cleared, and as before otherwise. */
  lemma {:induction false} TreeAfter(geo: Geometry, d0: Disk, tree: Tree, d: Disk, done: seq<Slot>, cut: Cut, s: Slot)
    requires Owned(geo, d0, tree) && Freed(geo, d0, tree, d, done) && SlotOk(geo, s)
    ensures PtrAt(geo, d, CutTree(cut, tree), s) == if Clears(cut, RootOf(s)) then 0 else PtrAt(geo, d0, tree, s)
  {
    match s
    case Root(k) =>
    case Child(q, i) => TreeAfter(geo, d0, tree, d, done, cut, q);
  }

  /** Nothing is mapped where the truncation releases entries but keeps the block that
      holds them; to at most 12 blocks that is always so. */
  predicate Clean(geo: Geometry, d0: Disk, tree: Tree, cut: Cut)
    requires DiskOk(geo, d0) && TreeOk(tree) && cut.P == Ptrs(geo) > 0
  {
    && (cut.now > 12 ==> forall i :: cut.IndStart() <= i < cut.IndEnd() ==> PtrAt(geo, d0, tree, Child(Root(12), i)) == 0)
    && (cut.now > 12 + cut.P ==> forall i :: cut.LeafStart() <= i < cut.LeafEnd() ==> PtrAt(geo, d0, tree, Child(Root(13), i)) == 0)
  }

  /** In a clean cut every mapped slot that is released lies under a cleared root. */
  lemma CleanReleases(geo: Geometry, d0: Disk, tree: Tree, cut: Cut, s: Slot)
    requires DiskOk(geo, d0) && TreeOk(tree) && cut.P == Ptrs(geo) > 0 && Clean(geo, d0, tree, cut)
    requires SlotOk(geo, s) && cut.Releases(s) && PtrAt(geo, d0, tree, s) != 0
    ensures Clears(cut, RootOf(s))
  {
    match s
    case Root(_) =>
    case Child(Root(k), i) =>
    case Child(Child(q, i), j) =>
      assert SlotOk(geo, Child(q, i)) && q == Root(13);
      assert PtrAt(geo, d0, tree, Child(Root(13), i)) != 0;
  }

  /** The truncated file still owns its blocks if and only if the cut was clean. */
  lemma TruncateExact(geo: Geometry, d0: Disk, tree: Tree, d: Disk, done: seq<Slot>, cut: Cut)
    requires cut.P == Ptrs(geo) > 0 && Shrunk(geo, d0, tree, d, done, Releasing(cut))
    ensures Owned(geo, d, CutTree(cut, tree)) <==> Clean(geo, d0, tree, cut)
  {
    if Clean(geo, d0, tree, cut) {
      CleanKeepsOwned(geo, d0, tree, d, done, cut);
    } else {
      UncleanDangles(geo, d0, tree, d, done, cut);
    }
  }

  lemma CleanKeepsOwned(geo: Geometry, d0: Disk, tree: Tree, d: Disk, done: seq<Slot>, cut: Cut)
    requires cut.P == Ptrs(geo) > 0 && Shrunk(geo, d0, tree, d, done, Releasing(cut)) && Clean(geo, d0, tree, cut)
    ensures Owned(geo, d, CutTree(cut, tree))
  {
    var tree' := CutTree(cut, tree);
    forall s | SlotOk(geo, s)
      ensures PtrAt(geo, d, tree', s) == 0 || PtrAt(geo, d, tree', s) == PtrAt(geo, d0, tree, s)
      ensures PtrAt(geo, d, tree', s) != 0 ==> PtrAt(geo, d, tree', s) in Marked(geo, d)
    {
      TreeAfter(geo, d0, tree, d, done, cut, s);
      if PtrAt(geo, d, tree', s) != 0 { KeptIsMarked(geo, d0, tree, d, done, cut, s); }
    }
  }

  lemma KeptIsMarked(geo: Geometry, d0: Disk, tree: Tree, d: Disk, done: seq<Slot>, cut: Cut, s: Slot)
    requires cut.P == Ptrs(geo) > 0 && Shrunk(geo, d0, tree, d, done, Releasing(cut)) && Clean(geo, d0, tree, cut)
    requires SlotOk(geo, s) && PtrAt(geo, d0, tree, s) != 0 && !Clears(cut, RootOf(s))
    ensures PtrAt(geo, d0, tree, s) in Marked(geo, d)
  {
    var p := PtrAt(geo, d0, tree, s);
    if p in BlocksOf(geo, d0, tree, done) {
      var t :| t in done && PtrAt(geo, d0, tree, t) == p;
      assert t == s;
      assert Releasing(cut)(s);
      CleanReleases(geo, d0, tree, cut, s);
    }
  }

  lemma UncleanDangles(geo: Geometry, d0: Disk, tree: Tree, d: Disk, done: seq<Slot>, cut: Cut)
    requires cut.P == Ptrs(geo) > 0 && Shrunk(geo, d0, tree, d, done, Releasing(cut)) && !Clean(geo, d0, tree, cut)
    ensures !Owned(geo, d, CutTree(cut, tree))
  {
    hide Owned;
    hide CutTree;
    hide BlocksOf;
    hide PtrAt;
    var s: Slot;
    if cut.now > 12 && exists i :: cut.IndStart() <= i < cut.IndEnd() && PtrAt(geo, d0, tree, Child(Root(12), i)) != 0 {
      var i :| cut.IndStart() <= i < cut.IndEnd() && PtrAt(geo, d0, tree, Child(Root(12), i)) != 0;
      s := Child(Root(12), i);
    } else {
      var i :| cut.LeafStart() <= i < cut.LeafEnd() && PtrAt(geo, d0, tree, Child(Root(13), i)) != 0;
      s := Child(Root(13), i);
    }
    Dangles(geo, d0, tree, d, done, cut, s);
  }

  /** A released slot under a kept root points at a block now marked free. */
  lemma Dangles(geo: Geometry, d0: Disk, tree: Tree, d: Disk, done: seq<Slot>, cut: Cut, s: Slot)
    requires cut.P == Ptrs(geo) > 0 && Shrunk(geo, d0, tree, d, done, Releasing(cut))
    requires SlotOk(geo, s) && cut.Releases(s) && !Clears(cut, RootOf(s)) && PtrAt(geo, d0, tree, s) != 0
    ensures !Owned(geo, d, CutTree(cut, tree))
  {
    TreeAfter(geo, d0, tree, d, done, cut, s);
    assert Releasing(cut)(s);
    assert PtrAt(geo, d0, tree, s) in BlocksOf(geo, d0, tree, done);
  }

  /** No pointer of the file lies past its last block. */
  ghost predicate Tight(geo: Geometry, d: Disk, tree: Tree, blocks: nat)
    requires DiskOk(geo, d) && TreeOk(tree)
  {
    && (tree[12] != 0 ==> blocks > 12)
    && (tree[13] != 0 ==> blocks > 12 + Ptrs(geo))
    && (forall k :: 0 <= k < 12 && tree[k] != 0 ==> k < blocks)
    && (forall i: nat :: i < Ptrs(geo) && PtrAt(geo, d, tree, Child(Root(12), i)) != 0 ==> 12 + i < blocks)
    && (forall i: nat :: i < Ptrs(geo) && PtrAt(geo, d, tree, Child(Root(13), i)) != 0 ==> 12 + Ptrs(geo) + Mul(i, Ptrs(geo)) < blocks)
  }

  /** Cutting a file without stray pointers to at most 12 blocks releases every block the
      file loses, each once, and no block it keeps. */
  lemma TruncateConserves(geo: Geometry, d0: Disk, tree: Tree, d: Disk, done: seq<Slot>, cut: Cut)
    requires cut.P == Ptrs(geo) > 0 && Shrunk(geo, d0, tree, d, done, Releasing(cut))
    requires cut.now <= 12 && cut.now <= cut.was && Tight(geo, d0, tree, cut.was)
    ensures Owned(geo, d, CutTree(cut, tree)) && NoDup(done)
    ensures forall s :: SlotOk(geo, s) ==>
              PtrAt(geo, d, CutTree(cut, tree), s) == if s.Root? && s.k < cut.now then tree[s.k] else 0
    ensures forall s :: SlotOk(geo, s) ==> (s in done <==> PtrAt(geo, d0, tree, s) != 0 && PtrAt(geo, d, CutTree(cut, tree), s) == 0)
    ensures Marked(geo, d) == Marked(geo, d0) - BlocksOf(geo, d0, tree, done)
  {
    CleanKeepsOwned(geo, d0, tree, d, done, cut);
    forall s | SlotOk(geo, s)
      ensures PtrAt(geo, d, CutTree(cut, tree), s) == if s.Root? && s.k < cut.now then tree[s.k] else 0
      ensures s in done <==> PtrAt(geo, d0, tree, s) != 0 && PtrAt(geo, d, CutTree(cut, tree), s) == 0
    {
      TreeAfter(geo, d0, tree, d, done, cut, s);
      TightSlot(geo, d0, tree, cut, s);
      assert Releasing(cut)(s) == cut.Releases(s);
    }
  }

  /** Where a mapped slot of a tight file lies relative to the cut. */
  lemma TightSlot(geo: Geometry, d0: Disk, tree: Tree, cut: Cut, s: Slot)
    requires DiskOk(geo, d0) && TreeOk(tree) && cut.P == Ptrs(geo) > 0 && SlotOk(geo, s)
    requires cut.now <= 12 && cut.now <= cut.was && Tight(geo, d0, tree, cut.was)
    ensures PtrAt(geo, d0, tree, s) != 0 ==> (cut.Releases(s) <==> !(s.Root? && s.k < cut.now))
    ensures PtrAt(geo, d0, tree, s) != 0 ==> (Clears(cut, RootOf(s)) <==> !(s.Root? && s.k < cut.now))
  {
    if PtrAt(geo, d0, tree, s) != 0 {
      match s
      case Root(_) =>
      case Child(q, i) =>
        assert PtrAt(geo, d0, tree, q) != 0;
        if q.Root? {
          if q.k == 13 { LeafInCut(cut, i); }
        } else {
          assert SlotOk(geo, q) && q.parent == Root(13);
          assert PtrAt(geo, d0, tree, Child(Root(13), q.idx)) != 0;
          LeafInCut(cut, q.idx);
        }
    }
  }

  lemma LeafInCut(cut: Cut, i: nat)
    requires cut.P > 0 && i < cut.P && cut.now <= 12 && 12 + cut.P + Mul(i, cut.P) < cut.was
    ensures cut.HasDouble() && cut.LeafStart() <= i < cut.LeafEnd() && cut.EntryStart(i) == 0
  {
    var r := cut.was - 12 - cut.P;
    Join(i + 1, 0, cut.P);
    DivMono(Mul(i + 1, cut.P), r + cut.P - 1, cut.P);
  }

  /** Above 12 blocks a cut can go wrong: entry 1 of the single-indirect block is released
      but stays in the block, which is kept. Whatever order the blocks are released in, the
      file cut from 14 to 13 blocks points at a block marked free. */
  lemma TruncateAbove12Dangles()
    ensures exists geo: Geometry, d: Disk, tree: Tree ::
              Ptrs(geo) > 0 && Formatted(geo, d) && |geo.bitmaps| > 0 && Owned(geo, d, tree) &&
              var cut := Cut(14, 13, Ptrs(geo));
              && !Clean(geo, d, tree, cut)
              && forall d', done :: Shrunk(geo, d, tree, d', done, Releasing(cut)) ==> !Owned(geo, d', CutTree(cut, tree))
  {
    hide Shrunk;
    hide CutTree;
    hide AllOnes;
    var geo, full := SMALL, AllOnes(1024);
    var d: Disk := map[2 := full, 10 := PutU32(Zeros(1024), 4, 11)];
    var tree: Tree := seq(15, k => if k == 12 then 10 else 0);
    SmallFull(d);
    forall s | SlotOk(geo, s)
      ensures PtrAt(geo, d, tree, s) == if s == Root(12) then 10 else if s == Child(Root(12), 1) then 11 else 0
    {
      OnlyTwo(geo, d, tree, s);
    }
    assert Owned(geo, d, tree);
    assert PtrAt(geo, d, tree, Child(Root(12), 1)) == 11;
    var cut := Cut(14, 13, Ptrs(geo));
    assert cut.IndStart() == 1 && cut.IndEnd() == 2;
    assert !Clean(geo, d, tree, cut);
    forall d', done | Shrunk(geo, d, tree, d', done, Releasing(cut))
      ensures !Owned(geo, d', CutTree(cut, tree))
    {
      TruncateExact(geo, d, tree, d', done, cut);
    }
  }

  lemma OnlyTwo(geo: Geometry, d: Disk, tree: Tree, s: Slot)
    requires geo.bs == 1024 && DiskOk(geo, d) && TreeOk(tree) && SlotOk(geo, s)
    requires Read(geo, d, 10) == PutU32(Zeros(1024), 4, 11)
    requires tree == seq(15, k => if k == 12 then 10 else 0)
    ensures PtrAt(geo, d, tree, s) == if s == Root(12) then 10 else if s == Child(Root(12), 1) then 11 else 0
  {
    match s
    case Root(_) =>
    case Child(q, i) =>
      OnlyTwo(geo, d, tree, q);
      if q == Root(12) && i != 1 { PutU32Elsewhere(Zeros(1024), 4, 11, 4 * i); }
  }
}
