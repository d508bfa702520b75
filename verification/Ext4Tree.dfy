/** The ext4 extent tree: headers and entries decoded from bytes, the search through index
    nodes, and the proof that it is lookup in the flat list of leaf extents. */
module Ext4Tree {
  import opened Bytes
  import opened Volumes

  // ----- on-disk layout: a 10-byte packed header, then 12-byte entries -----

  const MAGIC: nat := 0xF30A
  const HEADER: nat := 10
  const ENTRY: nat := 12

  /** Where file blocks end, so that the end of an extent always fits 32 bits. */
  const BLOCKS: nat := TWO32 - 1

  datatype Extent = Extent(block: nat, len: nat, start: nat) {
    predicate Has(l: nat) { block <= l < block + len }

    /** The test the search makes: the end is computed in 32 bits. */
    predicate Hit(l: nat) { block <= l < (block + len) % TWO32 }

    function From(l: nat): Found
      requires Has(l)
    {
      Some(start + (l - block), len - (l - block))
    }
  }

  function Entries(b: seq<byte>): nat requires |b| >= HEADER { U16(b, 2) }
  function MaxEntries(b: seq<byte>): nat requires |b| >= HEADER { U16(b, 4) }
  function Depth(b: seq<byte>): nat requires |b| >= HEADER { U16(b, 6) }

  predicate Fits(b: seq<byte>) {
    |b| >= HEADER && HEADER + ENTRY * Entries(b) <= |b|
  }

  function ExtentAt(b: seq<byte>, i: nat): Extent
    requires HEADER + ENTRY * i + ENTRY <= |b|
  {
    var at := HEADER + ENTRY * i;
    Extent(U32(b, at), U16(b, at + 4), U16(b, at + 6) * TWO32 + U32(b, at + 8))
  }

  /** ei_block of index entry i. */
  function KeyAt(b: seq<byte>, i: nat): nat
    requires HEADER + ENTRY * i + ENTRY <= |b|
  {
    U32(b, HEADER + ENTRY * i)
  }

  /** The child block of index entry i: ei_leaf_hi:ei_leaf_lo cut to 32 bits. */
  function LeafAt(b: seq<byte>, i: nat): nat
    requires HEADER + ENTRY * i + ENTRY <= |b|
  {
    U32(b, HEADER + ENTRY * i + 4)
  }

  function Child(geo: Geometry, d: Disk, b: seq<byte>, i: nat): seq<byte>
    requires DiskOk(geo, d) && HEADER + ENTRY * i + ENTRY <= |b|
  {
    Read(geo, d, LeafAt(b, i))
  }

  // ----- well-formed trees -----

  /** Entries fit their block and every child is one level down. */
  ghost predicate Shape(geo: Geometry, d: Disk, b: seq<byte>)
    requires DiskOk(geo, d) && geo.bs >= HEADER && |b| >= HEADER
    decreases Depth(b)
  {
    && Fits(b)
    && (Depth(b) > 0 ==> forall i :: 0 <= i < Entries(b) ==>
          Depth(Child(geo, d, b, i)) == Depth(b) - 1 && Shape(geo, d, Child(geo, d, b, i)))
  }

  /** Where the keys under index entry i end. */
  function Until(b: seq<byte>, i: nat, hi: nat): nat
    requires Fits(b) && i < Entries(b)
  {
    if i + 1 < Entries(b) then KeyAt(b, i + 1) else hi
  }

  predicate ExtentOk(e: Extent, lo: nat, hi: nat) {
    lo <= e.block && e.block + e.len <= hi && 0 < e.start && e.start + e.len <= TWO32
  }

  /** Extents lie in [lo, hi), and index keys divide that range among the children. */
  ghost predicate Ranged(geo: Geometry, d: Disk, b: seq<byte>, lo: nat, hi: nat)
    requires DiskOk(geo, d) && geo.bs >= HEADER && |b| >= HEADER && Shape(geo, d, b)
    decreases Depth(b)
  {
    if Depth(b) == 0 then
      forall i :: 0 <= i < Entries(b) ==> ExtentOk(ExtentAt(b, i), lo, hi)
    else
      && (forall i, j :: 0 <= i < j < Entries(b) ==> KeyAt(b, i) < KeyAt(b, j))
      && (forall i :: 0 <= i < Entries(b) ==>
            lo <= KeyAt(b, i) && Until(b, i, hi) <= hi && Ranged(geo, d, Child(geo, d, b, i), KeyAt(b, i), Until(b, i, hi)))
  }

  // ----- the flat list -----

  function Extents(b: seq<byte>): (s: seq<Extent>)
    requires Fits(b)
    ensures |s| == Entries(b)
  {
    seq(Entries(b), i requires 0 <= i < Entries(b) => ExtentAt(b, i))
  }

  /** All leaf extents under b, left to right. */
  ghost function Flat(geo: Geometry, d: Disk, b: seq<byte>): seq<Extent>
    requires DiskOk(geo, d) && geo.bs >= HEADER && |b| >= HEADER && Shape(geo, d, b)
    decreases Depth(b), Entries(b) + 1
  {
    if Depth(b) == 0 then Extents(b) else FlatFrom(geo, d, b, 0)
  }

  ghost function FlatFrom(geo: Geometry, d: Disk, b: seq<byte>, i: nat): seq<Extent>
    requires DiskOk(geo, d) && geo.bs >= HEADER && |b| >= HEADER && Shape(geo, d, b) && Depth(b) > 0 && i <= Entries(b)
    decreases Depth(b), Entries(b) - i
  {
    if i == Entries(b) then [] else Flat(geo, d, Child(geo, d, b, i)) + FlatFrom(geo, d, b, i + 1)
  }

  datatype Found = None | Some(phys: nat, length: nat)

  /** Lookup in a list of extents: the first one that has l. */
  function Find(es: seq<Extent>, l: nat): Found {
    if es == [] then None else if es[0].Has(l) then es[0].From(l) else Find(es[1..], l)
  }

  /** What the search makes of the list: the first one that passes its test. */
  function Scan(es: seq<Extent>, l: nat): Found {
    if es == [] then None else if es[0].Has(l) && es[0].Hit(l) then es[0].From(l) else Scan(es[1..], l)
  }

  /** The fields are as wide as they are on disk. */
  predicate Decoded(es: seq<Extent>) {
    forall e :: e in es ==> e.block < TWO32 && e.len < TWO16
  }

  lemma {:induction false} ScanConcat(s: seq<Extent>, t: seq<Extent>, l: nat)
    ensures Scan(s + t, l) == if Scan(s, l) == None then Scan(t, l) else Scan(s, l)
  {
    if s == [] {
      assert s + t == t;
    } else {
      ScanConcat(s[1..], t, l);
      assert (s + t)[1..] == s[1..] + t;
    }
  }

  lemma {:induction false} ScanBound(es: seq<Extent>, l: nat)
    requires Decoded(es)
    ensures Scan(es, l).Some? ==> l + Scan(es, l).length < TWO32
  {
    if es != [] { ScanBound(es[1..], l); }
  }

  /** The search of a list agrees with lookup at l if and only if l is in a hole or the end of
      the extent that has it fits 32 bits. */
  lemma {:induction false} ScanExact(es: seq<Extent>, l: nat)
    requires Decoded(es)
    ensures Scan(es, l) == Find(es, l) <==> Find(es, l) == None || l + Find(es, l).length < TWO32
  {
    if es != [] {
      assert es[0] in es;
      ScanExact(es[1..], l);
      ScanBound(es[1..], l);
    }
  }

  lemma {:induction false} FindConcat(s: seq<Extent>, t: seq<Extent>, l: nat)
    ensures Find(s + t, l) == if Find(s, l) == None then Find(t, l) else Find(s, l)
  {
    if s == [] {
      assert s + t == t;
    } else {
      FindConcat(s[1..], t, l);
      assert (s + t)[1..] == s[1..] + t;
    }
  }

  /** Lookup fails exactly on holes. */
  lemma {:induction false} FindNone(es: seq<Extent>, l: nat)
    ensures Find(es, l) == None <==> forall i :: 0 <= i < |es| ==> !es[i].Has(l)
  {
    if es != [] {
      FindNone(es[1..], l);
      assert forall i :: 0 <= i < |es| - 1 ==> es[1..][i] == es[i + 1];
      if forall i :: 0 <= i < |es| ==> !es[i].Has(l) {
        assert !es[0].Has(l);
      }
    }
  }

  lemma {:induction false} ScanOutside(es: seq<Extent>, l: nat, lo: nat, hi: nat)
    requires (forall e :: e in es ==> ExtentOk(e, lo, hi)) && !(lo <= l < hi)
    ensures Scan(es, l) == None
  {
    if es != [] {
      assert ExtentOk(es[0], lo, hi);
      ScanOutside(es[1..], l, lo, hi);
    }
  }

  /** Every extent of a tree has fields of the on-disk widths. */
  lemma {:induction false} FlatDecoded(geo: Geometry, d: Disk, b: seq<byte>)
    requires DiskOk(geo, d) && geo.bs >= HEADER && |b| >= HEADER && Shape(geo, d, b)
    ensures Decoded(Flat(geo, d, b))
    decreases Depth(b), Entries(b) + 1
  {
    if Depth(b) > 0 { FlatFromDecoded(geo, d, b, 0); }
  }

  lemma {:induction false} FlatFromDecoded(geo: Geometry, d: Disk, b: seq<byte>, i: nat)
    requires DiskOk(geo, d) && geo.bs >= HEADER && |b| >= HEADER && Shape(geo, d, b) && Depth(b) > 0 && i <= Entries(b)
    ensures Decoded(FlatFrom(geo, d, b, i))
    decreases Depth(b), Entries(b) - i
  {
    if i < Entries(b) {
      FlatDecoded(geo, d, Child(geo, d, b, i));
      FlatFromDecoded(geo, d, b, i + 1);
    }
  }

  /** Every extent of a ranged tree lies in its range. */
  lemma {:induction false} FlatInRange(geo: Geometry, d: Disk, b: seq<byte>, lo: nat, hi: nat)
    requires DiskOk(geo, d) && geo.bs >= HEADER && |b| >= HEADER && Shape(geo, d, b) && Ranged(geo, d, b, lo, hi)
    ensures forall e :: e in Flat(geo, d, b) ==> ExtentOk(e, lo, hi)
    decreases Depth(b), Entries(b) + 1
  {
    if Depth(b) > 0 { FlatFromInRange(geo, d, b, lo, hi, 0); }
  }

  lemma {:induction false} FlatFromInRange(geo: Geometry, d: Disk, b: seq<byte>, lo: nat, hi: nat, i: nat)
    requires DiskOk(geo, d) && geo.bs >= HEADER && |b| >= HEADER && Shape(geo, d, b) && Depth(b) > 0 && i <= Entries(b)
    requires Ranged(geo, d, b, lo, hi)
    ensures forall e :: e in FlatFrom(geo, d, b, i) ==> i < Entries(b) && ExtentOk(e, KeyAt(b, i), hi) && ExtentOk(e, lo, hi)
    decreases Depth(b), Entries(b) - i
  {
    if i < Entries(b) {
      FlatInRange(geo, d, Child(geo, d, b, i), KeyAt(b, i), Until(b, i, hi));
      FlatFromInRange(geo, d, b, lo, hi, i + 1);
    }
  }

  // ----- the search -----

  /** t is the index entry the search descends into: the last whose key is at most l. */
  predicate Chosen(b: seq<byte>, l: nat, t: nat)
    requires Fits(b) && t <= Entries(b)
  {
    && (forall i :: 0 <= i < t ==> KeyAt(b, i) <= l)
    && (t < Entries(b) ==> l < KeyAt(b, t))
  }

  lemma Beyond(geo: Geometry, d: Disk, b: seq<byte>, lo: nat, hi: nat, l: nat, t: nat, i: nat)
    requires DiskOk(geo, d) && geo.bs >= HEADER && |b| >= HEADER && Shape(geo, d, b) && Ranged(geo, d, b, lo, hi)
    requires Depth(b) > 0 && t <= i < Entries(b) && Chosen(b, l, t)
    ensures Scan(FlatFrom(geo, d, b, i), l) == None
  {
    FlatFromInRange(geo, d, b, lo, hi, i);
    ScanOutside(FlatFrom(geo, d, b, i), l, KeyAt(b, i), hi);
  }

  lemma Before(geo: Geometry, d: Disk, b: seq<byte>, lo: nat, hi: nat, l: nat, t: nat, i: nat)
    requires DiskOk(geo, d) && geo.bs >= HEADER && |b| >= HEADER && Shape(geo, d, b) && Ranged(geo, d, b, lo, hi)
    requires Depth(b) > 0 && i + 1 < t <= Entries(b) && Chosen(b, l, t)
    ensures Scan(Flat(geo, d, Child(geo, d, b, i)), l) == None
  {
    FlatInRange(geo, d, Child(geo, d, b, i), KeyAt(b, i), Until(b, i, hi));
    ScanOutside(Flat(geo, d, Child(geo, d, b, i)), l, KeyAt(b, i), Until(b, i, hi));
  }

  /** Only the chosen child can hold l: searching it is searching the whole node. */
  lemma {:induction false} DescendFrom(geo: Geometry, d: Disk, b: seq<byte>, lo: nat, hi: nat, l: nat, t: nat, i: nat)
    requires DiskOk(geo, d) && geo.bs >= HEADER && |b| >= HEADER && Shape(geo, d, b) && Ranged(geo, d, b, lo, hi)
    requires Depth(b) > 0 && i <= Entries(b) && t <= Entries(b) && Chosen(b, l, t)
    ensures Scan(FlatFrom(geo, d, b, i), l) == if i < t then Scan(Flat(geo, d, Child(geo, d, b, t - 1)), l) else None
    decreases Entries(b) - i
  {
    hide Ranged;
    hide Chosen;
    hide Entries;
    hide Depth;
    if i < Entries(b) {
      if i >= t {
        Beyond(geo, d, b, lo, hi, l, t, i);
      } else {
        ScanConcat(Flat(geo, d, Child(geo, d, b, i)), FlatFrom(geo, d, b, i + 1), l);
        DescendFrom(geo, d, b, lo, hi, l, t, i + 1);
        if i + 1 < t { Before(geo, d, b, lo, hi, l, t, i); }
      }
    }
  }

  /** ext4_find_extent_in_leaf: the end of an extent is computed in 32 bits. */
  method FindInLeaf(b: seq<byte>, l: nat) returns (r: Found)
    requires Fits(b)
    ensures r == Scan(Extents(b), l)
    ensures r == Find(Extents(b), l) <==> Find(Extents(b), l) == None || l + Find(Extents(b), l).length < TWO32
  {
    hide Find;
    hide Scan;
    hide U16;
    hide U32;
    hide ExtentAt;
    hide Extents;
    hide Decoded;
    DecodedLeaf(b);
    ScanExact(Extents(b), l);
    assert Extents(b)[0..] == Extents(b);
    var i := 0;
    while i < Entries(b)
      invariant i <= Entries(b) && Scan(Extents(b), l) == Scan(Extents(b)[i..], l)
    {
      var e := ExtentAt(b, i);
      ExtentsAt(b, i);
      ScanStep(Extents(b), l, i);
      if e.block <= l && l < (e.block + e.len) % TWO32 {
        return Some(e.start + (l - e.block), e.len - (l - e.block));
      }
      i := i + 1;
    }
    ScanEnd(Extents(b), l);
    r := None;
  }

  lemma ExtentsAt(b: seq<byte>, i: nat)
    requires Fits(b) && i < Entries(b)
    ensures Extents(b)[i] == ExtentAt(b, i)
  {
  }

  lemma DecodedLeaf(b: seq<byte>)
    requires Fits(b)
    ensures Decoded(Extents(b))
  {
  }

  lemma ScanStep(es: seq<Extent>, l: nat, i: nat)
    requires i < |es|
    ensures Scan(es[i..], l) == if es[i].Has(l) && es[i].Hit(l) then es[i].From(l) else Scan(es[i + 1..], l)
  {
    assert es[i..][0] == es[i] && es[i..][1..] == es[i + 1..];
  }

  lemma ScanEnd(es: seq<Extent>, l: nat)
    ensures Scan(es[|es|..], l) == None
  {
  }

  /** ext4_traverse_extent_tree: for a well-formed tree of any depth, the search finds what a
      scan of the flat extent list finds; that is what the list says, a failure exactly on
      holes, if and only if the extent of l ends below 2^32. */
  method Traverse(geo: Geometry, d: Disk, b: seq<byte>, l: nat, ghost lo: nat, ghost hi: nat) returns (r: Found)
    requires DiskOk(geo, d) && geo.bs >= HEADER && |b| >= HEADER && Shape(geo, d, b) && Ranged(geo, d, b, lo, hi)
    ensures r == Scan(Flat(geo, d, b), l)
    ensures r == Find(Flat(geo, d, b), l) <==> Find(Flat(geo, d, b), l) == None || l + Find(Flat(geo, d, b), l).length < TWO32
    decreases Depth(b)
  {
    hide Find;
    hide Scan;
    FlatDecoded(geo, d, b);
    ScanExact(Flat(geo, d, b), l);
    if Depth(b) == 0 {
      r := FindInLeaf(b, l);
      return;
    }
    var t := 0;
    while t < Entries(b) && l >= KeyAt(b, t)
      invariant t <= Entries(b) && forall i :: 0 <= i < t ==> KeyAt(b, i) <= l
    {
      t := t + 1;
    }
    DescendFrom(geo, d, b, lo, hi, l, t, 0);
    if t == 0 { return None; }
    r := Traverse(geo, d, Child(geo, d, b, t - 1), l, KeyAt(b, t - 1), Until(b, t - 1, hi));
  }
}
