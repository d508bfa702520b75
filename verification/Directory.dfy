/** Linear directories: variable-length records chained by rec_len through one buffer
    (fs/ext2.c, fs/ext4.c). The buffer is read as a list of entries, a name, an inode number and
    a file type each, and the list as a table from names to inode numbers. */
module Directory {
  import opened Bytes

  type Name = seq<byte>

  datatype Entry = Entry(name: Name, ino: nat, kind: byte)

  /** Bytes a record with an n-byte name needs: (8 + n + 3) & ~3. */
  function Span(n: nat): (r: nat)
    ensures 8 + n <= r < 12 + n
  {
    (8 + n + 3) / 4 * 4
  }

  // ----- one record, at the front of a buffer -----

  function Len(b: seq<byte>): nat
    requires |b| >= 8
  {
    U16(b, 4)
  }

  /** The record at the front of b holds its own name and ends inside b. */
  predicate Fits(b: seq<byte>) {
    |b| >= 8 && Span(b[6]) <= Len(b) <= |b|
  }

  function NameOf(b: seq<byte>): Name
    requires Fits(b)
  {
    b[8..8 + b[6]]
  }

  /** The entry of the record at the front of b; a zero inode marks it unused. */
  function Live(b: seq<byte>): seq<Entry>
    requires Fits(b)
  {
    if U32(b, 0) == 0 then [] else [Entry(NameOf(b), U32(b, 0), b[7])]
  }

  // ----- the whole chain -----

  /** Following rec_len from the front stays inside b until the end or a zero rec_len. */
  ghost predicate Chained(b: seq<byte>)
    decreases |b|
  {
    b == [] || (|b| >= 8 && (Len(b) == 0 || (Fits(b) && Chained(b[Len(b)..]))))
  }

  /** The records cover b exactly, with no zero rec_len. */
  ghost predicate Tiled(b: seq<byte>)
    decreases |b|
  {
    b == [] || (Fits(b) && Tiled(b[Len(b)..]))
  }

  /** The entries in chain order. */
  ghost function Entries(b: seq<byte>): seq<Entry>
    requires Chained(b)
    decreases |b|
  {
    if b == [] || Len(b) == 0 then [] else Live(b) + Entries(b[Len(b)..])
  }

  lemma TiledChained(b: seq<byte>)
    requires Tiled(b)
    ensures Chained(b)
    decreases |b|
  {
    if b != [] { TiledChained(b[Len(b)..]); }
  }

  lemma {:induction false} FrontRecord(b: seq<byte>, c: seq<byte>)
    requires Fits(b)
    ensures 8 <= Len(b) <= |b| && Fits(b + c) && Len(b + c) == Len(b) && Live(b + c) == Live(b)
  {
    assert NameOf(b + c) == NameOf(b);
  }

  /** A tiled buffer followed by a chain is a chain, and the entries follow each other. */
  lemma {:induction false} Concat(a: seq<byte>, b: seq<byte>)
    requires Tiled(a) && Chained(b)
    ensures Chained(a) && Chained(a + b) && Entries(a + b) == Entries(a) + Entries(b)
    ensures Tiled(a + b) <==> Tiled(b)
    decreases |a|
  {
    hide Fits;
    hide Live;
    hide Len;
    if a == [] {
      assert a + b == b;
    } else {
      FrontRecord(a, b);
      var n := Len(a);
      Concat(a[n..], b);
      assert (a + b)[n..] == a[n..] + b;
      assert Entries(a) == Live(a) + Entries(a[n..]);
    }
  }

  // ----- the table a chain of entries stands for -----

  /** Names to inodes; the first entry for a name is the one lookup finds. */
  ghost function Table(es: seq<Entry>): map<Name, nat> {
    if es == [] then map[] else Table(es[1..])[es[0].name := es[0].ino]
  }

  lemma {:induction false} TableConcat(a: seq<Entry>, b: seq<Entry>)
    ensures Table(a + b) == Table(b) + Table(a)
  {
    if a == [] {
      assert a + b == b;
    } else {
      TableConcat(a[1..], b);
      assert (a + b)[1..] == a[1..] + b;
    }
  }

  lemma TableInsert(a: seq<Entry>, e: Entry, b: seq<Entry>)
    ensures Table(a + [e] + b) == Table(b) + map[e.name := e.ino] + Table(a)
  {
    assert Table([e]) == map[e.name := e.ino];
    hide Table;
    TableConcat(a + [e], b);
    TableConcat(a, [e]);
  }

  /** Adding an entry anywhere, under a name not in the table, adds that name only. */
  lemma {:induction false} TableAdds(a: seq<Entry>, e: Entry, b: seq<Entry>)
    requires e.name !in Table(a + b)
    ensures Table(a + [e] + b) == Table(a + b)[e.name := e.ino]
  {
    TableInsert(a, e, b);
    hide Table;
    TableConcat(a, b);
  }

  /** Removing the first entry for a name removes exactly that name if and only if no later
      entry carries it too. */
  lemma {:induction false} TableRemoves(a: seq<Entry>, e: Entry, b: seq<Entry>)
    requires e.name !in Table(a)
    ensures Table(a + b) == Table(a + [e] + b) - {e.name} <==> e.name !in Table(b)
  {
    TableInsert(a, e, b);
    hide Table;
    TableConcat(a, b);
  }

  /** No name appears in two entries. */
  ghost predicate Unique(es: seq<Entry>) {
    forall i, j :: 0 <= i < j < |es| ==> es[i].name != es[j].name
  }

  lemma {:induction false} InTable(es: seq<Entry>, n: Name)
    ensures n in Table(es) <==> exists i :: 0 <= i < |es| && es[i].name == n
  {
    if es != [] {
      InTable(es[1..], n);
      if n in Table(es[1..]) {
        var i :| 0 <= i < |es[1..]| && es[1..][i].name == n;
        assert es[i + 1].name == n;
      }
      if i :| 0 <= i < |es| && es[i].name == n {
        assert i == 0 || es[1..][i - 1].name == n;
      }
    }
  }

  lemma UniqueSplit(a: seq<Entry>, e: Entry, b: seq<Entry>)
    requires Unique(a + [e] + b)
    ensures Unique(a + b) && e.name !in Table(a) && e.name !in Table(b)
  {
    hide Table;
    var s := a + [e] + b;
    InTable(a, e.name);
    InTable(b, e.name);
    assert s[|a|] == e;
    forall i | 0 <= i < |a|
      ensures a[i].name != e.name
    {
      assert s[i] == a[i];
    }
    forall i | 0 <= i < |b|
      ensures b[i].name != e.name
    {
      assert s[|a| + 1 + i] == b[i];
    }
    forall i, j | 0 <= i < j < |a + b|
      ensures (a + b)[i].name != (a + b)[j].name
    {
      var i', j' := if i < |a| then i else i + 1, if j < |a| then j else j + 1;
      assert s[i'] == (a + b)[i] && s[j'] == (a + b)[j];
    }
  }

  lemma UniqueJoin(a: seq<Entry>, e: Entry, b: seq<Entry>)
    requires Unique(a + b) && e.name !in Table(a + b)
    ensures Unique(a + [e] + b)
  {
    var s := a + [e] + b;
    InTable(a + b, e.name);
    forall i, j | 0 <= i < j < |s|
      ensures s[i].name != s[j].name
    {
      var i', j' := if i <= |a| then i else i - 1, if j <= |a| then j else j - 1;
      if i == |a| {
        assert s[j] == (a + b)[j'];
      } else if j == |a| {
        assert s[i] == (a + b)[i'];
      } else {
        assert s[i] == (a + b)[i'] && s[j] == (a + b)[j'];
      }
    }
  }

  // ----- walking the chain -----

  /** pos is a record boundary: everything before it is whole records. */
  ghost predicate At(buf: seq<byte>, pos: nat) {
    pos <= |buf| && Tiled(buf[..pos]) && Chained(buf[pos..])
  }

  lemma Start(buf: seq<byte>)
    requires Chained(buf)
    ensures At(buf, 0) && Chained(buf[..0]) && Entries(buf[..0]) == []
  {
    assert buf[0..] == buf;
  }

  /** The header fields read at pos are those of the record that starts there. */
  lemma Header(buf: seq<byte>, pos: nat)
    requires At(buf, pos) && pos < |buf|
    ensures pos + 8 <= |buf| && Len(buf[pos..]) == U16(buf, pos + 4)
    ensures U16(buf, pos + 4) != 0 ==> Fits(buf[pos..]) && Span(buf[pos + 6]) <= U16(buf, pos + 4) <= |buf| - pos
    ensures U16(buf, pos + 4) != 0 ==> Live(buf[pos..]) == LiveAt(buf, pos)
  {
    var b := buf[pos..];
    if Len(b) != 0 {
      assert NameOf(b) == buf[pos + 8..pos + 8 + buf[pos + 6]];
    }
  }

  /** The entry read in place at pos. */
  function LiveAt(buf: seq<byte>, pos: nat): seq<Entry>
    requires pos + 8 <= |buf| && pos + Span(buf[pos + 6]) <= |buf|
  {
    if U32(buf, pos) == 0 then [] else [Entry(buf[pos + 8..pos + 8 + buf[pos + 6]], U32(buf, pos), buf[pos + 7])]
  }

  /** One record further on: what is behind grows by that record's entry. */
  lemma Advance(buf: seq<byte>, pos: nat)
    requires At(buf, pos) && pos < |buf| && Len(buf[pos..]) != 0
    ensures var n := Len(buf[pos..]);
            && pos + n <= |buf| && At(buf, pos + n) && Chained(buf[..pos]) && Chained(buf[..pos + n])
            && Fits(buf[pos..])
            && Entries(buf[..pos + n]) == Entries(buf[..pos]) + Live(buf[pos..])
  {
    hide Live;
    hide Len;
    var n := Len(buf[pos..]);
    assert Fits(buf[pos..]);
    Single(buf[pos..]);
    var r := buf[pos..][..n];
    Concat(buf[..pos], r);
    assert buf[..pos] + r == buf[..pos + n];
    assert buf[pos..][n..] == buf[pos + n..];
  }

  /** The first record on its own tiles itself. */
  lemma Single(b: seq<byte>)
    requires Fits(b)
    ensures var r := b[..Len(b)]; Tiled(r) && Chained(r) && Entries(r) == Live(b) && 8 <= Len(b) <= |b|
  {
    var r := b[..Len(b)];
    assert Fits(r) && Len(r) == Len(b) && r[Len(b)..] == [];
    assert NameOf(r) == NameOf(b);
    assert Live(r) + [] == Live(b);
  }

  /** Behind pos, then ahead of pos. */
  lemma Whole(buf: seq<byte>, pos: nat)
    requires At(buf, pos)
    ensures Chained(buf) && Chained(buf[..pos]) && Chained(buf[pos..])
    ensures Entries(buf) == Entries(buf[..pos]) + Entries(buf[pos..])
    ensures Tiled(buf) <==> Tiled(buf[pos..])
  {
    Concat(buf[..pos], buf[pos..]);
    assert buf[..pos] + buf[pos..] == buf;
  }

  // ----- ext2_lookup, ext4_lookup -----

  method Lookup(buf: seq<byte>, name: Name) returns (r: int, ino: nat)
    requires Chained(buf)
    ensures r == 0 || r == -1
    ensures r == 0 <==> name in Table(Entries(buf))
    ensures r == 0 ==> ino == Table(Entries(buf))[name]
  {
    hide At;
    hide Chained;
    hide Tiled;
    hide Entries;
    hide Live;
    hide Len;
    hide Table;
    Start(buf);
    TableNil();
    ino := 0;
    var pos := 0;
    while pos < |buf|
      invariant At(buf, pos) && pos <= |buf| && Chained(buf[..pos])
      invariant name !in Table(Entries(buf[..pos]))
    {
      Header(buf, pos);
      Whole(buf, pos);
      if U16(buf, pos + 4) == 0 { break; }
      Advance(buf, pos);
      TableStep(Entries(buf[..pos]), LiveAt(buf, pos), name);
      if U32(buf, pos) != 0 {
        if buf[pos + 6] == |name| && buf[pos + 8..pos + 8 + buf[pos + 6]] == name {
          Whole(buf, pos + U16(buf, pos + 4));
          TableConcat(Entries(buf[..pos + U16(buf, pos + 4)]), Entries(buf[pos + U16(buf, pos + 4)..]));
          return 0, U32(buf, pos);
        }
      }
      pos := pos + U16(buf, pos + 4);
    }
    Ended(buf, pos);
    r := -1;
  }

  lemma TableNil()
    ensures Table([]) == map[]
  {
  }

  lemma TableStep(a: seq<Entry>, l: seq<Entry>, n: Name)
    requires n !in Table(a) && |l| <= 1
    ensures n in Table(a + l) <==> |l| == 1 && l[0].name == n
    ensures n in Table(a + l) ==> Table(a + l)[n] == l[0].ino
  {
    TableConcat(a, l);
  }

  /** At the end, or at a zero rec_len, everything has been seen. */
  lemma Ended(buf: seq<byte>, pos: nat)
    requires At(buf, pos) && (pos == |buf| || (pos + 8 <= |buf| && U16(buf, pos + 4) == 0))
    ensures Chained(buf) && Chained(buf[..pos]) && Entries(buf) == Entries(buf[..pos])
    ensures Tiled(buf) <==> pos == |buf|
  {
    Whole(buf, pos);
    if pos == |buf| {
      assert buf[pos..] == [];
    } else {
      assert Len(buf[pos..]) == U16(buf, pos + 4);
    }
  }

  // ----- slack insertion in ext2_create, ext4_add_dir_entry -----

  /** The five stores that fill in a record at `at`: inode, name_len, file_type, rec_len, name. */
  function WithRecord(b: seq<byte>, at: nat, ino: nat, kind: byte, len: nat, name: Name): (r: seq<byte>)
    requires at + 8 + |name| <= |b| && ino < TWO32 && len < TWO16 && |name| <= 255
    ensures |r| == |b| && forall k :: 0 <= k < |b| && !(at <= k < at + 8 + |name|) ==> r[k] == b[k]
    ensures U32(r, at) == ino && U16(r, at + 4) == len && r[at + 6] == |name| && r[at + 7] == kind && r[at + 8..at + 8 + |name|] == name
  {
    Patch(PutU16(PutU32(b, at, ino)[at + 6 := |name|][at + 7 := kind], at + 4, len), at + 8, name)
  }

  /** A record written with room for its name reads back as that entry. */
  lemma RecordReads(c: seq<byte>, at: nat, ino: nat, kind: byte, len: nat, name: Name)
    requires at + len <= |c| && Span(|name|) <= len < TWO16 && 0 < ino < TWO32 && |name| <= 255
    requires U32(c, at) == ino && U16(c, at + 4) == len && c[at + 6] == |name| && c[at + 7] == kind && c[at + 8..at + 8 + |name|] == name
    ensures Fits(c[at..]) && Len(c[at..]) == len && Live(c[at..]) == [Entry(name, ino, kind)]
  {
    var b := c[at..];
    assert NameOf(b) == name;
  }

  /** Some record of the chain has `need` bytes beyond its own name. */
  ghost predicate HasRoom(b: seq<byte>, need: nat)
    requires Chained(b)
    decreases |b|
  {
    b != [] && Len(b) != 0 && (Len(b) - Span(b[6]) >= need || HasRoom(b[Len(b)..], need))
  }

  /** Shortening the first record of b to what its name needs and writing another into the
      slack behind it puts one entry after the first. */
  lemma SplitFirst(b: seq<byte>, c: seq<byte>, ino: nat, kind: byte, name: Name)
    requires Chained(b) && Fits(b) && Len(b) - Span(b[6]) >= Span(|name|)
    requires |c| == |b| && 0 < ino < TWO32 && |name| <= 255
    requires U16(c, 4) == Span(b[6]) && c[..4] == b[..4] && c[6..Span(b[6])] == b[6..Span(b[6])]
    requires c[Len(b)..] == b[Len(b)..]
    requires var a := Span(b[6]);
             U32(c, a) == ino && U16(c, a + 4) == Len(b) - a && c[a + 6] == |name| && c[a + 7] == kind && c[a + 8..a + 8 + |name|] == name
    ensures Chained(c) && Entries(c) == Live(b) + [Entry(name, ino, kind)] + Entries(b[Len(b)..])
    ensures Tiled(c) <==> Tiled(b)
  {
    hide Entries;
    hide Chained;
    hide Tiled;
    hide Live;
    hide U32;
    var a, n := Span(b[6]), Len(b);
    SameFirst(b, c, a);
    RecordReads(c, a, ino, kind, n - a, name);
    Unroll(b);
    SlackRecord(c, a, n, b[n..]);
    Unroll'(c);
  }

  lemma SlackRecord(c: seq<byte>, a: nat, n: nat, rest: seq<byte>)
    requires a <= n <= |c| && c[n..] == rest && Chained(rest) && Fits(c[a..]) && Len(c[a..]) == n - a
    ensures Chained(c[a..]) && Entries(c[a..]) == Live(c[a..]) + Entries(rest)
    ensures Tiled(c[a..]) <==> Tiled(rest)
  {
    hide Entries;
    hide Chained;
    hide Tiled;
    hide Live;
    assert c[a..][n - a..] == c[n..];
    Unroll'(c[a..]);
  }

  /** A record cut down to the length its name needs keeps its entry. */
  lemma SameFirst(b: seq<byte>, c: seq<byte>, a: nat)
    requires Fits(b) && a == Span(b[6]) && |c| == |b|
    requires U16(c, 4) == a && c[..4] == b[..4] && c[6..a] == b[6..a]
    ensures Fits(c) && Len(c) == a && Live(c) == Live(b)
  {
    assert forall k :: 0 <= k < 4 ==> c[k] == c[..4][k] && b[k] == b[..4][k];
    assert forall k :: 6 <= k < a ==> c[k] == c[6..a][k - 6] && b[k] == b[6..a][k - 6];
    assert U32(c, 0) == U32(b, 0);
    assert NameOf(c) == NameOf(b);
  }

  lemma Unroll(b: seq<byte>)
    requires Fits(b) && Chained(b)
    ensures Chained(b[Len(b)..]) && Entries(b) == Live(b) + Entries(b[Len(b)..])
    ensures Tiled(b) <==> Tiled(b[Len(b)..])
  {
  }

  lemma Unroll'(b: seq<byte>)
    requires Fits(b) && Chained(b[Len(b)..])
    ensures Chained(b) && Entries(b) == Live(b) + Entries(b[Len(b)..])
    ensures Tiled(b) <==> Tiled(b[Len(b)..])
  {
  }

  /** out is buf with the entry e put in at index `at` of the chain. */
  ghost predicate Added(buf: seq<byte>, out: seq<byte>, at: nat, e: Entry) {
    && Chained(buf) && Chained(out) && at <= |Entries(buf)|
    && Entries(out) == Entries(buf)[..at] + [e] + Entries(buf)[at..]
  }

  lemma SplitAt(buf: seq<byte>, out: seq<byte>, pos: nat, ino: nat, kind: byte, name: Name)
    requires At(buf, pos) && pos < |buf| && Len(buf[pos..]) != 0 && Chained(buf[..pos])
    requires Len(buf[pos..]) - Span(buf[pos..][6]) >= Span(|name|) && 0 < ino < TWO32 && |name| <= 255
    requires pos + 8 <= |buf| && pos + Len(buf[pos..]) <= |buf|
    requires var a := Span(buf[pos..][6]);
             out == WithRecord(PutU16(buf, pos + 4, a), pos + a, ino, kind, Len(buf[pos..]) - a, name)
    ensures Added(buf, out, |Entries(buf[..pos])| + |Live(buf[pos..])|, Entry(name, ino, kind))
    ensures Tiled(out) <==> Tiled(buf)
  {
    hide Entries;
    hide Live;
    hide Tiled;
    hide Chained;
    hide WithRecord;
    hide PutU16;
    hide U16;
    hide U32;
    hide Fits;
    hide Span;
    Whole(buf, pos);
    var b, c := buf[pos..], out[pos..];
    FitsAt(buf, pos);
    SplitBytes(buf, out, pos, ino, kind, name);
    Unroll(b);
    SplitFirst(b, c, ino, kind, name);
    assert out[..pos] == buf[..pos];
    Whole(out, pos);
    var x, l, y := Entries(buf[..pos]), Live(b), Entries(b[Len(b)..]);
    PutIn(x, l, Entry(name, ino, kind), y);
  }

  lemma PutIn(x: seq<Entry>, l: seq<Entry>, e: Entry, y: seq<Entry>)
    ensures var es, at := x + (l + y), |x| + |l|; x + (l + [e] + y) == es[..at] + [e] + es[at..]
  {
  }

  lemma FitsAt(buf: seq<byte>, pos: nat)
    requires At(buf, pos) && pos < |buf| && Len(buf[pos..]) != 0
    ensures Fits(buf[pos..]) && Chained(buf[pos..])
  {
  }

  lemma SplitBytes(buf: seq<byte>, out: seq<byte>, pos: nat, ino: nat, kind: byte, name: Name)
    requires pos + 8 <= |buf| && Fits(buf[pos..])
    requires Len(buf[pos..]) - Span(buf[pos..][6]) >= Span(|name|) && 0 < ino < TWO32 && |name| <= 255
    requires var a := Span(buf[pos..][6]);
             out == WithRecord(PutU16(buf, pos + 4, a), pos + a, ino, kind, Len(buf[pos..]) - a, name)
    ensures |out| == |buf| && out[..pos] == buf[..pos]
    ensures var b, c, a := buf[pos..], out[pos..], Span(buf[pos..][6]);
            && U16(c, 4) == a && c[..4] == b[..4] && c[6..a] == b[6..a] && c[Len(b)..] == b[Len(b)..]
            && U32(c, a) == ino && U16(c, a + 4) == Len(b) - a && c[a + 6] == |name| && c[a + 7] == kind && c[a + 8..a + 8 + |name|] == name
  {
    hide WithRecord;
    var b, c, a, n := buf[pos..], out[pos..], Span(buf[pos..][6]), |name|;
    var m := PutU16(buf, pos + 4, a);
    forall k | 6 <= k < a
      ensures c[k] == b[k]
    {
      assert c[k] == out[pos + k] == m[pos + k] == buf[pos + k];
    }
    assert c[a + 8..a + 8 + n] == out[pos + a + 8..pos + a + 8 + n];
  }

  /** The chain of buf is the chain of buf with anything appended, if it ends early. */
  lemma Hidden(buf: seq<byte>, pos: nat, x: seq<byte>)
    requires At(buf, pos) && pos + 8 <= |buf| && U16(buf, pos + 4) == 0
    ensures Chained(buf) && Chained(buf + x) && Entries(buf + x) == Entries(buf) && !Tiled(buf + x) && !Tiled(buf)
  {
    hide Entries;
    hide Tiled;
    hide Live;
    Ended(buf, pos);
    var b := buf + x;
    assert b[..pos] == buf[..pos] && b[pos..] == buf[pos..] + x;
    assert Len(b[pos..]) == U16(b, pos + 4) == 0;
    Ended(b, pos);
  }

  /** A block holding one record, after a buffer whose records cover it. */
  lemma Appended(buf: seq<byte>, x: seq<byte>, e: Entry)
    requires Tiled(buf) && Chained(buf) && Fits(x) && Len(x) == |x| && Live(x) == [e]
    ensures Added(buf, buf + x, |Entries(buf)|, e) && Tiled(buf + x)
  {
    Single(x);
    assert x[..|x|] == x;
    Concat(buf, x);
    assert Entries(buf)[..|Entries(buf)|] == Entries(buf);
  }

  /** ext4_add_dir_entry on the directory's bytes; the caller writes `out` back. The entry is
      visible exactly when some record had room or the records cover the whole buffer: after
      a zero rec_len an appended block is never reached. */
  method AddEntry(buf: seq<byte>, ino: nat, name: Name, kind: byte, bs: nat) returns (out: seq<byte>, ghost at: nat)
    requires Chained(buf) && 0 < ino < TWO32 && |name| <= 255 && Span(255) <= bs < TWO16
    ensures |out| == if HasRoom(buf, Span(|name|)) then |buf| else |buf| + bs
    ensures Tiled(buf) || HasRoom(buf, Span(|name|)) <==> Added(buf, out, at, Entry(name, ino, kind))
    ensures !(Tiled(buf) || HasRoom(buf, Span(|name|))) ==> Chained(out) && Entries(out) == Entries(buf)
    ensures |out| > |buf| ==> out[..|buf|] == buf
    ensures Tiled(out) <==> Tiled(buf)
  {
    hide At;
    hide Chained;
    hide Tiled;
    hide Entries;
    hide Live;
    hide Len;
    hide Added;
    hide HasRoom;
    hide WithRecord;
    hide PutU16;
    hide U16;
    hide U32;
    hide Span;
    Start(buf);
    var needed := Span(|name|);
    var pos := 0;
    assert buf[0..] == buf;
    while pos < |buf|
      invariant pos <= |buf| && At(buf, pos) && Chained(buf[pos..])
      invariant HasRoom(buf, needed) <==> HasRoom(buf[pos..], needed)
    {
      Header(buf, pos);
      Whole(buf, pos);
      Room(buf[pos..], needed);
      if U16(buf, pos + 4) == 0 { break; }
      var actual := Span(buf[pos + 6]);
      if U16(buf, pos + 4) - actual >= needed {
        out := WithRecord(PutU16(buf, pos + 4, actual), pos + actual, ino, kind, U16(buf, pos + 4) - actual, name);
        SplitAt(buf, out, pos, ino, kind, name);
        at := |Entries(buf[..pos])| + |Live(buf[pos..])|;
        return;
      }
      Advance(buf, pos);
      assert buf[pos..][U16(buf, pos + 4)..] == buf[pos + U16(buf, pos + 4)..];
      pos := pos + U16(buf, pos + 4);
      Whole(buf, pos);
    }
    NoRoom(buf, pos, needed);
    out := WithRecord(buf + Zeros(bs), |buf|, ino, kind, bs, name);
    at := |Entries(buf)|;
    AppendBlock(buf, pos, out, ino, kind, bs, name);
  }

  lemma Room(b: seq<byte>, need: nat)
    requires Chained(b) && |b| >= 8
    ensures Len(b) == 0 ==> !HasRoom(b, need)
    ensures Len(b) != 0 ==> Fits(b) && Chained(b[Len(b)..])
    ensures Len(b) != 0 ==> (HasRoom(b, need) <==> Len(b) - Span(b[6]) >= need || HasRoom(b[Len(b)..], need))
  {
  }

  lemma NoRoom(buf: seq<byte>, pos: nat, need: nat)
    requires At(buf, pos) && (pos == |buf| || (pos + 8 <= |buf| && U16(buf, pos + 4) == 0)) && Chained(buf[pos..])
    ensures !HasRoom(buf[pos..], need)
  {
    if pos < |buf| { assert Len(buf[pos..]) == U16(buf, pos + 4); }
  }

  lemma AppendBlock(buf: seq<byte>, pos: nat, out: seq<byte>, ino: nat, kind: byte, bs: nat, name: Name)
    requires At(buf, pos) && (pos == |buf| || (pos + 8 <= |buf| && U16(buf, pos + 4) == 0))
    requires 0 < ino < TWO32 && |name| <= 255 && Span(255) <= bs < TWO16
    requires out == WithRecord(buf + Zeros(bs), |buf|, ino, kind, bs, name)
    ensures Chained(buf) && Chained(out)
    ensures Tiled(buf) <==> Tiled(out)
    ensures Tiled(buf) <==> Added(buf, out, |Entries(buf)|, Entry(name, ino, kind))
    ensures !Tiled(buf) ==> Entries(out) == Entries(buf)
    ensures out[..|buf|] == buf
  {
    hide WithRecord;
    hide Tiled;
    hide Chained;
    hide Entries;
    hide Live;
    hide Len;
    Ended(buf, pos);
    var x := out[|buf|..];
    assert out == buf + x by { assert (buf + Zeros(bs))[..|buf|] == buf; }
    if pos == |buf| {
      RecordReads(out, |buf|, ino, kind, bs, name);
      Appended(buf, x, Entry(name, ino, kind));
    } else {
      Hidden(buf, pos, x);
    }
  }

  // ----- ext2_unlink_op, ext4_unlink_op -----

  /** out is buf without entry number `at`. */
  ghost predicate Dropped(buf: seq<byte>, out: seq<byte>, at: nat) {
    && Chained(buf) && Chained(out) && at < |Entries(buf)|
    && Entries(out) == Entries(buf)[..at] + Entries(buf)[at + 1..]
  }

  /** rec_len of the first live record called `name` plus that of its predecessor, p being
      the length of the record before b (0 when there is none). */
  ghost function MergedLen(b: seq<byte>, p: nat, name: Name): nat
    requires Chained(b)
    decreases |b|
  {
    if b == [] || Len(b) == 0 then 0
    else if Live(b) != [] && Live(b)[0].name == name then p + Len(b)
    else MergedLen(b[Len(b)..], Len(b), name)
  }

  lemma {:induction false} MergedBound(b: seq<byte>, p: nat, name: Name)
    requires Chained(b)
    ensures MergedLen(b, p, name) <= p + |b|
    decreases |b|
  {
    if b != [] && Len(b) != 0 { MergedBound(b[Len(b)..], Len(b), name); }
  }

  /** Zeroing the inode of the first record drops its entry. */
  lemma ZeroFirst(b: seq<byte>, c: seq<byte>)
    requires Chained(b) && Fits(b) && |c| == |b| && U32(c, 0) == 0 && forall k :: 4 <= k < |b| ==> c[k] == b[k]
    ensures Chained(c) && Entries(c) == Entries(b[Len(b)..])
    ensures Tiled(c) <==> Tiled(b)
  {
    hide Entries;
    hide Chained;
    hide Tiled;
    hide U32;
    Unroll(b);
    assert c[Len(b)..] == b[Len(b)..];
    assert U16(c, 4) == U16(b, 4);
    Unroll'(c);
    assert Live(c) == [];
  }

  /** Two records made one: the second is swallowed, the first keeps its entry. */
  lemma MergeFirst(b: seq<byte>, c: seq<byte>)
    requires Chained(b) && Fits(b) && |b| >= Len(b) + 8 && Fits(b[Len(b)..])
    requires var n := Len(b); |c| == |b| && Len(c) == n + Len(b[n..]) && c[..4] == b[..4] && c[6..n] == b[6..n] && c[n + 4..] == b[n + 4..]
    ensures var n := Len(b); Chained(b[n..]) && Chained(b[n..][Len(b[n..])..])
    ensures var n := Len(b); Chained(c) && Entries(c) == Live(b) + Entries(b[n..][Len(b[n..])..])
    ensures Tiled(c) <==> Tiled(b)
  {
    hide Entries;
    hide Chained;
    hide Tiled;
    hide Live;
    hide Fits;
    hide Len;
    FitsLen(b);
    var n := Len(b);
    Unroll(b);
    var d := b[n..];
    FitsLen(d);
    Unroll(d);
    LongerFirst(b, c, n + Len(d));
    TailSame(b, c, n, Len(d), Len(c));
    Unroll'(c);
  }

  lemma FitsLen(b: seq<byte>)
    requires Fits(b)
    ensures 8 <= Len(b) <= |b|
  {
  }

  lemma TailSame(b: seq<byte>, c: seq<byte>, n: nat, k: nat, m: nat)
    requires n + 4 <= m == n + k <= |b| == |c| && c[n + 4..] == b[n + 4..]
    ensures c[m..] == b[n..][k..]
  {
    assert c[m..] == c[n + 4..][k - 4..];
    assert b[m..] == b[n + 4..][k - 4..];
  }

  lemma LongerFirst(b: seq<byte>, c: seq<byte>, m: nat)
    requires Fits(b) && |c| == |b| && Len(b) <= m <= |b| && Len(c) == m
    requires c[..4] == b[..4] && c[6..Len(b)] == b[6..Len(b)]
    ensures Fits(c) && Live(c) == Live(b)
  {
    var n := Len(b);
    assert forall k :: 0 <= k < 4 ==> c[k] == c[..4][k] && b[k] == b[..4][k];
    assert forall k :: 6 <= k < n ==> c[k] == c[6..n][k - 6] && b[k] == b[6..n][k - 6];
    assert U32(c, 0) == U32(b, 0);
    assert NameOf(c) == NameOf(b);
  }

  /** ext2_unlink_op and ext4_unlink_op on the directory's bytes: -1 exactly when the name is
      not there; otherwise the first record of that name is zeroed and merged into the one
      before it. The sum of the two lengths is stored in 16 bits. */
  method Unlink(buf: seq<byte>, name: Name) returns (r: int, out: seq<byte>, ghost at: nat)
    requires Chained(buf)
    ensures r == 0 || r == -1
    ensures r == 0 <==> name in Table(Entries(buf))
    ensures r == -1 ==> out == buf
    ensures |out| == |buf|
    ensures r == 0 ==> at < |Entries(buf)| && Entries(buf)[at].name == name && name !in Table(Entries(buf)[..at])
    ensures r == 0 && MergedLen(buf, 0, name) < TWO16 ==> Dropped(buf, out, at) && (Tiled(out) <==> Tiled(buf))
    ensures r == 0 ==>
              var s := Spot(buf, 0, 0, name);
              && s.0 + 8 <= |buf| && s.1 + 8 <= |buf| && out == Zapped(buf, s.0, s.1)
              && (MergedLen(buf, 0, name) >= TWO16 ==> (Tiled(out) <==> Refits(buf, s.0, s.1)))
              && (MergedLen(buf, 0, name) >= TWO16 ==> (Dropped(buf, out, at) <==> Survives(buf, s.0, s.1)))
  {
    hide At;
    hide Chained;
    hide Tiled;
    hide Entries;
    hide Live;
    hide Len;
    hide Table;
    hide Dropped;
    hide MergedLen;
    hide U16;
    hide U32;
    hide PutU16;
    hide PutU32;
    hide Span;
    hide Spot;
    hide Refits;
    hide Survives;
    Start(buf);
    TableNil();
    at := 0;
    var pos, prev := 0, 0;
    assert buf[0..] == buf;
    while pos < |buf|
      invariant pos <= |buf| && At(buf, pos) && Chained(buf[..pos]) && Chained(buf[pos..])
      invariant name !in Table(Entries(buf[..pos]))
      invariant pos == 0 ==> prev == 0
      invariant pos > 0 ==> prev < pos && At(buf, prev) && prev + 8 <= |buf| && prev + U16(buf, prev + 4) == pos
      invariant MergedLen(buf, 0, name) == MergedLen(buf[pos..], pos - prev, name)
      invariant Spot(buf, 0, 0, name) == Spot(buf[pos..], prev, pos, name)
    {
      Header(buf, pos);
      Whole(buf, pos);
      if U16(buf, pos + 4) == 0 { break; }
      Advance(buf, pos);
      MergedStep(buf[pos..], pos - prev, name);
      SpotStep(buf[pos..], prev, pos, name);
      TableStep(Entries(buf[..pos]), LiveAt(buf, pos), name);
      if U32(buf, pos) != 0 && buf[pos + 6] == |name| && buf[pos + 8..pos + 8 + buf[pos + 6]] == name {
        out := PutU32(buf, pos, 0);
        at := |Entries(buf[..pos])|;
        if prev != pos {
          out := PutU16(out, prev + 4, (U16(out, prev + 4) + U16(out, pos + 4)) % TWO16);
        }
        Found(buf, pos, name);
        Unlinked(buf, prev, pos, out);
        if pos - prev + U16(buf, pos + 4) >= TWO16 {
          OverflowExact(buf, prev, pos);
          OverflowNames(buf, prev, pos);
        }
        return 0, out, at;
      }
      assert buf[pos..][U16(buf, pos + 4)..] == buf[pos + U16(buf, pos + 4)..];
      prev := pos;
      pos := pos + U16(buf, pos + 4);
      Whole(buf, pos);
    }
    Ended(buf, pos);
    return -1, buf, 0;
  }

  /** Where the first live record called `name` starts, and where the one before it does (the same
      place if it is the first); prev and pos are those places for the record at the front of b. */
  ghost function Spot(b: seq<byte>, prev: nat, pos: nat, name: Name): (nat, nat)
    requires Chained(b)
    decreases |b|
  {
    if b == [] || Len(b) == 0 || (Live(b) != [] && Live(b)[0].name == name) then (prev, pos)
    else Spot(b[Len(b)..], pos, pos + Len(b), name)
  }

  lemma SpotStep(b: seq<byte>, prev: nat, pos: nat, name: Name)
    requires Chained(b) && |b| >= 8 && Len(b) != 0
    ensures Fits(b) && Chained(b[Len(b)..])
    ensures Spot(b, prev, pos, name) ==
            if Live(b) != [] && Live(b)[0].name == name then (prev, pos) else Spot(b[Len(b)..], pos, pos + Len(b), name)
  {
  }

  /** The bytes after the record at pos is unlinked, the one before it being at prev. */
  function Zapped(buf: seq<byte>, prev: nat, pos: nat): seq<byte>
    requires prev + 8 <= |buf| && pos + 8 <= |buf|
  {
    var z := PutU32(buf, pos, 0);
    if prev == pos then z else PutU16(z, prev + 4, (U16(z, prev + 4) + U16(z, pos + 4)) % TWO16)
  }

  /** With the sum of the lengths cut to 16 bits, the record at prev still holds its name, and
      from its new end on the old bytes happen to be whole records. */
  ghost predicate Refits(buf: seq<byte>, prev: nat, pos: nat) {
    && prev < pos && pos + 8 <= |buf|
    && var n := pos - prev + Len(buf[pos..]) - TWO16;
       Span(buf[prev + 6]) <= n && prev + n <= |buf| && Tiled(PutU32(buf, pos, 0)[prev + n..])
  }

  lemma {:induction false} TiledConcat(a: seq<byte>, b: seq<byte>)
    requires Tiled(a)
    ensures Tiled(a + b) <==> Tiled(b)
    decreases |a|
  {
    hide Fits;
    hide Live;
    hide Len;
    if a == [] {
      assert a + b == b;
    } else {
      FrontRecord(a, b);
      TiledConcat(a[Len(a)..], b);
      assert (a + b)[Len(a)..] == a[Len(a)..] + b;
    }
  }

  /** When the sum of the two lengths does not fit 16 bits, the records cover the directory
      afterwards if and only if they refit. */
  lemma OverflowExact(buf: seq<byte>, prev: nat, pos: nat)
    requires At(buf, prev) && prev + 8 <= |buf| && prev < pos && prev + U16(buf, prev + 4) == pos
    requires At(buf, pos) && pos + 8 <= |buf| && Fits(buf[pos..]) && pos - prev + Len(buf[pos..]) >= TWO16
    ensures Tiled(Zapped(buf, prev, pos)) <==> Refits(buf, prev, pos)
  {
    hide Tiled;
    hide Chained;
    hide Live;
    hide At;
    hide Zapped;
    hide PutU32;
    hide U16;
    hide U32;
    hide Span;
    Header(buf, prev);
    Header(buf, pos);
    var out, z, n := Zapped(buf, prev, pos), PutU32(buf, pos, 0), pos - prev + U16(buf, pos + 4) - TWO16;
    OverflowBytes(buf, prev, pos);
    PrefixTiled(buf, prev);
    CutShort(out, prev, n, buf[prev + 6], z[prev + n..]);
  }

  /** With the sum of the lengths cut to 16 bits, exactly the unlinked entry goes: either the stored
      length is 0, the record before it is unused and no entry follows; or the record before it
      still holds its name, and from its new end on the old bytes happen to chain the entries that
      follow. */
  ghost predicate Survives(buf: seq<byte>, prev: nat, pos: nat) {
    && prev + 8 <= pos && pos + 8 <= |buf| && pos + Len(buf[pos..]) <= |buf| && Chained(buf[pos + Len(buf[pos..])..])
    && var n, after := pos - prev + Len(buf[pos..]) - TWO16, Entries(buf[pos + Len(buf[pos..])..]);
       if n == 0 then U32(buf, prev) == 0 && after == []
       else Span(buf[prev + 6]) <= n && prev + n <= |buf| && ChainOf(PutU32(buf, pos, 0)[prev + n..], after)
  }

  ghost predicate ChainOf(b: seq<byte>, es: seq<Entry>) { Chained(b) && Entries(b) == es }

  /** When the sum of the two lengths does not fit 16 bits, exactly the unlinked entry goes if and
      only if the others survive. */
  lemma OverflowNames(buf: seq<byte>, prev: nat, pos: nat)
    requires At(buf, prev) && prev + 8 <= |buf| && prev < pos && prev + U16(buf, prev + 4) == pos
    requires At(buf, pos) && pos + 8 <= |buf| && Fits(buf[pos..]) && pos - prev + Len(buf[pos..]) >= TWO16
    requires Live(buf[pos..]) != [] && Chained(buf[..pos])
    ensures Dropped(buf, Zapped(buf, prev, pos), |Entries(buf[..pos])|) <==> Survives(buf, prev, pos)
  {
    hide Tiled;
    hide Chained;
    hide Entries;
    hide Live;
    hide Fits;
    hide At;
    hide Zapped;
    hide PutU32;
    hide U16;
    hide U32;
    hide Span;
    hide Len;
    Header(buf, prev);
    Header(buf, pos);
    FitsLen(buf[pos..]);
    var out, n := Zapped(buf, prev, pos), pos - prev + U16(buf, pos + 4) - TWO16;
    var before, p, after := Around(buf, prev, pos);
    OverflowBytes(buf, prev, pos);
    var rest := PutU32(buf, pos, 0)[prev + n..];
    Shortened(buf, prev, pos, out, n, rest);
    Without(before, p, Live(buf[pos..]), after);
    if n == 0 {
      Cancel(before, p + after, []);
      assert before + [] == before;
    } else if Chained(rest) {
      Cancel(before, p + after, p + Entries(rest));
      Cancel(p, after, Entries(rest));
    }
  }

  /** The chain once the record at prev has its shortened length. */
  lemma Shortened(buf: seq<byte>, prev: nat, pos: nat, out: seq<byte>, n: nat, rest: seq<byte>)
    requires At(buf, prev) && prev + 8 <= pos && pos + 8 <= |buf| && prev + U16(buf, prev + 4) == pos
    requires Fits(buf[prev..]) && Chained(buf[..prev])
    requires out == Zapped(buf, prev, pos) && n == pos - prev + U16(buf, pos + 4) - TWO16
    requires prev + n <= |buf| && rest == PutU32(buf, pos, 0)[prev + n..]
    ensures n == 0 ==> Chained(out) && Entries(out) == Entries(buf[..prev]) && (Live(buf[prev..]) == [] <==> U32(buf, prev) == 0)
    ensures n > 0 ==> (Chained(out) <==> Span(buf[prev + 6]) <= n && Chained(rest))
    ensures n > 0 && Chained(out) ==> Entries(out) == Entries(buf[..prev]) + (Live(buf[prev..]) + Entries(rest))
  {
    hide Tiled;
    hide Chained;
    hide Entries;
    hide Live;
    hide Zapped;
    hide PutU32;
    hide U16;
    hide U32;
    hide Span;
    OverflowBytes(buf, prev, pos);
    OverflowFirst(buf, prev, pos);
    PrefixTiled(buf, prev);
    SliceU16(buf, prev);
    var a, c := buf[..prev], out[prev..];
    assert out == a + c;
    if n >= 8 { assert c[n..] == out[prev + n..]; }
    FrontChain(c, buf[prev..], n, rest);
    ChainedConcat(a, c);
    if Chained(c) {
      Concat(a, c);
      assert Entries(a) + [] == Entries(a);
    }
  }

  lemma Without(before: seq<Entry>, p: seq<Entry>, e: seq<Entry>, after: seq<Entry>)
    requires |e| == 1
    ensures var es, at := before + p + e + after, |before + p|;
            at < |es| && es[..at] + es[at + 1..] == before + (p + after)
  {
  }

  /** The entries of the chain around the record at pos. */
  lemma Around(buf: seq<byte>, prev: nat, pos: nat) returns (before: seq<Entry>, p: seq<Entry>, after: seq<Entry>)
    requires At(buf, prev) && prev + 8 <= |buf| && prev < pos && prev + U16(buf, prev + 4) == pos
    requires At(buf, pos) && pos + 8 <= |buf| && Fits(buf[pos..]) && Live(buf[pos..]) != [] && Chained(buf[..pos])
    ensures Chained(buf) && Chained(buf[..prev]) && before == Entries(buf[..prev]) && Fits(buf[prev..]) && p == Live(buf[prev..])
    ensures pos + Len(buf[pos..]) <= |buf| && Chained(buf[pos + Len(buf[pos..])..]) && after == Entries(buf[pos + Len(buf[pos..])..])
    ensures Entries(buf[..pos]) == before + p && |Live(buf[pos..])| == 1
    ensures Entries(buf) == before + p + Live(buf[pos..]) + after
  {
    hide Tiled;
    hide Chained;
    hide Entries;
    hide U32;
    hide U16;
    hide At;
    hide Fits;
    hide Live;
    OneLive(buf[pos..]);
    FitsLen(buf[pos..]);
    Header(buf, prev);
    Advance(buf, prev);
    Whole(buf, pos);
    FitsAt(buf, pos);
    Unroll(buf[pos..]);
    assert buf[pos..][Len(buf[pos..])..] == buf[pos + Len(buf[pos..])..];
    before, p, after := Entries(buf[..prev]), Live(buf[prev..]), Entries(buf[pos + Len(buf[pos..])..]);
  }

  lemma OneLive(b: seq<byte>)
    requires Fits(b) && Live(b) != []
    ensures |Live(b)| == 1
  {
  }

  lemma {:induction false} ChainedConcat(a: seq<byte>, b: seq<byte>)
    requires Tiled(a)
    ensures Chained(a + b) <==> Chained(b)
    decreases |a|
  {
    hide Fits;
    hide Live;
    hide Len;
    if a == [] {
      assert a + b == b;
    } else {
      FrontRecord(a, b);
      ChainedConcat(a[Len(a)..], b);
      assert (a + b)[Len(a)..] == a[Len(a)..] + b;
    }
  }

  /** A chain that starts with the record of b, its length cut to n, and goes on with `rest`. */
  lemma FrontChain(c: seq<byte>, b: seq<byte>, n: nat, rest: seq<byte>)
    requires Fits(b) && |c| == |b| && Len(c) == n < Len(b) && c[6] == b[6]
    requires forall k :: 0 <= k < 4 || 6 <= k < n ==> c[k] == b[k]
    requires n >= 8 ==> c[n..] == rest
    ensures n == 0 ==> Chained(c) && Entries(c) == [] && (Live(b) == [] <==> U32(b, 0) == 0)
    ensures n > 0 ==> (Chained(c) <==> Span(b[6]) <= n && Chained(rest))
    ensures n > 0 && Chained(c) ==> Entries(c) == Live(b) + Entries(rest)
  {
    hide U16;
    hide U32;
    assert U32(c, 0) == U32(b, 0) by { SameU32(b, c, 0); }
    if Span(b[6]) <= n { assert NameOf(c) == NameOf(b); }
  }

  lemma OverflowFirst(buf: seq<byte>, prev: nat, pos: nat)
    requires prev + 8 <= pos && pos + 8 <= |buf| && prev + U16(buf, prev + 4) == pos && pos - prev + U16(buf, pos + 4) >= TWO16
    ensures var c, b, n := Zapped(buf, prev, pos)[prev..], buf[prev..], pos - prev + U16(buf, pos + 4) - TWO16;
            |c| == |b| && n < pos - prev && c[6] == b[6] && U32(b, 0) == U32(buf, prev) && forall k :: 0 <= k < 4 || 6 <= k < n ==> c[k] == b[k]
  {
    hide PutU16;
    hide PutU32;
    hide U16;
  }

  lemma Cancel(a: seq<Entry>, b: seq<Entry>, c: seq<Entry>)
    ensures a + b == a + c <==> b == c
  {
    if a + b == a + c { assert b == (a + b)[|a|..] == (a + c)[|a|..] == c; }
  }

  /** A chain whose record at prev has length n and a name of x bytes, and goes on with `rest`. */
  lemma CutShort(out: seq<byte>, prev: nat, n: nat, x: byte, rest: seq<byte>)
    requires prev + 8 <= |out| && Tiled(out[..prev]) && Len(out[prev..]) == n && out[prev..][6] == x && prev + n <= |out|
    requires n >= 8 ==> out[prev + n..] == rest
    ensures Tiled(out) <==> Span(x) <= n && Tiled(rest)
  {
    hide Tiled;
    hide Span;
    var c := out[prev..];
    assert out == out[..prev] + c;
    TiledConcat(out[..prev], c);
    TiledFront(c);
    if n >= 8 { assert c[n..] == out[prev + n..]; }
  }

  lemma PrefixTiled(buf: seq<byte>, prev: nat)
    requires At(buf, prev)
    ensures Tiled(buf[..prev])
  {
  }

  lemma TiledFront(c: seq<byte>)
    requires |c| >= 8
    ensures Tiled(c) <==> Fits(c) && Tiled(c[Len(c)..])
  {
  }

  lemma OverflowBytes(buf: seq<byte>, prev: nat, pos: nat)
    requires prev + 8 <= pos && pos + 8 <= |buf| && prev + U16(buf, prev + 4) == pos && pos - prev + U16(buf, pos + 4) >= TWO16
    ensures var out, n := Zapped(buf, prev, pos), pos - prev + U16(buf, pos + 4) - TWO16;
            && |out| == |buf| && out[..prev] == buf[..prev] && out[prev..][6] == buf[prev + 6]
            && Len(out[prev..]) == n && prev + n < pos && Len(buf[pos..]) == U16(buf, pos + 4)
            && (n >= 8 ==> out[prev + n..] == PutU32(buf, pos, 0)[prev + n..])
  {
    hide PutU16;
    hide PutU32;
    hide U32;
    hide U16;
    var z, n := PutU32(buf, pos, 0), pos - prev + U16(buf, pos + 4) - TWO16;
    SameU16(z, buf, pos + 4);
    SameU16(z, buf, prev + 4);
    var out := PutU16(z, prev + 4, n);
    assert out == Zapped(buf, prev, pos);
    SliceU16(buf, pos);
    SliceU16(out, prev);
  }

  lemma SliceU16(b: seq<byte>, at: nat)
    requires at + 8 <= |b|
    ensures Len(b[at..]) == U16(b, at + 4)
  {
  }

  lemma MergedStep(b: seq<byte>, p: nat, name: Name)
    requires Chained(b) && |b| >= 8 && Len(b) != 0
    ensures Fits(b) && Chained(b[Len(b)..])
    ensures MergedLen(b, p, name) == if Live(b) != [] && Live(b)[0].name == name then p + Len(b) else MergedLen(b[Len(b)..], Len(b), name)
  {
  }

  /** The entry of a live record at pos sits right behind those before pos. */
  lemma Found(buf: seq<byte>, pos: nat, name: Name)
    requires At(buf, pos) && pos < |buf| && Len(buf[pos..]) != 0 && Fits(buf[pos..])
    requires Chained(buf[..pos]) && Chained(buf) && Live(buf[pos..]) != [] && Live(buf[pos..])[0].name == name
    ensures var k := |Entries(buf[..pos])|;
            k < |Entries(buf)| && Entries(buf)[k].name == name && Entries(buf)[..k] == Entries(buf[..pos])
    ensures name in Table(Entries(buf))
  {
    hide Live;
    hide Tiled;
    hide Chained;
    hide Entries;
    Whole(buf, pos);
    FitsAt(buf, pos);
    Unroll(buf[pos..]);
    InTable(Entries(buf), name);
  }

  lemma Unlinked(buf: seq<byte>, prev: nat, pos: nat, out: seq<byte>)
    requires At(buf, pos) && pos + 8 <= |buf| && Len(buf[pos..]) != 0 && Fits(buf[pos..])
    requires Chained(buf[..pos]) && Live(buf[pos..]) != []
    requires pos == 0 ==> prev == 0
    requires pos > 0 ==> prev < pos && At(buf, prev) && prev + 8 <= |buf| && prev + U16(buf, prev + 4) == pos
    requires pos == 0 ==> out == PutU32(buf, pos, 0)
    requires pos > 0 ==> out == PutU16(PutU32(buf, pos, 0), prev + 4, (U16(PutU32(buf, pos, 0), prev + 4) + U16(PutU32(buf, pos, 0), pos + 4)) % TWO16)
    ensures pos - prev + Len(buf[pos..]) < TWO16 ==> Dropped(buf, out, |Entries(buf[..pos])|) && (Tiled(out) <==> Tiled(buf))
  {
    if pos - prev + Len(buf[pos..]) < TWO16 {
      if pos == 0 {
        UnlinkFirst(buf, out);
      } else {
        UnlinkLater(buf, prev, pos, out);
      }
    }
  }

  lemma UnlinkFirst(buf: seq<byte>, out: seq<byte>)
    requires At(buf, 0) && |buf| >= 8 && Len(buf[0..]) != 0 && Fits(buf[0..]) && Live(buf[0..]) != []
    requires out == PutU32(buf, 0, 0)
    ensures Chained(buf[..0]) && Dropped(buf, out, |Entries(buf[..0])|) && (Tiled(out) <==> Tiled(buf))
  {
    hide Live;
    hide U16;
    hide U32;
    hide Tiled;
    hide Chained;
    hide Entries;
    hide PutU32;
    FitsAt(buf, 0);
    Whole(buf, 0);
    assert buf[0..] == buf && buf[..0] == [];
    EntriesNil();
    Unroll(buf);
    ZeroFirst(buf, out);
    LiveOne(buf);
  }

  lemma EntriesNil()
    ensures Chained([]) && Entries([]) == []
  {
  }

  lemma LiveOne(b: seq<byte>)
    requires Fits(b)
    ensures |Live(b)| <= 1
  {
  }

  lemma UnlinkLater(buf: seq<byte>, prev: nat, pos: nat, out: seq<byte>)
    requires At(buf, pos) && pos + 8 <= |buf| && Len(buf[pos..]) != 0 && Fits(buf[pos..])
    requires Chained(buf[..pos]) && Live(buf[pos..]) != []
    requires prev < pos && At(buf, prev) && prev + 8 <= |buf| && prev + U16(buf, prev + 4) == pos
    requires out == PutU16(PutU32(buf, pos, 0), prev + 4, (U16(PutU32(buf, pos, 0), prev + 4) + U16(PutU32(buf, pos, 0), pos + 4)) % TWO16)
    requires pos - prev + Len(buf[pos..]) < TWO16
    ensures Dropped(buf, out, |Entries(buf[..pos])|) && (Tiled(out) <==> Tiled(buf))
  {
    hide Live;
    hide Len;
    hide U16;
    hide U32;
    hide Tiled;
    hide Chained;
    hide Entries;
    hide PutU32;
    hide PutU16;
    hide Fits;
    hide At;
    TwoRecords(buf, prev, pos);
    var b, d := buf[prev..], buf[pos..];
    MergedBytes(buf, prev, pos, out);
    MergedAt(buf, out, prev, pos);
    LiveOne(d);
    DropMiddle(Entries(buf[..prev]) + Live(b), Live(d), Entries(d[Len(d)..]));
  }

  lemma DropMiddle(x: seq<Entry>, d: seq<Entry>, y: seq<Entry>)
    requires |d| == 1
    ensures (x + y) == (x + d + y)[..|x|] + (x + d + y)[|x| + 1..]
  {
  }

  /** The entries around two neighbouring records. */
  lemma TwoRecords(buf: seq<byte>, prev: nat, pos: nat)
    requires At(buf, pos) && pos + 8 <= |buf| && Len(buf[pos..]) != 0 && Fits(buf[pos..])
    requires prev < pos && At(buf, prev) && prev + 8 <= |buf| && prev + U16(buf, prev + 4) == pos
    ensures var b, d := buf[prev..], buf[pos..];
            && prev + 8 <= pos && Fits(b) && Fits(d) && Len(b) == pos - prev && 8 <= Len(d) <= |d|
            && Chained(buf) && Chained(buf[..prev]) && Chained(buf[..pos]) && Chained(b) && Chained(d) && Chained(d[Len(d)..])
            && Entries(buf[..pos]) == Entries(buf[..prev]) + Live(b)
            && Entries(buf) == Entries(buf[..prev]) + Live(b) + Live(d) + Entries(d[Len(d)..])
            && (Tiled(buf) <==> Tiled(b))
  {
    hide Live;
    hide U16;
    hide U32;
    hide Tiled;
    hide Chained;
    hide Entries;
    Header(buf, prev);
    FitsAt(buf, pos);
    Advance(buf, prev);
    Whole(buf, prev);
    Whole(buf, pos);
    Unroll(buf[pos..]);
  }

  lemma MergedAt(buf: seq<byte>, out: seq<byte>, prev: nat, pos: nat)
    requires prev + 8 <= pos && pos + 8 <= |buf| && At(buf, prev) && |out| == |buf| && out[..prev] == buf[..prev]
    requires Fits(buf[prev..]) && Fits(buf[pos..]) && Len(buf[prev..]) == pos - prev
    requires var b, c, n := buf[prev..], out[prev..], pos - prev;
             Len(c) == n + Len(buf[pos..]) && c[..4] == b[..4] && c[6..n] == b[6..n] && c[n + 4..] == b[n + 4..]
    ensures var b, d := buf[prev..], buf[pos..];
            && Chained(out) && Chained(buf[..prev]) && Chained(d[Len(d)..])
            && Entries(out) == Entries(buf[..prev]) + Live(b) + Entries(d[Len(d)..])
            && (Tiled(out) <==> Tiled(b))
  {
    hide Live;
    hide U16;
    hide U32;
    hide Tiled;
    hide Chained;
    hide Entries;
    var b := buf[prev..];
    assert b[pos - prev..] == buf[pos..];
    MergeFirst(b, out[prev..]);
    Whole(out, prev);
  }

  lemma MergedBytes(buf: seq<byte>, prev: nat, pos: nat, out: seq<byte>)
    requires prev + 8 <= pos && pos + 8 <= |buf| && Len(buf[prev..]) == pos - prev && pos - prev + Len(buf[pos..]) < TWO16
    requires out == PutU16(PutU32(buf, pos, 0), prev + 4, (U16(PutU32(buf, pos, 0), prev + 4) + U16(PutU32(buf, pos, 0), pos + 4)) % TWO16)
    ensures |out| == |buf| && out[..prev] == buf[..prev]
    ensures var b, c, n := buf[prev..], out[prev..], pos - prev;
            Len(c) == n + Len(buf[pos..]) && c[..4] == b[..4] && c[6..n] == b[6..n] && c[n + 4..] == b[n + 4..]
  {
    var m := PutU32(buf, pos, 0);
    var b, c, n := buf[prev..], out[prev..], pos - prev;
    assert U16(m, prev + 4) == U16(buf, prev + 4) == n;
    assert U16(m, pos + 4) == U16(buf, pos + 4) == Len(buf[pos..]);
    forall k | 0 <= k < |b| && k !in {4, 5, n, n + 1, n + 2, n + 3}
      ensures c[k] == b[k]
    {
      assert c[k] == out[prev + k] == m[prev + k] == buf[prev + k];
    }
  }

  // ----- the directory as a map -----

  lemma AddedChained(buf: seq<byte>, out: seq<byte>, at: nat, e: Entry)
    requires Added(buf, out, at, e)
    ensures Chained(out)
  {
  }

  lemma DroppedChained(buf: seq<byte>, out: seq<byte>, at: nat)
    requires Dropped(buf, out, at)
    ensures Chained(out)
  {
  }

  /** Adding an absent name changes the table in that name only, and names stay unique. */
  lemma AddedTable(buf: seq<byte>, out: seq<byte>, at: nat, e: Entry)
    requires Added(buf, out, at, e) && e.name !in Table(Entries(buf))
    ensures Table(Entries(out)) == Table(Entries(buf))[e.name := e.ino]
    ensures Unique(Entries(buf)) ==> Unique(Entries(out))
  {
    hide Entries;
    hide Chained;
    hide Table;
    hide Unique;
    var es := Entries(buf);
    assert es[..at] + es[at..] == es;
    TableAdds(es[..at], e, es[at..]);
    if Unique(es) { UniqueJoin(es[..at], e, es[at..]); }
  }

  /** Unlinking the first record of a name removes exactly that name if and only if no later
      record carries it; in a directory of unique names it always does. */
  lemma DroppedTable(buf: seq<byte>, out: seq<byte>, at: nat, name: Name)
    requires Dropped(buf, out, at) && Entries(buf)[at].name == name && name !in Table(Entries(buf)[..at])
    ensures Table(Entries(out)) == Table(Entries(buf)) - {name} <==> name !in Table(Entries(buf)[at + 1..])
    ensures Unique(Entries(buf)) ==> Unique(Entries(out)) && Table(Entries(out)) == Table(Entries(buf)) - {name}
  {
    hide Entries;
    hide Chained;
    hide Table;
    hide Unique;
    var es := Entries(buf);
    assert es[..at] + [es[at]] + es[at + 1..] == es;
    TableRemoves(es[..at], es[at], es[at + 1..]);
    if Unique(es) { UniqueSplit(es[..at], es[at], es[at + 1..]); }
  }

  /** Adding an absent name and unlinking it again gives back the same table. */
  method AddThenUnlink(buf: seq<byte>, ino: nat, name: Name, kind: byte, bs: nat) returns (r: int, out: seq<byte>)
    requires Tiled(buf) && Chained(buf) && Unique(Entries(buf)) && name !in Table(Entries(buf))
    requires 0 < ino < TWO32 && |name| <= 255 && Span(255) <= bs < TWO16 && |buf| + bs < TWO16
    ensures r == 0 && Tiled(out) && Chained(out) && Table(Entries(out)) == Table(Entries(buf))
  {
    hide Table;
    hide Tiled;
    hide Chained;
    hide Entries;
    hide Span;
    var mid, at := AddEntry(buf, ino, name, kind, bs);
    AddedTable(buf, mid, at, Entry(name, ino, kind));
    MergedBound(mid, 0, name);
    r, out, at := Unlink(mid, name);
    DroppedTable(mid, out, at, name);
  }

  // ----- a concrete directory -----

  /** A record of its own, with nothing behind its name. */
  function Record(ino: nat, len: nat, name: Name): (r: seq<byte>)
    requires ino < TWO32 && |name| <= 255 && Span(|name|) <= len < TWO16
    ensures |r| == len
  {
    WithRecord(Zeros(len), 0, ino, 1, len, name)
  }

  lemma RecordTiles(ino: nat, len: nat, name: Name)
    requires 0 < ino < TWO32 && |name| <= 255 && Span(|name|) <= len < TWO16
    ensures var r := Record(ino, len, name);
            && Tiled(r) && Chained(r) && Fits(r) && Len(r) == len && r[6] == |name| && Live(r) == [Entry(name, ino, 1)] && Entries(r) == [Entry(name, ino, 1)]
  {
    hide WithRecord;
    hide Entries;
    hide Tiled;
    hide Chained;
    var r := Record(ino, len, name);
    RecordReads(r, 0, ino, 1, len, name);
    assert r[0..] == r && r[..len] == r;
    Single(r);
  }

  lemma {:induction false} RoomConcat(a: seq<byte>, b: seq<byte>, need: nat)
    requires Tiled(a) && Chained(a) && Chained(b) && Chained(a + b)
    ensures HasRoom(a + b, need) <==> HasRoom(a, need) || HasRoom(b, need)
    decreases |a|
  {
    hide Fits;
    hide Live;
    hide Len;
    if a == [] {
      assert a + b == b;
    } else {
      FrontRecord(a, b);
      var n := Len(a);
      assert (a + b)[n..] == a[n..] + b && (a + b)[6] == a[6];
      RoomConcat(a[n..], b, need);
    }
  }

  /** A block of 1024 bytes full of names: three of 255 bytes and one of 224. */
  function Crowded(): (b: seq<byte>)
    ensures |b| == 1024
  {
    Record(1, 264, Long(255, 1)) + Record(1, 264, Long(255, 2)) + (Record(1, 264, Long(255, 3)) + Record(1, 232, Long(224, 4)))
  }

  /** n times the byte c. */
  function Long(n: nat, c: byte): (r: Name)
    ensures |r| == n && forall i :: 0 <= i < n ==> r[i] == c
  {
    seq(n, _ => c)
  }

  /** A record that is exactly as long as its name needs has no room. */
  lemma Tight(n: nat, len: nat, c: byte, need: nat)
    requires n <= 255 && len == Span(n) && need > 0
    ensures var r := Record(1, len, Long(n, c));
            Tiled(r) && Chained(r) && Entries(r) == [Entry(Long(n, c), 1, 1)] && !HasRoom(r, need)
  {
    hide Record;
    hide Long;
    hide Entries;
    RecordTiles(1, len, Long(n, c));
    var r := Record(1, len, Long(n, c));
    assert r[len..] == [];
  }

  lemma CrowdedPair(n: nat, c: byte, m: nat, e: byte, need: nat)
    requires n <= 255 && m <= 255 && need > 0
    ensures var b := Record(1, Span(n), Long(n, c)) + Record(1, Span(m), Long(m, e));
            Tiled(b) && Chained(b) && Entries(b) == [Entry(Long(n, c), 1, 1), Entry(Long(m, e), 1, 1)] && !HasRoom(b, need)
  {
    hide Record;
    hide Long;
    hide Entries;
    hide Tiled;
    hide Chained;
    hide HasRoom;
    hide Span;
    Tight(n, Span(n), c, need);
    Tight(m, Span(m), e, need);
    var x, y := Record(1, Span(n), Long(n, c)), Record(1, Span(m), Long(m, e));
    Concat(x, y);
    RoomConcat(x, y, need);
  }

  lemma CrowdedFacts(need: nat)
    requires need > 0
    ensures Tiled(Crowded()) && Chained(Crowded()) && Unique(Entries(Crowded())) && !HasRoom(Crowded(), need)
    ensures [9] !in Table(Entries(Crowded()))
  {
    hide Record;
    hide Entries;
    hide Tiled;
    hide Chained;
    hide HasRoom;
    hide Table;
    assert Span(255) == 264 && Span(224) == 232;
    CrowdedPair(255, 1, 255, 2, need);
    CrowdedPair(255, 3, 224, 4, need);
    var x := Record(1, 264, Long(255, 1)) + Record(1, 264, Long(255, 2));
    var y := Record(1, 264, Long(255, 3)) + Record(1, 232, Long(224, 4));
    Concat(x, y);
    RoomConcat(x, y, need);
    CrowdedNames(Long(255, 1), Long(255, 2), Long(255, 3), Long(224, 4));
    assert Entries(x + y) == [Entry(Long(255, 1), 1, 1), Entry(Long(255, 2), 1, 1)] + [Entry(Long(255, 3), 1, 1), Entry(Long(224, 4), 1, 1)];
    assert Crowded() == x + y;
  }

  lemma CrowdedNames(a: Name, b: Name, c: Name, e: Name)
    requires |a| > 1 && |b| > 1 && |c| > 1 && |e| > 1 && a[0] == 1 && b[0] == 2 && c[0] == 3 && e[0] == 4
    ensures var es := [Entry(a, 1, 1), Entry(b, 1, 1)] + [Entry(c, 1, 1), Entry(e, 1, 1)]; Unique(es) && [9] !in Table(es)
  {
    var es := [Entry(a, 1, 1), Entry(b, 1, 1)] + [Entry(c, 1, 1), Entry(e, 1, 1)];
    assert es == [Entry(a, 1, 1), Entry(b, 1, 1), Entry(c, 1, 1), Entry(e, 1, 1)];
    InTable(es, [9]);
  }

  /** Two records of 32 KiB: unlinking the second stores a rec_len of 0 in the first, and with it
      loses the first as well. */
  method UnlinkLosesTheOther(a: Name, b: Name) returns (before: int, r: int, after: int)
    requires a != b && |a| <= 255 && |b| <= 255
    ensures before == 0 && r == 0 && after == -1
  {
    hide WithRecord;
    hide Record;
    hide Entries;
    hide Tiled;
    hide Chained;
    hide Table;
    hide Live;
    hide Spot;
    hide Zapped;
    hide MergedLen;
    hide Refits;
    var x, y := Record(1, 32768, a), Record(2, 32768, b);
    var buf := x + y;
    var ino, out;
    ghost var at;
    TwoHalves(a, b);
    before, ino := Lookup(buf, a);
    r, out, at := Unlink(buf, b);
    NothingLeft(out);
    after, ino := Lookup(out, a);
  }

  lemma TwoHalves(a: Name, b: Name)
    requires a != b && |a| <= 255 && |b| <= 255
    ensures var buf := Record(1, 32768, a) + Record(2, 32768, b);
            && Tiled(buf) && Chained(buf) && a in Table(Entries(buf)) && b in Table(Entries(buf))
            && Spot(buf, 0, 0, b) == (0, 32768) && MergedLen(buf, 0, b) == TWO16
            && |Zapped(buf, 0, 32768)| >= 8 && Len(Zapped(buf, 0, 32768)) == 0
  {
    hide WithRecord;
    hide Record;
    hide Chained;
    hide Tiled;
    hide Zapped;
    var x, y := Record(1, 32768, a), Record(2, 32768, b);
    var buf := x + y;
    RecordTiles(1, 32768, a);
    RecordTiles(2, 32768, b);
    Concat(x, y);
    FrontRecord(x, y);
    assert buf[32768..] == y;
    TableConcat([Entry(a, 1, 1)], [Entry(b, 2, 1)]);
    HalvesZapped(x, y);
  }

  lemma HalvesZapped(x: seq<byte>, y: seq<byte>)
    requires |x| == |y| == 32768 && U16(x, 4) == 32768 && U16(y, 4) == 32768
    ensures |Zapped(x + y, 0, 32768)| >= 8 && Len(Zapped(x + y, 0, 32768)) == 0
  {
    hide PutU32;
    hide PutU16;
    var z := PutU32(x + y, 32768, 0);
    assert U16(z, 4) == U16(x, 4) && U16(z, 32772) == U16(y, 4);
  }

  lemma NothingLeft(b: seq<byte>)
    requires |b| >= 8 && Len(b) == 0
    ensures Chained(b) && Entries(b) == [] && Table([]) == map[]
  {
  }
}
