/** Files as byte arrays: what a sequence of writes, resizes and reads makes of each byte of each
    file, told without blocks or trees. */
module FileModel {
  import opened Bytes

  datatype Option<T> = None | Some(value: T)

  datatype Op =
    | Write(ino: nat, offset: nat, data: seq<byte>)
    | Resize(ino: nat, size: nat)
    | Read(ino: nat, offset: nat, count: nat)
  {
    /** Positions stay below 4 GiB, by a block of bs bytes. */
    predicate Ok(bs: nat) {
      match this
      case Write(_, offset, data) => offset + |data| + bs <= TWO32
      case Resize(_, size) => size + bs <= TWO32
      case Read(_, offset, count) => offset + count < TWO32
    }
  }

  /** n: bytes stored or status, as a 32-bit signed value where that matters; bytes: what a read
      delivered. */
  datatype Outcome = Outcome(n: int, bytes: seq<byte>)

  /** The number of bytes behind a returned count. */
  function Count(n: int): int { if n < 0 then n + TWO32 else n }

  /** What one operation makes of the byte b at pos of file ino. */
  function After(op: Op, out: Outcome, ino: nat, pos: nat, b: Option<byte>): Option<byte> {
    match op
    case Write(i, offset, data) =>
      // a negative count means the inode was not written back: only what was mapped before is there
      if i != ino || !(offset <= pos < offset + |data|) || pos - offset >= Count(out.n) then b
      else if out.n >= 0 || b.Some? then Some(data[pos - offset])
      else None
    case Resize(i, size) => if i == ino && out.n == 0 && pos >= size then None else b
    case Read(_, _, _) => b
  }

  /** The byte last written at pos of file ino, or the one that was there in the beginning. */
  function Latest(ops: seq<Op>, outs: seq<Outcome>, ino: nat, pos: nat, b: Option<byte>): Option<byte>
    requires |ops| == |outs|
  {
    if ops == [] then b
    else
      var n := |ops| - 1;
      After(ops[n], outs[n], ino, pos, Latest(ops[..n], outs[..n], ino, pos, b))
  }

  /** The read delivered v for position pos. */
  predicate Has(op: Op, out: Outcome, pos: nat, v: byte)
    requires op.Read? && pos >= op.offset
  {
    pos - op.offset < |out.bytes| && out.bytes[pos - op.offset] == v
  }

  /** What a volume holds: the byte at a position of a file, None where the file has none. */
  type View = (nat, nat) -> Option<byte>

  /** Where the array model knows a byte, the volume holds it. */
  ghost predicate Refines(v: View, ino: nat, pos: nat, b: Option<byte>) {
    b.Some? ==> v(ino, pos) == b
  }

  /** From v0 to v by op, at every byte of every file. */
  ghost predicate Stepped(v0: View, v: View, op: Op, out: Outcome) {
    forall ino: nat, pos: nat, b: Option<byte> :: Refines(v0, ino, pos, b) ==> Refines(v, ino, pos, After(op, out, ino, pos, b))
  }

  /** Every byte the array model knows is delivered by the read. */
  ghost predicate Delivers(v: View, op: Op, out: Outcome) {
    op.Read? ==> forall pos: nat, b: Option<byte> ::
      op.offset <= pos < op.offset + op.count && b.Some? && Refines(v, op.ino, pos, b) ==> Has(op, out, pos, b.value)
  }

  /** After ops from v0, the volume holds every byte the array model knows. */
  ghost predicate Tracks(v0: View, v: View, ops: seq<Op>, outs: seq<Outcome>) {
    |ops| == |outs| && forall ino: nat, pos: nat :: Refines(v, ino, pos, Latest(ops, outs, ino, pos, v0(ino, pos)))
  }

  /** What the array model knows at pos of the read's file after ops, the read delivered. */
  ghost predicate Served(v0: View, ops: seq<Op>, outs: seq<Outcome>, op: Op, out: Outcome, pos: nat)
    requires |ops| == |outs| && op.Read? && pos >= op.offset
  {
    var b := Latest(ops, outs, op.ino, pos, v0(op.ino, pos));
    b.Some? ==> Has(op, out, pos, b.value)
  }

  /** Operation number i, if a read, delivered every byte the array model knew at that moment. */
  ghost predicate ReadsLatest(v0: View, ops: seq<Op>, outs: seq<Outcome>, i: nat) {
    && i < |ops| == |outs|
    && (ops[i].Read? ==>
          forall pos: nat :: ops[i].offset <= pos < ops[i].offset + ops[i].count ==>
            Served(v0, ops[..i], outs[..i], ops[i], outs[i], pos))
  }

  lemma TracksNothing(v: View)
    ensures Tracks(v, v, [], [])
  {
  }

  /** One more operation keeps the volume on the track of the array model. */
  lemma TracksMore(v0: View, v1: View, v: View, ops: seq<Op>, outs: seq<Outcome>, op: Op, out: Outcome)
    requires Tracks(v0, v1, ops, outs) && Stepped(v1, v, op, out) && Delivers(v1, op, out)
    ensures Tracks(v0, v, ops + [op], outs + [out])
    ensures ReadsLatest(v0, ops + [op], outs + [out], |ops|)
    ensures forall i :: 0 <= i < |ops| && ReadsLatest(v0, ops, outs, i) ==> ReadsLatest(v0, ops + [op], outs + [out], i)
  {
    hide Refines;
    hide After;
    hide ReadsLatest;
    var ops', outs', n := ops + [op], outs + [out], |ops|;
    assert ops'[..n] == ops && outs'[..n] == outs;
    NewRead(v0, v1, ops, outs, op, out);
    forall i | 0 <= i < n && ReadsLatest(v0, ops, outs, i)
      ensures ReadsLatest(v0, ops', outs', i)
    {
      OldRead(v0, ops, outs, op, out, i);
    }
  }

  lemma NewRead(v0: View, v1: View, ops: seq<Op>, outs: seq<Outcome>, op: Op, out: Outcome)
    requires Tracks(v0, v1, ops, outs) && Delivers(v1, op, out)
    ensures ReadsLatest(v0, ops + [op], outs + [out], |ops|)
  {
    hide Refines;
    hide Latest;
    hide Has;
    var n := |ops|;
    assert (ops + [op])[..n] == ops && (outs + [out])[..n] == outs;
    if op.Read? {
      forall pos: nat | op.offset <= pos < op.offset + op.count
        ensures Served(v0, ops, outs, op, out, pos)
      {
        assert Refines(v1, op.ino, pos, Latest(ops, outs, op.ino, pos, v0(op.ino, pos)));
      }
    }
  }

  lemma OldRead(v0: View, ops: seq<Op>, outs: seq<Outcome>, op: Op, out: Outcome, i: nat)
    requires ReadsLatest(v0, ops, outs, i)
    ensures ReadsLatest(v0, ops + [op], outs + [out], i)
  {
    hide Served;
    assert (ops + [op])[..i] == ops[..i] && (outs + [out])[..i] == outs[..i];
  }
}
