/** Quotient, remainder and product by a variable unit (a block size, a group size, a
    pointer count), defined by counting units. They are C's / % * on unsigned values, as
    CountsUnits says; stated this way they stay linear for the solver. */
module Arith {
  function Div(x: nat, m: nat): nat
    requires m > 0
    decreases x
  {
    if x < m then 0 else 1 + Div(x - m, m)
  }

  function Mod(x: nat, m: nat): (r: nat)
    requires m > 0
    ensures r < m && r <= x
    decreases x
  {
    if x < m then x else Mod(x - m, m)
  }

  function Mul(q: nat, m: nat): nat {
    if q == 0 then 0 else m + Mul(q - 1, m)
  }

  /** The three functions are the machine operations. */
  lemma {:induction false} CountsUnits(x: nat, q: nat, m: nat)
    requires m > 0
    ensures Mul(q, m) == q * m
    ensures Div(x, m) == x / m && Mod(x, m) == x % m
    decreases x + q
  {
    if q > 0 {
      CountsUnits(x, q - 1, m);
      assert q * m == m + (q - 1) * m;
    } else if x >= m {
      CountsUnits(x - m, 0, m);
      OneLess(x, m);
    }
  }

  lemma OneLess(x: nat, m: nat)
    requires 0 < m <= x
    ensures x / m == 1 + (x - m) / m && x % m == (x - m) % m
  {
    var k := (x - m) / m;
    assert x - m == k * m + (x - m) % m;
    assert x == (k + 1) * m + (x - m) % m;
    QuotientUnique(x, m, k + 1, (x - m) % m);
  }

  lemma {:induction false} Gap(a: nat, b: nat, m: nat)
    requires a <= b
    ensures a < b ==> a * m + m <= b * m
    decreases b
  {
    if a < b {
      assert b * m == (b - 1) * m + m;
      Gap(a, b - 1, m);
    }
  }

  lemma QuotientUnique(x: nat, m: nat, q: nat, r: nat)
    requires m > 0 && r < m && x == q * m + r
    ensures x / m == q && x % m == r
  {
    var k := x / m;
    assert x == k * m + x % m;
    if k < q { Gap(k, q, m); } else { Gap(q, k, m); }
  }

  lemma {:induction false} Split(x: nat, m: nat)
    requires m > 0
    ensures x == Mul(Div(x, m), m) + Mod(x, m)
    decreases x
  {
    if x >= m { Split(x - m, m); }
  }

  lemma {:induction false} Join(q: nat, r: nat, m: nat)
    requires r < m
    ensures Div(Mul(q, m) + r, m) == q && Mod(Mul(q, m) + r, m) == r
  {
    if q > 0 { Join(q - 1, r, m); }
  }

  lemma {:induction false} MulMono(a: nat, b: nat, m: nat)
    requires a <= b
    ensures Mul(a, m) <= Mul(b, m)
    ensures a < b ==> Mul(a, m) + m <= Mul(b, m)
    decreases b
  {
    if a < b { MulMono(a, b - 1, m); }
  }

  /** Same unit, next byte: how a position moves within its unit or into the next. */
  lemma Advance(x: nat, k: nat, m: nat)
    requires m > 0 && Mod(x, m) + k <= m
    ensures Mod(x, m) + k < m ==> Div(x + k, m) == Div(x, m) && Mod(x + k, m) == Mod(x, m) + k
    ensures Mod(x, m) + k == m ==> Div(x + k, m) == Div(x, m) + 1 && Mod(x + k, m) == 0
  {
    Split(x, m);
    if Mod(x, m) + k < m {
      Join(Div(x, m), Mod(x, m) + k, m);
    } else {
      assert Mul(Div(x, m) + 1, m) == Mul(Div(x, m), m) + m;
      Join(Div(x, m) + 1, 0, m);
    }
  }

  /** In the unit of position hi, offsets from hi on are the positions from hi on. */
  lemma SamePage(bs: nat, hi: nat, pos: nat, len: nat)
    requires bs > 0 && Mod(hi, bs) + len <= bs
    ensures hi <= pos < hi + len ==> Div(pos, bs) == Div(hi, bs)
    ensures Div(pos, bs) == Div(hi, bs) ==> pos - Mod(pos, bs) == hi - Mod(hi, bs)
  {
    Split(hi, bs);
    Split(pos, bs);
    if hi <= pos < hi + len { Advance(hi, pos - hi, bs); }
  }

  function Min(a: nat, b: nat): nat { if a < b then a else b }

  lemma {:induction false} DivLe(x: nat, m: nat)
    requires m > 0
    ensures Div(x, m) <= x
    decreases x
  {
    if x >= m { DivLe(x - m, m); }
  }

  lemma {:induction false} DivMono(x: nat, y: nat, m: nat)
    requires m > 0 && x <= y
    ensures Div(x, m) <= Div(y, m)
    decreases y
  {
    if x >= m { DivMono(x - m, y - m, m); }
  }
}

/** Byte buffers as the kernel sees them: little-endian fields at fixed offsets and
    the bits of a bitmap, with the get-after-set laws everything on disk rests on. */
module Bytes {
  type byte = x: int | 0 <= x < 256

  const TWO16: nat := 0x1_0000
  const TWO31: nat := 0x8000_0000
  const TWO32: nat := 0x1_0000_0000

  /** A 32-bit value read as a signed one. */
  function Int32(n: nat): int
    requires n < TWO32
  {
    if n < TWO31 then n else n - TWO32
  }

  function Zeros(n: nat): (r: seq<byte>)
    ensures |r| == n
    ensures forall i :: 0 <= i < n ==> r[i] == 0
  {
    seq(n, _ => 0)
  }

  // ----- little-endian fields at a byte offset -----

  function U16(b: seq<byte>, at: nat): (r: nat)
    requires at + 2 <= |b|
    ensures r < TWO16
  {
    b[at] as int + 0x100 * (b[at + 1] as int)
  }

  function U32(b: seq<byte>, at: nat): (r: nat)
    requires at + 4 <= |b|
    ensures r < TWO32
  {
    b[at] as int + 0x100 * (b[at + 1] as int) + 0x1_0000 * (b[at + 2] as int) + 0x100_0000 * (b[at + 3] as int)
  }

  function PutU16(b: seq<byte>, at: nat, v: nat): (r: seq<byte>)
    requires at + 2 <= |b| && v < TWO16
    ensures |r| == |b| && U16(r, at) == v
    ensures forall k :: 0 <= k < |b| && !(at <= k < at + 2) ==> r[k] == b[k]
  {
    b[at := v % 0x100][at + 1 := v / 0x100]
  }

  function PutU32(b: seq<byte>, at: nat, v: nat): (r: seq<byte>)
    requires at + 4 <= |b| && v < TWO32
    ensures |r| == |b| && U32(r, at) == v
    ensures forall k :: 0 <= k < |b| && !(at <= k < at + 4) ==> r[k] == b[k]
  {
    var q := v / 0x100;
    var q' := q / 0x100;
    b[at := v % 0x100][at + 1 := q % 0x100][at + 2 := q' % 0x100][at + 3 := q' / 0x100]
  }

  lemma SameU32(b: seq<byte>, b': seq<byte>, at: nat)
    requires at + 4 <= |b| == |b'| && forall k :: at <= k < at + 4 ==> b'[k] == b[k]
    ensures U32(b', at) == U32(b, at)
  {
  }

  lemma SameU16(b: seq<byte>, b': seq<byte>, at: nat)
    requires at + 2 <= |b| == |b'| && forall k :: at <= k < at + 2 ==> b'[k] == b[k]
    ensures U16(b', at) == U16(b, at)
  {
  }

  lemma PutU32Elsewhere(b: seq<byte>, at: nat, v: nat, at': nat)
    requires at + 4 <= |b| && v < TWO32 && at' + 4 <= |b| && (at' + 4 <= at || at + 4 <= at')
    ensures U32(PutU32(b, at, v), at') == U32(b, at')
  {
  }

  /** The block with `src` copied over the bytes from `at` on (memcpy into a buffer). */
  function Patch(b: seq<byte>, at: nat, src: seq<byte>): (r: seq<byte>)
    requires at + |src| <= |b|
    ensures |r| == |b|
    ensures forall k :: 0 <= k < |b| ==> r[k] == if at <= k < at + |src| then src[k - at] else b[k]
  {
    b[..at] + src + b[at + |src|..]
  }

  // ----- single bits -----

  /** (x >> k) & 1 */
  predicate TestBit(x: nat, k: nat) {
    if k == 0 then x % 2 == 1 else TestBit(x / 2, k - 1)
  }

  /** x | (1 << k), or x & ~(1 << k) */
  function WithBit(x: nat, k: nat, on: bool): (r: nat)
    ensures forall j: nat :: TestBit(r, j) == if j == k then on else TestBit(x, j)
  {
    if k == 0 then
      x / 2 * 2 + (if on then 1 else 0)
    else
      var h := WithBit(x / 2, k - 1, on);
      assert (2 * h + x % 2) / 2 == h;
      2 * h + x % 2
  }

  /** Setting or clearing one of the low eight bits keeps a byte a byte. */
  lemma WithBitIsByte(x: byte, k: nat, on: bool)
    requires k < 8
    ensures WithBit(x, k, on) < 256
  {
    WithBitBound(x, k, 8, on);
    assert Pow2(8) == 2 * Pow2(7) == 4 * Pow2(6) == 8 * Pow2(5) == 16 * Pow2(4) == 256;
  }

  function Pow2(w: nat): nat { if w == 0 then 1 else 2 * Pow2(w - 1) }

  lemma {:induction false} WithBitBound(x: nat, k: nat, w: nat, on: bool)
    requires k < w && x < Pow2(w)
    ensures WithBit(x, k, on) < Pow2(w)
  {
    hide TestBit;
    var half := x / 2;
    assert x == 2 * half + x % 2 && Pow2(w) == 2 * Pow2(w - 1);
    if k != 0 {
      WithBitBound(half, k - 1, w - 1, on);
      assert WithBit(x, k, on) == 2 * WithBit(half, k - 1, on) + x % 2;
    }
  }

  /** Bit i of a bitmap: bitmap[i / 8] & (1 << (i % 8)). */
  predicate Bit(b: seq<byte>, i: nat)
    requires i / 8 < |b|
  {
    TestBit(b[i / 8], i % 8)
  }

  /** The lowest bit of a byte comes first. */
  lemma BitOrder(i: nat)
    requires i < 16
    ensures Bit([0x81, 0x04], i) <==> i == 0 || i == 7 || i == 10
  {
    assert forall x: nat :: TestBit(x, 0) == (x % 2 == 1);
    assert i % 8 == 0 || i % 8 == 1 || i % 8 == 2 || i % 8 == 3 || i % 8 == 4 || i % 8 == 5 || i % 8 == 6 || i % 8 == 7;
  }

  function PutBit(b: seq<byte>, i: nat, on: bool): (r: seq<byte>)
    requires i / 8 < |b|
    ensures |r| == |b|
    ensures forall j: nat :: j / 8 < |b| ==> Bit(r, j) == if j == i then on else Bit(b, j)
  {
    WithBitIsByte(b[i / 8], i % 8, on);
    b[i / 8 := WithBit(b[i / 8], i % 8, on)]
  }
}
