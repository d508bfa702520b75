/** PCM format and channel conversion, sound_convert_format in audio/sound.c. */
module Sound {
  import opened Arith
  import opened Bytes

  datatype Format = U8 | S16 | S24 | S32

  datatype Channels = Mono | Stereo

  function Width(f: Format): (r: nat)
    ensures 1 <= r <= 4
  {
    match f case U8 => 1 case S16 => 2 case S24 => 3 case S32 => 4
  }

  function FrameSize(f: Format, c: Channels): (r: nat)
    ensures r > 0
  {
    if c.Stereo? then 2 * Width(f) else Width(f)
  }

  // ----- samples -----

  /** The low n bytes of v, least significant first. */
  function Low(v: int, n: nat): (r: seq<byte>)
    ensures |r| == n
    decreases n
  {
    if n == 0 then [] else [v % 256] + Low(v / 256, n - 1)
  }

  function Value(b: seq<byte>): nat {
    if b == [] then 0 else b[0] + 256 * Value(b[1..])
  }

  /** 2 to the power 8n - 1. */
  function Half(n: nat): (r: int)
    requires n > 0
    ensures r >= 128
  {
    if n == 1 then 128 else 256 * Half(n - 1)
  }

  function Signed(x: nat, n: nat): int
    requires n > 0
  {
    if x < Half(n) then x else x - 2 * Half(n)
  }

  /** A sample as the converter's int32_t. */
  function Decode(f: Format, b: seq<byte>): int
    requires |b| == Width(f)
  {
    if f.U8? then (b[0] - 128) * 256 else Signed(Value(b), Width(f))
  }

  function Encode(f: Format, v: int): (r: seq<byte>)
    ensures |r| == Width(f)
  {
    if f.U8? then [(v / 256 + 128) % 256] else Low(v, Width(f))
  }

  lemma {:induction false} ValueBound(b: seq<byte>)
    requires b != []
    ensures Value(b) < 2 * Half(|b|)
  {
    if |b| > 1 { ValueBound(b[1..]); }
  }

  /** Storing a value that fits and reading it back. */
  lemma {:induction false} StoreLoad(v: int, n: nat)
    requires n > 0 && -Half(n) <= v < Half(n)
    ensures Value(Low(v, n)) == if v >= 0 then v else v + 2 * Half(n)
    ensures Signed(Value(Low(v, n)), n) == v
    decreases n
  {
    if n > 1 {
      StoreLoad(v / 256, n - 1);
      assert Low(v, n)[1..] == Low(v / 256, n - 1);
    } else {
      assert Low(v, 1)[1..] == [];
    }
  }

  lemma {:induction false} LowOfValue(b: seq<byte>)
    ensures Low(Value(b), |b|) == b
  {
    if b != [] {
      LowOfValue(b[1..]);
      assert (b[0] + 256 * Value(b[1..])) / 256 == Value(b[1..]);
    }
  }

  lemma {:induction false} LowWraps(v: int, n: nat)
    requires n > 0
    ensures Low(v - 2 * Half(n), n) == Low(v, n)
    decreases n
  {
    if n > 1 {
      LowWraps(v / 256, n - 1);
      assert (v - 2 * Half(n)) / 256 == v / 256 - 2 * Half(n - 1);
    } else {
      assert Low((v - 256) / 256, 0) == Low(v / 256, 0);
    }
  }

  /** Reading a sample and storing it again in its own format. */
  lemma SameFormat(f: Format, b: seq<byte>)
    requires |b| == Width(f)
    ensures Encode(f, Decode(f, b)) == b
  {
    if !f.U8? {
      LowOfValue(b);
      LowWraps(Value(b), Width(f));
    }
  }

  /** What a format can read fits every format at least as wide. */
  lemma FitsWider(f: Format, g: Format, b: seq<byte>)
    requires |b| == Width(f) && Width(f) <= Width(g) && !g.U8?
    ensures -Half(Width(g)) <= Decode(f, b) < Half(Width(g))
  {
    assert Half(2) == 32768 && Half(3) == 256 * Half(2) && Half(4) == 256 * Half(3);
    if !f.U8? { ValueBound(b); }
  }

  /** Through a format at least as wide and back: the value is kept. */
  lemma Widened(f: Format, g: Format, b: seq<byte>)
    requires |b| == Width(f) && Width(f) <= Width(g)
    ensures Decode(g, Encode(g, Decode(f, b))) == Decode(f, b)
  {
    if g.U8? {
      SameFormat(f, b);
    } else {
      FitsWider(f, g, b);
      StoreLoad(Decode(f, b), Width(g));
    }
  }

  /** Every sample of f survives a trip through g exactly when g is at least as wide. */
  lemma SurvivesExactly(f: Format, g: Format)
    ensures (forall b: seq<byte> :: |b| == Width(f) ==> Encode(f, Decode(g, Encode(g, Decode(f, b)))) == b)
            <==> Width(f) <= Width(g)
  {
    if Width(f) <= Width(g) {
      forall b: seq<byte> | |b| == Width(f)
        ensures Encode(f, Decode(g, Encode(g, Decode(f, b)))) == b
      {
        Widened(f, g, b);
        SameFormat(f, b);
      }
    } else {
      Lost(f, g);
    }
  }

  /** A sample with one bit set that a narrower format does not keep. */
  function Probe(f: Format): (b: seq<byte>)
    ensures |b| == Width(f)
  {
    match f case U8 => [0] case S16 => [1, 0] case S24 => [0, 0, 1] case S32 => [0, 0, 0, 1]
  }

  lemma Lost(f: Format, g: Format)
    requires Width(f) > Width(g)
    ensures var b := Probe(f); |b| == Width(f) && Encode(f, Decode(g, Encode(g, Decode(f, b)))) != b
  {
    var b := Probe(f);
    ProbeValue(f);
    var v := Decode(f, b);
    assert Decode(g, Encode(g, v)) == 0 by { Vanishes(g, v); }
    AllZero(0, Width(f));
    var i := if f.S16? then 0 else |b| - 1;
    assert b[i] == 1 && Low(0, Width(f))[i] == 0;
  }

  lemma ProbeValue(f: Format)
    requires !f.U8?
    ensures Decode(f, Probe(f)) == match f case U8 => 0 case S16 => 1 case S24 => 65536 case S32 => 16777216
  {
    var b := Probe(f);
    assert Half(2) == 32768 && Half(3) == 256 * Half(2) && Half(4) == 256 * Half(3);
    assert Value(b) == match f case U8 => 0 case S16 => 1 case S24 => 65536 case S32 => 16777216 by {
      hide Half;
      ValueCons(0, []);
      ValueCons(1, [0]);
      ValueCons(1, []);
      ValueCons(0, [1]);
      ValueCons(0, [0, 1]);
      ValueCons(0, [0, 0, 1]);
    }
  }

  lemma ValueCons(x: byte, rest: seq<byte>)
    ensures Value([x] + rest) == x + 256 * Value(rest)
  {
    assert ([x] + rest)[1..] == rest;
  }

  lemma Vanishes(g: Format, v: int)
    requires (v == 1 && g.U8?) || (v == 65536 && Width(g) <= 2) || (v == 16777216 && Width(g) <= 3)
    ensures Decode(g, Encode(g, v)) == 0
  {
    if !g.U8? {
      var n := Width(g);
      assert v % 256 == 0 && (v / 256) % 256 == 0 && (n == 3 ==> (v / 256 / 256) % 256 == 0);
      assert Low(v, n) == if n == 2 then [0, 0] else [0, 0, 0];
      assert [0, 0][1..] == [0] && [0, 0, 0][1..] == [0, 0];
      assert Value(Low(v, n)) == 0;
    }
  }

  lemma {:induction false} AllZero(v: int, n: nat)
    requires v == 0
    ensures forall i :: 0 <= i < n ==> Low(v, n)[i] == 0
  {
    if n > 0 { AllZero(v / 256, n - 1); }
  }

  // ----- frames -----

  /** x / 2 in C: towards zero. */
  function Halve(x: int): int {
    if x >= 0 then x / 2 else -((-x) / 2)
  }

  /** A sum in 32-bit two's complement. */
  function Wrap(x: int): int { Int32(x % TWO32) }

  lemma WrapIs(x: int)
    requires -(TWO32 as int) <= x < TWO32
    ensures Wrap(x) == if x >= TWO31 then x - TWO32 else if x < -(TWO31 as int) then x + TWO32 else x
  {
    assert x < 0 ==> x % TWO32 == x + TWO32;
  }

  /** Whether the converter writes anything: between channel counts of one format it knows
      only the one- and two-byte formats. */
  predicate Handled(a: Format, c: Channels, b: Format, c': Channels) {
    a == b && c != c' ==> Width(a) <= 2
  }

  /** One frame of format a and channels c, in format b and channels c'. */
  function FrameOut(a: Format, c: Channels, b: Format, c': Channels, fr: seq<byte>): (r: seq<byte>)
    requires |fr| == FrameSize(a, c)
    ensures |r| == FrameSize(b, c')
  {
    var w := Width(a);
    if a == b && c == c' then fr
    else if a == b && c.Mono? then fr + fr
    else if a == b && a.U8? then [(fr[0] as int + fr[1] as int) / 2]
    else
      var l := Decode(a, fr[..w]);
      var r := if c.Stereo? then Decode(a, fr[w..]) else l;
      if c'.Mono? then Encode(b, if c.Stereo? then Halve(Wrap(l + r)) else l)
      else Encode(b, l) + Encode(b, r)
  }

  /** Frame by frame; a part of a frame at the end is dropped. */
  function Frames(a: Format, c: Channels, b: Format, c': Channels, src: seq<byte>): seq<byte>
    decreases |src|
  {
    var n := FrameSize(a, c);
    if |src| < n then [] else FrameOut(a, c, b, c', src[..n]) + Frames(a, c, b, c', src[n..])
  }

  /** The bytes the converter produces: a plain copy when nothing changes. */
  function Converted(a: Format, c: Channels, b: Format, c': Channels, src: seq<byte>): seq<byte> {
    if a == b && c == c' then src else Frames(a, c, b, c', src)
  }

  /** The returned size: whole frames times the size of a frame. */
  lemma {:induction false} FramesSize(a: Format, c: Channels, b: Format, c': Channels, src: seq<byte>)
    ensures |Frames(a, c, b, c', src)| == Mul(Div(|src|, FrameSize(a, c)), FrameSize(b, c'))
    decreases |src|
  {
    hide FrameOut;
    var n := FrameSize(a, c);
    if |src| >= n { FramesSize(a, c, b, c', src[n..]); }
  }

  /** One frame there and back. */
  lemma FrameBack(a: Format, c: Channels, b: Format, c': Channels, fr: seq<byte>)
    requires Handled(a, c, b, c') && |fr| == FrameSize(a, c) && Width(a) <= Width(b) && (c.Stereo? ==> c'.Stereo?)
    ensures FrameOut(b, c', a, c, FrameOut(a, c, b, c', fr)) == fr
  {
    hide Decode;
    hide Encode;
    hide Wrap;
    var w := Width(a);
    if a == b {
      if c != c' {
        assert (fr + fr)[..w] == fr && (fr + fr)[w..] == fr;
        TwiceFits(a, fr);
        SameFormat(a, fr);
      }
    } else {
      var l := fr[..w];
      TwiceFits(a, l);
      Widened(a, b, l);
      SameFormat(a, l);
      var out := FrameOut(a, c, b, c', fr);
      var v := Width(b);
      if c'.Stereo? {
        assert out[..v] == Encode(b, Decode(a, l));
        if c.Stereo? {
          var r := fr[w..];
          Widened(a, b, r);
          SameFormat(a, r);
          assert out[v..] == Encode(b, Decode(a, r));
        } else {
          assert out[v..] == Encode(b, Decode(a, l));
        }
      } else {
        assert out[..v] == out && l == fr;
      }
    }
  }

  /** Every sample but one of 32 bits can be doubled in 32 bits. */
  lemma TwiceFits(f: Format, b: seq<byte>)
    requires |b| == Width(f) <= 3
    ensures var v := Decode(f, b); -0x80_0000 <= v < 0x80_0000 && Wrap(v + v) == v + v && Halve(v + v) == v
  {
    hide Wrap;
    FitsWider(f, S24, b);
    assert Half(2) == 32768 && Half(3) == 256 * Half(2);
    hide Decode;
    WrapIs(Decode(f, b) + Decode(f, b));
  }

  /** Folding 32-bit stereo into a narrower mono format: the average comes out if and only if the
      sum of the two samples fits 32 bits or is even. */
  lemma FoldExact(b: Format, fr: seq<byte>)
    requires |fr| == FrameSize(S32, Stereo) && (b.S16? || b.S24?)
    ensures var l, r := Decode(S32, fr[..4]), Decode(S32, fr[4..]);
            FrameOut(S32, Stereo, b, Mono, fr) == Encode(b, Halve(l + r)) <==> -(TWO31 as int) <= l + r < TWO31 || (l + r) % 2 == 0
  {
    hide Decode;
    hide Wrap;
    hide Low;
    var l, r := Decode(S32, fr[..4]), Decode(S32, fr[4..]);
    WideRange(fr[..4]);
    WideRange(fr[4..]);
    WrapIs(l + r);
    var x, y := Halve(l + r), Halve(Wrap(l + r));
    LowPeriod(x, Width(b));
    LowPeriod(y, Width(b));
    LowNext(x, Width(b));
    LowNext(x - 1, Width(b));
    assert l + r >= TWO31 ==> y == x - TWO31 + (l + r) % 2;
    assert l + r < -(TWO31 as int) ==> y == x + TWO31 - (l + r) % 2;
    if l + r >= TWO31 { LowPeriod(y + TWO31, Width(b)); }
  }

  lemma WideRange(b: seq<byte>)
    requires |b| == 4
    ensures -(TWO31 as int) <= Decode(S32, b) < TWO31
  {
    FitsWider(S32, S32, b);
    assert Half(2) == 32768 && Half(3) == 256 * Half(2) && Half(4) == 256 * Half(3);
  }

  /** The low two or three bytes do not see a step of 2^31. */
  lemma LowPeriod(v: int, n: nat)
    requires n == 2 || n == 3
    ensures Low(v - TWO31, n) == Low(v, n)
  {
    hide Low;
    assert Half(2) == 32768 && Half(3) == 256 * Half(2);
    var k := if n == 2 then 32768 else 128;
    CountsUnits(0, k, 2 * Half(n));
    LowSteps(v, n, k);
  }

  lemma {:induction false} LowSteps(v: int, n: nat, k: nat)
    requires n > 0
    ensures Low(v - Mul(k, 2 * Half(n)), n) == Low(v, n)
    decreases k
  {
    hide Low;
    hide Half;
    if k > 0 {
      LowSteps(v - 2 * Half(n), n, k - 1);
      LowWraps(v, n);
    }
  }

  lemma LowNext(v: int, n: nat)
    requires n > 0
    ensures Low(v + 1, n) != Low(v, n)
  {
    assert Low(v + 1, n)[0] == (v + 1) % 256 && Low(v, n)[0] == v % 256;
  }

  /** Folding stereo into mono, in a format at least as wide: the sample lies between the two
      channels, halfway up to rounding. */
  lemma FoldsBetween(a: Format, b: Format, fr: seq<byte>)
    requires Handled(a, Stereo, b, Mono) && |fr| == FrameSize(a, Stereo) && Width(a) <= Width(b)
    ensures var l, r := Decode(a, fr[..Width(a)]), Decode(a, fr[Width(a)..]);
            var v := Decode(b, FrameOut(a, Stereo, b, Mono, fr));
            if a == b == U8 then l + r - 256 <= 2 * v <= l + r else l + r - 1 <= 2 * v <= l + r + 1
  {
    hide Decode;
    hide Wrap;
    hide Encode;
    if a == b == U8 {
      FoldsBytes(fr);
    } else {
      var l, r := Decode(a, fr[..Width(a)]), Decode(a, fr[Width(a)..]);
      FitsWider(a, b, fr[..Width(a)]);
      FitsWider(a, b, fr[Width(a)..]);
      TwiceFits(a, fr[..Width(a)]);
      TwiceFits(a, fr[Width(a)..]);
      WrapIs(l + r);
      Kept(b, Halve(l + r));
    }
  }

  lemma FoldsBytes(fr: seq<byte>)
    requires |fr| == 2
    ensures var l, r, v := Decode(U8, fr[..1]), Decode(U8, fr[1..]), Decode(U8, FrameOut(U8, Stereo, U8, Mono, fr));
            l + r - 256 <= 2 * v <= l + r
  {
  }

  lemma Kept(b: Format, v: int)
    requires !b.U8? && -Half(Width(b)) <= v < Half(Width(b))
    ensures Decode(b, Encode(b, v)) == v
  {
    StoreLoad(v, Width(b));
  }

  lemma {:induction false} FramesBack(a: Format, c: Channels, b: Format, c': Channels, src: seq<byte>)
    requires Handled(a, c, b, c') && Width(a) <= Width(b) && (c.Stereo? ==> c'.Stereo?) && Mod(|src|, FrameSize(a, c)) == 0
    ensures Frames(b, c', a, c, Frames(a, c, b, c', src)) == src
    decreases |src|
  {
    hide FrameSize;
    hide FrameOut;
    var n, m := FrameSize(a, c), FrameSize(b, c');
    if |src| >= n {
      var first := FrameOut(a, c, b, c', src[..n]);
      var rest := Frames(a, c, b, c', src[n..]);
      FrameBack(a, c, b, c', src[..n]);
      FramesBack(a, c, b, c', src[n..]);
      assert (first + rest)[..m] == first && (first + rest)[m..] == rest;
      assert src[..n] + src[n..] == src;
    }
  }

  /** Round trip: any whole number of frames, through a format at least as wide and through
      the same or the double number of channels, comes back byte for byte. */
  lemma RoundTrip(a: Format, c: Channels, b: Format, c': Channels, src: seq<byte>)
    requires Handled(a, c, b, c') && Width(a) <= Width(b) && (c.Stereo? ==> c'.Stereo?) && Mod(|src|, FrameSize(a, c)) == 0
    ensures Converted(b, c', a, c, Converted(a, c, b, c', src)) == src
  {
    FramesBack(a, c, b, c', src);
  }

  // ----- which sample goes where -----

  function Count(c: Channels): (r: nat)
    ensures forall f: Format :: FrameSize(f, c) == r * Width(f)
  {
    if c.Stereo? then 2 else 1
  }

  /** The bytes of frame i. */
  function Frame(f: Format, c: Channels, buf: seq<byte>, i: nat): (r: seq<byte>)
    requires Mul(i, FrameSize(f, c)) + FrameSize(f, c) <= |buf|
    ensures |r| == FrameSize(f, c)
  {
    var at := Mul(i, FrameSize(f, c));
    buf[at..at + FrameSize(f, c)]
  }

  /** The bytes of sample k of a frame. */
  function Sample(f: Format, c: Channels, fr: seq<byte>, k: nat): (r: seq<byte>)
    requires |fr| == FrameSize(f, c) && k < Count(c)
    ensures |r| == Width(f)
  {
    if k == 0 then fr[..Width(f)] else fr[Width(f)..]
  }

  /** The source sample behind sample k: the left one for the left, the right one for the right,
      and the only one for both. */
  function Behind(c: Channels, k: nat): nat { if c.Stereo? then k else 0 }

  /** Without folding, sample k of the frame is the one behind it in the other format. */
  lemma FrameSample(a: Format, c: Channels, b: Format, c': Channels, fr: seq<byte>, k: nat)
    requires |fr| == FrameSize(a, c) && (c.Stereo? ==> c'.Stereo?) && k < Count(c')
    ensures Sample(b, c', FrameOut(a, c, b, c', fr), k) == Encode(b, Decode(a, Sample(a, c, fr, Behind(c, k))))
  {
    hide Decode;
    hide Encode;
    hide Wrap;
    SameFormat(a, Sample(a, c, fr, Behind(c, k)));
    if a == b {
      if c == c' {
      } else {
        assert (fr + fr)[..Width(a)] == fr && (fr + fr)[Width(a)..] == fr;
      }
    } else if c'.Stereo? {
      var l, r := fr[..Width(a)], if c.Stereo? then fr[Width(a)..] else fr[..Width(a)];
      var x, y := Encode(b, Decode(a, l)), Encode(b, Decode(a, r));
      assert (x + y)[..Width(b)] == x && (x + y)[Width(b)..] == y;
    }
  }

  /** Sample by sample: each one of the result is the source's one behind it in the other format. */
  ghost predicate Carried(a: Format, c: Channels, b: Format, c': Channels, src: seq<byte>, out: seq<byte>) {
    forall i: nat, k: nat :: i < Div(|src|, FrameSize(a, c)) && k < Count(c') ==> CarriedAt(a, c, b, c', src, out, i, k)
  }

  ghost predicate CarriedAt(a: Format, c: Channels, b: Format, c': Channels, src: seq<byte>, out: seq<byte>, i: nat, k: nat)
    requires k < Count(c')
  {
    && Mul(i, FrameSize(b, c')) + FrameSize(b, c') <= |out|
    && Mul(i, FrameSize(a, c)) + FrameSize(a, c) <= |src|
    && Sample(b, c', Frame(b, c', out, i), k) == Encode(b, Decode(a, Sample(a, c, Frame(a, c, src, i), Behind(c, k))))
  }

  /** Frame i of the result is frame i of the source, converted. */
  lemma {:induction false} FrameAt(a: Format, c: Channels, b: Format, c': Channels, src: seq<byte>, i: nat)
    requires i < Div(|src|, FrameSize(a, c))
    ensures var out := Frames(a, c, b, c', src);
            && Mul(i, FrameSize(a, c)) + FrameSize(a, c) <= |src| && Mul(i, FrameSize(b, c')) + FrameSize(b, c') <= |out|
            && Frame(b, c', out, i) == FrameOut(a, c, b, c', Frame(a, c, src, i))
    decreases i
  {
    hide FrameOut;
    hide FrameSize;
    hide Frames;
    hide Frame;
    hide Mul;
    hide Div;
    var n := FrameSize(a, c);
    OneLess(|src|, n, i);
    var x, y := src[..n], src[n..];
    assert src[0..] == src == x + y;
    FramesStep(a, c, b, c', src, 0);
    var first, rest := FrameOut(a, c, b, c', x), Frames(a, c, b, c', y);
    FirstFrame(a, c, x, y);
    FirstFrame(b, c', first, rest);
    if i > 0 {
      FrameAt(a, c, b, c', y, i - 1);
      LaterFrame(a, c, x, y, i);
      LaterFrame(b, c', first, rest, i);
    }
  }

  lemma OneLess(size: nat, n: nat, i: nat)
    requires n > 0 && i < Div(size, n)
    ensures size >= n && (i > 0 ==> i - 1 < Div(size - n, n))
  {
  }

  lemma FirstFrame(f: Format, c: Channels, x: seq<byte>, y: seq<byte>)
    requires |x| == FrameSize(f, c)
    ensures Mul(0, FrameSize(f, c)) == 0 && Frame(f, c, x + y, 0) == x
  {
  }

  lemma LaterFrame(f: Format, c: Channels, x: seq<byte>, y: seq<byte>, i: nat)
    requires i > 0 && |x| == FrameSize(f, c) && Mul(i - 1, FrameSize(f, c)) + FrameSize(f, c) <= |y|
    ensures Mul(i, FrameSize(f, c)) + FrameSize(f, c) <= |x + y| && Frame(f, c, x + y, i) == Frame(f, c, y, i - 1)
  {
  }

  /** Every conversion that does not fold keeps the samples in their frames and channels. */
  lemma ChannelsKept(a: Format, c: Channels, b: Format, c': Channels, src: seq<byte>)
    requires c.Stereo? ==> c'.Stereo?
    ensures Carried(a, c, b, c', src, Frames(a, c, b, c', src)) && Carried(a, c, b, c', src, Converted(a, c, b, c', src))
  {
    hide FrameOut;
    hide FrameSize;
    hide Encode;
    hide Decode;
    hide Mul;
    hide Div;
    forall i: nat, k: nat | i < Div(|src|, FrameSize(a, c)) && k < Count(c')
      ensures CarriedAt(a, c, b, c', src, Frames(a, c, b, c', src), i, k)
      ensures CarriedAt(a, c, b, c', src, Converted(a, c, b, c', src), i, k)
    {
      KeptAt(a, c, b, c', src, i, k);
    }
  }

  lemma KeptAt(a: Format, c: Channels, b: Format, c': Channels, src: seq<byte>, i: nat, k: nat)
    requires (c.Stereo? ==> c'.Stereo?) && i < Div(|src|, FrameSize(a, c)) && k < Count(c')
    ensures CarriedAt(a, c, b, c', src, Frames(a, c, b, c', src), i, k)
    ensures CarriedAt(a, c, b, c', src, Converted(a, c, b, c', src), i, k)
  {
    hide FrameOut;
    hide Frames;
    hide Encode;
    hide Decode;
    hide Mul;
    hide Div;
    hide Frame;
    hide Sample;
    FrameAt(a, c, b, c', src, i);
    FrameSample(a, c, b, c', Frame(a, c, src, i), k);
    SameFormat(a, Sample(a, c, Frame(a, c, src, i), Behind(c, k)));
  }

  /** In a format at least as wide, what a sample of the result decodes to is what the source's
      sample behind it decodes to. */
  lemma SamplesKept(a: Format, c: Channels, b: Format, c': Channels, src: seq<byte>, out: seq<byte>, i: nat, k: nat)
    requires Carried(a, c, b, c', src, out) && Width(a) <= Width(b) && i < Div(|src|, FrameSize(a, c)) && k < Count(c')
    ensures CarriedAt(a, c, b, c', src, out, i, k)
    ensures Decode(b, Sample(b, c', Frame(b, c', out, i), k)) == Decode(a, Sample(a, c, Frame(a, c, src, i), Behind(c, k)))
  {
    hide Encode;
    hide Decode;
    hide Sample;
    assert CarriedAt(a, c, b, c', src, out, i, k);
    Widened(a, b, Sample(a, c, Frame(a, c, src, i), Behind(c, k)));
  }

  /** Lowest left, highest right, from bytes to 16 bits. */
  lemma LeftRight()
    ensures Converted(U8, Stereo, S16, Stereo, [0, 255]) == [0x00, 0x80, 0x00, 0x7F]
  {
    var src: seq<byte> := [0, 255];
    assert src[..2] == src && src[2..] == [] && src[..1] == [0] && src[1..] == [255];
    assert Low(-32768, 2) == [0x00, 0x80] && Low(32512, 2) == [0x00, 0x7F];
  }

  /** sound_convert_format on a destination buffer large enough for the result. The size comes
      back even where nothing is written: between channel counts of S24 or of S32. */
  method Convert(src: seq<byte>, dst: array<byte>, a: Format, c: Channels, b: Format, c': Channels) returns (size: nat)
    requires dst.Length >= |Converted(a, c, b, c', src)|
    modifies dst
    ensures size == |Converted(a, c, b, c', src)|
    ensures !(a == b && c == c') ==> size == Mul(Div(|src|, FrameSize(a, c)), FrameSize(b, c'))
    ensures var silent := a == b && c != c' && (a == S24 || a == S32);
            && (silent ==> dst[..] == old(dst[..]))
            && (!silent ==> dst[..size] == Converted(a, c, b, c', src) && dst[size..] == old(dst[size..]))
            && (!silent && (c.Stereo? ==> c'.Stereo?) ==> Carried(a, c, b, c', src, dst[..size]))
  {
    hide FrameOut;
    hide Frames;
    hide Mul;
    hide Div;
    hide Carried;
    FramesSize(a, c, b, c', src);
    FramesNil(a, c, b, c');
    if c.Stereo? ==> c'.Stereo? { ChannelsKept(a, c, b, c', src); }
    if |src| == 0 { return 0; }
    if a == b && c == c' {
      CopyTo(dst, 0, src);
      return |src|;
    }
    size := Mul(Div(|src|, FrameSize(a, c)), FrameSize(b, c'));
    if Handled(a, c, b, c') { ConvertFrames(src, dst, a, c, b, c'); }
  }

  lemma FramesNil(a: Format, c: Channels, b: Format, c': Channels)
    ensures Frames(a, c, b, c', []) == []
  {
  }

  lemma FramesStep(a: Format, c: Channels, b: Format, c': Channels, src: seq<byte>, sp: nat)
    requires sp <= |src|
    ensures var n := FrameSize(a, c);
            if |src| - sp < n then Frames(a, c, b, c', src[sp..]) == []
            else Frames(a, c, b, c', src[sp..]) == FrameOut(a, c, b, c', src[sp..sp + n]) + Frames(a, c, b, c', src[sp + n..])
  {
    hide FrameOut;
    var n := FrameSize(a, c);
    if |src| - sp >= n { assert src[sp..][..n] == src[sp..sp + n] && src[sp..][n..] == src[sp + n..]; }
  }

  /** The loop over frames. */
  method ConvertFrames(src: seq<byte>, dst: array<byte>, a: Format, c: Channels, b: Format, c': Channels)
    requires dst.Length >= |Frames(a, c, b, c', src)|
    modifies dst
    ensures var size := |Frames(a, c, b, c', src)|; dst[..size] == Frames(a, c, b, c', src) && dst[size..] == old(dst[size..])
  {
    hide FrameOut;
    hide Frames;
    hide FrameSize;
    var n, m := FrameSize(a, c), FrameSize(b, c');
    ghost var whole := Frames(a, c, b, c', src);
    var sp, dp: nat := 0, 0;
    assert src[0..] == src;
    FramesStep(a, c, b, c', src, sp);
    while |src| - sp >= n
      invariant sp <= |src| && dp <= |whole| <= dst.Length && dst[..dp] == whole[..dp] && whole[dp..] == Frames(a, c, b, c', src[sp..])
      invariant dst[|whole|..] == old(dst[|whole|..])
      decreases |src| - sp
    {
      FramesStep(a, c, b, c', src, sp);
      var out := FrameOut(a, c, b, c', src[sp..sp + n]);
      Placed(whole, dp, out, Frames(a, c, b, c', src[sp + n..]));
      CopyTo(dst, dp, out);
      assert dst[..dp + m] == dst[..dp] + dst[dp..dp + m];
      assert dst[|whole|..] == dst[dp + m..][|whole| - (dp + m)..];
      sp, dp := sp + n, dp + m;
    }
    FramesStep(a, c, b, c', src, sp);
  }

  lemma Placed(whole: seq<byte>, dp: nat, out: seq<byte>, rest: seq<byte>)
    requires dp <= |whole| && whole[dp..] == out + rest
    ensures dp + |out| <= |whole| && whole[..dp + |out|] == whole[..dp] + out && whole[dp + |out|..] == rest
  {
    assert whole[dp..][..|out|] == out && whole[dp..][|out|..] == rest;
  }

  /** Stores `s` at index `at`. */
  method CopyTo(dst: array<byte>, at: nat, s: seq<byte>)
    requires at + |s| <= dst.Length
    modifies dst
    ensures dst[..at] == old(dst[..at]) && dst[at..at + |s|] == s && dst[at + |s|..] == old(dst[at + |s|..])
  {
    var k := 0;
    while k < |s|
      invariant k <= |s| && forall j :: 0 <= j < dst.Length ==> dst[j] == if at <= j < at + k then s[j - at] else old(dst[j])
    {
      dst[at + k] := s[k];
      k := k + 1;
    }
  }
}
