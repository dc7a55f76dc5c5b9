/**
 * A model of the integer-valued algorithms of the page script script.js:
 * the alpha-filtered pixel sampler, the k-means clusterer that turns the
 * samples into a palette, the hex encoding and colour mix that produce the
 * five theme variables, the counter animation and the carousel step.
 * The browser (canvas, DOM, timers) stays outside: the model takes the
 * pixel buffer, the luminance function and the counter target as inputs.
 */
module Script {

  datatype Option<T> = None | Some(value: T)

  function Min(a: int, b: int): int { if a <= b then a else b }
  function Max(a: int, b: int): int { if a <= b then b else a }

  // ---------------------------------------------------------------------
  // Colours and rounding

  /** A colour as the script holds it: an `[r, g, b]` array of integers. */
  datatype Rgb = Rgb(r: int, g: int, b: int)

  predicate InRange(c: Rgb) {
    0 <= c.r <= 255 && 0 <= c.g <= 255 && 0 <= c.b <= 255
  }

  predicate AllInRange(cs: seq<Rgb>) {
    forall i :: 0 <= i < |cs| ==> InRange(cs[i])
  }

  /** Every entry of a canvas pixel buffer is a byte. */
  predicate AllBytes(data: seq<int>) {
    forall i :: 0 <= i < |data| ==> 0 <= data[i] <= 255
  }

  /**
   * `Math.round(n / d)` for d > 0: the integer nearest to n / d, a half
   * rounding up (towards +infinity, as Math.round does for negatives too).
   */
  function RoundDiv(n: int, d: int): (q: int)
    requires d > 0
    ensures d * (2 * q - 1) <= 2 * n < d * (2 * q + 1)
  {
    var q := (2 * n + d) / (2 * d);
    assert 2 * n + d == (2 * d) * q + (2 * n + d) % (2 * d);
    q
  }

  lemma MulMono(d: int, x: int, y: int)
    requires d >= 0 && x <= y
    ensures d * x <= d * y
  {
    assert d * y - d * x == d * (y - x);
  }

  /** Rounding a multiple of d divided by d is exact. */
  lemma RoundDivExact(v: int, d: int)
    requires d > 0
    ensures RoundDiv(d * v, d) == v
  {
    var q := RoundDiv(d * v, d);
    assert d * (2 * v + 1) == 2 * (d * v) + d;
    assert d * (2 * v - 1) == 2 * (d * v) - d;
    if q > v {
      MulMono(d, 2 * v + 1, 2 * q - 1);
    } else if q < v {
      MulMono(d, 2 * q + 1, 2 * v - 1);
    }
  }

  lemma RoundDivMonotone(a: int, b: int, d: int)
    requires d > 0 && a <= b
    ensures RoundDiv(a, d) <= RoundDiv(b, d)
  {
    var qa, qb := RoundDiv(a, d), RoundDiv(b, d);
    if qa > qb {
      MulMono(d, 2 * qb + 1, 2 * qa - 1);
    }
  }

  /** A rounded mean of values in [lo, hi] lies in [lo, hi]. */
  lemma RoundDivRange(n: int, d: int, lo: int, hi: int)
    requires d > 0 && d * lo <= n <= d * hi
    ensures lo <= RoundDiv(n, d) <= hi
  {
    RoundDivMonotone(d * lo, n, d);
    RoundDivMonotone(n, d * hi, d);
    RoundDivExact(lo, d);
    RoundDivExact(hi, d);
  }

  // ---------------------------------------------------------------------
  // mix (script.js:18-19), with the ratio as an exact fraction num / den

  lemma WeightedBounds(v: int, w: int, num: int, den: int)
    requires 0 <= num <= den
    ensures den * Min(v, w) <= v * (den - num) + w * num <= den * Max(v, w)
  {
    var lo, hi := Min(v, w), Max(v, w);
    MulMono(den - num, lo, v);
    MulMono(den - num, v, hi);
    MulMono(num, lo, w);
    MulMono(num, w, hi);
    assert (den - num) * lo + num * lo == den * lo;
    assert (den - num) * hi + num * hi == den * hi;
  }

  /** One channel of `mix`: `Math.round(v * (1 - ratio) + w * ratio)`. */
  function MixChannel(v: int, w: int, num: int, den: int): (m: int)
    requires den > 0
    ensures 0 <= num <= den ==> Min(v, w) <= m <= Max(v, w)
  {
    var weighted := v * (den - num) + w * num;
    if 0 <= num <= den then
      WeightedBounds(v, w, num, den);
      RoundDivRange(weighted, den, Min(v, w), Max(v, w));
      RoundDiv(weighted, den)
    else
      RoundDiv(weighted, den)
  }

  /** Each channel of m lies between the channels of a and b. */
  predicate Between(m: Rgb, a: Rgb, b: Rgb) {
    && Min(a.r, b.r) <= m.r <= Max(a.r, b.r)
    && Min(a.g, b.g) <= m.g <= Max(a.g, b.g)
    && Min(a.b, b.b) <= m.b <= Max(a.b, b.b)
  }

  /** `mix(c1, c2, num / den)`: interpolate from c1 (ratio 0) to c2 (ratio 1). */
  function Mix(c1: Rgb, c2: Rgb, num: int, den: int): (m: Rgb)
    requires den > 0
    ensures 0 <= num <= den ==> Between(m, c1, c2)
    ensures 0 <= num <= den && InRange(c1) && InRange(c2) ==> InRange(m)
  {
    Rgb(MixChannel(c1.r, c2.r, num, den), MixChannel(c1.g, c2.g, num, den), MixChannel(c1.b, c2.b, num, den))
  }

  /** Ratio 0 gives the first colour back, ratio 1 the second. */
  lemma MixEndpoints(a: Rgb, b: Rgb, den: int)
    requires den > 0
    ensures Mix(a, b, 0, den) == a
    ensures Mix(a, b, den, den) == b
  {
    RoundDivExact(a.r, den); RoundDivExact(a.g, den); RoundDivExact(a.b, den);
    RoundDivExact(b.r, den); RoundDivExact(b.g, den); RoundDivExact(b.b, den);
    assert a.r * (den - 0) + b.r * 0 == den * a.r;
    assert a.g * (den - 0) + b.g * 0 == den * a.g;
    assert a.b * (den - 0) + b.b * 0 == den * a.b;
    assert a.r * (den - den) + b.r * den == den * b.r;
    assert a.g * (den - den) + b.g * den == den * b.g;
    assert a.b * (den - den) + b.b * den == den * b.b;
  }

  /** Mixing a towards b by num / den is mixing b towards a by the complement; at 1/2 the mix is symmetric. */
  lemma MixSymmetric(a: Rgb, b: Rgb, num: int, den: int)
    requires den > 0
    ensures Mix(a, b, num, den) == Mix(b, a, den - num, den)
    ensures Mix(a, b, 1, 2) == Mix(b, a, 1, 2)
  {
  }

  // ---------------------------------------------------------------------
  // rgbToHex (script.js:21-22) and its decoder

  predicate IsHexDigit(ch: char) {
    '0' <= ch <= '9' || 'a' <= ch <= 'f'
  }

  /** The lower-case digit that `toString(16)` writes for d. */
  function HexDigit(d: int): (ch: char)
    requires 0 <= d < 16
    ensures IsHexDigit(ch)
  {
    if d < 10 then ('0' as int + d) as char else ('a' as int + d - 10) as char
  }

  function DigitValue(ch: char): (d: int)
    requires IsHexDigit(ch)
    ensures 0 <= d < 16
  {
    if ch <= '9' then ch as int - '0' as int else ch as int - 'a' as int + 10
  }

  /** The base-16 numeral of n, most significant digit first, no leading zeros. */
  function Radix16(n: nat): (s: string)
    ensures |s| >= 1
  {
    if n < 16 then [HexDigit(n)] else Radix16(n / 16) + [HexDigit(n % 16)]
  }

  /** `Number.prototype.toString(16)` on an integer. */
  function ToString16(v: int): string {
    if v < 0 then "-" + Radix16(-v) else Radix16(v)
  }

  /** `String.prototype.padStart(2, "0")`. */
  function PadStart2(s: string): string {
    if |s| >= 2 then s else seq(2 - |s|, _ => '0') + s
  }

  /** `c.toString(16).padStart(2, "0")`. */
  function ChannelHex(v: int): string {
    PadStart2(ToString16(v))
  }

  /** `rgbToHex([r, g, b])`: `#` and at least two characters per channel, whatever the channels. */
  function RgbToHex(c: Rgb): (s: string)
    ensures |s| >= 7 && s[0] == '#'
  {
    "#" + ChannelHex(c.r) + ChannelHex(c.g) + ChannelHex(c.b)
  }

  /** A CSS colour of the form `#rrggbb` in lower-case hex. */
  predicate IsHexColor(s: string) {
    |s| == 7 && s[0] == '#' && forall i :: 1 <= i < 7 ==> IsHexDigit(s[i])
  }

  function PairValue(hi: char, lo: char): (v: int)
    requires IsHexDigit(hi) && IsHexDigit(lo)
    ensures 0 <= v <= 255
  {
    16 * DigitValue(hi) + DigitValue(lo)
  }

  /** Reads a `#rrggbb` colour back; the partner of RgbToHex. */
  function ParseHexColor(s: string): (c: Option<Rgb>)
    ensures c.Some? <==> IsHexColor(s)
    ensures c.Some? ==> InRange(c.value)
  {
    if IsHexColor(s) then
      Some(Rgb(PairValue(s[1], s[2]), PairValue(s[3], s[4]), PairValue(s[5], s[6])))
    else
      None
  }

  /** A channel in [0, 255] becomes exactly two digits, zero-padded, high nibble first. */
  lemma ChannelHexDigits(v: int)
    requires 0 <= v <= 255
    ensures ChannelHex(v) == [HexDigit(v / 16), HexDigit(v % 16)]
  {
    if v < 16 {
      assert Radix16(v) == [HexDigit(v)];
      assert seq(1, _ => '0') == ['0'];
    } else {
      assert Radix16(v / 16) == [HexDigit(v / 16)];
    }
  }

  lemma PairRoundTrip(v: int)
    requires 0 <= v <= 255
    ensures PairValue(HexDigit(v / 16), HexDigit(v % 16)) == v
  {
  }

  /** An in-range colour encodes as `#` and six lowercase hex digits, two per channel. */
  lemma RgbToHexWellFormed(c: Rgb)
    requires InRange(c)
    ensures RgbToHex(c) == ['#', HexDigit(c.r / 16), HexDigit(c.r % 16), HexDigit(c.g / 16), HexDigit(c.g % 16),
                            HexDigit(c.b / 16), HexDigit(c.b % 16)]
    ensures IsHexColor(RgbToHex(c))
  {
    ChannelHexDigits(c.r); ChannelHexDigits(c.g); ChannelHexDigits(c.b);
    var s := RgbToHex(c);
    assert s == "#" + ChannelHex(c.r) + ChannelHex(c.g) + ChannelHex(c.b);
    assert s == ['#', HexDigit(c.r / 16), HexDigit(c.r % 16), HexDigit(c.g / 16), HexDigit(c.g % 16),
                 HexDigit(c.b / 16), HexDigit(c.b % 16)];
  }

  /**
   * rgbToHex of an in-range colour is `#` and six lower-case hex digits and
   * decodes to the same colour; no out-of-range colour decodes to itself.
   */
  lemma RgbToHexRoundTrip(c: Rgb)
    ensures InRange(c) ==> IsHexColor(RgbToHex(c))
    ensures ParseHexColor(RgbToHex(c)) == Some(c) <==> InRange(c)
  {
    if InRange(c) {
      RgbToHexWellFormed(c);
      PairRoundTrip(c.r); PairRoundTrip(c.g); PairRoundTrip(c.b);
    }
  }

  lemma PairDigits(hi: char, lo: char)
    requires IsHexDigit(hi) && IsHexDigit(lo)
    ensures HexDigit(PairValue(hi, lo) / 16) == hi && HexDigit(PairValue(hi, lo) % 16) == lo
  {
    var v := PairValue(hi, lo);
    assert v / 16 == DigitValue(hi) && v % 16 == DigitValue(lo);
  }

  /** Every `#rrggbb` string is the encoding of the colour it decodes to. */
  lemma ParseHexColorRoundTrip(s: string)
    requires IsHexColor(s)
    ensures RgbToHex(ParseHexColor(s).value) == s
  {
    var c := ParseHexColor(s).value;
    ChannelHexDigits(c.r); ChannelHexDigits(c.g); ChannelHexDigits(c.b);
    PairDigits(s[1], s[2]); PairDigits(s[3], s[4]); PairDigits(s[5], s[6]);
    assert RgbToHex(c) == ['#', HexDigit(c.r / 16), HexDigit(c.r % 16), HexDigit(c.g / 16), HexDigit(c.g % 16),
                           HexDigit(c.b / 16), HexDigit(c.b % 16)];
  }

  // ---------------------------------------------------------------------
  // The pixel sampler (script.js:69-74)

  const ALPHA_THRESHOLD := 200
  /** 4 bytes per pixel, every 4th pixel. */
  const SAMPLE_STRIDE := 16

  lemma StrideInBounds(n: int, i: int)
    requires n % 4 == 0 && i % SAMPLE_STRIDE == 0 && 0 <= i < n
    ensures i + 3 < n
  {
  }

  /** Byte offset i is a sampled pixel that the alpha filter keeps. */
  predicate Kept(data: seq<int>, i: int) {
    0 <= i && i % SAMPLE_STRIDE == 0 && i + 3 < |data| && data[i + 3] >= ALPHA_THRESHOLD
  }

  function PixelAt(data: seq<int>, i: int): Rgb
    requires 0 <= i && i + 2 < |data|
  {
    Rgb(data[i], data[i + 1], data[i + 2])
  }

  /** The offsets, from i on, of the pixels the sampler keeps. */
  function OffsetsFrom(data: seq<int>, i: nat): (offs: seq<nat>)
    requires |data| % 4 == 0 && i % SAMPLE_STRIDE == 0
    ensures forall j :: 0 <= j < |offs| ==> i <= offs[j] && Kept(data, offs[j])
    ensures forall j, j' :: 0 <= j < j' < |offs| ==> offs[j] < offs[j']
    ensures forall o :: i <= o && Kept(data, o) ==> o in offs
    decreases |data| - i
  {
    if i >= |data| then []
    else
      StrideInBounds(|data|, i);
      (if data[i + 3] < ALPHA_THRESHOLD then [] else [i]) + OffsetsFrom(data, i + SAMPLE_STRIDE)
  }

  /** The samples the loop collects from offset i on. */
  function SampleFrom(data: seq<int>, i: nat): seq<Rgb>
    requires |data| % 4 == 0 && i % SAMPLE_STRIDE == 0
    decreases |data| - i
  {
    if i >= |data| then []
    else
      StrideInBounds(|data|, i);
      (if data[i + 3] < ALPHA_THRESHOLD then [] else [PixelAt(data, i)]) + SampleFrom(data, i + SAMPLE_STRIDE)
  }

  /** `pixels` once the loop is done: at most one colour per 16 bytes, in range for a byte buffer. */
  function Samples(data: seq<int>): (samples: seq<Rgb>)
    requires |data| % 4 == 0
    ensures |samples| <= (|data| + 15) / 16
    ensures AllBytes(data) ==> AllInRange(samples)
  {
    SamplesLength(data, 0);
    if AllBytes(data) then
      SamplesInRange(data, 0);
      SampleFrom(data, 0)
    else
      SampleFrom(data, 0)
  }

  /** The sampling loop: `pixels` after `for (i = 0; i < data.length; i += 16)`. */
  method SamplePixels(data: seq<int>) returns (pixels: seq<Rgb>)
    requires |data| % 4 == 0
    ensures pixels == Samples(data)
  {
    ghost var all := SampleFrom(data, 0);
    pixels := [];
    var i := 0;
    while i < |data|
      invariant i % SAMPLE_STRIDE == 0
      invariant pixels + SampleFrom(data, i) == all
      decreases |data| - i
    {
      StrideInBounds(|data|, i);
      var alpha := data[i + 3];
      ghost var rest := SampleFrom(data, i + SAMPLE_STRIDE);
      // the script skips the pixel (`continue`) when alpha < 200
      if alpha >= ALPHA_THRESHOLD {
        var p := Rgb(data[i], data[i + 1], data[i + 2]);
        assert SampleFrom(data, i) == [p] + rest;
        assert (pixels + [p]) + rest == pixels + ([p] + rest);
        pixels := pixels + [p];
      } else {
        assert SampleFrom(data, i) == [] + rest;
        assert [] + rest == rest;
      }
      assert pixels + rest == all;
      i := i + SAMPLE_STRIDE;
    }
    assert pixels == all;
  }

  /**
   * The samples are exactly the pixels at the kept offsets (multiples of 16
   * whose alpha byte is at least 200), in increasing offset order.
   */
  lemma {:induction false} SamplesAtOffsets(data: seq<int>, i: nat)
    requires |data| % 4 == 0 && i % SAMPLE_STRIDE == 0
    ensures |SampleFrom(data, i)| == |OffsetsFrom(data, i)|
    ensures forall j :: 0 <= j < |OffsetsFrom(data, i)| ==>
              OffsetsFrom(data, i)[j] + 2 < |data| && SampleFrom(data, i)[j] == PixelAt(data, OffsetsFrom(data, i)[j])
    decreases |data| - i
  {
    if i < |data| {
      SamplesAtOffsets(data, i + SAMPLE_STRIDE);
    }
  }

  /** At most one sample per 16 bytes: |samples| <= ceil(|data| / 16). */
  lemma {:induction false} SamplesLength(data: seq<int>, i: nat)
    requires |data| % 4 == 0 && i % SAMPLE_STRIDE == 0 && i <= |data| + 15
    ensures |SampleFrom(data, i)| <= (|data| - i + 15) / 16
    decreases |data| - i
  {
    if i < |data| {
      SamplesLength(data, i + SAMPLE_STRIDE);
    }
  }

  /** Samples of a byte buffer are in-range colours. */
  lemma {:induction false} SamplesInRange(data: seq<int>, i: nat)
    requires |data| % 4 == 0 && i % SAMPLE_STRIDE == 0 && AllBytes(data)
    ensures AllInRange(SampleFrom(data, i))
    decreases |data| - i
  {
    if i < |data| {
      SamplesInRange(data, i + SAMPLE_STRIDE);
    }
  }

  // ---------------------------------------------------------------------
  // kMeans (script.js:24-50)

  /** The number of refinement rounds; there is no convergence test. */
  const ROUNDS := 6

  /** The squared RGB distance of the assignment scan: never negative, zero only from a colour to itself. */
  function SqDist(p: Rgb, c: Rgb): (d: int)
    ensures d >= 0
  {
    (p.r - c.r) * (p.r - c.r) + (p.g - c.g) * (p.g - c.g) + (p.b - c.b) * (p.b - c.b)
  }

  /** The distance is zero exactly from a colour to itself. */
  lemma SqDistZero(p: Rgb, c: Rgb)
    ensures SqDist(p, c) == 0 <==> p == c
  {
    var dr, dg, db := p.r - c.r, p.g - c.g, p.b - c.b;
    assert dr * dr >= 0 && dg * dg >= 0 && db * db >= 0;
    if SqDist(p, c) == 0 {
      assert dr * dr == 0 && dg * dg == 0 && db * db == 0;
    }
  }

  /**
   * The index `best` the assignment scan picks among cs[..n]: it starts at 0
   * and moves only on a strictly smaller distance, so it is a nearest
   * centroid and the lowest-indexed one among equally near centroids.
   */
  function NearestIn(p: Rgb, cs: seq<Rgb>, n: nat): (best: nat)
    requires n <= |cs|
    ensures n == 0 ==> best == 0
    ensures n > 0 ==> best < n
    ensures n > 0 ==> forall j :: 0 <= j < n ==> SqDist(p, cs[best]) <= SqDist(p, cs[j])
    ensures n > 0 ==> forall j :: 0 <= j < best ==> SqDist(p, cs[best]) < SqDist(p, cs[j])
  {
    if n == 0 then 0
    else
      var prev := NearestIn(p, cs, n - 1);
      if n - 1 == 0 || SqDist(p, cs[n - 1]) < SqDist(p, cs[prev]) then n - 1 else prev
  }

  /** The cluster a pixel joins: an index of cs, or 0 when there are no centroids. */
  function Nearest(p: Rgb, cs: seq<Rgb>): (best: nat)
    ensures cs == [] ==> best == 0
    ensures cs != [] ==> best < |cs|
  {
    NearestIn(p, cs, |cs|)
  }

  /** The scan over `centroids` for one pixel (script.js:29-37). */
  method NearestCentroid(p: Rgb, centroids: seq<Rgb>) returns (best: nat)
    ensures best == Nearest(p, centroids)
  {
    best := 0;
    var bestDist: Option<int> := None;  // None stands for the initial Infinity
    var i := 0;
    while i < |centroids|
      invariant 0 <= i <= |centroids|
      invariant best == NearestIn(p, centroids, i)
      invariant bestDist == if i == 0 then None else Some(SqDist(p, centroids[best]))
    {
      var dist := SqDist(p, centroids[i]);
      if bestDist.None? || dist < bestDist.value {
        bestDist := Some(dist);
        best := i;
      }
      i := i + 1;
    }
  }

  /** The pixels of ps that the assignment pushes onto cluster i, in scan order. */
  function Members(ps: seq<Rgb>, cs: seq<Rgb>, i: nat): (m: seq<Rgb>)
    ensures |m| <= |ps|
  {
    if ps == [] then []
    else
      var last := ps[|ps| - 1];
      Members(ps[..|ps| - 1], cs, i) + (if Nearest(last, cs) == i then [last] else [])
  }

  /** The `clusters` array of one round: k lists. */
  function Clusters(ps: seq<Rgb>, cs: seq<Rgb>, k: nat): (clusters: seq<seq<Rgb>>)
    ensures |clusters| == k
  {
    seq(k, (i: int) requires 0 <= i < k => Members(ps, cs, i))
  }

  lemma MembersSnoc(ps: seq<Rgb>, p: Rgb, cs: seq<Rgb>, i: nat)
    ensures Members(ps + [p], cs, i) == Members(ps, cs, i) + (if Nearest(p, cs) == i then [p] else [])
  {
    var qs := ps + [p];
    assert qs[..|qs| - 1] == ps && qs[|qs| - 1] == p;
  }

  /** Assigning one more pixel pushes it onto the cluster of its nearest centroid. */
  lemma ClustersPush(ps: seq<Rgb>, p: Rgb, cs: seq<Rgb>, k: nat)
    requires Nearest(p, cs) < k
    ensures Clusters(ps + [p], cs, k) == Clusters(ps, cs, k)[Nearest(p, cs) := Clusters(ps, cs, k)[Nearest(p, cs)] + [p]]
  {
    var n := Nearest(p, cs);
    var before, after := Clusters(ps, cs, k), Clusters(ps + [p], cs, k);
    forall i | 0 <= i < k
      ensures after[i] == before[n := before[n] + [p]][i]
    {
      MembersSnoc(ps, p, cs, i);
    }
  }

  function Add(a: Rgb, b: Rgb): Rgb {
    Rgb(a.r + b.r, a.g + b.g, a.b + b.b)
  }

  /** The `reduce` of a cluster from [0, 0, 0]: the channel-wise sum, left to right; one colour sums to itself. */
  function Sum(ps: seq<Rgb>): (total: Rgb)
    ensures ps == [] ==> total == Rgb(0, 0, 0)
    ensures |ps| == 1 ==> total == ps[0]
  {
    if ps == [] then Rgb(0, 0, 0) else Add(Sum(ps[..|ps| - 1]), ps[|ps| - 1])
  }

  /** The rounded channel-wise mean of a non-empty cluster: each channel is the integer nearest Sum / |ps|, halves up. */
  function Mean(ps: seq<Rgb>): (m: Rgb)
    requires |ps| > 0
    ensures |ps| * (2 * m.r - 1) <= 2 * Sum(ps).r < |ps| * (2 * m.r + 1)
    ensures |ps| * (2 * m.g - 1) <= 2 * Sum(ps).g < |ps| * (2 * m.g + 1)
    ensures |ps| * (2 * m.b - 1) <= 2 * Sum(ps).b < |ps| * (2 * m.b + 1)
  {
    var total := Sum(ps);
    Rgb(RoundDiv(total.r, |ps|), RoundDiv(total.g, |ps|), RoundDiv(total.b, |ps|))
  }

  /** One round: every centroid whose cluster is non-empty moves to its mean. */
  function Step(ps: seq<Rgb>, cs: seq<Rgb>): (next: seq<Rgb>)
    ensures |next| == |cs|
  {
    seq(|cs|, i requires 0 <= i < |cs| =>
      var m := Members(ps, cs, i);
      if m == [] then cs[i] else Mean(m))
  }

  function Iterate(ps: seq<Rgb>, cs: seq<Rgb>, n: nat): (result: seq<Rgb>)
    ensures |result| == |cs|
  {
    if n == 0 then cs else Step(ps, Iterate(ps, cs, n - 1))
  }

  /** `pixels.slice(0, k)`: the first k samples seed the centroids. */
  function Seed(ps: seq<Rgb>, k: nat): (seeds: seq<Rgb>)
    ensures |seeds| == Min(k, |ps|)
    ensures seeds <= ps
  {
    ps[..Min(k, |ps|)]
  }

  /** The value `kMeans(ps, k)` returns: min(k, |ps|) centroids. */
  function Clustered(ps: seq<Rgb>, k: nat): (centroids: seq<Rgb>)
    ensures |centroids| == Min(k, |ps|)
  {
    Iterate(ps, Seed(ps, k), ROUNDS)
  }

  /** The `reduce` loop over one cluster. */
  method SumColors(cluster: seq<Rgb>) returns (total: Rgb)
    ensures total == Sum(cluster)
  {
    total := Rgb(0, 0, 0);
    var j := 0;
    while j < |cluster|
      invariant 0 <= j <= |cluster|
      invariant total == Sum(cluster[..j])
    {
      assert cluster[..j + 1][..j] == cluster[..j];
      total := Add(total, cluster[j]);
      j := j + 1;
    }
    assert cluster[..j] == cluster;
  }

  /** The assignment half of a round (script.js:27-39). */
  method AssignClusters(pixels: seq<Rgb>, centroids: seq<Rgb>, k: nat) returns (clusters: seq<seq<Rgb>>)
    requires k > 0 || pixels == []
    requires |centroids| <= k
    ensures clusters == Clusters(pixels, centroids, k)
  {
    clusters := seq(k, _ => []);
    var j := 0;
    while j < |pixels|
      invariant 0 <= j <= |pixels|
      invariant clusters == Clusters(pixels[..j], centroids, k)
    {
      var p := pixels[j];
      var best := NearestCentroid(p, centroids);
      ClustersPush(pixels[..j], p, centroids, k);
      assert pixels[..j + 1] == pixels[..j] + [p];
      clusters := clusters[best := clusters[best] + [p]];
      j := j + 1;
    }
    assert pixels[..j] == pixels;
  }

  /** The update half of a round (script.js:40-47): `centroids` after it. */
  method UpdateCentroids(ghost pixels: seq<Rgb>, centroids: seq<Rgb>, clusters: seq<seq<Rgb>>)
    returns (next: seq<Rgb>)
    requires centroids != [] || pixels == []
    requires |centroids| <= |clusters|
    requires clusters == Clusters(pixels, centroids, |clusters|)
    ensures next == Step(pixels, centroids)
  {
    next := centroids;
    var i := 0;
    while i < |clusters|
      invariant 0 <= i <= |clusters|
      invariant |next| == |centroids|
      invariant forall j :: 0 <= j < |centroids| ==> next[j] == if j < i then Step(pixels, centroids)[j] else centroids[j]
    {
      var cluster := clusters[i];
      if i >= |centroids| {
        MembersBeyond(pixels, centroids, i);
      }
      if |cluster| > 0 {
        var total := SumColors(cluster);
        next := next[i := Rgb(RoundDiv(total.r, |cluster|), RoundDiv(total.g, |cluster|), RoundDiv(total.b, |cluster|))];
      }
      i := i + 1;
    }
  }

  /** `kMeans(pixels, k)`; with k = 0 and a sample the script throws (`clusters[0]` is undefined). */
  method KMeans(pixels: seq<Rgb>, k: nat) returns (centroids: seq<Rgb>)
    requires k > 0 || pixels == []
    ensures centroids == Clustered(pixels, k)
  {
    centroids := pixels[..Min(k, |pixels|)];
    var iter := 0;
    while iter < ROUNDS
      invariant 0 <= iter <= ROUNDS
      invariant centroids == Iterate(pixels, Seed(pixels, k), iter)
    {
      var clusters := AssignClusters(pixels, centroids, k);
      centroids := UpdateCentroids(pixels, centroids, clusters);
      iter := iter + 1;
    }
  }

  /** Cluster i holds exactly the pixels whose nearest centroid is i. */
  lemma {:induction false} MembersSpec(ps: seq<Rgb>, cs: seq<Rgb>, i: nat)
    ensures forall q :: q in Members(ps, cs, i) <==> q in ps && Nearest(q, cs) == i
  {
    if ps != [] {
      var init := ps[..|ps| - 1];
      MembersSpec(init, cs, i);
      assert ps == init + [ps[|ps| - 1]];
    }
  }

  /** Clusters past the seeded centroids stay empty. */
  lemma MembersBeyond(ps: seq<Rgb>, cs: seq<Rgb>, i: nat)
    requires cs != [] || ps == []
    requires i >= |cs|
    ensures Members(ps, cs, i) == []
  {
    MembersSpec(ps, cs, i);
    if Members(ps, cs, i) != [] {
      assert Members(ps, cs, i)[0] in Members(ps, cs, i);
    }
  }

  function TotalSize(clusters: seq<seq<Rgb>>): nat {
    if clusters == [] then 0 else TotalSize(clusters[..|clusters| - 1]) + |clusters[|clusters| - 1]|
  }

  lemma {:induction false} TotalSizeEmpty(n: nat)
    ensures TotalSize(seq(n, _ => [])) == 0
  {
    if n > 0 {
      var empty: seq<seq<Rgb>> := seq(n, _ => []);
      assert empty[..n - 1] == seq(n - 1, _ => []);
      TotalSizeEmpty(n - 1);
    }
  }

  lemma {:induction false} TotalSizePush(clusters: seq<seq<Rgb>>, n: nat, p: Rgb)
    requires n < |clusters|
    ensures TotalSize(clusters[n := clusters[n] + [p]]) == TotalSize(clusters) + 1
  {
    var last := |clusters| - 1;
    var pushed := clusters[n := clusters[n] + [p]];
    if n == last {
      assert pushed[..last] == clusters[..last];
    } else {
      assert pushed[..last] == clusters[..last][n := clusters[n] + [p]];
      TotalSizePush(clusters[..last], n, p);
    }
  }

  /** Every pixel lands in exactly one of the k clusters: the sizes add up to |ps|. */
  lemma {:induction false} ClustersPartition(ps: seq<Rgb>, cs: seq<Rgb>, k: nat)
    requires k > 0 && |cs| <= k
    ensures TotalSize(Clusters(ps, cs, k)) == |ps|
  {
    if ps == [] {
      assert Clusters(ps, cs, k) == seq(k, _ => []);
      TotalSizeEmpty(k);
    } else {
      var init, last := ps[..|ps| - 1], ps[|ps| - 1];
      var n := Nearest(last, cs);
      ClustersPartition(init, cs, k);
      ClustersPush(init, last, cs, k);
      assert ps == init + [last];
      TotalSizePush(Clusters(init, cs, k), n, last);
    }
  }

  /**
   * A centroid no pixel is nearest to keeps its value; otherwise it moves to
   * the rounded mean of the pixels nearest to it.
   */
  lemma StepCentroid(ps: seq<Rgb>, cs: seq<Rgb>, i: nat)
    requires i < |cs|
    ensures (forall q :: q in ps ==> Nearest(q, cs) != i) ==> Step(ps, cs)[i] == cs[i]
    ensures (exists q :: q in ps && Nearest(q, cs) == i) ==>
              Members(ps, cs, i) != [] && Step(ps, cs)[i] == Mean(Members(ps, cs, i))
  {
    MembersSpec(ps, cs, i);
    if Members(ps, cs, i) != [] {
      assert Members(ps, cs, i)[0] in Members(ps, cs, i);
    }
  }

  /** A sum of in-range colours lies within [0, 255 * |ps|] channel by channel. */
  lemma {:induction false} SumBounds(ps: seq<Rgb>)
    requires AllInRange(ps)
    ensures 0 <= Sum(ps).r <= 255 * |ps| && 0 <= Sum(ps).g <= 255 * |ps| && 0 <= Sum(ps).b <= 255 * |ps|
  {
    if ps != [] {
      SumBounds(ps[..|ps| - 1]);
    }
  }

  /** The rounded mean of in-range colours is in range. */
  lemma MeanInRange(ps: seq<Rgb>)
    requires |ps| > 0 && AllInRange(ps)
    ensures InRange(Mean(ps))
  {
    SumBounds(ps);
    var total := Sum(ps);
    RoundDivRange(total.r, |ps|, 0, 255);
    RoundDivRange(total.g, |ps|, 0, 255);
    RoundDivRange(total.b, |ps|, 0, 255);
  }

  lemma StepInRange(ps: seq<Rgb>, cs: seq<Rgb>)
    requires AllInRange(ps) && AllInRange(cs)
    ensures AllInRange(Step(ps, cs))
  {
    forall i | 0 <= i < |cs|
      ensures InRange(Step(ps, cs)[i])
    {
      var m := Members(ps, cs, i);
      if m != [] {
        MembersSpec(ps, cs, i);
        assert forall j :: 0 <= j < |m| ==> m[j] in m;
        MeanInRange(m);
      }
    }
  }

  lemma {:induction false} IterateInRange(ps: seq<Rgb>, cs: seq<Rgb>, n: nat)
    requires AllInRange(ps) && AllInRange(cs)
    ensures AllInRange(Iterate(ps, cs, n))
  {
    if n > 0 {
      IterateInRange(ps, cs, n - 1);
      StepInRange(ps, Iterate(ps, cs, n - 1));
    }
  }

  /** Every returned centroid of in-range samples is in range. */
  lemma ClusteredInRange(ps: seq<Rgb>, k: nat)
    requires AllInRange(ps)
    ensures AllInRange(Clustered(ps, k))
  {
    IterateInRange(ps, Seed(ps, k), ROUNDS);
  }

  predicate Uniform(ps: seq<Rgb>, c: Rgb) {
    forall j :: 0 <= j < |ps| ==> ps[j] == c
  }

  lemma {:induction false} SumUniform(ps: seq<Rgb>, c: Rgb)
    requires Uniform(ps, c)
    ensures Sum(ps) == Rgb(|ps| * c.r, |ps| * c.g, |ps| * c.b)
  {
    if ps != [] {
      SumUniform(ps[..|ps| - 1], c);
      var n := |ps| - 1;
      assert (n + 1) * c.r == n * c.r + c.r;
      assert (n + 1) * c.g == n * c.g + c.g;
      assert (n + 1) * c.b == n * c.b + c.b;
    }
  }

  lemma MeanUniform(ps: seq<Rgb>, c: Rgb)
    requires |ps| > 0 && Uniform(ps, c)
    ensures Mean(ps) == c
  {
    SumUniform(ps, c);
    RoundDivExact(c.r, |ps|);
    RoundDivExact(c.g, |ps|);
    RoundDivExact(c.b, |ps|);
  }

  lemma StepUniform(ps: seq<Rgb>, cs: seq<Rgb>, c: Rgb)
    requires Uniform(ps, c) && Uniform(cs, c)
    ensures Step(ps, cs) == cs
  {
    forall i | 0 <= i < |cs|
      ensures Step(ps, cs)[i] == cs[i]
    {
      var m := Members(ps, cs, i);
      if m != [] {
        MembersSpec(ps, cs, i);
        assert forall j :: 0 <= j < |m| ==> m[j] in m;
        MeanUniform(m, c);
      }
    }
  }

  /** Centroids a round leaves alone stay put for any number of rounds. */
  lemma {:induction false} IterateFixed(ps: seq<Rgb>, cs: seq<Rgb>, n: nat)
    requires Step(ps, cs) == cs
    ensures Iterate(ps, cs, n) == cs
  {
    if n > 0 {
      IterateFixed(ps, cs, n - 1);
    }
  }

  lemma IterateUniform(ps: seq<Rgb>, cs: seq<Rgb>, c: Rgb, n: nat)
    requires Uniform(ps, c) && Uniform(cs, c)
    ensures Iterate(ps, cs, n) == cs
  {
    StepUniform(ps, cs, c);
    IterateFixed(ps, cs, n);
  }

  /** Samples of one colour give centroids of that colour, min(k, |ps|) of them. */
  lemma UniformInput(ps: seq<Rgb>, c: Rgb, k: nat)
    requires Uniform(ps, c)
    ensures Clustered(ps, k) == seq(Min(k, |ps|), _ => c)
  {
    IterateUniform(ps, Seed(ps, k), c, ROUNDS);
  }

  // The three-block example: n red, then n blue, then n green samples, k = 3.

  const RED := Rgb(255, 0, 0)
  const GREEN := Rgb(0, 255, 0)
  const BLUE := Rgb(0, 0, 255)
  const GREY := Rgb(85, 85, 85)
  const TEAL := Rgb(0, 128, 128)

  function Repeat(c: Rgb, n: nat): (s: seq<Rgb>)
    ensures |s| == n && Uniform(s, c)
  {
    seq(n, _ => c)
  }

  function Blocks(n: nat): seq<Rgb> {
    Repeat(RED, n) + Repeat(BLUE, n) + Repeat(GREEN, n)
  }

  lemma {:induction false} MembersAppend(a: seq<Rgb>, b: seq<Rgb>, cs: seq<Rgb>, i: nat)
    ensures Members(a + b, cs, i) == Members(a, cs, i) + Members(b, cs, i)
    decreases |b|
  {
    if b == [] {
      assert a + b == a;
    } else {
      var init, last := b[..|b| - 1], b[|b| - 1];
      var pushed := if Nearest(last, cs) == i then [last] else [];
      calc {
        Members(a + b, cs, i);
        { assert a + b == (a + init) + [last]; }
        Members((a + init) + [last], cs, i);
        { MembersSnoc(a + init, last, cs, i); }
        Members(a + init, cs, i) + pushed;
        { MembersAppend(a, init, cs, i); }
        Members(a, cs, i) + Members(init, cs, i) + pushed;
        { MembersSnoc(init, last, cs, i); assert b == init + [last]; }
        Members(a, cs, i) + Members(b, cs, i);
      }
    }
  }

  lemma {:induction false} MembersUniform(ps: seq<Rgb>, c: Rgb, cs: seq<Rgb>, i: nat)
    requires Uniform(ps, c)
    ensures Members(ps, cs, i) == if Nearest(c, cs) == i then ps else []
  {
    if ps != [] {
      MembersUniform(ps[..|ps| - 1], c, cs, i);
    }
  }

  lemma {:induction false} SumAppend(a: seq<Rgb>, b: seq<Rgb>)
    ensures Sum(a + b) == Add(Sum(a), Sum(b))
    decreases |b|
  {
    if b != [] {
      var init, last := b[..|b| - 1], b[|b| - 1];
      SumAppend(a, init);
      assert (a + b)[..|a + b| - 1] == a + init && (a + b)[|a + b| - 1] == last;
      assert Sum(a + b) == Add(Sum(a + init), last);
      assert Sum(b) == Add(Sum(init), last);
    } else {
      assert a + b == a;
    }
  }

  function Block(c: Rgb, n: nat, cs: seq<Rgb>, i: nat): seq<Rgb> {
    if Nearest(c, cs) == i then Repeat(c, n) else []
  }

  lemma BlocksMembers(n: nat, cs: seq<Rgb>, i: nat)
    ensures Members(Blocks(n), cs, i) == Block(RED, n, cs, i) + Block(BLUE, n, cs, i) + Block(GREEN, n, cs, i)
  {
    MembersAppend(Repeat(RED, n) + Repeat(BLUE, n), Repeat(GREEN, n), cs, i);
    MembersAppend(Repeat(RED, n), Repeat(BLUE, n), cs, i);
    MembersUniform(Repeat(RED, n), RED, cs, i);
    MembersUniform(Repeat(BLUE, n), BLUE, cs, i);
    MembersUniform(Repeat(GREEN, n), GREEN, cs, i);
  }

  /**
   * The assignment scan over centroids [a, b, b]: the third never wins (a
   * tie with the second keeps the second), and the second wins exactly when
   * it is strictly nearer than the first.
   */
  lemma NearestOfPair(p: Rgb, cs: seq<Rgb>, a: Rgb, b: Rgb)
    requires |cs| == 3 && cs[0] == a && cs[1] == b && cs[2] == b
    ensures Nearest(p, cs) == if SqDist(p, b) < SqDist(p, a) then 1 else 0
  {
    assert NearestIn(p, cs, 1) == 0;
    assert NearestIn(p, cs, 2) == if SqDist(p, b) < SqDist(p, a) then 1 else 0;
  }

  /** The squared distances the three-block example compares. */
  lemma SelfDistance(p: Rgb)
    ensures SqDist(p, p) == 0
  {
  }

  lemma DistancesToGrey()
    ensures SqDist(RED, GREY) == 43350
    ensures SqDist(BLUE, GREY) == 43350
    ensures SqDist(GREEN, GREY) == 43350
  {
    assert RED.r - GREY.r == 170 && RED.g - GREY.g == -85 && RED.b - GREY.b == -85;
    assert BLUE.r - GREY.r == -85 && BLUE.g - GREY.g == -85 && BLUE.b - GREY.b == 170;
    assert GREEN.r - GREY.r == -85 && GREEN.g - GREY.g == 170 && GREEN.b - GREY.b == -85;
  }

  lemma DistancesToTeal()
    ensures SqDist(RED, TEAL) == 97793
    ensures SqDist(BLUE, TEAL) == 32513
    ensures SqDist(GREEN, TEAL) == 32513
  {
    assert RED.r - TEAL.r == 255 && RED.g - TEAL.g == -128 && RED.b - TEAL.b == -128;
    assert BLUE.r - TEAL.r == 0 && BLUE.g - TEAL.g == -128 && BLUE.b - TEAL.b == 127;
    assert GREEN.r - TEAL.r == 0 && GREEN.g - TEAL.g == 127 && GREEN.b - TEAL.b == -128;
  }

  lemma DistancesToRed()
    ensures SqDist(BLUE, RED) == 130050
    ensures SqDist(GREEN, RED) == 130050
  {
    assert BLUE.r - RED.r == -255 && BLUE.g - RED.g == 0 && BLUE.b - RED.b == 255;
    assert GREEN.r - RED.r == -255 && GREEN.g - RED.g == 255 && GREEN.b - RED.b == 0;
  }

  /** Against [GREY, RED, RED], red goes to slot 1 and blue and green to slot 0. */
  lemma NearestFromGrey(cs: seq<Rgb>)
    requires |cs| == 3 && cs[0] == GREY && cs[1] == RED && cs[2] == RED
    ensures Nearest(RED, cs) == 1 && Nearest(BLUE, cs) == 0 && Nearest(GREEN, cs) == 0
  {
    SelfDistance(RED);
    DistancesToRed();
    DistancesToGrey();
    NearestOfPair(RED, cs, GREY, RED);
    NearestOfPair(BLUE, cs, GREY, RED);
    NearestOfPair(GREEN, cs, GREY, RED);
  }

  /** Against [TEAL, RED, RED], likewise. */
  lemma NearestFromTeal(cs: seq<Rgb>)
    requires |cs| == 3 && cs[0] == TEAL && cs[1] == RED && cs[2] == RED
    ensures Nearest(RED, cs) == 1 && Nearest(BLUE, cs) == 0 && Nearest(GREEN, cs) == 0
  {
    SelfDistance(RED);
    DistancesToRed();
    DistancesToTeal();
    NearestOfPair(RED, cs, TEAL, RED);
    NearestOfPair(BLUE, cs, TEAL, RED);
    NearestOfPair(GREEN, cs, TEAL, RED);
  }

  lemma SumRepeat(c: Rgb, n: nat)
    ensures Sum(Repeat(c, n)) == Rgb(n * c.r, n * c.g, n * c.b)
  {
    SumUniform(Repeat(c, n), c);
  }

  lemma SumOfBlocks(n: nat)
    ensures Sum(Blocks(n)) == Rgb(255 * n, 255 * n, 255 * n)
  {
    var reds, blues, greens := Repeat(RED, n), Repeat(BLUE, n), Repeat(GREEN, n);
    SumRepeat(RED, n);
    SumRepeat(BLUE, n);
    SumRepeat(GREEN, n);
    SumAppend(reds, blues);
    SumAppend(reds + blues, greens);
  }

  /** The mean of a non-empty sequence, given its sum. */
  lemma MeanFromSum(ps: seq<Rgb>, total: Rgb)
    requires |ps| > 0 && Sum(ps) == total
    ensures Mean(ps) == Rgb(RoundDiv(total.r, |ps|), RoundDiv(total.g, |ps|), RoundDiv(total.b, |ps|))
  {
  }

  lemma ThirdExact(n: nat)
    requires n > 0
    ensures RoundDiv(255 * n, 3 * n) == 85
  {
    assert (3 * n) * 85 == 255 * n;
    RoundDivExact(85, 3 * n);
  }

  lemma MeanOfBlocks(n: nat)
    requires n > 0
    ensures Mean(Blocks(n)) == GREY
  {
    SumOfBlocks(n);
    MeanFromSum(Blocks(n), Rgb(255 * n, 255 * n, 255 * n));
    ThirdExact(n);
  }

  /** 255 n / 2 n = 127.5 rounds up to 128. */
  lemma HalfRoundsUp(n: nat)
    requires n > 0
    ensures RoundDiv(255 * n, 2 * n) == 128
  {
    var q := RoundDiv(255 * n, 2 * n);
    if q >= 129 {
      MulMono(2 * n, 257, 2 * q - 1);
    } else if q <= 127 {
      MulMono(2 * n, 2 * q + 1, 255);
    }
  }

  lemma SumOfBlueAndGreen(n: nat)
    ensures Sum(Repeat(BLUE, n) + Repeat(GREEN, n)) == Rgb(0, 255 * n, 255 * n)
  {
    SumRepeat(BLUE, n);
    SumRepeat(GREEN, n);
    SumAppend(Repeat(BLUE, n), Repeat(GREEN, n));
  }

  lemma MeanOfBlueAndGreen(n: nat)
    requires n > 0
    ensures Mean(Repeat(BLUE, n) + Repeat(GREEN, n)) == TEAL
  {
    SumOfBlueAndGreen(n);
    MeanFromSum(Repeat(BLUE, n) + Repeat(GREEN, n), Rgb(0, 255 * n, 255 * n));
    HalfRoundsUp(n);
    RoundDivExact(0, 2 * n);
  }

  /** One round over three centroids, given the three clusters. */
  lemma StepOfThree(ps: seq<Rgb>, cs: seq<Rgb>, m0: seq<Rgb>, m1: seq<Rgb>, m2: seq<Rgb>)
    requires |cs| == 3
    requires Members(ps, cs, 0) == m0 && Members(ps, cs, 1) == m1 && Members(ps, cs, 2) == m2
    ensures Step(ps, cs) == [if m0 == [] then cs[0] else Mean(m0),
                             if m1 == [] then cs[1] else Mean(m1),
                             if m2 == [] then cs[2] else Mean(m2)]
  {
  }

  /** The clusters of the block input when red, blue and green are nearest nr, nb and ng. */
  lemma BlocksClusters(n: nat, cs: seq<Rgb>, i: nat, nr: nat, nb: nat, ng: nat)
    requires Nearest(RED, cs) == nr && Nearest(BLUE, cs) == nb && Nearest(GREEN, cs) == ng
    ensures nr != i && nb != i && ng != i ==> Members(Blocks(n), cs, i) == []
    ensures nr == i && nb != i && ng != i ==> Members(Blocks(n), cs, i) == Repeat(RED, n)
    ensures nr != i && nb == i && ng == i ==> Members(Blocks(n), cs, i) == Repeat(BLUE, n) + Repeat(GREEN, n)
    ensures nr == i && nb == i && ng == i ==> Members(Blocks(n), cs, i) == Blocks(n)
  {
    BlocksMembers(n, cs, i);
    var reds, blues, greens := Repeat(RED, n), Repeat(BLUE, n), Repeat(GREEN, n);
    assert reds + [] + [] == reds;
    assert [] + blues + greens == blues + greens;
  }

  /** First round: all three seeds are red, so every sample ties and joins cluster 0. */
  lemma FirstRound(n: nat)
    requires n > 0
    ensures Step(Blocks(n), [RED, RED, RED]) == [GREY, RED, RED]
  {
    FirstRoundFrom(n, [RED, RED, RED]);
  }

  lemma FirstRoundFrom(n: nat, cs: seq<Rgb>)
    requires n > 0
    requires |cs| == 3 && cs[0] == RED && cs[1] == RED && cs[2] == RED
    ensures Step(Blocks(n), cs) == [GREY, RED, RED]
  {
    NearestOfPair(RED, cs, RED, RED);
    NearestOfPair(BLUE, cs, RED, RED);
    NearestOfPair(GREEN, cs, RED, RED);
    AllToFirst(n, cs);
  }

  /** When every colour of the block input is nearest slot 0, slot 0 moves to the grey mean. */
  lemma AllToFirst(n: nat, cs: seq<Rgb>)
    requires n > 0 && |cs| == 3
    requires Nearest(RED, cs) == 0 && Nearest(BLUE, cs) == 0 && Nearest(GREEN, cs) == 0
    ensures Step(Blocks(n), cs) == [GREY, cs[1], cs[2]]
  {
    BlocksClusters(n, cs, 0, 0, 0, 0);
    BlocksClusters(n, cs, 1, 0, 0, 0);
    BlocksClusters(n, cs, 2, 0, 0, 0);
    StepOfThree(Blocks(n), cs, Blocks(n), [], []);
    MeanOfBlocks(n);
  }

  /** Second round: red stays on slot 1, blue and green pull the grey centroid to teal. */
  lemma SecondRound(n: nat)
    requires n > 0
    ensures Step(Blocks(n), [GREY, RED, RED]) == [TEAL, RED, RED]
  {
    var cs := [GREY, RED, RED];
    NearestFromGrey(cs);
    BlueGreenToFirst(n, cs);
  }

  /** Every later round: teal is a fixed point. */
  lemma LaterRound(n: nat)
    requires n > 0
    ensures Step(Blocks(n), [TEAL, RED, RED]) == [TEAL, RED, RED]
  {
    var cs := [TEAL, RED, RED];
    NearestFromTeal(cs);
    BlueGreenToFirst(n, cs);
  }

  /**
   * When red is nearest slot 1 and blue and green slot 0, slot 0 moves to
   * teal and slot 1 to the red mean, red.
   */
  lemma BlueGreenToFirst(n: nat, cs: seq<Rgb>)
    requires n > 0 && |cs| == 3
    requires Nearest(RED, cs) == 1 && Nearest(BLUE, cs) == 0 && Nearest(GREEN, cs) == 0
    ensures Step(Blocks(n), cs) == [TEAL, RED, cs[2]]
  {
    var blueGreen := Repeat(BLUE, n) + Repeat(GREEN, n);
    BlocksClusters(n, cs, 0, 1, 0, 0);
    BlocksClusters(n, cs, 1, 1, 0, 0);
    BlocksClusters(n, cs, 2, 1, 0, 0);
    StepOfThree(Blocks(n), cs, blueGreen, Repeat(RED, n), []);
    MeanOfBlueAndGreen(n);
    MeanUniform(Repeat(RED, n), RED);
  }

  /**
   * n red, n blue, then n green samples (n >= 3) with k = 3: all three
   * seeds are red, so blue and green end up sharing one teal centroid.
   */
  lemma BlocksClustered(n: nat)
    requires n >= 3
    ensures Clustered(Blocks(n), 3) == [TEAL, RED, RED]
  {
    var ps, cs := Blocks(n), Seed(Blocks(n), 3);
    assert cs == [RED, RED, RED];
    FirstRound(n);
    SecondRound(n);
    LaterRound(n);
    assert Iterate(ps, cs, 1) == [GREY, RED, RED];
    assert Iterate(ps, cs, 2) == [TEAL, RED, RED];
    assert Iterate(ps, cs, 3) == [TEAL, RED, RED];
    assert Iterate(ps, cs, 4) == [TEAL, RED, RED];
    assert Iterate(ps, cs, 5) == [TEAL, RED, RED];
  }

  // ---------------------------------------------------------------------
  // Palette roles, background and the five CSS writes (script.js:76-91)

  const CLUSTER_COUNT := 3
  const DARK_BASE := Rgb(10, 13, 22)
  const TEXT_COLOR := Rgb(247, 247, 251)

  predicate SortedDesc(s: seq<Rgb>, luminance: Rgb -> real) {
    forall i, j :: 0 <= i < j < |s| ==> luminance(s[i]) >= luminance(s[j])
  }

  /** Insert x before the first element not brighter than it. */
  function InsertDesc(x: Rgb, s: seq<Rgb>, luminance: Rgb -> real): (r: seq<Rgb>)
    requires SortedDesc(s, luminance)
    ensures SortedDesc(r, luminance)
    ensures multiset(r) == multiset(s) + multiset{x}
  {
    if s == [] || luminance(x) >= luminance(s[0]) then [x] + s
    else
      var t := InsertDesc(x, s[1..], luminance);
      assert s == [s[0]] + s[1..];
      HeadBrightest(s, x, t, luminance);
      [s[0]] + t
  }

  /** The head of a sorted s is at least as bright as everything in s[1..] plus a dimmer x. */
  lemma HeadBrightest(s: seq<Rgb>, x: Rgb, t: seq<Rgb>, luminance: Rgb -> real)
    requires SortedDesc(s, luminance) && s != [] && luminance(x) < luminance(s[0])
    requires multiset(t) == multiset(s[1..]) + multiset{x}
    ensures forall j :: 0 <= j < |t| ==> luminance(s[0]) >= luminance(t[j])
  {
    forall j | 0 <= j < |t|
      ensures luminance(s[0]) >= luminance(t[j])
    {
      assert t[j] in multiset(t);
      if t[j] != x {
        assert t[j] in multiset(s[1..]);
        var k :| 0 <= k < |s[1..]| && s[1..][k] == t[j];
        assert s[k + 1] == t[j];
      }
    }
  }

  /**
   * `.sort((a, b) => getLuminance(b) - getLuminance(a))`, brightest first;
   * the luminance is a parameter here.
   */
  function SortByLuminance(palette: seq<Rgb>, luminance: Rgb -> real): (sorted: seq<Rgb>)
    ensures SortedDesc(sorted, luminance)
    ensures multiset(sorted) == multiset(palette)
  {
    if palette == [] then []
    else
      assert palette == [palette[0]] + palette[1..];
      InsertDesc(palette[0], SortByLuminance(palette[1..], luminance), luminance)
  }

  /** The colours of s whose luminance is v, in their order in s. */
  function WithLuminance(s: seq<Rgb>, luminance: Rgb -> real, v: real): (tied: seq<Rgb>)
    ensures |tied| <= |s|
  {
    if s == [] then []
    else (if luminance(s[0]) == v then [s[0]] else []) + WithLuminance(s[1..], luminance, v)
  }

  lemma WithLuminanceCons(h: Rgb, t: seq<Rgb>, luminance: Rgb -> real, v: real)
    ensures WithLuminance([h] + t, luminance, v) == (if luminance(h) == v then [h] else []) + WithLuminance(t, luminance, v)
  {
    assert ([h] + t)[1..] == t;
  }

  /** A colour strictly brighter than x, put in front, does not disturb the colours tied with x. */
  lemma StableCons(x: Rgb, h: Rgb, rest: seq<Rgb>, t: seq<Rgb>, luminance: Rgb -> real, v: real)
    requires luminance(x) < luminance(h)
    requires WithLuminance(t, luminance, v) == (if luminance(x) == v then [x] else []) + WithLuminance(rest, luminance, v)
    ensures WithLuminance([h] + t, luminance, v)
            == (if luminance(x) == v then [x] else []) + WithLuminance([h] + rest, luminance, v)
  {
    WithLuminanceCons(h, t, luminance, v);
    WithLuminanceCons(h, rest, luminance, v);
    var xs := if luminance(x) == v then [x] else [];
    var hs := if luminance(h) == v then [h] else [];
    assert xs == [] || hs == [];
    assert hs + (xs + WithLuminance(rest, luminance, v)) == xs + (hs + WithLuminance(rest, luminance, v));
  }

  /** Inserting x puts it ahead of every colour as bright as it. */
  lemma {:induction false} InsertStable(x: Rgb, s: seq<Rgb>, luminance: Rgb -> real, v: real)
    requires SortedDesc(s, luminance)
    ensures WithLuminance(InsertDesc(x, s, luminance), luminance, v)
            == (if luminance(x) == v then [x] else []) + WithLuminance(s, luminance, v)
  {
    if s == [] || luminance(x) >= luminance(s[0]) {
      WithLuminanceCons(x, s, luminance, v);
    } else {
      var t := InsertDesc(x, s[1..], luminance);
      assert InsertDesc(x, s, luminance) == [s[0]] + t;
      assert SortedDesc(s[1..], luminance);
      InsertStable(x, s[1..], luminance, v);
      StableCons(x, s[0], s[1..], t, luminance, v);
      assert [s[0]] + s[1..] == s;
    }
  }

  /**
   * The sort is stable: colours of equal luminance keep their order, as the
   * engine's `Array.prototype.sort` keeps it.
   */
  lemma {:induction false} SortStable(palette: seq<Rgb>, luminance: Rgb -> real, v: real)
    ensures WithLuminance(SortByLuminance(palette, luminance), luminance, v) == WithLuminance(palette, luminance, v)
  {
    if palette != [] {
      SortStable(palette[1..], luminance, v);
      InsertStable(palette[0], SortByLuminance(palette[1..], luminance), luminance, v);
    }
  }

  /**
   * `bg`: the primary mixed 70% towards the dark base, or 85% when the
   * first mix is lighter than luminance 0.4; either way its channels lie
   * between the primary's and the dark base's.
   */
  function Background(primary: Rgb, luminance: Rgb -> real): (bg: Rgb)
    ensures Between(bg, primary, DARK_BASE)
    ensures InRange(primary) ==> InRange(bg)
  {
    var bg := Mix(primary, DARK_BASE, 7, 10);
    if luminance(bg) > 0.4 then Mix(primary, DARK_BASE, 17, 20) else bg
  }

  lemma TextColorHex()
    ensures RgbToHex(TEXT_COLOR) == "#f7f7fb"
  {
    ChannelHexDigits(247);
    ChannelHexDigits(251);
  }

  /** One `setCSSVar(name, value)` call. */
  datatype CssWrite = CssWrite(name: string, value: string)

  /** The palette: the three k-means centroids, brightest first. */
  function Palette(samples: seq<Rgb>, luminance: Rgb -> real): (palette: seq<Rgb>)
    ensures SortedDesc(palette, luminance)
    ensures multiset(palette) == multiset(Clustered(samples, CLUSTER_COUNT))
  {
    SortByLuminance(Clustered(samples, CLUSTER_COUNT), luminance)
  }

  /**
   * The palette has min(3, |samples|) colours, in range when the samples
   * are, and a single sample is its own palette.
   */
  lemma PaletteShape(samples: seq<Rgb>, luminance: Rgb -> real)
    ensures |Palette(samples, luminance)| == Min(CLUSTER_COUNT, |samples|)
    ensures AllInRange(samples) ==> AllInRange(Palette(samples, luminance))
    ensures |samples| == 1 ==> Palette(samples, luminance) == samples
  {
    var centroids := Clustered(samples, CLUSTER_COUNT);
    var palette := Palette(samples, luminance);
    assert |palette| == |multiset(palette)| == |multiset(centroids)| == |centroids|;
    if AllInRange(samples) {
      ClusteredInRange(samples, CLUSTER_COUNT);
      PermutationInRange(palette, centroids);
    }
    if |samples| == 1 {
      PaletteOfOne(samples, luminance);
    }
  }

  lemma PaletteOfOne(samples: seq<Rgb>, luminance: Rgb -> real)
    requires |samples| == 1
    ensures Palette(samples, luminance) == samples
  {
    UniformInput(samples, samples[0], CLUSTER_COUNT);
    assert Clustered(samples, CLUSTER_COUNT) == samples;
    SingletonPermutation(Palette(samples, luminance), samples[0]);
  }

  lemma PermutationInRange(a: seq<Rgb>, b: seq<Rgb>)
    requires multiset(a) == multiset(b) && AllInRange(b)
    ensures AllInRange(a)
  {
    forall j | 0 <= j < |a|
      ensures InRange(a[j])
    {
      assert a[j] in multiset(b);
    }
  }

  lemma SingletonPermutation(a: seq<Rgb>, x: Rgb)
    requires multiset(a) == multiset([x])
    ensures a == [x]
  {
    assert |a| == |multiset(a)| == 1;
    assert a[0] in multiset([x]);
  }

  /** The CSS variables the palette sets, in order (script.js:87-91). */
  const CSS_NAMES: seq<string> := ["--primary", "--secondary", "--accent", "--bg", "--text"]

  /**
   * The colours behind the five writes of a palette with at least two
   * colours: the accent falls back to the secondary when there is no third.
   */
  function RoleColors(palette: seq<Rgb>, luminance: Rgb -> real): (colors: seq<Rgb>)
    requires |palette| >= 2
    ensures |colors| == 5
    ensures AllInRange(palette) ==> AllInRange(colors)
  {
    var accent := if |palette| >= 3 then palette[2] else palette[1];
    [palette[0], palette[1], accent, Background(palette[0], luminance), TEXT_COLOR]
  }

  /**
   * The five `setCSSVar` calls of a palette, in order: primary, secondary,
   * accent (the secondary when there is no third colour), bg and text.
   */
  function PaletteWrites(palette: seq<Rgb>, luminance: Rgb -> real): (writes: seq<CssWrite>)
    requires |palette| >= 2
    ensures |writes| == 5
    ensures forall i :: 0 <= i < 5 ==> writes[i].name == CSS_NAMES[i]
    ensures writes[0].value == RgbToHex(palette[0]) && writes[1].value == RgbToHex(palette[1])
    ensures writes[2].value == RgbToHex(if |palette| >= 3 then palette[2] else palette[1])
    ensures writes[3].value == RgbToHex(Background(palette[0], luminance))
  {
    var colors := RoleColors(palette, luminance);
    seq(5, i requires 0 <= i < 5 => CssWrite(CSS_NAMES[i], RgbToHex(colors[i])))
  }

  /**
   * An in-range palette yields five well-formed `#rrggbb` values under the
   * five names, the text colour being `#f7f7fb`.
   */
  lemma PaletteWritesHex(palette: seq<Rgb>, luminance: Rgb -> real)
    requires |palette| >= 2
    ensures var writes := PaletteWrites(palette, luminance);
            && writes[4].value == "#f7f7fb"
            && (AllInRange(palette) ==> forall w :: w in writes ==> IsHexColor(w.value))
  {
    var colors := RoleColors(palette, luminance);
    var writes := PaletteWrites(palette, luminance);
    TextColorHex();
    if AllInRange(palette) {
      forall w | w in writes
        ensures IsHexColor(w.value)
      {
        var j :| 0 <= j < 5 && writes[j] == w;
        RgbToHexWellFormed(colors[j]);
      }
    }
  }

  /**
   * `applyPaletteFromLogo` after the image is decoded, on the canvas buffer
   * `data`: the CSS variables it sets, in order, and whether it stops with a
   * TypeError. With no opaque sample nothing is set; with exactly one,
   * `--primary` is set and `rgbToHex(secondary)` then throws on `undefined`;
   * otherwise all five are set.
   */
  method ApplyPaletteFromLogo(data: seq<int>, luminance: Rgb -> real) returns (writes: seq<CssWrite>, threw: bool)
    requires |data| % 4 == 0
    ensures var samples := Samples(data);
            && (|samples| == 0 ==> writes == [] && !threw)
            && (|samples| == 1 ==> threw && writes == [CssWrite("--primary", RgbToHex(samples[0]))])
            && (|samples| >= 2 ==> !threw && writes == PaletteWrites(Palette(samples, luminance), luminance))
    ensures AllBytes(data) ==> forall w :: w in writes ==> IsHexColor(w.value)
  {
    var pixels := SamplePixels(data);
    if |pixels| == 0 {
      return [], false;
    }
    var centroids := KMeans(pixels, CLUSTER_COUNT);
    var palette := SortByLuminance(centroids, luminance);
    PaletteShape(pixels, luminance);
    if AllBytes(data) {
      SamplesInRange(data, 0);
    }
    var primary := palette[0];
    if |palette| < 2 {
      // `secondary` is undefined and rgbToHex destructures it
      writes := [CssWrite("--primary", RgbToHex(primary))];
      threw := true;
      if AllBytes(data) {
        RgbToHexWellFormed(primary);
      }
    } else {
      writes := PaletteWrites(palette, luminance);
      threw := false;
      PaletteWritesHex(palette, luminance);
    }
  }

  // ---------------------------------------------------------------------
  // The counter animation (script.js:96-111)

  /** `Math.max(1, Math.floor(target / 50))`: at least 1, and floor(target / 50) from target 50 on. */
  function CounterStep(target: int): (step: int)
    ensures step >= 1
    ensures target < 100 ==> step == 1
    ensures target >= 50 ==> 50 * step <= target < 50 * step + 50
  {
    Max(1, target / 50)
  }

  /**
   * How many values the counter shows: the multiples of the step below
   * target, then target; so target lies in ((frames - 1) * step, frames * step].
   */
  function FrameCount(target: int): (frames: int)
    ensures frames >= 1
    ensures target > CounterStep(target) ==>
              (frames - 1) * CounterStep(target) < target <= frames * CounterStep(target)
  {
    var step := CounterStep(target);
    if target <= step then 1
    else
      QuotientBounds(target - 1, step);
      (target - 1) / step + 1
  }

  lemma QuotientBounds(a: int, d: int)
    requires d > 0
    ensures d * (a / d) <= a < d * (a / d) + d
  {
    assert a == d * (a / d) + a % d;
  }

  lemma DivUnique(a: int, d: int, q: int)
    requires d > 0 && q * d <= a < (q + 1) * d
    ensures a / d == q
  {
    var r := a / d;
    assert a == d * r + a % d;
    if r > q {
      MulMono(d, q + 1, r);
    } else if r < q {
      MulMono(d, r + 1, q);
    }
  }

  /** The values shown so far: step, 2 * step, ..., each below target, strictly increasing. */
  ghost predicate ShownSoFar(shown: seq<int>, step: int, target: int) {
    && (forall i :: 0 <= i < |shown| ==> shown[i] == (i + 1) * step && shown[i] < target)
    && (forall i, j :: 0 <= i < j < |shown| ==> shown[i] < shown[j])
  }

  lemma ShownPush(shown: seq<int>, step: int, target: int, current: int)
    requires step > 0 && ShownSoFar(shown, step, target)
    requires current == (|shown| + 1) * step < target
    ensures ShownSoFar(shown + [current], step, target)
  {
    var s' := shown + [current];
    forall i, j | 0 <= i < j < |s'|
      ensures s'[i] < s'[j]
    {
      if j == |shown| {
        MulMono(step, i + 1, |shown|);
      }
    }
  }

  /** The tick that reaches target shows target, and that tick is number FrameCount(target). */
  lemma ShownLast(shown: seq<int>, step: int, target: int)
    requires step == CounterStep(target) && ShownSoFar(shown, step, target)
    requires |shown| * step < target || |shown| == 0
    requires (|shown| + 1) * step >= target
    ensures |shown + [target]| == FrameCount(target)
    ensures forall i, j :: 0 <= i < j < |shown + [target]| ==> (shown + [target])[i] < (shown + [target])[j]
  {
    var m := |shown|;
    if target > step {
      assert m * step <= target - 1 && target - 1 < (m + 1) * step;
      DivUnique(target - 1, step, m);
    } else if m > 0 {
      MulMono(step, 1, m);
    }
  }

  /**
   * The values one counter displays, `requestAnimationFrame` replaced by a
   * loop: step, 2 * step, ... while below target, then target itself.
   */
  method AnimateCounter(target: int) returns (shown: seq<int>)
    ensures |shown| == FrameCount(target)
    ensures shown[|shown| - 1] == target
    ensures forall i :: 0 <= i < |shown| - 1 ==> shown[i] == (i + 1) * CounterStep(target) && shown[i] < target
    ensures forall i, j :: 0 <= i < j < |shown| ==> shown[i] < shown[j]
  {
    var current := 0;
    var step := Max(1, target / 50);
    shown := [];
    while true
      invariant current == |shown| * step
      invariant |shown| > 0 ==> current < target
      invariant ShownSoFar(shown, step, target)
      decreases target - current
    {
      current := current + step;
      assert current == (|shown| + 1) * step;
      if current >= target {
        ShownLast(shown, step, target);
        shown := shown + [target];
        break;
      }
      ShownPush(shown, step, target, current);
      shown := shown + [current];
    }
  }

  /** Whatever the target, the animation shows at most 99 values. */
  lemma FrameCountBound(target: int)
    ensures 1 <= FrameCount(target) <= 99
  {
    var step := CounterStep(target);
    if target > step {
      var q := (target - 1) / step;
      assert q * step <= target - 1 by {
        assert target - 1 == step * q + (target - 1) % step;
      }
      if target < 50 {
        assert step == 1;
      } else {
        assert target < 50 * step + 50;
        if q >= 99 {
          MulMono(step, 99, q);
        }
      }
    }
  }

  /** The counter with data-count 100: 2, 4, ..., 98, 100. */
  method CounterToHundred() returns (shown: seq<int>)
    ensures shown == seq(50, i => 2 * (i + 1))
  {
    shown := AnimateCounter(100);
    assert CounterStep(100) == 2 && FrameCount(100) == 50;
  }

  // ---------------------------------------------------------------------
  // The testimonial carousel (script.js:130-139)

  class Carousel {
    /** The `is-active` flag of each testimonial slide, in document order. */
    const slides: array<bool>
    var currentSlide: nat

    ghost predicate Valid()
      reads this
    {
      if slides.Length == 0 then currentSlide == 0 else currentSlide < slides.Length
    }

    ghost function Active(): set<int>
      reads this, slides
    {
      set i | 0 <= i < slides.Length && slides[i]
    }

    /** The slides as the page loads them, with `currentSlide = 0`. */
    constructor (flags: seq<bool>)
      ensures Valid() && fresh(slides)
      ensures slides[..] == flags && currentSlide == 0
    {
      slides := new bool[|flags|](i requires 0 <= i < |flags| => flags[i]);
      currentSlide := 0;
    }

    /** `updateCarousel`: advance modulo the slide count and mark only that slide active. */
    method Update()
      requires Valid()
      modifies this, slides
      ensures Valid()
      ensures slides.Length == 0 ==> currentSlide == old(currentSlide) == 0
      ensures slides.Length > 0 ==> currentSlide == (old(currentSlide) + 1) % slides.Length
      ensures slides.Length > 0 ==> forall i :: 0 <= i < slides.Length ==> slides[i] == (i == currentSlide)
      ensures slides.Length > 0 ==> Active() == {currentSlide}
    {
      if slides.Length == 0 {
        return;
      }
      currentSlide := (currentSlide + 1) % slides.Length;
      var index := 0;
      while index < slides.Length
        modifies slides
        invariant 0 <= index <= slides.Length
        invariant forall j :: 0 <= j < index ==> slides[j] == (j == currentSlide)
      {
        slides[index] := index == currentSlide;
        index := index + 1;
      }
      assert currentSlide in Active();
    }
  }

  /** Four slides: three steps activate slide 3 alone, a fourth wraps to slide 0. */
  method CarouselOfFour() returns (afterThree: nat, flagsAfterThree: seq<bool>, afterFour: nat)
    ensures afterThree == 3 && flagsAfterThree == [false, false, false, true]
    ensures afterFour == 0
  {
    var carousel := new Carousel([true, false, false, false]);
    carousel.Update();
    carousel.Update();
    carousel.Update();
    afterThree := carousel.currentSlide;
    flagsAfterThree := carousel.slides[..];
    carousel.Update();
    afterFour := carousel.currentSlide;
  }
}
