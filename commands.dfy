/**
 * The image commands: the histogram loop of the analysis command and the three
 * per-pixel transforms (brightness, contrast, grayscale).
 *
 * The source does its per-pixel arithmetic in `f32`. That arithmetic is not modelled:
 * each formula is a function parameter, so every property below holds whatever the
 * formula computes.
 *   lum(r, g, b)     the perceptual brightness cast to `usize` (before the clamp to 255)
 *   scale(x)         one channel after the brightness adjustment, already a byte
 *   stretch(x)       one channel after the contrast adjustment, already a byte
 *   gray(r, g, b)    the grayscale value of a pixel, already a byte
 */
module Commands {
  import opened Models
  import opened Slices

  // ---------------------------------------------------------------------------
  // Histogram
  // ---------------------------------------------------------------------------

  /** The four histogram vectors. */
  datatype Channel = Red | Green | Blue | Luminosity

  /** The vector of `histogram` that counts channel `c`. */
  function Vector(histogram: HistogramData, c: Channel): seq<nat>
  {
    match c
    case Red => histogram.red
    case Green => histogram.green
    case Blue => histogram.blue
    case Luminosity => histogram.luminosity
  }

  /** The luminosity bin of a pixel: `lum(r, g, b).min(255)`. */
  function LuminosityBin(lum: (Byte, Byte, Byte) -> nat, r: Byte, g: Byte, b: Byte): (bin: nat)
    ensures bin <= 255
    ensures bin <= lum(r, g, b)
    ensures bin == lum(r, g, b) || bin == 255
    ensures lum(r, g, b) <= 255 ==> bin == lum(r, g, b)
    ensures lum(r, g, b) > 255 ==> bin == 255
  {
    Min(lum(r, g, b), 255)
  }

  /** A chunk is counted when it is a whole pixel whose alpha byte is not zero. */
  predicate Counted(chunk: seq<Byte>)
  {
    |chunk| == 4 && chunk[3] > 0
  }

  /** The bin that a whole pixel increments in the vector of channel `c`; always a valid index. */
  function BinOf(chunk: seq<Byte>, c: Channel, lum: (Byte, Byte, Byte) -> nat): (bin: nat)
    requires |chunk| == 4
    ensures bin < 256
  {
    match c
    case Red => chunk[0]
    case Green => chunk[1]
    case Blue => chunk[2]
    case Luminosity => LuminosityBin(lum, chunk[0], chunk[1], chunk[2])
  }

  /** Whether `chunk` adds one to bin `v` of the vector of channel `c`. */
  predicate Hits(chunk: seq<Byte>, c: Channel, lum: (Byte, Byte, Byte) -> nat, v: nat)
  {
    Counted(chunk) && BinOf(chunk, c, lum) == v
  }

  /** Number of true entries of a mask. */
  function CountTrue(marks: seq<bool>): nat
  {
    if marks == [] then 0
    else CountTrue(marks[..|marks| - 1]) + (if marks[|marks| - 1] then 1 else 0)
  }

  /** Which chunks of `cs` add one to bin `v` of channel `c`. */
  function HitMask(cs: seq<seq<Byte>>, c: Channel, lum: (Byte, Byte, Byte) -> nat, v: nat): seq<bool>
  {
    seq(|cs|, k requires 0 <= k < |cs| => Hits(cs[k], c, lum, v))
  }

  /** How many chunks of `cs` add one to bin `v` of channel `c`. */
  function Tally(cs: seq<seq<Byte>>, c: Channel, lum: (Byte, Byte, Byte) -> nat, v: nat): nat
  {
    CountTrue(HitMask(cs, c, lum, v))
  }

  /** The 256 bins of channel `c` after walking the chunks `cs`. */
  function Bins(cs: seq<seq<Byte>>, c: Channel, lum: (Byte, Byte, Byte) -> nat): (bins: seq<nat>)
    ensures |bins| == 256
  {
    seq(256, v requires 0 <= v < 256 => Tally(cs, c, lum, v))
  }

  /** The histogram the analysis command builds for the RGBA buffer `data`. */
  function Histogram(data: seq<Byte>, lum: (Byte, Byte, Byte) -> nat): HistogramData
  {
    var cs := Chunks(data);
    HistogramData(Bins(cs, Red, lum), Bins(cs, Green, lum), Bins(cs, Blue, lum), Bins(cs, Luminosity, lum))
  }

  /** Number of counted chunks in `cs`. */
  function VisibleCount(cs: seq<seq<Byte>>): nat
  {
    CountTrue(seq(|cs|, k requires 0 <= k < |cs| => Counted(cs[k])))
  }

  /** Number of whole pixels of `data` whose alpha byte is not zero. */
  function VisiblePixels(data: seq<Byte>): nat
  {
    VisibleCount(Chunks(data))
  }

  /** Sum of a vector. */
  function Sum(s: seq<nat>): nat
  {
    if s == [] then 0 else Sum(s[..|s| - 1]) + s[|s| - 1]
  }

  /** Appending an entry to a mask adds one to the count exactly when the entry is true. */
  lemma CountTrueSnoc(marks: seq<bool>, b: bool)
    ensures CountTrue(marks + [b]) == CountTrue(marks) + (if b then 1 else 0)
  {
    assert (marks + [b])[..|marks|] == marks;
  }

  /** Walking one more chunk adds one to exactly the bin it hits, and only if it is counted. */
  lemma BinsStep(cs: seq<seq<Byte>>, x: seq<Byte>, c: Channel, lum: (Byte, Byte, Byte) -> nat)
    ensures Counted(x) ==> Bins(cs + [x], c, lum) == Bins(cs, c, lum)[BinOf(x, c, lum) := Bins(cs, c, lum)[BinOf(x, c, lum)] + 1]
    ensures !Counted(x) ==> Bins(cs + [x], c, lum) == Bins(cs, c, lum)
  {
    forall v | 0 <= v < 256
      ensures Tally(cs + [x], c, lum, v) == Tally(cs, c, lum, v) + (if Hits(x, c, lum, v) then 1 else 0)
    {
      assert HitMask(cs + [x], c, lum, v) == HitMask(cs, c, lum, v) + [Hits(x, c, lum, v)];
      CountTrueSnoc(HitMask(cs, c, lum, v), Hits(x, c, lum, v));
    }
  }

  /** Walking one more chunk adds one to the visible count exactly when it is counted. */
  lemma VisibleCountStep(cs: seq<seq<Byte>>, x: seq<Byte>)
    ensures VisibleCount(cs + [x]) == VisibleCount(cs) + (if Counted(x) then 1 else 0)
  {
    var marks := seq(|cs|, k requires 0 <= k < |cs| => Counted(cs[k]));
    assert seq(|cs| + 1, k requires 0 <= k < |cs| + 1 => Counted((cs + [x])[k])) == marks + [Counted(x)];
    CountTrueSnoc(marks, Counted(x));
  }

  /**
   * The histogram loop of the analysis command: four 256-bin vectors of zeros, then one
   * pass over `data.chunks(4)` that skips short chunks and transparent pixels.
   */
  method ComputeHistogram(data: seq<Byte>, lum: (Byte, Byte, Byte) -> nat) returns (histogram: HistogramData)
    ensures histogram == Histogram(data, lum)
  {
    var red: seq<nat> := seq(256, _ => 0);
    var green: seq<nat> := seq(256, _ => 0);
    var blue: seq<nat> := seq(256, _ => 0);
    var luminosity: seq<nat> := seq(256, _ => 0);
    ghost var cs := Chunks(data);
    ChunksAt(data, 0);
    var count := (|data| + 3) / 4;
    var k := 0;
    while k < count
      invariant 0 <= k <= count
      invariant red == Bins(cs[..k], Red, lum)
      invariant green == Bins(cs[..k], Green, lum)
      invariant blue == Bins(cs[..k], Blue, lum)
      invariant luminosity == Bins(cs[..k], Luminosity, lum)
    {
      var chunk := data[4 * k .. Min(4 * k + 4, |data|)];
      ChunksAt(data, k);
      assert cs[..k + 1] == cs[..k] + [chunk];
      BinsStep(cs[..k], chunk, Red, lum);
      BinsStep(cs[..k], chunk, Green, lum);
      BinsStep(cs[..k], chunk, Blue, lum);
      BinsStep(cs[..k], chunk, Luminosity, lum);
      if |chunk| == 4 {
        var r, g, b, a := chunk[0], chunk[1], chunk[2], chunk[3];
        if a > 0 {
          red := red[r := red[r] + 1];
          green := green[g := green[g] + 1];
          blue := blue[b := blue[b] + 1];
          var bin := Min(lum(r, g, b), 255);
          luminosity := luminosity[bin := luminosity[bin] + 1];
        }
      }
      k := k + 1;
    }
    assert cs[..k] == cs;
    histogram := HistogramData(red, green, blue, luminosity);
  }

  // ---------------------------------------------------------------------------
  // Properties of the histogram
  // ---------------------------------------------------------------------------

  /** Appending one chunk's worth of bytes to a four-aligned buffer appends exactly that chunk. */
  lemma ChunksSnoc(data: seq<Byte>, x: seq<Byte>)
    requires |data| % 4 == 0 && 0 < |x| <= 4
    ensures Chunks(data + x) == Chunks(data) + [x]
  {
    ChunksAppend(data, x);
  }

  /** A buffer too short to hold one pixel leaves all four vectors at 256 zeros. */
  lemma HistogramOfShortBuffer(data: seq<Byte>, lum: (Byte, Byte, Byte) -> nat, c: Channel)
    requires |data| < 4
    ensures Vector(Histogram(data, lum), c) == seq(256, _ => 0)
  {
    if data != [] {
      assert Chunks(data) == [] + [data];
      BinsStep([], data, c, lum);
    }
  }

  /** A trailing partial chunk changes no bin. */
  lemma PartialChunkIgnored(data: seq<Byte>, tail: seq<Byte>, lum: (Byte, Byte, Byte) -> nat)
    requires |data| % 4 == 0 && 0 < |tail| < 4
    ensures Histogram(data + tail, lum) == Histogram(data, lum)
  {
    ChunksSnoc(data, tail);
    var cs := Chunks(data);
    BinsStep(cs, tail, Red, lum);
    BinsStep(cs, tail, Green, lum);
    BinsStep(cs, tail, Blue, lum);
    BinsStep(cs, tail, Luminosity, lum);
  }

  /** A fully transparent pixel changes no bin. */
  lemma TransparentPixelIgnored(data: seq<Byte>, r: Byte, g: Byte, b: Byte, lum: (Byte, Byte, Byte) -> nat)
    requires |data| % 4 == 0
    ensures Histogram(data + [r, g, b, 0], lum) == Histogram(data, lum)
  {
    var px: seq<Byte> := [r, g, b, 0];
    ChunksSnoc(data, px);
    var cs := Chunks(data);
    BinsStep(cs, px, Red, lum);
    BinsStep(cs, px, Green, lum);
    BinsStep(cs, px, Blue, lum);
    BinsStep(cs, px, Luminosity, lum);
  }

  /**
   * A pixel that is not fully transparent adds one to bin r of red, g of green, b of blue
   * and min(lum(r, g, b), 255) of luminosity, and changes nothing else.
   */
  lemma VisiblePixelCounted(data: seq<Byte>, r: Byte, g: Byte, b: Byte, a: Byte, lum: (Byte, Byte, Byte) -> nat)
    requires |data| % 4 == 0 && a > 0
    ensures var h, h' := Histogram(data, lum), Histogram(data + [r, g, b, a], lum);
      var l := LuminosityBin(lum, r, g, b);
      && h'.red == h.red[r := h.red[r] + 1]
      && h'.green == h.green[g := h.green[g] + 1]
      && h'.blue == h.blue[b := h.blue[b] + 1]
      && h'.luminosity == h.luminosity[l := h.luminosity[l] + 1]
  {
    var px: seq<Byte> := [r, g, b, a];
    ChunksSnoc(data, px);
    var cs := Chunks(data);
    BinsStep(cs, px, Red, lum);
    BinsStep(cs, px, Green, lum);
    BinsStep(cs, px, Blue, lum);
    BinsStep(cs, px, Luminosity, lum);
  }

  /** Whole pixel k of `data`: bytes 4k to 4k + 3. */
  function PixelAt(data: seq<Byte>, k: nat): (px: seq<Byte>)
    requires k < |data| / 4
    ensures |px| == 4
  {
    data[4 * k .. 4 * k + 4]
  }

  /** Indices of the whole pixels of `data` that add one to bin v of channel c. */
  function PixelsInBin(data: seq<Byte>, c: Channel, lum: (Byte, Byte, Byte) -> nat, v: nat): set<nat>
  {
    set k: nat | k < |data| / 4 && Hits(PixelAt(data, k), c, lum, v)
  }

  /** Indices of the whole pixels of `data` whose alpha byte is not zero. */
  function VisibleSet(data: seq<Byte>): set<nat>
  {
    set k: nat | k < |data| / 4 && PixelAt(data, k)[3] > 0
  }

  /** CountTrue counts the positions of the mask that hold true. */
  lemma {:induction false} CountTrueAsSet(marks: seq<bool>)
    ensures CountTrue(marks) == |set k: nat | k < |marks| && marks[k]|
  {
    if marks != [] {
      var n := |marks| - 1;
      var prefix := marks[..n];
      CountTrueAsSet(prefix);
      var before := set k: nat | k < n && prefix[k];
      var after := set k: nat | k < |marks| && marks[k];
      var last := if marks[n] then {n} else {};
      assert after == before + last;
      assert before !! last;
    }
  }

  /** Tally counts the positions of `cs` that hit the bin. */
  lemma TallyAsSet(cs: seq<seq<Byte>>, c: Channel, lum: (Byte, Byte, Byte) -> nat, v: nat)
    ensures Tally(cs, c, lum, v) == |set k: nat | k < |cs| && Hits(cs[k], c, lum, v)|
  {
    var marks := HitMask(cs, c, lum, v);
    CountTrueAsSet(marks);
    assert (set k: nat | k < |marks| && marks[k]) == set k: nat | k < |cs| && Hits(cs[k], c, lum, v);
  }

  /** VisibleCount counts the positions of `cs` that hold a counted chunk. */
  lemma VisibleCountAsSet(cs: seq<seq<Byte>>)
    ensures VisibleCount(cs) == |set k: nat | k < |cs| && Counted(cs[k])|
  {
    var marks := seq(|cs|, k requires 0 <= k < |cs| => Counted(cs[k]));
    CountTrueAsSet(marks);
    assert (set k: nat | k < |marks| && marks[k]) == set k: nat | k < |cs| && Counted(cs[k]);
  }

  /**
   * Bin v of each vector is the number of whole pixels with a non-zero alpha byte whose
   * red byte (green byte, blue byte, clamped luminosity) is v.
   */
  lemma BinIsPixelCount(data: seq<Byte>, c: Channel, lum: (Byte, Byte, Byte) -> nat, v: nat)
    requires v < 256
    ensures Vector(Histogram(data, lum), c)[v] == |PixelsInBin(data, c, lum, v)|
  {
    var cs := Chunks(data);
    ChunksAt(data, 0);
    TallyAsSet(cs, c, lum, v);
    forall k: nat
      ensures (k < |cs| && Hits(cs[k], c, lum, v)) <==> (k < |data| / 4 && Hits(PixelAt(data, k), c, lum, v))
    {
      ChunksAt(data, k);
    }
    assert (set k: nat | k < |cs| && Hits(cs[k], c, lum, v)) == PixelsInBin(data, c, lum, v);
  }

  /** VisiblePixels counts the whole pixels whose alpha byte is not zero. */
  lemma VisiblePixelsAsSet(data: seq<Byte>)
    ensures VisiblePixels(data) == |VisibleSet(data)|
  {
    var cs := Chunks(data);
    ChunksAt(data, 0);
    VisibleCountAsSet(cs);
    forall k: nat
      ensures (k < |cs| && Counted(cs[k])) <==> (k < |data| / 4 && PixelAt(data, k)[3] > 0)
    {
      ChunksAt(data, k);
    }
    assert (set k: nat | k < |cs| && Counted(cs[k])) == VisibleSet(data);
  }

  /** Adding one to an element adds one to the sum. */
  lemma {:induction false} SumIncrement(s: seq<nat>, i: nat)
    requires i < |s|
    ensures Sum(s[i := s[i] + 1]) == Sum(s) + 1
  {
    var n := |s| - 1;
    if i == n {
      assert s[i := s[i] + 1][..n] == s[..n];
    } else {
      assert s[i := s[i] + 1][..n] == s[..n][i := s[i] + 1];
      SumIncrement(s[..n], i);
    }
  }

  /** A vector of zeros sums to zero. */
  lemma {:induction false} SumZeros(s: seq<nat>)
    requires forall i :: 0 <= i < |s| ==> s[i] == 0
    ensures Sum(s) == 0
  {
    if s != [] {
      SumZeros(s[..|s| - 1]);
    }
  }

  /** No element exceeds the sum. */
  lemma {:induction false} ElementAtMostSum(s: seq<nat>, i: nat)
    requires i < |s|
    ensures s[i] <= Sum(s)
  {
    if i < |s| - 1 {
      ElementAtMostSum(s[..|s| - 1], i);
    }
  }

  /** Every counted chunk lands in exactly one bin of each vector. */
  lemma {:induction false} SumBins(cs: seq<seq<Byte>>, c: Channel, lum: (Byte, Byte, Byte) -> nat)
    ensures Sum(Bins(cs, c, lum)) == VisibleCount(cs)
  {
    if cs == [] {
      SumZeros(Bins(cs, c, lum));
    } else {
      var n := |cs| - 1;
      var x := cs[n];
      assert cs == cs[..n] + [x];
      SumBins(cs[..n], c, lum);
      BinsStep(cs[..n], x, c, lum);
      VisibleCountStep(cs[..n], x);
      if Counted(x) {
        SumIncrement(Bins(cs[..n], c, lum), BinOf(x, c, lum));
      }
    }
  }

  /** The four vectors have the same total: the number of whole, not fully transparent pixels. */
  lemma HistogramSums(data: seq<Byte>, lum: (Byte, Byte, Byte) -> nat, c: Channel)
    ensures Sum(Vector(Histogram(data, lum), c)) == |VisibleSet(data)|
  {
    SumBins(Chunks(data), c, lum);
    VisiblePixelsAsSet(data);
  }

  /** At most one visible pixel per whole chunk. */
  lemma VisibleSetBound(data: seq<Byte>)
    ensures |VisibleSet(data)| <= |data| / 4
  {
    BelowBound(VisibleSet(data), |data| / 4);
  }

  /** A set of naturals all below n has at most n elements. */
  lemma {:induction false} BelowBound(s: set<nat>, n: nat)
    requires forall k :: k in s ==> k < n
    ensures |s| <= n
  {
    if n > 0 {
      BelowBound(s - {n - 1}, n - 1);
    } else {
      assert s == {};
    }
  }

  /** The source's `u32` bins cannot overflow on a buffer of fewer than 2^34 bytes. */
  lemma CountersFitU32(data: seq<Byte>, lum: (Byte, Byte, Byte) -> nat, c: Channel, v: nat)
    requires |data| < 4 * U32_LIMIT && v < 256
    ensures Vector(Histogram(data, lum), c)[v] <= |data| / 4 < U32_LIMIT
  {
    HistogramSums(data, lum, c);
    ElementAtMostSum(Vector(Histogram(data, lum), c), v);
    VisibleSetBound(data);
  }

  // ---------------------------------------------------------------------------
  // Per-pixel transforms
  // ---------------------------------------------------------------------------

  /** Position i of an n-byte buffer is a colour byte: bytes 0, 1 or 2 of a whole chunk. */
  predicate IsColorByte(n: nat, i: nat)
  {
    i < n / 4 * 4 && i % 4 != 3
  }

  /**
   * The buffer after `chunks_exact_mut(4)` has replaced bytes 0, 1 and 2 of every whole
   * chunk x by f(x); the alpha bytes and a trailing partial chunk are left as they are.
   */
  function MapColor(data: seq<Byte>, f: Byte -> Byte): (mapped: seq<Byte>)
    ensures |mapped| == |data|
    decreases |data|
  {
    if |data| < 4 then data
    else [f(data[0]), f(data[1]), f(data[2]), data[3]] + MapColor(data[4..], f)
  }

  /**
   * The buffer after `chunks_exact_mut(4)` has set bytes 0, 1 and 2 of every whole chunk
   * to gray of that chunk's original red, green and blue bytes.
   */
  function Grayscale(data: seq<Byte>, gray: (Byte, Byte, Byte) -> Byte): (grayed: seq<Byte>)
    ensures |grayed| == |data|
    decreases |data|
  {
    if |data| < 4 then data
    else
      var v := gray(data[0], data[1], data[2]);
      [v, v, v, data[3]] + Grayscale(data[4..], gray)
  }

  /** Byte by byte: only the colour bytes change, and each becomes f of its old value. */
  lemma {:induction false} MapColorAt(data: seq<Byte>, f: Byte -> Byte)
    ensures forall i :: 0 <= i < |data| && !IsColorByte(|data|, i) ==> MapColor(data, f)[i] == data[i]
    ensures forall i :: 0 <= i < |data| && IsColorByte(|data|, i) ==> MapColor(data, f)[i] == f(data[i])
    decreases |data|
  {
    if |data| >= 4 {
      var rest := data[4..];
      MapColorAt(rest, f);
      forall i | 4 <= i < |data|
        ensures IsColorByte(|data|, i) == IsColorByte(|rest|, i - 4)
        ensures MapColor(data, f)[i] == MapColor(rest, f)[i - 4] && data[i] == rest[i - 4]
      {
      }
    }
  }

  /** Grayscale leaves the alpha bytes and a trailing partial chunk as they are. */
  lemma {:induction false} GrayscaleKeeps(data: seq<Byte>, gray: (Byte, Byte, Byte) -> Byte)
    ensures forall i :: 0 <= i < |data| && !IsColorByte(|data|, i) ==> Grayscale(data, gray)[i] == data[i]
    decreases |data|
  {
    if |data| >= 4 {
      var rest := data[4..];
      GrayscaleKeeps(rest, gray);
      forall i | 4 <= i < |data|
        ensures IsColorByte(|data|, i) == IsColorByte(|rest|, i - 4)
        ensures Grayscale(data, gray)[i] == Grayscale(rest, gray)[i - 4] && data[i] == rest[i - 4]
      {
      }
    }
  }

  /** Grayscale sets the three colour bytes of each whole pixel to gray of its original colour bytes. */
  lemma {:induction false} GrayscalePixels(data: seq<Byte>, gray: (Byte, Byte, Byte) -> Byte)
    ensures forall k :: 0 <= k < |data| / 4 ==>
      var px := PixelAt(data, k);
      var v := gray(px[0], px[1], px[2]);
      PixelAt(Grayscale(data, gray), k) == [v, v, v, px[3]]
    decreases |data|
  {
    if |data| >= 4 {
      var rest := data[4..];
      GrayscalePixels(rest, gray);
      var out := Grayscale(data, gray);
      assert out[4..] == Grayscale(rest, gray);
      forall k | 1 <= k < |data| / 4
        ensures PixelAt(out, k) == PixelAt(Grayscale(rest, gray), k - 1)
        ensures PixelAt(data, k) == PixelAt(rest, k - 1)
      {
        assert PixelAt(out, k) == out[4..][4 * k - 4 .. 4 * k];
        assert PixelAt(data, k) == rest[4 * k - 4 .. 4 * k];
      }
    }
  }

  /** Grayscale works chunk by chunk, so it splits at any four-aligned point. */
  lemma {:induction false} GrayscaleAppend(p: seq<Byte>, q: seq<Byte>, gray: (Byte, Byte, Byte) -> Byte)
    requires |p| % 4 == 0
    ensures Grayscale(p + q, gray) == Grayscale(p, gray) + Grayscale(q, gray)
    decreases |p|
  {
    if |p| == 0 {
      assert p + q == q;
    } else {
      assert (p + q)[4..] == p[4..] + q;
      GrayscaleAppend(p[4..], q, gray);
    }
  }

  /** The chunks_exact_mut loop of the brightness and contrast commands, on the cloned buffer. */
  method MapColorInPlace(a: array<Byte>, f: Byte -> Byte)
    modifies a
    ensures a[..] == MapColor(old(a[..]), f)
  {
    var whole := a.Length / 4;
    var k := 0;
    while k < whole
      invariant 0 <= k <= whole
      invariant forall i :: 0 <= i < a.Length && i < 4 * k && i % 4 != 3 ==> a[i] == f(old(a[i]))
      invariant forall i :: 0 <= i < a.Length && !(i < 4 * k && i % 4 != 3) ==> a[i] == old(a[i])
    {
      a[4 * k] := f(a[4 * k]);
      a[4 * k + 1] := f(a[4 * k + 1]);
      a[4 * k + 2] := f(a[4 * k + 2]);
      k := k + 1;
    }
    MapColorAt(old(a[..]), f);
  }

  /** Writing v over the first three bytes of chunk k, for a buffer whose first k chunks are `done`. */
  lemma SetColorBytes(done: seq<Byte>, todo: seq<Byte>, v: Byte)
    requires |todo| >= 4
    ensures done + [v, v, v, todo[3]] + todo[4..]
      == (done + todo)[|done| := v][|done| + 1 := v][|done| + 2 := v]
  {
    var n := |done|;
    var lhs := done + [v, v, v, todo[3]] + todo[4..];
    var rhs := (done + todo)[n := v][n + 1 := v][n + 2 := v];
    forall i | 0 <= i < |lhs|
      ensures lhs[i] == rhs[i]
    {
      if i >= n + 4 {
        assert lhs[i] == todo[4..][i - n - 4] == todo[i - n];
      }
    }
  }

  /** One step of the grayscale loop: converting whole chunk k of a buffer done up to chunk k. */
  lemma GrayscaleStep(original: seq<Byte>, k: nat, gray: (Byte, Byte, Byte) -> Byte)
    requires 4 * k + 4 <= |original|
    ensures var v := gray(original[4 * k], original[4 * k + 1], original[4 * k + 2]);
      Grayscale(original[..4 * k + 4], gray) + original[4 * k + 4..]
      == (Grayscale(original[..4 * k], gray) + original[4 * k..])[4 * k := v][4 * k + 1 := v][4 * k + 2 := v]
  {
    var v := gray(original[4 * k], original[4 * k + 1], original[4 * k + 2]);
    var done, px, todo := original[..4 * k], original[4 * k .. 4 * k + 4], original[4 * k..];
    assert (4 * k) % 4 == 0;
    assert px[0] == original[4 * k] && px[1] == original[4 * k + 1] && px[2] == original[4 * k + 2];
    assert Grayscale(px, gray) == [v, v, v, px[3]] + Grayscale([], gray);
    assert todo[3] == px[3] && todo[4..] == original[4 * k + 4..];
    calc {
      Grayscale(original[..4 * k + 4], gray) + original[4 * k + 4..];
      { assert original[..4 * k + 4] == done + px; }
      Grayscale(done + px, gray) + original[4 * k + 4..];
      { GrayscaleAppend(done, px, gray); }
      Grayscale(done, gray) + [v, v, v, todo[3]] + todo[4..];
      { SetColorBytes(Grayscale(done, gray), todo, v); }
      (Grayscale(done, gray) + todo)[4 * k := v][4 * k + 1 := v][4 * k + 2 := v];
    }
  }

  /** The chunks_exact_mut loop of the grayscale command, on the cloned buffer. */
  method GrayscaleInPlace(a: array<Byte>, gray: (Byte, Byte, Byte) -> Byte)
    modifies a
    ensures a[..] == Grayscale(old(a[..]), gray)
  {
    ghost var original := a[..];
    var whole := a.Length / 4;
    var k := 0;
    while k < whole
      invariant 0 <= k <= whole
      invariant a[..] == Grayscale(original[..4 * k], gray) + original[4 * k..]
    {
      GrayscaleStep(original, k, gray);
      var v := gray(a[4 * k], a[4 * k + 1], a[4 * k + 2]);
      a[4 * k] := v;
      a[4 * k + 1] := v;
      a[4 * k + 2] := v;
      k := k + 1;
    }
    assert original == original[..4 * k] + original[4 * k..];
    GrayscaleAppend(original[..4 * k], original[4 * k..], gray);
  }

  /** `image_data.data.clone()`: a fresh array holding the buffer. */
  method Clone(data: seq<Byte>) returns (a: array<Byte>)
    ensures fresh(a) && a[..] == data
  {
    a := new Byte[|data|](i requires 0 <= i < |data| => data[i]);
  }

  /**
   * The brightness command. `scale` is the per-channel formula (the channel times the
   * amount, capped at 255, cast to a byte). Width, height and format are carried over.
   */
  method AdjustBrightness(image: ImageData, scale: Byte -> Byte) returns (result: Result<ImageData>)
    ensures result.Ok?
    ensures result.value == image.(data := MapColor(image.data, scale))
  {
    var adjusted := Clone(image.data);
    MapColorInPlace(adjusted, scale);
    result := Ok(image.(data := adjusted[..]));
  }

  /**
   * The contrast command. `stretch` is the per-channel formula (the distance from 128
   * times the amount, plus 128, capped at 255, cast to a byte). Width, height and format
   * are carried over.
   */
  method AdjustContrast(image: ImageData, stretch: Byte -> Byte) returns (result: Result<ImageData>)
    ensures result.Ok?
    ensures result.value == image.(data := MapColor(image.data, stretch))
  {
    var adjusted := Clone(image.data);
    MapColorInPlace(adjusted, stretch);
    result := Ok(image.(data := adjusted[..]));
  }

  /**
   * The grayscale command. `gray` is the weighted sum of a pixel's colour bytes cast to a
   * byte. Width, height and format are carried over.
   */
  method ConvertToGrayscale(image: ImageData, gray: (Byte, Byte, Byte) -> Byte) returns (result: Result<ImageData>)
    ensures result.Ok?
    ensures result.value == image.(data := Grayscale(image.data, gray))
  {
    var adjusted := Clone(image.data);
    GrayscaleInPlace(adjusted, gray);
    result := Ok(image.(data := adjusted[..]));
  }

  // ---------------------------------------------------------------------------
  // Properties of the transforms
  // ---------------------------------------------------------------------------

  /** MapColor sends each whole pixel (r, g, b, a) to (f(r), f(g), f(b), a). */
  lemma {:induction false} MapColorPixels(data: seq<Byte>, f: Byte -> Byte)
    ensures forall k :: 0 <= k < |data| / 4 ==>
      var px := PixelAt(data, k);
      PixelAt(MapColor(data, f), k) == [f(px[0]), f(px[1]), f(px[2]), px[3]]
    decreases |data|
  {
    if |data| >= 4 {
      var rest := data[4..];
      MapColorPixels(rest, f);
      var out := MapColor(data, f);
      assert out[4..] == MapColor(rest, f);
      forall k | 1 <= k < |data| / 4
        ensures PixelAt(out, k) == PixelAt(MapColor(rest, f), k - 1)
        ensures PixelAt(data, k) == PixelAt(rest, k - 1)
      {
        assert PixelAt(out, k) == out[4..][4 * k - 4 .. 4 * k];
        assert PixelAt(data, k) == rest[4 * k - 4 .. 4 * k];
      }
    }
  }

  /** Two adjustments in a row are one adjustment by the composed channel map. */
  lemma {:induction false} MapColorCompose(data: seq<Byte>, f: Byte -> Byte, g: Byte -> Byte)
    ensures MapColor(MapColor(data, f), g) == MapColor(data, x => g(f(x)))
    decreases |data|
  {
    if |data| >= 4 {
      var mid := MapColor(data, f);
      assert mid[4..] == MapColor(data[4..], f);
      MapColorCompose(data[4..], f, g);
    }
  }

  /** A channel map that changes no value leaves the buffer as it is. */
  lemma {:induction false} MapColorIdentity(data: seq<Byte>, f: Byte -> Byte)
    requires forall x :: f(x) == x
    ensures MapColor(data, f) == data
    decreases |data|
  {
    if |data| >= 4 {
      MapColorIdentity(data[4..], f);
      assert [f(data[0]), f(data[1]), f(data[2]), data[3]] == data[..4];
      assert data == data[..4] + data[4..];
    }
  }

  /** Every whole pixel of `data` has equal red, green and blue bytes. */
  predicate IsGray(data: seq<Byte>)
  {
    forall k :: 0 <= k < |data| / 4 ==> PixelAt(data, k)[0] == PixelAt(data, k)[1] == PixelAt(data, k)[2]
  }

  /** The grayscale command leaves every whole pixel gray. */
  lemma GrayscaleIsGray(data: seq<Byte>, gray: (Byte, Byte, Byte) -> Byte)
    ensures IsGray(Grayscale(data, gray))
  {
    GrayscalePixels(data, gray);
  }

  /** Adjusting brightness or contrast keeps a gray image gray. */
  lemma MapColorKeepsGray(data: seq<Byte>, f: Byte -> Byte)
    requires IsGray(data)
    ensures IsGray(MapColor(data, f))
  {
    MapColorPixels(data, f);
  }

  /** In a gray image the red, green and blue vectors of the histogram are identical. */
  lemma GrayHistogram(data: seq<Byte>, lum: (Byte, Byte, Byte) -> nat)
    requires IsGray(data)
    ensures var h := Histogram(data, lum); h.red == h.green == h.blue
  {
    var h := Histogram(data, lum);
    forall v | 0 <= v < 256
      ensures h.red[v] == h.green[v] == h.blue[v]
    {
      BinIsPixelCount(data, Red, lum, v);
      BinIsPixelCount(data, Green, lum, v);
      BinIsPixelCount(data, Blue, lum, v);
      assert PixelsInBin(data, Red, lum, v) == PixelsInBin(data, Green, lum, v) == PixelsInBin(data, Blue, lum, v);
    }
  }

  /** The buffers share their length and the alpha byte of every whole pixel. */
  predicate SameAlpha(a: seq<Byte>, b: seq<Byte>)
  {
    |a| == |b| && forall k :: 0 <= k < |a| / 4 ==> PixelAt(a, k)[3] == PixelAt(b, k)[3]
  }

  /** Buffers with the same alpha bytes have histograms of the same total. */
  lemma SameAlphaSameTotal(a: seq<Byte>, b: seq<Byte>, lum: (Byte, Byte, Byte) -> nat, c: Channel)
    requires SameAlpha(a, b)
    ensures Sum(Vector(Histogram(a, lum), c)) == Sum(Vector(Histogram(b, lum), c))
  {
    HistogramSums(a, lum, c);
    HistogramSums(b, lum, c);
    assert VisibleSet(a) == VisibleSet(b);
  }

  /** None of the three transforms changes how many pixels the histogram counts. */
  lemma TransformsKeepHistogramTotal(data: seq<Byte>, f: Byte -> Byte, gray: (Byte, Byte, Byte) -> Byte,
                                     lum: (Byte, Byte, Byte) -> nat, c: Channel)
    ensures Sum(Vector(Histogram(MapColor(data, f), lum), c)) == Sum(Vector(Histogram(data, lum), c))
    ensures Sum(Vector(Histogram(Grayscale(data, gray), lum), c)) == Sum(Vector(Histogram(data, lum), c))
  {
    MapColorPixels(data, f);
    SameAlphaSameTotal(MapColor(data, f), data, lum, c);
    GrayscalePixels(data, gray);
    SameAlphaSameTotal(Grayscale(data, gray), data, lum, c);
  }

  /** A whole pixel of the adjusted buffer hits bin v exactly when f maps the original byte to v. */
  lemma MapColorHits(data: seq<Byte>, f: Byte -> Byte, lum: (Byte, Byte, Byte) -> nat, c: Channel, v: nat, k: nat)
    requires c != Luminosity && k < |data| / 4
    ensures Hits(PixelAt(MapColor(data, f), k), c, lum, v)
      <==> PixelAt(data, k)[3] > 0 && f(BinOf(PixelAt(data, k), c, lum)) == v
  {
    MapColorPixels(data, f);
    var px := PixelAt(data, k);
    assert PixelAt(MapColor(data, f), k) == [f(px[0]), f(px[1]), f(px[2]), px[3]];
  }

  /** The pixels of the adjusted buffer in bin v, described on the original buffer. */
  function MappedPixelsInBin(data: seq<Byte>, f: Byte -> Byte, lum: (Byte, Byte, Byte) -> nat, c: Channel, v: nat): set<nat>
  {
    set k: nat | k < |data| / 4 && PixelAt(data, k)[3] > 0 && f(BinOf(PixelAt(data, k), c, lum)) == v
  }

  /** The same pixels fall in bin v before and after adjusting, as seen through f. */
  lemma MapColorPixelsInBin(data: seq<Byte>, f: Byte -> Byte, lum: (Byte, Byte, Byte) -> nat, c: Channel, v: nat)
    requires c != Luminosity
    ensures PixelsInBin(MapColor(data, f), c, lum, v) == MappedPixelsInBin(data, f, lum, c, v)
  {
    forall k: nat | k < |data| / 4
      ensures Hits(PixelAt(MapColor(data, f), k), c, lum, v)
        <==> PixelAt(data, k)[3] > 0 && f(BinOf(PixelAt(data, k), c, lum)) == v
    {
      MapColorHits(data, f, lum, c, v, k);
    }
  }

  /**
   * After the brightness or contrast command, bin v of the red vector counts the visible
   * pixels whose original red byte f maps to v (likewise green and blue).
   */
  lemma MapColorHistogram(data: seq<Byte>, f: Byte -> Byte, lum: (Byte, Byte, Byte) -> nat, c: Channel, v: nat)
    requires c != Luminosity && v < 256
    ensures Vector(Histogram(MapColor(data, f), lum), c)[v] == |MappedPixelsInBin(data, f, lum, c, v)|
  {
    BinIsPixelCount(MapColor(data, f), c, lum, v);
    MapColorPixelsInBin(data, f, lum, c, v);
  }
}
