/** The two visual aids of image steganography: the difference map between a carrier and its
    stego image, and the enhanced view that paints every colour channel whose low bits are set
    white. Both build a fresh RGBA buffer of the original's length with alpha 255; the buffer
    is a `Uint8ClampedArray`, filled with zeros, that clamps what is stored into 0..255. */
module ImageView {
  import opened Bits
  import opened Wrappers
  import opened Image

  /** A store into a `Uint8ClampedArray`, for an integer value. */
  function ClampByte(v: int): Byte
  {
    if v < 0 then 0 else if v > 255 then 255 else v
  }

  function Distance(a: Byte, b: Byte): nat
  {
    if a < b then b - a else a - b
  }

  // ---------------------------------------------------------------------------------------
  // Difference map

  /** `d * k`, as `d` additions of `k`. */
  function Amplified(d: nat, k: int): int
  {
    if d == 0 then 0 else Amplified(d - 1, k) + k
  }

  lemma {:induction false} AmplifiedIsProduct(d: nat, k: int)
    ensures Amplified(d, k) == d * k
  {
    if d > 0 {
      AmplifiedIsProduct(d - 1, k);
      assert d * k == (d - 1) * k + k;
    }
  }

  /** A colour channel of the difference map: the distance between the two values, times the
      amplification, capped at 255 and never negative. */
  function DiffChannel(o: Byte, s: Byte, amplification: int): Byte
  {
    var d := Amplified(Distance(o, s), amplification);
    if d < 0 then 0 else Min(255, d)
  }

  /** The difference map's buffer for two buffers of the same length. */
  function Differences(o: seq<Byte>, s: seq<Byte>, amplification: int): (r: seq<Byte>)
    requires |s| == |o|
    ensures |r| == |o|
  {
    seq(|o|, x requires 0 <= x < |o| =>
      if x % 4 == 3 then 255 else DiffChannel(o[x], s[x], amplification))
  }

  /** `generateDifferenceMap(original, stego, amplification)`: images of different sizes are
      refused; otherwise each colour channel shows its amplified difference. */
  method DifferenceMap(original: ImageData, stego: ImageData, amplification: int)
    returns (r: Result<ImageData>)
    requires ValidImage(original) && ValidImage(stego)
    ensures original.width != stego.width || original.height != stego.height
            ==> r == Err(SizeMismatch)
    ensures original.width == stego.width && original.height == stego.height
            ==> |stego.data| == |original.data|
                && r == Ok(ImageData(original.width, original.height,
                                     Differences(original.data, stego.data, amplification)))
  {
    if original.width != stego.width || original.height != stego.height {
      return Err(SizeMismatch);
    }
    var o, s := original.data, stego.data;
    var n := |o|;
    WholePixels(original);
    SameSize(original, stego);
    var diff := new Byte[n](_ => 0);
    FillDifferences(diff, o, s, amplification);
    return Ok(ImageData(original.width, original.height, diff[..]));
  }

  /** The loop of `generateDifferenceMap`, pixel by pixel over a buffer of the original's
      length. */
  method FillDifferences(diff: array<Byte>, o: seq<Byte>, s: seq<Byte>, amplification: int)
    requires diff.Length == |o| == |s| && |o| % 4 == 0
    modifies diff
    ensures diff[..] == Differences(o, s, amplification)
  {
    ghost var target := Differences(o, s, amplification);
    var n := |o|;
    var i := 0;
    while i < n
      invariant 0 <= i <= n && i % 4 == 0
      invariant forall x :: 0 <= x < i ==> diff[x] == target[x]
    {
      diff[i] := DiffByte(o[i], s[i], amplification);
      diff[i + 1] := DiffByte(o[i + 1], s[i + 1], amplification);
      diff[i + 2] := DiffByte(o[i + 2], s[i + 2], amplification);
      diff[i + 3] := 255;
      i := i + 4;
    }
    assert diff[..] == target;
  }

  /** One colour channel of `generateDifferenceMap`. */
  method DiffByte(o: Byte, s: Byte, amplification: int) returns (v: Byte)
    ensures v == DiffChannel(o, s, amplification)
  {
    var d := Distance(o, s) * amplification;
    AmplifiedIsProduct(Distance(o, s), amplification);
    v := ClampByte(Min(255, d));
  }

  /** A channel of the map is black exactly where the two images agree, for a positive
      amplification, and white once the amplified difference reaches 255. */
  lemma {:induction false} DiffChannelMeaning(o: Byte, s: Byte, amplification: int)
    requires amplification > 0
    ensures DiffChannel(o, s, amplification) == 0 <==> o == s
    ensures DiffChannel(o, s, amplification) == 255 <==> Distance(o, s) * amplification >= 255
  {
    AmplifiedIsProduct(Distance(o, s), amplification);
    if o != s {
      MulLe(amplification, 1, Distance(o, s));
    }
  }

  /** Swapping the two images gives the same map. */
  lemma {:induction false} DifferencesSymmetric(o: seq<Byte>, s: seq<Byte>, amplification: int)
    requires |s| == |o|
    ensures Differences(o, s, amplification) == Differences(s, o, amplification)
  {
  }

  /** An image compared with itself gives a black, opaque map. */
  lemma {:induction false} DifferencesOfSame(o: seq<Byte>, amplification: int)
    ensures forall x :: 0 <= x < |o| ==>
              Differences(o, o, amplification)[x] == if x % 4 == 3 then 255 else 0
  {
  }

  /** Against the carrier it was written into, a stego buffer differs only in the channels
      that received bits, and there by less than `2^b` before amplification. */
  lemma {:induction false} DifferencesOfEmbedded(data: seq<Byte>, bits: seq<Bit>, b: nat, amplification: nat,
                              x: nat)
    requires 1 <= b <= 3 && x < |data|
    ensures var d := Differences(data, Embedded(data, bits, b), amplification);
            if x % 4 == 3 then d[x] == 255
            else if ChannelAt(x) * b >= |bits| then d[x] == 0
            else d[x] <= (Pow2(b) - 1) * amplification
  {
    var e := Embedded(data, bits, b);
    EmbeddedKeepsHighBits(data, bits, b, x);
    if x % 4 != 3 && ChannelAt(x) * b < |bits| {
      SameHighBits(data[x], e[x], b);
      DiffChannelBound(data[x], e[x], amplification, Pow2(b) - 1);
    }
  }

  /** Two bytes that agree above their `b` low bits are less than `2^b` apart. */
  lemma {:induction false} SameHighBits(v: Byte, w: Byte, b: nat)
    requires 1 <= b <= 3 && Cleared(v, b) == Cleared(w, b)
    ensures Distance(v, w) <= Pow2(b) - 1
  {
  }

  /** Two values at distance at most `m` give at most `m` times the amplification. */
  lemma {:induction false} DiffChannelBound(o: Byte, s: Byte, amplification: nat, m: nat)
    requires Distance(o, s) <= m
    ensures DiffChannel(o, s, amplification) <= m * amplification
  {
    AmplifiedIsProduct(Distance(o, s), amplification);
    MulLe(amplification, Distance(o, s), m);
    assert Distance(o, s) * amplification == amplification * Distance(o, s);
    assert m * amplification == amplification * m;
  }

  // ---------------------------------------------------------------------------------------
  // Enhanced visualisation

  /** How many low bits of a byte `getMask(b)` selects: none for `b <= 0`, all eight from
      `b = 8` on. */
  function MaskWidth(b: int): (k: nat)
    ensures k <= 8
  {
    if b <= 0 then 0 else if b < 8 then b else 8
  }

  /** A colour channel of the enhanced view: unchanged when its low bits are all zero, white
      otherwise. */
  function Spotlit(v: Byte, b: int): Byte
  {
    if LowBits(v, MaskWidth(b)) == 0 then v else 255
  }

  /** A byte of the stego buffer; one past its end reads `undefined`, which the bitwise
      operators take for 0. */
  function StegoAt(s: seq<Byte>, x: nat): Byte
  {
    if x < |s| then s[x] else 0
  }

  /** The enhanced view's buffer, as long as the original's. */
  function Visualized(n: nat, s: seq<Byte>, b: int): (r: seq<Byte>)
    ensures |r| == n
  {
    seq(n, x requires 0 <= x < n => if x % 4 == 3 then 255 else Spotlit(StegoAt(s, x), b))
  }

  /** `getMask(b) & 0xff`: the low byte of the mask, in two's complement for the mask -1. */
  lemma {:induction false} MaskLowByte(b: int, mask: int)
    requires mask == if b <= 0 then 0 else if b < 32 then Pow2(b) - 1 else -1
    ensures mask % 256 == Pow2(MaskWidth(b)) - 1
  {
    assert Pow2(8) == 256;
    if 1 <= b < 8 {
      Pow2Mono(b, 8);
      ModUnique(mask, 256, 0, mask);
    } else if 8 <= b < 32 {
      Pow2Add(8, b - 8);
      assert mask == 256 * (Pow2(b - 8) - 1) + 255;
      ModUnique(mask, 256, Pow2(b - 8) - 1, 255);
    }
  }

  /** The per-channel expression `(v & invMask) | (v & mask ? 255 : 0)`, on the mask's low
      byte `low` and its complement, is the spotlit value. */
  lemma {:induction false} SpotlitByMasks(v: Byte, b: int, low: nat)
    requires low == Pow2(MaskWidth(b)) - 1 && low <= 255
    ensures Or(And(v, 255 - low), if And(v, low) == 0 then 0 else 255) == Spotlit(v, b)
  {
    var k := MaskWidth(b);
    assert Pow2(8) == 256;
    Pow2Mono(k, 8);
    AndLowMask(v, k);
    AndHighMask(v, 8, k);
    LowBitsMod(v, k);
    assert 255 - low == Pow2(8) - Pow2(k);
    if v % Pow2(k) != 0 {
      OrAllOnes(v - v % Pow2(k), 8);
    }
  }

  /** One colour channel of `generateEnhancedVisualization`. */
  method SpotChannel(v: Byte, ghost b: int, low: nat, invMask: nat) returns (w: Byte)
    requires low == Pow2(MaskWidth(b)) - 1 && low <= 255 && invMask == 255 - low
    ensures w == Spotlit(v, b)
  {
    var lsb := And(v, low);
    SpotlitByMasks(v, b, low);
    w := Or(And(v, invMask), if lsb == 0 then 0 else 255);
  }

  /** `generateEnhancedVisualization(original, stego, bpc)`: no check of `bpc` or of the
      sizes; the view is as long as the original and reads the stego bytes at the same
      indices. */
  method EnhancedVisualization(original: ImageData, stego: ImageData, b: int)
    returns (r: ImageData)
    requires |original.data| % 4 == 0
    ensures r == ImageData(original.width, original.height,
                           Visualized(|original.data|, stego.data, b))
  {
    var n := |original.data|;
    var s := stego.data;
    var visual := new Byte[n](_ => 0);
    var mask := GetMask(b);
    var low := mask % 256;
    var invMask := 255 - low;
    MaskLowByte(b, mask);
    FillView(visual, s, b, low, invMask);
    return ImageData(original.width, original.height, visual[..]);
  }

  /** The loop of `generateEnhancedVisualization`, pixel by pixel over a buffer of the
      original's length. */
  method FillView(visual: array<Byte>, s: seq<Byte>, ghost b: int, low: nat, invMask: nat)
    requires visual.Length % 4 == 0
    requires low == Pow2(MaskWidth(b)) - 1 && low <= 255 && invMask == 255 - low
    modifies visual
    ensures visual[..] == Visualized(visual.Length, s, b)
  {
    var n := visual.Length;
    ghost var target := Visualized(n, s, b);
    var i := 0;
    while i < n
      invariant 0 <= i <= n && i % 4 == 0
      invariant forall x :: 0 <= x < i ==> visual[x] == target[x]
    {
      visual[i] := SpotChannel(StegoAt(s, i), b, low, invMask);
      visual[i + 1] := SpotChannel(StegoAt(s, i + 1), b, low, invMask);
      visual[i + 2] := SpotChannel(StegoAt(s, i + 2), b, low, invMask);
      visual[i + 3] := 255;
      i := i + 4;
    }
    assert visual[..] == target;
  }

  /** Painting a view again changes nothing: white has its low bits set. */
  lemma {:induction false} VisualizedIdempotent(n: nat, s: seq<Byte>, b: int)
    ensures Visualized(n, Visualized(n, s, b), b) == Visualized(n, s, b)
  {
    var v := Visualized(n, s, b);
    forall x | 0 <= x < n && x % 4 != 3
      ensures Spotlit(v[x], b) == v[x]
    {
      var k := MaskWidth(b);
      if k > 0 && v[x] == 255 {
        assert LowBits(255, k) != 0;
      }
    }
    assert Visualized(n, v, b) == v;
  }

  /** On a stego buffer, a channel that received bits shows white exactly when its block's
      value is not zero, and its cleared carrier value otherwise; the others show their own
      value when its low bits are zero. */
  lemma {:induction false} VisualizedOfEmbedded(data: seq<Byte>, bits: seq<Bit>, b: nat, x: nat)
    requires 1 <= b <= 3 && x < |data| && x % 4 != 3 && ChannelAt(x) * b < |bits|
    ensures var e := Embedded(data, bits, b);
            var blk := Block(bits, b, ChannelAt(x));
            Visualized(|data|, e, b)[x] == if FromBits(blk) == 0 then Cleared(data[x], b) else 255
  {
    var e := Embedded(data, bits, b);
    EmbeddedKeepsHighBits(data, bits, b, x);
    assert StegoAt(e, x) == e[x];
    assert MaskWidth(b) == b;
    LowBitsMod(e[x], b);
  }
}
