/** Image LSB steganography over the RGBA bytes of a canvas. The payload's bits go, `bpc` at a
    time, into the low bits of the R, G and B bytes of each pixel in turn; alpha is never
    touched. A text payload is framed as `TEXT:<length>:<text>`, an image payload as
    `IMG:<width>:<height>:` followed by its RGBA bytes. The buffer is an `array<Byte>` whose
    length is four times the pixel count, as a canvas's `ImageData` always is. */
module Image {
  import opened Bits
  import opened Wrappers
  import opened JsString

  const BpcError: string := "Počet bitů na kanál musí být mezi 1 a 3"
  const IncompleteText: string :=
    "Nebyla odhalena kompletní zpráva (po TEXT: hlavičce), data mohou být poškozená nebo nekompletní."
  const ImageTooLarge: string :=
    "Tajný obrázek je příliš velký pro tento nosný obrázek. Snižte velikost tajného obrázku nebo použijte větší nosný obrázek."
  const NoImageHeader: string := "Hlavička obrázku nebyla nalezena."
  const NoHiddenImage: string := "V obrázku nebyl nalezen žádný ukrytý obrázek."
  const SizeMismatch: string := "Obrázky musí mít stejnou velikost pro generování mapy rozdílů."
  /** The HTML standard's `new ImageData(data, w, h)` throws this DOMException for a buffer
      whose length is not a non-zero multiple of four, so for an empty one. */
  const EmptyImageData: string := "InvalidStateError"

  /** The header search of `revealTextFromImage` stops after this many characters. */
  const HeaderSearchLimit: nat := 200
  /** `revealImageFromImage` gives up on a header after this many bytes. */
  const MaxBytesToCheck: nat := 10000

  /** An `ImageData`: dimensions and RGBA bytes. */
  datatype ImageData = ImageData(width: nat, height: nat, data: seq<Byte>)

  predicate ValidImage(img: ImageData)
  {
    |img.data| == 4 * img.width * img.height
  }

  /** `x | 0` of a JavaScript number: two's complement wrap-around to 32 bits. */
  function Wrap32(x: int): (r: int)
    ensures -0x8000_0000 <= r < 0x8000_0000 && (r - x) % 0x1_0000_0000 == 0
  {
    (x + 0x8000_0000) % 0x1_0000_0000 - 0x8000_0000
  }

  lemma {:induction false} Pow2Of31()
    ensures Pow2(31) == 0x8000_0000
  {
    assert Pow2(8) == 0x100;
    Pow2Add(8, 8);
    Pow2Add(16, 8);
    Pow2Add(24, 7);
    assert Pow2(7) == 0x80;
  }

  lemma {:induction false} Wrap32Small(x: int)
    requires -0x8000_0000 <= x < 0x8000_0000
    ensures Wrap32(x) == x
  {
  }

  /** `getMask(b)`: `b` one bits, by `mask = (mask << 1) | 1` in 32-bit arithmetic. From 32 bits
      on, the mask is -1 (every bit set). */
  method GetMask(b: int) returns (mask: int)
    ensures mask == if b <= 0 then 0 else if b < 32 then Pow2(b) - 1 else -1
  {
    Pow2Of31();
    mask := 0;
    var i := 0;
    while i < b
      invariant 0 <= i <= (if b < 0 then 0 else b)
      invariant mask == if i < 32 then Pow2(i) - 1 else -1
    {
      if i < 31 {
        Pow2Mono(i + 1, 31);
        assert mask * 2 == Pow2(i + 1) - 2;
        Wrap32Small(mask * 2);
      } else if i == 31 {
        assert mask * 2 == 0xFFFF_FFFE;
      } else {
        Wrap32Small(mask * 2);
      }
      mask := Wrap32(mask * 2) + 1;
      i := i + 1;
    }
  }

  /** `textToBinary`: the padded binary code of every character. */
  method TextToBinary(text: string) returns (binary: seq<Bit>)
    ensures binary == CodeBits(text)
  {
    binary := [];
    var i := 0;
    while i < |text|
      invariant 0 <= i <= |text|
      invariant binary == CodeBits(text[..i])
    {
      assert text[..i + 1][..i] == text[..i];
      binary := binary + PaddedBinary(text[i] as int, 8);
      i := i + 1;
    }
    assert text[..i] == text;
  }

  /** `arrayToBinary`: eight bits per byte. */
  method ArrayToBinary(bytes: seq<Byte>) returns (binary: seq<Bit>)
    ensures binary == ByteBits(bytes)
  {
    binary := [];
    var i := 0;
    while i < |bytes|
      invariant 0 <= i <= |bytes|
      invariant binary == ByteBits(bytes[..i])
    {
      assert bytes[..i + 1][..i] == bytes[..i];
      PaddedBinaryByte(bytes[i]);
      binary := binary + PaddedBinary(bytes[i], 8);
      i := i + 1;
    }
    assert bytes[..i] == bytes;
  }

  // ---------------------------------------------------------------------------------------
  // Writing

  /** The index in the RGBA buffer of colour channel `c`: R, G and B of each pixel in turn. */
  function ChannelIndex(c: nat): (x: nat)
    ensures x % 4 != 3 && x / 4 == c / 3 && x % 4 == c % 3
  {
    4 * (c / 3) + c % 3
  }

  /** The colour channel stored at a non-alpha index of the buffer. */
  function ChannelAt(x: nat): (c: nat)
    requires x % 4 != 3
    ensures ChannelIndex(c) == x
  {
    3 * (x / 4) + x % 4
  }

  /** `v & ~mask` for the mask of the `b` low bits: `v` with those bits cleared. */
  function Cleared(v: Byte, b: nat): (r: Byte)
    requires 1 <= b <= 3
    ensures r <= v < r + Pow2(b) && r + Pow2(b) <= 256
  {
    if b == 1 then v / 2 * 2 else if b == 2 then v / 4 * 4 else v / 8 * 8
  }

  /** Clearing is `v - v % 2^b`, the value the writer computes. */
  lemma {:induction false} ClearedByMask(v: Byte, b: nat, mask: int)
    requires 1 <= b <= 3 && mask == Pow2(b) - 1
    ensures v - v % (mask + 1) == Cleared(v, b)
  {
    if b == 1 {
      assert mask + 1 == 2;
    } else if b == 2 {
      assert mask + 1 == 4;
    } else {
      assert mask + 1 == 8;
    }
  }

  /** A cleared byte with `f < 2^b` in its low bits keeps its high bits and has remainder
      `f`. */
  lemma {:induction false} ClearedPlus(v: Byte, b: nat, f: nat)
    requires 1 <= b <= 3 && f < Pow2(b)
    ensures Cleared(v, b) + f < 256
    ensures Cleared(Cleared(v, b) + f, b) == Cleared(v, b)
    ensures (Cleared(v, b) + f) % Pow2(b) == f
  {
    if b == 1 {
      assert Pow2(1) == 2;
      DivPlus2(v / 2, f);
    } else if b == 2 {
      assert Pow2(2) == 4;
      DivPlus4(v / 4, f);
    } else {
      assert Pow2(3) == 8;
      DivPlus8(v / 8, f);
    }
  }

  lemma {:induction false} DivPlus2(k: nat, f: nat)
    requires f < 2
    ensures (k * 2 + f) / 2 == k && (k * 2 + f) % 2 == f
  {
  }

  lemma {:induction false} DivPlus4(k: nat, f: nat)
    requires f < 4
    ensures (k * 4 + f) / 4 == k && (k * 4 + f) % 4 == f
  {
  }

  lemma {:induction false} DivPlus8(k: nat, f: nat)
    requires f < 8
    ensures (k * 8 + f) / 8 == k && (k * 8 + f) % 8 == f
  {
  }

  /** The bits written into colour channel `c`: the next `b` bits of the stream, fewer for
      the last channel when the stream runs out. */
  function Block(bits: seq<Bit>, b: nat, c: nat): (r: seq<Bit>)
    requires c * b < |bits|
    ensures 1 <= |r| <= b || b == 0
  {
    bits[c * b..Min(c * b + b, |bits|)]
  }

  /** The byte the writer leaves at index `x`: a colour channel that receives bits keeps its
      high bits and holds the block's value, right-aligned, in its low bits (`cleared | block`);
      alpha bytes and the channels after the stream are unchanged. */
  function EmbeddedAt(data: seq<Byte>, bits: seq<Bit>, b: nat, x: nat): Byte
    requires 1 <= b <= 3 && x < |data|
  {
    if x % 4 == 3 || ChannelAt(x) * b >= |bits| then data[x]
    else
      var blk := Block(bits, b, ChannelAt(x));
      Pow2Mono(|blk|, b);
      Cleared(data[x], b) + FromBits(blk)
  }

  function Embedded(data: seq<Byte>, bits: seq<Bit>, b: nat): (r: seq<Byte>)
    requires 1 <= b <= 3
    ensures |r| == |data|
  {
    seq(|data|, x requires 0 <= x < |data| => EmbeddedAt(data, bits, b, x))
  }

  /** The buffer `a` holds the writer's bytes below index `n` and the original ones from `n`
      on. */
  predicate EmbeddedUpTo(a: seq<Byte>, d0: seq<Byte>, bits: seq<Bit>, b: nat, n: nat)
    requires 1 <= b <= 3 && |a| == |d0|
  {
    forall x :: 0 <= x < |a| ==> a[x] == if x < n then EmbeddedAt(d0, bits, b, x) else d0[x]
  }

  lemma {:induction false} EmbeddedUpToStep(a: seq<Byte>, d0: seq<Byte>, bits: seq<Bit>, b: nat, n: nat, v: Byte)
    requires 1 <= b <= 3 && |a| == |d0| && n < |a|
    requires EmbeddedUpTo(a, d0, bits, b, n) && v == EmbeddedAt(d0, bits, b, n)
    ensures EmbeddedUpTo(a[n := v], d0, bits, b, n + 1)
  {
  }

  /** Bytes that the writer leaves alone need no writing. */
  lemma {:induction false} EmbeddedUpToSkip(a: seq<Byte>, d0: seq<Byte>, bits: seq<Bit>, b: nat, n: nat, m: nat)
    requires 1 <= b <= 3 && |a| == |d0| && n <= m
    requires EmbeddedUpTo(a, d0, bits, b, n)
    requires forall x :: n <= x < m && x < |a| ==> EmbeddedAt(d0, bits, b, x) == d0[x]
    ensures EmbeddedUpTo(a, d0, bits, b, m)
  {
  }

  /** The alpha byte of a pixel needs no writing. */
  lemma {:induction false} EmbeddedUpToAlpha(a: seq<Byte>, d0: seq<Byte>, bits: seq<Bit>, b: nat, n: nat)
    requires 1 <= b <= 3 && |a| == |d0| && n % 4 == 3
    requires EmbeddedUpTo(a, d0, bits, b, n)
    ensures EmbeddedUpTo(a, d0, bits, b, n + 1)
  {
    assert n < |a| ==> EmbeddedAt(d0, bits, b, n) == d0[n];
  }

  /** The shared embedding loop of `hideTextInImage` and `hideImageInImage`. */
  method EmbedBits(data: array<Byte>, bits: seq<Bit>, b: nat)
    requires 1 <= b <= 3 && data.Length % 4 == 0
    modifies data
    ensures data[..] == Embedded(old(data[..]), bits, b)
  {
    ghost var d0 := data[..];
    var mask := GetMask(b);
    var bitIndex := 0;
    var i := 0;
    while i < data.Length
      invariant 0 <= i <= data.Length && i % 4 == 0
      invariant bitIndex == Min(3 * (i / 4) * b, |bits|)
      invariant EmbeddedUpTo(data[..], d0, bits, b, i)
    {
      if bitIndex >= |bits| {
        UnusedChannels(d0, bits, b, 3 * (i / 4));
        EmbeddedUpToSkip(data[..], d0, bits, b, i, data.Length);
        break;
      }
      bitIndex := EmbedPixel(data, bits, b, mask, i, bitIndex, d0);
      i := i + 4;
    }
    assert EmbeddedUpTo(data[..], d0, bits, b, data.Length);
    assert data[..] == Embedded(d0, bits, b);
  }

  /** Once the stream is used up at channel `c`, that channel and every later one are left
      alone. */
  lemma {:induction false} UnusedChannels(d0: seq<Byte>, bits: seq<Bit>, b: nat, c: nat)
    requires 1 <= b <= 3 && c * b >= |bits|
    ensures forall x :: 0 <= x < |d0| && (x % 4 == 3 || ChannelAt(x) >= c) ==>
              EmbeddedAt(d0, bits, b, x) == d0[x]
  {
    forall x | 0 <= x < |d0| && x % 4 != 3 && ChannelAt(x) >= c ensures ChannelAt(x) * b >= |bits| {
      MulMono(c, ChannelAt(x), b);
    }
  }

  lemma {:induction false} MulMono(c: nat, d: nat, b: nat)
    requires c <= d
    ensures c * b <= d * b
  {
  }

  lemma {:induction false} MulStep(c: nat, b: nat)
    ensures (c + 1) * b == c * b + b
  {
  }

  /** The channel loop for the pixel at index `i`. */
  method EmbedPixel(data: array<Byte>, bits: seq<Bit>, b: nat, mask: int, i: nat, bitIndex0: nat,
                    ghost d0: seq<Byte>)
      returns (bitIndex: nat)
    requires 1 <= b <= 3 && mask == Pow2(b) - 1 && data.Length % 4 == 0 && |d0| == data.Length
    requires i % 4 == 0 && i < data.Length && bitIndex0 == Min(3 * (i / 4) * b, |bits|)
    requires EmbeddedUpTo(data[..], d0, bits, b, i)
    modifies data
    ensures bitIndex == Min(3 * (i / 4 + 1) * b, |bits|)
    ensures EmbeddedUpTo(data[..], d0, bits, b, i + 4)
  {
    bitIndex := bitIndex0;
    var j := 0;
    while j < 3
      invariant 0 <= j <= 3
      invariant bitIndex == Min(bitIndex0 + j * b, |bits|)
      invariant EmbeddedUpTo(data[..], d0, bits, b, i + j)
    {
      if bitIndex >= |bits| {
        RestOfPixelUnused(data[..], d0, bits, b, i, j);
        break;
      }
      var channelIndex := i + j;
      ChannelOfPixel(i, j);
      MulAdd(3 * (i / 4), j, b);
      bitIndex := EmbedChannel(data, bits, b, mask, channelIndex, bitIndex, d0);
      MulStep(j, b);
      j := j + 1;
    }
    if j == 3 {
      EmbeddedUpToAlpha(data[..], d0, bits, b, i + 3);
      PixelEnd(i, b);
    }
  }

  lemma {:induction false} MulAdd(a: nat, j: nat, b: nat)
    ensures (a + j) * b == a * b + j * b
  {
  }

  /** Byte `j < 3` of the pixel at `i` is colour channel `3 (i / 4) + j`. */
  lemma {:induction false} ChannelOfPixel(i: nat, j: nat)
    requires i % 4 == 0 && j < 3
    ensures (i + j) % 4 == j && ChannelAt(i + j) == 3 * (i / 4) + j
  {
    assert (i + j) / 4 == i / 4;
  }

  lemma {:induction false} PixelEnd(i: nat, b: nat)
    ensures 3 * (i / 4 + 1) * b == 3 * (i / 4) * b + 3 * b
  {
  }

  /** Once the stream runs out at channel `j` of a pixel, the rest of the pixel is left as it
      was. */
  lemma {:induction false} RestOfPixelUnused(a: seq<Byte>, d0: seq<Byte>, bits: seq<Bit>, b: nat, i: nat, j: nat)
    requires 1 <= b <= 3 && |a| == |d0| && i % 4 == 0 && j <= 3
    requires 3 * (i / 4) * b + j * b >= |bits| && EmbeddedUpTo(a, d0, bits, b, i + j)
    ensures EmbeddedUpTo(a, d0, bits, b, i + 4)
    ensures Min(3 * (i / 4 + 1) * b, |bits|) == |bits|
  {
    var c0 := 3 * (i / 4);
    MulAdd(c0, j, b);
    UnusedChannels(d0, bits, b, c0 + j);
    MulMono(c0 + j, c0 + 3, b);
    PixelEnd(i, b);
    EmbeddedUpToSkip(a, d0, bits, b, i + j, i + 4);
  }

  /** One colour channel: `data[x] = (data[x] & ~mask) | block`. */
  method EmbedChannel(data: array<Byte>, bits: seq<Bit>, b: nat, mask: int, x: nat, bitIndex0: nat,
                      ghost d0: seq<Byte>)
      returns (bitIndex: nat)
    requires 1 <= b <= 3 && mask == Pow2(b) - 1 && |d0| == data.Length
    requires x < data.Length && x % 4 != 3 && bitIndex0 == ChannelAt(x) * b < |bits|
    requires EmbeddedUpTo(data[..], d0, bits, b, x)
    modifies data
    ensures bitIndex == Min(bitIndex0 + b, |bits|)
    ensures EmbeddedUpTo(data[..], d0, bits, b, x + 1)
  {
    var channelValue := data[x];
    var clearedValue := channelValue - channelValue % (mask + 1);
    ClearedByMask(channelValue, b, mask);
    var block;
    block, bitIndex := BuildBlock(bits, b, bitIndex0, ChannelAt(x));
    EmbeddedChannel(d0, bits, b, x, block);
    EmbeddedUpToStep(data[..], d0, bits, b, x, clearedValue + block);
    data[x] := clearedValue + block;
  }

  lemma {:induction false} EmbeddedChannel(d0: seq<Byte>, bits: seq<Bit>, b: nat, x: nat, block: nat)
    requires 1 <= b <= 3 && x < |d0| && x % 4 != 3 && ChannelAt(x) * b < |bits|
    requires block == FromBits(Block(bits, b, ChannelAt(x)))
    ensures EmbeddedAt(d0, bits, b, x) == Cleared(d0[x], b) + block
  {
  }

  /** The bit loop: the next `b` bits of the stream (fewer at its end), most significant
      first, as `block = (block << 1) | bit`. */
  method BuildBlock(bits: seq<Bit>, b: nat, bitIndex0: nat, ghost c: nat)
      returns (block: nat, bitIndex: nat)
    requires 1 <= b <= 3 && bitIndex0 == c * b < |bits|
    ensures block == FromBits(Block(bits, b, c)) && block < Pow2(b)
    ensures bitIndex == Min(bitIndex0 + b, |bits|)
  {
    bitIndex := bitIndex0;
    block := 0;
    var k := 0;
    while k < b
      invariant 0 <= k <= b
      invariant bitIndex == Min(bitIndex0 + k, |bits|)
      invariant block == FromBits(bits[bitIndex0..bitIndex])
    {
      if bitIndex < |bits| {
        FromBitsOfLongerSlice(bits, bitIndex0, bitIndex);
        block := block * 2 + bits[bitIndex];
        bitIndex := bitIndex + 1;
      }
      k := k + 1;
    }
    Pow2Mono(bitIndex - bitIndex0, b);
  }

  // ---------------------------------------------------------------------------------------
  // Reading

  /** `(v & (1 << k)) >> k` in 32-bit arithmetic, where the shift count is taken modulo 32. */
  function ReadBit(v: Byte, k: nat): Bit
  {
    BitOf(v, k % 32)
  }

  /** The bits the readers take from one channel value: bit `b - 1` first, bit 0 last. */
  function ChannelBits(v: Byte, b: nat): (r: seq<Bit>)
    ensures |r| == b
  {
    seq(b, t requires 0 <= t < b => ReadBit(v, b - 1 - t))
  }

  /** The bits read from the first `n` colour channels, in order. */
  function Stream(data: seq<Byte>, b: nat, n: nat): (r: seq<Bit>)
    requires n <= 3 * (|data| / 4)
    ensures |r| == n * b
  {
    if n == 0 then [] else Stream(data, b, n - 1) + ChannelBits(data[ChannelIndex(n - 1)], b)
  }

  /** Every bit the readers can take from the buffer. */
  function ImageBits(data: seq<Byte>, b: nat): (r: seq<Bit>)
    ensures |r| == 3 * (|data| / 4) * b
  {
    Stream(data, b, 3 * (|data| / 4))
  }

  /** Every character the readers can decode: one per whole byte of the bit stream. */
  function ImageChars(data: seq<Byte>, b: nat): (r: string)
    ensures |r| == |ImageBits(data, b)| / 8
  {
    Latin1(WholeBytes(ImageBits(data, b)))
  }

  lemma {:induction false} StreamPrefix(data: seq<Byte>, b: nat, m: nat, n: nat)
    requires m <= n <= 3 * (|data| / 4)
    ensures Stream(data, b, m) <= Stream(data, b, n)
    decreases n
  {
    if m < n {
      StreamPrefix(data, b, m, n - 1);
    }
  }

  /** Bit `t` of channel `c` sits at position `c * b + t` of the stream. */
  lemma {:induction false} StreamAt(data: seq<Byte>, b: nat, c: nat, t: nat)
    requires c < 3 * (|data| / 4) && t < b
    ensures c * b + t < |ImageBits(data, b)|
            && ImageBits(data, b)[c * b + t] == ReadBit(data[ChannelIndex(c)], b - 1 - t)
  {
    StreamPrefix(data, b, c + 1, 3 * (|data| / 4));
    MulStep(c, b);
    MulMono(c + 1, 3 * (|data| / 4), b);
    assert Stream(data, b, c + 1)[c * b + t] == ChannelBits(data[ChannelIndex(c)], b)[t];
  }

  /** The `b` bits of channel value `v` sit in the stream from position `base` on. */
  predicate ChannelInStream(all: seq<Bit>, base: nat, v: Byte, b: nat)
  {
    base + b <= |all| && all[base..base + b] == ChannelBits(v, b)
  }

  /** The same, bit by bit: bit `k` of the value is stream bit `base + b - 1 - k`. */
  predicate ChannelBitsAt(all: seq<Bit>, base: nat, v: Byte, b: nat)
  {
    base + b <= |all| && forall k :: 0 <= k < b ==> all[base + b - 1 - k] == ReadBit(v, k)
  }

  lemma {:induction false} ChannelBitsOf(all: seq<Bit>, base: nat, v: Byte, b: nat)
    requires ChannelInStream(all, base, v, b)
    ensures ChannelBitsAt(all, base, v, b)
  {
    forall k | 0 <= k < b
      ensures all[base + b - 1 - k] == ReadBit(v, k)
    {
      BitOfChannel(all, base, v, b, k, base + (b - 1 - k));
    }
  }

  /** Bit `k` of the channel value is the stream bit a reader takes at position `pos`. */
  lemma {:induction false} BitOfChannel(all: seq<Bit>, base: nat, v: Byte, b: nat, k: nat, pos: nat)
    requires ChannelInStream(all, base, v, b) && k < b && pos == base + (b - 1 - k)
    ensures pos < |all| && all[pos] == ReadBit(v, k)
  {
    assert all[pos] == all[base..base + b][b - 1 - k];
  }

  /** Channel `j` of the pixel at byte offset `i` is read as the `b` stream bits from `pos`. */
  lemma {:induction false} ChannelInImage(data: seq<Byte>, b: nat, i: nat, j: nat, base: nat, pos: nat)
    requires i % 4 == 0 && i + 4 <= |data| && j < 3
    requires base == 3 * (i / 4) * b && pos == base + j * b
    ensures ChannelInStream(ImageBits(data, b), pos, data[i + j], b)
  {
    var c := 3 * (i / 4) + j;
    assert ChannelIndex(c) == i + j;
    assert pos == c * b;
    MulStep(c, b);
    MulMono(c + 1, 3 * (|data| / 4), b);
    var all := ImageBits(data, b);
    forall p | pos <= p < pos + b
      ensures all[p] == ReadBit(data[i + j], pos + b - 1 - p)
    {
      StreamAt(data, b, c, p - pos);
    }
    var slice, bits := all[pos..pos + b], ChannelBits(data[i + j], b);
    forall t | 0 <= t < b
      ensures slice[t] == bits[t]
    {
      assert slice[t] == all[pos + t];
    }
  }

  /** The three colour channels of the pixel at byte offset `i` in the stream. */
  lemma {:induction false} PixelInImage(data: seq<Byte>, b: nat, i: nat, base: nat)
    requires i % 4 == 0 && i + 4 <= |data| && base == 3 * (i / 4) * b
    ensures ChannelInStream(ImageBits(data, b), base, data[i], b)
    ensures ChannelInStream(ImageBits(data, b), base + b, data[i + 1], b)
    ensures ChannelInStream(ImageBits(data, b), base + 2 * b, data[i + 2], b)
  {
    ChannelInImage(data, b, i, 0, base, base);
    ChannelInImage(data, b, i, 1, base, base + b);
    ChannelInImage(data, b, i, 2, base, base + 2 * b);
  }

  /** The number of stream bits read before the pixel with index `p`: `b` for each of the
      three colour channels of every pixel before it. */
  function BitsBefore(p: nat, b: nat): nat
  {
    if p == 0 then 0 else BitsBefore(p - 1, b) + 3 * b
  }

  lemma {:induction false} BitsBeforeIs(p: nat, b: nat)
    ensures BitsBefore(p, b) == 3 * p * b
  {
    if p > 0 {
      BitsBeforeIs(p - 1, b);
      MulStep(p - 1, 3 * b);
    }
  }

  /** The stream bits the first `j` channels of a pixel take. */
  function ChannelsSpan(j: nat, b: nat): nat
  {
    if j == 0 then 0 else ChannelsSpan(j - 1, b) + b
  }

  lemma {:induction false} ChannelsSpanIs(j: nat, b: nat)
    ensures ChannelsSpan(j, b) == j * b
  {
    if j > 0 {
      ChannelsSpanIs(j - 1, b);
      MulStep(j - 1, b);
    }
  }

  lemma {:induction false} PixelSpan(b: nat)
    ensures ChannelsSpan(3, b) == 3 * b
  {
    ChannelsSpanIs(3, b);
  }

  /** Channel `j` of a pixel in the stream. */
  lemma {:induction false} PixelChannel(all: seq<Bit>, base: nat, px: seq<Byte>, b: nat, j: nat, pos: nat)
    requires |px| == 3 && PixelInStream(all, base, px, b) && j < 3
    requires pos == base + ChannelsSpan(j, b)
    ensures ChannelBitsAt(all, pos, px[j], b)
  {
    ChannelsSpanIs(j, b);
  }

  /** Pixel `p` starts at byte `i` and stream bit `pos`. */
  lemma {:induction false} PixelAt(data: seq<Byte>, i: nat, p: nat, pos: nat, b: nat)
    requires i == 4 * p && i < |data| && |data| % 4 == 0 && pos == BitsBefore(p, b)
    ensures p < |data| / 4 && i % 4 == 0 && i + 4 <= |data| && pos == 3 * (i / 4) * b
    ensures pos + 3 * b == BitsBefore(p + 1, b)
  {
    BitsBeforeIs(p, b);
  }

  /** After the last pixel, the whole stream is read. */
  lemma {:induction false} StreamEnd(data: seq<Byte>, b: nat, p: nat, pos: nat)
    requires 4 * p == |data| && pos == BitsBefore(p, b)
    ensures pos == |ImageBits(data, b)|
  {
    BitsBeforeIs(p, b);
  }

  /** The first `pos` bits of a stream after its last whole byte: the byte being read. */
  function Pending(all: seq<Bit>, pos: nat): seq<Bit>
    requires pos <= |all|
  {
    all[pos - pos % 8..pos]
  }

  /** One bit more: it ends a byte, which is bits `pos - 7 .. pos`, and a new one starts;
      or it extends the byte being read. */
  lemma {:induction false} PendingStep(all: seq<Bit>, pos: nat)
    requires pos < |all|
    ensures |Pending(all, pos)| == pos % 8
    ensures (pos + 1) % 8 == 0 ==> pos >= 7 && Pending(all, pos + 1) == []
                                   && Pending(all, pos) + [all[pos]] == all[pos - 7..pos + 1]
    ensures (pos + 1) % 8 != 0 ==> Pending(all, pos + 1) == Pending(all, pos) + [all[pos]]
  {
    var start := pos - pos % 8;
    assert all[start..pos] + [all[pos]] == all[start..pos + 1];
    if (pos + 1) % 8 != 0 {
      assert (pos + 1) % 8 == pos % 8 + 1;
    } else {
      assert pos % 8 == 7;
    }
  }

  /** The three colour channels of a pixel `px`, from stream bit `base` on. */
  predicate PixelInStream(all: seq<Bit>, base: nat, px: seq<Byte>, b: nat)
    requires |px| == 3
  {
    ChannelBitsAt(all, base, px[0], b) && ChannelBitsAt(all, base + b, px[1], b)
    && ChannelBitsAt(all, base + 2 * b, px[2], b)
  }

  lemma {:induction false} PixelOfImage(data: seq<Byte>, b: nat, i: nat, base: nat)
    requires i % 4 == 0 && i + 4 <= |data| && base == 3 * (i / 4) * b
    ensures PixelInStream(ImageBits(data, b), base, data[i..i + 3], b)
  {
    var all := ImageBits(data, b);
    PixelInImage(data, b, i, base);
    ChannelBitsOf(all, base, data[i], b);
    ChannelBitsOf(all, base + b, data[i + 1], b);
    ChannelBitsOf(all, base + 2 * b, data[i + 2], b);
    assert data[i..i + 3] == [data[i], data[i + 1], data[i + 2]];
  }

  /** Pixel `p`, at byte `i`, is the next three channels of the stream from bit `pos`. */
  lemma {:induction false} NextPixel(data: seq<Byte>, b: nat, i: nat, p: nat, pos: nat)
    requires i == 4 * p && i < |data| && |data| % 4 == 0 && pos == BitsBefore(p, b)
    ensures i + 4 <= |data| && PixelInStream(ImageBits(data, b), pos, data[i..i + 3], b)
    ensures pos + 3 * b == BitsBefore(p + 1, b)
  {
    PixelAt(data, i, p, pos, b);
    PixelOfImage(data, b, i, pos);
  }

  /** A number below `2^r` written on `w + r` bits has `w` leading zeros. */
  lemma {:induction false} ToBitsWide(v: nat, r: nat, w: nat)
    requires v < Pow2(r)
    ensures ToBits(v, w + r) == Zeros(w) + ToBits(v, r)
    decreases r
  {
    if r == 0 {
      ToBitsZero(w);
    } else {
      ToBitsWide(v / 2, r - 1, w);
      assert Zeros(w) + ToBits(v, r) == (Zeros(w) + ToBits(v / 2, r - 1)) + [v % 2];
    }
  }

  lemma {:induction false} ToBitsZero(w: nat)
    ensures ToBits(0, w) == Zeros(w)
  {
    if w > 0 {
      ToBitsZero(w - 1);
      assert Zeros(w) == Zeros(w - 1) + [0];
    }
  }

  /** A written channel reads back its block, right-aligned in `b` bits. */
  lemma {:induction false} ReadWritten(v: Byte, b: nat, blk: seq<Bit>, w: Byte)
    requires 1 <= b <= 3 && 1 <= |blk| <= b && w == Cleared(v, b) + FromBits(blk)
    ensures ChannelBits(w, b) == Zeros(b - |blk|) + blk
  {
    Pow2Mono(|blk|, b);
    var y := FromBits(blk);
    var z := b - |blk|;
    ChannelOfWritten(v, b, y, w);
    ToBitsWide(y, |blk|, z);
    ToFromBits(blk);
    assert ToBits(y, b) == ToBits(y, z + |blk|) == Zeros(z) + blk;
  }

  /** The low `b` bits of `(v & ~mask) | y` are `y`. */
  lemma {:induction false} ChannelOfWritten(v: Byte, b: nat, y: nat, w: Byte)
    requires 1 <= b <= 3 && y < Pow2(b) && w == Cleared(v, b) + y
    ensures ChannelBits(w, b) == ToBits(y, b)
  {
    ChannelBitsAsToBits(w, b);
    if b == 1 {
      assert Pow2(1) == 2;
      LowBitsOne(v / 2, y);
    } else if b == 2 {
      assert Pow2(2) == 4;
      LowBitsTwo(v / 4, y);
    } else {
      assert Pow2(3) == 8;
      LowBitsThree(v / 8, y);
    }
  }

  /** Writing `2 h + f` on `n + 1` bits: `h` on `n` bits, then the bit `f`. */
  lemma {:induction false} ToBitsOfDouble(h: nat, f: nat, n: nat)
    requires f < 2
    ensures ToBits(h * 2 + f, n + 1) == ToBits(h, n) + [f]
  {
    DivPlus2(h, f);
  }

  /** The low binary digit of `2 k + y` is `y`. */
  lemma {:induction false} LowBitsOne(k: nat, y: nat)
    requires y < 2
    ensures ToBits(k * 2 + y, 1) == ToBits(y, 1)
  {
    ToBitsOfDouble(k, y, 0);
    ToBitsOfDouble(0, y, 0);
  }

  /** The two low binary digits of `4 k + y` are those of `y`. */
  lemma {:induction false} LowBitsTwo(k: nat, y: nat)
    requires y < 4
    ensures ToBits(k * 4 + y, 2) == ToBits(y, 2)
  {
    var h, f := k * 2 + y / 2, y % 2;
    assert k * 4 + y == h * 2 + f && y == (y / 2) * 2 + f;
    ToBitsOfDouble(h, f, 1);
    ToBitsOfDouble(y / 2, f, 1);
    LowBitsOne(k, y / 2);
  }

  /** The three low binary digits of `8 k + y` are those of `y`. */
  lemma {:induction false} LowBitsThree(k: nat, y: nat)
    requires y < 8
    ensures ToBits(k * 8 + y, 3) == ToBits(y, 3)
  {
    var h, f := k * 4 + y / 2, y % 2;
    assert k * 8 + y == h * 2 + f && y == (y / 2) * 2 + f;
    ToBitsOfDouble(h, f, 2);
    ToBitsOfDouble(y / 2, f, 2);
    LowBitsTwo(k, y / 2);
  }

  /** Within 32 bits, a channel's bits are its value's binary digits. */
  lemma {:induction false} ChannelBitsAsToBits(w: Byte, b: nat)
    requires b <= 32
    ensures ChannelBits(w, b) == ToBits(w, b)
  {
    forall t | 0 <= t < b
      ensures ChannelBits(w, b)[t] == ToBits(w, b)[t]
    {
      var k := b - 1 - t;
      assert k % 32 == k;
      assert ChannelBits(w, b)[t] == ReadBit(w, k) == BitOf(w, k);
      ToBitsAt(w, b, t);
    }
  }

  /** An upper bound on a quotient. */
  lemma {:induction false} DivBound(total: nat, m: nat, b: nat)
    requires b >= 1 && total <= m * b
    ensures total / b <= m && (total % b != 0 ==> total / b < m)
  {
    var n := total / b;
    assert n * b + total % b == total;
  }

  /** Reading after writing, channel by channel: the first `c` full blocks come back. */
  lemma {:induction false} ReadBackChannels(data: seq<Byte>, bits: seq<Bit>, b: nat, c: nat)
    requires 1 <= b <= 3 && c <= 3 * (|data| / 4) && c * b <= |bits|
    ensures Stream(Embedded(data, bits, b), b, c) == bits[..c * b]
  {
    if c > 0 {
      var e := Embedded(data, bits, b);
      var lo, hi := (c - 1) * b, c * b;
      MulStep(c - 1, b);
      ReadBackChannels(data, bits, b, c - 1);
      EmbeddedOfChannel(data, bits, b, c - 1);
      var x := ChannelIndex(c - 1);
      var blk := Block(bits, b, c - 1);
      assert blk == bits[lo..hi];
      ReadWritten(data[x], b, blk, e[x]);
      assert Zeros(b - |blk|) + blk == blk;
      SliceSplit(bits, lo, hi);
    }
  }

  /** For `bpc` 1 or 2, or whenever the stream's length is a multiple of `bpc`, the readers
      take back exactly the bits written, in order. */
  lemma {:induction false} ReadBackAligned(data: seq<Byte>, bits: seq<Bit>, b: nat)
    requires 1 <= b <= 3 && |bits| <= 3 * (|data| / 4) * b && |bits| % b == 0
    ensures bits <= ImageBits(Embedded(data, bits, b), b)
  {
    var n := |bits| / b;
    assert n * b == |bits|;
    DivBound(|bits|, 3 * (|data| / 4), b);
    ReadBackChannels(data, bits, b, n);
    StreamPrefix(Embedded(data, bits, b), b, n, 3 * (|data| / 4));
  }

  /** With `bpc` 3, a stream whose length is not a multiple of 3 ends in a channel that
      receives one or two bits; they are stored right-aligned, so the reader sees zeros in
      their place first. */
  lemma {:induction false} ReadBackShort(data: seq<Byte>, bits: seq<Bit>, b: nat)
    requires 1 <= b <= 3 && |bits| <= 3 * (|data| / 4) * b && |bits| % b != 0
    ensures var n := |bits| / b;
            bits[..n * b] + Zeros(b - |bits| % b) + bits[n * b..]
              <= ImageBits(Embedded(data, bits, b), b)
  {
    var n, m := |bits| / b, 3 * (|data| / 4);
    MulCancel(n, m, b);
    ReadBackShortAt(data, bits, b, n, n * b, |bits| % b, m);
  }

  /** `ReadBackShort` for a stream of `n < m` full blocks, `p` bits in all, and `r` more
      bits. */
  lemma {:induction false} ReadBackShortAt(data: seq<Byte>, bits: seq<Bit>, b: nat, n: nat, p: nat, r: nat, m: nat)
    requires 1 <= b <= 3 && m == 3 * (|data| / 4) && n < m
    requires p == n * b && p + r == |bits| && 0 < r < b
    ensures bits[..p] + Zeros(b - r) + bits[p..] <= Stream(Embedded(data, bits, b), b, m)
  {
    var e := Embedded(data, bits, b);
    ReadBackLastChannel(data, bits, b, n, p, r);
    StreamPrefix(e, b, n + 1, m);
    EqualPrefix(bits[..p] + Zeros(b - r) + bits[p..], Stream(e, b, n + 1), Stream(e, b, m));
  }

  lemma {:induction false} EqualPrefix(x: seq<Bit>, y: seq<Bit>, z: seq<Bit>)
    requires x == y && y <= z
    ensures x <= z
  {
  }

  lemma {:induction false} MulCancel(n: nat, m: nat, b: nat)
    requires n * b < m * b
    ensures n < m
  {
    if n >= m {
      MulMono(m, n, b);
    }
  }

  /** The channel that receives the short last block reads back zeros, then that block. */
  lemma {:induction false} ReadBackLastChannel(data: seq<Byte>, bits: seq<Bit>, b: nat, n: nat, p: nat, r: nat)
    requires 1 <= b <= 3 && n < 3 * (|data| / 4) && p == n * b && p + r == |bits| && 0 < r < b
    ensures Stream(Embedded(data, bits, b), b, n + 1) == bits[..p] + Zeros(b - r) + bits[p..]
  {
    var e := Embedded(data, bits, b);
    ReadBackChannels(data, bits, b, n);
    var x := ChannelIndex(n);
    var blk := Block(bits, b, n);
    assert blk == bits[p..];
    EmbeddedOfChannel(data, bits, b, n);
    ReadWritten(data[x], b, blk, e[x]);
    assert Stream(e, b, n + 1) == Stream(e, b, n) + ChannelBits(e[x], b);
  }

  /** The byte the writer leaves in colour channel `c` when it receives bits. */
  lemma {:induction false} EmbeddedOfChannel(data: seq<Byte>, bits: seq<Bit>, b: nat, c: nat)
    requires 1 <= b <= 3 && c < 3 * (|data| / 4) && c * b < |bits|
    ensures ChannelIndex(c) < |data|
            && Embedded(data, bits, b)[ChannelIndex(c)]
               == Cleared(data[ChannelIndex(c)], b) + FromBits(Block(bits, b, c))
  {
    assert ChannelAt(ChannelIndex(c)) == c;
  }

  /** What the writer may change: alpha bytes and the channels after the stream keep their
      value, and every other channel keeps its high bits and holds its block's value in its
      low bits. */
  lemma {:induction false} EmbeddedKeepsHighBits(data: seq<Byte>, bits: seq<Bit>, b: nat, x: nat)
    requires 1 <= b <= 3 && x < |data|
    ensures var e := Embedded(data, bits, b);
            if x % 4 == 3 || ChannelAt(x) * b >= |bits| then e[x] == data[x]
            else Cleared(e[x], b) == Cleared(data[x], b)
                 && e[x] % Pow2(b) == FromBits(Block(bits, b, ChannelAt(x)))
  {
    var e := Embedded(data, bits, b);
    if x % 4 != 3 && ChannelAt(x) * b < |bits| {
      var blk := Block(bits, b, ChannelAt(x));
      Pow2Mono(|blk|, b);
      ClearedPlus(data[x], b, FromBits(blk));
      assert e[x] == Cleared(data[x], b) + FromBits(blk);
    }
  }

  /** An image's buffer holds whole pixels. */
  lemma {:induction false} WholePixels(img: ImageData)
    requires ValidImage(img)
    ensures |img.data| % 4 == 0
  {
    ModUnique(|img.data|, 4, img.width * img.height, 0);
  }

  /** Two images of the same size have buffers of the same length. */
  lemma {:induction false} SameSize(a: ImageData, b: ImageData)
    requires ValidImage(a) && ValidImage(b) && a.width == b.width && a.height == b.height
    ensures |a.data| == |b.data|
  {
  }
}
