/** Audio LSB steganography over the first channel of an audio buffer. The message, prefixed
    with a magic header, is taken to UTF-8 bytes, then to Base64; every Base64 character gives
    eight bits, sixteen zero bits close the stream, and bit `i` becomes the least significant bit
    of sample `200 + i`. The channel is modelled as its 16-bit quantised samples. */
module Audio {
  import opened Bits
  import opened Wrappers
  import Utf8
  import Base64

  const StartOffset: nat := 200
  const MagicHeader: string := "STEGANOAUDIO1"
  const DelimiterLength: nat := 16

  /** A quantised 16-bit PCM sample. */
  type Sample = s: int | -32768 <= s <= 32767

  /** `(s & 0xfffe) | bit` in JavaScript's 32-bit integer arithmetic: the low 16 bits of the
      two's complement form of `s`, with bit 0 replaced. */
  function ClearAndSet(s: Sample, bit: Bit): (t: int)
    ensures 0 <= t < 65536 && t % 2 == bit
    ensures s >= 0 ==> t / 2 == s / 2
    ensures s < 0 ==> t >= 32768
  {
    var u := s % 65536;
    u - u % 2 + bit
  }

  /** The sample that is read back after a write: the written value is turned into a float,
      clamped to 1.0 and quantised again, so anything above 32767 reads back as 32767. */
  function Embed(s: Sample, bit: Bit): (r: Sample)
    ensures s >= 0 ==> r % 2 == bit && r / 2 == s / 2
    ensures s < 0 ==> r == 32767
  {
    var t := ClearAndSet(s, bit);
    if t > 32767 then 32767 else t
  }

  /** `s & 1`, which for a negative `s` is its two's complement low bit. */
  function Lsb(s: Sample): (b: Bit)
    ensures (s - b) % 2 == 0
  {
    s % 2
  }

  /** A non-negative sample keeps everything but its low bit, which becomes `bit`; a negative
      one is saturated, so it reads back 1 whatever was written. */
  lemma {:induction false} LsbOfEmbed(s: Sample, bit: Bit)
    ensures s >= 0 ==> Lsb(Embed(s, bit)) == bit && Embed(s, bit) - Lsb(Embed(s, bit)) == s - Lsb(s)
    ensures s < 0 ==> Lsb(Embed(s, bit)) == 1
  {
  }

  /** The bit stream `hideInAudio` writes: the framed message and the sixteen-bit delimiter. */
  function MessageBits(message: string): (bits: seq<Bit>)
    ensures |bits| >= DelimiterLength && bits[|bits| - DelimiterLength..] == Zeros(DelimiterLength)
  {
    var bits := CodeBits(Base64.Encode(Utf8.Encode(MagicHeader + message))) + Zeros(DelimiterLength);
    assert bits[|bits| - DelimiterLength..] == Zeros(DelimiterLength);
    bits
  }

  /** `textToBinary`: the Base64 form of the text's UTF-8 bytes, eight bits per character. */
  method TextToBinary(text: string) returns (bits: seq<Bit>)
    ensures bits == CodeBits(Base64.Encode(Utf8.Encode(text)))
  {
    var bytes := Utf8.Encode(text);
    var forBtoa: string := "";
    var i := 0;
    while i < |bytes|
      invariant 0 <= i <= |bytes|
      invariant forBtoa == Latin1(bytes[..i])
    {
      forBtoa := forBtoa + [bytes[i] as char];
      i := i + 1;
    }
    assert bytes[..i] == bytes;
    assert Codes(forBtoa) == bytes;
    var encoded := Base64.Btoa(forBtoa);
    bits := CodeBits(encoded.value);
  }

  /** `binaryToText` as a function: whole bytes with the last one completed by zero bits, read
      as a Base64 text by `atob`, whose bytes are decoded as strict UTF-8; `None` where either
      decoder throws. */
  function DecodeBits(bits: seq<Bit>): Option<string>
  {
    match Base64.Atob(Latin1(PaddedBytes(bits)))
    case None => None
    case Some(decoded) => Utf8.TextDecodeFatal(Codes(decoded))
  }

  /** Group `q` of at most eight bits, completed with zero bits on the right and read as a
      byte, is element `q` of `PaddedBytes`. */
  lemma {:induction false} PaddedGroup(bits: seq<Bit>, q: nat)
    requires 8 * q < |bits|
    ensures var group := bits[8 * q..if 8 * q + 8 <= |bits| then 8 * q + 8 else |bits|];
            q < |PaddedBytes(bits)|
            && PaddedBytes(bits)[q] == FromBits(group + Zeros(8 - |group|))
  {
    var group := bits[8 * q..if 8 * q + 8 <= |bits| then 8 * q + 8 else |bits|];
    var padded := bits + Zeros((8 - |bits| % 8) % 8);
    assert padded[8 * q..8 * q + 8] == group + Zeros(8 - |group|);
  }

  /** The first loop of `binaryToText`: eight bits at a time become one character, and a short
      last group is completed with zeros (`padEnd(8, '0')`). */
  method PackBits(binary: seq<Bit>) returns (chars: string)
    ensures chars == Latin1(PaddedBytes(binary))
  {
    chars := "";
    var i := 0;
    while i < |binary|
      invariant i == 8 * |chars| && |chars| <= |PaddedBytes(binary)|
      invariant i < |binary| + 8
      invariant forall j :: 0 <= j < |chars| ==> chars[j] as int == PaddedBytes(binary)[j]
      decreases |binary| - i
    {
      var group := binary[i..if i + 8 <= |binary| then i + 8 else |binary|];
      PaddedGroup(binary, |chars|);
      if |group| == 8 {
        assert group + Zeros(0) == group;
        chars := chars + [FromBits(group) as char];
      } else {
        chars := chars + [FromBits(group + Zeros(8 - |group|)) as char];
      }
      i := i + 8;
    }
  }

  /** The second loop of `binaryToText`: the character codes of `atob`'s result as bytes. */
  method CharCodes(text: string) returns (bytes: seq<Byte>)
    requires IsLatin1(text)
    ensures bytes == Codes(text)
  {
    bytes := [];
    var k := 0;
    while k < |text|
      invariant 0 <= k <= |text|
      invariant bytes == Codes(text[..k])
    {
      bytes := bytes + [text[k] as int];
      k := k + 1;
    }
    assert text[..k] == text;
  }

  /** `binaryToText`: pack the bits into characters, decode them with `atob`, take the codes
      to bytes and decode those as strict UTF-8. */
  method BinaryToText(binary: seq<Bit>) returns (r: Option<string>)
    ensures r == DecodeBits(binary)
  {
    var chars := PackBits(binary);
    var decoded := Base64.Atob(chars);
    if decoded.None? {
      return None;
    }
    var bytes := CharCodes(decoded.value);
    r := Utf8.TextDecodeFatal(bytes);
  }

  /** The new first channel: sample `200 + i` holds bit `i`, every other sample is kept. */
  function Hidden(samples: seq<Sample>, bits: seq<Bit>): (r: seq<Sample>)
    ensures |r| == |samples|
  {
    seq(|samples|, i requires 0 <= i < |samples| =>
      if StartOffset <= i < StartOffset + |bits| then Embed(samples[i], bits[i - StartOffset])
      else samples[i])
  }

  /** Only samples 200 .. 200 + |bits| - 1 differ from the original channel, and each of them
      differs at most in its low bit unless it was negative. */
  lemma {:induction false} HiddenFrame(samples: seq<Sample>, bits: seq<Bit>, i: nat)
    requires i < |samples|
    ensures !(StartOffset <= i < StartOffset + |bits|) ==> Hidden(samples, bits)[i] == samples[i]
    ensures StartOffset <= i < StartOffset + |bits| && samples[i] >= 0 ==>
      Hidden(samples, bits)[i] / 2 == samples[i] / 2 && Lsb(Hidden(samples, bits)[i]) == bits[i - StartOffset]
  {
  }

  /** The writing loop of `hideInAudio`, in place on the copied first channel. */
  method WriteBits(data: array<Sample>, bits: seq<Bit>)
    modifies data
    ensures data[..] == Hidden(old(data[..]), bits)
  {
    ghost var original := data[..];
    for i := 0 to |bits|
      invariant forall j :: 0 <= j < data.Length && !(StartOffset <= j < StartOffset + i) ==> data[j] == original[j]
      invariant forall j :: StartOffset <= j < StartOffset + i && j < data.Length ==> data[j] == Embed(original[j], bits[j - StartOffset])
    {
      var sampleIndex := i + StartOffset;
      if sampleIndex < data.Length {
        data[sampleIndex] := Embed(data[sampleIndex], bits[i]);
      }
    }
    assert data[..] == Hidden(original, bits);
  }

  /** `hideInAudio`: `None`, before any buffer is made, when the framed message needs more
      samples than the channel has after the first 200; otherwise a copy of every channel in
      which channel 0 carries the bit stream. */
  method HideInAudio(channels: seq<seq<Sample>>, message: string) returns (r: Option<seq<seq<Sample>>>)
    requires |channels| >= 1
    ensures r.None? <==> |MessageBits(message)| > |channels[0]| - StartOffset
    ensures r.Some? ==> (|r.value| == |channels| && r.value[1..] == channels[1..]
      && r.value[0] == Hidden(channels[0], MessageBits(message)))
  {
    var framed := TextToBinary(MagicHeader + message);
    var bits := framed + Zeros(DelimiterLength);
    assert bits == MessageBits(message);
    var numSamples := |channels[0]|;
    if |bits| > numSamples - StartOffset {
      return None;
    }
    var data := new Sample[numSamples](i requires 0 <= i < numSamples => channels[0][i]);
    assert data[..] == channels[0];
    WriteBits(data, bits);
    r := Some(channels[0 := data[..]]);
  }

  /** The bits `revealFromAudio` extracts: the low bit of every sample from index 200 on. */
  function ReadBits(samples: seq<Sample>): (bits: seq<Bit>)
    ensures |bits| == if |samples| <= StartOffset then 0 else |samples| - StartOffset
    ensures forall i :: 0 <= i < |bits| ==> bits[i] == Lsb(samples[StartOffset + i])
  {
    if |samples| <= StartOffset then []
    else ReadBits(samples[..|samples| - 1]) + [Lsb(samples[|samples| - 1])]
  }

  /** The last sixteen of the first `n` bits are all zero. */
  predicate ZeroWindow(bits: seq<Bit>, n: nat)
    requires DelimiterLength <= n <= |bits|
  {
    forall j :: n - DelimiterLength <= j < n ==> bits[j] == 0
  }

  /** The first `n`, from `from` on, at which the sliding window holds the delimiter. */
  function FindDelimiter(bits: seq<Bit>, from: nat): (r: Option<nat>)
    requires from >= DelimiterLength
    ensures r.Some? ==> (from <= r.value <= |bits| && ZeroWindow(bits, r.value)
      && forall n :: from <= n < r.value ==> !ZeroWindow(bits, n))
    ensures r.None? ==> forall n :: from <= n <= |bits| ==> !ZeroWindow(bits, n)
    decreases |bits| - from
  {
    if from > |bits| then None
    else if ZeroWindow(bits, from) then Some(from)
    else FindDelimiter(bits, from + 1)
  }

  /** The text in front of the delimiter: decoded, non-empty and carrying the magic header,
      which is removed. */
  function Unframe(body: seq<Bit>): (r: Option<string>)
    ensures r.Some? ==> DecodeBits(body) == Some(MagicHeader + r.value)
  {
    match DecodeBits(body)
    case None => None
    case Some(text) =>
      if text == "" then None
      else if |text| >= |MagicHeader| && text[..|MagicHeader|] == MagicHeader then
        assert text == MagicHeader + text[|MagicHeader|..];
        Some(text[|MagicHeader|..])
      else None
  }

  /** What `revealFromAudio` returns for the bits it extracts. */
  function RevealBits(bits: seq<Bit>): Option<string>
  {
    var found := FindDelimiter(bits, DelimiterLength);
    if found.None? then None else Unframe(bits[..found.value - DelimiterLength])
  }

  /** What `revealFromAudio` returns for a first channel. */
  function Reveal(samples: seq<Sample>): Option<string>
  {
    RevealBits(ReadBits(samples))
  }

  /** A delimiter at `n` with none before it is the one `FindDelimiter` finds. */
  lemma {:induction false} FindDelimiterFirst(bits: seq<Bit>, n: nat)
    requires DelimiterLength <= n <= |bits| && ZeroWindow(bits, n)
    requires NoDelimiterUpTo(bits, n - 1)
    ensures FindDelimiter(bits, DelimiterLength) == Some(n)
  {
  }

  /** `window` holds the last sixteen of `bits`, or all of them when there are fewer. */
  predicate IsWindow(window: seq<Bit>, bits: seq<Bit>)
  {
    |window| == (if |bits| < DelimiterLength then |bits| else DelimiterLength)
    && forall k :: 0 <= k < |window| ==> window[k] == bits[|bits| - |window| + k]
  }

  /** Appending the new bit and dropping the oldest once there are seventeen keeps the window. */
  lemma {:induction false} SlideWindow(window: seq<Bit>, bits: seq<Bit>, b: Bit)
    requires IsWindow(window, bits)
    ensures var w := window + [b];
            IsWindow(if |w| > DelimiterLength then w[1..] else w, bits + [b])
  {
  }

  /** The window equals the delimiter exactly when the last sixteen bits read are zeros. */
  lemma {:induction false} WindowIsDelimiter(window: seq<Bit>, bits: seq<Bit>)
    requires IsWindow(window, bits)
    ensures window == Zeros(DelimiterLength) <==> |bits| >= DelimiterLength && ZeroWindow(bits, |bits|)
  {
    if |bits| >= DelimiterLength && ZeroWindow(bits, |bits|) {
      assert forall k :: 0 <= k < |window| ==> window[k] == 0;
    }
    if window == Zeros(DelimiterLength) {
      forall j | |bits| - DelimiterLength <= j < |bits| ensures bits[j] == 0 {
        assert bits[j] == window[j - (|bits| - DelimiterLength)];
      }
    }
  }

  /** The tail of `revealFromAudio` once the delimiter is seen: decode, then check the header. */
  method UnframeBits(body: seq<Bit>) returns (r: Option<string>)
    ensures r == Unframe(body)
  {
    var decoded := BinaryToText(body);
    if decoded.None? || decoded.value == "" {
      return None;
    }
    var text := decoded.value;
    if !(|text| >= |MagicHeader| && text[..|MagicHeader|] == MagicHeader) {
      return None;
    }
    return Some(text[|MagicHeader|..]);
  }

  /** The loop of `revealFromAudio`: it extracts low bits from sample 200 on and keeps the
      last sixteen of them in a sliding window, stopping at the first window of sixteen zeros.
      `found` tells whether it stopped there; `revealed` holds the bits read up to that point. */
  method ScanForDelimiter(data: seq<Sample>) returns (found: bool, revealed: seq<Bit>)
    ensures revealed <= ReadBits(data)
    ensures found ==> FindDelimiter(ReadBits(data), DelimiterLength) == Some(|revealed|)
    ensures !found ==> FindDelimiter(ReadBits(data), DelimiterLength).None?
  {
    ghost var all := ReadBits(data);
    revealed := [];
    var window: seq<Bit> := [];
    found := false;
    var i := StartOffset;
    while i < |data|
      invariant StartOffset <= i && (i <= |data| || i == StartOffset)
      invariant |revealed| == i - StartOffset && revealed <= all
      invariant IsWindow(window, revealed)
      invariant !found && NoDelimiterUpTo(all, |revealed|)
    {
      var lsb := Lsb(data[i]);
      assert all[|revealed|] == lsb;
      ghost var before, last := revealed, window;
      revealed := revealed + [lsb];
      window := window + [lsb];
      if |window| > DelimiterLength {
        window := window[1..];
      }
      i := i + 1;
      ScanStep(all, before, last, lsb, revealed, window);
      if window == Zeros(DelimiterLength) {
        found := true;
        break;
      }
    }
    if !found {
      FindDelimiterNone(all);
    }
  }

  /** One pass of the scan: the bit read extends the prefix and slides the window, which then
      holds the delimiter exactly when this is the first place it occurs. */
  lemma {:induction false} ScanStep(all: seq<Bit>, before: seq<Bit>, last: seq<Bit>, b: Bit,
                                    revealed: seq<Bit>, window: seq<Bit>)
    requires before <= all && |before| < |all| && all[|before|] == b
    requires IsWindow(last, before) && NoDelimiterUpTo(all, |before|)
    requires revealed == before + [b]
    requires window == (if |last + [b]| > DelimiterLength then (last + [b])[1..] else last + [b])
    ensures revealed <= all && IsWindow(window, revealed)
    ensures window == Zeros(DelimiterLength) ==> FindDelimiter(all, DelimiterLength) == Some(|revealed|)
    ensures window != Zeros(DelimiterLength) ==> NoDelimiterUpTo(all, |revealed|)
  {
    SlideWindow(last, before, b);
    PrefixStep(before, all, b);
    ZeroWindowPrefix(all, revealed);
    NoDelimiterStep(all, |before|);
    WindowIsDelimiter(window, revealed);
    if window == Zeros(DelimiterLength) {
      FindDelimiterFirst(all, |revealed|);
    }
  }

  lemma {:induction false} PrefixStep(prefix: seq<Bit>, all: seq<Bit>, b: Bit)
    requires prefix <= all && |prefix| < |all| && all[|prefix|] == b
    ensures prefix + [b] <= all
  {
  }

  lemma {:induction false} FindDelimiterNone(bits: seq<Bit>)
    requires NoDelimiterUpTo(bits, |bits|)
    ensures FindDelimiter(bits, DelimiterLength).None?
  {
  }

  /** `revealFromAudio`: scan for the delimiter, then decode the bits in front of it. */
  method RevealFromAudio(channels: seq<seq<Sample>>) returns (r: Option<string>)
    requires |channels| >= 1
    ensures r == Reveal(channels[0])
  {
    var found, revealed := ScanForDelimiter(channels[0]);
    if found {
      RevealFound(ReadBits(channels[0]), |revealed|, revealed);
      r := UnframeBits(revealed[..|revealed| - DelimiterLength]);
    } else {
      r := None;
    }
  }

  lemma {:induction false} RevealFound(bits: seq<Bit>, n: nat, revealed: seq<Bit>)
    requires FindDelimiter(bits, DelimiterLength) == Some(n)
    requires revealed <= bits && |revealed| >= n
    ensures RevealBits(bits) == Unframe(revealed[..n - DelimiterLength])
  {
    assert revealed[..n - DelimiterLength] == bits[..n - DelimiterLength];
  }

  /** No zero window ends at or before `n`. */
  predicate NoDelimiterUpTo(bits: seq<Bit>, n: nat)
    requires n <= |bits|
  {
    forall m :: DelimiterLength <= m <= n ==> !ZeroWindow(bits, m)
  }

  lemma {:induction false} NoDelimiterStep(bits: seq<Bit>, n: nat)
    requires n < |bits| && NoDelimiterUpTo(bits, n)
    ensures NoDelimiterUpTo(bits, n + 1) <==> (n + 1 < DelimiterLength || !ZeroWindow(bits, n + 1))
  {
  }

  /** A zero window inside a prefix is a zero window of the whole stream. */
  lemma {:induction false} ZeroWindowPrefix(all: seq<Bit>, prefix: seq<Bit>)
    requires prefix <= all
    ensures |prefix| >= DelimiterLength ==> (ZeroWindow(all, |prefix|) <==> ZeroWindow(prefix, |prefix|))
  {
  }

  /** Every Base64 character is an alphabet character or '=', so its code is a nonzero byte. */
  lemma {:induction false} EncodeCodes(bs: seq<Byte>)
    ensures IsLatin1(Base64.Encode(bs))
    ensures forall i :: 0 <= i < |Base64.Encode(bs)| ==> Codes(Base64.Encode(bs))[i] != 0
  {
    Base64.EncodeCharacters(bs);
  }

  /** A nonzero byte has a 1 among its eight bits. */
  lemma {:induction false} OneInByte(codes: seq<Byte>, q: nat)
    requires q < |codes| && codes[q] != 0
    ensures exists j :: 8 * q <= j < 8 * q + 8 && ByteBits(codes)[j] == 1
  {
    var group := ByteBits(codes)[8 * q..8 * q + 8];
    assert FromBits(group) == codes[q] by {
      ByteBitsAt(codes, q);
      assert Pow2(8) == 256;
      FromToBits(codes[q], 8);
    }
    var j := OneOfNonzero(group);
    assert ByteBits(codes)[8 * q + j] == 1;
  }

  /** Sixteen consecutive bits inside the body always cover one whole byte, so no window that
      ends inside the body of nonzero bytes is all zeros. */
  lemma {:induction false} NoWindowInBody(codes: seq<Byte>, all: seq<Bit>, n: nat)
    requires forall q :: 0 <= q < |codes| ==> codes[q] != 0
    requires |all| >= 8 * |codes| && forall j :: 0 <= j < 8 * |codes| ==> all[j] == ByteBits(codes)[j]
    requires DelimiterLength <= n <= 8 * |codes|
    ensures !ZeroWindow(all, n)
  {
    var q := (n - 9) / 8;
    OneInByte(codes, q);
    var j :| 8 * q <= j < 8 * q + 8 && ByteBits(codes)[j] == 1;
    assert all[j] == 1;
  }

  /** The first zero window of a framed body of nonzero bytes ends after the body's last byte
      has begun, and never later than the end of the delimiter. */
  lemma {:induction false} DelimiterPosition(codes: seq<Byte>, all: seq<Bit>) returns (k: nat)
    requires |codes| > 0 && forall q :: 0 <= q < |codes| ==> codes[q] != 0
    requires |all| >= 8 * |codes| + DelimiterLength
    requires forall j :: 0 <= j < 8 * |codes| ==> all[j] == ByteBits(codes)[j]
    requires forall j :: 8 * |codes| <= j < 8 * |codes| + DelimiterLength ==> all[j] == 0
    ensures FindDelimiter(all, DelimiterLength) == Some(k)
    ensures 8 * |codes| - 8 < k - DelimiterLength <= 8 * |codes|
  {
    var L := 8 * |codes|;
    assert ZeroWindow(all, L + DelimiterLength);
    var r := FindDelimiter(all, DelimiterLength);
    k := r.value;
    if k <= L {
      NoWindowInBody(codes, all, k);
    }
    OneInByte(codes, |codes| - 1);
    var j :| L - 8 <= j < L && ByteBits(codes)[j] == 1;
    assert all[j] == 1;
  }

  /** A body that lost fewer than eight bits of its last byte is completed to whole bytes. */
  lemma {:induction false} PaddedLength(n: nat, m: nat)
    requires 8 * n - 8 < m <= 8 * n
    ensures m + (8 - m % 8) % 8 == 8 * n
  {
    if m < 8 * n {
      assert m / 8 == n - 1;
    }
  }

  /** Completing the bits in front of the delimiter with zeros restores the body's bytes. */
  lemma {:induction false} PaddedBody(codes: seq<Byte>, all: seq<Bit>, k: nat)
    requires DelimiterLength <= k <= |all| && 8 * |codes| - 8 < k - DelimiterLength <= 8 * |codes|
    requires forall j :: 0 <= j < 8 * |codes| ==> all[j] == ByteBits(codes)[j]
    requires ZeroWindow(all, k)
    ensures PaddedBytes(all[..k - DelimiterLength]) == codes
  {
    PaddedBits(codes, all, k);
    WholeBytesRoundTrip(codes);
  }

  /** The body completed with zero bits is the bits of the body's bytes. */
  lemma {:induction false} PaddedBits(codes: seq<Byte>, all: seq<Bit>, k: nat)
    requires DelimiterLength <= k <= |all| && 8 * |codes| - 8 < k - DelimiterLength <= 8 * |codes|
    requires forall j :: 0 <= j < 8 * |codes| ==> all[j] == ByteBits(codes)[j]
    requires ZeroWindow(all, k)
    ensures var body := all[..k - DelimiterLength];
            body + Zeros((8 - |body| % 8) % 8) == ByteBits(codes)
  {
    var body := all[..k - DelimiterLength];
    var padded := body + Zeros((8 - |body| % 8) % 8);
    PaddedLength(|codes|, |body|);
    var p := (8 - |body| % 8) % 8;
    forall j | 0 <= j < |padded| ensures padded[j] == ByteBits(codes)[j] {
      AppendZerosAt(body, p, j);
      if j >= |body| {
        assert all[j] == 0;
      }
    }
  }

  lemma {:induction false} AppendZerosAt(body: seq<Bit>, n: nat, j: nat)
    requires j < |body| + n
    ensures (body + Zeros(n))[j] == if j < |body| then body[j] else 0
  {
  }

  /** Decoding the restored body gives back the framed message. */
  lemma {:induction false} DecodeFramed(message: string)
    ensures var e := Base64.Encode(Utf8.Encode(MagicHeader + message));
            IsLatin1(e) && DecodeBits(ByteBits(Codes(e))) == Some(MagicHeader + message)
  {
    var text := MagicHeader + message;
    var bytes := Utf8.Encode(text);
    var e := Base64.Encode(bytes);
    EncodeCodes(bytes);
    var codes := Codes(e);
    PaddedBytesOfByteBits(codes);
    assert Latin1(codes) == e;
    Base64.DecodeOfEncode(bytes);
    assert Base64.Atob(e) == Some(Latin1(bytes));
    assert Codes(Latin1(bytes)) == bytes;
    assert text[0] == 'S';
    Utf8.TextDecodeFatalOfEncode(text);
  }

  /** The low bits read back from the written samples are the bits written, as long as those
      samples were not negative. */
  lemma {:induction false} ReadBack(samples: seq<Sample>, bits: seq<Bit>, j: nat)
    requires j < |bits| && StartOffset + |bits| <= |samples|
    requires samples[StartOffset + j] >= 0
    ensures ReadBits(Hidden(samples, bits))[j] == bits[j]
  {
    LsbOfEmbed(samples[StartOffset + j], bits[j]);
  }

  /** A body whose decoding is the framed message unframes to the message. */
  lemma {:induction false} UnframeFramed(message: string, body: seq<Bit>)
    requires DecodeBits(body) == Some(MagicHeader + message)
    ensures Unframe(body) == Some(message)
  {
    var text := MagicHeader + message;
    assert text[..|MagicHeader|] == MagicHeader;
    assert text[|MagicHeader|..] == message;
  }

  /** `revealFromAudio(hideInAudio(buffer, m)) == m`, for every message that fits, provided
      the samples that receive the bits are not negative (a negative one reads back 1). */
  lemma {:induction false} RevealOfHide(samples: seq<Sample>, message: string)
    requires |MessageBits(message)| <= |samples| - StartOffset
    requires forall i :: StartOffset <= i < StartOffset + |MessageBits(message)| ==> samples[i] >= 0
    ensures Reveal(Hidden(samples, MessageBits(message))) == Some(message)
  {
    var bytes := Utf8.Encode(MagicHeader + message);
    var e := Base64.Encode(bytes);
    EncodeCodes(bytes);
    Base64.EncodeNonEmpty(bytes);
    var codes := Codes(e);
    CodeBitsLatin1(e);
    var bits := MessageBits(message);
    assert bits == ByteBits(codes) + Zeros(DelimiterLength);
    var all := ReadBits(Hidden(samples, bits));
    forall j | 0 <= j < |bits| ensures all[j] == bits[j] {
      ReadBack(samples, bits, j);
    }
    var k := DelimiterPosition(codes, all);
    var body := all[..k - DelimiterLength];
    PaddedBody(codes, all, k);
    DecodeFramed(message);
    PaddedBytesOfByteBits(codes);
    assert DecodeBits(body) == DecodeBits(ByteBits(codes));
    UnframeFramed(message, body);
    RevealFound(all, k, all);
  }
}
