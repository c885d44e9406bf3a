/** `revealImageFromImage`: the reader of a hidden image. A first pass decodes characters
    from the start of the bit stream until `/IMG:(\d+):(\d+):/` matches what was decoded; a
    second pass starts again at a whole pixel and decodes `width * height * 4` bytes. */
module ImagePicture {
  import opened Bits
  import opened Wrappers
  import opened JsString
  import opened Image
  import opened ImageText

  // ---------------------------------------------------------------------------------------
  // The header

  /** A match of `/IMG:(\d+):(\d+):/`: the two numbers and the indices of the `:` after each. */
  datatype ImgHeader = ImgHeader(width: nat, height: nat, sep: nat, stop: nat)

  /** `IMG:` at `i`, a run of digits up to the `:` at `e1`, a run of digits up to the `:` at
      `e2`. */
  predicate ImgShape(s: string, i: nat, e1: nat, e2: nat)
  {
    i + 4 < e1 && e1 + 1 < e2 < |s| && s[i..i + 4] == "IMG:" && AllDigits(s[i + 4..e1])
    && s[e1] == ':' && AllDigits(s[e1 + 1..e2]) && s[e2] == ':'
  }

  /** The match that starts at `i`, if any. Each `\d+` is greedy and `:` is not a digit, so
      each run of digits must be taken whole. */
  function ImgAt(s: string, i: nat): Option<ImgHeader>
  {
    if i + 4 > |s| || s[i..i + 4] != "IMG:" then None
    else
      var e1 := DigitRun(s, i + 4);
      if e1 == i + 4 || e1 == |s| || s[e1] != ':' then None
      else
        var e2 := DigitRun(s, e1 + 1);
        if e2 == e1 + 1 || e2 == |s| || s[e2] != ':' then None
        else
          DigitsSlice(s, i + 4, e1);
          DigitsSlice(s, e1 + 1, e2);
          Some(ImgHeader(DecimalValue(s[i + 4..e1]), DecimalValue(s[e1 + 1..e2]), e1, e2))
  }

  /** A match found at `i` has the shape, and its numbers are the values of its digits. */
  lemma {:induction false} ImgAtShape(s: string, i: nat)
    requires ImgAt(s, i).Some?
    ensures var h := ImgAt(s, i).value;
            ImgShape(s, i, h.sep, h.stop) && h.width == DecimalValue(s[i + 4..h.sep])
            && h.height == DecimalValue(s[h.sep + 1..h.stop])
  {
    var e1 := DigitRun(s, i + 4);
    var e2 := DigitRun(s, e1 + 1);
    DigitsSlice(s, i + 4, e1);
    DigitsSlice(s, e1 + 1, e2);
  }

  lemma {:induction false} DigitsSlice(s: string, i: nat, e: nat)
    requires i <= e <= |s| && forall j :: i <= j < e ==> IsDigit(s[j])
    ensures AllDigits(s[i..e])
  {
    forall j | 0 <= j < e - i
      ensures IsDigit(s[i..e][j])
    {
      assert s[i..e][j] == s[i + j];
    }
  }

  lemma {:induction false} SliceDigits(s: string, i: nat, e: nat)
    requires i <= e <= |s| && AllDigits(s[i..e])
    ensures forall j :: i <= j < e ==> IsDigit(s[j])
  {
    forall j | i <= j < e
      ensures IsDigit(s[j])
    {
      assert s[j] == s[i..e][j - i];
    }
  }

  /** Wherever the shape is present, the matcher finds it. */
  lemma {:induction false} ImgAtOfShape(s: string, i: nat, e1: nat, e2: nat)
    requires ImgShape(s, i, e1, e2)
    ensures ImgAt(s, i) == Some(ImgHeader(DecimalValue(s[i + 4..e1]), DecimalValue(s[e1 + 1..e2]), e1, e2))
  {
    SliceDigits(s, i + 4, e1);
    SliceDigits(s, e1 + 1, e2);
    DigitRunOf(s, i + 4, e1);
    DigitRunOf(s, e1 + 1, e2);
  }

  /** The leftmost index at or after `from` where a match starts. */
  function ImgSearch(s: string, from: nat): Option<nat>
    decreases |s| - from
  {
    if from >= |s| then None
    else if ImgAt(s, from).Some? then Some(from)
    else ImgSearch(s, from + 1)
  }

  /** The search finds a match, and no match starts between `from` and the one it finds. */
  lemma {:induction false} ImgSearchLeftmost(s: string, from: nat)
    ensures var r := ImgSearch(s, from);
            (r.Some? ==> from <= r.value && ImgAt(s, r.value).Some?)
            && forall i :: from <= i < (if r.Some? then r.value else |s|) ==> ImgAt(s, i).None?
    decreases |s| - from
  {
    if from < |s| && ImgAt(s, from).None? {
      ImgSearchLeftmost(s, from + 1);
      var r := ImgSearch(s, from + 1);
      assert ImgSearch(s, from) == r;
      var e := if r.Some? then r.value else |s|;
      forall i | from <= i < e
        ensures ImgAt(s, i).None?
      {
        if i > from {
          assert from + 1 <= i < e;
        }
      }
    }
  }

  /** `s.match(/IMG:(\d+):(\d+):/)`: the leftmost match. */
  function MatchImgHeader(s: string): Option<ImgHeader>
  {
    var m := ImgSearch(s, 0);
    if m.Some? then ImgAt(s, m.value) else None
  }

  /** `IMG:` at index `i`. */
  predicate TagAt(s: string, i: nat)
  {
    i + 4 <= |s| && s[i..i + 4] == "IMG:"
  }

  /** `s.includes('IMG:')`. */
  predicate IncludesTag(s: string)
  {
    exists i :: 0 <= i < |s| && TagAt(s, i)
  }

  /** A string without `IMG:` has no match: the `includes` test only saves work. */
  lemma {:induction false} MatchIncludesTag(s: string)
    requires MatchImgHeader(s).Some?
    ensures IncludesTag(s)
  {
    var i := ImgSearch(s, 0).value;
    assert TagAt(s, i);
  }

  /** `s.indexOf(':', s.indexOf(':', s.indexOf(':') + 1) + 1)`: the index of the third `:`
      of `s`, which the reader takes for the end of the header, wherever the match is. */
  function HeaderEnd(s: string): (r: int)
    ensures -1 <= r < |s|
  {
    IndexOf(s, ':', IndexOf(s, ':', IndexOf(s, ':', 0) + 1) + 1)
  }

  /** A match holds three colons, so the third colon of the string exists and is no later
      than the match's last one. */
  lemma {:induction false} HeaderEndOfMatch(s: string)
    requires MatchImgHeader(s).Some?
    ensures 0 <= HeaderEnd(s) <= MatchImgHeader(s).value.stop
  {
    var i := ImgSearch(s, 0).value;
    var h := ImgAt(s, i).value;
    assert s[i + 3] == s[i..i + 4][3] == ':';
    var c1 := IndexOf(s, ':', 0);
    assert 0 <= c1 <= i + 3;
    var c2 := IndexOf(s, ':', c1 + 1);
    assert c1 + 1 <= h.sep;
    assert 0 <= c2 <= h.sep;
    var c3 := IndexOf(s, ':', c2 + 1);
    assert 0 <= c3 <= h.stop;
  }

  // ---------------------------------------------------------------------------------------
  // The header pass

  /** The first number of decoded characters at or after `q` whose text matches. */
  function FirstHeaderFrom(chars: string, q: nat): (r: Option<nat>)
    ensures r.Some? ==> q <= r.value <= |chars| && MatchImgHeader(chars[..r.value]).Some?
    decreases |chars| + 1 - q
  {
    if q > |chars| then None
    else if MatchImgHeader(chars[..q]).Some? then Some(q)
    else FirstHeaderFrom(chars, q + 1)
  }

  /** How many decoded characters it takes before the text read so far first matches. */
  function FirstHeader(chars: string): Option<nat>
  {
    FirstHeaderFrom(chars, 0)
  }

  /** The number of characters decoded before the pixel with index `p`. */
  function Decoded(p: nat, b: nat): nat
  {
    BitsBefore(p, b) / 8
  }

  lemma {:induction false} DecodedMono(p: nat, p': nat, b: nat)
    requires p <= p'
    ensures Decoded(p, b) <= Decoded(p', b)
    decreases p'
  {
    if p < p' {
      DecodedMono(p, p' - 1, b);
    }
  }

  /** The check before each pixel fails: more than 10000 characters are decoded and the
      header is not among them. */
  ghost predicate GivesUp(npix: nat, b: nat, first: Option<nat>)
  {
    exists p :: 0 <= p < npix && Decoded(p, b) > MaxBytesToCheck
                && (first.None? || Decoded(p, b) < first.value)
  }

  /** What the header pass ends with: the text decoded up to the first match, or an error. */
  ghost function HeaderOutcome(data: seq<Byte>, b: nat): Result<string>
  {
    var chars := ImageChars(data, b);
    var first := FirstHeader(chars);
    if GivesUp(|data| / 4, b, first) then Err(NoImageHeader)
    else if first.None? then Err(NoHiddenImage)
    else Ok(chars[..first.value])
  }

  /** The header pass's variables `binaryData`, `headerText` and `byteCount`. */
  datatype HeaderScan = HeaderScan(binary: seq<Bit>, headerText: string, byteCount: nat)

  /** The pass has read `pos` bits and found no match yet. */
  predicate HeaderScanned(all: seq<Bit>, chars: string, s: HeaderScan, pos: nat)
  {
    pos <= |all| && |chars| == |all| / 8 && s.binary == all[..pos]
    && s.headerText == chars[..pos / 8] && s.byteCount == pos / 8
    && FirstHeader(chars) == FirstHeaderFrom(chars, pos / 8 + 1)
  }

  /** One bit of the header pass: on every eighth bit, the last eight bits are decoded and the
      text is matched again. */
  method AcceptHeaderBit(ghost all: seq<Bit>, ghost chars: string, s: HeaderScan, bit: Bit,
                         ghost pos: nat)
    returns (t: HeaderScan, found: Option<string>)
    requires Decodes(all, chars) && HeaderScanned(all, chars, s, pos)
    requires pos < |all| && bit == all[pos]
    ensures found.None? ==> HeaderScanned(all, chars, t, pos + 1)
    ensures found.Some? ==> |found.value| == (pos + 1) / 8 && found.value == chars[..|found.value|]
                            && FirstHeader(chars) == Some(|found.value|)
  {
    var binary := s.binary + [bit];
    HeaderBitRead(all, chars, s, bit, pos);
    if |binary| % 8 != 0 {
      return s.(binary := binary), None;
    }
    HeaderByteRead(all, chars, s, bit, pos);
    var headerText := s.headerText + [FromBits(binary[|binary| - 8..]) as char];
    t := HeaderScan(binary, headerText, s.byteCount + 1);
    if IncludesTag(headerText) {
      var m := MatchImgHeader(headerText);
      if m.Some? {
        HeaderFoundAt(all, chars, s, headerText, pos);
        return t, Some(headerText);
      }
    } else if MatchImgHeader(headerText).Some? {
      MatchIncludesTag(headerText);
    }
    HeaderScannedAfterByte(all, chars, s, t, pos);
    found := None;
  }

  /** A bit that does not end a byte only extends the bits read. */
  lemma {:induction false} HeaderBitRead(all: seq<Bit>, chars: string, s: HeaderScan, bit: Bit, pos: nat)
    requires HeaderScanned(all, chars, s, pos) && pos < |all| && bit == all[pos]
    ensures s.binary + [bit] == all[..pos + 1]
    ensures (pos + 1) % 8 != 0 ==> HeaderScanned(all, chars, s.(binary := s.binary + [bit]), pos + 1)
  {
    assert all[..pos + 1] == all[..pos] + [all[pos]];
  }

  /** A bit that ends a byte adds that byte's character to the text. */
  lemma {:induction false} HeaderByteRead(all: seq<Bit>, chars: string, s: HeaderScan, bit: Bit, pos: nat)
    requires Decodes(all, chars) && HeaderScanned(all, chars, s, pos)
    requires pos < |all| && bit == all[pos] && (pos + 1) % 8 == 0
    ensures var binary := s.binary + [bit];
            |binary| >= 8 && FromBits(binary[|binary| - 8..]) < 256
            && s.headerText + [FromBits(binary[|binary| - 8..]) as char] == chars[..pos / 8 + 1]
            && (pos + 1) / 8 == pos / 8 + 1 && s.byteCount + 1 == pos / 8 + 1
  {
    var binary := s.binary + [bit];
    HeaderBitRead(all, chars, s, bit, pos);
    CharStep(all, chars, pos);
    assert binary[|binary| - 8..] == all[pos - 7..pos + 1];
  }

  /** A complete byte after which the text matches for the first time. */
  lemma {:induction false} HeaderFoundAt(all: seq<Bit>, chars: string, s: HeaderScan, headerText: string, pos: nat)
    requires HeaderScanned(all, chars, s, pos) && pos < |all| && (pos + 1) % 8 == 0
    requires headerText == chars[..pos / 8 + 1] && MatchImgHeader(headerText).Some?
    ensures |headerText| == (pos + 1) / 8 && headerText == chars[..|headerText|]
            && FirstHeader(chars) == Some(|headerText|)
  {
    FirstHeaderFound(chars, pos / 8);
  }

  /** A complete byte after which the text still does not match. */
  lemma {:induction false} HeaderScannedAfterByte(all: seq<Bit>, chars: string, s: HeaderScan, t: HeaderScan, pos: nat)
    requires HeaderScanned(all, chars, s, pos) && pos < |all| && (pos + 1) % 8 == 0
    requires t.binary == all[..pos + 1] && t.headerText == chars[..pos / 8 + 1]
    requires t.byteCount == pos / 8 + 1 && MatchImgHeader(t.headerText).None?
    ensures HeaderScanned(all, chars, t, pos + 1)
  {
    assert (pos + 1) / 8 == pos / 8 + 1;
    FirstHeaderStep(chars, pos / 8);
  }

  /** Before any bit is read: the empty text does not match. */
  lemma {:induction false} HeaderStart(all: seq<Bit>, chars: string)
    requires |chars| == |all| / 8
    ensures HeaderScanned(all, chars, HeaderScan([], [], 0), 0)
  {
    assert chars[..0] == [];
    assert MatchImgHeader([]).None?;
  }

  lemma {:induction false} FirstHeaderStep(chars: string, q: nat)
    requires q + 1 <= |chars| && MatchImgHeader(chars[..q + 1]).None?
    ensures FirstHeaderFrom(chars, q + 1) == FirstHeaderFrom(chars, q + 2)
  {
  }

  lemma {:induction false} FirstHeaderFound(chars: string, q: nat)
    requires q + 1 <= |chars| && MatchImgHeader(chars[..q + 1]).Some?
    ensures FirstHeaderFrom(chars, q + 1) == Some(q + 1)
  {
  }

  method HeaderChannel(ghost all: seq<Bit>, ghost chars: string, b: nat,
                       value: Byte, s: HeaderScan, ghost base: nat)
    returns (t: HeaderScan, found: Option<string>)
    requires Decodes(all, chars) && ChannelBitsAt(all, base, value, b)
    requires HeaderScanned(all, chars, s, base)
    ensures found.None? ==> HeaderScanned(all, chars, t, base + b)
    ensures found.Some? ==> |found.value| <= (base + b) / 8 && found.value == chars[..|found.value|]
                            && FirstHeader(chars) == Some(|found.value|)
  {
    ghost var pos: nat := base;
    var k: int := b - 1;
    t := s;
    while k >= 0
      invariant -1 <= k < b && pos == base + (b - 1 - k) && HeaderScanned(all, chars, t, pos)
    {
      t, found := AcceptHeaderBit(all, chars, t, ReadBit(value, k), pos);
      if found.Some? {
        return;
      }
      k := k - 1;
      pos := pos + 1;
    }
    assert pos == base + b;
    found := None;
  }

  /** The three colour channels of a pixel, read from stream bit `base`. */
  method HeaderPixel(ghost all: seq<Bit>, ghost chars: string, b: nat, px: seq<Byte>,
                     s: HeaderScan, ghost base: nat)
    returns (t: HeaderScan, found: Option<string>)
    requires Decodes(all, chars) && |px| == 3 && PixelInStream(all, base, px, b)
    requires HeaderScanned(all, chars, s, base)
    ensures found.None? ==> HeaderScanned(all, chars, t, base + 3 * b)
    ensures found.Some? ==> |found.value| <= (base + 3 * b) / 8 && |found.value| <= |chars|
                            && found.value == chars[..|found.value|]
                            && FirstHeader(chars) == Some(|found.value|)
  {
    ghost var pos: nat := base;
    t := s;
    var j := 0;
    while j < 3
      invariant 0 <= j <= 3 && pos == base + ChannelsSpan(j, b) && HeaderScanned(all, chars, t, pos)
    {
      PixelChannel(all, base, px, b, j, pos);
      t, found := HeaderChannel(all, chars, b, px[j], t, pos);
      if found.Some? {
        ChannelWithinPixel(base, j, b, pos);
        assert |found.value| <= (base + 3 * b) / 8;
        return;
      }
      j := j + 1;
      pos := pos + b;
    }
    PixelSpan(b);
    found := None;
  }

  /** Channel `j` of a pixel ends no later than the pixel does. */
  lemma {:induction false} ChannelWithinPixel(base: nat, j: nat, b: nat, pos: nat)
    requires j < 3 && pos == base + ChannelsSpan(j, b)
    ensures (pos + b) / 8 <= (base + 3 * b) / 8
  {
    ChannelsSpanIs(j, b);
    MulMono(j + 1, 3, b);
    MulStep(j, b);
  }

  /** The first pass of `revealImageFromImage`, up to the first match. */
  method HeaderPass(data: seq<Byte>, b: nat) returns (r: Result<string>)
    requires 1 <= b <= 3 && |data| % 4 == 0
    ensures r == HeaderOutcome(data, b)
  {
    ghost var all, chars := StreamOfImage(data, b);
    ghost var pos: nat := 0;
    ghost var p: nat := 0;
    var s := HeaderScan([], [], 0);
    HeaderStart(all, chars);
    var i := 0;
    while i < |data|
      invariant i == 4 * p && i <= |data| && pos == BitsBefore(p, b)
      invariant HeaderScanned(all, chars, s, pos) && ChecksPassed(p, b)
    {
      NextPixel(data, b, i, p, pos);
      assert Decoded(p, b) == pos / 8;
      if s.byteCount > MaxBytesToCheck {
        GaveUp(all, chars, s, pos, data, b, p);
        return Err(NoImageHeader);
      }
      ChecksStep(b, p);
      var found;
      s, found := HeaderPixel(all, chars, b, data[i..i + 3], s, pos);
      if found.Some? {
        FoundInTime(all, chars, found.value, data, b, p, pos);
        return Ok(found.value);
      }
      i := i + 4;
      pos := pos + 3 * b;
      p := p + 1;
    }
    NoHeaderLeft(all, chars, s, pos, data, b, p);
    return Err(NoHiddenImage);
  }

  /** The checks before the first `n` pixels all passed. */
  predicate ChecksPassed(n: nat, b: nat)
  {
    forall p :: 0 <= p < n ==> Decoded(p, b) <= MaxBytesToCheck
  }

  /** The check before pixel `p` fails when the `q` characters decoded before it are too many
      and hold no match. */
  lemma {:induction false} GaveUp(all: seq<Bit>, chars: string, s: HeaderScan, pos: nat, data: seq<Byte>, b: nat,
               p: nat)
    requires all == ImageBits(data, b) && Decodes(all, chars)
    requires HeaderScanned(all, chars, s, pos)
    requires p < |data| / 4 && pos / 8 == Decoded(p, b) && s.byteCount > MaxBytesToCheck
    ensures HeaderOutcome(data, b) == Err(NoImageHeader)
  {
    CharsOfStream(data, b, all, chars);
    var first := FirstHeader(chars);
    assert first == FirstHeaderFrom(chars, pos / 8 + 1);
    assert first.None? || pos / 8 < first.value;
  }

  /** Once every bit is read without a match (and every check passed), no prefix of the text
      matches and the pass never gave up. */
  lemma {:induction false} NoHeaderLeft(all: seq<Bit>, chars: string, s: HeaderScan, pos: nat, data: seq<Byte>,
                     b: nat, p: nat)
    requires 1 <= b <= 3 && |data| % 4 == 0 && 4 * p == |data| && pos == BitsBefore(p, b)
    requires all == ImageBits(data, b) && Decodes(all, chars)
    requires HeaderScanned(all, chars, s, pos) && ChecksPassed(p, b)
    ensures HeaderOutcome(data, b) == Err(NoHiddenImage)
  {
    CharsOfStream(data, b, all, chars);
    StreamEnd(data, b, p, pos);
    assert FirstHeader(chars) == FirstHeaderFrom(chars, pos / 8 + 1);
    assert |data| / 4 == p;
  }

  /** A match among the characters decoded by the end of pixel `p`, which starts at stream
      bit `pos`, with every check up to it passed, means the pass does not give up. */
  lemma {:induction false} FoundInTime(all: seq<Bit>, chars: string, found: string, data: seq<Byte>, b: nat,
                    p: nat, pos: nat)
    requires all == ImageBits(data, b) && Decodes(all, chars)
    requires |found| <= (pos + 3 * b) / 8 && |found| <= |chars| && found == chars[..|found|]
    requires FirstHeader(chars) == Some(|found|)
    requires pos == BitsBefore(p, b) && ChecksPassed(p + 1, b)
    ensures HeaderOutcome(data, b) == Ok(found)
  {
    CharsOfStream(data, b, all, chars);
    NeverGivesUp(FirstHeader(chars), b, |data| / 4, p + 1, |found|);
    OutcomeFound(data, b, chars, found);
  }

  /** With a match among the characters decoded before pixel `p` and every check before it
      passed, no later check can fail. */
  lemma {:induction false} NeverGivesUp(first: Option<nat>, b: nat, npix: nat, p: nat, q: nat)
    requires first == Some(q) && q <= Decoded(p, b) && ChecksPassed(p, b)
    ensures !GivesUp(npix, b, first)
  {
    forall p' | 0 <= p' < npix && Decoded(p', b) > MaxBytesToCheck
      ensures Decoded(p', b) >= q
    {
      DecodedMono(p, p', b);
    }
  }

  lemma {:induction false} OutcomeFound(data: seq<Byte>, b: nat, chars: string, found: string)
    requires chars == ImageChars(data, b) && !GivesUp(|data| / 4, b, FirstHeader(chars))
    requires FirstHeader(chars) == Some(|found|) && |found| <= |chars| && found == chars[..|found|]
    ensures HeaderOutcome(data, b) == Ok(found)
  {
  }

  /** The checks passed so far, with the one before pixel `p`. */
  lemma {:induction false} ChecksStep(b: nat, p: nat)
    requires ChecksPassed(p, b) && Decoded(p, b) <= MaxBytesToCheck
    ensures ChecksPassed(p + 1, b)
  {
  }

  // ---------------------------------------------------------------------------------------
  // The payload pass

  /** `new Uint8ClampedArray(size)` filled from the bit string `bits`: byte `t` from bits
      `8t` to `8t + 8` while there are that many, zero after. */
  function PayloadBytes(bits: seq<Bit>, size: nat): (r: seq<Byte>)
    ensures |r| == size
  {
    var bs := WholeBytes(bits);
    if |bs| >= size then bs[..size] else bs + seq(size - |bs|, _ => 0)
  }

  /** Byte `t` of a bit string: its bits `8t .. 8t + 8`. */
  function ByteAt(bits: seq<Bit>, t: nat): Byte
    requires 8 * t + 8 <= |bits|
  {
    assert Pow2(8) == 256;
    FromBits(bits[8 * t..8 * t + 8])
  }

  /** Byte `t` of the array is the byte of bits `8t .. 8t + 8` while there are that many,
      and zero after. */
  lemma {:induction false} PayloadBytesAt(bits: seq<Bit>, size: nat)
    ensures var r := PayloadBytes(bits, size);
            forall t :: 0 <= t < size ==> r[t] == if t < |bits| / 8 then ByteAt(bits, t) else 0
  {
  }

  /** After the first `pos` bits of `sub`, the bytes they complete are in place and the rest
      of the array still holds zeros. */
  predicate Extracted(sub: seq<Bit>, pos: nat, ext: seq<Byte>)
    requires pos <= |sub|
  {
    forall t :: 0 <= t < |ext| ==> ext[t] == if t < pos / 8 then ByteAt(sub, t) else 0
  }

  /** All of the array is filled from `sub`. */
  predicate Complete(sub: seq<Bit>, ext: seq<Byte>)
  {
    8 * |ext| <= |sub| && forall t :: 0 <= t < |ext| ==> ext[t] == ByteAt(sub, t)
  }

  /** The array the payload pass leaves once every byte is complete, or once the stream is
      read to its end, is the one the specification gives. */
  lemma {:induction false} ExtractedAll(sub: seq<Bit>, pos: nat, ext: seq<Byte>)
    requires pos == |sub| && Extracted(sub, pos, ext)
    ensures ext == PayloadBytes(sub, |ext|)
  {
    PayloadBytesAt(sub, |ext|);
  }

  lemma {:induction false} CompleteAll(sub: seq<Bit>, ext: seq<Byte>)
    requires Complete(sub, ext)
    ensures ext == PayloadBytes(sub, |ext|)
  {
    PayloadBytesAt(sub, |ext|);
    var r := PayloadBytes(sub, |ext|);
    forall t | 0 <= t < |ext| ensures ext[t] == r[t] {
      assert t < |sub| / 8;
    }
  }

  /** The payload pass has read the first `pos` bits of `sub`, the stream from its starting
      pixel on: `binaryData` holds the bits of the unfinished byte, `extractedIndex` counts the
      finished ones and `extractedBytes` holds them, zeros after. */
  predicate PayloadScanned(sub: seq<Bit>, size: nat, ext: seq<Byte>, binary: seq<Bit>, idx: nat,
                           pos: nat)
  {
    pos <= |sub| && binary == Pending(sub, pos) && idx == pos / 8 && idx < size
    && |ext| == size && Extracted(sub, pos, ext)
  }

  /** Between steps of the payload pass: still reading, or every byte complete. */
  predicate PayloadState(sub: seq<Bit>, size: nat, ext: seq<Byte>, binary: seq<Bit>, idx: nat,
                         pos: nat)
  {
    idx <= size
    && (idx < size ==> PayloadScanned(sub, size, ext, binary, idx, pos))
    && (idx == size ==> |ext| == size && Complete(sub, ext))
  }

  /** One bit of the payload pass. */
  method PayloadBit(ghost sub: seq<Bit>, size: nat, ext: array<Byte>, binary: seq<Bit>, idx: nat,
                    bit: Bit, ghost pos: nat)
    returns (binary': seq<Bit>, idx': nat)
    modifies ext
    requires ext.Length == size && pos < |sub| && bit == sub[pos]
    requires PayloadScanned(sub, size, ext[..], binary, idx, pos)
    ensures PayloadState(sub, size, ext[..], binary', idx', pos + 1)
  {
    PendingStep(sub, pos);
    binary' := binary + [bit];
    idx' := idx;
    if |binary'| == 8 {
      assert (pos + 1) % 8 == 0 && binary' == sub[pos - 7..pos + 1];
      assert Pow2(8) == 256;
      var v: Byte := FromBits(binary');
      ByteCompleted(sub, pos, ext[..], v);
      ext[idx] := v;
      idx' := idx + 1;
      binary' := [];
    } else {
      assert (pos + 1) / 8 == idx;
    }
  }

  /** The byte that bit `pos` completes, stored at its index. */
  lemma {:induction false} ByteCompleted(sub: seq<Bit>, pos: nat, ext: seq<Byte>, v: Byte)
    requires pos < |sub| && (pos + 1) % 8 == 0 && pos / 8 < |ext| && Extracted(sub, pos, ext)
    requires v == FromBits(sub[pos - 7..pos + 1])
    ensures var e := ext[pos / 8 := v];
            Extracted(sub, pos + 1, e) && ((pos + 1) / 8 == |ext| ==> Complete(sub, e))
  {
    var q := pos / 8;
    assert (pos + 1) / 8 == q + 1 && pos - 7 == 8 * q;
    var e := ext[q := v];
    assert e[q] == ByteAt(sub, q);
  }

  /** The loop over the bits of one channel value; it stops once `size` bytes are complete. */
  method PayloadChannel(ghost sub: seq<Bit>, size: nat, ext: array<Byte>, b: nat, value: Byte,
                        binary: seq<Bit>, idx: nat, ghost base: nat)
    returns (binary': seq<Bit>, idx': nat)
    modifies ext
    requires ext.Length == size && ChannelBitsAt(sub, base, value, b)
    requires PayloadScanned(sub, size, ext[..], binary, idx, base)
    ensures PayloadState(sub, size, ext[..], binary', idx', base + b)
  {
    ghost var pos: nat := base;
    binary', idx' := binary, idx;
    var k: int := b - 1;
    while k >= 0
      invariant -1 <= k < b && pos == base + (b - 1 - k)
      invariant PayloadScanned(sub, size, ext[..], binary', idx', pos)
    {
      binary', idx' := PayloadBit(sub, size, ext, binary', idx', ReadBit(value, k), pos);
      pos := pos + 1;
      if idx' >= size {
        break;
      }
      k := k - 1;
    }
    StateMoved(sub, size, ext[..], binary', idx', pos, base + b);
  }

  /** The stream position matters only while bytes are missing. */
  lemma {:induction false} StateMoved(sub: seq<Bit>, size: nat, ext: seq<Byte>, binary: seq<Bit>, idx: nat,
                                      pos: nat, pos': nat)
    requires PayloadState(sub, size, ext, binary, idx, pos) && (idx < size ==> pos == pos')
    ensures PayloadState(sub, size, ext, binary, idx, pos')
  {
  }

  /** The loop over the R, G and B channels of one pixel while bytes are missing. */
  method PayloadPixel(ghost sub: seq<Bit>, size: nat, ext: array<Byte>, b: nat, px: seq<Byte>,
                      binary: seq<Bit>, idx: nat, ghost base: nat)
    returns (binary': seq<Bit>, idx': nat)
    modifies ext
    requires ext.Length == size && |px| == 3 && PixelInStream(sub, base, px, b)
    requires PayloadScanned(sub, size, ext[..], binary, idx, base)
    ensures PayloadState(sub, size, ext[..], binary', idx', base + 3 * b)
  {
    ghost var pos: nat := base;
    binary', idx' := binary, idx;
    var j := 0;
    while j < 3 && idx' < size
      invariant 0 <= j <= 3 && pos == base + ChannelsSpan(j, b)
      invariant PayloadState(sub, size, ext[..], binary', idx', pos)
    {
      PixelChannel(sub, base, px, b, j, pos);
      binary', idx' := PayloadChannel(sub, size, ext, b, px[j], binary', idx', pos);
      j := j + 1;
      pos := pos + b;
    }
    PixelEnd(sub, size, ext[..], binary', idx', base, b, j, pos);
  }

  /** Once the three channels are read, or every byte is complete, the pixel is done. */
  lemma {:induction false} PixelEnd(sub: seq<Bit>, size: nat, ext: seq<Byte>, binary: seq<Bit>, idx: nat,
                                    base: nat, b: nat, j: nat, pos: nat)
    requires PayloadState(sub, size, ext, binary, idx, pos) && pos == base + ChannelsSpan(j, b)
    requires j == 3 || idx >= size
    ensures PayloadState(sub, size, ext, binary, idx, base + 3 * b)
  {
    PixelSpan(b);
    StateMoved(sub, size, ext, binary, idx, pos, base + 3 * b);
  }

  /** A channel's bits, counted from the start of a suffix of the stream. */
  lemma {:induction false} ChannelInSuffix(all: seq<Bit>, from: nat, base: nat, v: Byte, b: nat)
    requires ChannelInStream(all, base, v, b) && from <= base
    ensures ChannelInStream(all[from..], base - from, v, b)
  {
    assert all[from..][base - from..base - from + b] == all[base..base + b];
  }

  /** The three colour channels of the pixel at byte offset `i`, counted from stream bit
      `from`. */
  lemma {:induction false} PixelInSuffix(data: seq<Byte>, b: nat, i: nat, p: nat, base: nat, from: nat)
    requires i == 4 * p && i + 4 <= |data| && base == BitsBefore(p, b) && from <= base
    requires from <= |ImageBits(data, b)|
    ensures PixelInStream(ImageBits(data, b)[from..], base - from, data[i..i + 3], b)
  {
    var all := ImageBits(data, b);
    BitsBeforeIs(p, b);
    assert i / 4 == p;
    PixelInImage(data, b, i, base);
    ChannelInSuffix(all, from, base, data[i], b);
    ChannelInSuffix(all, from, base + b, data[i + 1], b);
    ChannelInSuffix(all, from, base + 2 * b, data[i + 2], b);
    var sub := all[from..];
    ChannelBitsOf(sub, base - from, data[i], b);
    ChannelBitsOf(sub, base - from + b, data[i + 1], b);
    ChannelBitsOf(sub, base - from + 2 * b, data[i + 2], b);
    assert data[i..i + 3] == [data[i], data[i + 1], data[i + 2]];
  }

  /** The stream bit at which the pixel `start` begins, or the end of the stream. */
  function PayloadFrom(data: seq<Byte>, b: nat, start: nat): (r: nat)
    ensures r <= |ImageBits(data, b)|
    ensures 4 * start < |data| ==> r == 3 * start * b
  {
    if 4 * start < |data| then
      StartInStream(data, b, start);
      3 * start * b
    else |ImageBits(data, b)|
  }

  lemma {:induction false} StartInStream(data: seq<Byte>, b: nat, start: nat)
    requires 4 * start < |data|
    ensures 3 * start * b <= |ImageBits(data, b)|
  {
    MulMono(start, |data| / 4, 3 * b);
    assert 3 * start * b == start * (3 * b) && |ImageBits(data, b)| == (|data| / 4) * (3 * b);
  }

  /** The pixel at byte offset `i`, whose first bit is bit `pos` of the stream `sub` that
      begins at stream bit `from`. */
  method PayloadPixelAt(data: seq<Byte>, b: nat, ghost from: nat, ghost sub: seq<Bit>, size: nat,
                        ext: array<Byte>, i: nat, ghost p: nat, binary: seq<Bit>, idx: nat,
                        ghost pos: nat)
    returns (binary': seq<Bit>, idx': nat)
    modifies ext
    requires from <= |ImageBits(data, b)| && sub == ImageBits(data, b)[from..]
    requires i == 4 * p && i + 4 <= |data| && from + pos == BitsBefore(p, b)
    requires ext.Length == size && PayloadScanned(sub, size, ext[..], binary, idx, pos)
    ensures PayloadState(sub, size, ext[..], binary', idx', pos + 3 * b)
  {
    PixelInSuffix(data, b, i, p, from + pos, from);
    binary', idx' := PayloadPixel(sub, size, ext, b, data[i..i + 3], binary, idx, pos);
  }

  /** The payload pass: from the pixel `start` on, whole bytes of the stream until `size` are
      complete or the pixels run out. */
  method PayloadPass(data: seq<Byte>, b: nat, start: nat, size: nat) returns (bytes: seq<Byte>)
    requires 1 <= b <= 3 && |data| % 4 == 0
    ensures bytes == PayloadBytes(ImageBits(data, b)[PayloadFrom(data, b, start)..], size)
  {
    ghost var from := PayloadFrom(data, b, start);
    ghost var sub := ImageBits(data, b)[from..];
    var ext := new Byte[size](_ => 0);
    if size == 0 || 4 * start >= |data| {
      PayloadBytesAt(sub, size);
      assert |sub| == 0 || size == 0;
      assert ext[..] == PayloadBytes(sub, size);
      return ext[..];
    }
    assert (4 * start) / 4 == start;
    BitsBeforeIs(start, b);
    PayloadPixels(data, b, from, sub, size, ext, 4 * start);
    return ext[..];
  }

  /** The loop over the pixels from byte offset `i0` on, while bytes are missing. */
  method PayloadPixels(data: seq<Byte>, b: nat, ghost from: nat, ghost sub: seq<Bit>, size: nat,
                       ext: array<Byte>, i0: nat)
    modifies ext
    requires 1 <= b <= 3 && |data| % 4 == 0
    requires from <= |ImageBits(data, b)| && sub == ImageBits(data, b)[from..]
    requires i0 % 4 == 0 && i0 <= |data| && from == BitsBefore(i0 / 4, b)
    requires ext.Length == size && 0 < size && forall t :: 0 <= t < size ==> ext[t] == 0
    ensures ext[..] == PayloadBytes(sub, size)
  {
    var binary: seq<Bit> := [];
    var idx: nat := 0;
    var i := i0;
    ghost var pos: nat := 0;
    ghost var p: nat := i0 / 4;
    PayloadStart(sub, size, ext[..]);
    while i < |data| && idx < size
      invariant i == 4 * p && i <= |data| && from + pos == BitsBefore(p, b)
      invariant ext.Length == size && PayloadState(sub, size, ext[..], binary, idx, pos)
    {
      assert i + 4 <= |data|;
      binary, idx := PayloadPixelAt(data, b, from, sub, size, ext, i, p, binary, idx, pos);
      i := i + 4;
      pos := pos + 3 * b;
      p := p + 1;
    }
    PayloadEnd(data, b, from, sub, size, ext[..], binary, idx, pos, p);
  }

  /** Before the payload pass nothing is read and the array is all zeros. */
  lemma {:induction false} PayloadStart(sub: seq<Bit>, size: nat, ext: seq<Byte>)
    requires |ext| == size && 0 < size && forall t :: 0 <= t < size ==> ext[t] == 0
    ensures PayloadState(sub, size, ext, [], 0, 0)
  {
    assert Extracted(sub, 0, ext);
  }

  /** After the payload pass, whether it stopped at the end of the stream or with every byte
      complete, the array holds the payload's bytes. */
  lemma {:induction false} PayloadEnd(data: seq<Byte>, b: nat, from: nat, sub: seq<Bit>, size: nat,
                                      ext: seq<Byte>, binary: seq<Bit>, idx: nat, pos: nat, p: nat)
    requires from <= |ImageBits(data, b)| && sub == ImageBits(data, b)[from..]
    requires |ext| == size && PayloadState(sub, size, ext, binary, idx, pos)
    requires idx < size ==> 4 * p == |data| && from + pos == BitsBefore(p, b)
    ensures ext == PayloadBytes(sub, size)
  {
    if idx < size {
      StreamEnd(data, b, p, from + pos);
      ExtractedAll(sub, pos, ext);
    } else {
      CompleteAll(sub, ext);
    }
  }

  /** `Math.floor(((headerEnd + 1) * 8) / (3 * bpc))`: the pixel in which the byte after the
      header's last character begins. */
  function StartPixel(headerEnd: int, b: nat): nat
    requires -1 <= headerEnd && 1 <= b
  {
    (headerEnd + 1) * 8 / (3 * b)
  }

  /** `width * height * 4`: the bytes of an RGBA image of that size. */
  function ByteCount(width: nat, height: nat): nat
  {
    width * height * 4
  }

  /** What the payload pass makes of the header text `text` found by the header pass: the
      announced dimensions and `width * height * 4` bytes read from the pixel where the byte
      after the text's third `:` begins. */
  function RevealPayload(data: seq<Byte>, b: nat, text: string): Result<ImageData>
    requires 1 <= b <= 3
  {
    match MatchImgHeader(text)
    // never taken: the header pass ends only on a text that matches
    case None => Err(NoHiddenImage)
    case Some(hd) =>
      var size := ByteCount(hd.width, hd.height);
      var start := StartPixel(HeaderEnd(text), b);
      if size == 0 then Err(EmptyImageData)
      else Ok(ImageData(hd.width, hd.height,
                        PayloadBytes(ImageBits(data, b)[PayloadFrom(data, b, start)..], size)))
  }

  /** `revealImageFromImage(canvas, bpc)` on the canvas's RGBA bytes. */
  ghost function RevealImage(data: seq<Byte>, b: int): Result<ImageData>
  {
    if b < 1 || b > 3 then Err(BpcError)
    else
      match HeaderOutcome(data, b)
      case Err(e) => Err(e)
      case Ok(text) => RevealPayload(data, b, text)
  }

  method RevealImageFromImage(data: seq<Byte>, b: int) returns (r: Result<ImageData>)
    requires |data| % 4 == 0
    ensures r == RevealImage(data, b)
  {
    if b < 1 || b > 3 {
      return Err(BpcError);
    }
    var header := HeaderPass(data, b);
    if header.Err? {
      return Err(header.message);
    }
    r := ExtractPayload(data, b, header.value);
  }

  /** The second pass on the text the header pass found. */
  method ExtractPayload(data: seq<Byte>, b: nat, text: string) returns (r: Result<ImageData>)
    requires 1 <= b <= 3 && |data| % 4 == 0
    ensures r == RevealPayload(data, b, text)
  {
    var m := MatchImgHeader(text);
    if m.None? {
      return Err(NoHiddenImage);
    }
    var hd := m.value;
    var size := ByteCount(hd.width, hd.height);
    var start := StartPixel(HeaderEnd(text), b);
    var bytes := PayloadPass(data, b, start, size);
    if size == 0 {
      return Err(EmptyImageData);
    }
    return Ok(ImageData(hd.width, hd.height, bytes));
  }

  // ---------------------------------------------------------------------------------------
  // hideImageInImage

  /** `IMG:${width}:${height}:`. */
  function ImgFrame(width: nat, height: nat): string
  {
    "IMG:" + NatToString(width) + ":" + NatToString(height) + ":"
  }

  /** What `hideImageInImage` leaves in the carrier's RGBA bytes `base`, or its error: the
      header's bits and then eight bits per byte of the secret image, when they fit in
      `3 * bpc` bits per carrier pixel. */
  function HideImage(base: seq<Byte>, secret: ImageData, b: int): Result<seq<Byte>>
  {
    if b < 1 || b > 3 then Err(BpcError)
    else
      var header := CodeBits(ImgFrame(secret.width, secret.height));
      if |header| + 8 * |secret.data| > (|base| / 4) * 3 * b then Err(ImageTooLarge)
      else Ok(Embedded(base, header + ByteBits(secret.data), b))
  }

  /** `hideImageInImage(baseCanvas, secretCanvas, bpc)` on the carrier's RGBA bytes, which
      it changes in place, and the secret image as the resizing step hands it over. */
  method HideImageInImage(base: array<Byte>, secret: ImageData, b: int) returns (r: Result<seq<Byte>>)
    requires base.Length % 4 == 0
    modifies base
    ensures r == HideImage(old(base[..]), secret, b)
    ensures base[..] == if r.Ok? then r.value else old(base[..])
  {
    if b < 1 || b > 3 {
      return Err(BpcError);
    }
    var pixels := base.Length / 4;
    var available := pixels * 3 * b;
    var headerBinary := TextToBinary("IMG:" + NatToString(secret.width) + ":"
                                     + NatToString(secret.height) + ":");
    var total := |headerBinary| + |secret.data| * 8;
    if total > available {
      return Err(ImageTooLarge);
    }
    var payload := ArrayToBinary(secret.data);
    EmbedBits(base, headerBinary + payload, b);
    return Ok(base[..]);
  }

  // ---------------------------------------------------------------------------------------
  // Hiding, then revealing, an image

  /** The header's characters: `IMG`, the width's digits and the height's digits between
      three colons, which are its only ones. */
  lemma {:induction false} FrameColons(width: nat, height: nat)
    ensures var f := ImgFrame(width, height);
            var dw := NatToString(width);
            |f| == |dw| + |NatToString(height)| + 6
            && f[..4] == "IMG:" && f[4..4 + |dw|] == dw && f[4 + |dw|] == ':'
            && f[5 + |dw|..|f| - 1] == NatToString(height) && f[|f| - 1] == ':'
            && forall j :: 0 <= j < |f| && f[j] == ':' ==> j == 3 || j == 4 + |dw| || j == |f| - 1
  {
    FrameParts(width, height);
    var f := ImgFrame(width, height);
    var dw, dh := NatToString(width), NatToString(height);
    forall j | 0 <= j < 3
      ensures f[j] != ':'
    {
      assert f[j] == f[..4][j] == "IMG:"[j];
    }
    forall j | 4 <= j < 4 + |dw|
      ensures f[j] != ':'
    {
      assert f[j] == f[4..4 + |dw|][j - 4] == dw[j - 4] && IsDigit(dw[j - 4]);
    }
    forall j | 5 + |dw| <= j < |f| - 1
      ensures f[j] != ':'
    {
      assert f[j] == f[5 + |dw|..|f| - 1][j - 5 - |dw|] == dh[j - 5 - |dw|];
      assert IsDigit(dh[j - 5 - |dw|]);
    }
  }

  /** The header's four parts, in order. */
  lemma {:induction false} FrameParts(width: nat, height: nat)
    ensures var f := ImgFrame(width, height);
            var dw := NatToString(width);
            |f| == |dw| + |NatToString(height)| + 6
            && f[..4] == "IMG:" && f[4..4 + |dw|] == dw && f[4 + |dw|] == ':'
            && f[5 + |dw|..|f| - 1] == NatToString(height) && f[|f| - 1] == ':'
  {
    var f := ImgFrame(width, height);
    var dw, dh := NatToString(width), NatToString(height);
    var x := "IMG:" + dw;
    var y := x + ":" + dh;
    assert f == y + ":";
    assert y[..|x|] == x && y[|x|] == ':' && y[|x| + 1..] == dh;
    assert f[..4] == x[..4] == "IMG:";
    assert f[4..4 + |dw|] == x[4..] == dw;
    assert f[5 + |dw|..|f| - 1] == y[|x| + 1..];
  }

  lemma {:induction false} FrameLatin1(width: nat, height: nat)
    ensures IsLatin1(ImgFrame(width, height))
  {
    var f := ImgFrame(width, height);
    var dw, dh := NatToString(width), NatToString(height);
    FrameColons(width, height);
    forall j | 0 <= j < |f|
      ensures (f[j] as int) < 256
    {
      if j < 4 {
        assert f[j] == f[..4][j];
      } else if 4 <= j < 4 + |dw| {
        assert f[j] == dw[j - 4] && IsDigit(dw[j - 4]);
      } else if 5 + |dw| <= j < |f| - 1 {
        assert f[j] == f[5 + |dw|..|f| - 1][j - 5 - |dw|] == dh[j - 5 - |dw|] && IsDigit(dh[j - 5 - |dw|]);
      }
    }
  }

  /** The header matches itself, with its own dimensions. */
  lemma {:induction false} FrameMatches(width: nat, height: nat)
    ensures var f := ImgFrame(width, height);
            MatchImgHeader(f).Some? && MatchImgHeader(f).value.width == width
            && MatchImgHeader(f).value.height == height
  {
    var f := ImgFrame(width, height);
    var dw := NatToString(width);
    FrameColons(width, height);
    assert f[0..4] == f[..4];
    assert f[0 + 4..4 + |dw|] == dw;
    ImgAtOfShape(f, 0, 4 + |dw|, |f| - 1);
    DecimalValueOfNatToString(width);
    DecimalValueOfNatToString(height);
  }

  /** No proper prefix of the header matches: it lacks the last colon, and a match needs
      three. */
  lemma {:induction false} FramePrefixNoMatch(width: nat, height: nat, q: nat)
    requires q < |ImgFrame(width, height)|
    ensures MatchImgHeader(ImgFrame(width, height)[..q]).None?
  {
    var f := ImgFrame(width, height);
    var p := f[..q];
    FrameColons(width, height);
  }

  /** The first prefix of a text that begins with the header and matches is the header. */
  lemma {:induction false} FirstHeaderOfFrame(chars: string, width: nat, height: nat, q: nat)
    requires ImgFrame(width, height) <= chars && q <= |ImgFrame(width, height)|
    ensures FirstHeaderFrom(chars, q) == Some(|ImgFrame(width, height)|)
    decreases |ImgFrame(width, height)| - q
  {
    var f := ImgFrame(width, height);
    assert chars[..q] == f[..q];
    if q == |f| {
      assert f[..q] == f;
      FrameMatches(width, height);
    } else {
      FramePrefixNoMatch(width, height, q);
      FirstHeaderOfFrame(chars, width, height, q + 1);
    }
  }

  /** `indexOf` finds a character where it occurs first. */
  lemma {:induction false} IndexOfAt(s: string, c: char, from: nat, r: nat)
    requires from <= r < |s| && s[r] == c && forall j :: from <= j < r ==> s[j] != c
    ensures IndexOf(s, c, from) == r
  {
  }

  /** The reader takes the header's last colon for its end. */
  lemma {:induction false} HeaderEndOfFrame(width: nat, height: nat)
    ensures HeaderEnd(ImgFrame(width, height)) == |ImgFrame(width, height)| - 1
  {
    var f := ImgFrame(width, height);
    var dw := NatToString(width);
    FrameColons(width, height);
    assert f[3] == f[..4][3];
    IndexOfAt(f, ':', 0, 3);
    IndexOfAt(f, ':', 4, 4 + |dw|);
    IndexOfAt(f, ':', 5 + |dw|, |f| - 1);
  }

  /** The stream read back from a carrier holding the header and the secret bytes. */
  lemma {:induction false} ImageStream(base: seq<Byte>, secret: ImageData, b: nat)
    requires 1 <= b <= 3 && |base| % 4 == 0
    requires var n := 8 * (|ImgFrame(secret.width, secret.height)| + |secret.data|);
             n <= 3 * (|base| / 4) * b && n % b == 0
    ensures var f := ImgFrame(secret.width, secret.height);
            var e := Embedded(base, CodeBits(f) + ByteBits(secret.data), b);
            var bytes := WholeBytes(ImageBits(e, b));
            |f| + |secret.data| <= |bytes|
            && bytes[..|f| + |secret.data|] == Codes(f) + secret.data
  {
    var f := ImgFrame(secret.width, secret.height);
    FrameLatin1(secret.width, secret.height);
    CodeBitsLatin1(f);
    ByteBitsAppend(Codes(f), secret.data);
    var written := Codes(f) + secret.data;
    var bits := ByteBits(written);
    assert bits == CodeBits(f) + ByteBits(secret.data);
    ReadBackAligned(base, bits, b);
    var all := ImageBits(Embedded(base, bits, b), b);
    var rest := all[|bits|..];
    assert all == bits + rest;
    WholeBytesOfByteBits(written, rest);
  }

  /** The header pass on a buffer whose stream starts with the header's bytes ends on the
      header, which is short enough to be found before the 10000-character check can fail. */
  lemma {:induction false} HeaderOfStream(e: seq<Byte>, b: nat, width: nat, height: nat)
    requires 1 <= b <= 3 && |ImgFrame(width, height)| <= MaxBytesToCheck
    requires var f := ImgFrame(width, height);
             var bytes := WholeBytes(ImageBits(e, b));
             |f| <= |bytes| && bytes[..|f|] == Codes(f)
    ensures HeaderOutcome(e, b) == Ok(ImgFrame(width, height))
  {
    var f := ImgFrame(width, height);
    var bytes := WholeBytes(ImageBits(e, b));
    var chars := ImageChars(e, b);
    forall j | 0 <= j < |f|
      ensures chars[j] == f[j]
    {
      assert bytes[j] == bytes[..|f|][j] == Codes(f)[j];
    }
    assert f <= chars;
    FirstHeaderOfFrame(chars, width, height, 0);
    assert chars[..|f|] == f;
  }

  /** The payload pass on a buffer whose stream holds the bytes `d` right after `h` bytes,
      starting at the pixel where they begin, reads `d`. */
  lemma {:induction false} PayloadOfStream(e: seq<Byte>, b: nat, h: nat, d: seq<Byte>, start: nat)
    requires 1 <= b <= 3 && 4 * start < |e| && 3 * start * b == 8 * h
    requires var bytes := WholeBytes(ImageBits(e, b));
             h + |d| <= |bytes| && bytes[h..h + |d|] == d
    ensures PayloadBytes(ImageBits(e, b)[PayloadFrom(e, b, start)..], |d|) == d
  {
    var all := ImageBits(e, b);
    var bytes := WholeBytes(all);
    var sub := all[8 * h..];
    var r := PayloadBytes(sub, |d|);
    PayloadBytesAt(sub, |d|);
    forall t | 0 <= t < |d|
      ensures r[t] == d[t]
    {
      assert sub[8 * t..8 * t + 8] == all[8 * (h + t)..8 * (h + t) + 8];
      assert bytes[h + t] == bytes[h..h + |d|][t];
    }
  }

  /** When a header of `h` characters fills whole pixels and leaves room after it, the
      payload's first pixel holds the bit right after the header, inside the carrier. */
  lemma {:induction false} StartOfFrame(length: nat, b: nat, h: nat, headerEnd: int)
    requires 1 <= b <= 3 && length % 4 == 0 && 1 <= h && headerEnd == h - 1
    requires (8 * h) % (3 * b) == 0 && 8 * h < 3 * (length / 4) * b
    ensures 3 * StartPixel(headerEnd, b) * b == 8 * h && 4 * StartPixel(headerEnd, b) < length
  {
    var start := StartPixel(headerEnd, b);
    assert start == (8 * h) / (3 * b);
    assert 8 * h == 3 * b * start;
  }

  /** An image's byte count, in the order the reader computes it. */
  lemma {:induction false} SizeOfImage(image: ImageData)
    requires ValidImage(image)
    ensures ByteCount(image.width, image.height) == |image.data|
  {
  }

  /** The reader's second pass on a header that matches with a non-zero size reads that many
      bytes from the pixel after the header. */
  lemma {:induction false} RevealPayloadOfMatch(data: seq<Byte>, b: nat, text: string, hd: ImgHeader,
                                               size: nat, start: nat)
    requires 1 <= b <= 3 && MatchImgHeader(text) == Some(hd)
    requires size == ByteCount(hd.width, hd.height) && size > 0 && start == StartPixel(HeaderEnd(text), b)
    ensures RevealPayload(data, b, text)
            == Ok(ImageData(hd.width, hd.height,
                            PayloadBytes(ImageBits(data, b)[PayloadFrom(data, b, start)..], size)))
  {
  }

  /** The reader's second pass on the header of a non-empty secret image, when the header's
      bits fill whole pixels and the stream holds the secret bytes right after it. */
  lemma {:induction false} RevealPayloadOfFrame(e: seq<Byte>, b: nat, secret: ImageData)
    requires 1 <= b <= 3 && |e| % 4 == 0 && ValidImage(secret) && |secret.data| > 0
    requires var f := ImgFrame(secret.width, secret.height);
             (8 * |f|) % (3 * b) == 0 && 8 * (|f| + |secret.data|) <= 3 * (|e| / 4) * b
    requires var f := ImgFrame(secret.width, secret.height);
             var bytes := WholeBytes(ImageBits(e, b));
             |f| + |secret.data| <= |bytes| && bytes[|f|..|f| + |secret.data|] == secret.data
    ensures RevealPayload(e, b, ImgFrame(secret.width, secret.height)) == Ok(secret)
  {
    var f := ImgFrame(secret.width, secret.height);
    HeaderEndOfFrame(secret.width, secret.height);
    StartOfFrame(|e|, b, |f|, HeaderEnd(f));
    var start := StartPixel(HeaderEnd(f), b);
    PayloadOfStream(e, b, |f|, secret.data, start);
    FrameMatches(secret.width, secret.height);
    SizeOfImage(secret);
    var hd := MatchImgHeader(f).value;
    assert ByteCount(hd.width, hd.height) == |secret.data|;
    RevealPayloadOfMatch(e, b, f, hd, |secret.data|, start);
    assert secret == ImageData(hd.width, hd.height, secret.data);
  }

  /** A sequence that starts with `x + y` starts with `x`, which `y` follows. */
  lemma {:induction false} SplitPrefix<T>(s: seq<T>, x: seq<T>, y: seq<T>)
    requires |x| + |y| <= |s| && s[..|x| + |y|] == x + y
    ensures s[..|x|] == x && s[|x|..|x| + |y|] == y
  {
    assert s[..|x|] == s[..|x| + |y|][..|x|];
    assert s[|x|..|x| + |y|] == s[..|x| + |y|][|x|..];
  }

  /** A secret image hidden by `hideImageInImage` is revealed unchanged, when its header is
      found before the 10000-character check, the payload starts at a whole pixel (the
      header's bits fill whole pixels) and the bits fill whole colour channels. */
  lemma {:induction false} HideThenRevealImage(base: seq<Byte>, secret: ImageData, b: nat)
    requires 1 <= b <= 3 && |base| % 4 == 0 && ValidImage(secret) && |secret.data| > 0
    requires |ImgFrame(secret.width, secret.height)| <= MaxBytesToCheck
    requires (8 * |ImgFrame(secret.width, secret.height)|) % (3 * b) == 0
    requires var n := 8 * (|ImgFrame(secret.width, secret.height)| + |secret.data|);
             n <= 3 * (|base| / 4) * b && n % b == 0
    ensures HideImage(base, secret, b).Ok?
    ensures RevealImage(HideImage(base, secret, b).value, b) == Ok(secret)
  {
    var f := ImgFrame(secret.width, secret.height);
    FrameLatin1(secret.width, secret.height);
    CodeBitsLatin1(f);
    assert (|base| / 4) * 3 * b == 3 * (|base| / 4) * b;
    var e := Embedded(base, CodeBits(f) + ByteBits(secret.data), b);
    ImageStream(base, secret, b);
    SplitPrefix(WholeBytes(ImageBits(e, b)), Codes(f), secret.data);
    HeaderOfStream(e, b, secret.width, secret.height);
    RevealPayloadOfFrame(e, b, secret);
  }
}
