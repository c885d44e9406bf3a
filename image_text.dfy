/** `revealTextFromImage` and `peekInitialTextFromImage`: the text readers of the image codec.
    Both decode the bit stream of `Image.ImageBits` eight bits at a time into characters; the
    full reader also looks for a `TEXT:<length>:` header among the first 200 characters. */
module ImageText {
  import opened Bits
  import opened Wrappers
  import opened JsString
  import opened Image

  // ---------------------------------------------------------------------------------------
  // The header

  /** A match of `/^TEXT:(\d+):/`: the length of the match and the parsed number. */
  datatype TextHeader = TextHeader(end: nat, length: nat)

  /** `s` starts with `TEXT:`, a non-empty run of digits ending before `e`, and `:` at `e`. */
  predicate TextHeaderShape(s: string, e: nat)
  {
    5 < e < |s| && s[..5] == "TEXT:" && AllDigits(s[5..e]) && s[e] == ':'
  }

  /** `s.match(/^TEXT:(\d+):/)`: `\d+` is greedy, and as `:` is not a digit the only place
      the match can end is right after the run of digits that follows `TEXT:`. */
  function TextHeaderOf(s: string): (r: Option<TextHeader>)
  {
    if |s| < 5 || s[..5] != "TEXT:" then None
    else
      var e := DigitRun(s, 5);
      if e == 5 || e == |s| || s[e] != ':' then None
      else Some(TextHeader(e + 1, DecimalValue(s[5..e])))
  }

  /** A match is `TEXT:`, the digits of the announced length and a `:`. */
  lemma {:induction false} TextHeaderOfShape(s: string)
    ensures var r := TextHeaderOf(s);
            r.Some? ==> r.value.end >= 7 && TextHeaderShape(s, r.value.end - 1)
                        && r.value.length == DecimalValue(s[5..r.value.end - 1])
  {
  }

  /** The regular expression fails exactly when no header shape is present. */
  lemma {:induction false} TextHeaderOfNone(s: string, e: nat)
    requires TextHeaderShape(s, e)
    ensures TextHeaderOf(s) == Some(TextHeader(e + 1, DecimalValue(s[5..e])))
  {
    forall j | 5 <= j < e
      ensures IsDigit(s[j])
    {
      assert s[j] == s[5..e][j - 5];
    }
    DigitRunOf(s, 5, e);
  }

  /** A header found in a prefix is the header of every extension. */
  lemma {:induction false} TextHeaderPrefix(p: string, q: string)
    requires p <= q && TextHeaderOf(p).Some?
    ensures TextHeaderOf(q) == TextHeaderOf(p)
  {
    var e := TextHeaderOf(p).value.end - 1;
    assert p[..5] == q[..5] && p[5..e] == q[5..e] && p[e] == q[e];
    TextHeaderOfNone(q, e);
  }

  /** The header the reader accepts in the characters `s` decoded so far: only the first 200
      are ever searched. */
  function HeaderAt(s: string): (r: Option<TextHeader>)
    ensures r.Some? ==> r.value.end <= Min(HeaderSearchLimit, |s|)
  {
    TextHeaderOfShape(s[..Min(HeaderSearchLimit, |s|)]);
    TextHeaderOf(s[..Min(HeaderSearchLimit, |s|)])
  }

  lemma {:induction false} HeaderAtPrefix(p: string, q: string)
    requires p <= q && HeaderAt(p).Some?
    ensures HeaderAt(q) == HeaderAt(p)
  {
    TextHeaderPrefix(p[..Min(HeaderSearchLimit, |p|)], q[..Min(HeaderSearchLimit, |q|)]);
  }

  /** The header of a framed message `TEXT:<n>:<m>` is the frame, when it fits in the search. */
  lemma {:induction false} HeaderOfFramed(n: nat, rest: string)
    requires |NatToString(n)| <= HeaderSearchLimit - 6
    ensures var s := "TEXT:" + NatToString(n) + ":" + rest;
            HeaderAt(s) == Some(TextHeader(|NatToString(n)| + 6, n))
  {
    var d := NatToString(n);
    var s := "TEXT:" + d + ":" + rest;
    var e := |d| + 5;
    assert s[..5] == "TEXT:" && s[5..e] == d && s[e] == ':';
    var p := s[..Min(HeaderSearchLimit, |s|)];
    assert p[..5] == "TEXT:" && p[5..e] == d && p[e] == ':';
    TextHeaderOfNone(p, e);
    DecimalValueOfNatToString(n);
  }

  // ---------------------------------------------------------------------------------------
  // revealTextFromImage

  /** What `revealTextFromImage` returns: the error for a `bpc` outside 1..3, otherwise what
      `RevealChars` makes of the decoded characters. */
  function RevealText(data: seq<Byte>, b: int): Result<string>
  {
    if b < 1 || b > 3 then Err(BpcError) else RevealChars(ImageChars(data, b))
  }

  /** With a header among the first 200 characters, exactly the announced number of
      characters after it (an error when fewer were decoded); without one, every character. */
  function RevealChars(chars: string): Result<string>
  {
    match HeaderAt(chars)
    case None => Ok(chars)
    case Some(h) =>
      if h.end + h.length <= |chars| then Ok(chars[h.end..h.end + h.length])
      else Err(IncompleteText)
  }

  /** The reader's local variables: `binaryData`, `stringBeingBuilt`, `headerFound`,
      `messageLength` and `actualMessageContentAfterTextHeader`. */
  datatype TextScan = TextScan(binary: seq<Bit>, built: string, headerFound: bool,
                               messageLength: nat, content: string)

  /** Character `q` of a bit stream: the byte of bits `8 q .. 8 q + 8`. */
  function CharOf(all: seq<Bit>, q: nat): char
    requires 8 * q + 8 <= |all|
  {
    assert Pow2(8) == 256;
    FromBits(all[8 * q..8 * q + 8]) as char
  }

  /** `chars` holds the characters decoded from the bit stream `all`: one per whole byte. */
  predicate Decodes(all: seq<Bit>, chars: string)
  {
    |chars| == |all| / 8
    && forall q {:trigger CharOf(all, q)} :: 0 <= q < |chars| ==> chars[q] == CharOf(all, q)
  }

  /** The bit stream of an image and the characters it decodes to. */
  lemma {:induction false} StreamOfImage(data: seq<Byte>, b: nat) returns (all: seq<Bit>, chars: string)
    ensures all == ImageBits(data, b) && Decodes(all, chars)
  {
    all, chars := ImageBits(data, b), ImageChars(data, b);
    forall q | 0 <= q < |chars|
      ensures chars[q] == CharOf(all, q)
    {
      assert chars[q] == WholeBytes(all)[q] as char;
    }
  }

  /** The characters decoded from an image's stream are the image's characters. */
  lemma {:induction false} CharsOfStream(data: seq<Byte>, b: nat, all: seq<Bit>, chars: string)
    requires all == ImageBits(data, b) && Decodes(all, chars)
    ensures chars == ImageChars(data, b)
  {
    var img := ImageChars(data, b);
    forall q | 0 <= q < |chars|
      ensures chars[q] == img[q]
    {
      assert chars[q] == CharOf(all, q);
      assert img[q] == WholeBytes(all)[q] as char;
    }
  }

  /** The scan state after the first `pos` bits of the stream `all`, which decodes to `chars`,
      when the reader has not returned yet. */
  predicate Scanned(all: seq<Bit>, chars: string, s: TextScan, pos: nat)
  {
    pos <= |all| && |chars| == |all| / 8 && s.binary == Pending(all, pos)
    && CharsScanned(chars, s, pos / 8)
  }

  /** The character part of the scan state after `q` decoded characters. */
  predicate CharsScanned(chars: string, s: TextScan, q: nat)
  {
    q <= |chars| && s.built == chars[..q]
    && s.headerFound == HeaderAt(s.built).Some?
    && (s.headerFound ==>
          var h := HeaderAt(s.built).value;
          s.messageLength == h.length && s.content == s.built[h.end..] && |s.content| < h.length)
  }

  /** Character `q` of the decoded text is the byte of stream bits `8q .. 8q + 8`. */
  lemma {:induction false} CharStep(all: seq<Bit>, chars: string, pos: nat)
    requires Decodes(all, chars) && pos % 8 == 7 && pos < |all|
    ensures pos - 7 >= 0 && FromBits(all[pos - 7..pos + 1]) < 256
            && chars[..(pos + 1) / 8] == chars[..pos / 8] + [FromBits(all[pos - 7..pos + 1]) as char]
  {
    var q := pos / 8;
    assert pos - 7 == 8 * q && pos + 1 == 8 * q + 8;
    assert Pow2(8) == 256;
    assert chars[q] == CharOf(all, q);
  }

  /** A header-complete scan that returns: the result is what the specification gives. */
  lemma {:induction false} ReturnsRevealed(chars: string, built: string, content: string)
    requires built <= chars && HeaderAt(built).Some?
    requires var h := HeaderAt(built).value;
             h.end <= |built| && content == built[h.end..] && |content| >= h.length
    ensures RevealChars(chars) == Ok(content[..HeaderAt(built).value.length])
  {
    HeaderAtPrefix(built, chars);
    var h := HeaderAt(built).value;
    assert chars[h.end..h.end + h.length] == content[..h.length];
  }

  /** A scan that reaches the end of the stream: every character is decoded, and a header
      found on the way announced more characters than there are. */
  lemma {:induction false} ScanEnd(data: seq<Byte>, b: nat, all: seq<Bit>, chars: string, s: TextScan, pos: nat)
    requires 1 <= b <= 3 && all == ImageBits(data, b) && Decodes(all, chars)
    requires Scanned(all, chars, s, pos) && pos == |all|
    ensures RevealText(data, b) == (if s.headerFound then Err(IncompleteText) else Ok(s.built))
  {
    CharsOfStream(data, b, all, chars);
    assert s.built == chars;
  }

  /** A scan that returns early returns what the image reveals. */
  lemma {:induction false} ScanReturns(data: seq<Byte>, b: nat, all: seq<Bit>, chars: string, message: string)
    requires 1 <= b <= 3 && all == ImageBits(data, b) && Decodes(all, chars)
    requires RevealChars(chars) == Ok(message)
    ensures RevealText(data, b) == Ok(message)
  {
    CharsOfStream(data, b, all, chars);
  }

  /** The body of the innermost loop: one bit is appended; on a whole byte, a character is
      decoded. */
  method AcceptTextBit(ghost all: seq<Bit>, ghost chars: string, s: TextScan, bit: Bit, ghost pos: nat)
    returns (t: TextScan, done: Option<string>)
    requires Decodes(all, chars) && Scanned(all, chars, s, pos) && pos < |all| && bit == all[pos]
    ensures done.None? ==> Scanned(all, chars, t, pos + 1)
    ensures done.Some? ==> RevealChars(chars) == Ok(done.value)
  {
    PendingStep(all, pos);
    var binary := s.binary + [bit];
    if |binary| != 8 {
      return s.(binary := binary), None;
    }
    CharStep(all, chars, pos);
    assert binary == all[pos - 7..pos + 1];
    t, done := AcceptTextChar(chars, s, FromBits(binary) as char, pos / 8);
  }

  /** A decoded character: while no header is known and at most 200 characters are decoded,
      the header is searched for; after the header the message content grows, and the reader
      returns once it holds the announced length. */
  method AcceptTextChar(ghost chars: string, s: TextScan, ch: char, ghost q: nat)
    returns (t: TextScan, done: Option<string>)
    requires CharsScanned(chars, s, q) && q < |chars| && ch == chars[q]
    ensures done.None? ==> CharsScanned(chars, t, q + 1) && t.binary == []
    ensures done.Some? ==> RevealChars(chars) == Ok(done.value)
  {
    var built := s.built + [ch];
    assert built == chars[..q + 1] && built <= chars;
    if !s.headerFound {
      if |built| <= HeaderSearchLimit {
        var m := TextHeaderOf(built);
        assert built[..Min(HeaderSearchLimit, |built|)] == built;
        if m.Some? {
          var content := built[m.value.end..];
          if |content| >= m.value.length {
            ReturnsRevealed(chars, built, content);
            return s, Some(content[..m.value.length]);
          }
          return TextScan([], built, true, m.value.length, content), None;
        }
      } else {
        assert built[..HeaderSearchLimit] == s.built[..HeaderSearchLimit];
      }
      return TextScan([], built, false, s.messageLength, s.content), None;
    } else {
      HeaderAtPrefix(s.built, built);
      var content := s.content + [ch];
      assert content == built[HeaderAt(built).value.end..];
      if |content| >= s.messageLength {
        ReturnsRevealed(chars, built, content);
        return s, Some(content[..s.messageLength]);
      }
      return TextScan([], built, true, s.messageLength, content), None;
    }
  }

  /** The loop over the `bpc` low bits of one channel value, bit `bpc - 1` first. */
  method ScanTextChannel(ghost all: seq<Bit>, ghost chars: string, b: nat, value: Byte, s: TextScan,
                         ghost base: nat)
    returns (t: TextScan, done: Option<string>)
    requires Decodes(all, chars) && ChannelBitsAt(all, base, value, b) && Scanned(all, chars, s, base)
    ensures done.None? ==> Scanned(all, chars, t, base + b)
    ensures done.Some? ==> RevealChars(chars) == Ok(done.value)
  {
    ghost var pos: nat := base;
    var k: int := b - 1;
    t := s;
    while k >= 0
      invariant -1 <= k < b && pos == base + (b - 1 - k) && Scanned(all, chars, t, pos)
    {
      t, done := AcceptTextBit(all, chars, t, ReadBit(value, k), pos);
      if done.Some? {
        return;
      }
      k := k - 1;
      pos := pos + 1;
    }
    assert pos == base + b;
    done := None;
  }

  /** The loop over the R, G and B channels of one pixel, whose first bit is stream bit
      `base`. */
  method ScanTextPixel(ghost all: seq<Bit>, ghost chars: string, b: nat, px: seq<Byte>, s: TextScan,
                       ghost base: nat)
    returns (t: TextScan, done: Option<string>)
    requires Decodes(all, chars) && |px| == 3 && Scanned(all, chars, s, base)
    requires PixelInStream(all, base, px, b)
    ensures done.None? ==> Scanned(all, chars, t, base + 3 * b)
    ensures done.Some? ==> RevealChars(chars) == Ok(done.value)
  {
    ghost var pos: nat := base;
    t := s;
    var j := 0;
    while j < 3
      invariant 0 <= j <= 3 && pos == base + ChannelsSpan(j, b) && Scanned(all, chars, t, pos)
    {
      PixelChannel(all, base, px, b, j, pos);
      t, done := ScanTextChannel(all, chars, b, px[j], t, pos);
      if done.Some? {
        return;
      }
      j := j + 1;
      pos := pos + b;
    }
    PixelSpan(b);
    done := None;
  }

  /** `revealTextFromImage(canvas, bpc)` on the canvas's RGBA bytes. */
  method RevealTextFromImage(data: seq<Byte>, b: int) returns (r: Result<string>)
    requires |data| % 4 == 0
    ensures r == RevealText(data, b)
  {
    if b < 1 || b > 3 {
      return Err(BpcError);
    }
    ghost var all, chars := StreamOfImage(data, b);
    ghost var pos: nat := 0;
    ghost var p: nat := 0;
    var s := TextScan([], [], false, 0, []);
    var i := 0;
    while i < |data|
      invariant i == 4 * p && i <= |data| && pos == BitsBefore(p, b) && Scanned(all, chars, s, pos)
    {
      var done;
      NextPixel(data, b, i, p, pos);
      s, done := ScanTextPixel(all, chars, b, data[i..i + 3], s, pos);
      if done.Some? {
        ScanReturns(data, b, all, chars, done.value);
        return Ok(done.value);
      }
      i := i + 4;
      pos := pos + 3 * b;
      p := p + 1;
    }
    StreamEnd(data, b, p, pos);
    ScanEnd(data, b, all, chars, s, pos);
    // The whole stream is read: a header found earlier announced more than remained.
    if s.headerFound {
      return Err(IncompleteText);
    }
    return Ok(s.built);
  }

  // ---------------------------------------------------------------------------------------
  // peekInitialTextFromImage

  /** What `peekInitialTextFromImage` returns: the first `limit` decoded characters (all of
      them when fewer were decoded, none for a non-positive limit). A negative `bpc` reads no
      bits, like zero. */
  function PeekText(data: seq<Byte>, b: int, limit: int): string
  {
    var chars := ImageChars(data, if b < 0 then 0 else b);
    chars[..Min(if limit < 0 then 0 else limit, |chars|)]
  }

  /** The peek state after the first `pos` bits of the stream: `binaryData` holds the bits of
      the unfinished byte and `revealedChars` the characters decoded. */
  predicate Peeked(all: seq<Bit>, chars: string, binary: seq<Bit>, revealed: string, pos: nat)
  {
    pos <= |all| && |chars| == |all| / 8 && binary == Pending(all, pos)
    && revealed == chars[..pos / 8]
  }

  /** The innermost loop's body; `done` is the `revealedChars.length >= charLimit` break. */
  method PeekBit(ghost all: seq<Bit>, ghost chars: string, binary: seq<Bit>, revealed: string,
                 bit: Bit, limit: int, ghost pos: nat)
    returns (binary': seq<Bit>, revealed': string, done: bool)
    requires Decodes(all, chars) && Peeked(all, chars, binary, revealed, pos)
    requires |revealed| < limit && pos < |all| && bit == all[pos]
    ensures !done ==> Peeked(all, chars, binary', revealed', pos + 1) && |revealed'| < limit
    ensures done ==> limit <= |chars| && revealed' == chars[..limit]
  {
    PendingStep(all, pos);
    binary' := binary + [bit];
    revealed' := revealed;
    done := false;
    if |binary'| == 8 {
      CharStep(all, chars, pos);
      assert binary' == all[pos - 7..pos + 1];
      revealed' := revealed + [FromBits(binary') as char];
      binary' := [];
      done := |revealed'| >= limit;
    }
  }

  method PeekChannel(ghost all: seq<Bit>, ghost chars: string, b: nat, value: Byte,
                     binary: seq<Bit>, revealed: string, limit: int, ghost base: nat)
    returns (binary': seq<Bit>, revealed': string, done: bool)
    requires Decodes(all, chars) && ChannelBitsAt(all, base, value, b)
    requires Peeked(all, chars, binary, revealed, base) && |revealed| < limit
    ensures !done ==> Peeked(all, chars, binary', revealed', base + b) && |revealed'| < limit
    ensures done ==> limit <= |chars| && revealed' == chars[..limit]
  {
    ghost var pos: nat := base;
    binary', revealed', done := binary, revealed, false;
    var k: int := b - 1;
    while k >= 0
      invariant -1 <= k < b && pos == base + (b - 1 - k)
      invariant Peeked(all, chars, binary', revealed', pos) && |revealed'| < limit
    {
      binary', revealed', done := PeekBit(all, chars, binary', revealed', ReadBit(value, k), limit, pos);
      if done {
        return;
      }
      k := k - 1;
      pos := pos + 1;
    }
    assert pos == base + b;
  }

  method PeekPixel(ghost all: seq<Bit>, ghost chars: string, b: nat, px: seq<Byte>,
                   binary: seq<Bit>, revealed: string, limit: int, ghost base: nat)
    returns (binary': seq<Bit>, revealed': string, done: bool)
    requires Decodes(all, chars) && |px| == 3
    requires Peeked(all, chars, binary, revealed, base) && |revealed| < limit
    requires PixelInStream(all, base, px, b)
    ensures !done ==> Peeked(all, chars, binary', revealed', base + 3 * b) && |revealed'| < limit
    ensures done ==> limit <= |chars| && revealed' == chars[..limit]
  {
    ghost var pos: nat := base;
    binary', revealed', done := binary, revealed, false;
    var j := 0;
    while j < 3
      invariant 0 <= j <= 3 && pos == base + ChannelsSpan(j, b)
      invariant Peeked(all, chars, binary', revealed', pos) && |revealed'| < limit
    {
      PixelChannel(all, base, px, b, j, pos);
      binary', revealed', done := PeekChannel(all, chars, b, px[j], binary', revealed', limit, pos);
      if done {
        return;
      }
      j := j + 1;
      pos := pos + b;
    }
    PixelSpan(b);
  }

  /** `peekInitialTextFromImage(canvas, bpc, charLimit)` on the canvas's RGBA bytes. */
  method PeekInitialTextFromImage(data: seq<Byte>, b: int, limit: int) returns (r: string)
    requires |data| % 4 == 0
    ensures r == PeekText(data, b, limit)
  {
    // The `revealedChars.length >= charLimit` check before each pixel can only succeed before
    // the first one: afterwards the reader has returned as soon as the limit was reached.
    if limit <= 0 {
      return [];
    }
    var bn: nat := if b < 0 then 0 else b;
    r := PeekPixels(data, bn, limit);
  }

  /** The pixel loop of the peek. */
  method PeekPixels(data: seq<Byte>, b: nat, limit: int) returns (r: string)
    requires |data| % 4 == 0 && limit > 0
    ensures var chars := ImageChars(data, b);
            r == chars[..Min(limit, |chars|)]
  {
    ghost var all, chars := StreamOfImage(data, b);
    ghost var pos: nat := 0;
    ghost var p: nat := 0;
    var binary: seq<Bit> := [];
    r := [];
    var i := 0;
    while i < |data|
      invariant i == 4 * p && i <= |data| && pos == BitsBefore(p, b)
      invariant Peeked(all, chars, binary, r, pos) && |r| < limit
    {
      var done;
      NextPixel(data, b, i, p, pos);
      binary, r, done := PeekPixel(all, chars, b, data[i..i + 3], binary, r, limit, pos);
      if done {
        PeekReachedLimit(data, b, all, chars, r, limit);
        return;
      }
      i := i + 4;
      pos := pos + 3 * b;
      p := p + 1;
    }
    StreamEnd(data, b, p, pos);
    PeekedAll(data, b, all, chars, binary, r, pos, limit);
  }

  /** The peek stops at the limit: the characters revealed are the first `limit`. */
  lemma {:induction false} PeekReachedLimit(data: seq<Byte>, b: nat, all: seq<Bit>, chars: string, r: string,
                         limit: int)
    requires all == ImageBits(data, b) && Decodes(all, chars)
    requires 0 <= limit <= |chars| && r == chars[..limit]
    ensures var chars := ImageChars(data, b);
            r == chars[..Min(limit, |chars|)]
  {
    CharsOfStream(data, b, all, chars);
  }

  /** The whole stream is read before the limit is reached: every character was revealed. */
  lemma {:induction false} PeekedAll(data: seq<Byte>, b: nat, all: seq<Bit>, chars: string, binary: seq<Bit>,
                  r: string, pos: nat, limit: int)
    requires all == ImageBits(data, b) && Decodes(all, chars)
    requires Peeked(all, chars, binary, r, pos) && pos == |all| && |r| < limit
    ensures var chars := ImageChars(data, b);
            r == chars[..Min(limit, |chars|)]
  {
    CharsOfStream(data, b, all, chars);
  }

  // ---------------------------------------------------------------------------------------
  // hideTextInImage

  /** `TEXT:${message.length}:${message}`. */
  function Framed(message: string): string
  {
    "TEXT:" + NatToString(|message|) + ":" + message
  }

  /** The error for a message the image cannot hold; it quotes `Math.floor(availableBits / 8)`. */
  function TooLong(availableBits: nat): string
  {
    "Zpráva je příliš dlouhá pro tento obrázek. Maximální délka je přibližně "
    + NatToString(availableBits / 8) + " bajtů."
  }

  /** What `hideTextInImage` leaves in the RGBA bytes, or its error: the framed message's
      bits go into the colour channels when they fit in `3 * bpc` bits per pixel. */
  function HideText(data: seq<Byte>, message: string, b: int): Result<seq<Byte>>
  {
    if b < 1 || b > 3 then Err(BpcError)
    else
      var bits := CodeBits(Framed(message));
      var available := 3 * (|data| / 4) * b;
      if |bits| > available then Err(TooLong(available)) else Ok(Embedded(data, bits, b))
  }

  /** `hideTextInImage(canvas, message, bpc)` on the canvas's RGBA bytes, which it changes in
      place; on an error they are left as they were. */
  method HideTextInImage(data: array<Byte>, message: string, b: int) returns (r: Result<seq<Byte>>)
    requires data.Length % 4 == 0
    modifies data
    ensures r == HideText(old(data[..]), message, b)
    ensures data[..] == if r.Ok? then r.value else old(data[..])
  {
    if b < 1 || b > 3 {
      return Err(BpcError);
    }
    var framed := "TEXT:" + NatToString(|message|) + ":" + message;
    var bits := TextToBinary(framed);
    assert data.Length - data.Length / 4 == 3 * (data.Length / 4);
    var available := (data.Length - data.Length / 4) * b;
    if |bits| > available {
      return Err(TooLong(available));
    }
    EmbedBits(data, bits, b);
    return Ok(data[..]);
  }

  /** The framed message of Latin-1 text is Latin-1 text. */
  lemma {:induction false} FramedLatin1(message: string)
    requires IsLatin1(message)
    ensures IsLatin1(Framed(message))
  {
    var d := NatToString(|message|);
    var f := Framed(message);
    forall i | 0 <= i < |f|
      ensures (f[i] as int) < 256
    {
      if i < 5 {
        assert f[i] == "TEXT:"[i];
      } else if i < 5 + |d| {
        assert f[i] == d[i - 5] && IsDigit(d[i - 5]);
      } else if i == 5 + |d| {
        assert f[i] == ':';
      } else {
        assert f[i] == message[i - 6 - |d|];
      }
    }
  }

  /** The characters read back from an image holding the framed message: the frame first. */
  lemma {:induction false} FramedChars(data: seq<Byte>, message: string, b: nat)
    requires 1 <= b <= 3 && |data| % 4 == 0 && IsLatin1(message)
    requires var n := 8 * |Framed(message)|; n <= 3 * (|data| / 4) * b && n % b == 0
    ensures var chars := ImageChars(Embedded(data, CodeBits(Framed(message)), b), b);
            |Framed(message)| <= |chars| && chars[..|Framed(message)|] == Framed(message)
  {
    var f := Framed(message);
    FramedLatin1(message);
    CodeBitsLatin1(f);
    var bits := CodeBits(f);
    var e := Embedded(data, bits, b);
    ReadBackAligned(data, bits, b);
    var all := ImageBits(e, b);
    var rest := all[|bits|..];
    assert all == ByteBits(Codes(f)) + rest;
    WholeBytesOfByteBits(Codes(f), rest);
    var chars := ImageChars(e, b);
    assert chars == Latin1(Codes(f) + WholeBytes(rest));
    forall i | 0 <= i < |f|
      ensures chars[i] == f[i]
    {
      assert chars[i] as int == (Codes(f) + WholeBytes(rest))[i] == f[i] as int;
    }
  }

  /** A hidden Latin-1 message is revealed unchanged, when its frame's header lies within
      the 200 characters searched and its bits fill whole colour channels. */
  lemma {:induction false} HideThenRevealText(data: seq<Byte>, message: string, b: nat)
    requires 1 <= b <= 3 && |data| % 4 == 0 && IsLatin1(message)
    requires |NatToString(|message|)| <= HeaderSearchLimit - 6
    requires var n := 8 * |Framed(message)|; n <= 3 * (|data| / 4) * b && n % b == 0
    ensures HideText(data, message, b).Ok?
    ensures RevealText(HideText(data, message, b).value, b) == Ok(message)
  {
    var f := Framed(message);
    FramedLatin1(message);
    CodeBitsLatin1(f);
    var e := Embedded(data, CodeBits(f), b);
    FramedChars(data, message, b);
    var chars := ImageChars(e, b);
    assert chars == f + chars[|f|..];
    RevealFramed(message, chars[|f|..]);
  }

  /** Whatever follows a framed message, the reader returns the message. */
  lemma {:induction false} RevealFramed(message: string, tail: string)
    requires |NatToString(|message|)| <= HeaderSearchLimit - 6
    ensures RevealChars(Framed(message) + tail) == Ok(message)
  {
    var d := NatToString(|message|);
    var chars := Framed(message) + tail;
    assert chars == "TEXT:" + d + ":" + (message + tail);
    HeaderOfFramed(|message|, message + tail);
    assert chars[|d| + 6..|d| + 6 + |message|] == message;
  }

  /** Peeking at an image holding a Latin-1 message shows the start of its frame. */
  lemma {:induction false} HideThenPeekText(data: seq<Byte>, message: string, b: nat, limit: nat)
    requires 1 <= b <= 3 && |data| % 4 == 0 && IsLatin1(message) && limit <= |Framed(message)|
    requires var n := 8 * |Framed(message)|; n <= 3 * (|data| / 4) * b && n % b == 0
    ensures HideText(data, message, b).Ok?
    ensures PeekText(HideText(data, message, b).value, b, limit) == Framed(message)[..limit]
  {
    var f := Framed(message);
    FramedLatin1(message);
    CodeBitsLatin1(f);
    FramedChars(data, message, b);
  }
}
