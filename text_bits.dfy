/** What the text methods share: a message is followed by the end marker '§', turned into
    the bits of its UTF-8 bytes, and read back by grouping bits into bytes, decoding them and
    cutting at the first marker. */
module TextBits {
  import opened Bits
  import opened JsString
  import Utf8

  const EndMarker: char := '§'

  /** `Array.from(new TextEncoder().encode(s)).map(b => b.toString(2).padStart(8, '0')).join('')`. */
  function Utf8Bits(s: string): (r: seq<Bit>)
    ensures |r| == 8 * |Utf8.Encode(s)|
  {
    ByteBits(Utf8.Encode(s))
  }

  /** `i !== -1 ? s.substring(0, i) : s` for `i = s.indexOf('§')`: the text before the first
      marker, or all of it. */
  function CutAtMarker(s: string): (r: string)
    ensures r <= s && EndMarker !in r
    ensures |r| < |s| ==> s[|r|] == EndMarker
  {
    var i := IndexOf(s, EndMarker, 0);
    if i != -1 then s[..i] else s
  }

  /** A message free of the marker is cut out exactly, whatever follows its marker. */
  lemma {:induction false} CutAtMarkerOf(m: string, rest: string)
    requires EndMarker !in m
    ensures CutAtMarker(m + [EndMarker] + rest) == m
  {
    var s := m + [EndMarker] + rest;
    assert s[|m|] == EndMarker;
    assert forall j :: 0 <= j < |m| ==> s[j] == m[j];
    assert IndexOf(s, EndMarker, 0) == |m|;
    assert s[..|m|] == m;
  }

  /** The decoders' byte loop: every complete group of eight bits, read as a binary number,
      in order (`substr(i, 8)` with `if (byte.length === 8)`). */
  method GroupBytes(bits: seq<Bit>) returns (bytes: seq<Byte>)
    ensures bytes == WholeBytes(bits)
  {
    bytes := [];
    var i := 0;
    while i < |bits|
      invariant 8 * |bytes| <= |bits|
      invariant i == 8 * |bytes| || (i == 8 * |bytes| + 8 && |bits| < i)
      invariant forall k :: 0 <= k < |bytes| ==> bytes[k] == FromBits(bits[8 * k..8 * k + 8])
      decreases |bits| - i
    {
      if i + 8 <= |bits| {
        bytes := bytes + [FromBits(bits[i..i + 8])];
      }
      i := i + 8;
    }
  }

  /** Reading back a marked message: its UTF-8 bits, then any bits at all, grouped into
      bytes, decoded by `TextDecoder` and cut at the first marker give the message. The
      message must hold no marker, and must not start with a byte-order mark (the decoder
      drops one). */
  lemma {:induction false} MarkedMessageRoundTrip(m: string, rest: seq<Bit>)
    requires EndMarker !in m && (|m| == 0 || m[0] != Utf8.ByteOrderMark)
    ensures CutAtMarker(Utf8.TextDecode(WholeBytes(Utf8Bits(m + [EndMarker]) + rest))) == m
  {
    var s := m + [EndMarker];
    WholeBytesOfByteBits(Utf8.Encode(s), rest);
    Utf8.TextDecodeOfEncode(s, WholeBytes(rest));
    CutAtMarkerOf(m, Utf8.DecodeReplacing(WholeBytes(rest)));
  }
}
