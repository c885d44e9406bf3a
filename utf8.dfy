/** UTF-8 as the browser's `TextEncoder` and `TextDecoder` implement it: the encoder of
    RFC 3629, and the decoder of the WHATWG Encoding standard, which replaces every maximal
    ill-formed subsequence with U+FFFD (or fails, in fatal mode) and drops a leading
    byte-order mark. */
module Utf8 {
  import opened Bits
  import opened Wrappers

  const Replacement: char := '\U{FFFD}'
  const ByteOrderMark: char := '\U{FEFF}'

  /** RFC 3629, section 3: one to four bytes for one scalar value. */
  function EncodeChar(c: char): (r: seq<Byte>)
    ensures 1 <= |r| <= 4
  {
    var n := c as int;
    if n < 0x80 then [n]
    else if n < 0x800 then [0xC0 + n / 64, 0x80 + n % 64]
    else if n < 0x10000 then [0xE0 + n / 4096, 0x80 + (n / 64) % 64, 0x80 + n % 64]
    else [0xF0 + n / 262144, 0x80 + (n / 4096) % 64, 0x80 + (n / 64) % 64, 0x80 + n % 64]
  }

  /** `new TextEncoder().encode(s)`. */
  function Encode(s: string): (r: seq<Byte>)
    ensures |r| >= |s|
  {
    if s == [] then [] else EncodeChar(s[0]) + Encode(s[1..])
  }

  /** One step of the decoder: a well-formed sequence and its length, or an ill-formed
      subsequence (the lead byte and the continuation bytes accepted before the error). */
  datatype Step = Scalar(c: char, len: nat) | Malformed(len: nat)

  predicate IsContinuation(b: Byte) { 0x80 <= b <= 0xBF }

  function DecodeStep(bs: seq<Byte>): (r: Step)
    requires |bs| > 0
    ensures 1 <= r.len <= |bs|
  {
    var b0: int := bs[0];
    if b0 < 0x80 then Scalar(b0 as char, 1)
    else if 0xC2 <= b0 <= 0xDF then
      if |bs| < 2 || !IsContinuation(bs[1]) then Malformed(1)
      else Scalar(((b0 - 0xC0) * 64 + (bs[1] as int - 0x80)) as char, 2)
    else if 0xE0 <= b0 <= 0xEF then
      var lo := if b0 == 0xE0 then 0xA0 else 0x80;
      var hi := if b0 == 0xED then 0x9F else 0xBF;
      if |bs| < 2 || !(lo <= bs[1] <= hi) then Malformed(1)
      else if |bs| < 3 || !IsContinuation(bs[2]) then Malformed(2)
      else Scalar(((b0 - 0xE0) * 4096 + (bs[1] as int - 0x80) * 64 + (bs[2] as int - 0x80)) as char, 3)
    else if 0xF0 <= b0 <= 0xF4 then
      var lo := if b0 == 0xF0 then 0x90 else 0x80;
      var hi := if b0 == 0xF4 then 0x8F else 0xBF;
      if |bs| < 2 || !(lo <= bs[1] <= hi) then Malformed(1)
      else if |bs| < 3 || !IsContinuation(bs[2]) then Malformed(2)
      else if |bs| < 4 || !IsContinuation(bs[3]) then Malformed(3)
      else Scalar(((b0 - 0xF0) * 262144 + (bs[1] as int - 0x80) * 4096
                   + (bs[2] as int - 0x80) * 64 + (bs[3] as int - 0x80)) as char, 4)
    else Malformed(1)
  }

  /** The replacement-mode decoder, before byte-order-mark handling. */
  function DecodeReplacing(bs: seq<Byte>): string
    decreases |bs|
  {
    if bs == [] then []
    else match DecodeStep(bs)
      case Scalar(c, n) => [c] + DecodeReplacing(bs[n..])
      case Malformed(n) => [Replacement] + DecodeReplacing(bs[n..])
  }

  /** The fatal-mode decoder, before byte-order-mark handling. */
  function DecodeFatal(bs: seq<Byte>): Option<string>
    decreases |bs|
  {
    if bs == [] then Some([])
    else match DecodeStep(bs)
      case Scalar(c, n) => (match DecodeFatal(bs[n..])
                              case Some(t) => Some([c] + t)
                              case None => None)
      case Malformed(_) => None
  }

  function StripBom(s: string): string
  {
    if |s| > 0 && s[0] == ByteOrderMark then s[1..] else s
  }

  /** `new TextDecoder().decode(bytes)`. */
  function TextDecode(bs: seq<Byte>): string
  {
    StripBom(DecodeReplacing(bs))
  }

  /** `new TextDecoder('utf-8', { fatal: true }).decode(bytes)`; `None` where it throws. */
  function TextDecodeFatal(bs: seq<Byte>): Option<string>
  {
    match DecodeFatal(bs)
    case Some(t) => Some(StripBom(t))
    case None => None
  }

  /** The decoder reads back exactly the scalar value an encoding holds, whatever follows. */
  lemma {:induction false} DecodeStepOfEncodeChar(c: char, rest: seq<Byte>)
    ensures DecodeStep(EncodeChar(c) + rest) == Scalar(c, |EncodeChar(c)|)
  {
    var n := c as int;
    if n < 0x80 {
    } else if n < 0x800 {
      DecodeTwo(c, rest);
    } else if n < 0x10000 {
      DecodeThree(c, rest);
    } else {
      DecodeFour(c, rest);
    }
  }

  lemma {:induction false} DecodeTwo(c: char, rest: seq<Byte>)
    requires 0x80 <= c as int < 0x800
    ensures DecodeStep(EncodeChar(c) + rest) == Scalar(c, 2)
  {
    var n := c as int;
    var bs := EncodeChar(c) + rest;
    assert bs[0] == 0xC0 + n / 64 && bs[1] == 0x80 + n % 64;
  }

  lemma {:induction false} DecodeThree(c: char, rest: seq<Byte>)
    requires 0x800 <= c as int < 0x10000
    ensures DecodeStep(EncodeChar(c) + rest) == Scalar(c, 3)
  {
    var n := c as int;
    var bs := EncodeChar(c) + rest;
    assert (n / 64) / 64 == n / 4096;
    assert n == (n / 4096) * 4096 + ((n / 64) % 64) * 64 + n % 64;
    assert bs[0] == 0xE0 + n / 4096 && bs[1] == 0x80 + (n / 64) % 64 && bs[2] == 0x80 + n % 64;
  }

  lemma {:induction false} DecodeFour(c: char, rest: seq<Byte>)
    requires 0x10000 <= c as int
    ensures DecodeStep(EncodeChar(c) + rest) == Scalar(c, 4)
  {
    var n := c as int;
    var bs := EncodeChar(c) + rest;
    assert (n / 64) / 64 == n / 4096;
    assert (n / 4096) / 64 == n / 262144;
    assert n == (n / 262144) * 262144 + ((n / 4096) % 64) * 4096 + ((n / 64) % 64) * 64 + n % 64;
    assert bs[0] == 0xF0 + n / 262144 && bs[1] == 0x80 + (n / 4096) % 64;
    assert bs[2] == 0x80 + (n / 64) % 64 && bs[3] == 0x80 + n % 64;
  }

  /** Decoding an encoding followed by anything decodes the encoded text first. */
  lemma {:induction false} DecodeReplacingOfEncode(s: string, rest: seq<Byte>)
    ensures DecodeReplacing(Encode(s) + rest) == s + DecodeReplacing(rest)
  {
    if s != [] {
      var e := EncodeChar(s[0]);
      assert Encode(s) + rest == e + (Encode(s[1..]) + rest);
      DecodeStepOfEncodeChar(s[0], Encode(s[1..]) + rest);
      assert (e + (Encode(s[1..]) + rest))[|e|..] == Encode(s[1..]) + rest;
      DecodeReplacingOfEncode(s[1..], rest);
      assert s == [s[0]] + s[1..];
    } else {
      assert Encode(s) + rest == rest;
    }
  }

  lemma {:induction false} DecodeFatalOfEncode(s: string)
    ensures DecodeFatal(Encode(s)) == Some(s)
  {
    if s != [] {
      var e := EncodeChar(s[0]);
      DecodeStepOfEncodeChar(s[0], Encode(s[1..]));
      assert Encode(s)[|e|..] == Encode(s[1..]);
      DecodeFatalOfEncode(s[1..]);
      assert s == [s[0]] + s[1..];
    }
  }

  /** `TextDecoder` inverts `TextEncoder` on text that does not begin with a byte-order mark. */
  lemma {:induction false} TextDecodeOfEncode(s: string, rest: seq<Byte>)
    requires |s| == 0 || s[0] != ByteOrderMark
    requires |s| == 0 ==> |rest| == 0 || rest[0] != 0xEF
    ensures TextDecode(Encode(s) + rest) == s + DecodeReplacing(rest)
  {
    DecodeReplacingOfEncode(s, rest);
    if |s| == 0 {
      if rest != [] {
        ByteOrderMarkLead(rest);
      }
    }
  }

  /** A decoded text can only begin with a byte-order mark when its bytes begin with 0xEF. */
  lemma {:induction false} ByteOrderMarkLead(bs: seq<Byte>)
    requires |bs| > 0 && bs[0] != 0xEF
    ensures |DecodeReplacing(bs)| == 0 || DecodeReplacing(bs)[0] != ByteOrderMark
  {
  }

  lemma {:induction false} TextDecodeFatalOfEncode(s: string)
    requires |s| == 0 || s[0] != ByteOrderMark
    ensures TextDecodeFatal(Encode(s)) == Some(s)
  {
    DecodeFatalOfEncode(s);
  }

  /** NUL bytes decode to NUL characters. */
  lemma {:induction false} DecodeReplacingZeros(bs: seq<Byte>)
    requires forall i :: 0 <= i < |bs| ==> bs[i] == 0
    ensures DecodeReplacing(bs) == seq(|bs|, i => '\0')
  {
    if bs != [] {
      DecodeReplacingZeros(bs[1..]);
    }
  }
}
