/** `encodeURIComponent` and `decodeURIComponent` of ECMAScript (section 19.2.6 of
    ECMA-262): every character outside the unreserved set becomes the `%XX` escapes of its
    UTF-8 bytes, and decoding accepts any escape sequence that spells well-formed UTF-8. */
module Uri {
  import opened Bits
  import opened Wrappers
  import Utf8

  /** The characters `encodeURIComponent` leaves alone: letters, digits and `-_.!~*'()`. */
  predicate IsUnreserved(c: char)
  {
    ('A' <= c <= 'Z') || ('a' <= c <= 'z') || ('0' <= c <= '9')
    || c == '-' || c == '_' || c == '.' || c == '!' || c == '~' || c == '*' || c == '\''
    || c == '(' || c == ')'
  }

  /** An upper-case hexadecimal digit, as the encoder writes them. */
  function HexDigit(d: nat): (c: char)
    requires d < 16
    ensures IsHex(c) && HexValue(c) == d
  {
    if d < 10 then ('0' as int + d) as char else ('A' as int + d - 10) as char
  }

  /** A hexadecimal digit of either case, as the decoder accepts them. */
  predicate IsHex(c: char)
  {
    ('0' <= c <= '9') || ('A' <= c <= 'F') || ('a' <= c <= 'f')
  }

  function HexValue(c: char): (d: nat)
    requires IsHex(c)
    ensures d < 16
  {
    if c <= '9' then c as int - '0' as int
    else if c <= 'F' then c as int - 'A' as int + 10
    else c as int - 'a' as int + 10
  }

  /** `%XX` for one byte. */
  function Escape(b: Byte): (r: string)
    ensures |r| == 3 && r[0] == '%'
  {
    ['%', HexDigit(b / 16), HexDigit(b % 16)]
  }

  function EscapeBytes(bs: seq<Byte>): (r: string)
    ensures |r| == 3 * |bs|
  {
    if bs == [] then [] else Escape(bs[0]) + EscapeBytes(bs[1..])
  }

  /** What the encoder writes for one character. */
  function EncodePiece(c: char): string
  {
    if IsUnreserved(c) then [c] else EscapeBytes(Utf8.EncodeChar(c))
  }

  /** `encodeURIComponent(s)`. */
  function EncodeComponent(s: string): string
  {
    if s == [] then [] else EncodePiece(s[0]) + EncodeComponent(s[1..])
  }

  /** The byte an escape at the start of `s` spells, if the three characters are one. */
  function EscapedByte(s: string): (r: Option<Byte>)
    ensures r.Some? ==> |s| >= 3 && s[0] == '%'
  {
    if |s| >= 3 && s[0] == '%' && IsHex(s[1]) && IsHex(s[2])
    then Some(16 * HexValue(s[1]) + HexValue(s[2]))
    else None
  }

  /** `n` consecutive escapes at the start of `s`. */
  function Escapes(s: string, n: nat): (r: Option<seq<Byte>>)
    requires |s| >= 3 * n
    ensures r.Some? ==> |r.value| == n
  {
    if n == 0 then Some([])
    else match EscapedByte(s)
      case None => None
      case Some(b) =>
        match Escapes(s[3..], n - 1)
        case None => None
        case Some(bs) => Some([b] + bs)
  }

  /** The number of leading one bits of a byte, which the decoder takes as the length of the
      UTF-8 sequence it starts. */
  function LeadingOnes(b: Byte): nat
  {
    if b < 0x80 then 0 else if b < 0xC0 then 1 else if b < 0xE0 then 2
    else if b < 0xF0 then 3 else if b < 0xF8 then 4 else 5
  }

  /** `decodeURIComponent(s)`: `None` where the decoder throws `URIError`, that is at a `%`
      not followed by two hexadecimal digits, at a lead byte of length 1 or over 4, at a
      sequence that runs past the end or whose followers are not `%`-escaped continuation
      bytes, and at octets that are not the UTF-8 encoding of a code point. */
  function DecodeComponent(s: string): Option<string>
    decreases |s|
  {
    if s == [] then Some([])
    else if s[0] != '%' then Prepend(s[0], DecodeComponent(s[1..]))
    else match EscapedByte(s)
      case None => None
      case Some(b) =>
        var n := LeadingOnes(b);
        if n == 0 then Prepend(b as char, DecodeComponent(s[3..]))
        else if n == 1 || n > 4 || |s| < 3 * n then None
        else match Escapes(s, n)
          case None => None
          case Some(octets) =>
            if exists j :: 1 <= j < n && !Utf8.IsContinuation(octets[j]) then None
            else match Utf8.DecodeStep(octets)
              case Malformed(_) => None
              case Scalar(c, len) =>
                if len != n then None else Prepend(c, DecodeComponent(s[3 * n..]))
  }

  function Prepend(c: char, r: Option<string>): Option<string>
  {
    match r
    case None => None
    case Some(t) => Some([c] + t)
  }

  // ---------------------------------------------------------------- properties

  /** The encoder writes only ASCII characters. */
  lemma {:induction false} EncodeComponentAscii(s: string)
    ensures forall i :: 0 <= i < |EncodeComponent(s)| ==> (EncodeComponent(s)[i] as int) < 128
  {
    if s != [] {
      EncodeComponentAscii(s[1..]);
      var p := EncodePiece(s[0]);
      if !IsUnreserved(s[0]) {
        EscapeBytesAscii(Utf8.EncodeChar(s[0]));
      }
      assert EncodeComponent(s) == p + EncodeComponent(s[1..]);
    }
  }

  lemma {:induction false} EscapeBytesAscii(bs: seq<Byte>)
    ensures forall i :: 0 <= i < |EscapeBytes(bs)| ==> (EscapeBytes(bs)[i] as int) < 128
  {
    if bs != [] {
      EscapeBytesAscii(bs[1..]);
      assert EscapeBytes(bs) == Escape(bs[0]) + EscapeBytes(bs[1..]);
    }
  }

  /** The escapes of a run of bytes read back as those bytes. */
  lemma {:induction false} EscapesOfEscapeBytes(bs: seq<Byte>, rest: string)
    ensures Escapes(EscapeBytes(bs) + rest, |bs|) == Some(bs)
  {
    if bs != [] {
      var s := EscapeBytes(bs) + rest;
      var b := bs[0];
      assert s == Escape(b) + (EscapeBytes(bs[1..]) + rest);
      assert 16 * (b / 16) + b % 16 == b;
      assert EscapedByte(s) == Some(b);
      assert s[3..] == EscapeBytes(bs[1..]) + rest;
      EscapesOfEscapeBytes(bs[1..], rest);
      assert [b] + bs[1..] == bs;
    }
  }

  /** The lead byte of a multi-byte encoding announces its length, and the rest are
      continuation bytes. */
  lemma {:induction false} EncodeCharShape(c: char)
    ensures var bs := Utf8.EncodeChar(c);
            (|bs| == 1 <==> LeadingOnes(bs[0]) == 0)
            && (|bs| > 1 ==> LeadingOnes(bs[0]) == |bs|)
            && forall j :: 1 <= j < |bs| ==> Utf8.IsContinuation(bs[j])
  {
  }

  /** Decoding the encoding of one character and then of the rest. */
  lemma {:induction false} DecodePiece(c: char, rest: string)
    ensures DecodeComponent(EncodePiece(c) + rest) == Prepend(c, DecodeComponent(rest))
  {
    var s := EncodePiece(c) + rest;
    if IsUnreserved(c) {
      assert s[1..] == rest;
    } else {
      var bs := Utf8.EncodeChar(c);
      var n := |bs|;
      EncodeCharShape(c);
      EscapesOfEscapeBytes(bs, rest);
      assert EscapeBytes(bs) == Escape(bs[0]) + EscapeBytes(bs[1..]);
      assert Escapes(s, n) == Some(bs);
      assert EscapedByte(s) == Some(bs[0]);
      assert s[3 * n..] == rest;
      if n == 1 {
        assert bs[0] as char == c;
      } else {
        Utf8.DecodeStepOfEncodeChar(c, []);
        assert bs + [] == bs;
      }
    }
  }

  /** `decodeURIComponent(encodeURIComponent(s)) == s`. */
  lemma {:induction false} DecodeOfEncodeComponent(s: string)
    ensures DecodeComponent(EncodeComponent(s)) == Some(s)
  {
    if s != [] {
      DecodeOfEncodeComponent(s[1..]);
      DecodePiece(s[0], EncodeComponent(s[1..]));
      assert [s[0]] + s[1..] == s;
    }
  }
}
