/** Base64 as `btoa` and `atob` implement it: the encoding of section 4 of RFC 4648 with '='
    padding, and the WHATWG "forgiving-base64 decode", which skips ASCII whitespace, accepts
    missing padding and ignores the leftover bits of a short final group. Both are stated on
    bits: every six bits of the message are one character of the alphabet. */
module Base64 {
  import opened Bits
  import opened Wrappers

  predicate IsAlphabet(c: char)
  {
    ('A' <= c <= 'Z') || ('a' <= c <= 'z') || ('0' <= c <= '9') || c == '+' || c == '/'
  }

  /** Table 1 of RFC 4648: the character for a 6-bit value. */
  function SextetChar(v: nat): (c: char)
    requires v < 64
    ensures IsAlphabet(c)
  {
    if v < 26 then ('A' as int + v) as char
    else if v < 52 then ('a' as int + v - 26) as char
    else if v < 62 then ('0' as int + v - 52) as char
    else if v == 62 then '+'
    else '/'
  }

  /** The 6-bit value of an alphabet character. */
  function SextetValue(c: char): (v: nat)
    requires IsAlphabet(c)
    ensures v < 64 && SextetChar(v) == c
  {
    if 'A' <= c <= 'Z' then c as int - 'A' as int
    else if 'a' <= c <= 'z' then c as int - 'a' as int + 26
    else if '0' <= c <= '9' then c as int - '0' as int + 52
    else if c == '+' then 62
    else 63
  }

  lemma {:induction false} SextetValueOfChar(v: nat)
    requires v < 64
    ensures SextetValue(SextetChar(v)) == v
  {
  }

  /** The characters for consecutive six-bit groups of `bits`. */
  function Sextets(bits: seq<Bit>): (r: string)
    requires |bits| % 6 == 0
    ensures |r| == |bits| / 6 && forall i :: 0 <= i < |r| ==> IsAlphabet(r[i])
  {
    if bits == [] then []
    else
      assert Pow2(6) == 64;
      var n := |bits|;
      Sextets(bits[..n - 6]) + [SextetChar(FromBits(bits[n - 6..]))]
  }

  /** RFC 4648 section 4: the message's bits are completed with zero bits to a multiple of six,
      each six bits become one character, and '=' fills the output to a multiple of four. */
  function Encode(bs: seq<Byte>): string
  {
    EncodeLengths(|bs|);
    var bits := ByteBits(bs);
    var padded := bits + Zeros((6 - |bits| % 6) % 6);
    var chars := Sextets(padded);
    chars + seq((4 - |chars| % 4) % 4, _ => '=')
  }

  /** `btoa(s)`: the Base64 form of a string of byte-valued characters; an error for any
      character above U+00FF. */
  function Btoa(s: string): Result<string>
  {
    if IsLatin1(s) then Ok(Encode(Codes(s)))
    else Err("InvalidCharacterError: The string to be encoded contains characters outside of the Latin1 range.")
  }

  predicate IsAsciiWhitespace(c: char)
  {
    c == '\t' || c == '\n' || c == '\U{000C}' || c == '\r' || c == ' '
  }

  function RemoveAsciiWhitespace(s: string): (r: string)
    ensures forall i :: 0 <= i < |r| ==> !IsAsciiWhitespace(r[i])
  {
    if s == [] then []
    else if IsAsciiWhitespace(s[|s| - 1]) then RemoveAsciiWhitespace(s[..|s| - 1])
    else RemoveAsciiWhitespace(s[..|s| - 1]) + [s[|s| - 1]]
  }

  /** One or two trailing '=' are removed when the length is a multiple of four. */
  function StripPadding(d: string): string
  {
    if |d| % 4 == 0 && |d| >= 2 && d[|d| - 2] == '=' && d[|d| - 1] == '=' then d[..|d| - 2]
    else if |d| % 4 == 0 && |d| >= 1 && d[|d| - 1] == '=' then d[..|d| - 1]
    else d
  }

  /** Six bits per alphabet character, concatenated. */
  function SextetBits(d: string): (r: seq<Bit>)
    requires forall i :: 0 <= i < |d| ==> IsAlphabet(d[i])
    ensures |r| == 6 * |d|
  {
    if d == [] then [] else SextetBits(d[..|d| - 1]) + ToBits(SextetValue(d[|d| - 1]), 6)
  }

  /** The forgiving-base64 decode of the WHATWG Infra standard; `None` is its failure. */
  function ForgivingDecode(s: string): Option<seq<Byte>>
  {
    var d := StripPadding(RemoveAsciiWhitespace(s));
    if |d| % 4 == 1 then None
    else if exists i :: 0 <= i < |d| && !IsAlphabet(d[i]) then None
    else Some(WholeBytes(SextetBits(d)))
  }

  /** `atob(s)`: the decoded bytes as a string of byte-valued characters; `None` where `atob`
      throws. */
  function Atob(s: string): Option<string>
  {
    match ForgivingDecode(s)
    case Some(bs) => Some(Latin1(bs))
    case None => None
  }

  lemma {:induction false} SextetBitsOfSextets(bits: seq<Bit>)
    requires |bits| % 6 == 0
    ensures SextetBits(Sextets(bits)) == bits
  {
    if bits != [] {
      var n := |bits|;
      var init, last := bits[..n - 6], bits[n - 6..];
      var cs := Sextets(bits);
      assert cs[..|cs| - 1] == Sextets(init);
      SextetBitsOfSextets(init);
      SextetValueOfChar(FromBits(last));
      ToFromBits(last);
      assert bits == init + last;
    }
  }

  /** The arithmetic of the encoder's lengths for `n` bytes: the zero bits added, and the
      number of characters before padding, which is never one more than a multiple of four. */
  lemma {:induction false} EncodeLengths(n: nat)
    ensures var k := (6 - (8 * n) % 6) % 6;
            k < 6 && (8 * n + k) % 6 == 0 && ((8 * n + k) / 6) % 4 != 1
            && (n > 0 ==> (8 * n + k) / 6 > 0)
  {
    var q, r := n / 3, n % 3;
    assert n == 3 * q + r;
    if r == 0 {
      assert 8 * n == 6 * (4 * q);
      assert (8 * n) % 6 == 0 && (8 * n) / 6 == 4 * q;
    } else if r == 1 {
      assert 8 * n == 6 * (4 * q + 1) + 2;
      assert (8 * n) % 6 == 2 && 8 * n + 4 == 6 * (4 * q + 2);
      assert (8 * n + 4) / 6 == 4 * q + 2;
    } else {
      assert 8 * n == 6 * (4 * q + 2) + 4;
      assert (8 * n) % 6 == 4 && 8 * n + 2 == 6 * (4 * q + 3);
      assert (8 * n + 2) / 6 == 4 * q + 3;
    }
  }

  lemma {:induction false} StripPaddingOfPadded(chars: string)
    requires forall i :: 0 <= i < |chars| ==> IsAlphabet(chars[i])
    requires |chars| % 4 != 1
    ensures StripPadding(chars + seq((4 - |chars| % 4) % 4, _ => '=')) == chars
  {
    var p := (4 - |chars| % 4) % 4;
    var e := chars + seq(p, _ => '=');
    if p == 2 {
      assert e[..|e| - 2] == chars;
    } else if p == 1 {
      assert e[..|e| - 1] == chars;
      assert e[|e| - 2] == chars[|chars| - 1];
    } else {
      assert e == chars;
    }
  }

  /** The characters of an encoding, before its '=' padding. */
  function EncodedChars(bs: seq<Byte>): string
  {
    EncodeLengths(|bs|);
    var bits := ByteBits(bs);
    Sextets(bits + Zeros((6 - |bits| % 6) % 6))
  }

  lemma {:induction false} StripPaddingOfEncode(bs: seq<Byte>)
    ensures StripPadding(RemoveAsciiWhitespace(Encode(bs))) == EncodedChars(bs)
    ensures |EncodedChars(bs)| % 4 != 1
  {
    var chars := EncodedChars(bs);
    EncodeLengths(|bs|);
    var e := Encode(bs);
    assert e == chars + seq((4 - |chars| % 4) % 4, _ => '=');
    NoWhitespace(e);
    StripPaddingOfPadded(chars);
  }

  /** `atob` inverts `btoa`: the forgiving decoder gives back exactly the encoded bytes. */
  lemma {:induction false} DecodeOfEncode(bs: seq<Byte>)
    ensures ForgivingDecode(Encode(bs)) == Some(bs)
  {
    var bits := ByteBits(bs);
    var k := (6 - |bits| % 6) % 6;
    var padded := bits + Zeros(k);
    EncodeLengths(|bs|);
    StripPaddingOfEncode(bs);
    SextetBitsOfSextets(padded);
    WholeBytesOfByteBits(bs, Zeros(k));
    assert WholeBytes(Zeros(k)) == [];
    assert bs + [] == bs;
  }

  lemma {:induction false} NoWhitespace(s: string)
    requires forall i :: 0 <= i < |s| ==> !IsAsciiWhitespace(s[i])
    ensures RemoveAsciiWhitespace(s) == s
  {
    if s != [] {
      NoWhitespace(s[..|s| - 1]);
      assert s == s[..|s| - 1] + [s[|s| - 1]];
    }
  }

  /** `atob(btoa(s)) == s` for every string `btoa` accepts. */
  lemma {:induction false} AtobOfBtoa(s: string)
    requires IsLatin1(s)
    ensures Btoa(s).Ok? && Atob(Btoa(s).value) == Some(s)
  {
    DecodeOfEncode(Codes(s));
    assert Latin1(Codes(s)) == s;
  }

  /** Every character `btoa` emits is an alphabet character or '='. */
  lemma {:induction false} EncodeCharacters(bs: seq<Byte>)
    ensures forall i :: 0 <= i < |Encode(bs)| ==> IsAlphabet(Encode(bs)[i]) || Encode(bs)[i] == '='
  {
  }

  lemma {:induction false} EncodeNonEmpty(bs: seq<Byte>)
    requires |bs| > 0
    ensures |Encode(bs)| > 0
  {
    EncodeLengths(|bs|);
  }
}
