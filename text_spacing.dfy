/** The word-spacing method: the bits of the message's UTF-8 bytes (no end marker) are
    carried by the gaps between the words of the cover, a plain space for 0 and a space
    followed by U+200A HAIR SPACE for 1; the gaps after the last bit are plain spaces. */
module TextSpacing {
  import opened Wrappers
  import opened Bits
  import opened JsString
  import opened TextBits
  import Utf8

  const HairSpace: char := '\U{200A}'

  function TooFewWords(needed: nat): string
  {
    "Text musí obsahovat alespoň " + NatToString(needed) + " slov pro ukrytí zprávy."
  }

  /** Bit `k`, or 0 past the end (`i - 1 < binaryMessage.length ? binaryMessage[i - 1] : '0'`). */
  function BitAt(bits: seq<Bit>, k: nat): Bit
  {
    if k < |bits| then bits[k] else 0
  }

  /** The gap written for one bit. */
  function Gap(b: Bit): string
  {
    if b == 1 then [' ', HairSpace] else [' ']
  }

  /** The gaps and words after the first word, the first of them carrying bit `k`. */
  function Gaps(words: seq<string>, bits: seq<Bit>, k: nat): (r: string)
    ensures |r| > 0 ==> r[0] == ' '
  {
    if words == [] then [] else Gap(BitAt(bits, k)) + words[0] + Gaps(words[1..], bits, k + 1)
  }

  /** The words again, each gap written for its bit. */
  function SpacedText(words: seq<string>, bits: seq<Bit>): string
    requires |words| >= 1
  {
    words[0] + Gaps(words[1..], bits, 0)
  }

  /** `hideWithWordSpacing` as a value. */
  function WordSpacingHidden(cover: string, message: string): Result<string>
  {
    var bits := Utf8Bits(message);
    var words := Split(cover, ' ');
    if |words| - 1 < |bits| then Err(TooFewWords(|bits| + 1))
    else Ok(SpacedText(words, bits))
  }

  /** `hideWithWordSpacing`: the loop that appends a gap and a word for every word after the
      first. */
  method HideWithWordSpacing(cover: string, message: string) returns (r: Result<string>)
    ensures r == WordSpacingHidden(cover, message)
  {
    var bits := Utf8Bits(message);
    var words := Split(cover, ' ');
    if |words| - 1 < |bits| {
      return Err(TooFewWords(|bits| + 1));
    }
    var result := words[0];
    var i := 1;
    while i < |words|
      invariant 1 <= i <= |words|
      invariant result + Gaps(words[i..], bits, i - 1) == SpacedText(words, bits)
    {
      assert words[i..][1..] == words[i + 1..];
      var bit := BitAt(bits, i - 1);
      var piece := Gap(bit) + words[i];
      ConcatAssoc(result, piece, Gaps(words[i + 1..], bits, i));
      result := result + piece;
      i := i + 1;
    }
    assert words[i..] == [];
    assert result == SpacedText(words, bits);
    r := Ok(result);
  }

  /** The bits the matches of `/(  | )/g` stand for: a space followed by a hair space
      is a 1, any other space a 0, and everything else is stepped over. */
  function GapBits(s: string): seq<Bit>
    decreases |s|
  {
    if s == [] then []
    else if s[0] != ' ' then GapBits(s[1..])
    else if |s| >= 2 && s[1] == HairSpace then [1] + GapBits(s[2..])
    else [0] + GapBits(s[1..])
  }

  /** The length of the match at the start of `s`, 0 when there is none. */
  function MatchLength(s: string): nat
  {
    if s == [] || s[0] != ' ' then 0 else if |s| >= 2 && s[1] == HairSpace then 2 else 1
  }

  /** `stegText.match(/(  | )/g)` read to bits, as a scan over the text. */
  method ScanGaps(text: string) returns (bits: seq<Bit>)
    ensures bits == GapBits(text)
  {
    bits := [];
    var p := 0;
    while p < |text|
      invariant p <= |text| && bits + GapBits(text[p..]) == GapBits(text)
    {
      var rest := text[p..];
      var n := MatchLength(rest);
      if n == 0 {
        assert rest[1..] == text[p + 1..];
        p := p + 1;
      } else {
        var b: Bit := if n == 2 then 1 else 0;
        assert rest[n..] == text[p + n..];
        ConcatAssoc(bits, [b], GapBits(text[p + n..]));
        bits := bits + [b];
        p := p + n;
      }
    }
  }

  /** `revealFromWordSpacing` as a value: `None` when there is no match, otherwise every whole
      byte of the bits decoded (nothing is cut). */
  function WordSpacingRevealed(s: string): Option<string>
  {
    var bits := GapBits(s);
    if bits == [] then None else Some(Utf8.TextDecode(WholeBytes(bits)))
  }

  /** `revealFromWordSpacing`. */
  method RevealFromWordSpacing(s: string) returns (r: Option<string>)
    ensures r == WordSpacingRevealed(s)
  {
    var binary := ScanGaps(s);
    if binary == [] {
      return None;
    }
    var bytes := GroupBytes(binary);
    r := Some(Utf8.TextDecode(bytes));
  }

  // ---------------------------------------------------------------- properties

  /** There is no match exactly when the text holds no space. */
  lemma {:induction false} NoGapsWithoutSpace(s: string)
    ensures GapBits(s) == [] <==> ' ' !in s
    decreases |s|
  {
    if s != [] && s[0] != ' ' {
      NoGapsWithoutSpace(s[1..]);
      assert s == [s[0]] + s[1..];
    }
  }

  /** A word holds no space, so the reader steps over it. */
  lemma {:induction false} GapBitsSkipsWord(w: string, rest: string)
    requires ' ' !in w
    ensures GapBits(w + rest) == GapBits(rest)
  {
    if w != [] {
      assert (w + rest)[1..] == w[1..] + rest;
      GapBitsSkipsWord(w[1..], rest);
    } else {
      assert w + rest == rest;
    }
  }

  /** A gap reads as its bit; a plain space is not misread as a 1 because the word after it
      does not start with a hair space and, when empty, is followed by the next gap. */
  lemma {:induction false} GapBitsOfGap(b: Bit, w: string, rest: string)
    requires ' ' !in w && HairSpace !in w
    requires w == [] ==> rest == [] || rest[0] == ' '
    ensures GapBits(Gap(b) + w + rest) == [b] + GapBits(rest)
  {
    var s := Gap(b) + w + rest;
    var g := |Gap(b)|;
    assert s[g..] == w + rest;
    GapBitsSkipsWord(w, rest);
  }

  /** The bits from `k` on, padded with zeros: the ones the gaps carry. */
  function BitsFrom(bits: seq<Bit>, k: nat, n: nat): (r: seq<Bit>)
    ensures |r| == n && forall j :: 0 <= j < n ==> r[j] == BitAt(bits, k + j)
  {
    seq<Bit>(n, j requires 0 <= j < n => BitAt(bits, k + j))
  }

  /** Predicate on the words: no space (the split guarantees it) and no hair space. */
  predicate PlainWords(words: seq<string>)
  {
    forall i :: 0 <= i < |words| ==> ' ' !in words[i] && HairSpace !in words[i]
  }

  lemma {:induction false} GapBitsOfGaps(words: seq<string>, bits: seq<Bit>, k: nat)
    requires PlainWords(words)
    ensures GapBits(Gaps(words, bits, k)) == BitsFrom(bits, k, |words|)
    decreases |words|
  {
    if words != [] {
      var rest := Gaps(words[1..], bits, k + 1);
      assert PlainWords(words[1..]) by {
        assert forall i :: 0 <= i < |words[1..]| ==> words[1..][i] == words[i + 1];
      }
      GapBitsOfGaps(words[1..], bits, k + 1);
      GapBitsOfGap(BitAt(bits, k), words[0], rest);
      assert Gap(BitAt(bits, k)) + words[0] + rest == Gaps(words, bits, k);
      assert [BitAt(bits, k)] + BitsFrom(bits, k + 1, |words| - 1) == BitsFrom(bits, k, |words|);
    }
  }

  /** The pieces of a text split at a separator hold no character the text does not hold. */
  lemma {:induction false} SplitKeepsOut(s: string, c: char, x: char)
    requires x !in s
    ensures forall i :: 0 <= i < |Split(s, c)| ==> x !in Split(s, c)[i]
    decreases |s|
  {
    var k := IndexOf(s, c, 0);
    if k != -1 {
      assert s == s[..k] + [s[k]] + s[k + 1..];
      SplitKeepsOut(s[k + 1..], c, x);
    }
  }

  /** `n` NUL characters. */
  function Nuls(n: nat): (r: string)
    ensures |r| == n && forall i :: 0 <= i < n ==> r[i] == '\0'
  {
    seq(n, _ => '\0')
  }

  /** The bits of the message's bytes followed by zeros decode to the message followed by one
      NUL per whole byte of zeros. */
  lemma {:induction false} DecodePaddedMessage(message: string, z: nat)
    requires |message| == 0 || message[0] != Utf8.ByteOrderMark
    ensures Utf8.TextDecode(WholeBytes(Utf8Bits(message) + Zeros(z))) == message + Nuls(z / 8)
  {
    var e := Utf8.Encode(message);
    WholeBytesOfByteBits(e, Zeros(z));
    var zs := WholeBytes(Zeros(z));
    WholeBytesOfZeros(z);
    Utf8.TextDecodeOfEncode(message, zs);
    Utf8.DecodeReplacingZeros(zs);
    assert Utf8.DecodeReplacing(zs) == Nuls(z / 8);
  }

  /** The reader sees the gaps of the hidden text, and nothing in its words. */
  lemma {:induction false} GapBitsOfSpaced(cover: string, bits: seq<Bit>)
    requires HairSpace !in cover
    ensures var words := Split(cover, ' ');
            GapBits(SpacedText(words, bits)) == BitsFrom(bits, 0, |words| - 1)
  {
    var words := Split(cover, ' ');
    SplitKeepsOut(cover, ' ', HairSpace);
    assert PlainWords(words[1..]) by {
      assert forall i :: 0 <= i < |words[1..]| ==> words[1..][i] == words[i + 1];
    }
    GapBitsSkipsWord(words[0], Gaps(words[1..], bits, 0));
    GapBitsOfGaps(words[1..], bits, 0);
  }

  lemma {:induction false} PaddedBitsFrom(bits: seq<Bit>, z: nat)
    ensures BitsFrom(bits, 0, |bits| + z) == bits + Zeros(z)
  {
  }

  /** Revealing gives back the message followed by a NUL for every eight unused gaps, or
      `None` for a cover of a single word (then the message is empty). The cover must hold no
      hair space, and the message must not start with a byte-order mark. */
  lemma {:induction false} HideThenRevealWordSpacing(cover: string, message: string)
    requires WordSpacingHidden(cover, message).Ok?
    requires HairSpace !in cover
    requires |message| == 0 || message[0] != Utf8.ByteOrderMark
    ensures var words := Split(cover, ' ');
            var unused := |words| - 1 - |Utf8Bits(message)|;
            WordSpacingRevealed(WordSpacingHidden(cover, message).value)
            == if |words| == 1 then None else Some(message + Nuls(unused / 8))
  {
    var bits := Utf8Bits(message);
    var words := Split(cover, ' ');
    var hidden := SpacedText(words, bits);
    assert WordSpacingHidden(cover, message).value == hidden;
    GapBitsOfSpaced(cover, bits);
    var gaps := GapBits(hidden);
    if |words| == 1 {
      assert gaps == [];
    } else {
      var z := |words| - 1 - |bits|;
      PaddedBitsFrom(bits, z);
      assert gaps == bits + Zeros(z);
      DecodePaddedMessage(message, z);
      assert WordSpacingRevealed(hidden) == Some(Utf8.TextDecode(WholeBytes(gaps)));
    }
  }

  /** The text without its hair spaces. */
  function WithoutHairSpaces(s: string): (r: string)
    ensures |r| <= |s|
  {
    if s == [] then [] else (if s[0] == HairSpace then [] else [s[0]]) + WithoutHairSpaces(s[1..])
  }

  lemma {:induction false} WithoutHairSpacesAppend(a: string, b: string)
    ensures WithoutHairSpaces(a + b) == WithoutHairSpaces(a) + WithoutHairSpaces(b)
  {
    if a != [] {
      assert (a + b)[1..] == a[1..] + b;
      WithoutHairSpacesAppend(a[1..], b);
      var h := if a[0] == HairSpace then [] else [a[0]];
      ConcatAssoc(h, WithoutHairSpaces(a[1..]), WithoutHairSpaces(b));
    } else {
      assert a + b == b;
    }
  }

  lemma {:induction false} WithoutHairSpacesOfPlain(w: string)
    requires HairSpace !in w
    ensures WithoutHairSpaces(w) == w
  {
    if w != [] {
      assert w == [w[0]] + w[1..];
      WithoutHairSpacesOfPlain(w[1..]);
    }
  }

  /** Without its hair spaces, the tail of the hidden text is the words joined by spaces. */
  lemma {:induction false} WithoutHairSpacesOfGaps(words: seq<string>, bits: seq<Bit>, k: nat)
    requires |words| >= 1 && forall i :: 0 <= i < |words| ==> HairSpace !in words[i]
    ensures words[0] + WithoutHairSpaces(Gaps(words[1..], bits, k)) == Join(words, ' ')
    decreases |words|
  {
    if |words| > 1 {
      var ws := words[1..];
      var b := BitAt(bits, k);
      assert forall i :: 0 <= i < |ws| ==> ws[i] == words[i + 1];
      WithoutHairSpacesOfGaps(ws, bits, k + 1);
      assert ws[1..] == words[2..];
      var tail := Gaps(ws[1..], bits, k + 1);
      WithoutHairSpacesAppend(Gap(b) + ws[0], tail);
      WithoutHairSpacesAppend(Gap(b), ws[0]);
      WithoutHairSpacesOfPlain(ws[0]);
      assert WithoutHairSpaces(Gap(b)) == [' '];
      ConcatAssoc([' '], ws[0], WithoutHairSpaces(tail));
      ConcatAssoc(words[0], [' '], ws[0] + WithoutHairSpaces(tail));
    }
  }

  /** Hiding fails exactly when the cover has fewer gaps between words than the message has
      bits; otherwise removing the hair spaces gives the cover back, for a cover that holds
      none. */
  lemma {:induction false} WordSpacingHiddenShape(cover: string, message: string)
    ensures var words := Split(cover, ' ');
            (WordSpacingHidden(cover, message).Err? <==> |words| - 1 < |Utf8Bits(message)|)
            && (WordSpacingHidden(cover, message).Ok? && HairSpace !in cover ==>
                  WithoutHairSpaces(WordSpacingHidden(cover, message).value) == cover)
  {
    var words := Split(cover, ' ');
    var bits := Utf8Bits(message);
    if |words| - 1 >= |bits| && HairSpace !in cover {
      SplitKeepsOut(cover, ' ', HairSpace);
      WithoutHairSpacesAppend(words[0], Gaps(words[1..], bits, 0));
      WithoutHairSpacesOfPlain(words[0]);
      WithoutHairSpacesOfGaps(words, bits, 0);
      JoinOfSplit(cover, ' ');
    }
  }
}
