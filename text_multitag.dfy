/** The multi-tag Bacon method: the bits of the message (ending in '§', eight or more per
    character code) are carried two per ASCII letter of the cover, the letter left plain for
    00 or wrapped in `<i>` for 01, `<b>` for 10 and `<u>` for 11. */
module TextMultiTag {
  import opened Wrappers
  import opened Bits
  import opened JsString
  import opened TextBits

  function TooFewLetters(needed: nat): string
  {
    "Text musí obsahovat alespoň " + NatToString(needed) + " písmen pro ukrytí zprávy."
  }

  /** `s.replace(/[^a-zA-Z]/g, '').length`. */
  function LetterCount(s: string): (n: nat)
    ensures n <= |s|
  {
    if s == [] then 0 else (if IsAsciiLetter(s[0]) then 1 else 0) + LetterCount(s[1..])
  }

  /** A letter as it carries a pair of bits. */
  function Tagged(c: char, b1: Bit, b2: Bit): string
  {
    if b1 == 0 && b2 == 0 then [c]
    else if b1 == 0 then "<i>" + [c] + "</i>"
    else if b2 == 0 then "<b>" + [c] + "</b>"
    else "<u>" + [c] + "</u>"
  }

  /** The text the hiding loop writes for the cover's characters from some point on, with
      `k` bits already used: letters take two bits each (a missing second bit counts as 0),
      other characters are copied, and once the bits run out the rest is copied as it is. */
  function TaggedText(cover: string, bits: seq<Bit>, k: nat): string
  {
    if cover == [] then []
    else if k >= |bits| then cover
    else if IsAsciiLetter(cover[0]) then
      Tagged(cover[0], bits[k], if k + 1 < |bits| then bits[k + 1] else 0)
      + TaggedText(cover[1..], bits, k + 2)
    else [cover[0]] + TaggedText(cover[1..], bits, k)
  }

  /** `hideWithMultiTagBacon` as a value. */
  function MultiTagHidden(cover: string, message: string): Result<string>
  {
    var bits := CodeBits(message + [EndMarker]);
    if LetterCount(cover) < (|bits| + 1) / 2 then Err(TooFewLetters((|bits| + 1) / 2))
    else Ok(TaggedText(cover, bits, 0))
  }

  /** `hideWithMultiTagBacon`: the loop over the cover's characters. */
  method HideWithMultiTagBacon(cover: string, message: string) returns (r: Result<string>)
    ensures r == MultiTagHidden(cover, message)
  {
    var bits := CodeBits(message + [EndMarker]);
    if LetterCount(cover) < (|bits| + 1) / 2 {
      return Err(TooFewLetters((|bits| + 1) / 2));
    }
    var result := "";
    var bitIndex := 0;
    var i := 0;
    while i < |cover|
      invariant i <= |cover|
      invariant result + TaggedText(cover[i..], bits, bitIndex) == TaggedText(cover, bits, 0)
    {
      if bitIndex >= |bits| {
        result := result + cover[i..];
        break;
      }
      var c := cover[i];
      assert cover[i..][1..] == cover[i + 1..];
      if IsAsciiLetter(c) {
        var bit1 := bits[bitIndex];
        var bit2 := if bitIndex + 1 < |bits| then bits[bitIndex + 1] else 0;
        ConcatAssoc(result, Tagged(c, bit1, bit2), TaggedText(cover[i + 1..], bits, bitIndex + 2));
        result := result + Tagged(c, bit1, bit2);
        bitIndex := bitIndex + 2;
      } else {
        ConcatAssoc(result, [c], TaggedText(cover[i + 1..], bits, bitIndex));
        result := result + [c];
      }
      i := i + 1;
    }
    assert result == TaggedText(cover, bits, 0);
    r := Ok(result);
  }

  /** One match of `/<i>([a-zA-Z])<\/i>|<b>([a-zA-Z])<\/b>|<u>([a-zA-Z])<\/u>|([a-zA-Z])/`
      at the start of a text: the bits it stands for and its length; a non-letter outside a
      tag matches nothing and is stepped over. */
  datatype TagMatch = TagMatch(bits: seq<Bit>, len: nat)

  predicate IsTagAt(s: string, tag: char)
  {
    |s| >= 8 && s[0] == '<' && s[1] == tag && s[2] == '>' && IsAsciiLetter(s[3])
    && s[4] == '<' && s[5] == '/' && s[6] == tag && s[7] == '>'
  }

  function MatchAt(s: string): (m: TagMatch)
    requires s != []
    ensures 1 <= m.len <= |s|
  {
    if IsTagAt(s, 'i') then TagMatch([0, 1], 8)
    else if IsTagAt(s, 'b') then TagMatch([1, 0], 8)
    else if IsTagAt(s, 'u') then TagMatch([1, 1], 8)
    else if IsAsciiLetter(s[0]) then TagMatch([0, 0], 1)
    else TagMatch([], 1)
  }

  /** The bits all the matches of the global regular expression stand for, in order. */
  function TagBits(s: string): seq<Bit>
    decreases |s|
  {
    if s == [] then [] else var m := MatchAt(s); m.bits + TagBits(s[m.len..])
  }

  /** The `regex.exec` loop of `revealWithMultiTagBacon`. */
  method ScanTags(text: string) returns (bits: seq<Bit>)
    ensures bits == TagBits(text)
  {
    bits := [];
    var p := 0;
    while p < |text|
      invariant p <= |text| && bits + TagBits(text[p..]) == TagBits(text)
    {
      var m := MatchAt(text[p..]);
      assert text[p..][m.len..] == text[p + m.len..];
      ConcatAssoc(bits, m.bits, TagBits(text[p + m.len..]));
      bits := bits + m.bits;
      p := p + m.len;
    }
  }

  /** The byte loop of the reader: `String.fromCharCode` of each whole byte, stopping at the
      first '§'. */
  method ReadCodes(bits: seq<Bit>) returns (r: string)
    ensures r == CutAtMarker(Latin1(WholeBytes(bits)))
  {
    var all := Latin1(WholeBytes(bits));
    r := "";
    var i := 0;
    while i < |bits|
      invariant 8 * |r| <= |bits|
      invariant i == 8 * |r| || (i == 8 * |r| + 8 && |bits| < i)
      invariant r == all[..|r|] && EndMarker !in r
      decreases |bits| - i
    {
      if i + 8 <= |bits| {
        var c := FromBits(bits[i..i + 8]) as char;
        assert c == all[|r|];
        if c == EndMarker {
          break;
        }
        r := r + [c];
      }
      i := i + 8;
    }
  }

  /** `revealWithMultiTagBacon` as a value. */
  function MultiTagRevealed(text: string): string
  {
    CutAtMarker(Latin1(WholeBytes(TagBits(text))))
  }

  /** `revealWithMultiTagBacon`. */
  method RevealWithMultiTagBacon(text: string) returns (r: string)
    ensures r == MultiTagRevealed(text)
  {
    var bits := ScanTags(text);
    r := ReadCodes(bits);
  }

  // ---------------------------------------------------------------- properties

  /** The part of the cover the hiding loop copies unchanged once the bits run out. */
  function Leftover(cover: string, bits: seq<Bit>, k: nat): string
  {
    if cover == [] then []
    else if k >= |bits| then cover
    else if IsAsciiLetter(cover[0]) then Leftover(cover[1..], bits, k + 2)
    else Leftover(cover[1..], bits, k)
  }

  /** A letter written by the hiding loop reads back as its two bits. */
  lemma {:induction false} TagBitsOfTagged(c: char, b1: Bit, b2: Bit, rest: string)
    requires IsAsciiLetter(c)
    ensures TagBits(Tagged(c, b1, b2) + rest) == [b1, b2] + TagBits(rest)
  {
    var s := Tagged(c, b1, b2) + rest;
    var m := MatchAt(s);
    assert s[m.len..] == rest;
  }

  /** A character other than a letter or '<' is stepped over. */
  lemma {:induction false} TagBitsOfOther(c: char, rest: string)
    requires !IsAsciiLetter(c) && c != '<'
    ensures TagBits([c] + rest) == TagBits(rest)
  {
    assert ([c] + rest)[1..] == rest;
  }

  /** What the reader sees in the hidden text: the remaining bits, then whatever the copied
      rest of the cover spells. */
  lemma {:induction false} TagBitsOfTaggedText(cover: string, bits: seq<Bit>, k: nat)
    requires k <= |bits| && (|bits| - k) % 2 == 0 && 2 * LetterCount(cover) >= |bits| - k
    requires '<' !in cover
    ensures TagBits(TaggedText(cover, bits, k)) == bits[k..] + TagBits(Leftover(cover, bits, k))
    decreases |cover|
  {
    if cover == [] {
    } else if k >= |bits| {
      assert bits[k..] == [];
    } else {
      assert '<' !in cover[1..] by {
        assert forall j :: 0 <= j < |cover[1..]| ==> cover[1..][j] == cover[j + 1];
      }
      var rest := TaggedText(cover[1..], bits, if IsAsciiLetter(cover[0]) then k + 2 else k);
      if IsAsciiLetter(cover[0]) {
        TagBitsOfTagged(cover[0], bits[k], bits[k + 1], rest);
        TagBitsOfTaggedText(cover[1..], bits, k + 2);
        assert bits[k..] == [bits[k], bits[k + 1]] + bits[k + 2..];
        ConcatAssoc([bits[k], bits[k + 1]], bits[k + 2..], TagBits(Leftover(cover[1..], bits, k + 2)));
      } else {
        TagBitsOfOther(cover[0], rest);
        TagBitsOfTaggedText(cover[1..], bits, k);
      }
    }
  }

  /** Revealing gives back what was hidden, for a Latin-1 message free of the marker and a
      cover without '<' (which could open a tag the reader would misread). */
  lemma {:induction false} HideThenRevealMultiTag(cover: string, message: string)
    requires MultiTagHidden(cover, message).Ok?
    requires IsLatin1(message) && EndMarker !in message && '<' !in cover
    ensures MultiTagRevealed(MultiTagHidden(cover, message).value) == message
  {
    var s := message + [EndMarker];
    assert IsLatin1(s);
    CodeBitsLatin1(s);
    var bits := CodeBits(s);
    TagBitsOfTaggedText(cover, bits, 0);
    var rest := TagBits(Leftover(cover, bits, 0));
    assert bits[0..] == bits;
    WholeBytesOfByteBits(Codes(s), rest);
    var bytes := Codes(s) + WholeBytes(rest);
    var all := Latin1(bytes);
    assert all == s + Latin1(WholeBytes(rest)) by {
      forall i | 0 <= i < |all|
        ensures all[i] == (s + Latin1(WholeBytes(rest)))[i]
      {
      }
    }
    assert all == message + [EndMarker] + Latin1(WholeBytes(rest));
    CutAtMarkerOf(message, Latin1(WholeBytes(rest)));
  }
}
