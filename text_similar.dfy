/** The similar-letters method: the bits of the message's character codes (ending in '§')
    are carried by the characters of the cover that have a look-alike, each left as it is
    for 0 or replaced by its look-alike for 1; the list of those characters is appended as a
    `[VZOR:...]` trailer, and the reader takes the characters to look at from it. */
module TextSimilar {
  import opened Wrappers
  import opened Bits
  import opened JsString
  import opened TextBits
  import Utf8
  import opened SimilarTable

  /** The loop that builds `reverseMap`. */
  method BuildReverseMap() returns (m: map<char, char>)
    ensures forall c :: (c in m <==> OriginalUpTo(21, c).Some?)
    ensures forall c :: c in m ==> m[c] == OriginalUpTo(21, c).value
  {
    m := map[];
    var i := 0;
    while i < 21
      invariant i <= 21
      invariant forall c :: (c in m <==> OriginalUpTo(i, c).Some?)
      invariant forall c :: c in m ==> m[c] == OriginalUpTo(i, c).value
    {
      var e := Entry(i);
      m := m[e.original := e.original];
      m := m[e.substitute := e.original];
      i := i + 1;
    }
  }

  function TooFewSubstitutable(needed: nat): string
  {
    "Text musí obsahovat alespoň " + NatToString(needed) + " nahraditelných znaků pro ukrytí zprávy."
  }

  /** The number of characters of `s` the map has a look-alike for. */
  function KeyCount(s: string): (n: nat)
    ensures n <= |s|
  {
    if s == [] then 0 else (if IsKey(s[0]) then 1 else 0) + KeyCount(s[1..])
  }

  /** The text the hiding loop writes for the cover from some point on, with `k` bits used:
      while bits remain, a character of the map takes one, and every other character and
      everything after the last bit is copied. */
  function SubstitutedText(cover: string, bits: seq<Bit>, k: nat): (r: string)
    ensures |r| == |cover|
  {
    if cover == [] then []
    else if k < |bits| && IsKey(cover[0]) then
      [if bits[k] == 1 then Substitute(cover[0]) else cover[0]] + SubstitutedText(cover[1..], bits, k + 1)
    else [cover[0]] + SubstitutedText(cover[1..], bits, k)
  }

  const PatternOpen: string := "[VZOR:"

  /** The trailer the hider appends: a line break, then the keys in `[VZOR:...]`. */
  const Trailer: string := "\n" + PatternOpen + Keys + "]"

  /** `hideWithSimilarLetters` as a value. */
  function SimilarHidden(cover: string, message: string): Result<string>
  {
    var bits := CodeBits(message + [EndMarker]);
    if KeyCount(cover) < |bits| then Err(TooFewSubstitutable(|bits|))
    else Ok(SubstitutedText(cover, bits, 0) + Trailer)
  }

  /** `hideWithSimilarLetters`: the loop over the cover's characters. */
  method HideWithSimilarLetters(cover: string, message: string) returns (r: Result<string>)
    ensures r == SimilarHidden(cover, message)
  {
    var bits := CodeBits(message + [EndMarker]);
    if KeyCount(cover) < |bits| {
      return Err(TooFewSubstitutable(|bits|));
    }
    var result := "";
    var binaryIndex := 0;
    var i := 0;
    while i < |cover|
      invariant i <= |cover|
      invariant result + SubstitutedText(cover[i..], bits, binaryIndex) == SubstitutedText(cover, bits, 0)
    {
      var c := cover[i];
      assert cover[i..][1..] == cover[i + 1..];
      var piece := [c];
      if binaryIndex < |bits| && IsKey(c) {
        if bits[binaryIndex] == 1 {
          piece := [Substitute(c)];
        }
        ConcatAssoc(result, piece, SubstitutedText(cover[i + 1..], bits, binaryIndex + 1));
        binaryIndex := binaryIndex + 1;
      } else {
        ConcatAssoc(result, piece, SubstitutedText(cover[i + 1..], bits, binaryIndex));
      }
      result := result + piece;
      i := i + 1;
    }
    assert cover[i..] == [];
    assert result == SubstitutedText(cover, bits, 0);
    r := Ok(result + Trailer);
  }

  /** The characters `/\[VZOR:([a-zčěšžřáíéúůýóďťň]+)\]$/` accepts in the pattern. */
  predicate IsPatternChar(c: char)
  {
    ('a' <= c <= 'z') || c in "čěšžřáíéúůýóďťň"
  }

  /** The length of the longest run of pattern characters at the end of `t`. */
  function PatternRun(t: string): (n: nat)
    ensures n <= |t|
    ensures forall i :: |t| - n <= i < |t| ==> IsPatternChar(t[i])
    ensures n < |t| ==> !IsPatternChar(t[|t| - n - 1])
  {
    if t == [] || !IsPatternChar(t[|t| - 1]) then 0 else 1 + PatternRun(t[..|t| - 1])
  }

  /** The match of `/\[VZOR:([a-zčěšžřáíéúůýóďťň]+)\]$/`: the pattern of a text that ends in
      `[VZOR:`, one or more pattern characters and `]`. */
  function PatternOf(s: string): (r: Option<string>)
    ensures r.Some? ==> |r.value| >= 1 && (forall i :: 0 <= i < |r.value| ==> IsPatternChar(r.value[i]))
                        && |s| >= |r.value| + 7 && s[|s| - |r.value| - 7..] == PatternOpen + r.value + "]"
  {
    if |s| == 0 || s[|s| - 1] != ']' then None
    else
      var t := s[..|s| - 1];
      var n := PatternRun(t);
      if n >= 1 && |t| - n >= 6 && t[|t| - n - 6..|t| - n] == PatternOpen then Some(t[|t| - n..])
      else None
  }

  /** The bit a character of the text stands for, given the pattern's characters: a character
      counts when it or its `reverseMap` entry is in the pattern, and it stands for 1 when it
      is the look-alike of that entry; `None` for a character the reader skips. */
  function CharBit(c: char, pattern: string): Option<Bit>
  {
    var o := OriginalUpTo(21, c);
    if (o.Some? && o.value in pattern) || c in pattern then
      var original := if o.Some? then o.value else c;
      Some(if SubstituteFrom(0, original) == Some(c) then 1 else 0)
    else None
  }

  /** The bits the reading loop collects from `text` after `acc`: it stops at the first whole
      byte count at which the bytes so far decode to a text holding '§'. */
  function ReadBits(text: string, pattern: string, acc: seq<Bit>): seq<Bit>
    decreases |text|
  {
    if text == [] then acc
    else match CharBit(text[0], pattern)
      case None => ReadBits(text[1..], pattern, acc)
      case Some(b) =>
        var more := acc + [b];
        if |more| % 8 == 0 && EndMarker in Utf8.TextDecode(WholeBytes(more)) then more
        else ReadBits(text[1..], pattern, more)
  }

  /** `revealWithSimilarLetters` as a value: `None` without a trailer, otherwise the text
      before the last "\n[VZOR:" read, grouped into bytes, decoded and cut at '§'. */
  function SimilarRevealed(s: string): Option<string>
  {
    match PatternOf(s)
    case None => None
    case Some(pattern) =>
      var text := Substring(s, 0, LastIndexOfStr(s, "\n" + PatternOpen));
      Some(CutAtMarker(Utf8.TextDecode(WholeBytes(ReadBits(text, pattern, [])))))
  }

  /** `revealWithSimilarLetters`: the reverse map, the reading loop with its check for the
      marker after every eighth bit, and the final byte loop. */
  method RevealWithSimilarLetters(s: string) returns (r: Option<string>)
    ensures r == SimilarRevealed(s)
  {
    var patternMatch := PatternOf(s);
    if patternMatch.None? {
      return None;
    }
    var pattern := patternMatch.value;
    var text := Substring(s, 0, LastIndexOfStr(s, "\n" + PatternOpen));
    var reverseMap := BuildReverseMap();
    ghost var want := ReadBits(text, pattern, []);
    var binary: seq<Bit> := [];
    var i := 0;
    while i < |text|
      invariant i <= |text| && ReadBits(text[i..], pattern, binary) == want
    {
      var c := text[i];
      assert text[i..][1..] == text[i + 1..];
      var o := if c in reverseMap then Some(reverseMap[c]) else None;
      assert o == OriginalUpTo(21, c);
      if (o.Some? && o.value in pattern) || c in pattern {
        var original := if o.Some? then o.value else c;
        var b: Bit := if SubstituteFrom(0, original) == Some(c) then 1 else 0;
        binary := binary + [b];
        if |binary| % 8 == 0 {
          var currentBytes := GroupBytes(binary);
          if EndMarker in Utf8.TextDecode(currentBytes) {
            break;
          }
        }
      }
      i := i + 1;
    }
    assert i == |text| ==> text[i..] == [];
    var bytes := GroupBytes(binary);
    r := Some(CutAtMarker(Utf8.TextDecode(bytes)));
  }

  // ---------------------------------------------------------------- properties

  /** What becomes of character `c` of the cover when `n` characters of the map precede it:
      it is replaced by its look-alike when it is in the map and bit `n` is a 1. */
  function Carried(c: char, bits: seq<Bit>, n: nat): char
  {
    if IsKey(c) && n < |bits| && bits[n] == 1 then Substitute(c) else c
  }

  lemma {:induction false} SubstitutedTextAt(cover: string, bits: seq<Bit>, k: nat, i: nat)
    requires i < |cover|
    ensures SubstitutedText(cover, bits, k)[i] == Carried(cover[i], bits, k + KeyCount(cover[..i]))
    decreases i
  {
    if i == 0 {
      assert cover[..0] == [];
    } else {
      var step := if k < |bits| && IsKey(cover[0]) then 1 else 0;
      SubstitutedTextAt(cover[1..], bits, k + step, i - 1);
      assert cover[..i][1..] == cover[1..][..i - 1];
      assert cover[..i][0] == cover[0];
      assert cover[1..][i - 1] == cover[i];
    }
  }

  /** Hiding: an error exactly when the cover has fewer characters of the map than there are
      bits (eight per character for a Latin-1 message, marker included); otherwise the cover
      with each character replaced as `Carried` says, then the trailer. */
  lemma {:induction false} SimilarHiddenShape(cover: string, message: string)
    ensures var bits := CodeBits(message + [EndMarker]);
            (SimilarHidden(cover, message).Err? <==> KeyCount(cover) < |bits|)
            && (IsLatin1(message) ==> |bits| == 8 * (|message| + 1))
            && (SimilarHidden(cover, message).Ok? ==>
                  var out := SimilarHidden(cover, message).value;
                  |out| == |cover| + |Trailer|
                  && out[|cover|..] == Trailer
                  && forall i :: 0 <= i < |cover| ==> out[i] == Carried(cover[i], bits, KeyCount(cover[..i])))
  {
    var s := message + [EndMarker];
    var bits := CodeBits(s);
    if IsLatin1(message) {
      assert IsLatin1(s);
      CodeBitsLatin1(s);
    }
    if SimilarHidden(cover, message).Ok? {
      var body := SubstitutedText(cover, bits, 0);
      forall i | 0 <= i < |cover|
        ensures (body + Trailer)[i] == Carried(cover[i], bits, KeyCount(cover[..i]))
      {
        SubstitutedTextAt(cover, bits, 0, i);
      }
    }
  }

  /** A trailer of pattern characters is matched, whatever precedes it. */
  lemma {:induction false} PatternOfTrailer(pre: string, x: string)
    requires |x| >= 1 && forall i :: 0 <= i < |x| ==> IsPatternChar(x[i])
    ensures PatternOf(pre + PatternOpen + x + "]") == Some(x)
  {
    var s := pre + PatternOpen + x + "]";
    var t := s[..|s| - 1];
    assert t == pre + PatternOpen + x;
    var n := PatternRun(t);
    assert t[|t| - |x| - 1] == ':';
    assert t[|t| - n - 6..|t| - n] == PatternOpen;
    assert t[|t| - n..] == x;
  }

  /** The last "\n[VZOR:" of a hidden text is the one the trailer starts with. */
  lemma {:induction false} LastTrailerAt(body: string)
    ensures LastIndexOfStr(body + Trailer, "\n" + PatternOpen) == |body|
  {
    var s := body + Trailer;
    var p := "\n" + PatternOpen;
    assert OccursAt(s, p, |body|) by {
      assert s[|body|..|body| + |p|] == p;
    }
    forall j | |body| < j
      ensures !OccursAt(s, p, j)
    {
      if j < |s| {
        assert s[j] == Trailer[j - |body|];
        assert forall m :: 1 <= m < |Trailer| ==> Trailer[m] != '\n';
      }
    }
  }

  /** The reader finds the trailer the hider wrote, takes every key as a pattern character and
      reads exactly the text before the trailer. */
  lemma {:induction false} RevealReadsBody(body: string)
    ensures SimilarRevealed(body + Trailer)
            == Some(CutAtMarker(Utf8.TextDecode(WholeBytes(ReadBits(body, Keys, [])))))
  {
    var s := body + Trailer;
    assert forall i :: 0 <= i < |Keys| ==> IsPatternChar(Keys[i]);
    assert s == body + "\n" + PatternOpen + Keys + "]";
    PatternOfTrailer(body + "\n", Keys);
    LastTrailerAt(body);
    assert Substring(s, 0, |body|) == body;
  }

  /** `ž` and `ř` are their own look-alikes, so wherever they stand the reader sees a 1. */
  lemma {:induction false} SelfLookAlikesReadAsOne()
    ensures CharBit('ž', Keys) == Some(1) && CharBit('ř', Keys) == Some(1)
  {
    assert Keys[19] == 'ž' && Keys[20] == 'ř';
    SubstituteOfZCaron();
    SubstituteOfRCaron();
  }

  /** A look-alike that was in the cover before hiding is read as a 1 as well. */
  lemma {:induction false} PresentLookAlikeReadsAsOne()
    ensures CharBit('5', Keys) == Some(1)
  {
    assert Keys[5] == 's';
    ReverseOfFive();
  }

  /** 'o' reads as 0 and its look-alike '0' as 1. */
  lemma {:induction false} CharBitsOfO()
    ensures CharBit('o', Keys) == Some(0) && CharBit('0', Keys) == Some(1)
  {
    assert Keys[0] == 'o';
    ReverseOfSmallO();
    ReverseOfZero();
  }

  /** `n` letters 'o'. */
  function Os(n: nat): (r: string)
    ensures |r| == n && forall i :: 0 <= i < n ==> r[i] == 'o'
  {
    if n == 0 then [] else "o" + Os(n - 1)
  }

  /** A cover of `n` letters 'o' with `n` bits left: each 'o' becomes '0' for a 1. */
  lemma {:induction false} SubstitutedOs(n: nat, bits: seq<Bit>, k: nat)
    requires k + n <= |bits|
    ensures forall i :: 0 <= i < n ==>
              SubstitutedText(Os(n), bits, k)[i] == (if bits[k + i] == 1 then '0' else 'o')
  {
    if n > 0 {
      var cover := Os(n);
      assert cover[1..] == Os(n - 1);
      assert IsKey('o') by { assert Keys[0] == 'o'; }
      assert Substitute('o') == '0';
      SubstitutedOs(n - 1, bits, k + 1);
      var rest := SubstitutedText(Os(n - 1), bits, k + 1);
      var out := SubstitutedText(cover, bits, k);
      assert out == [if bits[k] == 1 then '0' else 'o'] + rest;
      forall i | 0 < i < n
        ensures out[i] == (if bits[k + i] == 1 then '0' else 'o')
      {
        assert out[i] == rest[i - 1];
      }
    }
  }

  /** The marker's character code 0xA7 as the hider writes it. */
  lemma {:induction false} MarkerBits()
    ensures CodeBits("" + [EndMarker]) == [1, 0, 1, 0, 0, 1, 1, 1]
  {
    assert "" + [EndMarker] == [EndMarker];
    assert [EndMarker][..0] == [];
    PaddedBinaryByte(0xA7);
    assert ToBits(0xA7, 8) == [1, 0, 1, 0, 0, 1, 1, 1];
  }

  /** The empty message hidden in "oooooooo". */
  lemma {:induction false} HiddenInOs()
    ensures SimilarHidden("oooooooo", "") == Ok("0o0oo000" + Trailer)
  {
    var bits := CodeBits("" + [EndMarker]);
    MarkerBits();
    var cover := "oooooooo";
    assert cover == Os(8);
    assert KeyCount(cover) == 8 by {
      assert Keys[0] == 'o';
    }
    SubstitutedOs(8, bits, 0);
    assert SubstitutedText(cover, bits, 0) == "0o0oo000";
  }

  /** Reading exactly eight readable characters collects their eight bits, whether or not
      the bytes then hold the marker. */
  lemma {:induction false} ReadEight(text: string, pattern: string, acc: seq<Bit>)
    requires |acc| + |text| == 8 && |text| > 0
    requires forall i :: 0 <= i < |text| ==> CharBit(text[i], pattern).Some?
    ensures ReadBits(text, pattern, acc)
            == acc + seq(|text|, i requires 0 <= i < |text| => CharBit(text[i], pattern).value)
    decreases |text|
  {
    var b := CharBit(text[0], pattern).value;
    var more := acc + [b];
    var want := seq(|text|, i requires 0 <= i < |text| => CharBit(text[i], pattern).value);
    if |text| == 1 {
      assert want == [b];
    } else {
      ReadEight(text[1..], pattern, more);
      assert want == [b] + seq(|text| - 1, i requires 0 <= i < |text| - 1 => CharBit(text[1..][i], pattern).value);
    }
  }

  /** The reader takes "0o0oo000" for the bits of 0xA7. */
  lemma {:induction false} ReadOs()
    ensures ReadBits("0o0oo000", Keys, []) == [1, 0, 1, 0, 0, 1, 1, 1]
  {
    var text := "0o0oo000";
    CharBitsOfO();
    assert forall i :: 0 <= i < |text| ==> text[i] == 'o' || text[i] == '0';
    ReadEight(text, Keys, []);
  }

  /** 0xA7 alone is ill-formed UTF-8. */
  lemma {:induction false} DecodeA7()
    ensures Utf8.TextDecode(WholeBytes([1, 0, 1, 0, 0, 1, 1, 1])) == [Utf8.Replacement]
  {
    var bits: seq<Bit> := [1, 0, 1, 0, 0, 1, 1, 1];
    assert bits == ToBits(0xA7, 8);
    assert Pow2(8) == 256;
    FromToBits(0xA7, 8);
    assert bits[0..8] == bits;
    assert WholeBytes(bits) == [0xA7];
    assert Utf8.DecodeReplacing([0xA7]) == [Utf8.Replacement] by {
      assert [0xA7][1..] == [];
    }
  }

  /** The hider writes the marker as its character code 0xA7, the reader decodes UTF-8, in
      which 0xA7 alone is ill-formed: the empty message hidden in "oooooooo" comes back as
      U+FFFD REPLACEMENT CHARACTER, not as "". */
  lemma {:induction false} MarkerComesBackReplaced()
    ensures SimilarHidden("oooooooo", "") == Ok("0o0oo000" + Trailer)
    ensures SimilarRevealed("0o0oo000" + Trailer) == Some([Utf8.Replacement])
  {
    HiddenInOs();
    RevealReadsBody("0o0oo000");
    ReadOs();
    DecodeA7();
    assert CutAtMarker([Utf8.Replacement]) == [Utf8.Replacement];
  }
}
