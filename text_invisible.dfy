/** The invisible-characters method: the bits of the message (ending in '§') are written two
    per line, as one character appended to the line after its trailing white space is
    trimmed: a space for 00, a tab for 01, U+200B ZERO WIDTH SPACE for 10 and U+200C ZERO
    WIDTH NON-JOINER for 11. */
module TextInvisible {
  import opened Wrappers
  import opened Bits
  import opened JsString
  import opened TextBits
  import Utf8

  const ZeroWidthSpace: char := '\U{200B}'
  const ZeroWidthNonJoiner: char := '\U{200C}'

  function TooFewLines(needed: nat): string
  {
    "Text musí obsahovat alespoň " + NatToString(needed) + " řádků pro ukrytí zprávy."
  }

  /** The character that carries a pair of bits. */
  function PairChar(b1: Bit, b2: Bit): (c: char)
    ensures c != '\n'
  {
    if b1 == 0 && b2 == 0 then ' '
    else if b1 == 0 then '\t'
    else if b2 == 0 then ZeroWidthSpace
    else ZeroWidthNonJoiner
  }

  /** The bits the last character of a line carries: none unless it is one of the four. */
  function PairBits(c: char): seq<Bit>
  {
    if c == ' ' then [0, 0]
    else if c == '\t' then [0, 1]
    else if c == ZeroWidthSpace then [1, 0]
    else if c == ZeroWidthNonJoiner then [1, 1]
    else []
  }

  lemma {:induction false} PairBitsOfPairChar(b1: Bit, b2: Bit)
    ensures PairBits(PairChar(b1, b2)) == [b1, b2]
  {
  }

  /** Line `i` after hiding: trimmed and marked while bits remain, untouched otherwise. */
  function MarkLine(line: string, bits: seq<Bit>, i: nat): string
  {
    if 2 * i < |bits| then
      TrimEnd(line) + [PairChar(bits[2 * i], if 2 * i + 1 < |bits| then bits[2 * i + 1] else 0)]
    else line
  }

  function MarkedLines(lines: seq<string>, bits: seq<Bit>): (r: seq<string>)
    ensures |r| == |lines|
  {
    seq(|lines|, i requires 0 <= i < |lines| => MarkLine(lines[i], bits, i))
  }

  /** `hideWithInvisibleChars` as a value: an error when the cover has fewer than half as
      many lines as there are bits, otherwise the marked lines joined again. */
  function InvisibleHidden(cover: string, message: string): Result<string>
  {
    var bits := Utf8Bits(message + [EndMarker]);
    var lines := Split(cover, '\n');
    if 2 * |lines| < |bits| then Err(TooFewLines((|bits| + 1) / 2))
    else Ok(Join(MarkedLines(lines, bits), '\n'))
  }

  /** `hideWithInvisibleChars`: the loop that marks the lines one by one. */
  method HideWithInvisibleChars(cover: string, message: string) returns (r: Result<string>)
    ensures r == InvisibleHidden(cover, message)
  {
    var bits := Utf8Bits(message + [EndMarker]);
    var original := Split(cover, '\n');
    var lines := original;
    if 2 * |lines| < |bits| {
      return Err(TooFewLines((|bits| + 1) / 2));
    }
    var i := 0;
    while i < |lines| && 2 * i < |bits|
      invariant i <= |lines| == |original|
      invariant forall k :: 0 <= k < i ==> lines[k] == MarkLine(original[k], bits, k)
      invariant forall k :: i <= k < |lines| ==> lines[k] == original[k]
    {
      var bit1 := bits[2 * i];
      var bit2 := if 2 * i + 1 < |bits| then bits[2 * i + 1] else 0;
      lines := lines[i := TrimEnd(lines[i]) + [PairChar(bit1, bit2)]];
      i := i + 1;
    }
    assert lines == MarkedLines(original, bits);
    r := Ok(Join(lines, '\n'));
  }

  /** The bits the last characters of the lines carry, in order; empty lines carry none. */
  function LineBits(lines: seq<string>): seq<Bit>
  {
    if lines == [] then [] else LineBits(lines[..|lines| - 1]) + LastBits(lines[|lines| - 1])
  }

  function LastBits(line: string): seq<Bit>
  {
    if |line| == 0 then [] else PairBits(line[|line| - 1])
  }

  /** `revealWithInvisibleChars` as a value. */
  function InvisibleRevealed(text: string): string
  {
    CutAtMarker(Utf8.TextDecode(WholeBytes(LineBits(Split(text, '\n')))))
  }

  /** `revealWithInvisibleChars`: the loop over the lines that collects the bits, then the
      byte loop and the decoder. */
  method RevealWithInvisibleChars(text: string) returns (r: string)
    ensures r == InvisibleRevealed(text)
  {
    var lines := Split(text, '\n');
    var binary: seq<Bit> := [];
    var i := 0;
    while i < |lines|
      invariant i <= |lines| && binary == LineBits(lines[..i])
    {
      assert lines[..i + 1][..i] == lines[..i];
      var line := lines[i];
      if |line| != 0 {
        binary := binary + PairBits(line[|line| - 1]);
      } else {
        assert LastBits(line) == [];
        binary := binary + [];
      }
      i := i + 1;
    }
    assert lines[..i] == lines;
    var bytes := GroupBytes(binary);
    r := CutAtMarker(Utf8.TextDecode(bytes));
  }

  // ---------------------------------------------------------------- properties

  lemma {:induction false} LineBitsAppend(a: seq<string>, b: seq<string>)
    ensures LineBits(a + b) == LineBits(a) + LineBits(b)
    decreases |b|
  {
    if b == [] {
      assert a + b == a;
    } else {
      LineBitsAppend(a, b[..|b| - 1]);
      LineBitsAppendStep(a, b);
    }
  }

  lemma {:induction false} LineBitsAppendStep(a: seq<string>, b: seq<string>)
    requires b != []
    requires LineBits(a + b[..|b| - 1]) == LineBits(a) + LineBits(b[..|b| - 1])
    ensures LineBits(a + b) == LineBits(a) + LineBits(b)
  {
    LineBitsLast(a, b);
    var c := b[..|b| - 1];
    var x := LastBits(b[|b| - 1]);
    ConcatAssoc(LineBits(a), LineBits(c), x);
  }

  lemma {:induction false} LineBitsLast(a: seq<string>, b: seq<string>)
    requires b != []
    ensures LineBits(a + b) == LineBits(a + b[..|b| - 1]) + LastBits(b[|b| - 1])
  {
    var ab := a + b;
    assert ab[..|ab| - 1] == a + b[..|b| - 1];
    assert ab[|ab| - 1] == b[|b| - 1];
  }

  /** The first `h` marked lines carry the first `2 h` bits. */
  lemma {:induction false} LineBitsOfMarked(lines: seq<string>, bits: seq<Bit>, h: nat)
    requires |bits| % 2 == 0 && 2 * h <= |bits| && h <= |lines|
    ensures LineBits(MarkedLines(lines, bits)[..h]) == bits[..2 * h]
  {
    if h > 0 {
      var ml := MarkedLines(lines, bits);
      assert ml[..h][..h - 1] == ml[..h - 1];
      LineBitsOfMarked(lines, bits, h - 1);
      var line := ml[h - 1];
      PairBitsOfPairChar(bits[2 * h - 2], bits[2 * h - 1]);
      assert line[|line| - 1] == PairChar(bits[2 * h - 2], bits[2 * h - 1]);
      assert LastBits(line) == [bits[2 * h - 2], bits[2 * h - 1]];
      assert bits[..2 * h] == bits[..2 * h - 2] + [bits[2 * h - 2], bits[2 * h - 1]];
    }
  }

  /** Every marked line still holds no line break, so splitting the joined text gives the
      marked lines back. */
  lemma {:induction false} SplitOfMarked(cover: string, bits: seq<Bit>)
    ensures var ml := MarkedLines(Split(cover, '\n'), bits);
            Split(Join(ml, '\n'), '\n') == ml
  {
    var lines := Split(cover, '\n');
    var ml := MarkedLines(lines, bits);
    forall i, j | 0 <= i < |ml| && 0 <= j < |ml[i]|
      ensures ml[i][j] != '\n'
    {
      var t := TrimEnd(lines[i]);
      if 2 * i < |bits| && j < |t| {
        assert ml[i][j] == lines[i][j];
      }
    }
    SplitOfJoin(ml, '\n');
  }

  /** Hiding keeps the number of lines, and the lines past the message are left as they
      were. */
  lemma {:induction false} InvisibleHiddenKeepsLines(cover: string, message: string)
    requires InvisibleHidden(cover, message).Ok?
    ensures var lines := Split(cover, '\n');
            var out := Split(InvisibleHidden(cover, message).value, '\n');
            var bits := Utf8Bits(message + [EndMarker]);
            |out| == |lines|
            && (forall k :: |bits| <= 2 * k < 2 * |lines| ==> out[k] == lines[k])
            && (forall k :: 0 <= k < |lines| && 2 * k < |bits| ==> TrimEnd(lines[k]) < out[k])
  {
    SplitOfMarked(cover, Utf8Bits(message + [EndMarker]));
  }

  /** All the marked lines carry the bits, and the lines after them carry whatever their last
      characters happen to say. */
  lemma {:induction false} LineBitsOfAllMarked(lines: seq<string>, bits: seq<Bit>)
    requires |bits| % 2 == 0 && |bits| <= 2 * |lines|
    ensures var ml := MarkedLines(lines, bits);
            LineBits(ml) == bits + LineBits(ml[|bits| / 2..])
  {
    var ml := MarkedLines(lines, bits);
    var h := |bits| / 2;
    LineBitsOfMarked(lines, bits, h);
    assert bits[..2 * h] == bits;
    assert ml == ml[..h] + ml[h..];
    LineBitsAppend(ml[..h], ml[h..]);
  }

  /** Revealing gives back what was hidden, for every message free of the marker that does
      not start with a byte-order mark. */
  lemma {:induction false} HideThenRevealInvisible(cover: string, message: string)
    requires InvisibleHidden(cover, message).Ok?
    requires EndMarker !in message && (|message| == 0 || message[0] != Utf8.ByteOrderMark)
    ensures InvisibleRevealed(InvisibleHidden(cover, message).value) == message
  {
    var bits := Utf8Bits(message + [EndMarker]);
    var lines := Split(cover, '\n');
    var ml := MarkedLines(lines, bits);
    assert InvisibleHidden(cover, message).value == Join(ml, '\n');
    SplitOfMarked(cover, bits);
    LineBitsOfAllMarked(lines, bits);
    MarkedMessageRoundTrip(message, LineBits(ml[|bits| / 2..]));
  }
}
