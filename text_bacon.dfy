/** The Bacon cipher: the message is spelled in symbols A and B, five for each letter (more
    for the Czech letters and punctuation), after five symbols holding its length (at most
    31), and each symbol is carried by one ASCII letter of the cover, plain for A and wrapped
    in `<i>` for B. */
module TextBacon {
  import opened Wrappers
  import opened Bits
  import opened JsString
  import opened TextMultiTag

  function TooFewCharacters(needed: nat): string
  {
    "Text musí obsahovat alespoň " + NatToString(needed) + " znaků pro ukrytí zprávy."
  }

  /** The cipher's dictionary: the letters a to z have the five-symbol codes of 0 to 25
      (AAAAA for a up to BBAAB for z, as the `LetterCodesAsListed` lemmas check), the Czech
      letters and the punctuation have the codes of `OtherCodes`, and a character without an
      entry has no code. */
  function BaconCode(c: char): (r: string)
  {
    if 'a' <= c <= 'z' then LetterSymbols(c)
    else if c in OtherCodes then OtherCodes[c]
    else ""
  }

  /** The entries of the dictionary for the Czech letters and the punctuation. */
  const OtherCodes: map<char, string> := map[
    'á' := "BBAABA",
    'č' := "BBABAA",
    'ď' := "BBABAB",
    'é' := "BBABBA",
    'ě' := "BBABBB",
    'í' := "BBBAAA",
    'ň' := "BBBAAB",
    'ó' := "BBBABA",
    'ř' := "BBBABB",
    'š' := "BBBBAA",
    'ť' := "BBBBAB",
    'ú' := "BBBBBA",
    'ů' := "BBBBBB",
    'ý' := "BAAAAA",
    'ž' := "BAAAAB",
    ' ' := "BAAAABA",
    '.' := "BAAAABB",
    ',' := "BAABAA",
    '?' := "BAABAB",
    '!' := "BAABBA",
    '-' := "BAABBB"]

  /** The code of a small letter: the value of its place in the alphabet in five symbols. */
  function LetterSymbols(c: char): (r: string)
    requires 'a' <= c <= 'z'
    ensures |r| == 5
  {
    Symbols(c as int - 'a' as int, 5)
  }

  /** `n.toString(2).padStart(w, '0')` with 0 written A and 1 written B, for `n < 2^w`. */
  function Symbols(v: nat, w: nat): (r: string)
    ensures |r| == w && forall i :: 0 <= i < w ==> r[i] == 'A' || r[i] == 'B'
  {
    if w == 0 then "" else Symbols(v / 2, w - 1) + [if v % 2 == 1 then 'B' else 'A']
  }

  /** `parseInt(code.replace(/A/g, '0').replace(/B/g, '1'), 2)` for a code of A and B. */
  function SymbolValue(code: string): (v: nat)
    ensures v < Pow2(|code|)
  {
    if code == [] then 0
    else 2 * SymbolValue(code[..|code| - 1]) + (if code[|code| - 1] == 'B' then 1 else 0)
  }

  /** `toLowerCase` on the characters whose lower-case form the dictionary knows: the ASCII
      capitals, the Kelvin sign (U+212A, whose lower case is 'k') and the Czech capitals;
      every other character is left as it is. */
  function LowerCase(c: char): char
  {
    if 'A' <= c <= 'Z' then (c as int + 32) as char
    else if c == '\U{212A}' then 'k'
    else if c == 'Á' then 'á'
    else if c == 'Č' then 'č'
    else if c == 'Ď' then 'ď'
    else if c == 'É' then 'é'
    else if c == 'Ě' then 'ě'
    else if c == 'Í' then 'í'
    else if c == 'Ň' then 'ň'
    else if c == 'Ó' then 'ó'
    else if c == 'Ř' then 'ř'
    else if c == 'Š' then 'š'
    else if c == 'Ť' then 'ť'
    else if c == 'Ú' then 'ú'
    else if c == 'Ů' then 'ů'
    else if c == 'Ý' then 'ý'
    else if c == 'Ž' then 'ž'
    else c
  }

  /** `toLowerCase` of one character: the capital I with a dot above (U+0130) becomes two
      characters, a small 'i' and the combining dot above (U+0307), as Unicode's
      unconditional special casing says; any other character becomes its `LowerCase`. */
  function LowerForm(c: char): (r: string)
    ensures |r| == (if c == '\U{0130}' then 2 else 1)
  {
    if c == '\U{0130}' then "i\U{0307}" else [LowerCase(c)]
  }

  /** `toLowerCase().split('')`: the lower-case forms of the characters, one after another.
      Each dotted capital I adds a character, and a text without one is mapped character by
      character. */
  function LowerString(s: string): (r: string)
    ensures |r| == |s| + multiset(s)['\U{0130}']
    ensures (forall i :: 0 <= i < |s| ==> s[i] != '\U{0130}')
            ==> forall i :: 0 <= i < |s| ==> r[i] == LowerCase(s[i])
  {
    if s == [] then []
    else
      assert s == [s[0]] + s[1..];
      LowerForm(s[0]) + LowerString(s[1..])
  }

  /** The codes of the characters of a message, concatenated. */
  function MessageCodes(s: string): string
  {
    if s == [] then "" else MessageCodes(s[..|s| - 1]) + BaconCode(s[|s| - 1])
  }

  /** The whole symbol string: the length code, then the codes of the lower-cased message. */
  function BaconMessage(message: string): string
  {
    var n := if |message| < 31 then |message| else 31;
    Symbols(n, 5) + MessageCodes(LowerString(message))
  }

  /** `originalText.replace(/\s/g, '').length`. */
  function NonSpaceCount(s: string): (n: nat)
    ensures n <= |s|
  {
    if s == [] then 0 else (if IsWhiteSpace(s[0]) then 0 else 1) + NonSpaceCount(s[1..])
  }

  /** The text the hiding loop writes for the cover from some point on, with `k` symbols used:
      each letter takes one symbol while symbols remain, and then the rest is copied. */
  function ItalicText(cover: string, code: string, k: nat): string
  {
    if cover == [] then []
    else if k >= |code| then cover
    else if IsAsciiLetter(cover[0]) then
      (if code[k] == 'A' then [cover[0]] else "<i>" + [cover[0]] + "</i>")
      + ItalicText(cover[1..], code, k + 1)
    else [cover[0]] + ItalicText(cover[1..], code, k)
  }

  /** `hideWithBaconCipher` as a value. The capacity check counts every character that is
      not white space, although only letters carry symbols. */
  function BaconHidden(cover: string, message: string): Result<string>
  {
    var code := BaconMessage(message);
    if NonSpaceCount(cover) < |code| then Err(TooFewCharacters(|code|))
    else Ok(ItalicText(cover, code, 0))
  }

  /** `hideWithBaconCipher`: the loop over the cover's characters. */
  method HideWithBaconCipher(cover: string, message: string) returns (r: Result<string>)
    ensures r == BaconHidden(cover, message)
  {
    var code := BaconMessage(message);
    if NonSpaceCount(cover) < |code| {
      return Err(TooFewCharacters(|code|));
    }
    var result := "";
    var baconIndex := 0;
    var i := 0;
    while i < |cover|
      invariant i <= |cover|
      invariant result + ItalicText(cover[i..], code, baconIndex) == ItalicText(cover, code, 0)
    {
      if baconIndex >= |code| {
        result := result + cover[i..];
        break;
      }
      var c := cover[i];
      assert cover[i..][1..] == cover[i + 1..];
      if IsAsciiLetter(c) {
        var piece := if code[baconIndex] == 'A' then [c] else "<i>" + [c] + "</i>";
        ConcatAssoc(result, piece, ItalicText(cover[i + 1..], code, baconIndex + 1));
        result := result + piece;
        baconIndex := baconIndex + 1;
      } else {
        ConcatAssoc(result, [c], ItalicText(cover[i + 1..], code, baconIndex));
        result := result + [c];
      }
      i := i + 1;
    }
    assert result == ItalicText(cover, code, 0);
    r := Ok(result);
  }

  /** One match of `/<i>([a-zA-Z])<\/i>|([a-zA-Z])/` at the start of a text: the symbol it
      stands for (none for a stepped-over character) and its length. */
  datatype SymbolMatch = SymbolMatch(symbol: string, len: nat)

  function SymbolAt(s: string): (m: SymbolMatch)
    requires s != []
    ensures 1 <= m.len <= |s|
  {
    if IsTagAt(s, 'i') then SymbolMatch("B", 8)
    else if IsAsciiLetter(s[0]) then SymbolMatch("A", 1)
    else SymbolMatch("", 1)
  }

  /** The symbols all the matches of the global regular expression stand for. */
  function TextSymbols(s: string): string
    decreases |s|
  {
    if s == [] then [] else var m := SymbolAt(s); m.symbol + TextSymbols(s[m.len..])
  }

  /** The `regex.exec` loop of `revealWithBaconCipher`. */
  method ScanSymbols(text: string) returns (code: string)
    ensures code == TextSymbols(text)
  {
    code := [];
    var p := 0;
    while p < |text|
      invariant p <= |text| && code + TextSymbols(text[p..]) == TextSymbols(text)
    {
      var m := SymbolAt(text[p..]);
      assert text[p..][m.len..] == text[p + m.len..];
      ConcatAssoc(code, m.symbol, TextSymbols(text[p + m.len..]));
      code := code + m.symbol;
      p := p + m.len;
    }
  }

  /** What the reversed dictionary gives for a group of five symbols: the letter whose code
      it is, for the values 0 to 25; the six values above have no entry. */
  function GroupLetter(group: string): Option<char>
  {
    var v := SymbolValue(group);
    if v < 26 then Some(('a' as int + v) as char) else None
  }

  /** The letters the groups at `i`, `i + 5`, ... spell, while `i` is before `end` and a whole
      group remains. */
  function GroupLetters(code: string, i: nat, end: nat): string
    decreases |code| - i
  {
    if i < end && i + 4 < |code| then
      var rest := GroupLetters(code, i + 5, end);
      match GroupLetter(code[i..i + 5])
      case Some(c) => [c] + rest
      case None => rest
    else ""
  }

  /** `revealWithBaconCipher` as a value: nothing without a length code, otherwise the letters
      of as many groups as the length code says (and the text holds). */
  function BaconRevealed(text: string): string
  {
    var code := TextSymbols(text);
    if |code| < 5 then "" else GroupLetters(code, 5, 5 + 5 * SymbolValue(code[..5]))
  }

  /** `revealWithBaconCipher`. */
  method RevealWithBaconCipher(text: string) returns (r: string)
    ensures r == BaconRevealed(text)
  {
    var code := ScanSymbols(text);
    if |code| < 5 {
      return "";
    }
    var messageLength := SymbolValue(code[..5]);
    var end := 5 + 5 * messageLength;
    ghost var want := GroupLetters(code, 5, end);
    r := "";
    var i := 5;
    while i < end && i + 4 < |code|
      invariant 5 <= i && r + GroupLetters(code, i, end) == want
      decreases |code| - i
    {
      var c := GroupLetter(code[i..i + 5]);
      if c.Some? {
        ConcatAssoc(r, [c.value], GroupLetters(code, i + 5, end));
        r := r + [c.value];
      }
      i := i + 5;
    }
  }

  // ---------------------------------------------------------------- the dictionary

  /** The letter codes are the ones the dictionary lists. */
  lemma {:induction false} LetterCodesAsListedAToC()
    ensures BaconCode('a') == "AAAAA"
    ensures BaconCode('b') == "AAAAB"
    ensures BaconCode('c') == "AAABA"
  {
    assert Symbols(0, 5) == "AAAAA";
    assert Symbols(1, 5) == "AAAAB";
    assert Symbols(2, 5) == "AAABA";
  }

  lemma {:induction false} LetterCodesAsListedDToF()
    ensures BaconCode('d') == "AAABB"
    ensures BaconCode('e') == "AABAA"
    ensures BaconCode('f') == "AABAB"
  {
    assert Symbols(3, 5) == "AAABB";
    assert Symbols(4, 5) == "AABAA";
    assert Symbols(5, 5) == "AABAB";
  }

  lemma {:induction false} LetterCodesAsListedGToI()
    ensures BaconCode('g') == "AABBA"
    ensures BaconCode('h') == "AABBB"
    ensures BaconCode('i') == "ABAAA"
  {
    assert Symbols(6, 5) == "AABBA";
    assert Symbols(7, 5) == "AABBB";
    assert Symbols(8, 5) == "ABAAA";
  }

  lemma {:induction false} LetterCodesAsListedJToL()
    ensures BaconCode('j') == "ABAAB"
    ensures BaconCode('k') == "ABABA"
    ensures BaconCode('l') == "ABABB"
  {
    assert Symbols(9, 5) == "ABAAB";
    assert Symbols(10, 5) == "ABABA";
    assert Symbols(11, 5) == "ABABB";
  }

  lemma {:induction false} LetterCodesAsListedMToO()
    ensures BaconCode('m') == "ABBAA"
    ensures BaconCode('n') == "ABBAB"
    ensures BaconCode('o') == "ABBBA"
  {
    assert Symbols(12, 5) == "ABBAA";
    assert Symbols(13, 5) == "ABBAB";
    assert Symbols(14, 5) == "ABBBA";
  }

  lemma {:induction false} LetterCodesAsListedPToR()
    ensures BaconCode('p') == "ABBBB"
    ensures BaconCode('q') == "BAAAA"
    ensures BaconCode('r') == "BAAAB"
  {
    assert Symbols(15, 5) == "ABBBB";
    assert Symbols(16, 5) == "BAAAA";
    assert Symbols(17, 5) == "BAAAB";
  }

  lemma {:induction false} LetterCodesAsListedSToU()
    ensures BaconCode('s') == "BAABA"
    ensures BaconCode('t') == "BAABB"
    ensures BaconCode('u') == "BABAA"
  {
    assert Symbols(18, 5) == "BAABA";
    assert Symbols(19, 5) == "BAABB";
    assert Symbols(20, 5) == "BABAA";
  }

  lemma {:induction false} LetterCodesAsListedVToX()
    ensures BaconCode('v') == "BABAB"
    ensures BaconCode('w') == "BABBA"
    ensures BaconCode('x') == "BABBB"
  {
    assert Symbols(21, 5) == "BABAB";
    assert Symbols(22, 5) == "BABBA";
    assert Symbols(23, 5) == "BABBB";
  }

  lemma {:induction false} LetterCodesAsListedYToZ()
    ensures BaconCode('y') == "BBAAA"
    ensures BaconCode('z') == "BBAAB"
  {
    assert Symbols(24, 5) == "BBAAA";
    assert Symbols(25, 5) == "BBAAB";
  }

  /** Every entry other than a letter's is six or seven symbols long. */
  lemma {:induction false} OtherCodesLonger(c: char)
    requires !('a' <= c <= 'z')
    ensures |BaconCode(c)| != 5
  {
  }

  lemma {:induction false} SymbolValueOfSymbols(v: nat, w: nat)
    requires v < Pow2(w)
    ensures SymbolValue(Symbols(v, w)) == v
  {
    if w > 0 {
      var s := Symbols(v, w);
      assert s[..|s| - 1] == Symbols(v / 2, w - 1);
      SymbolValueOfSymbols(v / 2, w - 1);
    }
  }

  lemma {:induction false} SymbolsOfSymbolValue(code: string)
    requires forall i :: 0 <= i < |code| ==> code[i] == 'A' || code[i] == 'B'
    ensures Symbols(SymbolValue(code), |code|) == code
  {
    if code != [] {
      var init := code[..|code| - 1];
      SymbolsOfSymbolValue(init);
      var v := SymbolValue(code);
      assert v / 2 == SymbolValue(init) && v % 2 == (if code[|code| - 1] == 'B' then 1 else 0);
      assert code == init + [code[|code| - 1]];
    }
  }

  /** The reversed dictionary on groups of five symbols: a group names the letter whose code
      it is, and no other character has a five-symbol code. */
  lemma {:induction false} GroupLetterIsReverse(c: char, group: string)
    requires |group| == 5 && forall i :: 0 <= i < 5 ==> group[i] == 'A' || group[i] == 'B'
    ensures GroupLetter(group) == Some(c) <==> BaconCode(c) == group
  {
    assert Pow2(5) == 32;
    if 'a' <= c <= 'z' {
      var k := c as int - 'a' as int;
      SymbolValueOfSymbols(k, 5);
      SymbolsOfSymbolValue(group);
    } else {
      OtherCodesLonger(c);
    }
  }

  // ---------------------------------------------------------------- properties

  predicate IsSymbols(s: string)
  {
    forall i :: 0 <= i < |s| ==> s[i] == 'A' || s[i] == 'B'
  }

  /** The part of the cover the hiding loop copies unchanged once the symbols run out. */
  function BaconLeftover(cover: string, code: string, k: nat): string
  {
    if cover == [] then []
    else if k >= |code| then cover
    else if IsAsciiLetter(cover[0]) then BaconLeftover(cover[1..], code, k + 1)
    else BaconLeftover(cover[1..], code, k)
  }

  /** A letter written by the hiding loop reads back as its symbol. */
  lemma {:induction false} SymbolsOfLetter(c: char, symbol: char, rest: string)
    requires IsAsciiLetter(c) && (symbol == 'A' || symbol == 'B')
    ensures TextSymbols((if symbol == 'A' then [c] else "<i>" + [c] + "</i>") + rest)
            == [symbol] + TextSymbols(rest)
  {
    var s := (if symbol == 'A' then [c] else "<i>" + [c] + "</i>") + rest;
    var m := SymbolAt(s);
    assert s[m.len..] == rest;
  }

  /** A character other than a letter or '<' is stepped over. */
  lemma {:induction false} SymbolsOfOther(c: char, rest: string)
    requires !IsAsciiLetter(c) && c != '<'
    ensures TextSymbols([c] + rest) == TextSymbols(rest)
  {
    assert ([c] + rest)[1..] == rest;
  }

  /** What the reader sees in the hidden text: the remaining symbols, then whatever the copied
      rest of the cover spells. */
  lemma {:induction false} SymbolsOfItalicText(cover: string, code: string, k: nat)
    requires k <= |code| && IsSymbols(code) && LetterCount(cover) >= |code| - k
    requires '<' !in cover
    ensures TextSymbols(ItalicText(cover, code, k))
            == code[k..] + TextSymbols(BaconLeftover(cover, code, k))
    decreases |cover|
  {
    if cover == [] {
    } else if k >= |code| {
      assert code[k..] == [];
    } else {
      assert '<' !in cover[1..] by {
        assert forall j :: 0 <= j < |cover[1..]| ==> cover[1..][j] == cover[j + 1];
      }
      if IsAsciiLetter(cover[0]) {
        var rest := ItalicText(cover[1..], code, k + 1);
        SymbolsOfLetter(cover[0], code[k], rest);
        SymbolsOfItalicText(cover[1..], code, k + 1);
        assert code[k..] == [code[k]] + code[k + 1..];
        ConcatAssoc([code[k]], code[k + 1..], TextSymbols(BaconLeftover(cover[1..], code, k + 1)));
      } else {
        SymbolsOfOther(cover[0], ItalicText(cover[1..], code, k));
        SymbolsOfItalicText(cover[1..], code, k);
      }
    }
  }

  predicate AllLowerLetters(s: string)
  {
    forall i :: 0 <= i < |s| ==> 'a' <= s[i] <= 'z'
  }

  /** The group of five symbols at place `j`. */
  function Group(code: string, j: nat): string
    requires 5 * j + 5 <= |code|
  {
    code[5 * j..5 * j + 5]
  }

  /** `code` is the codes of the small letters of `s`, five symbols each. */
  predicate SpellsLetters(code: string, s: string)
  {
    |code| == 5 * |s| && IsSymbols(code)
    && forall j :: 0 <= j < |s| ==> 'a' <= s[j] <= 'z' && Group(code, j) == LetterSymbols(s[j])
  }

  /** The codes of a message of small letters: five symbols per letter, the binary value of
      its place in the alphabet. */
  lemma {:induction false} MessageCodesOfLetters(s: string)
    requires AllLowerLetters(s)
    ensures SpellsLetters(MessageCodes(s), s)
  {
    if s != [] {
      var init := s[..|s| - 1];
      assert AllLowerLetters(init) by {
        assert forall i :: 0 <= i < |init| ==> init[i] == s[i];
      }
      MessageCodesOfLetters(init);
      MessageCodesStep(s);
    }
  }

  lemma {:induction false} MessageCodesStep(s: string)
    requires s != [] && 'a' <= s[|s| - 1] <= 'z'
    requires SpellsLetters(MessageCodes(s[..|s| - 1]), s[..|s| - 1])
    ensures SpellsLetters(MessageCodes(s), s)
  {
    var init := s[..|s| - 1];
    var c := s[|s| - 1];
    var p := MessageCodes(init);
    var r := p + LetterSymbols(c);
    assert MessageCodes(s) == r;
    forall j | 0 <= j < |s|
      ensures 'a' <= s[j] <= 'z' && Group(r, j) == LetterSymbols(s[j])
    {
      if j < |init| {
        assert s[j] == init[j];
        assert Group(r, j) == Group(p, j);
      } else {
        assert s[j] == c;
        assert Group(r, j) == LetterSymbols(c);
      }
    }
  }

  /** A group of five symbols spelling the value of a small letter names that letter. */
  lemma {:induction false} GroupLetterOfSymbols(c: char)
    requires 'a' <= c <= 'z'
    ensures GroupLetter(LetterSymbols(c)) == Some(c)
  {
    assert Pow2(5) == 32;
    SymbolValueOfSymbols(c as int - 'a' as int, 5);
  }

  /** The groups after the length code spell the letters whose codes they are. */
  lemma {:induction false} GroupLettersOfCodes(code: string, s: string, j: nat)
    requires AllLowerLetters(s) && j <= |s| && |code| >= 5 + 5 * |s|
    requires forall i :: j <= i < |s| ==> Group(code, i + 1) == LetterSymbols(s[i])
    ensures GroupLetters(code, 5 + 5 * j, 5 + 5 * |s|) == s[j..]
    decreases |s| - j
  {
    if j < |s| {
      GroupLettersStep(code, 5 + 5 * j, 5 + 5 * |s|, s[j]);
      GroupLettersOfCodes(code, s, j + 1);
      assert s[j..] == [s[j]] + s[j + 1..];
    }
  }

  lemma {:induction false} GroupLettersStep(code: string, i: nat, end: nat, c: char)
    requires 'a' <= c <= 'z' && i % 5 == 0 && i < end && i + 5 <= |code|
    requires Group(code, i / 5) == LetterSymbols(c)
    ensures GroupLetters(code, i, end) == [c] + GroupLetters(code, i + 5, end)
  {
    assert code[i..i + 5] == LetterSymbols(c);
    GroupLetterOfSymbols(c);
  }

  /** Letters are not white space, so a cover with enough letters passes the capacity check. */
  lemma {:induction false} LettersAreNotSpace(s: string)
    ensures LetterCount(s) <= NonSpaceCount(s)
  {
    if s != [] {
      LettersAreNotSpace(s[1..]);
    }
  }

  /** The symbols of a message of ASCII letters: its length, then the codes of its letters
      in lower case. */
  lemma {:induction false} BaconMessageOfLetters(message: string)
    requires forall i :: 0 <= i < |message| ==> IsAsciiLetter(message[i])
    requires |message| <= 31
    ensures var lm := LowerString(message);
            |lm| == |message| && BaconMessage(message) == Symbols(|message|, 5) + MessageCodes(lm)
            && SpellsLetters(MessageCodes(lm), lm) && IsSymbols(BaconMessage(message))
  {
    assert '\U{0130}' !in multiset(message);
    var lm := LowerString(message);
    forall i | 0 <= i < |lm|
      ensures 'a' <= lm[i] <= 'z'
    {
      LowerCaseOfAsciiLetter(message[i]);
    }
    MessageCodesOfLetters(lm);
  }

  /** `toLowerCase` takes an ASCII letter to a small ASCII letter. */
  lemma {:induction false} LowerCaseOfAsciiLetter(c: char)
    requires IsAsciiLetter(c)
    ensures 'a' <= LowerCase(c) <= 'z'
  {
    if 'A' <= c <= 'Z' {
      assert LowerCase(c) == (c as int + 32) as char;
    } else {
      assert !('A' <= c <= 'Z') && (c as int) < 128;
    }
  }

  /** The reader takes the length from the first five symbols and then reads that many
      letters, whatever follows them. */
  lemma {:induction false} ReadLetters(s: string, codes: string, rest: string)
    requires |s| <= 31 && SpellsLetters(codes, s)
    ensures var all := Symbols(|s|, 5) + codes + rest;
            |all| >= 5 && SymbolValue(all[..5]) == |s| && GroupLetters(all, 5, 5 + 5 * |s|) == s
  {
    var head := Symbols(|s|, 5);
    var all := head + codes + rest;
    assert all[..5] == head;
    assert Pow2(5) == 32;
    SymbolValueOfSymbols(|s|, 5);
    forall i | 0 <= i < |s|
      ensures Group(all, i + 1) == LetterSymbols(s[i])
    {
      assert Group(all, i + 1) == Group(codes, i);
    }
    GroupLettersOfCodes(all, s, 0);
    assert s[0..] == s;
  }

  /** Revealing gives back the lower-cased message, for a message of at most 31 ASCII letters
      hidden in a cover without '<' that has a letter for every symbol. */
  lemma {:induction false} HideThenRevealBacon(cover: string, message: string)
    requires forall i :: 0 <= i < |message| ==> IsAsciiLetter(message[i])
    requires |message| <= 31 && LetterCount(cover) >= 5 + 5 * |message| && '<' !in cover
    ensures BaconHidden(cover, message).Ok?
    ensures BaconRevealed(BaconHidden(cover, message).value) == LowerString(message)
  {
    var lm := LowerString(message);
    var code := BaconMessage(message);
    BaconMessageOfLetters(message);
    LettersAreNotSpace(cover);
    assert BaconHidden(cover, message) == Ok(ItalicText(cover, code, 0));
    RevealOfSpelled(cover, code, lm);
  }

  /** The italic text written for the symbol string of some letters reads back as those
      letters when the cover has a letter for every symbol and no '<'. */
  lemma {:induction false} RevealOfSpelled(cover: string, code: string, lm: string)
    requires |lm| <= 31 && code == Symbols(|lm|, 5) + MessageCodes(lm)
    requires SpellsLetters(MessageCodes(lm), lm) && IsSymbols(code)
    requires LetterCount(cover) >= |code| && '<' !in cover
    ensures BaconRevealed(ItalicText(cover, code, 0)) == lm
  {
    var hidden := ItalicText(cover, code, 0);
    SymbolsOfItalicText(cover, code, 0);
    var rest := TextSymbols(BaconLeftover(cover, code, 0));
    assert code[0..] == code;
    assert TextSymbols(hidden) == Symbols(|lm|, 5) + MessageCodes(lm) + rest;
    ReadLetters(lm, MessageCodes(lm), rest);
  }

  /** The Kelvin sign lower-cases to 'k', so it spells that letter's code, and a
      nine-letter cover is one character short for the ten symbols. */
  lemma KelvinSign()
    ensures LowerString("\U{212A}") == "k" && BaconMessage("\U{212A}") == "AAAABABABA"
    ensures BaconHidden("abcdefghi", "\U{212A}") == Err(TooFewCharacters(10))
  {
    LowerOfKelvin();
    BaconMessageOfKelvin();
    assert NonSpaceCount("abcdefghi") <= 9;
  }

  /** The capital I with a dot above lower-cases to 'i' and a combining dot above, which has
      no code, so it spells the code of 'i', and a nine-letter cover is one character short
      for the ten symbols. */
  lemma DottedCapitalI()
    ensures LowerString("\U{0130}") == "i\U{0307}" && BaconMessage("\U{0130}") == "AAAABABAAA"
    ensures BaconHidden("abcdefghi", "\U{0130}") == Err(TooFewCharacters(10))
  {
    LowerOfDottedI();
    BaconMessageOfDottedI();
    assert NonSpaceCount("abcdefghi") <= 9;
  }

  /** The symbol string of the Kelvin sign. */
  lemma BaconMessageOfKelvin()
    ensures BaconMessage("\U{212A}") == "AAAABABABA"
  {
    LowerOfKelvin();
    SymbolsOfOneEightTen();
    assert "k"[..0] == [];
    assert MessageCodes("k") == LetterSymbols('k');
  }

  /** The symbol string of the dotted capital I. */
  lemma BaconMessageOfDottedI()
    ensures BaconMessage("\U{0130}") == "AAAABABAAA"
  {
    LowerOfDottedI();
    SymbolsOfOneEightTen();
    CodesOfDottedI();
  }

  /** The lower case of the Kelvin sign. */
  lemma LowerOfKelvin()
    ensures LowerString("\U{212A}") == "k"
  {
    assert "\U{212A}"[..0] == [];
  }

  /** The lower case of the dotted capital I. */
  lemma LowerOfDottedI()
    ensures LowerString("\U{0130}") == "i\U{0307}"
  {
    assert "\U{0130}"[..0] == [];
  }

  /** A small 'i' followed by a combining dot above spells the code of 'i' alone. */
  lemma CodesOfDottedI()
    ensures MessageCodes("i\U{0307}") == "ABAAA"
  {
    SymbolsOfOneEightTen();
    assert "i\U{0307}"[..1] == "i" && "i"[..0] == [];
    assert MessageCodes("i") == LetterSymbols('i');
    assert BaconCode('\U{0307}') == "" by {
      assert '\U{0307}' !in OtherCodes;
    }
  }

  /** The five-symbol codes of 1, 8 and 10. */
  lemma SymbolsOfOneEightTen()
    ensures Symbols(1, 5) == "AAAAB" && Symbols(8, 5) == "ABAAA" && Symbols(10, 5) == "ABABA"
  {
    assert Symbols(0, 2) == "AA" && Symbols(0, 4) == "AAAA";
    assert Symbols(1, 2) == "AB" && Symbols(2, 3) == "ABA";
    assert Symbols(5, 4) == "ABAB" && Symbols(4, 4) == "ABAA";
  }

  /** A cover with no letters carries nothing: when it passes the capacity check (its other
      characters count), hiding returns it unchanged and revealing finds no message. */
  lemma {:induction false} NoLettersHideNothing(cover: string, code: string, k: nat)
    requires LetterCount(cover) == 0
    ensures ItalicText(cover, code, k) == cover && TextSymbols(cover) == []
    decreases |cover|
  {
    if cover != [] {
      assert !IsTagAt(cover, 'i');
      NoLettersHideNothing(cover[1..], code, k);
    }
  }

  /** Digits are neither letters nor white space. */
  lemma {:induction false} CountsOfDigits(s: string)
    requires forall i :: 0 <= i < |s| ==> '0' <= s[i] <= '9'
    ensures LetterCount(s) == 0 && NonSpaceCount(s) == |s|
  {
    if s != [] {
      CountsOfDigits(s[1..]);
    }
  }

  /** The capacity check lets a cover of ten digits through for the one-letter message "a":
      hiding succeeds with the cover itself, and revealing gives back "". */
  lemma {:induction false} DigitsPassTheCapacityCheck()
    ensures BaconHidden("0123456789", "a") == Ok("0123456789")
    ensures BaconRevealed("0123456789") == ""
  {
    var cover := "0123456789";
    BaconMessageOfLetters("a");
    var code := BaconMessage("a");
    assert |code| == 10;
    CountsOfDigits(cover);
    NoLettersHideNothing(cover, code, 0);
  }
}
