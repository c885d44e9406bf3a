/** The Czech-conjunctions method: the bits of the message's character codes (ending in '§')
    are carried by the places where the cover has a word, a space and one of the conjunctions
    "a", "ale", "nebo", "či", "aby", "proto", "přece", "protože": a comma is written right
    after the word for a 1 and nothing for a 0. The places are the matches of the hider's
    regular expression, taken here as a list of offsets; the reader's flags (whether its own
    regular expression saw a comma) are taken as a list as well. */
module TextConjunctions {
  import opened Wrappers
  import opened Bits
  import opened JsString
  import opened TextBits
  import Utf8

  function TooFewConjunctions(needed: nat): string
  {
    "Text musí obsahovat alespoň " + NatToString(needed) + " výskytů českých spojek pro ukrytí zprávy."
  }

  /** The match sites of `/\b(\w+)( )(a|ale|nebo|či|aby|proto|přece|protože)\b/g`, each as
      `match.index + match[1].length`, the offset of the space after the word: they hold a
      space, come in order and do not overlap. */
  predicate ValidSites(text: string, sites: seq<nat>)
  {
    forall i :: 0 <= i < |sites| ==>
      sites[i] < |text| && text[sites[i]] == ' ' && (i > 0 ==> sites[i - 1] < sites[i])
  }

  /** The number of 1 bits among the first `n`. */
  function Ones(bits: seq<Bit>, n: nat): (r: nat)
    requires n <= |bits|
    ensures r <= n
  {
    if n == 0 then 0 else Ones(bits, n - 1) + bits[n - 1]
  }

  function Comma(b: Bit): string
  {
    if b == 1 then "," else ""
  }

  /** Where the text after site `n - 1` starts. */
  function Start(sites: seq<nat>, n: nat): nat
    requires n <= |sites|
  {
    if n == 0 then 0 else sites[n - 1]
  }

  /** The output up to the `n`th site: each stretch of the cover between two sites, followed
      by the comma its bit asks for. */
  function Upto(text: string, sites: seq<nat>, bits: seq<Bit>, n: nat): string
    requires ValidSites(text, sites) && n <= |sites| && n <= |bits|
  {
    if n == 0 then []
    else Upto(text, sites, bits, n - 1) + text[Start(sites, n - 1)..sites[n - 1]] + Comma(bits[n - 1])
  }

  /** The cover with the commas of the first `min(|sites|, |bits|)` sites inserted. */
  function WithCommas(text: string, sites: seq<nat>, bits: seq<Bit>): string
    requires ValidSites(text, sites)
  {
    var n := Bits.Min(|sites|, |bits|);
    Upto(text, sites, bits, n) + text[Start(sites, n)..]
  }

  /** `hideWithCzechConjunctions` as a value. */
  function ConjunctionsHidden(text: string, sites: seq<nat>, message: string): Result<string>
    requires ValidSites(text, sites)
  {
    var bits := CodeBits(message + [EndMarker]);
    if |sites| < |bits| then Err(TooFewConjunctions(|bits|))
    else Ok(WithCommas(text, sites, bits))
  }

  lemma {:induction false} UptoLength(text: string, sites: seq<nat>, bits: seq<Bit>, n: nat)
    requires ValidSites(text, sites) && n <= |sites| && n <= |bits|
    ensures |Upto(text, sites, bits, n)| == Start(sites, n) + Ones(bits, n)
  {
    if n > 0 {
      UptoLength(text, sites, bits, n - 1);
    }
  }

  /** The result of the splicing loop after `n` passes: the output up to site `n`, then the
      cover from there on. */
  function Partial(text: string, sites: seq<nat>, bits: seq<Bit>, n: nat): string
    requires ValidSites(text, sites) && n <= |sites| && n <= |bits|
  {
    Upto(text, sites, bits, n) + text[Start(sites, n)..]
  }

  /** A comma inserted after the first `p` characters (after all of them when `p` is past
      the end). */
  function Splice(s: string, p: nat): (r: string)
  {
    if p <= |s| then s[..p] + "," + s[p..] else s + ","
  }

  /** `Splice` is `s.substring(0, p) + ',' + s.substring(p)`. */
  lemma {:induction false} SpliceIsSubstrings(s: string, p: nat)
    ensures Splice(s, p) == Substring(s, 0, p) + "," + Substring(s, p, |s|)
    ensures |Splice(s, p)| == |s| + 1
  {
    if p > |s| {
      assert s[0..|s|] == s;
    }
  }

  /** One pass of the splicing loop: a 1 bit puts the comma for site `i` `Ones(bits, i)`
      characters after the site, that many commas having been written before. */
  lemma {:induction false} SpliceOne(text: string, sites: seq<nat>, bits: seq<Bit>, i: nat)
    requires ValidSites(text, sites) && i < |sites| && i < |bits| && bits[i] == 1
    ensures Splice(Partial(text, sites, bits, i), sites[i] + Ones(bits, i)) == Partial(text, sites, bits, i + 1)
  {
    var u := Upto(text, sites, bits, i);
    var a := text[Start(sites, i)..sites[i]];
    var b := text[sites[i]..];
    UptoLength(text, sites, bits, i);
    PartialAt(text, sites, bits, i);
    PartialNext(text, sites, bits, i);
    SpliceBetween(u, a, b, 1);
  }

  /** A 0 bit leaves the output as it is. */
  lemma {:induction false} SpliceZero(text: string, sites: seq<nat>, bits: seq<Bit>, i: nat)
    requires ValidSites(text, sites) && i < |sites| && i < |bits| && bits[i] == 0
    ensures Partial(text, sites, bits, i) == Partial(text, sites, bits, i + 1)
  {
    var u := Upto(text, sites, bits, i);
    var a := text[Start(sites, i)..sites[i]];
    var b := text[sites[i]..];
    PartialAt(text, sites, bits, i);
    PartialNext(text, sites, bits, i);
    SpliceBetween(u, a, b, 0);
  }

  lemma {:induction false} PartialAt(text: string, sites: seq<nat>, bits: seq<Bit>, i: nat)
    requires ValidSites(text, sites) && i < |sites| && i < |bits|
    ensures Partial(text, sites, bits, i)
            == Upto(text, sites, bits, i) + (text[Start(sites, i)..sites[i]] + text[sites[i]..])
  {
    SliceAround(text, Start(sites, i), sites[i]);
  }

  lemma {:induction false} PartialNext(text: string, sites: seq<nat>, bits: seq<Bit>, i: nat)
    requires ValidSites(text, sites) && i < |sites| && i < |bits|
    ensures Partial(text, sites, bits, i + 1)
            == Upto(text, sites, bits, i) + text[Start(sites, i)..sites[i]] + Comma(bits[i]) + text[sites[i]..]
  {
  }

  /** A comma spliced in between `u + a` and `b`. */
  lemma {:induction false} SpliceBetween(u: string, a: string, b: string, bit: Bit)
    ensures bit == 1 ==> Splice(u + (a + b), |u| + |a|) == u + a + Comma(bit) + b
    ensures bit == 0 ==> u + (a + b) == u + a + Comma(bit) + b
  {
    var r := u + (a + b);
    assert r[..|u| + |a|] == u + a;
    assert r[|u| + |a|..] == b;
  }

  /** `hideWithCzechConjunctions`, given the sites its regular expression finds. */
  method HideWithCzechConjunctions(text: string, sites: seq<nat>, message: string)
    returns (r: Result<string>)
    requires ValidSites(text, sites)
    ensures r == ConjunctionsHidden(text, sites, message)
  {
    var bits := CodeBits(message + [EndMarker]);
    if |sites| < |bits| {
      return Err(TooFewConjunctions(|bits|));
    }
    var result := InsertCommas(text, sites, bits);
    r := Ok(result);
  }

  /** The loop of `hideWithCzechConjunctions` that splices a comma into the growing result,
      `offset` counting the commas so far. */
  method InsertCommas(text: string, sites: seq<nat>, bits: seq<Bit>) returns (result: string)
    requires ValidSites(text, sites)
    ensures result == WithCommas(text, sites, bits)
  {
    result := text;
    assert text[Start(sites, 0)..] == text;
    assert Spliced(text, sites, bits, 0, result, 0);
    var offset := 0;
    var i := 0;
    while i < |bits| && i < |sites|
      invariant Spliced(text, sites, bits, i, result, offset)
      decreases |bits| - i
    {
      var insertPosition := sites[i] + offset;
      ghost var before, count := result, offset;
      if bits[i] == 1 {
        result := Splice(result, insertPosition);
        offset := offset + 1;
      }
      SplicedStep(text, sites, bits, i, before, count, result, offset);
      i := i + 1;
    }
    SplicedAll(text, sites, bits, i, result, offset);
  }

  /** The state of the splicing loop after `i` passes. */
  predicate Spliced(text: string, sites: seq<nat>, bits: seq<Bit>, i: nat, result: string, offset: nat)
    requires ValidSites(text, sites)
  {
    i <= |bits| && i <= |sites| && offset == Ones(bits, i) && result == Partial(text, sites, bits, i)
  }

  /** A pass of the splicing loop keeps its state. */
  lemma {:induction false} SplicedStep(text: string, sites: seq<nat>, bits: seq<Bit>, i: nat,
                                       before: string, count: nat, result: string, offset: nat)
    requires ValidSites(text, sites) && i < |sites| && i < |bits|
    requires Spliced(text, sites, bits, i, before, count)
    requires result == (if bits[i] == 1 then Splice(before, sites[i] + count) else before)
    requires offset == count + bits[i]
    ensures Spliced(text, sites, bits, i + 1, result, offset)
  {
    OnesNext(bits, i);
    if bits[i] == 1 {
      SpliceOne(text, sites, bits, i);
    } else {
      SpliceZero(text, sites, bits, i);
    }
  }

  lemma {:induction false} OnesNext(bits: seq<Bit>, i: nat)
    requires i < |bits|
    ensures Ones(bits, i + 1) == Ones(bits, i) + bits[i]
  {
  }

  lemma {:induction false} SplicedAll(text: string, sites: seq<nat>, bits: seq<Bit>, i: nat, result: string, offset: nat)
    requires ValidSites(text, sites) && Spliced(text, sites, bits, i, result, offset)
    requires i == |bits| || i == |sites|
    ensures result == WithCommas(text, sites, bits)
  {
  }

  // ---------------------------------------------------------------- reading

  function FlagBits(flags: seq<bool>): (r: seq<Bit>)
    ensures |r| == |flags| && forall i :: 0 <= i < |flags| ==> (r[i] == 1 <==> flags[i])
  {
    seq(|flags|, i requires 0 <= i < |flags| => if flags[i] then 1 else 0)
  }

  /** `revealFromCzechConjunctions` as a value, given for every match of the reader's regular
      expression whether it holds a comma: the flags as bits, grouped into bytes, decoded as
      UTF-8 and cut at '§'. */
  function ConjunctionsRevealed(flags: seq<bool>): string
  {
    CutAtMarker(Utf8.TextDecode(WholeBytes(FlagBits(flags))))
  }

  /** `revealFromCzechConjunctions`: the loop over the matches, then the byte loop. */
  method RevealFromCzechConjunctions(flags: seq<bool>) returns (r: string)
    ensures r == ConjunctionsRevealed(flags)
  {
    var binary: seq<Bit> := [];
    var i := 0;
    while i < |flags|
      invariant i <= |flags| && binary == FlagBits(flags)[..i]
    {
      binary := binary + [if flags[i] then 1 else 0];
      i := i + 1;
    }
    assert FlagBits(flags)[..i] == FlagBits(flags);
    var bytes := GroupBytes(binary);
    r := CutAtMarker(Utf8.TextDecode(bytes));
  }

  // ---------------------------------------------------------------- properties

  /** An earlier part of the output is a prefix of a later one. */
  lemma {:induction false} UptoPrefix(text: string, sites: seq<nat>, bits: seq<Bit>, m: nat, n: nat)
    requires ValidSites(text, sites) && m <= n <= |sites| && n <= |bits|
    ensures Upto(text, sites, bits, m) <= Upto(text, sites, bits, n)
    decreases n - m
  {
    if m < n {
      UptoPrefix(text, sites, bits, m, n - 1);
    }
  }

  /** How site `i` shows in the output `out`: the stretch of the cover before it reappears
      shifted by the commas written before it, and right after that stands a comma for a 1
      and the site's own space for a 0. */
  predicate SiteShown(text: string, sites: seq<nat>, bits: seq<Bit>, out: string, i: nat)
    requires ValidSites(text, sites) && i < |bits| <= |sites|
  {
    var shift := Ones(bits, i);
    var p := sites[i] + shift;
    p < |out|
    && out[Start(sites, i) + shift..p] == text[Start(sites, i)..sites[i]]
    && out[p] == (if bits[i] == 1 then ',' else ' ')
  }

  /** Hiding fails exactly when there are fewer sites than bits. Otherwise the output is the
      cover lengthened by one character per 1 bit, every site shows its bit, and the cover
      after the last site used follows unchanged. */
  lemma {:induction false} ConjunctionsHiddenShape(text: string, sites: seq<nat>, message: string)
    requires ValidSites(text, sites)
    ensures var bits := CodeBits(message + [EndMarker]);
            (ConjunctionsHidden(text, sites, message).Err? <==> |sites| < |bits|)
            && (ConjunctionsHidden(text, sites, message).Ok? ==>
                  var out := ConjunctionsHidden(text, sites, message).value;
                  |out| == |text| + Ones(bits, |bits|)
                  && (forall i :: 0 <= i < |bits| ==> SiteShown(text, sites, bits, out, i))
                  && out[Start(sites, |bits|) + Ones(bits, |bits|)..] == text[Start(sites, |bits|)..])
  {
    var bits := CodeBits(message + [EndMarker]);
    if |bits| <= |sites| {
      var n := |bits|;
      var out := WithCommas(text, sites, bits);
      assert ConjunctionsHidden(text, sites, message) == Ok(out);
      UptoLength(text, sites, bits, n);
      assert bits[..n] == bits;
      forall i | 0 <= i < n
        ensures SiteShown(text, sites, bits, out, i)
      {
        SiteInOutput(text, sites, bits, i);
      }
    }
  }

  /** Site `i` in the output of all the sites' bits. */
  lemma {:induction false} SiteInOutput(text: string, sites: seq<nat>, bits: seq<Bit>, i: nat)
    requires ValidSites(text, sites) && i < |bits| <= |sites|
    ensures SiteShown(text, sites, bits, WithCommas(text, sites, bits), i)
  {
    var out := WithCommas(text, sites, bits);
    var v := Upto(text, sites, bits, i + 1);
    OutputThroughSite(text, sites, bits, i);
    var shift := Ones(bits, i);
    var p := sites[i] + shift;
    PrefixSlice(v, out, Start(sites, i) + shift, p);
    if bits[i] == 0 {
      AfterUpto(text, sites, bits, i + 1);
    }
  }

  /** A slice of a prefix, and a character of it, are those of the whole. */
  lemma {:induction false} PrefixSlice(v: string, out: string, lo: nat, hi: nat)
    requires v <= out && lo <= hi <= |v|
    ensures out[lo..hi] == v[lo..hi]
    ensures hi < |v| ==> out[hi] == v[hi]
  {
  }

  /** The output of the sites up to `i` followed by site `i`'s own comma is a prefix of the
      whole output, and has the length the shift by the earlier commas gives. */
  lemma {:induction false} OutputThroughSite(text: string, sites: seq<nat>, bits: seq<Bit>, i: nat)
    requires ValidSites(text, sites) && i < |bits| <= |sites|
    ensures var out := WithCommas(text, sites, bits);
            var v := Upto(text, sites, bits, i + 1);
            var shift := Ones(bits, i);
            var p := sites[i] + shift;
            v <= out && |v| == p + bits[i]
            && v[Start(sites, i) + shift..p] == text[Start(sites, i)..sites[i]]
            && (bits[i] == 1 ==> v[p] == ',')
  {
    var u := Upto(text, sites, bits, i);
    var seg := text[Start(sites, i)..sites[i]];
    UptoLength(text, sites, bits, i);
    PrefixOfOutput(text, sites, bits, i + 1);
    UptoNext(text, sites, bits, i);
    PieceOf(u, seg, Comma(bits[i]), Start(sites, i) + Ones(bits, i), sites[i] + Ones(bits, i));
  }

  /** The output of the first `m` sites begins the whole output. */
  lemma {:induction false} PrefixOfOutput(text: string, sites: seq<nat>, bits: seq<Bit>, m: nat)
    requires ValidSites(text, sites) && m <= |bits| <= |sites|
    ensures Upto(text, sites, bits, m) <= WithCommas(text, sites, bits)
  {
    UptoPrefix(text, sites, bits, m, |bits|);
  }

  /** The output of the first `i + 1` sites. */
  lemma {:induction false} UptoNext(text: string, sites: seq<nat>, bits: seq<Bit>, i: nat)
    requires ValidSites(text, sites) && i < |sites| && i < |bits|
    ensures Upto(text, sites, bits, i + 1)
            == Upto(text, sites, bits, i) + text[Start(sites, i)..sites[i]] + Comma(bits[i])
  {
  }

  /** The middle part of a concatenation of three. */
  lemma {:induction false} PieceOf(u: string, a: string, c: string, lo: nat, hi: nat)
    requires lo == |u| && hi == |u| + |a|
    ensures (u + a + c)[lo..hi] == a
    ensures |c| > 0 ==> hi < |u + a + c| && (u + a + c)[hi] == c[0]
  {
  }

  /** Right after the output of the first `m` sites (`m >= 1`) comes the space of site
      `m - 1`. */
  lemma {:induction false} AfterUpto(text: string, sites: seq<nat>, bits: seq<Bit>, m: nat)
    requires ValidSites(text, sites) && 0 < m <= |bits| <= |sites|
    ensures var v := Upto(text, sites, bits, m);
            |v| < |WithCommas(text, sites, bits)| && WithCommas(text, sites, bits)[|v|] == ' '
  {
    var n := |bits|;
    var v := Upto(text, sites, bits, m);
    if m < n {
      PieceAfter(text, sites, bits, m, n);
    } else {
      assert text[sites[m - 1]] == ' ';
    }
  }

  /** Right after the output of the first `m` sites comes the cover from site `m - 1` on,
      which begins with that site's space. */
  lemma {:induction false} PieceAfter(text: string, sites: seq<nat>, bits: seq<Bit>, m: nat, n: nat)
    requires ValidSites(text, sites) && 0 < m < n <= |sites| && n <= |bits|
    ensures var v := Upto(text, sites, bits, m);
            |v| < |Upto(text, sites, bits, n)| && Upto(text, sites, bits, n)[|v|] == ' '
  {
    var v := Upto(text, sites, bits, m);
    var next := Upto(text, sites, bits, m + 1);
    UptoPrefix(text, sites, bits, m + 1, n);
    assert next == v + text[sites[m - 1]..sites[m]] + Comma(bits[m]);
    assert sites[m - 1] < sites[m];
    assert next[|v|] == text[sites[m - 1]];
  }

  /** Every character of an ASCII text has a code below 128. */
  predicate IsAscii(s: string)
  {
    forall i :: 0 <= i < |s| ==> (s[i] as int) < 128
  }

  lemma {:induction false} EncodeOfAscii(s: string)
    requires IsAscii(s)
    ensures IsLatin1(s) && Utf8.Encode(s) == Codes(s)
  {
    if s != [] {
      assert IsAscii(s[1..]) by {
        assert forall i :: 0 <= i < |s[1..]| ==> s[1..][i] == s[i + 1];
      }
      EncodeOfAscii(s[1..]);
      assert Codes(s) == [s[0] as int] + Codes(s[1..]);
    }
  }

  lemma {:induction false} CutAtMarkerNone(s: string)
    requires EndMarker !in s
    ensures CutAtMarker(s) == s
  {
    assert IndexOf(s, EndMarker, 0) == -1;
  }

  /** The hider writes the marker as its character code 0xA7 and the reader decodes UTF-8:
      when the reader's flags are exactly the bits of an ASCII message and its marker, the
      marker comes back as U+FFFD REPLACEMENT CHARACTER and nothing is cut off. */
  lemma {:induction false} AsciiRevealsWithReplacement(message: string, flags: seq<bool>)
    requires IsAscii(message)
    requires FlagBits(flags) == CodeBits(message + [EndMarker])
    ensures ConjunctionsRevealed(flags) == message + [Utf8.Replacement]
  {
    AsciiMarkedBytes(message);
    assert Utf8.DecodeReplacing([0xA7]) == [Utf8.Replacement] by {
      assert [0xA7][1..] == [];
    }
    Utf8.TextDecodeOfEncode(message, [0xA7]);
    var t := message + [Utf8.Replacement];
    assert EndMarker !in t by {
      forall i | 0 <= i < |t|
        ensures t[i] != EndMarker
      {
        if i < |message| {
          assert (message[i] as int) < 128;
        }
      }
    }
    CutAtMarkerNone(t);
  }

  /** The bytes the hider writes for an ASCII message and its marker: the message's UTF-8
      bytes, then the marker's character code on its own. */
  lemma {:induction false} AsciiMarkedBytes(message: string)
    requires IsAscii(message)
    ensures WholeBytes(CodeBits(message + [EndMarker])) == Utf8.Encode(message) + [0xA7]
  {
    var s := message + [EndMarker];
    EncodeOfAscii(message);
    assert IsLatin1(s);
    CodeBitsLatin1(s);
    assert Codes(s) == Codes(message) + [0xA7] by {
      forall i | 0 <= i < |s|
        ensures Codes(s)[i] == (Codes(message) + [0xA7])[i]
      {
        if i < |message| {
          assert s[i] == message[i];
        }
      }
    }
    WholeBytesRoundTrip(Codes(s));
  }
}
