/** `hideInText` and `revealFromText`: the text methods chosen by name, every error of the
    chosen method (and an unknown name) reported with a prefix saying which way failed. The
    regular-expression matches of the Czech-conjunctions method, which the model does not
    compute, are passed in: the hider's match sites and the reader's comma flags. */
module TextStego {
  import opened Wrappers
  import opened TextBits
  import Bits
  import Utf8
  import TextDelimiters
  import TextInvisible
  import TextBacon
  import TextMultiTag
  import TextSimilar
  import TextConjunctions
  import TextSpacing

  const HideFailed: string := "Nepodařilo se ukrýt zprávu: "
  const RevealFailed: string := "Nepodařilo se odkrýt zprávu: "

  function UnknownMethod(name: string): string
  {
    "Neznámá steganografická metoda: " + name
  }

  /** The eight text methods. */
  datatype TextMethod =
    | Delimiters | Whitespace | Bacon | MultiTagBacon | SimilarLetters
    | CzechConjunctions | WordSpacing | Base64Delimiters

  /** The name a `switch` statement accepts for a method. */
  function Name(m: TextMethod): string
  {
    match m
    case Delimiters => "delimiters"
    case Whitespace => "whitespace"
    case Bacon => "bacon"
    case MultiTagBacon => "multi-tag-bacon"
    case SimilarLetters => "similar-letters"
    case CzechConjunctions => "czech-conjunctions"
    case WordSpacing => "word-spacing"
    case Base64Delimiters => "base64-delimiters"
  }

  /** The `case` a name selects, `None` for the `default` branch. */
  function MethodNamed(name: string): Option<TextMethod>
  {
    if name == "delimiters" then Some(Delimiters)
    else if name == "whitespace" then Some(Whitespace)
    else if name == "bacon" then Some(Bacon)
    else if name == "multi-tag-bacon" then Some(MultiTagBacon)
    else if name == "similar-letters" then Some(SimilarLetters)
    else if name == "czech-conjunctions" then Some(CzechConjunctions)
    else if name == "word-spacing" then Some(WordSpacing)
    else if name == "base64-delimiters" then Some(Base64Delimiters)
    else None
  }

  /** The hiding method, before its error is prefixed. */
  function HideBy(m: TextMethod, cover: string, message: string, start: string, end: string,
                  sites: seq<nat>): Result<string>
    requires TextConjunctions.ValidSites(cover, sites)
  {
    match m
    case Delimiters => TextDelimiters.HideWithDelimiters(cover, message, start, end)
    case Whitespace => TextInvisible.InvisibleHidden(cover, message)
    case Bacon => TextBacon.BaconHidden(cover, message)
    case MultiTagBacon => TextMultiTag.MultiTagHidden(cover, message)
    case SimilarLetters => TextSimilar.SimilarHidden(cover, message)
    case CzechConjunctions => TextConjunctions.ConjunctionsHidden(cover, sites, message)
    case WordSpacing => TextSpacing.WordSpacingHidden(cover, message)
    case Base64Delimiters => TextDelimiters.HiddenBase64(cover, message, start, end)
  }

  /** `hideInText`: the chosen method's text, or its error (or the unknown name) behind the
      hiding prefix. */
  function HideInText(cover: string, message: string, name: string, start: string, end: string,
                      sites: seq<nat>): Result<string>
    requires TextConjunctions.ValidSites(cover, sites)
  {
    match MethodNamed(name)
    case None => Err(HideFailed + UnknownMethod(name))
    case Some(m) =>
      match HideBy(m, cover, message, start, end, sites)
      case Ok(t) => Ok(t)
      case Err(e) => Err(HideFailed + e)
  }

  /** The revealing method, before its error is prefixed; `Ok(None)` stands for a method
      returning `null`. */
  function RevealBy(m: TextMethod, text: string, start: string, end: string, flags: seq<bool>)
    : Result<Option<string>>
  {
    match m
    case Delimiters => Ok(TextDelimiters.RevealWithDelimiters(text, start, end))
    case Whitespace => Ok(Some(TextInvisible.InvisibleRevealed(text)))
    case Bacon => Ok(Some(TextBacon.BaconRevealed(text)))
    case MultiTagBacon => Ok(Some(TextMultiTag.MultiTagRevealed(text)))
    case SimilarLetters => Ok(TextSimilar.SimilarRevealed(text))
    case CzechConjunctions => Ok(Some(TextConjunctions.ConjunctionsRevealed(flags)))
    case WordSpacing => Ok(TextSpacing.WordSpacingRevealed(text))
    case Base64Delimiters => TextDelimiters.RevealedBase64(text, start, end)
  }

  /** `revealFromText`. */
  function RevealFromText(text: string, name: string, start: string, end: string, flags: seq<bool>)
    : Result<Option<string>>
  {
    match MethodNamed(name)
    case None => Err(RevealFailed + UnknownMethod(name))
    case Some(m) =>
      match RevealBy(m, text, start, end, flags)
      case Ok(t) => Ok(t)
      case Err(e) => Err(RevealFailed + e)
  }

  // ---------------------------------------------------------------- properties

  /** Each method is selected by its own name and by no other. */
  lemma {:induction false} MethodNamedIsName(name: string, m: TextMethod)
    ensures MethodNamed(name) == Some(m) <==> name == Name(m)
  {
  }

  /** An error, whichever way and whatever its cause, carries the prefix of its way; a text
      hidden by a known method passes through unchanged, and revealing fails only for an
      unknown name and for the Base64 markers. */
  lemma {:induction false} DispatchOutcome(cover: string, message: string, name: string, start: string,
                        end: string, sites: seq<nat>, flags: seq<bool>)
    requires TextConjunctions.ValidSites(cover, sites)
    ensures var h := HideInText(cover, message, name, start, end, sites);
            (h.Err? ==> HideFailed <= h.message)
            && (MethodNamed(name).Some? && h.Ok? ==>
                  h == HideBy(MethodNamed(name).value, cover, message, start, end, sites))
    ensures var r := RevealFromText(cover, name, start, end, flags);
            (r.Err? ==> RevealFailed <= r.message)
            && (r.Err? ==> MethodNamed(name) == None || MethodNamed(name) == Some(Base64Delimiters))
  {
  }

  /** An unknown name is refused both ways, with the name in the message. */
  lemma {:induction false} UnknownMethodRefused(cover: string, message: string, name: string, start: string,
                             end: string, sites: seq<nat>, flags: seq<bool>)
    requires TextConjunctions.ValidSites(cover, sites)
    requires forall m: TextMethod :: name != Name(m)
    ensures HideInText(cover, message, name, start, end, sites)
            == Err(HideFailed + UnknownMethod(name))
    ensures RevealFromText(cover, name, start, end, flags) == Err(RevealFailed + UnknownMethod(name))
  {
    if MethodNamed(name).Some? {
      MethodNamedIsName(name, MethodNamed(name).value);
    }
  }

  /** Through the dispatchers, the methods that promise it give the message back: the plain
      and the Base64 markers (the default ones) always, the invisible characters for a
      message free of '§' that does not start with a byte-order mark, and the multi-tag
      Bacon cipher for a Latin-1 message free of '§' in a cover without '<'. */
  lemma {:induction false} HideThenRevealInText(cover: string, message: string, m: TextMethod)
    requires m == Delimiters || m == Base64Delimiters
             || (m == Whitespace && EndMarker !in message
                 && (|message| == 0 || message[0] != Utf8.ByteOrderMark))
             || (m == MultiTagBacon && Bits.IsLatin1(message) && EndMarker !in message
                 && '<' !in cover)
    requires HideInText(cover, message, Name(m), "", "", []).Ok?
    ensures RevealFromText(HideInText(cover, message, Name(m), "", "", []).value, Name(m), "", "", [])
            == Ok(Some(message))
  {
    MethodNamedIsName(Name(m), m);
    if m == Delimiters {
      TextDelimiters.HideThenRevealDelimiters(cover, message);
    } else if m == Base64Delimiters {
      TextDelimiters.HideThenRevealBase64(cover, message);
    } else if m == Whitespace {
      TextInvisible.HideThenRevealInvisible(cover, message);
    } else {
      TextMultiTag.HideThenRevealMultiTag(cover, message);
    }
  }
}
