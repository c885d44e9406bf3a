# Steganography codecs of the web application, in Dafny

This project models the three steganography codecs of the application: text, image and audio.
Each codec hides a message in a cover and reads it back. Its parts are:

- how the message becomes bits;
- where the bits go in the cover;
- the framing that tells the reader where the message ends;
- the capacity check that refuses a cover that is too small.

The model follows `src/stegonography/text.js`, `src/stegonography/image.js` and
`src/stegonography/audio.js` branch by branch, including their error messages and constants.
Loops in the JavaScript become `method`s with loop invariants. Each is proved equal to a
specification function. The properties of the codecs (capacity, the shape of the hidden
cover, what changes and what does not, and round trips) are lemmas about those functions.

## Text (`text.js`)

Eight methods and the two dispatchers, `hideInText` and `revealFromText`:

- **delimiters**: the message between a start and an end marker.
- **whitespace**: two bits per line, as an invisible character at the end of the line.
- **bacon**: the Bacon cipher, one A/B symbol per letter, B shown in `<i>`, behind a five-symbol length.
- **multi-tag-bacon**: two bits per letter, as plain, `<i>`, `<b>` or `<u>`.
- **similar-letters**: one bit per letter that has a look-alike, with a `[VZOR:…]` trailer.
- **czech-conjunctions**: a comma before a conjunction for a 1.
- **word-spacing**: a hair space after a gap between words for a 1.
- **base64-delimiters**: a scrambled Base64 body inside an HTML comment.

Strings are Dafny `string`s, sequences of Unicode scalar values. UTF-8 (`TextEncoder`/`TextDecoder`),
Base64 (`btoa`/`atob`) and `encodeURIComponent`/`decodeURIComponent` are modelled concretely in
the `Utf8`, `Base64` and `Uri` modules. The round trips of the text methods rest on their
inverse lemmas.

## Image (`image.js`)

The RGBA bytes of a canvas are an `array` of bytes whose length is four times the pixel count.

- The bits of a text or image payload go `bpc` at a time into the low bits of R, G and B.
- Alpha bytes and every channel after the last bit are proved unchanged.
- The readers decode the same bit stream: the `TEXT:<n>:` search in the first 200 characters, and the two passes of the image reader.
- The difference map and the enhanced view are modelled as well.

## Audio (`audio.js`)

Channel 0 is a sequence of 16-bit quantised samples.

- The framed Base64 message is written one bit per sample from sample 200, followed by 16 zero bits.
- The reader looks for the first all-zero 16-bit window, decodes what came before it, and checks the `STEGANOAUDIO1` header.

## Model

| member | source | states |
|---|---|---|
| TextBits.Utf8Bits | src/stegonography/text.js:111-114 | the UTF-8 bit string of a text has eight bits per encoded byte |
| TextBits.CutAtMarker | src/stegonography/text.js:182-184 | the cut text is a prefix of the decoded text free of '§', and when shorter it stops exactly at a '§' |
| TextBits.CutAtMarkerOf | src/stegonography/text.js:182-184 | a message free of '§', followed by '§' and anything, is cut back to the message |
| TextBits.GroupBytes | src/stegonography/text.js:172-178 | the byte loop keeps only whole groups of eight bits, each read as a binary number, and drops a short tail |
| TextBits.MarkedMessageRoundTrip | src/stegonography/text.js:108-114 | the UTF-8 bits of a message and its '§', followed by any bits, group, decode and cut back to the message, provided it is free of '§' and does not start with a byte-order mark |
| TextDelimiters.HideWithDelimitersOutcome | src/stegonography/text.js:7-20 | hiding fails exactly when a marker (the default one for an empty argument) occurs in the cover or in the message; otherwise the output starts with the cover and holds the message between the two markers |
| TextDelimiters.RevealWithoutStart | src/stegonography/text.js:22-33 | a text without the start marker reveals `null` |
| TextDelimiters.RevealWithoutPair | src/stegonography/text.js:22-33 | for any markers (the defaults standing in for empty arguments), `null` when the start marker is missing, when the end marker is missing, or when an end marker comes before every start marker |
| TextDelimiters.FirstDefaultStart | src/stegonography/text.js:26 | in the hidden text the first start marker is the one written after a cover that has none |
| TextDelimiters.FirstDefaultEnd | src/stegonography/text.js:27 | in the hidden text the first end marker is the one written after the message |
| TextDelimiters.EndNotBefore | src/stegonography/text.js:27-29 | no end marker starts before the written one, so `endIndex > startIndex` holds |
| TextDelimiters.HideThenRevealDelimiters | src/stegonography/text.js:7-33 | with the default markers, revealing a hidden text gives the message back |
| TextDelimiters.OverlappingMarkersMisread | src/stegonography/text.js:7-33 | with custom markers that overlap ("aba" and "ba") hiding succeeds and revealing reads something other than the message |
| TextDelimiters.PairPartner | src/stegonography/text.js:87-93 | the position a character moves to stays inside the string |
| TextDelimiters.PairSwapped | src/stegonography/text.js:85-95 | swapping neighbouring characters keeps the length |
| TextDelimiters.Obfuscate | src/stegonography/text.js:85-95 | the loop swaps each pair of characters and keeps an odd last one |
| TextDelimiters.PairSwappedInvolution | src/stegonography/text.js:97-99 | swapping twice gives the string back, which is why de-obfuscation reuses obfuscation |
| TextDelimiters.PairSwappedChars | src/stegonography/text.js:85-95 | every character of the output comes from the input |
| TextDelimiters.HideWithBase64Delimiters | src/stegonography/text.js:43-59 | an error when the cover contains a comment marker, else the cover, the marker, the obfuscated `btoa(encodeURIComponent(message))` and the closing marker |
| TextDelimiters.RevealWithBase64Delimiters | src/stegonography/text.js:61-83 | `null` without a well-placed marker pair; otherwise the de-obfuscated body decoded by `atob` and `decodeURIComponent`, or the decoding error |
| TextDelimiters.BodyOfMessage | src/stegonography/text.js:52-55 | `encodeURIComponent` output is Latin-1, so `btoa` accepts it, and the obfuscated body holds only Base64 characters |
| TextDelimiters.HiddenBase64Outcome | src/stegonography/text.js:44-49 | hiding with the default markers fails exactly when the cover contains `<!-- ` or ` -->` |
| TextDelimiters.FirstCommentStart | src/stegonography/text.js:65 | the first `<!-- ` is the written one |
| TextDelimiters.FirstCommentEnd | src/stegonography/text.js:66 | the first ` -->` is the one after the body, since Base64 characters cannot form it |
| TextDelimiters.CommentFramed | src/stegonography/text.js:61-83 | a cover framed around a Base64 body reveals the decoding of the de-obfuscated body |
| TextDelimiters.HideThenRevealBase64 | src/stegonography/text.js:43-83 | with the default markers, revealing a hidden text gives the message back |
| TextInvisible.PairChar | src/stegonography/text.js:134-144 | the character for a pair of bits is never a line break |
| TextInvisible.PairBitsOfPairChar | src/stegonography/text.js:134-168 | the reader maps each of the four characters back to its pair of bits |
| TextInvisible.MarkedLines | src/stegonography/text.js:128-145 | marking keeps the number of lines |
| TextInvisible.HideWithInvisibleChars | src/stegonography/text.js:105-148 | an error naming the lines needed when the cover has fewer than half as many lines as message bits; otherwise the lines, each of the first ones trimmed at the end and given the character of its pair of bits, joined again |
| TextInvisible.RevealWithInvisibleChars | src/stegonography/text.js:150-185 | the bits of the last characters of the lines, grouped into whole bytes, decoded as UTF-8 and cut at '§' |
| TextInvisible.LineBitsAppend | src/stegonography/text.js:155-169 | the reader's bits of two runs of lines are the bits of the first run followed by those of the second |
| TextInvisible.LineBitsOfMarked | src/stegonography/text.js:128-169 | the first `h` marked lines read back as the first `2h` bits |
| TextInvisible.LineBitsOfAllMarked | src/stegonography/text.js:128-169 | the marked lines read back as all the bits, then whatever the unmarked rest of the cover spells |
| TextInvisible.SplitOfMarked | src/stegonography/text.js:117-151 | splitting the joined output at line breaks gives the marked lines back, since no added character is a line break |
| TextInvisible.InvisibleHiddenKeepsLines | src/stegonography/text.js:117-147 | the output has as many lines as the cover; the lines past the bits are unchanged and each marked line extends its trimmed original |
| TextInvisible.HideThenRevealInvisible | src/stegonography/text.js:105-185 | revealing a hidden text gives the message back, for a message free of '§' that does not start with a byte-order mark |
| TextMultiTag.LetterCount | src/stegonography/text.js:209 | the number of ASCII letters is at most the length of the text |
| TextMultiTag.HideWithMultiTagBacon | src/stegonography/text.js:198-250 | an error naming the letters needed when the cover has fewer letters than half the message bits (rounded up); otherwise each letter carries the next two bits, plain or wrapped in `<i>`, `<b>` or `<u>`, and the cover is copied once the bits run out |
| TextMultiTag.MatchAt | src/stegonography/text.js:257-273 | each match of the reader's regular expression consumes at least one and at most all of the remaining characters |
| TextMultiTag.ScanTags | src/stegonography/text.js:254-274 | the `regex.exec` loop collects the bits of all matches in order |
| TextMultiTag.ReadCodes | src/stegonography/text.js:277-287 | the byte loop turns whole bytes into character codes and stops before the first '§' |
| TextMultiTag.RevealWithMultiTagBacon | src/stegonography/text.js:252-288 | the reader is the bits of the tags, grouped into bytes, read as character codes and cut at '§' |
| TextMultiTag.TagBitsOfTagged | src/stegonography/text.js:232-273 | a letter written by the hider reads back as its two bits |
| TextMultiTag.TagBitsOfOther | src/stegonography/text.js:244-246 | a copied character other than a letter or '<' is skipped by the reader |
| TextMultiTag.TagBitsOfTaggedText | src/stegonography/text.js:218-274 | the hidden text reads back as the remaining bits, then whatever the copied rest spells |
| TextMultiTag.HideThenRevealMultiTag | src/stegonography/text.js:198-288 | revealing a hidden text gives the message back, for a Latin-1 message free of '§' and a cover without '<' |
| TextBacon.Symbols | src/stegonography/text.js:347 | `toString(2).padStart(w, '0')` with 0 as A and 1 as B has `w` symbols, each A or B |
| TextBacon.SymbolValue | src/stegonography/text.js:469 | the value of a string of A and B is below 2 to the power of its length |
| TextBacon.LowerForm | src/stegonography/text.js:353-354 | the dotted capital I lower-cases to two characters and every other character to one |
| TextBacon.LowerString | src/stegonography/text.js:353-354 | `toLowerCase().split('')` adds one character per dotted capital I, and a text without one is lower-cased character by character |
| TextBacon.NonSpaceCount | src/stegonography/text.js:359 | the count of characters that are not white space is at most the length |
| TextBacon.HideWithBaconCipher | src/stegonography/text.js:294-390 | an error naming the characters needed when the cover has fewer non-space characters than symbols; otherwise each letter carries the next symbol, plain for A and in `<i>` for B, and the cover is copied once the symbols run out |
| TextBacon.SymbolAt | src/stegonography/text.js:451-461 | each match of the reader's regular expression consumes at least one and at most all of the remaining characters |
| TextBacon.ScanSymbols | src/stegonography/text.js:450-462 | the `regex.exec` loop collects the symbols of all matches in order |
| TextBacon.RevealWithBaconCipher | src/stegonography/text.js:392-484 | nothing for fewer than five symbols; otherwise the groups of five after the length code, as many as it says and as fit, each known group read as its character |
| TextBacon.LetterCodesAsListedAToC | src/stegonography/text.js:296-298 | the codes of a, b and c are those of the table |
| TextBacon.LetterCodesAsListedDToF | src/stegonography/text.js:299-301 | the codes of d, e and f are those of the table |
| TextBacon.LetterCodesAsListedGToI | src/stegonography/text.js:302-304 | the codes of g, h and i are those of the table |
| TextBacon.LetterCodesAsListedJToL | src/stegonography/text.js:305-307 | the codes of j, k and l are those of the table |
| TextBacon.LetterCodesAsListedMToO | src/stegonography/text.js:308-310 | the codes of m, n and o are those of the table |
| TextBacon.LetterCodesAsListedPToR | src/stegonography/text.js:311-313 | the codes of p, q and r are those of the table |
| TextBacon.LetterCodesAsListedSToU | src/stegonography/text.js:314-316 | the codes of s, t and u are those of the table |
| TextBacon.LetterCodesAsListedVToX | src/stegonography/text.js:317-319 | the codes of v, w and x are those of the table |
| TextBacon.LetterCodesAsListedYToZ | src/stegonography/text.js:320-321 | the codes of y and z are those of the table |
| TextBacon.OtherCodesLonger | src/stegonography/text.js:323-344 | every character other than a small letter has a code that is not five symbols long (or none) |
| TextBacon.SymbolValueOfSymbols | src/stegonography/text.js:347-469 | reading the symbols of a number below 2 to the `w` gives the number back |
| TextBacon.SymbolsOfSymbolValue | src/stegonography/text.js:347-469 | writing the value of a string of A and B in as many symbols gives the string back |
| TextBacon.GroupLetterIsReverse | src/stegonography/text.js:393-446 | the reader's reverse table maps a group of five symbols to a character exactly when the hider's table gives that group for it |
| TextBacon.SymbolsOfLetter | src/stegonography/text.js:377-461 | a letter written by the hider reads back as its symbol |
| TextBacon.SymbolsOfOther | src/stegonography/text.js:383-386 | a copied character other than a letter or '<' is skipped by the reader |
| TextBacon.SymbolsOfItalicText | src/stegonography/text.js:364-462 | the hidden text reads back as the remaining symbols, then whatever the copied rest spells |
| TextBacon.MessageCodesOfLetters | src/stegonography/text.js:352-356 | the codes of a message of small letters are five symbols per letter, each group the letter's code |
| TextBacon.GroupLetterOfSymbols | src/stegonography/text.js:476-480 | each letter's group reads back as that letter |
| TextBacon.GroupLettersOfCodes | src/stegonography/text.js:472-481 | the group loop reads the letters back in order |
| TextBacon.LettersAreNotSpace | src/stegonography/text.js:359-375 | there are at least as many non-space characters as letters |
| TextBacon.KelvinSign | src/stegonography/text.js:346-361 | the Kelvin sign lower-cases to 'k' and spells its code, so a nine-letter cover is refused for it with the ten-character error |
| TextBacon.DottedCapitalI | src/stegonography/text.js:346-361 | the dotted capital I lower-cases to 'i' and a combining dot without a code, so it spells the code of 'i' and a nine-letter cover is refused for it |
| TextBacon.BaconMessageOfLetters | src/stegonography/text.js:346-356 | for an ASCII-letter message of at most 31 characters the symbol string is the length code, then five symbols per lower-cased letter |
| TextBacon.ReadLetters | src/stegonography/text.js:464-481 | the length code and the groups after it read back as the letters |
| TextBacon.HideThenRevealBacon | src/stegonography/text.js:294-484 | for a message of at most 31 ASCII letters and a cover without '<' with enough letters, hiding succeeds and revealing gives the message lower-cased |
| TextBacon.NoLettersHideNothing | src/stegonography/text.js:359-387 | a cover without letters is copied unchanged and reads back as no symbols |
| TextBacon.DigitsPassTheCapacityCheck | src/stegonography/text.js:359-465 | ten digits pass the capacity check for "a", come back unchanged and reveal nothing |
| SimilarTable.KeysOfEntries | src/stegonography/text.js:499-521 | the substitution map's keys, in the order `Object.entries` lists them, are "olieascnuyzbgthrčěšžř" |
| SimilarTable.ReverseOfSmallO | src/stegonography/text.js:524-528 | the reverse map takes 'o' to itself |
| SimilarTable.ReverseOfZero | src/stegonography/text.js:524-528 | the reverse map takes '0', the look-alike of 'o', back to 'o' |
| SimilarTable.ReverseOfFive | src/stegonography/text.js:524-528 | the reverse map takes '5' back to 's' |
| SimilarTable.SubstituteOfZCaron | src/stegonography/text.js:519 | 'ž' is its own look-alike |
| SimilarTable.SubstituteOfRCaron | src/stegonography/text.js:520 | 'ř' is its own look-alike |
| TextSimilar.BuildReverseMap | src/stegonography/text.js:524-528 | the loop maps each original and each look-alike to its original, a later entry overriding an earlier one |
| TextSimilar.KeyCount | src/stegonography/text.js:531-536 | the number of characters with a look-alike is at most the length |
| TextSimilar.SubstitutedText | src/stegonography/text.js:543-559 | substituting keeps the length of the cover |
| TextSimilar.HideWithSimilarLetters | src/stegonography/text.js:489-566 | the hider's loop writes the substituted cover and the `[VZOR:...]` trailer, or the error when too few characters have a look-alike |
| TextSimilar.PatternRun | src/stegonography/text.js:570 | the run of pattern characters at the end of a text is maximal |
| TextSimilar.PatternOf | src/stegonography/text.js:570 | a match means the text ends in `[VZOR:`, one or more pattern characters and `]` |
| TextSimilar.RevealWithSimilarLetters | src/stegonography/text.js:568-662 | the reader's loops, with the check for '§' after every eighth bit, give `null` without a trailer and otherwise the decoded bytes cut at '§' |
| TextSimilar.SubstitutedTextAt | src/stegonography/text.js:546-559 | character `i` of the hidden cover is the cover's, replaced by its look-alike exactly when it has one and the bit numbered by the look-alike characters before it is 1 |
| TextSimilar.SimilarHiddenShape | src/stegonography/text.js:489-566 | hiding fails exactly when the cover has fewer characters with a look-alike than bits (eight per Latin-1 character and the marker); a hidden text is the cover, same length, with those characters replaced bit by bit, then the trailer |
| TextSimilar.PatternOfTrailer | src/stegonography/text.js:570 | the reader's regular expression finds the pattern written at the end |
| TextSimilar.LastTrailerAt | src/stegonography/text.js:576 | the last "\n[VZOR:" of a hidden text is the one the hider appended |
| TextSimilar.RevealReadsBody | src/stegonography/text.js:568-662 | revealing a hidden text reads the bits of the body before the trailer, against all the keys |
| TextSimilar.SelfLookAlikesReadAsOne | src/stegonography/text.js:617-622 | 'ž' and 'ř', being their own look-alikes, always read as 1 |
| TextSimilar.PresentLookAlikeReadsAsOne | src/stegonography/text.js:617-622 | a look-alike such as '5' already in the cover reads as 1 |
| TextSimilar.CharBitsOfO | src/stegonography/text.js:617-622 | 'o' reads as 0 and '0' as 1 |
| TextSimilar.SubstitutedOs | src/stegonography/text.js:546-559 | a cover of 'o's carries each bit as 'o' or '0' |
| TextSimilar.MarkerBits | src/stegonography/text.js:491-496 | the marker '§' alone is the bits of 0xA7 |
| TextSimilar.HiddenInOs | src/stegonography/text.js:489-566 | the empty message in eight 'o's is hidden as "0o0oo000" and the trailer |
| TextSimilar.ReadEight | src/stegonography/text.js:615-645 | eight characters that all count read as their bits |
| TextSimilar.ReadOs | src/stegonography/text.js:615-645 | "0o0oo000" reads as the bits of 0xA7 |
| TextSimilar.DecodeA7 | src/stegonography/text.js:657 | the lone byte 0xA7 decodes as the replacement character, not as '§' |
| TextSimilar.MarkerComesBackReplaced | src/stegonography/text.js:489-662 | hiding the empty message in "oooooooo" and revealing it gives the replacement character, not the empty text: the marker '§' is written as one Latin-1 byte but read as UTF-8 |
| TextConjunctions.Ones | src/stegonography/text.js:695 | the number of commas written for the first `n` bits is at most `n` |
| TextConjunctions.HideWithCzechConjunctions | src/stegonography/text.js:667-701 | the error when there are fewer sites than bits; otherwise the cover with a comma after the word of each site whose bit is 1 |
| TextConjunctions.InsertCommas | src/stegonography/text.js:684-698 | the splicing loop, which shifts each insert position by the commas already written, puts each comma right after its own site's word |
| TextConjunctions.UptoLength | src/stegonography/text.js:688-698 | the output up to a site is as long as the cover up to it plus the commas written so far |
| TextConjunctions.SpliceIsSubstrings | src/stegonography/text.js:694 | splicing a comma is `substring(0, p) + ',' + substring(p)` and lengthens the text by one |
| TextConjunctions.SpliceOne | src/stegonography/text.js:690-695 | for a 1 bit, splicing at the site shifted by the earlier commas gives the output one site further |
| TextConjunctions.SpliceZero | src/stegonography/text.js:692-697 | a 0 bit leaves the output as it is |
| TextConjunctions.SplicedStep | src/stegonography/text.js:688-698 | one pass of the loop keeps the offset equal to the commas written and the result equal to the output so far |
| TextConjunctions.FlagBits | src/stegonography/text.js:709-712 | a flag becomes a 1 bit exactly when its match held a comma |
| TextConjunctions.RevealFromCzechConjunctions | src/stegonography/text.js:703-728 | the matches' comma flags as bits, grouped into whole bytes, decoded and cut at '§' |
| TextConjunctions.UptoPrefix | src/stegonography/text.js:688-698 | the output up to an earlier site is a prefix of the output up to a later one |
| TextConjunctions.ConjunctionsHiddenShape | src/stegonography/text.js:667-701 | hiding fails exactly when there are fewer sites than bits; otherwise the output is one character longer per 1 bit, at every site used the cover's text before it reappears shifted by the earlier commas and is followed by a comma for 1 and the site's space for 0, and the cover after the last site used follows unchanged |
| TextConjunctions.SiteInOutput | src/stegonography/text.js:688-698 | each site shows its bit in the output |
| TextConjunctions.OutputThroughSite | src/stegonography/text.js:688-698 | the output through a site's comma is a prefix of the whole output, of the length the earlier commas give |
| TextConjunctions.AfterUpto | src/stegonography/text.js:688-700 | after the output through a site comes that site's space |
| TextConjunctions.PieceAfter | src/stegonography/text.js:688-698 | within the output, after one site's part comes its space |
| TextConjunctions.EncodeOfAscii | src/stegonography/text.js:672-674 | an ASCII text's character codes are its UTF-8 bytes |
| TextConjunctions.CutAtMarkerNone | src/stegonography/text.js:726-727 | a text without '§' is returned whole |
| TextConjunctions.AsciiMarkedBytes | src/stegonography/text.js:669-674 | the hider's bytes for an ASCII message are its UTF-8 bytes, then the lone byte 0xA7 of the marker |
| TextConjunctions.AsciiRevealsWithReplacement | src/stegonography/text.js:667-728 | when the reader's flags are the hider's bits, an ASCII message comes back followed by the replacement character: the marker's lone byte 0xA7 is not UTF-8 for '§', so nothing is cut |
| TextSpacing.Gaps | src/stegonography/text.js:752-762 | the text written between words starts with a space |
| TextSpacing.HideWithWordSpacing | src/stegonography/text.js:734-765 | the error when there are fewer gaps between words than bits; otherwise the first word, then each further word after a plain space for 0 or a space and a hair space for 1, missing bits counting as 0 |
| TextSpacing.ScanGaps | src/stegonography/text.js:769-777 | each space of the text, alone or followed by a hair space, is one match, read as 1 when the hair space follows and 0 otherwise |
| TextSpacing.RevealFromWordSpacing | src/stegonography/text.js:767-789 | `null` when the text has no space; otherwise the bits grouped into whole bytes and decoded |
| TextSpacing.NoGapsWithoutSpace | src/stegonography/text.js:769-771 | there are no matches exactly when the text has no space |
| TextSpacing.GapBitsSkipsWord | src/stegonography/text.js:769 | a word without spaces holds no matches |
| TextSpacing.GapBitsOfGap | src/stegonography/text.js:756-776 | a gap written for a bit, followed by a plain word, reads back as that bit |
| TextSpacing.BitsFrom | src/stegonography/text.js:753 | the bits of the gaps from a point on, a missing bit counting as 0 |
| TextSpacing.GapBitsOfGaps | src/stegonography/text.js:752-777 | the gaps written between plain words read back as their bits |
| TextSpacing.SplitKeepsOut | src/stegonography/text.js:742 | splitting keeps a character the text lacks out of every word |
| TextSpacing.Nuls | src/stegonography/text.js:788 | a run of `n` NUL characters |
| TextSpacing.DecodePaddedMessage | src/stegonography/text.js:736-788 | a message's UTF-8 bits followed by zero bits decode as the message followed by one NUL per whole zero byte |
| TextSpacing.GapBitsOfSpaced | src/stegonography/text.js:749-777 | the hidden text of a cover without hair spaces reads back as one bit per gap between words |
| TextSpacing.PaddedBitsFrom | src/stegonography/text.js:753 | the gap bits past the message are zeros |
| TextSpacing.HideThenRevealWordSpacing | src/stegonography/text.js:734-789 | revealing a hidden text gives `null` for a one-word cover and otherwise the message followed by a NUL for every eight unused gaps |
| TextSpacing.WithoutHairSpaces | src/stegonography/text.js:757 | removing hair spaces never lengthens a text |
| TextSpacing.WithoutHairSpacesAppend | src/stegonography/text.js:757 | removing hair spaces distributes over concatenation |
| TextSpacing.WithoutHairSpacesOfPlain | src/stegonography/text.js:760 | a text without hair spaces is left as it is |
| TextSpacing.WithoutHairSpacesOfGaps | src/stegonography/text.js:750-762 | the hidden text without its hair spaces is the words joined by spaces |
| TextSpacing.WordSpacingHiddenShape | src/stegonography/text.js:734-765 | hiding fails exactly when there are fewer gaps than bits, and a hidden text without its hair spaces is the cover |
| TextStego.MethodNamedIsName | src/stegonography/text.js:794-813 | each `case` is selected by its own name and no other |
| TextStego.DispatchOutcome | src/stegonography/text.js:792-844 | every error carries the prefix of its way; a known method's hidden text passes through unchanged; revealing fails only for an unknown name or the Base64 markers |
| TextStego.UnknownMethodRefused | src/stegonography/text.js:811-812 | an unknown name is refused both ways with the name in the message |
| TextStego.HideThenRevealInText | src/stegonography/text.js:792-844 | through the dispatchers, the plain and Base64 markers, the invisible characters and the multi-tag Bacon cipher give the message back |
| Image.Wrap32 | src/stegonography/image.js:449 | the 32-bit wrap of a shift result lies in the signed 32-bit range and differs from the value by a multiple of 2 to the 32 |
| Image.Wrap32Small | src/stegonography/image.js:449 | a value already in the signed 32-bit range is left as it is |
| Image.GetMask | src/stegonography/image.js:446-452 | `getMask(b)` is `2^b - 1` for `b` from 1 to 31, 0 for `b <= 0` and -1 from 32 on, in JavaScript's 32-bit shifts |
| Image.TextToBinary | src/stegonography/image.js:459-466 | the loop writes each character code in binary, padded to eight digits |
| Image.ArrayToBinary | src/stegonography/image.js:473-479 | the loop writes each byte as its eight bits |
| Image.ChannelIndex | src/stegonography/image.js:38-45 | colour channel `c` of the stream is byte `4 * (c / 3) + c % 3` of the buffer, never an alpha byte |
| Image.ChannelAt | src/stegonography/image.js:38-45 | every non-alpha byte is the place of exactly one colour channel |
| Image.Cleared | src/stegonography/image.js:49 | `v & ~mask` takes away less than `2^b` and leaves room for `b` low bits |
| Image.ClearedByMask | src/stegonography/image.js:36-49 | clearing with the mask of `getMask(b)` is clearing the low `b` bits |
| Image.ClearedPlus | src/stegonography/image.js:49-61 | or-ing a block below `2^b` into a cleared value keeps the high bits and gives the block as the low bits |
| Image.Block | src/stegonography/image.js:52-58 | a channel's block is `b` message bits, fewer only at the end of the message |
| Image.Embedded | src/stegonography/image.js:35-63 | embedding keeps the length of the buffer |
| Image.EmbedBits | src/stegonography/image.js:35-63 | the pixel, channel and block loops leave the buffer as `Embedded` of the old buffer |
| Image.EmbedPixel | src/stegonography/image.js:38-63 | one pass of the pixel loop embeds that pixel's three channels and advances the bit index by up to `3 * b` |
| Image.EmbedChannel | src/stegonography/image.js:42-61 | one pass of the channel loop writes the cleared byte or-ed with its block |
| Image.EmbeddedChannel | src/stegonography/image.js:45-61 | the embedded byte of a used channel is the cleared byte plus its block's value |
| Image.BuildBlock | src/stegonography/image.js:52-58 | the block loop builds the value of the next `b` bits (fewer at the end) and advances the bit index by as many |
| Image.UnusedChannels | src/stegonography/image.js:39-43 | alpha bytes and channels past the message are left as they were |
| Image.EmbeddedUpToStep | src/stegonography/image.js:38-63 | writing the next byte keeps the buffer embedded up to there |
| Image.EmbeddedUpToSkip | src/stegonography/image.js:39-43 | skipping bytes that embedding leaves alone keeps the buffer embedded up to there |
| Image.EmbeddedUpToAlpha | src/stegonography/image.js:42 | the alpha byte is skipped |
| Image.RestOfPixelUnused | src/stegonography/image.js:43 | once the message is used up the rest of the pixel is left as it was |
| Image.ChannelBits | src/stegonography/image.js:114-117 | the reader takes `b` bits from each channel |
| Image.ImageBits | src/stegonography/image.js:99-117 | the reader's bit stream has `3 * b` bits per pixel |
| Image.ImageChars | src/stegonography/image.js:119-124 | the characters are the whole bytes of the stream |
| Image.Stream | src/stegonography/image.js:99-117 | the first `n` channels give `n * b` bits |
| Image.StreamPrefix | src/stegonography/image.js:99-117 | the bits of fewer channels are a prefix of those of more |
| Image.StreamAt | src/stegonography/image.js:110-117 | every bit of a channel lies within the stream |
| Image.ChannelBitsOf | src/stegonography/image.js:114-117 | a channel's bits stand in the stream from its start, most significant first |
| Image.BitOfChannel | src/stegonography/image.js:114-116 | bit `k` of a channel stands at position `b - 1 - k` of its run |
| Image.ChannelInImage | src/stegonography/image.js:105-117 | each colour byte of a pixel is read at its place in the stream |
| Image.PixelInImage | src/stegonography/image.js:105-117 | the three colour bytes of a pixel follow one another in the stream |
| Image.NextPixel | src/stegonography/image.js:99-117 | each pixel's run starts where the previous one ends |
| Image.ReadWritten | src/stegonography/image.js:49-61 | a channel written with a short block reads back as leading zeros, then the block |
| Image.ChannelOfWritten | src/stegonography/image.js:49-61 | a channel written with a full block reads back as the block |
| Image.ChannelBitsAsToBits | src/stegonography/image.js:114-116 | the bits the reader takes are the low bits in binary |
| Image.ReadBackChannels | src/stegonography/image.js:35-117 | reading the first `c` channels of an embedded buffer gives the first `c * b` message bits |
| Image.ReadBackAligned | src/stegonography/image.js:35-117 | a message whose length is a multiple of `b` reads back as a prefix of the stream |
| Image.ReadBackShort | src/stegonography/image.js:52-58 | a message whose last block is short reads back with zeros before the last bits |
| Image.ReadBackLastChannel | src/stegonography/image.js:52-61 | the short last block is read as zeros followed by its bits |
| Image.EmbeddedKeepsHighBits | src/stegonography/image.js:49-61 | embedding changes no byte above its low `b` bits and no alpha byte |
| Image.WholePixels | src/stegonography/image.js:38 | an image's buffer holds whole pixels |
| Image.SameSize | src/stegonography/image.js:386-392 | two images of the same size have buffers of the same length |
| ImageText.TextHeaderOfShape | src/stegonography/image.js:130 | a match of `/^TEXT:(\d+):/` is `TEXT:`, digits and `:`, the length their value |
| ImageText.TextHeaderOfNone | src/stegonography/image.js:130-133 | a text of that shape matches with the digits' value |
| ImageText.TextHeaderPrefix | src/stegonography/image.js:126-141 | once a prefix matches, every longer text matches alike |
| ImageText.HeaderAt | src/stegonography/image.js:126-142 | a header is looked for only while at most 200 characters are decoded |
| ImageText.HeaderAtPrefix | src/stegonography/image.js:126-142 | a header found in a prefix stays the header of every extension |
| ImageText.HeaderOfFramed | src/stegonography/image.js:23-133 | the frame the hider writes is found as a header with the message's length |
| ImageText.RevealTextFromImage | src/stegonography/image.js:76-173 | the reader's nested loops return the bpc error, the announced number of characters after a header, the incomplete-message error, or every character when there is no header |
| ImageText.StreamOfImage | src/stegonography/image.js:99-124 | the whole bytes of the stream decode to its characters |
| ImageText.CharsOfStream | src/stegonography/image.js:119-124 | those characters are the image's characters |
| ImageText.CharStep | src/stegonography/image.js:119-121 | every eighth bit completes a character code below 256 |
| ImageText.ReturnsRevealed | src/stegonography/image.js:138-150 | returning inside the loop gives what the reader promises |
| ImageText.ScanEnd | src/stegonography/image.js:160-172 | at the end of the stream the reader gives the incomplete error after a header and every character without one |
| ImageText.ScanReturns | src/stegonography/image.js:138-150 | an early return is the reader's result |
| ImageText.AcceptTextBit | src/stegonography/image.js:116-152 | one bit keeps the scan state or ends with the reader's result |
| ImageText.AcceptTextChar | src/stegonography/image.js:121-151 | one character updates the header search or the content, or ends with the reader's result |
| ImageText.ScanTextChannel | src/stegonography/image.js:112-153 | one channel's bits keep the scan state or end with the reader's result |
| ImageText.ScanTextPixel | src/stegonography/image.js:105-156 | one pixel's bits keep the scan state or end with the reader's result |
| ImageText.PeekInitialTextFromImage | src/stegonography/image.js:567-602 | the peek returns the first `limit` decoded characters (all of them when fewer, none for a non-positive limit) |
| ImageText.PeekPixels | src/stegonography/image.js:581-600 | the peek loops stop exactly at the limit or at the end of the stream |
| ImageText.PeekBit | src/stegonography/image.js:589-596 | one bit keeps the peek state or reaches the limit |
| ImageText.PeekChannel | src/stegonography/image.js:586-598 | one channel keeps the peek state or reaches the limit |
| ImageText.PeekPixel | src/stegonography/image.js:583-599 | one pixel keeps the peek state or reaches the limit |
| ImageText.PeekReachedLimit | src/stegonography/image.js:582-595 | stopping at the limit returns the first `limit` characters |
| ImageText.PeekedAll | src/stegonography/image.js:581-601 | running out of pixels returns every character |
| ImageText.HideTextInImage | src/stegonography/image.js:13-68 | the buffer becomes the embedding of `TEXT:<length>:<message>`, or stays as it was with the bpc error or the too-long error quoting `floor(available / 8)` |
| ImageText.FramedLatin1 | src/stegonography/image.js:23-24 | the frame of a Latin-1 message is Latin-1 |
| ImageText.FramedChars | src/stegonography/image.js:13-124 | the reader's characters of a hidden text start with the frame |
| ImageText.RevealFramed | src/stegonography/image.js:126-150 | whatever follows the frame, the reader returns the message |
| ImageText.HideThenRevealText | src/stegonography/image.js:13-173 | a Latin-1 message that fits, in whole blocks, is hidden and read back exactly |
| ImageText.HideThenPeekText | src/stegonography/image.js:13-602 | peeking at a hidden text gives the start of its frame |
| ImagePicture.ImgAtShape | src/stegonography/image.js:304 | a match of `IMG:(\d+):(\d+):` at a place is `IMG:`, digits, `:`, digits, `:`, width and height their values |
| ImagePicture.ImgAtOfShape | src/stegonography/image.js:304 | a text of that shape matches there |
| ImagePicture.ImgSearchLeftmost | src/stegonography/image.js:304 | the search finds the leftmost match |
| ImagePicture.MatchIncludesTag | src/stegonography/image.js:303-305 | a text that matches includes `IMG:` |
| ImagePicture.HeaderEnd | src/stegonography/image.js:314 | the third `:` is a place in the text or -1 |
| ImagePicture.HeaderEndOfMatch | src/stegonography/image.js:314 | in a text that matches, the third `:` is at or before the end of the match |
| ImagePicture.FirstHeaderFrom | src/stegonography/image.js:297-306 | the first prefix length at which the header matches |
| ImagePicture.DecodedMono | src/stegonography/image.js:281-300 | more pixels decode at least as many characters |
| ImagePicture.AcceptHeaderBit | src/stegonography/image.js:293-324 | one bit keeps the header scan or finds the first matching prefix |
| ImagePicture.HeaderBitRead | src/stegonography/image.js:293-294 | a bit extends the buffered bits |
| ImagePicture.HeaderByteRead | src/stegonography/image.js:297-300 | every eighth bit adds the next character to the header text |
| ImagePicture.HeaderFoundAt | src/stegonography/image.js:303-306 | the first match found is the first matching prefix |
| ImagePicture.HeaderScannedAfterByte | src/stegonography/image.js:297-324 | a character without a match keeps the scan going |
| ImagePicture.HeaderStart | src/stegonography/image.js:272-277 | the scan starts empty |
| ImagePicture.FirstHeaderStep | src/stegonography/image.js:303-305 | a prefix that does not match moves the search on |
| ImagePicture.FirstHeaderFound | src/stegonography/image.js:303-306 | a prefix that matches is the one found |
| ImagePicture.HeaderChannel | src/stegonography/image.js:287-324 | one channel keeps the header scan or finds the header |
| ImagePicture.HeaderPixel | src/stegonography/image.js:281-332 | one pixel keeps the header scan or finds the header |
| ImagePicture.ChannelWithinPixel | src/stegonography/image.js:287-294 | a channel's bits end within its pixel's |
| ImagePicture.HeaderPass | src/stegonography/image.js:261-336 | the first pass gives the header text, the give-up error after more than 10000 bytes, or the no-image error |
| ImagePicture.GaveUp | src/stegonography/image.js:282-284 | checking a pixel after more than 10000 bytes without a match gives the give-up error |
| ImagePicture.NoHeaderLeft | src/stegonography/image.js:334-336 | running out of pixels without a match gives the no-image error |
| ImagePicture.FoundInTime | src/stegonography/image.js:303-331 | a match in a pixel the pass reaches gives that header text |
| ImagePicture.NeverGivesUp | src/stegonography/image.js:282 | the pass does not give up before a match it reaches |
| ImagePicture.OutcomeFound | src/stegonography/image.js:281-332 | a match found without giving up is the first pass's result |
| ImagePicture.ChecksStep | src/stegonography/image.js:282 | the check is passed pixel by pixel while at most 10000 bytes are read |
| ImagePicture.PayloadBytes | src/stegonography/image.js:340-341 | the payload has exactly the announced number of bytes |
| ImagePicture.PayloadBytesAt | src/stegonography/image.js:341-364 | byte `t` is the `t`-th whole byte of the bits from the start pixel on, zero when the bits run out |
| ImagePicture.ExtractedAll | src/stegonography/image.js:345-372 | reaching the end of the stream leaves the payload bytes |
| ImagePicture.CompleteAll | src/stegonography/image.js:366-370 | filling every byte leaves the payload bytes |
| ImagePicture.PayloadBit | src/stegonography/image.js:357-366 | one bit keeps the payload state |
| ImagePicture.ByteCompleted | src/stegonography/image.js:361-364 | every eighth bit stores the next byte |
| ImagePicture.PayloadChannel | src/stegonography/image.js:351-371 | one channel keeps the payload state |
| ImagePicture.StateMoved | src/stegonography/image.js:366-370 | a finished payload stays finished |
| ImagePicture.PayloadPixel | src/stegonography/image.js:345-372 | one pixel keeps the payload state |
| ImagePicture.PixelEnd | src/stegonography/image.js:351 | a pixel ends after three channels or once the payload is full |
| ImagePicture.ChannelInSuffix | src/stegonography/image.js:345-358 | a channel's bits stand at the same relative place in the stream from the start pixel |
| ImagePicture.PixelInSuffix | src/stegonography/image.js:345-358 | so do a pixel's |
| ImagePicture.PayloadFrom | src/stegonography/image.js:346 | the payload's bits start at the start pixel's first bit, or where the stream ends |
| ImagePicture.StartInStream | src/stegonography/image.js:346 | a start pixel within the image starts within the stream |
| ImagePicture.PayloadPixelAt | src/stegonography/image.js:345-372 | a pixel from the start pixel on keeps the payload state |
| ImagePicture.PayloadPass | src/stegonography/image.js:338-372 | the second pass gives the payload bytes read from the start pixel |
| ImagePicture.PayloadPixels | src/stegonography/image.js:345-372 | the pixel loop of the second pass fills the payload |
| ImagePicture.RevealImageFromImage | src/stegonography/image.js:261-376 | the bpc error, the header errors, or an image of the header's size holding the payload bytes |
| ImagePicture.ExtractPayload | src/stegonography/image.js:338-376 | the second pass and the `ImageData` it builds |
| ImagePicture.HideImageInImage | src/stegonography/image.js:182-253 | the buffer becomes the embedding of `IMG:<width>:<height>:` and the secret's bytes, or stays as it was with the bpc or too-large error |
| ImagePicture.FrameColons | src/stegonography/image.js:204 | the header holds exactly three colons |
| ImagePicture.FrameParts | src/stegonography/image.js:204 | the header is `IMG:`, the width's digits, `:`, the height's digits, `:` |
| ImagePicture.FrameLatin1 | src/stegonography/image.js:204-205 | the header is Latin-1 |
| ImagePicture.FrameMatches | src/stegonography/image.js:204-308 | the header matches with the secret's width and height |
| ImagePicture.FramePrefixNoMatch | src/stegonography/image.js:303-305 | no shorter prefix of the header matches |
| ImagePicture.FirstHeaderOfFrame | src/stegonography/image.js:297-306 | the first match in a stream starting with the header is the whole header |
| ImagePicture.IndexOfAt | src/stegonography/image.js:314 | `indexOf` finds the first occurrence from a place |
| ImagePicture.HeaderEndOfFrame | src/stegonography/image.js:314 | the third colon of the header is its last character |
| ImagePicture.ImageStream | src/stegonography/image.js:182-253 | the stream of a hidden image starts with the header's and the secret's bytes |
| ImagePicture.HeaderOfStream | src/stegonography/image.js:281-332 | a stream starting with the header gives it as the first pass's result |
| ImagePicture.PayloadOfStream | src/stegonography/image.js:345-372 | a stream holding the secret's bytes after the header gives them as the payload |
| ImagePicture.StartOfFrame | src/stegonography/image.js:346 | for a header that fills whole pixels, the start pixel is the first pixel after it |
| ImagePicture.SizeOfImage | src/stegonography/image.js:340 | an image's byte count is `4 * width * height` |
| ImagePicture.RevealPayloadOfMatch | src/stegonography/image.js:338-376 | a matching header gives an image of its size holding the payload bytes |
| ImagePicture.RevealPayloadOfFrame | src/stegonography/image.js:338-376 | the header of the secret and its bytes give the secret back |
| ImagePicture.HideThenRevealImage | src/stegonography/image.js:182-376 | a secret image that fits, with a header filling whole pixels, is hidden and read back exactly |
| ImageView.AmplifiedIsProduct | src/stegonography/image.js:396 | the amplified difference is the product |
| ImageView.DifferenceMap | src/stegonography/image.js:385-409 | the size error for images of different sizes, otherwise an image of the same size holding the differences |
| ImageView.FillDifferences | src/stegonography/image.js:394-406 | the loop fills the buffer with the differences |
| ImageView.DiffByte | src/stegonography/image.js:396-402 | one channel's difference, amplified and clamped to 255 |
| ImageView.Differences | src/stegonography/image.js:392-406 | the differences have the length of the images |
| ImageView.DiffChannelMeaning | src/stegonography/image.js:396-402 | for a positive amplification a channel is 0 exactly when the bytes agree, and 255 exactly when the amplified distance reaches 255 |
| ImageView.DifferencesSymmetric | src/stegonography/image.js:396-398 | the map does not depend on which image comes first |
| ImageView.DifferencesOfSame | src/stegonography/image.js:394-406 | an image compared with itself gives black, opaque pixels |
| ImageView.DifferencesOfEmbedded | src/stegonography/image.js:35-406 | against its own embedding, alpha is 255, unused channels are 0 and used ones at most `(2^b - 1)` times the amplification |
| ImageView.SameHighBits | src/stegonography/image.js:49-61 | bytes with the same high bits differ by less than `2^b` |
| ImageView.DiffChannelBound | src/stegonography/image.js:396-402 | the amplified difference of bytes at most `m` apart is at most `m` times the amplification |
| ImageView.MaskWidth | src/stegonography/image.js:422-423 | the mask covers at most the eight bits of a byte |
| ImageView.Visualized | src/stegonography/image.js:421-436 | the visualisation has the length of the original |
| ImageView.MaskLowByte | src/stegonography/image.js:422-423 | the low byte of `getMask(b)` is `2^k - 1` for the mask's width `k` |
| ImageView.SpotlitByMasks | src/stegonography/image.js:427-434 | the and/or of the source gives the byte with its masked bits set to all ones or all zeros |
| ImageView.SpotChannel | src/stegonography/image.js:427-434 | one channel of the visualisation |
| ImageView.EnhancedVisualization | src/stegonography/image.js:418-439 | an image of the original's size holding the visualised stego bytes |
| ImageView.FillView | src/stegonography/image.js:425-436 | the loop fills the buffer with the visualisation |
| ImageView.VisualizedIdempotent | src/stegonography/image.js:425-436 | visualising a visualisation changes nothing |
| ImageView.VisualizedOfEmbedded | src/stegonography/image.js:35-436 | a used channel shows 255 when its block is not zero and its cleared byte otherwise |
| Audio.ClearAndSet | src/stegonography/audio.js:125 | `(s & 0xfffe)` with `bit` or-ed in is a 16-bit value whose low bit is `bit`; it keeps the other bits of a non-negative sample and is at least 32768 for a negative one |
| Audio.Embed | src/stegonography/audio.js:125-135 | a non-negative sample keeps its high bits and takes `bit` as its low bit; a negative one becomes 32767, the clamp to 1.0 |
| Audio.Lsb | src/stegonography/audio.js:168 | `intSample & 1` is the sample's parity, for negative samples too |
| Audio.LsbOfEmbed | src/stegonography/audio.js:125-168 | a non-negative sample reads back as the bit written and changes only in its low bit; a negative one reads back as 1 |
| Audio.MessageBits | src/stegonography/audio.js:74-75 | the bits to hide end in the sixteen-zero delimiter |
| Audio.TextToBinary | src/stegonography/audio.js:9-26 | the loops give the bits of the Base64 encoding of the text's UTF-8 bytes |
| Audio.PaddedGroup | src/stegonography/audio.js:36-45 | each group of eight bits, the last padded with zeros, becomes one character code |
| Audio.PackBits | src/stegonography/audio.js:34-45 | the packing loop gives the padded bytes as characters |
| Audio.CharCodes | src/stegonography/audio.js:52-55 | the loop gives the character codes of a Latin-1 text |
| Audio.BinaryToText | src/stegonography/audio.js:33-64 | padded bytes, `atob` and fatal UTF-8 decoding, `null` when either fails |
| Audio.Hidden | src/stegonography/audio.js:107-137 | hiding keeps the number of samples |
| Audio.HiddenFrame | src/stegonography/audio.js:107-137 | samples outside the 200 skipped and the message are unchanged; a non-negative sample in the message keeps its high bits and carries its bit |
| Audio.WriteBits | src/stegonography/audio.js:107-137 | the loop leaves the first channel as the hidden samples |
| Audio.HideInAudio | src/stegonography/audio.js:72-140 | `null` exactly when the bits do not fit after the first 200 samples; otherwise every channel is copied and only the first is changed, to the hidden samples |
| Audio.ReadBits | src/stegonography/audio.js:155-171 | one bit per sample after the first 200, each the sample's low bit |
| Audio.FindDelimiter | src/stegonography/audio.js:173-177 | the first place at which the last sixteen bits read are zeros |
| Audio.Unframe | src/stegonography/audio.js:179-198 | a revealed message is what follows `STEGANOAUDIO1` in the decoded text |
| Audio.FindDelimiterFirst | src/stegonography/audio.js:173-177 | a zero window with none before it is the one found |
| Audio.SlideWindow | src/stegonography/audio.js:171-175 | the buffer keeps the last sixteen bits read |
| Audio.WindowIsDelimiter | src/stegonography/audio.js:177 | the buffer equals the delimiter exactly when the last sixteen bits read are zeros |
| Audio.UnframeBits | src/stegonography/audio.js:179-198 | decoding, the header check and the cut |
| Audio.ScanForDelimiter | src/stegonography/audio.js:155-200 | the scan stops at the first delimiter, or reports there is none |
| Audio.PrefixStep | src/stegonography/audio.js:170 | reading a bit extends the revealed prefix |
| Audio.FindDelimiterNone | src/stegonography/audio.js:202-203 | a scan without a delimiter finds none |
| Audio.RevealFromAudio | src/stegonography/audio.js:147-204 | the reader returns what the first channel reveals |
| Audio.RevealFound | src/stegonography/audio.js:177-181 | the delimiter found cuts the revealed bits before it |
| Audio.NoDelimiterStep | src/stegonography/audio.js:173-177 | one more bit keeps the scan free of delimiters exactly when it does not complete one |
| Audio.ZeroWindowPrefix | src/stegonography/audio.js:171-177 | the buffer sees the same window in the prefix read as in the whole stream |
| Audio.EncodeCodes | src/stegonography/audio.js:20-25 | a Base64 text is Latin-1 and holds no NUL |
| Audio.OneInByte | src/stegonography/audio.js:23-25 | a non-zero byte has a 1 among its eight bits |
| Audio.NoWindowInBody | src/stegonography/audio.js:75-177 | sixteen zeros cannot fall within the bits of Base64 characters |
| Audio.DelimiterPosition | src/stegonography/audio.js:75-177 | the delimiter the reader finds lies within the last byte of the message and the delimiter the hider wrote |
| Audio.PaddedLength | src/stegonography/audio.js:36-45 | padding to whole bytes gives the message's bytes |
| Audio.PaddedBody | src/stegonography/audio.js:36-45 | the bits before the delimiter, padded, are the message's bytes |
| Audio.PaddedBits | src/stegonography/audio.js:42-43 | padding the bits before the delimiter gives the message's bits |
| Audio.AppendZerosAt | src/stegonography/audio.js:42 | padding leaves the bits and adds zeros |
| Audio.DecodeFramed | src/stegonography/audio.js:9-64 | the bits the hider makes of `STEGANOAUDIO1` and the message decode back to them |
| Audio.ReadBack | src/stegonography/audio.js:107-171 | each bit written into a non-negative sample reads back |
| Audio.UnframeFramed | src/stegonography/audio.js:190-198 | a decoded text with the header gives the message after it |
| Audio.RevealOfHide | src/stegonography/audio.js:72-204 | revealing hidden samples gives the message back when every sample carrying a bit is non-negative |
| Audio.ScanStep | src/stegonography/audio.js:155-177 | one pass of the scan extends the bits read and slides the window, which then holds sixteen zeros exactly when this is the first such place |
| Bits.Pow2 | src/stegonography/image.js:449 | a power of two is at least 1 |
| Bits.FromBits | src/stegonography/text.js:176 | `parseInt(bits, 2)` of `n` bits is below `2^n` |
| Bits.FromToBits | src/stegonography/text.js:113-176 | reading back a number written in `w` binary digits gives it back when it fits |
| Bits.ToFromBits | src/stegonography/text.js:113-176 | writing the value of a bit string in as many digits gives the string back |
| Bits.ToBitsAt | src/stegonography/text.js:113 | digit `i` of `w` is bit `w - 1 - i` of the number |
| Bits.BinaryLength | src/stegonography/text.js:204 | `toString(2)` has at least one digit |
| Bits.BinaryLengthBound | src/stegonography/text.js:204 | a number below `2^w` has at most `w` binary digits |
| Bits.PaddedBinaryByte | src/stegonography/text.js:113 | `toString(2).padStart(8, '0')` of a byte is its eight bits |
| Bits.Codes | src/stegonography/text.js:204 | `charCodeAt` of each character |
| Bits.Latin1 | src/stegonography/text.js:281 | `String.fromCharCode` of each byte, one character per byte |
| Bits.Latin1Codes | src/stegonography/text.js:281 | the characters of bytes are Latin-1 and have those codes |
| Bits.ByteBits | src/stegonography/text.js:111-114 | eight bits per byte |
| Bits.ByteBitsAppend | src/stegonography/text.js:111-114 | the bits of joined bytes are the joined bits |
| Bits.ByteBitsAt | src/stegonography/text.js:111-114 | byte `i`'s bits stand at `8 * i` |
| Bits.CodeBitsLatin1 | src/stegonography/text.js:202-205 | for a Latin-1 text, padding each code to eight digits is the bits of its codes |
| Bits.CodeBitsAppend | src/stegonography/text.js:202-205 | the bits of joined texts are the joined bits |
| Bits.WholeBytes | src/stegonography/text.js:172-178 | one byte per whole group of eight bits, a trailing part dropped |
| Bits.WholeBytesOfByteBits | src/stegonography/text.js:111-178 | the whole bytes of some bytes' bits and more bits are those bytes, then the whole bytes of the rest |
| Bits.WholeBytesRoundTrip | src/stegonography/text.js:111-178 | grouping the bits of bytes gives the bytes back |
| Bits.WholeBytesOfZeros | src/stegonography/text.js:172-178 | zero bits group into zero bytes |
| Bits.PaddedBytes | src/stegonography/audio.js:36-45 | one byte per group of eight, the last group padded with zeros |
| Bits.PaddedBytesOfByteBits | src/stegonography/audio.js:23-45 | padding the bits of bytes gives the bytes back |
| Bits.AndLowMask | src/stegonography/image.js:427 | `v & (2^k - 1)` is `v` modulo `2^k` |
| JsString.DigitChar | src/stegonography/text.js:539 | a decimal digit's character |
| JsString.NatToString | src/stegonography/text.js:539 | `${n}` is one or more digits without a leading zero |
| JsString.DecimalValueOfNatToString | src/stegonography/image.js:23-133 | `parseInt` of `${n}` is `n` |
| JsString.DigitRun | src/stegonography/image.js:130 | the greedy `\d+` ends at the first non-digit |
| JsString.DigitRunPrefix | src/stegonography/image.js:130 | a run of digits that ends inside a prefix ends there in the whole text |
| JsString.DigitRunOf | src/stegonography/image.js:130 | a run of digits followed by a non-digit ends there |
| JsString.IndexOf | src/stegonography/text.js:183 | `indexOf` of a character is its first place from the start given, or -1 |
| JsString.IndexOfStr | src/stegonography/text.js:26 | `indexOf` of a string is its first occurrence from the start given, or -1 |
| JsString.IncludesIff | src/stegonography/text.js:639 | `includes` holds exactly when there is an occurrence |
| JsString.IndexOfStrAt | src/stegonography/text.js:26 | an occurrence with none before it is the one found |
| JsString.LastIndexOfStr | src/stegonography/text.js:576 | `lastIndexOf` is the last occurrence, or -1 |
| JsString.LastIndexFrom | src/stegonography/text.js:576 | the last occurrence up to a place, or -1 |
| JsString.Substring | src/stegonography/text.js:576 | `substring` clamps both ends to the text and swaps them when reversed |
| JsString.Clamp | src/stegonography/text.js:576 | a clamped end lies within the text |
| JsString.Split | src/stegonography/text.js:117 | `split` gives at least one part and no part holds the separator |
| JsString.JoinOfSplit | src/stegonography/text.js:117-147 | joining the parts of a split gives the text back |
| JsString.SplitOfJoin | src/stegonography/text.js:117-151 | splitting parts joined without the separator gives the parts back |
| JsString.TrimEnd | src/stegonography/text.js:132 | `trimEnd` removes exactly the trailing white space |
| Uri.HexDigit | src/stegonography/text.js:52 | an upper-case hexadecimal digit with that value |
| Uri.HexValue | src/stegonography/text.js:76 | a hexadecimal digit's value is below 16 |
| Uri.Escape | src/stegonography/text.js:52 | a byte escapes as `%` and two digits |
| Uri.EscapeBytes | src/stegonography/text.js:52 | three characters per byte |
| Uri.EscapedByte | src/stegonography/text.js:76 | a byte is read from `%` and two hexadecimal digits |
| Uri.Escapes | src/stegonography/text.js:76 | reading `n` escapes gives `n` bytes |
| Uri.EncodeComponentAscii | src/stegonography/text.js:52 | `encodeURIComponent` gives an ASCII text, which `btoa` accepts |
| Uri.EscapeBytesAscii | src/stegonography/text.js:52 | escapes are ASCII |
| Uri.EscapesOfEscapeBytes | src/stegonography/text.js:52-76 | escaped bytes read back as the bytes |
| Uri.EncodeCharShape | src/stegonography/text.js:52 | a character's UTF-8 bytes start with a lead byte and go on with continuation bytes |
| Uri.DecodePiece | src/stegonography/text.js:52-76 | one encoded character decodes back to itself before the rest |
| Uri.DecodeOfEncodeComponent | src/stegonography/text.js:52-76 | `decodeURIComponent(encodeURIComponent(s))` is `s` |
| Utf8.EncodeChar | src/stegonography/text.js:111-112 | a character takes one to four bytes |
| Utf8.Encode | src/stegonography/text.js:111-112 | `TextEncoder.encode` gives at least one byte per character |
| Utf8.DecodeStep | src/stegonography/text.js:180 | each decoding step consumes at least one byte and no more than there are |
| Utf8.DecodeStepOfEncodeChar | src/stegonography/text.js:111-180 | the bytes of a character decode as that character |
| Utf8.DecodeTwo | src/stegonography/text.js:111-180 | so do two-byte characters |
| Utf8.DecodeThree | src/stegonography/text.js:111-180 | so do three-byte characters |
| Utf8.DecodeFour | src/stegonography/text.js:111-180 | so do four-byte characters |
| Utf8.DecodeReplacingOfEncode | src/stegonography/text.js:111-180 | the bytes of a text decode as the text, then the rest decodes on its own |
| Utf8.DecodeFatalOfEncode | src/stegonography/audio.js:58-59 | fatal decoding of the bytes of a text succeeds with the text |
| Utf8.TextDecodeOfEncode | src/stegonography/text.js:111-180 | `TextDecoder.decode` of a text's bytes and more gives the text first, a leading byte-order mark aside |
| Utf8.ByteOrderMarkLead | src/stegonography/text.js:180 | bytes that do not start with 0xEF do not decode to a text starting with a byte-order mark |
| Utf8.TextDecodeFatalOfEncode | src/stegonography/audio.js:58-59 | the fatal decoder gives the text back from its bytes |
| Utf8.DecodeReplacingZeros | src/stegonography/text.js:788 | zero bytes decode as NUL characters |
| Base64.SextetChar | src/stegonography/text.js:52 | a value below 64 has a character of the alphabet |
| Base64.SextetValue | src/stegonography/text.js:76 | an alphabet character's value is below 64 and maps back to it |
| Base64.SextetValueOfChar | src/stegonography/text.js:52-76 | the value of a value's character is that value |
| Base64.Sextets | src/stegonography/text.js:52 | one alphabet character per six bits |
| Base64.RemoveAsciiWhitespace | src/stegonography/text.js:76 | `atob` first removes ASCII white space |
| Base64.SextetBits | src/stegonography/text.js:76 | six bits per character |
| Base64.SextetBitsOfSextets | src/stegonography/text.js:52-76 | the bits of the characters of some bits give the bits back |
| Base64.EncodeLengths | src/stegonography/text.js:52 | the encoding is padded with `=` to a multiple of four characters |
| Base64.StripPaddingOfPadded | src/stegonography/text.js:76 | stripping the padding gives the characters back |
| Base64.StripPaddingOfEncode | src/stegonography/text.js:52-76 | the encoding without its padding leaves no remainder `atob` refuses |
| Base64.DecodeOfEncode | src/stegonography/text.js:52-76 | the forgiving decoder gives back the encoded bytes |
| Base64.NoWhitespace | src/stegonography/text.js:76 | a text without ASCII white space keeps its characters |
| Base64.AtobOfBtoa | src/stegonography/text.js:52-76 | `btoa` of a Latin-1 text succeeds and `atob` gives the text back |
| Base64.EncodeCharacters | src/stegonography/text.js:52 | the encoding holds only alphabet characters and `=` |
| Base64.EncodeNonEmpty | src/stegonography/text.js:52 | the encoding of one or more bytes is not empty |

## Left out

- Browser boundaries are not modelled: `getContext`, `getImageData`, `new ImageData`, `AudioContext.createBuffer`, `copyToChannel` and `console` logging. The RGBA bytes, the canvas size, the audio channels and the sample count are parameters, and a fresh buffer is a new value.
- `async` is not modelled; every function is taken as running to completion.
- A missing canvas or 2D context is not modelled, because the canvas is a parameter.
- `resizeSecretImageData` is not modelled. It resamples a canvas with a floating-point `Math.sqrt` factor. The secret image's bytes and size are parameters of the image hider.
- `src/stegonography/video.js`, `src/stores/encryption.js` and the user interface are not part of this model.
- Audio samples are the 16-bit quantised integers. The float conversion (`Math.round(x * 32767)`, the division back and the clamp to [-1, 1]) is not modelled. Its only effect that matters here is that a written value above 32767 reads back as 32767; `Audio.Embed` states that.
- Regular expressions are not modelled in general; the matchers the codecs use are written out by hand. The Czech-conjunctions method is the exception. Its two regular expressions (`\b` and `\w` word matches followed by a conjunction) are not modelled, so its match sites and the reader's comma flags are parameters.
- `TextConjunctions.RevealFromCzechConjunctions`: there is no round trip. The reader's regular expression has no space between the word and the conjunction, unlike the hider's, so which flags it finds is not derived from the hidden text. `TextConjunctions.AsciiRevealsWithReplacement` states what happens when the flags are the hider's bits.
- `TextSimilar.RevealWithSimilarLetters`: there is no round trip, because it does not hold. The hider writes the marker '§' as the single byte 0xA7. The reader decodes it as UTF-8 and gets U+FFFD instead, so no marker is cut; `TextSimilar.MarkerComesBackReplaced` exhibits this.
- `Audio.RevealOfHide` requires the samples that carry the message to be non-negative. Writing into a negative sample gives a value of at least 32768, which saturates to 32767 when it is quantised again, so its low bit reads back as 1 whatever was written. `Audio.LsbOfEmbed` states this.
- `TextBacon.HideThenRevealBacon` covers only messages of at most 31 ASCII letters. Two of its cases do not round trip:
  - characters whose codes are not five symbols long, because the reader takes fixed groups of five;
  - longer messages, because the length prefix saturates at 31.
- `TextBacon.LowerCase` and `TextBacon.LowerForm` model `toLowerCase` only on the characters whose lower-case form has a code in the dictionary. These are the ASCII capitals, the Kelvin sign U+212A (to 'k'), the capital I with a dot above U+0130 (to 'i' and the combining dot above U+0307) and the Czech capitals of the dictionary. Any other character is left as it is, and its lower-case form has no code either. So the symbol string and the capacity check agree with the source, but the lower-cased text itself differs from JavaScript's for other capitals (a Greek capital, say).
- `TextDelimiters.HideThenRevealDelimiters` and `TextDelimiters.HideThenRevealBase64` are proved for the default markers only. With custom markers that overlap, the message does not come back; `TextDelimiters.OverlappingMarkersMisread` shows this.
- `TextSpacing.HideThenRevealWordSpacing` assumes a cover without hair spaces. A hair space already in the cover is read as a bit.
- `TextStego.HideThenRevealInText` covers the methods with an unconditional or simple round trip: delimiters, base64-delimiters, whitespace and multi-tag-bacon. The other methods' round trips are stated in their own modules.
- For the dispatchers, a missing marker argument (`undefined`) is the empty string: `hideWithDelimiters` and `revealWithDelimiters` treat both the same, as their default.
- `TextStego.HideInText` and `TextStego.RevealFromText` take the method name as a string. The source defaults an absent name (`undefined`) to `'delimiters'`; the model stands for that call by the name "delimiters", and `TextStego.MethodNamedIsName` selects the `Delimiters` method for it.
- `Uri.DecodeComponent`: a malformed escape gives `None`, standing for the `URIError` thrown. The error's text is not modelled.
- Strings are sequences of Unicode scalar values, and JavaScript strings are sequences of UTF-16 code units. The two agree for characters of the Basic Multilingual Plane. A character outside it counts as one in the model and as two in JavaScript, and lone surrogates cannot be written at all. The model gives this character's code point where JavaScript gives a surrogate. This matches JavaScript where it iterates code points (`for…of`, `Array.from`, `TextEncoder`). It differs where JavaScript counts or indexes code units:
  - `Bits.Codes` takes the code point. `Array.from(s).map(c => c.charCodeAt(0))` gives the high surrogate instead (text.js:203-204, 494-495, 672-673).
  - `Image.TextToBinary` takes the code point. The `charCodeAt(i)` loop of image.js:461-463 gives both 16-bit units instead.
  - `JsString.IndexOf`, `JsString.IndexOfStr`, `JsString.LastIndexOfStr` and `JsString.Substring` count characters, not code units.
  - `ImageText.HideTextInImage` writes `TEXT:1:` for a message such as "😀", which JavaScript frames as `TEXT:2:`. Its bits are those of 0x1F600, not of the two 16-bit units 0xD83D and 0xDE00.
  - The capacity counts of the text methods count characters.
- `parseInt` of a run of digits is an exact integer. Numbers beyond 2 to the 53rd, where a JavaScript number loses precision, are not modelled.
- `new Uint8ClampedArray(n)` for an `n` too large to allocate (a `RangeError`) is not modelled.
- `ImageView.DifferenceMap` takes the amplification as an integer; a fractional amplification is not modelled. Its inputs are well-formed buffers (`ValidImage`): four bytes per pixel, as every `ImageData` is.
- `ImageText.RevealTextFromImage` leaves out the `maxTotalCharsToDecode` breaks. They can never fire: the stream holds at most `floor(3 * pixels * bpc / 8)` characters, which is fewer than the limit.
- `ImagePicture.HideThenRevealImage` needs the header's bit length to be a multiple of `3 * bpc`. The reader's second pass starts at a whole pixel, so otherwise it reads from the wrong place.
- `Image.ReadBackShort`: when the bit count is not a multiple of `bpc`, the last channel holds its bits right-aligned. This matters for `bpc = 3`. That channel therefore reads back zeros first; the lemma states how, and the round trips require whole blocks.
- The `textStegoMethods` list is not modelled. It holds user-interface metadata: names, labels and descriptions.
