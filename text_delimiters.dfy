/** The two marker methods of text steganography: the message written out between a start
    and an end marker after the cover text, either plainly or as Base64 of its URI encoding,
    scrambled by swapping neighbouring characters and hidden between HTML comment markers. */
module TextDelimiters {
  import opened Wrappers
  import opened Bits
  import opened JsString
  import Base64
  import Uri

  const DefaultStart: string := "{{START}}"
  const DefaultEnd: string := "{{END}}"
  const CommentStart: string := "<!-- "
  const CommentEnd: string := " -->"

  const MarkersInUse: string := "V textu nebo tajné zprávě se již nacházejí použité oddělovače."
  const MarkersInCover: string := "V textu se již nacházejí použité oddělovače."
  const UndecodableBody: string :=
    "Nepodařilo se dekódovat skrytou zprávu. Ujistěte se, že používáte správný typ oddělovačů."

  /** `s || fallback` for a marker argument: an empty (or absent) marker means the default. */
  function OrDefault(s: string, fallback: string): string
  {
    if s == "" then fallback else s
  }

  // ---------------------------------------------------------------- plain markers

  /** `hideWithDelimiters`: the cover, the start marker, the message and the end marker, after
      checking that neither marker already occurs in the cover or in the message. */
  function HideWithDelimiters(cover: string, message: string, start: string, end: string)
    : (r: Result<string>)
  {
    var s := OrDefault(start, DefaultStart);
    var e := OrDefault(end, DefaultEnd);
    if Includes(cover, s) || Includes(cover, e) || Includes(message, s) || Includes(message, e)
    then Err(MarkersInUse)
    else Ok(cover + s + message + e)
  }

  /** `revealWithDelimiters`: the text between the first start marker and the first end marker
      (as `substring` takes it), or `None` when either is missing or the end does not come
      after the start. */
  function RevealWithDelimiters(text: string, start: string, end: string): (r: Option<string>)
  {
    var s := OrDefault(start, DefaultStart);
    var e := OrDefault(end, DefaultEnd);
    var i := IndexOfStr(text, s, 0);
    var j := IndexOfStr(text, e, 0);
    if i != -1 && j != -1 && j > i then Some(Substring(text, i + |s|, j)) else None
  }

  /** Hiding fails exactly when a marker (the default one, for an empty argument) already
      occurs in the cover or in the message; otherwise the cover is kept as the text's
      prefix and the message follows the start marker. */
  lemma {:induction false} HideWithDelimitersOutcome(cover: string, message: string, start: string, end: string)
    ensures var s := OrDefault(start, DefaultStart);
            var e := OrDefault(end, DefaultEnd);
            var r := HideWithDelimiters(cover, message, start, end);
            (r.Err? <==> (exists j :: 0 <= j && (OccursAt(cover, s, j) || OccursAt(cover, e, j)
                                                 || OccursAt(message, s, j) || OccursAt(message, e, j))))
            && (r.Ok? ==> r.value[..|cover|] == cover
                          && r.value[|cover| + |s|..|r.value| - |e|] == message)
  {
    var s := OrDefault(start, DefaultStart);
    var e := OrDefault(end, DefaultEnd);
    IncludesIff(cover, s);
    IncludesIff(cover, e);
    IncludesIff(message, s);
    IncludesIff(message, e);
  }

  /** Without a start marker there is nothing to reveal. */
  lemma {:induction false} RevealWithoutStart(text: string)
    requires forall j :: 0 <= j ==> !OccursAt(text, DefaultStart, j)
    ensures RevealWithDelimiters(text, "", "") == None
  {
  }

  /** For any markers, nothing is revealed when the start marker is missing, when the end
      marker is missing, or when an end marker comes before every start marker. */
  lemma {:induction false} RevealWithoutPair(text: string, start: string, end: string)
    ensures var s := OrDefault(start, DefaultStart);
            (forall k :: 0 <= k ==> !OccursAt(text, s, k))
            ==> RevealWithDelimiters(text, start, end) == None
    ensures var e := OrDefault(end, DefaultEnd);
            (forall k :: 0 <= k ==> !OccursAt(text, e, k))
            ==> RevealWithDelimiters(text, start, end) == None
    ensures var s := OrDefault(start, DefaultStart);
            var e := OrDefault(end, DefaultEnd);
            (exists k :: 0 <= k && OccursAt(text, e, k) && forall m :: 0 <= m <= k ==> !OccursAt(text, s, m))
            ==> RevealWithDelimiters(text, start, end) == None
  {
    var s := OrDefault(start, DefaultStart);
    var e := OrDefault(end, DefaultEnd);
    var i := IndexOfStr(text, s, 0);
    var j := IndexOfStr(text, e, 0);
    if k :| 0 <= k && OccursAt(text, e, k) && forall m :: 0 <= m <= k ==> !OccursAt(text, s, m) {
      assert j != -1 && j <= k;
      assert i == -1 || i > k;
    }
  }

  /** `p` occurs in `t` at `j` inside the window `lo..hi` exactly when it occurs there in
      the window's text. */
  lemma {:induction false} OccursInWindow(t: string, lo: nat, hi: nat, p: string, j: nat)
    requires lo <= j && j + |p| <= hi <= |t|
    ensures OccursAt(t, p, j) <==> OccursAt(t[lo..hi], p, j - lo)
  {
    var w := t[lo..hi];
    assert w[j - lo..j - lo + |p|] == t[j..j + |p|] by {
      forall k | j <= k < j + |p|
        ensures w[k - lo] == t[k]
      {
      }
    }
  }

  /** A pattern does not occur where one of its characters differs from the text. */
  lemma {:induction false} Mismatch(t: string, p: string, j: nat, k: nat)
    requires k < |p| && (j + |p| <= |t| ==> t[j + k] != p[k])
    ensures !OccursAt(t, p, j)
  {
    if j + |p| <= |t| {
      assert t[j..j + |p|][k] == t[j + k];
    }
  }

  /** With the default markers, the start marker is first found right after the cover. */
  lemma {:induction false} FirstDefaultStart(cover: string, rest: string)
    requires forall j :: 0 <= j ==> !OccursAt(cover, DefaultStart, j)
    ensures IndexOfStr(cover + DefaultStart + rest, DefaultStart, 0) == |cover|
  {
    var t := cover + DefaultStart + rest;
    var n := |cover|;
    assert t[n..n + 9] == DefaultStart;
    forall j | 0 <= j < n
      ensures !OccursAt(t, DefaultStart, j)
    {
      if j + 9 <= n {
        OccursInWindow(t, 0, n, DefaultStart, j);
        assert t[0..n] == cover;
      } else if j == n - 1 {
        assert t[j + 2] == DefaultStart[1];
        Mismatch(t, DefaultStart, j, 2);
      } else {
        assert t[j + 8] == DefaultStart[j + 8 - n];
        Mismatch(t, DefaultStart, j, 8);
      }
    }
    IndexOfStrAt(t, DefaultStart, n);
  }

  /** With the default markers, and a message free of both, the end marker is first found
      right after the message. */
  lemma {:induction false} FirstDefaultEnd(cover: string, message: string)
    requires forall j :: 0 <= j ==> !OccursAt(cover, DefaultEnd, j)
    requires forall j :: 0 <= j ==> !OccursAt(message, DefaultEnd, j)
    ensures var t := cover + DefaultStart + message + DefaultEnd;
            IndexOfStr(t, DefaultEnd, 0) == |cover| + 9 + |message|
  {
    var t := cover + DefaultStart + message + DefaultEnd;
    var n := |cover|;
    var q := n + 9 + |message|;
    assert t[q..q + 7] == DefaultEnd;
    forall j | 0 <= j < q
      ensures !OccursAt(t, DefaultEnd, j)
    {
      EndNotBefore(cover, message, j);
    }
    IndexOfStrAt(t, DefaultEnd, q);
  }

  /** The end marker is not found before the place it was written at. */
  lemma {:induction false} EndNotBefore(cover: string, message: string, j: nat)
    requires forall j :: 0 <= j ==> !OccursAt(cover, DefaultEnd, j)
    requires forall j :: 0 <= j ==> !OccursAt(message, DefaultEnd, j)
    requires j < |cover| + 9 + |message|
    ensures !OccursAt(cover + DefaultStart + message + DefaultEnd, DefaultEnd, j)
  {
    var t := cover + DefaultStart + message + DefaultEnd;
    var n := |cover|;
    var q := n + 9 + |message|;
    if j + 7 <= n {
      OccursInWindow(t, 0, n, DefaultEnd, j);
      assert t[0..n] == cover;
    } else if j < n {
      // the window ends inside "{{STAR", where there is no '}'
      assert t[j + 6] == DefaultStart[j + 6 - n];
      Mismatch(t, DefaultEnd, j, 6);
    } else if j < n + 9 {
      assert t[j] == DefaultStart[j - n];
      if j <= n + 1 {
        assert t[j + 2] == DefaultStart[j - n + 2];
        Mismatch(t, DefaultEnd, j, 2);
      } else {
        Mismatch(t, DefaultEnd, j, 0);
      }
    } else if j + 7 <= q {
      OccursInWindow(t, n + 9, q, DefaultEnd, j);
      assert t[n + 9..q] == message;
    } else if j == q - 1 {
      assert t[j + 2] == DefaultEnd[1];
      Mismatch(t, DefaultEnd, j, 2);
    } else {
      assert t[j + 6] == DefaultEnd[j + 6 - q];
      Mismatch(t, DefaultEnd, j, 6);
    }
  }

  /** With the default markers, revealing gives back exactly the message that was hidden. */
  lemma {:induction false} HideThenRevealDelimiters(cover: string, message: string)
    requires HideWithDelimiters(cover, message, "", "").Ok?
    ensures RevealWithDelimiters(HideWithDelimiters(cover, message, "", "").value, "", "")
            == Some(message)
  {
    var t := cover + DefaultStart + message + DefaultEnd;
    FirstDefaultStart(cover, message + DefaultEnd);
    assert cover + DefaultStart + (message + DefaultEnd) == t;
    FirstDefaultEnd(cover, message);
    assert t[|cover| + 9..|cover| + 9 + |message|] == message;
  }

  /** The round trip needs an end marker that cannot be found inside the start marker: with
      the start marker "aba" and the end marker "ba", hiding an empty message reveals "ba",
      because the end marker is first found within the start marker and `substring` swaps
      the reversed bounds. */
  lemma {:induction false} OverlappingMarkersMisread()
    ensures HideWithDelimiters("x", "", "aba", "ba") == Ok("xababa")
    ensures RevealWithDelimiters("xababa", "aba", "ba") == Some("ba")
  {
    var t := "xababa";
    assert "x" + "aba" + "" + "ba" == t;
    assert t[0..3][0] == 'x' && t[1..4] == "aba";
    assert IndexOfStr(t, "aba", 0) == 1;
    assert t[0..2][0] == 'x' && t[1..3][0] == 'a' && t[2] == 'b' && t[3] == 'a';
    assert t[2..4] == ['b', 'a'];
    assert IndexOfStr(t, "ba", 0) == 2;
    assert Substring(t, 4, 2) == t[2..4];
  }

  // ---------------------------------------------------------------- Base64 between comments

  /** The index whose character lands at `k` when neighbouring characters are swapped: pairs
      (0,1), (2,3), ... trade places and a final unpaired character stays. */
  function PairPartner(k: nat, n: nat): (r: nat)
    requires k < n
    ensures r < n
  {
    if k % 2 == 1 then k - 1 else if k + 1 < n then k + 1 else k
  }

  /** What `obfuscateBase64` (and `deobfuscateBase64`, the same function) computes. */
  function PairSwapped(s: string): (r: string)
    ensures |r| == |s|
  {
    seq(|s|, k requires 0 <= k < |s| => s[PairPartner(k, |s|)])
  }

  /** `obfuscateBase64`: the loop that swaps each pair of neighbouring characters. */
  method Obfuscate(s: string) returns (r: string)
    ensures r == PairSwapped(s)
  {
    r := "";
    var i := 0;
    while i < |s|
      invariant i <= |s| + 1 && i % 2 == 0
      invariant |r| == if i <= |s| then i else |s|
      invariant forall k :: 0 <= k < |r| ==> r[k] == s[PairPartner(k, |s|)]
    {
      if i + 1 < |s| {
        r := r + [s[i + 1], s[i]];
      } else {
        r := r + [s[i]];
      }
      i := i + 2;
    }
  }

  /** Swapping twice restores the string: the obfuscation is its own inverse. */
  lemma {:induction false} PairSwappedInvolution(s: string)
    ensures PairSwapped(PairSwapped(s)) == s
  {
    var t := PairSwapped(PairSwapped(s));
    forall k | 0 <= k < |s|
      ensures t[k] == s[k]
    {
      assert PairPartner(PairPartner(k, |s|), |s|) == k;
    }
  }

  /** Swapping moves characters and makes none: every character of the result is one of the
      original's. */
  lemma {:induction false} PairSwappedChars(s: string, k: nat)
    requires k < |s|
    ensures PairSwapped(s)[k] in s
  {
  }

  /** `hideWithBase64Delimiters` as a value: the cover must hold neither marker; the message
      is URI-encoded, turned to Base64 and scrambled. */
  function HiddenBase64(cover: string, message: string, start: string, end: string)
    : Result<string>
  {
    var s := OrDefault(start, CommentStart);
    var e := OrDefault(end, CommentEnd);
    if Includes(cover, s) || Includes(cover, e) then Err(MarkersInCover)
    else match Base64.Btoa(Uri.EncodeComponent(message))
      case Err(msg) => Err(msg)
      case Ok(b) => Ok(cover + s + PairSwapped(b) + e)
  }

  /** `hideWithBase64Delimiters`. */
  method HideWithBase64Delimiters(cover: string, message: string, start: string, end: string)
    returns (r: Result<string>)
    ensures r == HiddenBase64(cover, message, start, end)
  {
    var s := OrDefault(start, CommentStart);
    var e := OrDefault(end, CommentEnd);
    if Includes(cover, s) || Includes(cover, e) {
      return Err(MarkersInCover);
    }
    var b64 := Base64.Btoa(Uri.EncodeComponent(message));
    if b64.Err? {
      return Err(b64.message);
    }
    var body := Obfuscate(b64.value);
    r := Ok(cover + s + body + e);
  }

  /** `revealWithBase64Delimiters` as a value: `Ok(None)` without a marked body, the message
      when the unscrambled body decodes, and the decoding error when `atob` or
      `decodeURIComponent` throws. */
  function RevealedBase64(text: string, start: string, end: string): Result<Option<string>>
  {
    match MarkedBody(text, OrDefault(start, CommentStart), OrDefault(end, CommentEnd))
    case None => Ok(None)
    case Some(body) => DecodedBody(PairSwapped(body))
  }

  /** What `substring` cuts out between the first start marker `s` and the first end marker
      `e`, when both occur and the end marker's index is the larger. */
  function MarkedBody(text: string, s: string, e: string): Option<string>
  {
    var i := IndexOfStr(text, s, 0);
    var j := IndexOfStr(text, e, 0);
    if i != -1 && j != -1 && j > i then Some(Substring(text, i + |s|, j)) else None
  }

  /** The message an unscrambled body decodes to, or the error when `atob` or
      `decodeURIComponent` throws. */
  function DecodedBody(b64: string): Result<Option<string>>
  {
    match Base64.Atob(b64)
    case None => Err(UndecodableBody)
    case Some(u) =>
      match Uri.DecodeComponent(u)
      case None => Err(UndecodableBody)
      case Some(m) => Ok(Some(m))
  }

  /** `revealWithBase64Delimiters`. */
  method RevealWithBase64Delimiters(text: string, start: string, end: string)
    returns (r: Result<Option<string>>)
    ensures r == RevealedBase64(text, start, end)
  {
    var s := OrDefault(start, CommentStart);
    var e := OrDefault(end, CommentEnd);
    var i := IndexOfStr(text, s, 0);
    var j := IndexOfStr(text, e, 0);
    if !(i != -1 && j != -1 && j > i) {
      assert MarkedBody(text, s, e) == None;
      return Ok(None);
    }
    assert MarkedBody(text, s, e) == Some(Substring(text, i + |s|, j));
    var b64 := Obfuscate(Substring(text, i + |s|, j));
    r := DecodedBody(b64);
  }

  /** The characters a scrambled Base64 body is made of. */
  predicate IsBodyChar(c: char)
  {
    Base64.IsAlphabet(c) || c == '='
  }

  /** The Base64 form of every message is accepted by `btoa`, and its scrambled body holds
      only alphabet characters and padding. */
  lemma {:induction false} BodyOfMessage(message: string)
    ensures var u := Uri.EncodeComponent(message);
            IsLatin1(u) && Base64.Btoa(u).Ok?
            && forall k :: 0 <= k < |Base64.Btoa(u).value|
                 ==> IsBodyChar(PairSwapped(Base64.Btoa(u).value)[k])
  {
    var u := Uri.EncodeComponent(message);
    Uri.EncodeComponentAscii(message);
    Base64.EncodeCharacters(Codes(u));
  }

  /** With the comment markers, hiding fails exactly when the cover already holds one of
      them; the message itself is never refused. */
  lemma {:induction false} HiddenBase64Outcome(cover: string, message: string)
    ensures HiddenBase64(cover, message, "", "").Err?
            <==> exists j :: 0 <= j && (OccursAt(cover, CommentStart, j)
                                        || OccursAt(cover, CommentEnd, j))
  {
    BodyOfMessage(message);
    IncludesIff(cover, CommentStart);
    IncludesIff(cover, CommentEnd);
  }

  lemma {:induction false} FirstCommentStart(cover: string, rest: string)
    requires forall j :: 0 <= j ==> !OccursAt(cover, CommentStart, j)
    ensures IndexOfStr(cover + CommentStart + rest, CommentStart, 0) == |cover|
  {
    var t := cover + CommentStart + rest;
    var n := |cover|;
    assert t[n..n + 5] == CommentStart;
    forall j | 0 <= j < n
      ensures !OccursAt(t, CommentStart, j)
    {
      if j + 5 <= n {
        OccursInWindow(t, 0, n, CommentStart, j);
        assert t[0..n] == cover;
      } else {
        assert t[j + 4] == CommentStart[j + 4 - n];
        Mismatch(t, CommentStart, j, 4);
      }
    }
    IndexOfStrAt(t, CommentStart, n);
  }

  lemma {:induction false} FirstCommentEnd(cover: string, body: string)
    requires forall j :: 0 <= j ==> !OccursAt(cover, CommentEnd, j)
    requires forall k :: 0 <= k < |body| ==> IsBodyChar(body[k])
    ensures var t := cover + CommentStart + body + CommentEnd;
            IndexOfStr(t, CommentEnd, 0) == |cover| + 5 + |body|
  {
    var t := cover + CommentStart + body + CommentEnd;
    var n := |cover|;
    var q := n + 5 + |body|;
    assert t[q..q + 4] == CommentEnd;
    forall j | 0 <= j < q
      ensures !OccursAt(t, CommentEnd, j)
    {
      if j + 4 <= n {
        OccursInWindow(t, 0, n, CommentEnd, j);
        assert t[0..n] == cover;
      } else if j < n {
        assert t[j + 3] == CommentStart[j + 3 - n];
        Mismatch(t, CommentEnd, j, 3);
      } else if j < n + 5 {
        assert t[j] == CommentStart[j - n];
        if j == n + 4 {
          assert t[j + 1] == if |body| == 0 then CommentEnd[0] else body[0];
          Mismatch(t, CommentEnd, j, 1);
        } else {
          Mismatch(t, CommentEnd, j, 0);
        }
      } else {
        assert t[j] == body[j - n - 5] && t[j] != ' ';
        Mismatch(t, CommentEnd, j, 0);
      }
    }
    IndexOfStrAt(t, CommentEnd, q);
  }

  /** Between the comment markers: the body a cover free of the markers frames is exactly
      the one `revealWithBase64Delimiters` cuts out. */
  lemma {:induction false} CommentFramed(cover: string, body: string)
    requires forall j :: 0 <= j ==> !OccursAt(cover, CommentStart, j)
    requires forall j :: 0 <= j ==> !OccursAt(cover, CommentEnd, j)
    requires forall k :: 0 <= k < |body| ==> IsBodyChar(body[k])
    ensures RevealedBase64(cover + CommentStart + body + CommentEnd, "", "")
            == DecodedBody(PairSwapped(body))
  {
    var t := cover + CommentStart + body + CommentEnd;
    FirstCommentStart(cover, body + CommentEnd);
    assert cover + CommentStart + (body + CommentEnd) == t;
    FirstCommentEnd(cover, body);
    assert t[|cover| + 5..|cover| + 5 + |body|] == body;
  }

  /** With the comment markers, every message that was hidden is revealed unchanged. */
  lemma {:induction false} HideThenRevealBase64(cover: string, message: string)
    requires HiddenBase64(cover, message, "", "").Ok?
    ensures RevealedBase64(HiddenBase64(cover, message, "", "").value, "", "")
            == Ok(Some(message))
  {
    var u := Uri.EncodeComponent(message);
    BodyOfMessage(message);
    IncludesIff(cover, CommentStart);
    IncludesIff(cover, CommentEnd);
    var b := Base64.Btoa(u).value;
    CommentFramed(cover, PairSwapped(b));
    PairSwappedInvolution(b);
    Base64.AtobOfBtoa(u);
    Uri.DecodeOfEncodeComponent(message);
  }
}
