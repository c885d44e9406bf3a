/** The JavaScript string operations the codecs rely on: decimal printing and parsing of
    counters, `\d` runs as the regular expressions match them, and `indexOf`. They are stated
    on Dafny strings, whose characters are Unicode scalar values; within the Basic
    Multilingual Plane these are the UTF-16 code units JavaScript counts. */
module JsString {
  import Bits

  /** `\d`: an ASCII decimal digit. */
  predicate IsDigit(c: char)
  {
    '0' <= c <= '9'
  }

  predicate AllDigits(s: string)
  {
    forall i :: 0 <= i < |s| ==> IsDigit(s[i])
  }

  function DigitChar(d: nat): (c: char)
    requires d < 10
    ensures IsDigit(c) && c as int - '0' as int == d
  {
    ('0' as int + d) as char
  }

  /** `${n}` for a non-negative integer: its decimal digits without leading zeros. */
  function NatToString(n: nat): (s: string)
    ensures |s| >= 1 && AllDigits(s)
    ensures |s| > 1 ==> s[0] != '0'
  {
    if n < 10 then [DigitChar(n)] else NatToString(n / 10) + [DigitChar(n % 10)]
  }

  /** `parseInt(s)` of a string of digits, as an exact integer. */
  function DecimalValue(s: string): nat
    requires AllDigits(s)
  {
    if s == [] then 0 else 10 * DecimalValue(s[..|s| - 1]) + (s[|s| - 1] as int - '0' as int)
  }

  lemma {:induction false} DecimalValueOfNatToString(n: nat)
    ensures DecimalValue(NatToString(n)) == n
  {
    if n >= 10 {
      var s := NatToString(n);
      assert s[..|s| - 1] == NatToString(n / 10);
      DecimalValueOfNatToString(n / 10);
    }
  }

  /** The end of the run of digits that starts at `i`: the first index at or after `i` that
      holds no digit, or the length of `s`. A greedy `\d+` matches exactly this run. */
  function DigitRun(s: string, i: nat): (e: nat)
    requires i <= |s|
    ensures i <= e <= |s| && (forall j :: i <= j < e ==> IsDigit(s[j]))
    ensures e < |s| ==> !IsDigit(s[e])
    decreases |s| - i
  {
    if i == |s| || !IsDigit(s[i]) then i else DigitRun(s, i + 1)
  }

  /** A run that ends inside a prefix ends at the same place in every extension. */
  lemma {:induction false} DigitRunPrefix(p: string, s: string, i: nat)
    requires p <= s && i <= |p| && DigitRun(p, i) < |p|
    ensures DigitRun(s, i) == DigitRun(p, i)
    decreases |p| - i
  {
    if IsDigit(p[i]) {
      DigitRunPrefix(p, s, i + 1);
    }
  }

  /** A run of digits followed by a non-digit. */
  lemma {:induction false} DigitRunOf(s: string, i: nat, e: nat)
    requires i <= e < |s| && (forall j :: i <= j < e ==> IsDigit(s[j])) && !IsDigit(s[e])
    ensures DigitRun(s, i) == e
    decreases e - i
  {
    if i < e {
      DigitRunOf(s, i + 1, e);
    }
  }

  /** `s.indexOf(c, from)` for one character: the first index at or after `from` (clamped to
      the string) that holds `c`, or -1. */
  function IndexOf(s: string, c: char, from: int): (r: int)
    ensures -1 <= r < |s|
    ensures r >= 0 ==> s[r] == c && r >= from && forall j :: from <= j < r && 0 <= j ==> s[j] != c
    ensures r == -1 ==> forall j :: from <= j < |s| && 0 <= j ==> s[j] != c
    decreases |s| - from
  {
    if from < 0 then IndexOf(s, c, 0)
    else if from >= |s| then -1
    else if s[from] == c then from
    else IndexOf(s, c, from + 1)
  }

  /** `p` occurs in `s` at `j`. */
  predicate OccursAt(s: string, p: string, j: nat)
  {
    j + |p| <= |s| && s[j..j + |p|] == p
  }

  /** `s.indexOf(p, from)` for a search string: the first index at or after `from` where `p`
      occurs; an empty `p` is found at once, at `from` clamped to the string. */
  function IndexOfStr(s: string, p: string, from: nat): (r: int)
    ensures -1 <= r <= |s|
    ensures r >= 0 ==> OccursAt(s, p, r) && (from <= r || |p| == 0)
    ensures r >= 0 ==> forall j :: from <= j < r ==> !OccursAt(s, p, j)
    ensures r == -1 ==> forall j :: from <= j ==> !OccursAt(s, p, j)
    decreases |s| - from
  {
    if from + |p| > |s| then (if |p| == 0 then |s| else -1)
    else if s[from..from + |p|] == p then from
    else IndexOfStr(s, p, from + 1)
  }

  /** `s.includes(p)`. */
  predicate Includes(s: string, p: string)
  {
    IndexOfStr(s, p, 0) != -1
  }

  /** `s.includes(p)` holds exactly when `p` occurs somewhere in `s`. */
  lemma {:induction false} IncludesIff(s: string, p: string)
    ensures Includes(s, p) <==> exists j :: 0 <= j && OccursAt(s, p, j)
  {
    var r := IndexOfStr(s, p, 0);
    if r >= 0 {
      assert OccursAt(s, p, r);
    }
  }

  /** The first occurrence: `indexOf` finds `p` at `q` when it has no earlier occurrence. */
  lemma {:induction false} IndexOfStrAt(s: string, p: string, q: nat)
    requires OccursAt(s, p, q) && forall j :: 0 <= j < q ==> !OccursAt(s, p, j)
    ensures IndexOfStr(s, p, 0) == q
  {
  }

  /** `s.lastIndexOf(p)` for a non-empty `p`: the last index where `p` occurs, or -1. */
  function LastIndexOfStr(s: string, p: string): (r: int)
    requires |p| > 0
    ensures -1 <= r
    ensures r >= 0 ==> OccursAt(s, p, r) && forall j :: r < j ==> !OccursAt(s, p, j)
    ensures r == -1 ==> forall j :: 0 <= j ==> !OccursAt(s, p, j)
  {
    if |p| > |s| then -1 else LastIndexFrom(s, p, |s| - |p|)
  }

  function LastIndexFrom(s: string, p: string, k: nat): (r: int)
    requires |p| > 0 && k + |p| <= |s|
    ensures -1 <= r <= k
    ensures r >= 0 ==> OccursAt(s, p, r) && forall j :: r < j <= k ==> !OccursAt(s, p, j)
    ensures r == -1 ==> forall j :: 0 <= j <= k ==> !OccursAt(s, p, j)
  {
    if s[k..k + |p|] == p then k
    else if k == 0 then -1
    else LastIndexFrom(s, p, k - 1)
  }

  /** `s.substring(a, b)`: both ends clamped to the string, the smaller one first. */
  function Substring(s: string, a: int, b: int): (r: string)
    ensures var lo := Bits.Min(Clamp(a, |s|), Clamp(b, |s|));
            var hi := Bits.Max(Clamp(a, |s|), Clamp(b, |s|));
            r == s[lo..hi]
  {
    var x, y := Clamp(a, |s|), Clamp(b, |s|);
    if x <= y then s[x..y] else s[y..x]
  }

  function Clamp(a: int, n: nat): (r: nat)
    ensures r <= n
  {
    if a < 0 then 0 else if a > n then n else a
  }

  /** `s.split(c)` for a one-character separator: the pieces between the separators, at least
      one. */
  function Split(s: string, c: char): (r: seq<string>)
    ensures |r| >= 1
    ensures forall i, j :: 0 <= i < |r| && 0 <= j < |r[i]| ==> r[i][j] != c
    decreases |s|
  {
    var k := IndexOf(s, c, 0);
    if k == -1 then [s] else [s[..k]] + Split(s[k + 1..], c)
  }

  /** `parts.join(c)`. */
  function Join(parts: seq<string>, c: char): string
    requires |parts| >= 1
    decreases |parts|
  {
    if |parts| == 1 then parts[0] else parts[0] + [c] + Join(parts[1..], c)
  }

  /** Splitting and joining again gives the text back. */
  lemma {:induction false} JoinOfSplit(s: string, c: char)
    ensures Join(Split(s, c), c) == s
    decreases |s|
  {
    var k := IndexOf(s, c, 0);
    if k != -1 {
      JoinOfSplit(s[k + 1..], c);
      assert s == s[..k] + [c] + s[k + 1..];
    }
  }

  /** Joining pieces that hold no separator and splitting again gives the pieces back. */
  lemma {:induction false} SplitOfJoin(parts: seq<string>, c: char)
    requires |parts| >= 1
    requires forall i, j :: 0 <= i < |parts| && 0 <= j < |parts[i]| ==> parts[i][j] != c
    ensures Split(Join(parts, c), c) == parts
    decreases |parts|
  {
    var s := Join(parts, c);
    if |parts| == 1 {
      assert IndexOf(s, c, 0) == -1;
    } else {
      var p := parts[0];
      assert s == p + [c] + Join(parts[1..], c);
      assert s[|p|] == c;
      assert IndexOf(s, c, 0) == |p|;
      assert s[..|p|] == p;
      assert s[|p| + 1..] == Join(parts[1..], c);
      SplitOfJoin(parts[1..], c);
      assert parts == [p] + parts[1..];
    }
  }

  /** `WhiteSpace` and `LineTerminator` of ECMAScript, the characters that `trim` removes and
      that the regular expression class `\s` matches. */
  predicate IsWhiteSpace(c: char)
  {
    c == '\t' || c == '\U{000B}' || c == '\U{000C}' || c == ' ' || c == '\U{00A0}'
    || c == '\U{FEFF}' || c == '\U{1680}' || ('\U{2000}' <= c <= '\U{200A}')
    || c == '\U{202F}' || c == '\U{205F}' || c == '\U{3000}'
    || c == '\n' || c == '\r' || c == '\U{2028}' || c == '\U{2029}'
  }

  /** `s.trimEnd()`: the text without its trailing white space. */
  function TrimEnd(s: string): (r: string)
    ensures r <= s && (|r| == 0 || !IsWhiteSpace(r[|r| - 1]))
    ensures forall i :: |r| <= i < |s| ==> IsWhiteSpace(s[i])
  {
    if |s| > 0 && IsWhiteSpace(s[|s| - 1]) then TrimEnd(s[..|s| - 1]) else s
  }

  /** `/[a-zA-Z]/`: an ASCII letter. */
  predicate IsAsciiLetter(c: char)
  {
    ('a' <= c <= 'z') || ('A' <= c <= 'Z')
  }
}
