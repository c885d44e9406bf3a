/** The substitution map of the similar-letters method and the reverse map its reader builds
    from it. */
module SimilarTable {
  import opened Wrappers

  /** One pair of the substitution map: a character and its look-alike. */
  datatype LookAlike = LookAlike(original: char, substitute: char)

  /** The substitution map's entries, in the order `Object.entries` lists them. */
  function Entry(i: nat): LookAlike
    requires i < 21
  {
    match i
    case 0 => LookAlike('o', '0')
    case 1 => LookAlike('l', '1')
    case 2 => LookAlike('i', '1')
    case 3 => LookAlike('e', '€')
    case 4 => LookAlike('a', '@')
    case 5 => LookAlike('s', '5')
    case 6 => LookAlike('c', 'ç')
    case 7 => LookAlike('n', 'ñ')
    case 8 => LookAlike('u', 'ü')
    case 9 => LookAlike('y', '¥')
    case 10 => LookAlike('z', '2')
    case 11 => LookAlike('b', 'ß')
    case 12 => LookAlike('g', '9')
    case 13 => LookAlike('t', '7')
    case 14 => LookAlike('h', 'ћ')
    case 15 => LookAlike('r', 'ř')
    case 16 => LookAlike('č', 'ç')
    case 17 => LookAlike('ě', 'é')
    case 18 => LookAlike('š', '§')
    case 19 => LookAlike('ž', 'ž')
    case _ => LookAlike('ř', 'ř')
  }

  /** `Object.keys(substitutionMap).join('')`. */
  const Keys: string := "olieascnuyzbgthrčěšžř"

  /** The keys are the entries' originals, in order. */
  lemma {:induction false} KeysOfEntries()
    ensures |Keys| == 21 && forall i :: 0 <= i < 21 ==> Keys[i] == Entry(i).original
  {
    assert Keys[0] == Entry(0).original;
    assert Keys[1] == Entry(1).original;
    assert Keys[2] == Entry(2).original;
    assert Keys[3] == Entry(3).original;
    assert Keys[4] == Entry(4).original;
    assert Keys[5] == Entry(5).original;
    assert Keys[6] == Entry(6).original;
    assert Keys[7] == Entry(7).original;
    assert Keys[8] == Entry(8).original;
    assert Keys[9] == Entry(9).original;
    assert Keys[10] == Entry(10).original;
    assert Keys[11] == Entry(11).original;
    assert Keys[12] == Entry(12).original;
    assert Keys[13] == Entry(13).original;
    assert Keys[14] == Entry(14).original;
    assert Keys[15] == Entry(15).original;
    assert Keys[16] == Entry(16).original;
    assert Keys[17] == Entry(17).original;
    assert Keys[18] == Entry(18).original;
    assert Keys[19] == Entry(19).original;
    assert Keys[20] == Entry(20).original;
  }

  predicate IsKey(c: char)
  {
    c in Keys
  }

  /** `substitutionMap[c]`, looked up from entry `i` on. */
  function SubstituteFrom(i: nat, c: char): Option<char>
    requires i <= 21
    decreases 21 - i
  {
    if i == 21 then None
    else
      var e := Entry(i);
      if e.original == c then Some(e.substitute) else SubstituteFrom(i + 1, c)
  }

  /** The look-alike of a character of the map (the character itself for any other). */
  function Substitute(c: char): char
  {
    match SubstituteFrom(0, c)
    case Some(v) => v
    case None => c
  }

  /** `reverseMap[c]` once the first `n` entries have been entered: the original of the last
      of them whose original or look-alike is `c` (each entry writes both, later ones win). */
  function OriginalUpTo(n: nat, c: char): Option<char>
    requires n <= 21
  {
    if n == 0 then None
    else
      var e := Entry(n - 1);
      if e.original == c || e.substitute == c then Some(e.original) else OriginalUpTo(n - 1, c)
  }

  // The entries `reverseMap` and `substitutionMap` hold for the characters below.

  lemma {:induction false} ReverseOfSmallO()
    ensures OriginalUpTo(21, 'o') == Some('o')
  {
    assert OriginalUpTo(19, 'o') == Some('o');
    assert OriginalUpTo(17, 'o') == Some('o');
    assert OriginalUpTo(15, 'o') == Some('o');
    assert OriginalUpTo(13, 'o') == Some('o');
    assert OriginalUpTo(11, 'o') == Some('o');
    assert OriginalUpTo(9, 'o') == Some('o');
    assert OriginalUpTo(7, 'o') == Some('o');
    assert OriginalUpTo(5, 'o') == Some('o');
    assert OriginalUpTo(3, 'o') == Some('o');
    assert OriginalUpTo(1, 'o') == Some('o');
  }

  lemma {:induction false} ReverseOfZero()
    ensures OriginalUpTo(21, '0') == Some('o')
  {
    assert OriginalUpTo(19, '0') == Some('o');
    assert OriginalUpTo(17, '0') == Some('o');
    assert OriginalUpTo(15, '0') == Some('o');
    assert OriginalUpTo(13, '0') == Some('o');
    assert OriginalUpTo(11, '0') == Some('o');
    assert OriginalUpTo(9, '0') == Some('o');
    assert OriginalUpTo(7, '0') == Some('o');
    assert OriginalUpTo(5, '0') == Some('o');
    assert OriginalUpTo(3, '0') == Some('o');
    assert OriginalUpTo(1, '0') == Some('o');
  }

  lemma {:induction false} ReverseOfFive()
    ensures OriginalUpTo(21, '5') == Some('s')
  {
    assert OriginalUpTo(19, '5') == Some('s');
    assert OriginalUpTo(17, '5') == Some('s');
    assert OriginalUpTo(15, '5') == Some('s');
    assert OriginalUpTo(13, '5') == Some('s');
    assert OriginalUpTo(11, '5') == Some('s');
    assert OriginalUpTo(9, '5') == Some('s');
    assert OriginalUpTo(7, '5') == Some('s');
  }

  lemma {:induction false} SubstituteOfZCaron()
    ensures SubstituteFrom(0, 'ž') == Some('ž')
  {
    assert SubstituteFrom(18, 'ž') == Some('ž');
    assert SubstituteFrom(16, 'ž') == Some('ž');
    assert SubstituteFrom(14, 'ž') == Some('ž');
    assert SubstituteFrom(12, 'ž') == Some('ž');
    assert SubstituteFrom(10, 'ž') == Some('ž');
    assert SubstituteFrom(8, 'ž') == Some('ž');
    assert SubstituteFrom(6, 'ž') == Some('ž');
    assert SubstituteFrom(4, 'ž') == Some('ž');
    assert SubstituteFrom(2, 'ž') == Some('ž');
  }

  lemma {:induction false} SubstituteOfRCaron()
    ensures SubstituteFrom(0, 'ř') == Some('ř')
  {
    assert SubstituteFrom(19, 'ř') == Some('ř');
    assert SubstituteFrom(17, 'ř') == Some('ř');
    assert SubstituteFrom(15, 'ř') == Some('ř');
    assert SubstituteFrom(13, 'ř') == Some('ř');
    assert SubstituteFrom(11, 'ř') == Some('ř');
    assert SubstituteFrom(9, 'ř') == Some('ř');
    assert SubstituteFrom(7, 'ř') == Some('ř');
    assert SubstituteFrom(5, 'ř') == Some('ř');
    assert SubstituteFrom(3, 'ř') == Some('ř');
    assert SubstituteFrom(1, 'ř') == Some('ř');
  }
}
