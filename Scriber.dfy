/** Script classification of single characters and whole strings. */
module Scriber {
  import opened Constants

  /** The inclusive range check every script predicate is built from. */
  predicate IsCharInRange(c: char, start: int, end: int) {
    start <= c as int <= end
  }

  predicate IsCharHiragana(c: char) {
    IsCharInRange(c, HIRAGANA_START, HIRAGANA_END)
  }

  predicate IsCharKatakana(c: char) {
    IsCharInRange(c, KATAKANA_START, KATAKANA_END)
  }

  predicate IsCharJapanesePunctuation(c: char) {
    IsCharInRange(c, JAPANESE_PUNCTUATION_START, JAPANESE_PUNCTUATION_END)
  }

  predicate IsCharKana(c: char) {
    IsCharHiragana(c) || IsCharKatakana(c)
  }

  /** Common Kanji first, the rare block second, as the nested checks of the source. */
  predicate IsCharKanji(c: char) {
    if !IsCharInRange(c, KANJI_START, KANJI_END) then
      IsCharInRange(c, RARE_KANJI_START, RARE_KANJI_END)
    else
      true
  }

  lemma CharClasses(c: char)
    ensures IsCharHiragana(c) <==> 0x3040 <= c as int <= 0x309F
    ensures IsCharKatakana(c) <==> 0x30A0 <= c as int <= 0x30FF
    ensures IsCharKanji(c) <==> (0x4E00 <= c as int <= 0x9FAF || 0x3400 <= c as int <= 0x4DBF)
    ensures !(IsCharHiragana(c) && IsCharKatakana(c))
    ensures IsCharJapanesePunctuation(c) ==> !IsCharKana(c) && !IsCharKanji(c)
    ensures IsCharKana(c) ==> !IsCharKanji(c)
  {
  }

  lemma PunctuationIsNotKana()
    ensures !IsCharKana('\U{3000}') && !IsCharKana('【') && !IsCharKana('】') && !IsCharKana('。')
    ensures IsCharJapanesePunctuation('\U{3000}') && IsCharJapanesePunctuation('【')
    ensures IsCharHiragana('し') && IsCharKatakana('エ') && IsCharKanji('日')
    ensures !IsCharKana(' ') && !IsCharKana('.') && !IsCharKanji('λ')
  {
  }

  /** Every character of `s` satisfies `p`: the meaning of each all-characters string predicate. */
  predicate All(s: string, p: char -> bool) {
    forall i :: 0 <= i < |s| ==> p(s[i])
  }

  /** The scan shared by the string predicates: stops at the first character that fails `p`. */
  method AllChars(s: string, p: char -> bool) returns (b: bool)
    ensures b <==> forall i :: 0 <= i < |s| ==> p(s[i])
  {
    for i := 0 to |s|
      invariant forall j :: 0 <= j < i ==> p(s[j])
    {
      if !p(s[i]) {
        return false;
      }
    }
    return true;
  }

  method IsHiragana(s: string) returns (b: bool)
    ensures b <==> forall i :: 0 <= i < |s| ==> IsCharHiragana(s[i])
  {
    b := AllChars(s, IsCharHiragana);
  }

  method IsKatakana(s: string) returns (b: bool)
    ensures b <==> forall i :: 0 <= i < |s| ==> IsCharKatakana(s[i])
  {
    b := AllChars(s, IsCharKatakana);
  }

  method IsKanji(s: string) returns (b: bool)
    ensures b <==> forall i :: 0 <= i < |s| ==> IsCharKanji(s[i])
  {
    b := AllChars(s, IsCharKanji);
  }

  method IsJapanesePunctuation(s: string) returns (b: bool)
    ensures b <==> forall i :: 0 <= i < |s| ==> IsCharJapanesePunctuation(s[i])
  {
    b := AllChars(s, IsCharJapanesePunctuation);
  }

  /** The regular expression `\p{ASCII}+`, matched over the whole string. */
  predicate MatchesAsciiPlus(s: string) {
    s != [] && s[0] as int <= 0x7F && (|s| == 1 || MatchesAsciiPlus(s[1..]))
  }

  /** `isAscii`: at least one character, and every character at most U+007F. */
  function IsAscii(s: string): (b: bool)
    ensures b <==> |s| > 0 && forall i :: 0 <= i < |s| ==> s[i] as int <= 0x7F
  {
    AsciiPlusMeaning(s);
    MatchesAsciiPlus(s)
  }

  lemma {:induction false} AsciiPlusMeaning(s: string)
    ensures MatchesAsciiPlus(s) <==> |s| > 0 && forall i :: 0 <= i < |s| ==> s[i] as int <= 0x7F
  {
    if |s| > 1 {
      AsciiPlusMeaning(s[1..]);
      assert forall i :: 1 <= i < |s| ==> s[i] == s[1..][i - 1];
    }
  }

  /** The characters of `s` that belong to the script `inScript`, in order. */
  function Filter(s: string, inScript: char -> bool): (r: string)
    ensures |r| <= |s|
    ensures forall i :: 0 <= i < |r| ==> inScript(r[i])
  {
    if s == [] then []
    else if inScript(s[0]) then [s[0]] + Filter(s[1..], inScript)
    else Filter(s[1..], inScript)
  }

  /** The matcher loop over a one-character pattern: each match found, left to right, is appended to the result. */
  method CollectMatches(s: string, inScript: char -> bool) returns (r: string)
    ensures r == Filter(s, inScript)
  {
    r := "";
    var pos := 0;
    while pos < |s|
      invariant 0 <= pos <= |s|
      invariant r + Filter(s[pos..], inScript) == Filter(s, inScript)
    {
      // find(): advance to the next character of the script
      while pos < |s| && !inScript(s[pos])
        invariant 0 <= pos <= |s|
        invariant r + Filter(s[pos..], inScript) == Filter(s, inScript)
      {
        FilterFrom(s, inScript, pos);
        pos := pos + 1;
      }
      if pos < |s| {
        FilterFrom(s, inScript, pos);
        assert (r + [s[pos]]) + Filter(s[pos + 1..], inScript) == r + ([s[pos]] + Filter(s[pos + 1..], inScript));
        r := r + [s[pos]];
        pos := pos + 1;
      }
    }
  }

  /** The filter of a suffix: its first character, when kept, then the filter of the rest. */
  lemma FilterFrom(s: string, inScript: char -> bool, pos: int)
    requires 0 <= pos < |s|
    ensures Filter(s[pos..], inScript)
            == (if inScript(s[pos]) then [s[pos]] else []) + Filter(s[pos + 1..], inScript)
  {
    assert s[pos..][1..] == s[pos + 1..];
  }

  /** `getHiragana`; `isHiraganaScript` stands for Unicode's Hiragana script property. */
  method GetHiragana(s: string, isHiraganaScript: char -> bool) returns (r: string)
    ensures r == Filter(s, isHiraganaScript)
  {
    r := CollectMatches(s, isHiraganaScript);
  }

  /** `getKatakana`; `isKatakanaScript` stands for Unicode's Katakana script property. */
  method GetKatakana(s: string, isKatakanaScript: char -> bool) returns (r: string)
    ensures r == Filter(s, isKatakanaScript)
  {
    r := CollectMatches(s, isKatakanaScript);
  }

  /** Filtering distributes over concatenation, so the kept characters stay in input order. */
  lemma {:induction false} FilterConcat(s: string, t: string, inScript: char -> bool)
    ensures Filter(s + t, inScript) == Filter(s, inScript) + Filter(t, inScript)
  {
    if s != [] {
      assert (s + t)[0] == s[0] && (s + t)[1..] == s[1..] + t;
      FilterConcat(s[1..], t, inScript);
    } else {
      assert s + t == t;
    }
  }

  /** Filtering twice keeps what filtering once kept. */
  lemma {:induction false} FilterIdempotent(s: string, inScript: char -> bool)
    ensures Filter(Filter(s, inScript), inScript) == Filter(s, inScript)
  {
    if s != [] {
      FilterIdempotent(s[1..], inScript);
    }
  }

  /** Nothing is kept exactly when no character belongs to the script. */
  lemma {:induction false} FilterEmpty(s: string, inScript: char -> bool)
    ensures Filter(s, inScript) == [] <==> forall i :: 0 <= i < |s| ==> !inScript(s[i])
  {
    if s != [] {
      FilterEmpty(s[1..], inScript);
      assert forall i :: 1 <= i < |s| ==> s[i] == s[1..][i - 1];
    }
  }

  /** A string wholly in the script is kept whole. */
  lemma {:induction false} FilterKeepsAll(s: string, inScript: char -> bool)
    requires forall i :: 0 <= i < |s| ==> inScript(s[i])
    ensures Filter(s, inScript) == s
  {
    if s != [] {
      FilterKeepsAll(s[1..], inScript);
    }
  }

  method ScriberScenarios()
  {
    var b := IsHiragana("しょう");
    assert b;
    b := IsHiragana("しょ う");
    assert !IsCharHiragana("しょ う"[2]);
    assert !b;
    b := IsHiragana("");
    assert b;
    assert !IsAscii("");
    assert IsAscii("Roma ji");
  }
}
