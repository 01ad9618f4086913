/** The one-to-one Hiragana to Katakana shift. */
module HiraganaToKatakana {
  import opened Constants
  import opened Scriber

  /** One character: a Hiragana code point moves up by the kana offset, anything else is kept. */
  function ToKatakanaChar(c: char): (r: char)
    ensures IsCharHiragana(c) ==> IsCharKatakana(r) && r as int == c as int + 0x60
    ensures !IsCharHiragana(c) ==> r == c
    ensures !IsCharHiragana(r)
  {
    if IsCharHiragana(c) then (c as int + KANA_OFFSET) as char else c
  }

  /** The whole string, position by position. */
  function ToKatakana(s: string): (r: string)
    ensures |r| == |s|
    ensures forall i :: 0 <= i < |s| ==> r[i] == ToKatakanaChar(s[i])
  {
    seq(|s|, i requires 0 <= i < |s| => ToKatakanaChar(s[i]))
  }

  /** `HiraganaToKatakanaConverter.convert`. */
  method Convert(hiragana: string) returns (katakana: string)
    ensures katakana == ToKatakana(hiragana)
  {
    katakana := "";
    for i := 0 to |hiragana|
      invariant katakana == ToKatakana(hiragana[..i])
    {
      var hiraganaChar := hiragana[i];
      if IsCharHiragana(hiraganaChar) {
        var unicode := hiraganaChar as int;
        unicode := unicode + (KATAKANA_START - HIRAGANA_START);
        katakana := katakana + [unicode as char];
      } else {
        katakana := katakana + [hiraganaChar];
      }
    }
    assert hiragana[..|hiragana|] == hiragana;
  }

  /** No Hiragana-range character survives the shift. */
  lemma NoHiraganaRemains(s: string)
    ensures forall i :: 0 <= i < |s| ==> !IsCharHiragana(ToKatakana(s)[i])
  {
  }

  /** Converting an already converted string changes nothing. */
  lemma Idempotent(s: string)
    ensures ToKatakana(ToKatakana(s)) == ToKatakana(s)
  {
  }
}
