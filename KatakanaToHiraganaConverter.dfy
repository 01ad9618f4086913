/** The one-to-one Katakana to Hiragana shift, and how it undoes the opposite shift. */
module KatakanaToHiragana {
  import opened Constants
  import opened Scriber
  import HiraganaToKatakana

  /** One character: a Katakana code point moves down by the kana offset, anything else is kept. */
  function ToHiraganaChar(c: char): (r: char)
    ensures IsCharKatakana(c) ==> IsCharHiragana(r) && r as int == c as int - 0x60
    ensures !IsCharKatakana(c) ==> r == c
    ensures !IsCharKatakana(r)
  {
    if IsCharKatakana(c) then (c as int + (HIRAGANA_START - KATAKANA_START)) as char else c
  }

  /** The whole string, position by position. */
  function ToHiragana(s: string): (r: string)
    ensures |r| == |s|
    ensures forall i :: 0 <= i < |s| ==> r[i] == ToHiraganaChar(s[i])
  {
    seq(|s|, i requires 0 <= i < |s| => ToHiraganaChar(s[i]))
  }

  /** `KatakanaToHiraganaConverter.convert`. */
  method Convert(kata: string) returns (hiragana: string)
    ensures hiragana == ToHiragana(kata)
  {
    hiragana := "";
    for i := 0 to |kata|
      invariant hiragana == ToHiragana(kata[..i])
    {
      var katakanaChar := kata[i];
      if IsCharKatakana(katakanaChar) {
        var unicode := katakanaChar as int;
        unicode := unicode + (HIRAGANA_START - KATAKANA_START);
        hiragana := hiragana + [unicode as char];
      } else {
        hiragana := hiragana + [katakanaChar];
      }
    }
    assert kata[..|kata|] == kata;
  }

  /** Converting an already converted string changes nothing. */
  lemma Idempotent(s: string)
    ensures ToHiragana(ToHiragana(s)) == ToHiragana(s)
  {
  }

  /** Mixed kana comes out as Hiragana only; every non-Katakana character stays where it was. */
  lemma MixedKanaBecomesHiragana(s: string)
    ensures forall i :: 0 <= i < |s| ==> !IsCharKatakana(ToHiragana(s)[i])
    ensures forall i :: 0 <= i < |s| && IsCharKana(s[i]) ==> IsCharHiragana(ToHiragana(s)[i])
    ensures forall i :: 0 <= i < |s| && !IsCharKatakana(s[i]) ==> ToHiragana(s)[i] == s[i]
  {
  }

  /** Shifting to Katakana and back restores any string without Katakana-range characters. */
  lemma HiraganaRoundTrip(s: string)
    requires forall i :: 0 <= i < |s| ==> !IsCharKatakana(s[i])
    ensures ToHiragana(HiraganaToKatakana.ToKatakana(s)) == s
  {
  }

  /** Shifting to Hiragana and back restores any string without Hiragana-range characters. */
  lemma KatakanaRoundTrip(s: string)
    requires forall i :: 0 <= i < |s| ==> !IsCharHiragana(s[i])
    ensures HiraganaToKatakana.ToKatakana(ToHiragana(s)) == s
  {
  }
}
