/** The inclusive code-point ranges behind the script predicates and the kana shifts. */
module Constants {

  const HIRAGANA_START: int := 0x3040
  const HIRAGANA_END: int := 0x309F
  const KATAKANA_START: int := 0x30A0
  const KATAKANA_END: int := 0x30FF
  const KANJI_START: int := 0x4E00       // common and uncommon Kanji
  const KANJI_END: int := 0x9FAF
  const RARE_KANJI_START: int := 0x3400
  const RARE_KANJI_END: int := 0x4DBF
  const JAPANESE_PUNCTUATION_START: int := 0x3000
  const JAPANESE_PUNCTUATION_END: int := 0x303F

  /** The distance from a Hiragana code point to the Katakana one at the same position. */
  const KANA_OFFSET: int := KATAKANA_START - HIRAGANA_START

  /** How the ranges sit relative to one another. */
  lemma RangeLayout()
    ensures HIRAGANA_START == 0x3040
    ensures HIRAGANA_START <= HIRAGANA_END && KATAKANA_START <= KATAKANA_END
    ensures KANJI_START <= KANJI_END && RARE_KANJI_START <= RARE_KANJI_END
    ensures JAPANESE_PUNCTUATION_START <= JAPANESE_PUNCTUATION_END
    ensures KANA_OFFSET == 0x60
    ensures HIRAGANA_END - HIRAGANA_START + 1 == 0x60 == KATAKANA_END - KATAKANA_START + 1
    ensures KATAKANA_START == HIRAGANA_END + 1
    ensures JAPANESE_PUNCTUATION_END + 1 == HIRAGANA_START
    ensures RARE_KANJI_END < KANJI_START
    ensures KATAKANA_END < RARE_KANJI_START
  {
  }
}
