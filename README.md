# WanaKanaJava core in Dafny

A verified model of the transliteration core of WanaKanaJava, a Java library that converts Japanese
scripts. The model covers four parts.

- **Hiragana to Romaji conversion.**
  - `convert` scans the input with a cursor. It tries a chunk of two characters, then one, against a syllable table.
  - A small `っ` doubles the first letter of the next translation.
  - The long-vowel ("diphthong") rule can rewrite the first `o` already written to `ō`.
  - Untranslated characters are copied as they are.
  - A final pass replaces every `uu` with `ū`, but only when the result ends in `uu`.
  - `convertToVariants` turns each Romaji character into a group of passport spellings (`ō` becomes `o`, `oh` or `oo`; `ū` becomes `u`; `ē` becomes `ee`). It then lets the rule-of-product builder enumerate every combination.
- **The rule-of-product combo builder.**
  - It is a small state machine: a list of groups whose last group is the current one.
  - It throws an illegal-state exception when the current group is empty.
  - It builds the cartesian product of the groups in mixed-radix order, with the first group varying fastest.
- **Script classification.** This covers the inclusive code-point range predicates of `Scriber`, their lifting to whole strings, `isAscii`, and the `getHiragana`/`getKatakana` filters.
- **The kana shifts.** This covers the one-to-one Hiragana↔Katakana shift by the offset 0x60, and the `Converter` interface whose default `convertToVariants` is a one-element list.

## Files and modules

- **`Results.dfy`** (`Results`): `Option`, `Result`, `Outcome`, and the two Java exceptions the core can throw (`StringIndexOutOfBounds`, `IllegalState`).
- **`JavaStrings.dfy`** (`JavaStrings`): `String.trim()`, `String.indexOf(char)`, `String.endsWith`.
- **`Constants.dfy`** (`Constants`): the range literals.
- **`Scriber.dfy`** (`Scriber`): the character and string predicates and the script filters.
- **`HiraganaToKatakanaConverter.dfy`** (`HiraganaToKatakana`) and **`KatakanaToHiraganaConverter.dfy`** (`KatakanaToHiragana`): the shifts. Each is a loop method proved equal to a specification function, plus lemmas.
- **`RuleOfProductComboBuilder.dfy`** has two modules.
  - `Combinatorics` holds the `RuleOfProductComboBuilder` class, whose field `groups` the methods update, and the `Product` specification.
  - `CombinatoricsLemmas` holds the size, shape and enumeration-order lemmas and the basket example.
- **`HiraganaToRomajiConverter.dfy`** (`HiraganaToRomaji`) holds the conversion.
  - `Convert` has the two nested loops of the source, split into the methods `Convert` (outer loop), `TranslateAt` (inner loop) and `TryChunkAt` (one pass of the inner loop).
  - `Convert` is proved equal to the function `Romanize`, which is built from `TryChunk`, `ChunkLoop`, `Step`, `Scan` and `PostPass`.
  - `ConvertToVariants` feeds a builder and is proved equal to `Spellings`.
- **`RomajiLemmas.dfy`** (`RomajiLemmas`): one step lemma per conversion rule, examples of the final pass, and the promises the spellings keep.
- **`RomajiExamples.dfy`** (`RomajiExamples`): whole conversions over small syllable tables that hold only the entries each example needs.
- **`Converter.dfy`** (`Converters`): the `Converter` interface as a datatype with one case per implementation, its default `convertToVariants` and the Romaji override.

The syllable table (`HiraganaToRomajiData`) is not part of this model. Every Romaji operation takes the table as a
parameter `table: map<string, string>`, and `Map.get` returning `null` is `key !in table`. Java exceptions are
`Failure` results. `trim()` drops every character up to U+0020 at both ends. `indexOf` is the first occurrence.
`replace("uu", "ū")` works left to right without overlap.

## Model

| member | source | states |
|---|---|---|
| Constants.RangeLayout | src/main/java/com/optimaize/wanakana/Constants.java:12-21 | every range has start ≤ end; `HIRAGANA_START` is 0x3040; the Hiragana and Katakana blocks are both 0x60 wide, are adjacent, and are 0x60 apart; the punctuation block ends just before Hiragana; the rare Kanji block lies above Katakana and below the common Kanji block |
| Scriber.CharClasses | src/main/java/com/optimaize/wanakana/Scriber.java:64-99 | each character class is exactly its inclusive code-point range(s); no character is both Hiragana and Katakana; Japanese punctuation is neither kana nor Kanji; kana is never Kanji |
| Scriber.PunctuationIsNotKana | src/test/java/com/optimaize/wanakana/ScriberTest.java:111-116 | the ideographic space, `【`, `】` and `。` are not kana, and the first two are punctuation; `し`, `エ`, `日` are in their classes; ASCII and Greek characters are in none |
| Scriber.AllChars | src/main/java/com/optimaize/wanakana/Scriber.java:104-111 | the early-return scan answers true exactly when every character satisfies the predicate (so true on the empty string) |
| Scriber.IsHiragana | src/main/java/com/optimaize/wanakana/Scriber.java:104-111 | true iff every character is in the Hiragana range |
| Scriber.IsKatakana | src/main/java/com/optimaize/wanakana/Scriber.java:116-123 | true iff every character is in the Katakana range |
| Scriber.IsKanji | src/main/java/com/optimaize/wanakana/Scriber.java:128-135 | true iff every character is in one of the two Kanji ranges |
| Scriber.IsJapanesePunctuation | src/main/java/com/optimaize/wanakana/Scriber.java:140-147 | true iff every character is in the punctuation range |
| Scriber.IsAscii | src/main/java/com/optimaize/wanakana/Scriber.java:152-154 | true iff the string is non-empty and every character is at most U+007F (`isAscii("")` is false) |
| Scriber.AsciiPlusMeaning | src/main/java/com/optimaize/wanakana/Scriber.java:153 | a whole-string match of `\p{ASCII}+` means non-empty and all ASCII |
| Scriber.Filter | src/main/java/com/optimaize/wanakana/Scriber.java:30-42 | the kept string is no longer than the input and holds only characters of the script |
| Scriber.CollectMatches | src/main/java/com/optimaize/wanakana/Scriber.java:35-41 | the `find()`/`append` loop collects exactly the in-order subsequence of script characters |
| Scriber.GetHiragana | src/main/java/com/optimaize/wanakana/Scriber.java:30-42 | `getHiragana` returns the Hiragana-script characters of the input, in order |
| Scriber.GetKatakana | src/main/java/com/optimaize/wanakana/Scriber.java:47-59 | `getKatakana` returns the Katakana-script characters of the input, in order |
| Scriber.FilterConcat | src/main/java/com/optimaize/wanakana/Scriber.java:38-40 | filtering distributes over concatenation, so input order is kept |
| Scriber.FilterIdempotent | src/main/java/com/optimaize/wanakana/Scriber.java:30-42 | filtering a filtered string changes nothing |
| Scriber.FilterEmpty | src/main/java/com/optimaize/wanakana/Scriber.java:30-42 | the result is empty exactly when no character belongs to the script |
| Scriber.FilterKeepsAll | src/main/java/com/optimaize/wanakana/Scriber.java:30-42 | a string wholly in the script is returned whole |
| HiraganaToKatakana.ToKatakanaChar | src/main/java/com/optimaize/wanakana/HiraganaToKatakanaConverter.java:29-35 | a Hiragana character moves up by 0x60 into the Katakana range; any other character is kept; the result is never Hiragana |
| HiraganaToKatakana.ToKatakana | src/main/java/com/optimaize/wanakana/HiraganaToKatakanaConverter.java:26-36 | same length as the input, each position converted on its own |
| HiraganaToKatakana.Convert | src/main/java/com/optimaize/wanakana/HiraganaToKatakanaConverter.java:22-39 | the `StringBuilder` loop computes exactly `ToKatakana` |
| HiraganaToKatakana.NoHiraganaRemains | src/main/java/com/optimaize/wanakana/HiraganaToKatakanaConverter.java:26-36 | no Hiragana-range character is left in the output |
| HiraganaToKatakana.Idempotent | src/main/java/com/optimaize/wanakana/HiraganaToKatakanaConverter.java:26-36 | converting twice equals converting once |
| KatakanaToHiragana.ToHiraganaChar | src/main/java/com/optimaize/wanakana/KatakanaToHiraganaConverter.java:30-36 | a Katakana character moves down by 0x60 into the Hiragana range; any other character is kept; the result is never Katakana |
| KatakanaToHiragana.ToHiragana | src/main/java/com/optimaize/wanakana/KatakanaToHiraganaConverter.java:27-37 | same length as the input, each position converted on its own |
| KatakanaToHiragana.Convert | src/main/java/com/optimaize/wanakana/KatakanaToHiraganaConverter.java:23-40 | the `StringBuilder` loop computes exactly `ToHiragana` |
| KatakanaToHiragana.Idempotent | src/main/java/com/optimaize/wanakana/KatakanaToHiraganaConverter.java:27-37 | converting twice equals converting once |
| KatakanaToHiragana.MixedKanaBecomesHiragana | src/main/java/com/optimaize/wanakana/KatakanaToHiraganaConverter.java:27-37 | mixed kana comes out with no Katakana, every kana as Hiragana, and every non-Katakana character unchanged in place |
| KatakanaToHiragana.HiraganaRoundTrip | src/main/java/com/optimaize/wanakana/KatakanaToHiraganaConverter.java:30-36 | for a string without Katakana-range characters, shifting to Katakana and back restores it |
| KatakanaToHiragana.KatakanaRoundTrip | src/main/java/com/optimaize/wanakana/HiraganaToKatakanaConverter.java:29-35 | for a string without Hiragana-range characters, shifting to Hiragana and back restores it |
| Combinatorics.AppendToEach | src/main/java/crema/math/algo/combinatorics/RuleOfProductComboBuilder.java:152-154 | every combination, extended by the one variant, in order |
| Combinatorics.Extend | src/main/java/crema/math/algo/combinatorics/RuleOfProductComboBuilder.java:158-166 | adding a group multiplies the number of combinations by its size |
| Combinatorics.Product | src/main/java/crema/math/algo/combinatorics/RuleOfProductComboBuilder.java:140-169 | the number of combinations is the product of the group sizes |
| Combinatorics.RuleOfProductComboBuilder.constructor | src/main/java/crema/math/algo/combinatorics/RuleOfProductComboBuilder.java:47-48 | a new builder has no group and satisfies the invariant that every group but the current one is non-empty |
| Combinatorics.RuleOfProductComboBuilder.IsEmpty | src/main/java/crema/math/algo/combinatorics/RuleOfProductComboBuilder.java:100-104 | under the invariant, `isEmpty` is true exactly when no variant was added to any group |
| Combinatorics.RuleOfProductComboBuilder.IsGroupEmpty | src/main/java/crema/math/algo/combinatorics/RuleOfProductComboBuilder.java:92-95 | in a valid builder, the current group is missing or empty exactly when there are no groups at all or nothing to build (the product of the sizes is zero) |
| Combinatorics.RuleOfProductComboBuilder.CheckGroupNotEmpty | src/main/java/crema/math/algo/combinatorics/RuleOfProductComboBuilder.java:106-110 | throws `IllegalState` exactly when `isGroupEmpty` holds: no group, or an empty current group |
| Combinatorics.RuleOfProductComboBuilder.NewGroup | src/main/java/crema/math/algo/combinatorics/RuleOfProductComboBuilder.java:80-87 | throws `IllegalState` and changes nothing exactly when a current group exists and is empty; otherwise appends one empty group; keeps the invariant |
| Combinatorics.RuleOfProductComboBuilder.Variant | src/main/java/crema/math/algo/combinatorics/RuleOfProductComboBuilder.java:57-61 | appends the variant to the last group, first opening a group when there is none; nothing else changes; keeps the invariant |
| Combinatorics.RuleOfProductComboBuilder.Variants | src/main/java/crema/math/algo/combinatorics/RuleOfProductComboBuilder.java:68-73 | appends all items to the last group in order; no items means no change and no implicit group |
| Combinatorics.WithVariantsSnoc | src/main/java/crema/math/algo/combinatorics/RuleOfProductComboBuilder.java:68-73 | adding items one `variant` at a time equals adding them all at once |
| Combinatorics.RuleOfProductComboBuilder.ComputeProductSize | src/main/java/crema/math/algo/combinatorics/RuleOfProductComboBuilder.java:121-128 | throws `IllegalState` exactly when there is no group or the current group is empty; otherwise the product of the group sizes, which is the number of built combinations and at least 1 |
| Combinatorics.RuleOfProductComboBuilder.Build | src/main/java/crema/math/algo/combinatorics/RuleOfProductComboBuilder.java:135-171 | throws `IllegalState` under the same condition; otherwise returns exactly `Product(groups)`, which is not empty ("Not empty"); the groups are not modified |
| Combinatorics.Seed | src/main/java/crema/math/algo/combinatorics/RuleOfProductComboBuilder.java:142-148 | the first round makes one single-item combination per variant of the first group |
| Combinatorics.AppendInPlace | src/main/java/crema/math/algo/combinatorics/RuleOfProductComboBuilder.java:150-154 | a one-variant group appends that variant to every combination in place, which is the general extension |
| Combinatorics.DuplicateForEach | src/main/java/crema/math/algo/combinatorics/RuleOfProductComboBuilder.java:155-167 | the nested copy loops yield the extension: all combinations with the first variant, then all with the next, and so on |
| Combinatorics.ProductSizePositive | src/main/java/crema/math/algo/combinatorics/RuleOfProductComboBuilder.java:130-137 | with every group non-empty there is at least one combination ("Not empty") |
| Combinatorics.LastGroupDecides | src/main/java/crema/math/algo/combinatorics/RuleOfProductComboBuilder.java:121-128 | when every group before the last is non-empty, the product of the sizes is zero exactly when the last group is empty |
| CombinatoricsLemmas.ExtendAt | src/main/java/crema/math/algo/combinatorics/RuleOfProductComboBuilder.java:158-166 | combination `k` of an extension is combination `k mod n` so far, followed by variant `k div n` |
| CombinatoricsLemmas.ProductShape | src/main/java/crema/math/algo/combinatorics/RuleOfProductComboBuilder.java:140-169 | every combination has one entry per group |
| CombinatoricsLemmas.ProductAt | src/main/java/crema/math/algo/combinatorics/RuleOfProductComboBuilder.java:140-169 | position `j` of combination `k` is variant `(k / Π_{l<j} size_l) mod size_j` of group `j`: mixed radix, first group fastest |
| CombinatoricsLemmas.ProductPicks | src/main/java/crema/math/algo/combinatorics/RuleOfProductComboBuilder.java:140-169 | every entry of a combination belongs to its group |
| CombinatoricsLemmas.ProductThenSingletons | src/main/java/crema/math/algo/combinatorics/RuleOfProductComboBuilder.java:150-154 | groups of one variant each, after other groups, append their variants to the end of every combination |
| CombinatoricsLemmas.ProductOfSingletons | src/main/java/crema/math/algo/combinatorics/RuleOfProductComboBuilder.java:150-154 | groups of one variant each give exactly one combination: the variants in group order |
| CombinatoricsLemmas.FruitBasket | src/main/java/crema/math/algo/combinatorics/RuleOfProductComboBuilder.java:21 | the fruit group alone gives one combination per fruit |
| CombinatoricsLemmas.FruitAndSweetBaskets | src/main/java/crema/math/algo/combinatorics/RuleOfProductComboBuilder.java:21-22 | fruits and the one sweet give three combinations, in fruit order |
| CombinatoricsLemmas.Baskets | src/main/java/crema/math/algo/combinatorics/RuleOfProductComboBuilder.java:17-33 | the documented six baskets, in the documented order |
| CombinatoricsLemmas.FillFruits | src/main/java/crema/math/algo/combinatorics/RuleOfProductComboBuilder.java:28 | `newGroup` and three `variant` calls leave the single fruit group |
| CombinatoricsLemmas.FillBaskets | src/main/java/crema/math/algo/combinatorics/RuleOfProductComboBuilder.java:26-31 | the documented call chain leaves the three documented groups |
| JavaStrings.Trim | src/main/java/com/optimaize/wanakana/HiraganaToRomajiConverter.java:64 | `trim()` is no longer than its input and, when non-empty, starts and ends with a character above U+0020 |
| JavaStrings.TrimSlice | src/main/java/com/optimaize/wanakana/HiraganaToRomajiConverter.java:64 | the trimmed chunk is one slice of the input, and every character outside it is at most U+0020 |
| JavaStrings.TrimNoBlanks | src/main/java/com/optimaize/wanakana/HiraganaToRomajiConverter.java:64 | a chunk without characters up to U+0020 is its own trim |
| JavaStrings.TrimEmpty | src/main/java/com/optimaize/wanakana/HiraganaToRomajiConverter.java:64 | the trim is empty exactly when every character is at most U+0020 |
| JavaStrings.EndsWithMeaning | src/main/java/com/optimaize/wanakana/HiraganaToRomajiConverter.java:94 | `endsWith(suffix)` holds exactly when the string is some string followed by `suffix` |
| JavaStrings.IndexOf | src/main/java/com/optimaize/wanakana/HiraganaToRomajiConverter.java:93 | the first index holding the character, or -1 exactly when it does not occur |
| HiraganaToRomaji.MarkFirstO | src/main/java/com/optimaize/wanakana/HiraganaToRomajiConverter.java:96 | the buffer keeps its length; its first `o` becomes `ō`; every other position is unchanged |
| HiraganaToRomaji.LongVowelTest | src/main/java/com/optimaize/wanakana/HiraganaToRomajiConverter.java:93 | when `う` occurs in the input, the long-vowel test holds exactly when the chunk holds `う` and has no translation, the input does not start with `う` and has a `う` before its last character (so its first `う` is neither first nor last); an input without `う` passes it whenever it is non-empty and the chunk holds `う` and has no translation |
| HiraganaToRomaji.Found | src/main/java/com/optimaize/wanakana/HiraganaToRomajiConverter.java:105-109 | a found translation clears the gemination flag; doubling an empty translation throws `StringIndexOutOfBounds` at `charAt(0)` |
| HiraganaToRomaji.TryChunk | src/main/java/com/optimaize/wanakana/HiraganaToRomajiConverter.java:64-109 | a chunk that trims to empty throws; the buffer keeps its length; an untranslated attempt carries the trimmed chunk; the flag is set only by a width-1 `っ` that is not last, which emits nothing |
| HiraganaToRomaji.ChunkLoop | src/main/java/com/optimaize/wanakana/HiraganaToRomajiConverter.java:63-118 | the inner loop stops at a width between 1 and the start width; when nothing translated it stops at width 1 |
| HiraganaToRomaji.StartWidth | src/main/java/com/optimaize/wanakana/HiraganaToRomajiConverter.java:62 | the first width tried is `min(2, len - cursor)`: at least 1 and within the input |
| HiraganaToRomaji.Advance | src/main/java/com/optimaize/wanakana/HiraganaToRomajiConverter.java:120-127 | the buffer is only extended: by the translation, with the cursor moved by the width translated and the flag the attempt left; or, when nothing translated, by the trimmed chunk itself, with the cursor moved by one and a pending `っ` left pending |
| HiraganaToRomaji.Step | src/main/java/com/optimaize/wanakana/HiraganaToRomajiConverter.java:60-128 | each outer step advances the cursor by 1 or 2 within the input, so the loop ends after at most `len` steps; the buffer never shrinks |
| HiraganaToRomaji.Scan | src/main/java/com/optimaize/wanakana/HiraganaToRomajiConverter.java:60-128 | the outer loop's buffer only grows from the state it started in |
| HiraganaToRomaji.ReplaceUU | src/main/java/com/optimaize/wanakana/HiraganaToRomajiConverter.java:132 | the replacement never lengthens the string, is empty only for the empty string, and starts with `u` only when the input starts with a `u` that is not part of `uu` |
| HiraganaToRomaji.TryChunkAt | src/main/java/com/optimaize/wanakana/HiraganaToRomajiConverter.java:64-109 | one pass of the inner loop yields the attempt `TryChunk` defines; with no translation the flag is untouched |
| HiraganaToRomaji.TranslateAt | src/main/java/com/optimaize/wanakana/HiraganaToRomajiConverter.java:63-118 | the inner `while` loop yields what `ChunkLoop` defines; on success `chunkSize` is positive exactly when a translation was found |
| HiraganaToRomaji.Convert | src/main/java/com/optimaize/wanakana/HiraganaToRomajiConverter.java:49-138 | `convert`, with its nested loops, returns exactly `Romanize`: the scan, then the final `uu` pass, or the scan's exception |
| HiraganaToRomaji.VariantsForChar | src/main/java/com/optimaize/wanakana/HiraganaToRomajiConverter.java:166-177 | never empty and never a macron vowel; `ō` has three spellings; every other character has one, and a non-macron character is its own spelling |
| HiraganaToRomaji.CharGroups | src/main/java/com/optimaize/wanakana/HiraganaToRomajiConverter.java:152-154 | one builder group per Romaji character |
| HiraganaToRomaji.JoinAll | src/main/java/com/optimaize/wanakana/HiraganaToRomajiConverter.java:158-161 | one joined string per combination |
| HiraganaToRomaji.ConvertToVariants | src/main/java/com/optimaize/wanakana/HiraganaToRomajiConverter.java:147-163 | `convertToVariants` returns exactly `Spellings`: the conversion's exception, or the joined combinations of the character spellings |
| HiraganaToRomaji.SpellOut | src/main/java/com/optimaize/wanakana/HiraganaToRomajiConverter.java:150-162 | feeding the builder, building and joining gives `PassportSpellings` of the Romaji, including the builder's exception on an empty Romaji |
| HiraganaToRomaji.FeedBuilder | src/main/java/com/optimaize/wanakana/HiraganaToRomajiConverter.java:150-154 | the `newGroup().variants(...)` loop leaves one group per character holding its spellings |
| HiraganaToRomaji.JoinEach | src/main/java/com/optimaize/wanakana/HiraganaToRomajiConverter.java:158-161 | the join loop yields each combination joined, in build order |
| RomajiLemmas.PlainTextUnchanged | src/main/java/com/optimaize/wanakana/HiraganaToRomajiConverter.java:120-127 | text with no blank and no Hiragana (Kanji, Katakana, Latin, Greek, Cyrillic) that no table key fits inside comes back unchanged unless it ends in `uu`; the empty input gives `""` |
| RomajiLemmas.BlankStartFails | src/main/java/com/optimaize/wanakana/HiraganaToRomajiConverter.java:73 | a first chunk that trims to empty throws at `charAt(0)`, evaluated by the non-short-circuit `&` |
| RomajiLemmas.TwoCharHit | src/main/java/com/optimaize/wanakana/HiraganaToRomajiConverter.java:102-127 | a width-2 chunk found after trimming is emitted and consumes two characters even when `trim()` shortened it; a pending `っ` doubles its first letter once; an empty translation cannot be doubled |
| RomajiLemmas.OneCharHit | src/main/java/com/optimaize/wanakana/HiraganaToRomajiConverter.java:102-127 | after a width-2 miss, a found width-1 chunk is emitted and consumes one character, doubled once when a `っ` is pending, and the flag is cleared |
| RomajiLemmas.PassThrough | src/main/java/com/optimaize/wanakana/HiraganaToRomajiConverter.java:120-127 | a character with no translation is copied literally, consumes one character, and leaves a pending `っ` pending, so it is never doubled |
| RomajiLemmas.SmallTsuSetsFlag | src/main/java/com/optimaize/wanakana/HiraganaToRomajiConverter.java:73-77 | a `っ` that is not the last character emits nothing, consumes one character and sets the flag |
| RomajiLemmas.LongVowelAfterO | src/main/java/com/optimaize/wanakana/HiraganaToRomajiConverter.java:93-109 | after a buffer ending in `o`, the first `o` of the buffer becomes `ō` and the translation of the chunk's second character is emitted, consuming two, its first letter doubled when a `っ` is pending (an empty translation then throws); a chunk trimmed to one character throws at `substring(1, 2)`; a second character without translation lets the inner loop go on at width 1 with the rewritten buffer |
| RomajiLemmas.LongVowelOtherwise | src/main/java/com/optimaize/wanakana/HiraganaToRomajiConverter.java:97-109 | after any other buffer, the translation of the chunk's first character is emitted while both characters are consumed, its first letter doubled when a `っ` is pending (an empty translation then throws); a first character without translation lets the inner loop go on at width 1 |
| HiraganaToRomaji.ReplaceUUClean | src/main/java/com/optimaize/wanakana/HiraganaToRomajiConverter.java:132 | no `uu` is left after the replacement |
| HiraganaToRomaji.ReplaceUUChanges | src/main/java/com/optimaize/wanakana/HiraganaToRomajiConverter.java:132 | the replacement changes the string exactly when it holds a `uu`, and then shortens it |
| HiraganaToRomaji.PostPass | src/main/java/com/optimaize/wanakana/HiraganaToRomajiConverter.java:130-133 | a result ending in `uu` loses every `uu` and gets shorter; any other result is untouched |
| RomajiLemmas.PostPassExamples | src/test/java/com/optimaize/wanakana/HiraganaToRomajiConverterTest.java:69 | `chuu` becomes `chū`; `ryuuen`, which does not end in `uu`, keeps its `uu` |
| RomajiLemmas.GroupCount | src/main/java/com/optimaize/wanakana/HiraganaToRomajiConverter.java:152-156 | the character groups have `3^k` combinations, `k` the number of `ō` |
| RomajiLemmas.SpellingCount | src/main/java/com/optimaize/wanakana/HiraganaToRomajiConverter.java:147-163 | the spellings fail exactly for an empty Romaji, with `IllegalState`; otherwise there are exactly `3^k` of them |
| RomajiLemmas.SpellingsHaveNoMacron | src/main/java/com/optimaize/wanakana/HiraganaToRomajiConverter.java:140-145 | no spelling holds `ō`, `ū` or `ē`: the macron Romaji is not kept |
| RomajiLemmas.PlainSpelling | src/main/java/com/optimaize/wanakana/HiraganaToRomajiConverter.java:141 | a non-empty Romaji without macrons is its own single spelling |
| RomajiLemmas.PlainVariants | src/main/java/com/optimaize/wanakana/HiraganaToRomajiConverter.java:141 | when the conversion is non-empty and has no macron, `convertToVariants` is the one-element list of `convert` |
| RomajiLemmas.OneLongO | src/main/java/com/optimaize/wanakana/HiraganaToRomajiConverter.java:168-169 | one `ō` between macron-free parts is spelled `o`, `oh`, `oo`, in that order |
| RomajiExamples.Kappa | src/test/java/com/optimaize/wanakana/WanaKanaJavaTest.java:32 | with `か`→`ka`, `ぱ`→`pa`, `かっぱ` converts to `kappa` |
| RomajiExamples.Koe | src/main/java/com/optimaize/wanakana/HiraganaToRomajiConverter.java:97-99 | with `こ`→`ko`, `え`→`e`, `こうえ` converts to `koe`: the input's first `う` is inside it and `こう` has no entry, so with an empty buffer (not ending in `o`) only `こ` is emitted and the `う` is dropped |
| RomajiExamples.Iu | src/test/java/com/optimaize/wanakana/HiraganaToRomajiConverterTest.java:28 | with `い`→`i`, `う`→`u`, `い, う` converts to `i,u`: the comma is copied; ` う` trims to `う`, which is found (its `う` is the input's last character, so the long-vowel test does not apply), and consumes two characters |
| RomajiExamples.KanjiUnchanged | src/main/java/com/optimaize/wanakana/HiraganaToRomajiConverter.java:120-127 | with a table that also has a key for the ideographic space, `日本` converts to itself |
| RomajiExamples.KobeSpellings | src/main/java/com/optimaize/wanakana/HiraganaToRomajiConverter.java:168-169 | `kōbe` has the spellings `kobe`, `kohbe`, `koobe` |
| RomajiExamples.EmptySpellings | src/main/java/com/optimaize/wanakana/HiraganaToRomajiConverter.java:60 | `convert("")` is `""`, and `convertToVariants("")` throws `IllegalState` from the builder |
| Converters.Convert | src/main/java/com/optimaize/wanakana/Converter.java:20 | the two kana shifts never fail and keep the length |
| Converters.DefaultVariants | src/main/java/com/optimaize/wanakana/Converter.java:25-27 | the default fails exactly when `convert` fails, with its exception; otherwise it is a list of exactly one element, `convert(input)` |
| Converters.ShiftConvertersSingleVariant | src/main/java/com/optimaize/wanakana/Converter.java:23-27 | the shift converters keep the default: `[convert(s)]`, whose entries are unique |
| Converters.RomajiPlainAgreesWithDefault | src/main/java/com/optimaize/wanakana/HiraganaToRomajiConverter.java:141 | for a non-empty macron-free conversion, the Romaji override gives what the default would |
| Converters.RomajiEmptyDiffers | src/main/java/com/optimaize/wanakana/HiraganaToRomajiConverter.java:147-156 | on an empty conversion the default would give `[""]`, but the override throws `IllegalState` |

## Left out

- The contents of `HiraganaToRomajiData` are not part of this model. The table is a parameter, so test results that depend on its entries (`さとう` → `satō`, `おうの` → three spellings) are not stated. The examples use small explicit tables instead.
- Singleton and lazy-holder initialisation and thread safety (`getInstance`, `INSTANCE`, `ConverterLazyHolder`) are JVM class-loading plumbing. The converters are plain values and functions.
- The Unicode script properties behind `\p{IsHiragana}` and `\p{IsKatakana}` are a parameter `char -> bool`, not the range predicates. The two can differ, for example on the unassigned U+3040.
- The Java regular-expression engine is not modelled. `isAscii` is the recursive meaning of one whole-string `\p{ASCII}+` match, and `getHiragana`/`getKatakana` are the `find()` loop over a one-character pattern.
- Combinatorics.RuleOfProductComboBuilder.ComputeProductSize: the `long` product is unbounded here, so overflow is not modelled. The code, not its comment, is followed: zero groups throws, it does not return 0.
- `Character.toChars` and surrogate pairs are not modelled. Every shifted code point lies in the Basic Multilingual Plane.
- Commented-out code (the Katakana pre-conversion and the end-of-string diphthong rule in `convert`, `capitalizeFully`, `normalizeAscii`) is not modelled.
- The Java assertion in `build` that a later group handled by the copying branch has more than one variant is not modelled; the model's duplicate-for-each round handles every group size.
- `currentGroup` is not a separate field. The source aliases it to the last element of `groups`, so the model reads it as the last group. A `currentGroup` that is non-null while `groups` is empty cannot arise.
- The builder's fluent `return this`, and `Iterable` versus `List`, are not modelled: `variants` takes a sequence.
- The nested loops of `convert` are split over three methods (`Convert`, `TranslateAt`, `TryChunkAt`), and the loops of `convertToVariants` over `SpellOut`, `FeedBuilder` and `JoinEach`. The code in them follows the source statement by statement.
- JavaStrings.Trim: its own contract states only the length and the non-blank ends. That the trim is a slice with blank outsides is stated by `TrimSlice`, `TrimNoBlanks` and `TrimEmpty`.
- Uniqueness of the Romaji override's spellings is not stated: with two `ō` two combinations can join to the same string.
- The `StringBuilder` of `convert` is a `string` value that the methods reassign; the in-place `latin.replace` is `MarkFirstO` on that value.
