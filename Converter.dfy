/** The `Converter` interface: a conversion of one script to another, and its list of variants, which by
    default is the single conversion. The three converters of the library are the cases of one datatype. */
module Converters {
  import opened Results
  import HiraganaToKatakana
  import KatakanaToHiragana
  import HiraganaToRomaji
  import RomajiLemmas

  /** The implementations of `Converter`; only the Romaji converter overrides `convertToVariants`. */
  datatype Converter =
    | HiraganaToKatakanaConverter
    | KatakanaToHiraganaConverter
    | HiraganaToRomajiConverter(table: HiraganaToRomaji.Table)

  /** `convert`; only the Romaji converter can throw. */
  function Convert(c: Converter, input: string): (r: Result<string>)
    ensures !c.HiraganaToRomajiConverter? ==> r.Success? && |r.value| == |input|
  {
    match c
    case HiraganaToKatakanaConverter => Success(HiraganaToKatakana.ToKatakana(input))
    case KatakanaToHiraganaConverter => Success(KatakanaToHiragana.ToHiragana(input))
    case HiraganaToRomajiConverter(table) => HiraganaToRomaji.Romanize(table, input)
  }

  /** The default `convertToVariants`: the conversion as a one-element list. */
  function DefaultVariants(c: Converter, input: string): (r: Result<seq<string>>)
    ensures r.Failure? <==> Convert(c, input).Failure?
    ensures r.Failure? ==> r.error == Convert(c, input).error
    ensures r.Success? ==> |r.value| == 1 && r.value[0] == Convert(c, input).value
  {
    match Convert(c, input)
    case Failure(e) => Failure(e)
    case Success(s) => Success([s])
  }

  /** `convertToVariants`, dispatched: the Romaji converter spells out its result, the others keep the default. */
  function ConvertToVariants(c: Converter, input: string): Result<seq<string>>
  {
    match c
    case HiraganaToRomajiConverter(table) => HiraganaToRomaji.Spellings(table, input)
    case _ => DefaultVariants(c, input)
  }

  /** The kana shift converters keep the default: exactly one variant, the conversion itself, and so one to n
      unique entries. */
  lemma ShiftConvertersSingleVariant(c: Converter, input: string)
    requires !c.HiraganaToRomajiConverter?
    ensures ConvertToVariants(c, input).Success?
    ensures ConvertToVariants(c, input) == Success([Convert(c, input).value])
    ensures forall i, j ::
              0 <= i < |ConvertToVariants(c, input).value| && 0 <= j < |ConvertToVariants(c, input).value| &&
              ConvertToVariants(c, input).value[i] == ConvertToVariants(c, input).value[j]
              ==> i == j
  {
    assert ConvertToVariants(c, input) == DefaultVariants(c, input);
  }

  /** The Romaji override agrees with the default when the Romaji is non-empty and has no macron. */
  lemma RomajiPlainAgreesWithDefault(table: HiraganaToRomaji.Table, input: string)
    requires HiraganaToRomaji.Romanize(table, input).Success?
    requires HiraganaToRomaji.Romanize(table, input).value != []
    requires HiraganaToRomaji.NoMacron(HiraganaToRomaji.Romanize(table, input).value)
    ensures ConvertToVariants(HiraganaToRomajiConverter(table), input)
         == DefaultVariants(HiraganaToRomajiConverter(table), input)
  {
    RomajiLemmas.PlainSpelling(HiraganaToRomaji.Romanize(table, input).value);
  }

  /** Where the override departs from the default: an empty Romaji, which the default would list as `[""]`,
      makes the builder throw. */
  lemma RomajiEmptyDiffers(table: HiraganaToRomaji.Table, input: string)
    requires HiraganaToRomaji.Romanize(table, input) == Success("")
    ensures DefaultVariants(HiraganaToRomajiConverter(table), input) == Success([""])
    ensures ConvertToVariants(HiraganaToRomajiConverter(table), input) == Failure(IllegalState)
  {
  }
}
