/** Worked conversions over small syllable tables, each holding only the entries the example needs
    (the library's own table is not part of this model). */
module RomajiExamples {
  import opened Results
  import opened JavaStrings
  import opened HiraganaToRomaji
  import opened RomajiLemmas

  /** The two syllables of `かっぱ`. */
  function KappaTable(): Table
  {
    map["か" := "ka", "ぱ" := "pa"]
  }

  /** `か` at the start of `かっぱ`: `かっ` has no translation, `か` gives `ka`. */
  lemma KappaFirst()
    ensures Step(KappaTable(), "かっぱ", ScanState(0, false, "")) == Success(ScanState(1, false, "ka"))
  {
    var s := "かっぱ";
    assert s[0..1] == "か" && s[0..2] == "かっ";
    TrimNoBlanks("か");
    TrimNoBlanks("かっ");
    OneCharHit(KappaTable(), s, ScanState(0, false, ""));
    assert "" + "ka" == "ka";
  }

  /** `っ` of `かっぱ`: `っぱ` has no translation, so `っ` sets the flag. */
  lemma KappaSecond()
    ensures Step(KappaTable(), "かっぱ", ScanState(1, false, "ka")) == Success(ScanState(2, true, "ka"))
  {
    var s := "かっぱ";
    assert s[1..3] == "っぱ";
    TrimNoBlanks("っぱ");
    SmallTsuSetsFlag(KappaTable(), s, ScanState(1, false, "ka"));
  }

  /** `ぱ` at the end of `かっぱ`, doubled by the flag. */
  lemma KappaThird()
    ensures Step(KappaTable(), "かっぱ", ScanState(2, true, "ka")) == Success(ScanState(3, false, "kappa"))
  {
    var s := "かっぱ";
    assert s[2..3] == "ぱ";
    TrimNoBlanks("ぱ");
    OneCharHit(KappaTable(), s, ScanState(2, true, "ka"));
    assert "ka" + ("p" + "pa") == "kappa";
  }

  /** `かっぱ`: the small tsu doubles the first letter of the next syllable. */
  lemma Kappa()
    ensures Romanize(KappaTable(), "かっぱ") == Success("kappa")
  {
    var t, s := KappaTable(), "かっぱ";
    KappaFirst();
    KappaSecond();
    KappaThird();
    assert Scan(t, s, ScanState(3, false, "kappa")) == Success("kappa");
    assert Scan(t, s, ScanState(0, false, "")) == Success("kappa");
    assert !EndsWith("kappa", "uu");
  }

  /** The syllables of `こうえ`. */
  function KoeTable(): Table
  {
    map["こ" := "ko", "え" := "e"]
  }

  /** `こう` at the start of `こうえ`: a diphthong with an empty buffer before it emits only the first
      syllable and drops the `う`. */
  lemma KoeFirst()
    ensures Step(KoeTable(), "こうえ", ScanState(0, false, "")) == Success(ScanState(2, false, "ko"))
  {
    var s := "こうえ";
    assert s[0..2] == "こう" && s[1] == LetterU && s[0] != LetterU;
    TrimNoBlanks("こう");
    assert IndexOf(s, LetterU) == 1;
    assert !EndsWith("", "o");
    assert "こう"[..1] == "こ";
    LongVowelOtherwise(KoeTable(), s, ScanState(0, false, ""));
    assert "" + "ko" == "ko";
  }

  /** `え`, the last character of `こうえ`. */
  lemma KoeSecond()
    ensures Step(KoeTable(), "こうえ", ScanState(2, false, "ko")) == Success(ScanState(3, false, "koe"))
  {
    var s := "こうえ";
    assert s[2..3] == "え";
    TrimNoBlanks("え");
    OneCharHit(KoeTable(), s, ScanState(2, false, "ko"));
    assert "ko" + "e" == "koe";
  }

  /** `こうえ`: the long vowel after `こ` at the start of the input is dropped. */
  lemma Koe()
    ensures Romanize(KoeTable(), "こうえ") == Success("koe")
  {
    var t, s := KoeTable(), "こうえ";
    KoeFirst();
    KoeSecond();
    assert Scan(t, s, ScanState(3, false, "koe")) == Success("koe");
    assert Scan(t, s, ScanState(0, false, "")) == Success("koe");
    assert !EndsWith("koe", "uu");
  }

  /** The syllables of `い, う`. */
  function IuTable(): Table
  {
    map["い" := "i", "う" := "u"]
  }

  /** `い` at the start of `い, う`. */
  lemma IuFirst()
    ensures Step(IuTable(), "い, う", ScanState(0, false, "")) == Success(ScanState(1, false, "i"))
  {
    var s := "い, う";
    assert s[0..1] == "い" && s[0..2] == "い,";
    TrimNoBlanks("い");
    TrimNoBlanks("い,");
    OneCharHit(IuTable(), s, ScanState(0, false, ""));
    assert "" + "i" == "i";
  }

  /** The comma has no translation and is copied; `, ` trims to `,`. */
  lemma IuSecond()
    ensures Step(IuTable(), "い, う", ScanState(1, false, "i")) == Success(ScanState(2, false, "i,"))
  {
    var s := "い, う";
    assert s[1..2] == "," && s[1..3] == ", ";
    assert Trim(", ") == ",";
    PassThrough(IuTable(), s, ScanState(1, false, "i"));
    assert "i" + [s[1]] == "i,";
  }

  /** ` う` trims to `う`, which is found, and both characters are consumed: the space vanishes. */
  lemma IuThird()
    ensures Step(IuTable(), "い, う", ScanState(2, false, "i,")) == Success(ScanState(4, false, "i,u"))
  {
    var s := "い, う";
    assert s[2..4] == " う";
    assert Trim(" う") == "う";
    TwoCharHit(IuTable(), s, ScanState(2, false, "i,"));
    assert "i," + "u" == "i,u";
  }

  /** `い, う`: a two-character chunk shortened by trimming still advances the cursor by two. */
  lemma Iu()
    ensures Romanize(IuTable(), "い, う") == Success("i,u")
  {
    var t, s := IuTable(), "い, う";
    IuFirst();
    IuSecond();
    IuThird();
    assert Scan(t, s, ScanState(4, false, "i,u")) == Success("i,u");
    assert Scan(t, s, ScanState(0, false, "")) == Success("i,u");
    assert !EndsWith("i,u", "uu");
  }

  /** A table holding, besides a syllable, a key for the ideographic space, as the library's table does. */
  function SpaceKeyTable(): Table
  {
    map["\U{3000}" := " ", "か" := "ka"]
  }

  /** Kanji pass through unchanged even though the table has a key, the ideographic space, with no Hiragana. */
  lemma KanjiUnchanged()
    ensures Romanize(SpaceKeyTable(), "日本") == Success("日本")
  {
    var t, s := SpaceKeyTable(), "日本";
    assert "\U{3000}"[0] !in s && "か"[0] !in s;
    assert NoKeyWithin(t, s);
    assert !EndsWith(s, "uu");
    PlainTextUnchanged(t, s);
  }

  /** The passport spellings of `kōbe`: `ō` may be written `o`, `oh` or `oo`. */
  lemma KobeSpellings()
    ensures PassportSpellings("k" + [LongO] + "be") == Success(["kobe", "kohbe", "koobe"])
  {
    OneLongO("k", "be");
    assert "k" + "o" + "be" == "kobe" && "k" + "oh" + "be" == "kohbe" && "k" + "oo" + "be" == "koobe";
  }

  /** An empty input converts to the empty string, which has no spellings. */
  lemma EmptySpellings(table: Table)
    ensures Romanize(table, "") == Success("")
    ensures Spellings(table, "") == Failure(IllegalState)
  {
    assert !EndsWith("", "uu");
  }
}
