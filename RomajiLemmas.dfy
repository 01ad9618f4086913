/** What the Hiragana to Romaji conversion promises: one step of the scan for each rule, whole inputs that
    pass through or fail, the final `uu` pass, and the passport spellings. */
module RomajiLemmas {
  import opened Results
  import opened JavaStrings
  import opened Scriber
  import opened Combinatorics
  import opened CombinatoricsLemmas
  import opened HiraganaToRomaji

  /** No key of the table fits inside `s`: every key holds a character that `s` does not. A table with a key
      for the ideographic space still meets this for text without that space. */
  predicate NoKeyWithin(table: Table, s: string)
  {
    forall k :: k in table ==> exists i :: 0 <= i < |k| && k[i] !in s
  }

  /** `s` holds neither a trimmable nor a Hiragana character. */
  predicate PlainText(s: string)
  {
    forall i :: 0 <= i < |s| ==> !IsTrimmable(s[i]) && !IsCharHiragana(s[i])
  }

  /** On plain text, every attempt leaves the chunk untranslated and untrimmed. */
  lemma PlainAttempt(table: Table, s: string, cursor: nat, width: nat, latin: string)
    requires NoKeyWithin(table, s) && PlainText(s)
    requires 1 <= width && cursor + width <= |s|
    ensures TryChunk(table, s, cursor, width, false, latin) == Success(Untranslated(s[cursor..cursor + width], latin))
  {
    var chunk := s[cursor..cursor + width];
    assert forall i :: 0 <= i < |chunk| ==> chunk[i] == s[cursor + i];
    TrimNoBlanks(chunk);
    assert IsCharHiragana(SmallTsu) && IsCharHiragana(LetterU);
    assert chunk[0] != SmallTsu;
    assert LetterU !in chunk;
    assert forall i :: 0 <= i < |chunk| ==> chunk[i] in s;
    assert chunk !in table;
  }

  /** On plain text, the scan copies one character per step. */
  lemma {:induction false} PlainScan(table: Table, s: string, cursor: nat)
    requires NoKeyWithin(table, s) && PlainText(s)
    requires cursor <= |s|
    ensures Scan(table, s, ScanState(cursor, false, s[..cursor])) == Success(s)
    decreases |s| - cursor
  {
    if cursor == |s| {
      assert s[..cursor] == s;
    } else {
      PlainStep(table, s, cursor);
      PlainScan(table, s, cursor + 1);
    }
  }

  /** On plain text, one step of the scan copies the character at the cursor. */
  lemma PlainStep(table: Table, s: string, cursor: nat)
    requires NoKeyWithin(table, s) && PlainText(s)
    requires cursor < |s|
    ensures Step(table, s, ScanState(cursor, false, s[..cursor])) == Success(ScanState(cursor + 1, false, s[..cursor + 1]))
  {
    var w := StartWidth(s, cursor);
    PlainAttempt(table, s, cursor, w, s[..cursor]);
    if w == 2 {
      PlainAttempt(table, s, cursor, 1, s[..cursor]);
    }
    assert s[cursor..cursor + 1] == [s[cursor]];
    assert ChunkLoop(table, s, cursor, w, false, s[..cursor]) == Success((1, Untranslated([s[cursor]], s[..cursor])));
    assert s[..cursor] + [s[cursor]] == s[..cursor + 1];
  }

  /** Text with no blank and no Hiragana (Kanji, Katakana, Latin, Greek, Cyrillic) that no table key fits inside
      comes back unchanged, unless it ends in `uu`; the empty input gives the empty output. */
  lemma PlainTextUnchanged(table: Table, s: string)
    requires NoKeyWithin(table, s) && PlainText(s)
    requires !EndsWith(s, "uu")
    ensures Romanize(table, s) == Success(s)
  {
    PlainScan(table, s, 0);
    assert s[..0] == "";
  }

  /** An input whose first chunk is all blank ends in the exception thrown by taking the first
      character of the empty trimmed chunk. */
  lemma BlankStartFails(table: Table, s: string)
    requires s != []
    requires forall i :: 0 <= i < StartWidth(s, 0) ==> IsTrimmable(s[i])
    ensures Romanize(table, s) == Failure(StringIndexOutOfBounds)
  {
    var w := StartWidth(s, 0);
    var chunk := s[0..w];
    assert forall i :: 0 <= i < |chunk| ==> chunk[i] == s[i];
    TrimEmpty(chunk);
    assert Step(table, s, ScanState(0, false, "")) == Failure(StringIndexOutOfBounds);
  }

  /** A two-character chunk (after trimming) found in the table is emitted and consumes both characters,
      doubled once when a `っ` is pending; an empty translation cannot be doubled. */
  lemma TwoCharHit(table: Table, input: string, st: ScanState)
    requires st.cursor + 2 <= |input|
    requires Trim(input[st.cursor..st.cursor + 2]) != []
    requires Trim(input[st.cursor..st.cursor + 2]) in table
    ensures var t := table[Trim(input[st.cursor..st.cursor + 2])];
            && (!st.doubleNext ==> Step(table, input, st) == Success(ScanState(st.cursor + 2, false, st.latin + t)))
            && (st.doubleNext && t != [] ==>
                  Step(table, input, st) == Success(ScanState(st.cursor + 2, false, st.latin + ([t[0]] + t))))
            && (st.doubleNext && t == [] ==> Step(table, input, st) == Failure(StringIndexOutOfBounds))
  {
    var chunk := Trim(input[st.cursor..st.cursor + 2]);
    assert !IsLongVowel(table, input, chunk);
    assert StartWidth(input, st.cursor) == 2;
  }

  /** A one-character chunk found in the table, after the two-character chunk (if any) had no translation and no
      `う`, is emitted and consumes one character, doubled once when a `っ` is pending. */
  lemma OneCharHit(table: Table, input: string, st: ScanState)
    requires st.cursor < |input|
    requires Trim(input[st.cursor..st.cursor + 1]) != []
    requires Trim(input[st.cursor..st.cursor + 1]) in table
    requires input[st.cursor] != SmallTsu || st.cursor == |input| - 1
    requires st.cursor + 1 < |input| ==>
               && Trim(input[st.cursor..st.cursor + 2]) != []
               && Trim(input[st.cursor..st.cursor + 2]) !in table
               && LetterU !in Trim(input[st.cursor..st.cursor + 2])
    ensures var t := table[Trim(input[st.cursor..st.cursor + 1])];
            && (!st.doubleNext ==> Step(table, input, st) == Success(ScanState(st.cursor + 1, false, st.latin + t)))
            && (st.doubleNext && t != [] ==>
                  Step(table, input, st) == Success(ScanState(st.cursor + 1, false, st.latin + ([t[0]] + t))))
  {
    var one := input[st.cursor..st.cursor + 1];
    assert one == [input[st.cursor]];
    assert Trim(one) == one;
    assert !IsLongVowel(table, input, Trim(one));
    if st.cursor + 1 < |input| {
      assert !IsLongVowel(table, input, Trim(input[st.cursor..st.cursor + 2]));
    }
  }

  /** A character with no translation, after the two-character chunk (if any) had no translation and no `う`, is
      copied as it is and consumes one character; a pending `っ` stays pending, so it is never doubled. */
  lemma PassThrough(table: Table, input: string, st: ScanState)
    requires st.cursor < |input|
    requires !IsTrimmable(input[st.cursor]) && input[st.cursor] != LetterU
    requires input[st.cursor..st.cursor + 1] !in table
    requires input[st.cursor] != SmallTsu || st.cursor == |input| - 1
    requires st.cursor + 1 < |input| ==>
               && Trim(input[st.cursor..st.cursor + 2]) != []
               && Trim(input[st.cursor..st.cursor + 2]) !in table
               && LetterU !in Trim(input[st.cursor..st.cursor + 2])
    ensures Step(table, input, st)
            == Success(ScanState(st.cursor + 1, st.doubleNext, st.latin + [input[st.cursor]]))
  {
    var one := input[st.cursor..st.cursor + 1];
    assert one == [input[st.cursor]];
    TrimNoBlanks(one);
    assert LetterU !in one;
    if st.cursor + 1 < |input| {
      assert !IsLongVowel(table, input, Trim(input[st.cursor..st.cursor + 2]));
    }
  }

  /** A `っ` that is not the last character, whose two-character chunk has no translation and no `う`, emits nothing
      and sets the flag that doubles the next translation. */
  lemma SmallTsuSetsFlag(table: Table, input: string, st: ScanState)
    requires st.cursor < |input| - 1 && input[st.cursor] == SmallTsu
    requires Trim(input[st.cursor..st.cursor + 2]) !in table
    requires LetterU !in Trim(input[st.cursor..st.cursor + 2])
    ensures Step(table, input, st) == Success(ScanState(st.cursor + 1, true, st.latin))
  {
    var chunk := input[st.cursor..st.cursor + 2];
    assert !IsTrimmable(chunk[0]);
    TrimSlice(chunk);
    assert StartWidth(input, st.cursor) == 2;
    assert Trim(chunk) != [];
    assert !IsLongVowel(table, input, Trim(chunk));
    var one := input[st.cursor..st.cursor + 1];
    assert one == [SmallTsu];
    TrimNoBlanks(one);
    assert st.latin + "" == st.latin;
  }

  /** The long-vowel rule on a two-character chunk after a buffer ending in `o`: the first `o` of the buffer
      becomes `ō` and the translation of the chunk's second character is emitted, its first letter doubled when a
      `っ` is pending, consuming both characters; a chunk trimmed to one character makes taking its second
      character throw, and a second character without translation lets the inner loop go on at width one with the
      rewritten buffer. */
  lemma LongVowelAfterO(table: Table, input: string, st: ScanState)
    requires st.cursor + 2 <= |input|
    requires IsLongVowel(table, input, Trim(input[st.cursor..st.cursor + 2]))
    requires EndsWith(st.latin, "o")
    ensures 'o' in st.latin
    ensures |Trim(input[st.cursor..st.cursor + 2])| < 2 ==> Step(table, input, st) == Failure(StringIndexOutOfBounds)
    ensures var chunk := Trim(input[st.cursor..st.cursor + 2]);
            |chunk| == 2 && chunk[1..2] in table ==>
              var t := table[chunk[1..2]];
              Step(table, input, st)
                == if !st.doubleNext then Success(ScanState(st.cursor + 2, false, MarkFirstO(st.latin) + t))
                   else if t == [] then Failure(StringIndexOutOfBounds)
                   else Success(ScanState(st.cursor + 2, false, MarkFirstO(st.latin) + ([t[0]] + t)))
    ensures var chunk := Trim(input[st.cursor..st.cursor + 2]);
            |chunk| == 2 && chunk[1..2] !in table ==>
              ChunkLoop(table, input, st.cursor, 2, st.doubleNext, st.latin)
                == ChunkLoop(table, input, st.cursor, 1, st.doubleNext, MarkFirstO(st.latin))
  {
    var chunk := Trim(input[st.cursor..st.cursor + 2]);
    assert st.latin[|st.latin| - 1] == 'o';
    assert StartWidth(input, st.cursor) == 2;
    if |chunk| == 2 {
      var marked := MarkFirstO(st.latin);
      assert TryChunk(table, input, st.cursor, 2, st.doubleNext, st.latin)
             == Found(chunk, Lookup(table, chunk[1..2]), st.doubleNext, marked);
    }
  }

  /** The long-vowel rule after a buffer that does not end in `o`: the translation of the chunk's first character
      is emitted, its first letter doubled when a `っ` is pending, consuming both characters; a first character
      without translation lets the inner loop go on at width one. */
  lemma LongVowelOtherwise(table: Table, input: string, st: ScanState)
    requires st.cursor + 2 <= |input|
    requires IsLongVowel(table, input, Trim(input[st.cursor..st.cursor + 2]))
    requires !EndsWith(st.latin, "o")
    ensures Trim(input[st.cursor..st.cursor + 2]) != []
    ensures var chunk := Trim(input[st.cursor..st.cursor + 2]);
            chunk[..1] in table ==>
              var t := table[chunk[..1]];
              Step(table, input, st)
                == if !st.doubleNext then Success(ScanState(st.cursor + 2, false, st.latin + t))
                   else if t == [] then Failure(StringIndexOutOfBounds)
                   else Success(ScanState(st.cursor + 2, false, st.latin + ([t[0]] + t)))
    ensures var chunk := Trim(input[st.cursor..st.cursor + 2]);
            chunk[..1] !in table ==>
              ChunkLoop(table, input, st.cursor, 2, st.doubleNext, st.latin)
                == ChunkLoop(table, input, st.cursor, 1, st.doubleNext, st.latin)
  {
    assert StartWidth(input, st.cursor) == 2;
  }

  /** `ちゅう` ends in `uu` and becomes `chū`; `りゅうえん` does not end in `uu` and keeps its `uu`. */
  lemma PostPassExamples()
    ensures PostPass("chuu") == "chū"
    ensures PostPass("ryuuen") == "ryuuen"
  {
    assert EndsWith("chuu", "uu");
    assert !DoubleUAt("chuu", 0) && !DoubleUAt("chuu", 1) && DoubleUAt("chuu", 2);
    assert "chuu"[1..] == "huu" && "huu"[1..] == "uu" && "uu"[2..] == "";
    assert !EndsWith("ryuuen", "uu");
  }

  /** `b` to the power `e`. */
  function Power(b: nat, e: nat): nat
  {
    if e == 0 then 1 else b * Power(b, e - 1)
  }

  /** The groups of `s` have `3^k` combinations, `k` the number of `ō` in `s`. */
  lemma {:induction false} GroupCount(s: string)
    ensures ProductSize(CharGroups(s)) == Power(3, multiset(s)[LongO])
    decreases |s|
  {
    if s == [] {
      assert CharGroups(s) == [];
    } else {
      var init, c := s[..|s| - 1], s[|s| - 1];
      assert s == init + [c];
      CharGroupsSnoc(init, c);
      var gs := CharGroups(s);
      assert gs[..|gs| - 1] == CharGroups(init) && gs[|gs| - 1] == VariantsForChar(c);
      GroupCount(init);
      assert multiset(s) == multiset(init) + multiset{c};
    }
  }

  /** `convertToVariants` gives `3^k` spellings for a Romaji with `k` letters `ō`; an empty Romaji makes the
      builder throw. */
  lemma SpellingCount(romaji: string)
    ensures PassportSpellings(romaji).Failure? <==> romaji == []
    ensures romaji == [] ==> PassportSpellings(romaji) == Failure(IllegalState)
    ensures romaji != [] ==> |PassportSpellings(romaji).value| == Power(3, multiset(romaji)[LongO])
  {
    GroupCount(romaji);
  }

  /** Joining strings without macron vowels gives a string without them. */
  lemma {:induction false} JoinNoMacron(parts: seq<string>)
    requires forall j :: 0 <= j < |parts| ==> NoMacron(parts[j])
    ensures NoMacron(Join(parts))
    decreases |parts|
  {
    if parts != [] {
      JoinNoMacron(parts[1..]);
      var head, rest := parts[0], Join(parts[1..]);
      assert forall i :: 0 <= i < |head + rest| ==> (head + rest)[i] == if i < |head| then head[i] else rest[i - |head|];
    }
  }

  /** No spelling holds `ō`, `ū` or `ē`: the Romaji with macrons is not kept. */
  lemma SpellingsHaveNoMacron(romaji: string)
    requires PassportSpellings(romaji).Success?
    ensures forall k :: 0 <= k < |PassportSpellings(romaji).value| ==> NoMacron(PassportSpellings(romaji).value[k])
  {
    var gs := CharGroups(romaji);
    var combos := Product(gs);
    forall k | 0 <= k < |combos|
      ensures NoMacron(Join(combos[k]))
    {
      forall j | 0 <= j < |combos[k]|
        ensures NoMacron(combos[k][j])
      {
        ProductShape(gs, k);
        ProductPicks(gs, k, j);
      }
      JoinNoMacron(combos[k]);
    }
  }

  /** The one-character strings of `s`, in order. */
  function Letters(s: string): (r: seq<string>)
    ensures |r| == |s|
  {
    seq(|s|, i requires 0 <= i < |s| => [s[i]])
  }

  /** Joining the letters of `s` gives `s` back. */
  lemma {:induction false} JoinLetters(s: string)
    ensures Join(Letters(s)) == s
    decreases |s|
  {
    if s != [] {
      assert Letters(s)[1..] == Letters(s[1..]);
      JoinLetters(s[1..]);
      assert s == [s[0]] + s[1..];
    }
  }

  /** Without macrons, every character is its own single spelling. */
  lemma PlainGroups(s: string)
    requires NoMacron(s)
    ensures AllSingletons(CharGroups(s)) && Firsts(CharGroups(s)) == Letters(s)
  {
  }

  /** A Romaji without macrons has itself as its only spelling. */
  lemma PlainSpelling(romaji: string)
    requires romaji != [] && NoMacron(romaji)
    ensures PassportSpellings(romaji) == Success([romaji])
  {
    PlainGroups(romaji);
    ProductOfSingletons(CharGroups(romaji));
    assert Product(CharGroups(romaji)) == [Letters(romaji)];
    JoinLetters(romaji);
    assert JoinAll([Letters(romaji)]) == [Join(Letters(romaji))];
  }

  /** A conversion whose Romaji is non-empty and has no macron has that Romaji as its only variant. */
  lemma PlainVariants(table: Table, hiragana: string)
    requires Romanize(table, hiragana).Success?
    requires Romanize(table, hiragana).value != [] && NoMacron(Romanize(table, hiragana).value)
    ensures Spellings(table, hiragana) == Success([Romanize(table, hiragana).value])
  {
    PlainSpelling(Romanize(table, hiragana).value);
  }

  /** The groups of a concatenation are the groups of its parts. */
  lemma CharGroupsConcat(s: string, t: string)
    ensures CharGroups(s + t) == CharGroups(s) + CharGroups(t)
  {
    assert forall i :: 0 <= i < |s + t| ==> (s + t)[i] == if i < |s| then s[i] else t[i - |s|];
  }

  /** Joining a concatenation joins its parts. */
  lemma {:induction false} JoinConcat(x: seq<string>, y: seq<string>)
    ensures Join(x + y) == Join(x) + Join(y)
    decreases |x|
  {
    if x == [] {
      assert x + y == y;
    } else {
      assert (x + y)[1..] == x[1..] + y;
      JoinConcat(x[1..], y);
    }
  }

  /** The combinations of a macron-free part followed by `ō`: the part's letters and each spelling of `ō`. */
  lemma LongOLast(a: string)
    requires NoMacron(a)
    ensures Product(CharGroups(a + [LongO])) == [Letters(a) + ["o"], Letters(a) + ["oh"], Letters(a) + ["oo"]]
  {
    var ga, v := CharGroups(a), VariantsForChar(LongO);
    CharGroupsSnoc(a, LongO);
    PlainGroups(a);
    ProductOfSingletons(ga);
    assert (ga + [v])[..|ga|] == ga;
    ExtendAll([Letters(a)], v);
  }

  /** Joining the letters of `a`, one spelling `x` and the letters of `b` gives `a + x + b`. */
  lemma JoinAround(a: string, x: string, b: string)
    ensures Join(Letters(a) + [x] + Letters(b)) == a + x + b
  {
    JoinLetters(a);
    JoinLetters(b);
    JoinConcat(Letters(a) + [x], Letters(b));
    JoinConcat(Letters(a), [x]);
    assert Join([x]) == x + Join([]);
  }

  /** The combinations of a macron-free part, `ō` and another macron-free part. */
  lemma LongOBetween(a: string, b: string)
    requires NoMacron(a) && NoMacron(b)
    ensures Product(CharGroups(a + [LongO] + b))
         == [Letters(a) + ["o"] + Letters(b), Letters(a) + ["oh"] + Letters(b), Letters(a) + ["oo"] + Letters(b)]
  {
    var la, lb := Letters(a), Letters(b);
    CharGroupsConcat(a + [LongO], b);
    LongOLast(a);
    PlainGroups(b);
    ProductThenSingletons(CharGroups(a + [LongO]), CharGroups(b));
  }

  /** One `ō` between macron-free parts is spelled `o`, `oh`, `oo`, in that order. */
  lemma OneLongO(a: string, b: string)
    requires NoMacron(a) && NoMacron(b)
    ensures PassportSpellings(a + [LongO] + b) == Success([a + "o" + b, a + "oh" + b, a + "oo" + b])
  {
    LongOBetween(a, b);
    var la, lb := Letters(a), Letters(b);
    var combos := [la + ["o"] + lb, la + ["oh"] + lb, la + ["oo"] + lb];
    JoinAround(a, "o", b);
    JoinAround(a, "oh", b);
    JoinAround(a, "oo", b);
    assert JoinAll(combos) == [Join(combos[0]), Join(combos[1]), Join(combos[2])];
  }
}
