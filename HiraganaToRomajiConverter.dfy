/** Hiragana to Romaji: a greedy scan that tries two characters, then one, against a lookup table, with the
    small-tsu gemination marker, the long-vowel rewrite to `ō`, the final `uu` pass, and the passport
    spelling variants built by the rule-of-product builder. */
module HiraganaToRomaji {
  import opened Results
  import opened JavaStrings
  import opened Combinatorics
  import CombinatoricsLemmas

  /** The lookup table from one or two Hiragana to their Romaji. */
  type Table = map<string, string>

  /** The longest chunk the scan tries. */
  const MaxChunk: nat := 2

  /** `っ`: doubles the first letter of the next translation. */
  const SmallTsu: char := 'っ'
  /** `う`: the second half of a long vowel. */
  const LetterU: char := 'う'
  /** The macron vowels the converter writes or spells out. */
  const LongO: char := 'ō'
  const LongU: char := 'ū'
  const LongE: char := 'ē'

  /** `Map.get`: the translation of `key`, or nothing. */
  function Lookup(table: Table, key: string): Option<string>
  {
    if key in table then Some(table[key]) else None
  }

  /** The result of one attempt of the inner loop. */
  datatype Attempt =
    | Translated(text: string, doubleNext: bool, latin: string)  // romaji found; new flag and buffer
    | Untranslated(chunk: string, latin: string)                // no romaji; the trimmed chunk and the buffer

  /** What the outer loop carries from one position to the next. */
  datatype ScanState = ScanState(cursor: nat, doubleNext: bool, latin: string)

  /** The buffer rewrite of the long-vowel rule: the first `o` of the buffer, wherever it is, becomes `ō`. */
  function MarkFirstO(latin: string): (r: string)
    requires 'o' in latin
    ensures |r| == |latin|
    ensures r[IndexOf(latin, 'o')] == LongO
    ensures forall i :: 0 <= i < |latin| && i != IndexOf(latin, 'o') ==> r[i] == latin[i]
    ensures 'o' !in latin[..IndexOf(latin, 'o')]
  {
    var o := IndexOf(latin, 'o');
    latin[..o] + [LongO] + latin[o + 1..]
  }

  /** The long-vowel test: the chunk holds `う`, the first `う` of the input is neither its first nor its last
      character, and the chunk itself has no translation. */
  predicate IsLongVowel(table: Table, input: string, chunk: string)
  {
    var u := IndexOf(input, LetterU);
    LetterU in chunk && u != |input| - 1 && chunk !in table && u != 0
  }

  /** The long-vowel test by positions: when the input holds `う`, it does not start with one and has one before
      its last character; an input without `う` passes whenever it is non-empty. */
  lemma LongVowelTest(table: Table, input: string, chunk: string)
    ensures LetterU in input ==>
              (IsLongVowel(table, input, chunk) <==>
                 LetterU in chunk && chunk !in table && input[0] != LetterU && LetterU in input[..|input| - 1])
    ensures LetterU !in input ==>
              (IsLongVowel(table, input, chunk) <==> LetterU in chunk && chunk !in table && input != [])
  {
    if LetterU in input {
      var u := IndexOf(input, LetterU);
      if LetterU in input[..|input| - 1] {
        var i :| 0 <= i < |input| - 1 && input[..|input| - 1][i] == LetterU;
        assert input[i] == LetterU;
      }
      if 0 <= u < |input| - 1 {
        assert input[..|input| - 1][u] == LetterU;
      }
    }
  }

  /** The end of an attempt: doubling the first letter when a `っ` is pending, which fails on an empty
      translation. */
  function Found(chunk: string, found: Option<string>, doubleNext: bool, latin: string): (r: Result<Attempt>)
    ensures r.Failure? ==> r.error == StringIndexOutOfBounds
    ensures r.Success? ==> r.value.latin == latin
    ensures r.Success? && r.value.Untranslated? ==> r.value.chunk == chunk
    ensures r.Success? && r.value.Translated? ==> !r.value.doubleNext
  {
    match found
    case None => Success(Untranslated(chunk, latin))
    case Some(t) =>
      if !doubleNext then Success(Translated(t, false, latin))
      else if t == [] then Failure(StringIndexOutOfBounds)
      else Success(Translated([t[0]] + t, false, latin))
  }

  /** One attempt of the inner loop on the `width` characters at `cursor`. */
  function TryChunk(table: Table, input: string, cursor: nat, width: nat, doubleNext: bool, latin: string)
    : (r: Result<Attempt>)
    requires 1 <= width && cursor + width <= |input|
    ensures r.Failure? ==> r.error == StringIndexOutOfBounds
    ensures Trim(input[cursor..cursor + width]) == [] ==> r.Failure?
    ensures r.Success? ==> |r.value.latin| == |latin|
    ensures r.Success? && r.value.Untranslated? ==> r.value.chunk == Trim(input[cursor..cursor + width])
    ensures r.Success? && r.value.Translated? && r.value.doubleNext ==>
              r.value.text == [] && width == 1 && input[cursor] == SmallTsu && cursor < |input| - 1
  {
    var chunk := Trim(input[cursor..cursor + width]);
    if chunk == [] then Failure(StringIndexOutOfBounds)
    else if width == 1 && chunk[0] == SmallTsu && cursor < |input| - 1 then
      Success(Translated("", true, latin))
    else if IsLongVowel(table, input, chunk) then
      if EndsWith(latin, "o") then
        if |chunk| < 2 then Failure(StringIndexOutOfBounds)
        else
          assert latin[|latin| - 1] == 'o';
          Found(chunk, Lookup(table, chunk[1..2]), doubleNext, MarkFirstO(latin))
      else Found(chunk, Lookup(table, chunk[..1]), doubleNext, latin)
    else Found(chunk, Lookup(table, chunk), doubleNext, latin)
  }

  /** The inner loop: attempts at `width`, `width - 1`, ... down to 1, stopping at the first translation;
      yields the width it stopped at and that attempt. */
  function ChunkLoop(table: Table, input: string, cursor: nat, width: nat, doubleNext: bool, latin: string)
    : (r: Result<(nat, Attempt)>)
    requires 1 <= width && cursor + width <= |input|
    ensures r.Success? ==> 1 <= r.value.0 <= width
    ensures r.Success? && r.value.1.Untranslated? ==> r.value.0 == 1
    ensures r.Success? ==> |r.value.1.latin| == |latin|
    decreases width
  {
    match TryChunk(table, input, cursor, width, doubleNext, latin)
    case Failure(e) => Failure(e)
    case Success(a) =>
      if a.Translated? || width == 1 then Success((width, a))
      else ChunkLoop(table, input, cursor, width - 1, doubleNext, a.latin)
  }

  /** The width the outer loop starts with at `cursor`: two, or one at the last character. */
  function StartWidth(input: string, cursor: nat): (w: nat)
    requires cursor < |input|
    ensures 1 <= w <= MaxChunk && cursor + w <= |input|
  {
    if MaxChunk < |input| - cursor then MaxChunk else |input| - cursor
  }

  /** Where the outer loop goes after the inner loop stopped at width `k` with attempt `a`: a translation
      advances by its width, an untranslated character is copied and advances by one. */
  function Advance(st: ScanState, k: nat, a: Attempt): (r: ScanState)
    ensures a.latin <= r.latin
    ensures a.Translated? ==> r.latin[|a.latin|..] == a.text && r.cursor == st.cursor + k && r.doubleNext == a.doubleNext
    ensures a.Untranslated? ==>
              r.latin[|a.latin|..] == a.chunk && r.cursor == st.cursor + 1 && r.doubleNext == st.doubleNext
  {
    match a
    case Translated(text, flag, latin) => ScanState(st.cursor + k, flag, latin + text)
    case Untranslated(chunk, latin) => ScanState(st.cursor + 1, st.doubleNext, latin + chunk)
  }

  /** One iteration of the outer loop. */
  function Step(table: Table, input: string, st: ScanState): (r: Result<ScanState>)
    requires st.cursor < |input|
    ensures r.Success? ==> st.cursor < r.value.cursor <= st.cursor + MaxChunk && r.value.cursor <= |input|
    ensures r.Success? ==> |st.latin| <= |r.value.latin|
  {
    match ChunkLoop(table, input, st.cursor, StartWidth(input, st.cursor), st.doubleNext, st.latin)
    case Failure(e) => Failure(e)
    case Success((k, a)) => Success(Advance(st, k, a))
  }

  /** The outer loop from `st` to the end of the input: the buffer, or the first exception. */
  function Scan(table: Table, input: string, st: ScanState): (r: Result<string>)
    requires st.cursor <= |input|
    ensures r.Success? ==> |st.latin| <= |r.value|
    decreases |input| - st.cursor
  {
    if st.cursor == |input| then Success(st.latin)
    else
      match Step(table, input, st)
      case Failure(e) => Failure(e)
      case Success(next) => Scan(table, input, next)
  }

  /** `s` holds `uu` at `i`. */
  predicate DoubleUAt(s: string, i: int)
  {
    0 <= i < |s| - 1 && s[i] == 'u' && s[i + 1] == 'u'
  }

  /** `s` contains `uu`. */
  predicate HasDoubleU(s: string)
  {
    exists i :: 0 <= i < |s| && DoubleUAt(s, i)
  }

  /** `String.replace("uu", "ū")`: every `uu`, left to right and without overlap, becomes `ū`. */
  function ReplaceUU(s: string): (r: string)
    ensures |r| <= |s|
    ensures r == [] <==> s == []
    ensures r != [] ==> (r[0] == 'u' <==> s[0] == 'u' && !DoubleUAt(s, 0))
    decreases |s|
  {
    if |s| < 2 then s
    else if DoubleUAt(s, 0) then [LongU] + ReplaceUU(s[2..])
    else [s[0]] + ReplaceUU(s[1..])
  }

  /** Every `uu` is gone after the replacement: a `u` left over is followed by something other than `u`. */
  lemma {:induction false} ReplaceUUClean(s: string)
    ensures !HasDoubleU(ReplaceUU(s))
    decreases |s|
  {
    var r := ReplaceUU(s);
    if |s| < 2 {
    } else if DoubleUAt(s, 0) {
      ReplaceUUClean(s[2..]);
      forall i | 0 <= i < |r|
        ensures !DoubleUAt(r, i)
      {
        if i > 0 {
          assert !DoubleUAt(ReplaceUU(s[2..]), i - 1);
        }
      }
    } else {
      var rest := ReplaceUU(s[1..]);
      ReplaceUUClean(s[1..]);
      forall i | 0 <= i < |r|
        ensures !DoubleUAt(r, i)
      {
        if i > 0 {
          assert !DoubleUAt(rest, i - 1);
        } else if s[0] == 'u' && rest != [] {
          assert s[1] != 'u';
          assert rest[0] != 'u';
        }
      }
    }
  }

  /** The replacement changes `s` exactly when `s` holds a `uu`, and then it shortens it. */
  lemma {:induction false} ReplaceUUChanges(s: string)
    ensures ReplaceUU(s) == s <==> !HasDoubleU(s)
    ensures HasDoubleU(s) ==> |ReplaceUU(s)| < |s|
    decreases |s|
  {
    if |s| < 2 {
      assert !HasDoubleU(s);
    } else if DoubleUAt(s, 0) {
      assert |ReplaceUU(s)| < |s|;
    } else {
      ReplaceUUChanges(s[1..]);
      assert HasDoubleU(s) <==> HasDoubleU(s[1..]) by {
        if HasDoubleU(s) {
          var i :| 0 <= i < |s| && DoubleUAt(s, i);
          assert DoubleUAt(s[1..], i - 1);
        }
        if HasDoubleU(s[1..]) {
          var i :| 0 <= i < |s[1..]| && DoubleUAt(s[1..], i);
          assert DoubleUAt(s, i + 1);
        }
      }
      assert ReplaceUU(s) == s <==> ReplaceUU(s[1..]) == s[1..] by {
        assert s == [s[0]] + s[1..];
        if ReplaceUU(s) == s {
          assert ReplaceUU(s)[1..] == ReplaceUU(s[1..]);
        }
      }
    }
  }

  /** The final pass: a result ending in `uu` loses every `uu`, and gets shorter; any other result is kept. */
  function PostPass(latin: string): (r: string)
    ensures EndsWith(latin, "uu") ==> r == ReplaceUU(latin) && !HasDoubleU(r) && |r| < |latin|
    ensures !EndsWith(latin, "uu") ==> r == latin
  {
    ReplaceUUClean(latin);
    ReplaceUUChanges(latin);
    if EndsWith(latin, "uu") then
      assert DoubleUAt(latin, |latin| - 2);
      ReplaceUU(latin)
    else latin
  }

  /** `convert`: the whole scan from the start, then the final pass. */
  function Romanize(table: Table, hiragana: string): Result<string>
  {
    match Scan(table, hiragana, ScanState(0, false, ""))
    case Failure(e) => Failure(e)
    case Success(latin) => Success(PostPass(latin))
  }

  /** An exception in the inner loop ends the whole conversion with it. */
  lemma FailureStops(table: Table, hiragana: string, st: ScanState, e: Error)
    requires st.cursor < |hiragana|
    requires ChunkLoop(table, hiragana, st.cursor, StartWidth(hiragana, st.cursor), st.doubleNext, st.latin) == Failure(e)
    requires Scan(table, hiragana, st) == Scan(table, hiragana, ScanState(0, false, ""))
    ensures Romanize(table, hiragana) == Failure(e)
  {
  }

  /** The Java locals after one pass of the inner loop, read as an attempt: a translation when `latinChar`
      holds one, otherwise the untranslated chunk. */
  function AttemptOf(o: Outcome, chunk: string, latinChar: Option<string>, doubleNext: bool, latin: string)
    : Result<Attempt>
  {
    if o.Fail? then Failure(o.error)
    else if latinChar.Some? then Success(Translated(latinChar.value, doubleNext, latin))
    else Success(Untranslated(chunk, latin))
  }

  /** The Java locals after the inner loop, read as its result: the width it stopped at and the attempt
      there, or width 1 and the last untranslated chunk when `chunkSize` ran down to 0. */
  function StopOf(o: Outcome, chunkSize: nat, chunk: string, latinChar: Option<string>, doubleNext: bool, latin: string)
    : Result<(nat, Attempt)>
  {
    if o.Fail? then Failure(o.error)
    else if chunkSize > 0 && latinChar.Some? then Success((chunkSize, Translated(latinChar.value, doubleNext, latin)))
    else Success((1, Untranslated(chunk, latin)))
  }

  /** One pass of the inner loop of `convert` at width `chunkSize`: the trimmed chunk, the translation
      (none when the chunk has none), and the new flag and buffer; or the exception. */
  method TryChunkAt(table: Table, hiragana: string, cursor: nat, chunkSize: nat, doubleNext0: bool, latin0: string)
    returns (o: Outcome, chunk: string, latinChar: Option<string>, doubleNext: bool, latin: string)
    requires 1 <= chunkSize && cursor + chunkSize <= |hiragana|
    ensures TryChunk(table, hiragana, cursor, chunkSize, doubleNext0, latin0) == AttemptOf(o, chunk, latinChar, doubleNext, latin)
    ensures latinChar.None? ==> doubleNext == doubleNext0
  {
    var len := |hiragana|;
    doubleNext, latin := doubleNext0, latin0;
    chunk := Trim(hiragana[cursor..cursor + chunkSize]);
    if chunk == [] {
      // chunk.charAt(0)
      return Fail(StringIndexOutOfBounds), chunk, None, doubleNext, latin;
    }
    if chunkSize == 1 && chunk[0] == SmallTsu && cursor < len - 1 {
      return Pass, chunk, Some(""), true, latin;
    }
    var u := IndexOf(hiragana, LetterU);
    if LetterU in chunk && u != len - 1 && chunk !in table && u != 0 {
      assert IsLongVowel(table, hiragana, chunk);
      if EndsWith(latin, "o") {
        if |chunk| < 2 {
          // chunk.substring(1, 2)
          return Fail(StringIndexOutOfBounds), chunk, None, doubleNext, latin;
        }
        latinChar := Lookup(table, chunk[1..2]);
        assert latin[|latin| - 1] == 'o';
        latin := MarkFirstO(latin);
      } else {
        latinChar := Lookup(table, chunk[..1]);
      }
    } else {
      assert !IsLongVowel(table, hiragana, chunk);
      latinChar := Lookup(table, chunk);
    }
    if latinChar.Some? && doubleNext {
      if latinChar.value == [] {
        // latinChar.charAt(0)
        return Fail(StringIndexOutOfBounds), chunk, latinChar, doubleNext, latin;
      }
      latinChar := Some([latinChar.value[0]] + latinChar.value);
      doubleNext := false;
    }
    o := Pass;
  }

  /** The inner loop after one attempt: stop at a translation or at width 1, otherwise try one less. */
  lemma ChunkLoopAfter(table: Table, input: string, cursor: nat, width: nat, doubleNext: bool, latin: string,
                       a: Result<Attempt>)
    requires 1 <= width && cursor + width <= |input|
    requires TryChunk(table, input, cursor, width, doubleNext, latin) == a
    ensures a.Failure? ==> ChunkLoop(table, input, cursor, width, doubleNext, latin) == Failure(a.error)
    ensures a.Success? && (a.value.Translated? || width == 1) ==>
              ChunkLoop(table, input, cursor, width, doubleNext, latin) == Success((width, a.value))
    ensures a.Success? && a.value.Untranslated? && width > 1 ==>
              ChunkLoop(table, input, cursor, width, doubleNext, latin)
                == ChunkLoop(table, input, cursor, width - 1, doubleNext, a.value.latin)
  {
  }

  /** The inner loop of `convert` at `cursor`, from width `chunkSize0` down: the width it stopped at (0 when
      nothing translated), the last chunk, the translation, and the new flag and buffer; or the exception. */
  method TranslateAt(table: Table, hiragana: string, cursor: nat, chunkSize0: nat, doubleNext0: bool, latin0: string)
    returns (o: Outcome, chunkSize: nat, chunk: string, latinChar: Option<string>, doubleNext: bool, latin: string)
    requires 1 <= chunkSize0 && cursor + chunkSize0 <= |hiragana|
    ensures ChunkLoop(table, hiragana, cursor, chunkSize0, doubleNext0, latin0)
         == StopOf(o, chunkSize, chunk, latinChar, doubleNext, latin)
    ensures o.Pass? ==> (chunkSize > 0 <==> latinChar.Some?)
    ensures latinChar.None? ==> doubleNext == doubleNext0
  {
    chunkSize, chunk, latinChar, doubleNext, latin := chunkSize0, "", None, doubleNext0, latin0;
    ghost var outcome := ChunkLoop(table, hiragana, cursor, chunkSize0, doubleNext0, latin0);
    while chunkSize > 0
      invariant chunkSize <= chunkSize0
      invariant doubleNext == doubleNext0 && latinChar == None
      invariant chunkSize > 0 ==> outcome == ChunkLoop(table, hiragana, cursor, chunkSize, doubleNext, latin)
      invariant chunkSize == 0 ==> outcome == Success((1, Untranslated(chunk, latin)))
      decreases chunkSize
    {
      ghost var latinBefore := latin;
      o, chunk, latinChar, doubleNext, latin := TryChunkAt(table, hiragana, cursor, chunkSize, doubleNext, latin);
      ghost var a := AttemptOf(o, chunk, latinChar, doubleNext, latin);
      ChunkLoopAfter(table, hiragana, cursor, chunkSize, doubleNext0, latinBefore, a);
      if o.Fail? || latinChar.Some? {
        assert outcome == StopOf(o, chunkSize, chunk, latinChar, doubleNext, latin);
        return;
      }
      assert a == Success(Untranslated(chunk, latin));
      chunkSize := chunkSize - 1;
    }
    o := Pass;
  }

  /** A step of the outer loop leaves the rest of the scan unchanged. */
  lemma ScanAdvance(table: Table, hiragana: string, st: ScanState, k: nat, a: Attempt)
    requires st.cursor < |hiragana|
    requires ChunkLoop(table, hiragana, st.cursor, StartWidth(hiragana, st.cursor), st.doubleNext, st.latin) == Success((k, a))
    ensures Advance(st, k, a).cursor <= |hiragana|
    ensures Scan(table, hiragana, st) == Scan(table, hiragana, Advance(st, k, a))
  {
    assert Step(table, hiragana, st) == Success(Advance(st, k, a));
  }

  /** The scan is done at the end of the input: the result is the buffer after the final pass. */
  lemma ScanFinished(table: Table, hiragana: string, st: ScanState)
    requires st.cursor == |hiragana|
    requires Scan(table, hiragana, st) == Scan(table, hiragana, ScanState(0, false, ""))
    ensures Romanize(table, hiragana) == Success(PostPass(st.latin))
  {
  }

  /** `convert`, with the outer loop of the source; the inner loop is `TranslateAt`. */
  method Convert(table: Table, hiragana: string) returns (r: Result<string>)
    ensures r == Romanize(table, hiragana)
  {
    var chunk: string := "";
    var chunkSize: nat;
    var cursor := 0;
    var len := |hiragana|;
    var doubleNext := false;
    var latin: string := "";
    var latinChar: Option<string> := None;
    while cursor < len
      invariant 0 <= cursor <= len
      invariant Scan(table, hiragana, ScanState(cursor, doubleNext, latin)) == Scan(table, hiragana, ScanState(0, false, ""))
      decreases len - cursor
    {
      chunkSize := if MaxChunk < len - cursor then MaxChunk else len - cursor;
      ghost var start := ScanState(cursor, doubleNext, latin);
      assert chunkSize == StartWidth(hiragana, cursor);
      var o;
      o, chunkSize, chunk, latinChar, doubleNext, latin := TranslateAt(table, hiragana, cursor, chunkSize, doubleNext, latin);
      ghost var stop := StopOf(o, chunkSize, chunk, latinChar, doubleNext, latin);
      if o.Fail? {
        FailureStops(table, hiragana, start, o.error);
        return Failure(o.error);
      }
      ScanAdvance(table, hiragana, start, stop.value.0, stop.value.1);
      ghost var next := Advance(start, stop.value.0, stop.value.1);
      if latinChar.None? {
        latinChar := Some(chunk);
      }
      latin := latin + latinChar.value;
      cursor := cursor + if chunkSize > 0 then chunkSize else 1;
      assert doubleNext == next.doubleNext;
      assert cursor == next.cursor;
      assert latin == next.latin;
      assert ScanState(cursor, doubleNext, latin) == next;
    }
    ScanFinished(table, hiragana, ScanState(cursor, doubleNext, latin));
    var result := latin;
    if EndsWith(result, "uu") {
      result := ReplaceUU(result);
    }
    return Success(result);
  }

  /** The macron vowels of the Romaji output, which passport spellings avoid. */
  predicate IsMacron(c: char)
  {
    c == LongO || c == LongU || c == LongE
  }

  /** `s` holds no macron vowel. */
  predicate NoMacron(s: string)
  {
    forall i :: 0 <= i < |s| ==> !IsMacron(s[i])
  }

  /** `variantsForChar`: the passport spellings of one Romaji character. */
  function VariantsForChar(c: char): (r: seq<string>)
    ensures r != []
    ensures forall i :: 0 <= i < |r| ==> NoMacron(r[i])
    ensures !IsMacron(c) ==> r == [[c]]
    ensures c == LongO ==> |r| == 3
    ensures c != LongO ==> |r| == 1
  {
    match c
    case 'ō' => ["o", "oh", "oo"]
    case 'ū' => ["u"]
    case 'ē' => ["ee"]
    case _ => [[c]]
  }

  /** One group of spellings per character of `romaji`, in order. */
  function CharGroups(romaji: string): (gs: seq<seq<string>>)
    ensures |gs| == |romaji|
  {
    seq(|romaji|, i requires 0 <= i < |romaji| => VariantsForChar(romaji[i]))
  }

  /** One more character adds its group at the end. */
  lemma CharGroupsSnoc(s: string, c: char)
    ensures CharGroups(s + [c]) == CharGroups(s) + [VariantsForChar(c)]
  {
    assert forall i :: 0 <= i < |s| ==> (s + [c])[i] == s[i];
  }

  /** `String.join("", parts)`. */
  function Join(parts: seq<string>): string
  {
    if parts == [] then "" else parts[0] + Join(parts[1..])
  }

  /** Every combination joined into one string, in order. */
  function JoinAll(combos: seq<seq<string>>): (r: seq<string>)
    ensures |r| == |combos|
  {
    seq(|combos|, i requires 0 <= i < |combos| => Join(combos[i]))
  }

  /** The spellings of `romaji`: every combination of the character spellings, joined; the builder refuses an
      empty Romaji because it then has no group. */
  function PassportSpellings(romaji: string): Result<seq<string>>
  {
    if romaji == [] then Failure(IllegalState) else Success(JoinAll(Product(CharGroups(romaji))))
  }

  /** `convertToVariants`: the conversion's exception, or the spellings of its result. */
  function Spellings(table: Table, hiragana: string): Result<seq<string>>
  {
    match Romanize(table, hiragana)
    case Failure(e) => Failure(e)
    case Success(romaji) => PassportSpellings(romaji)
  }

  /** `convertToVariants`: converts, then spells out the result. */
  method ConvertToVariants(table: Table, input: string) returns (r: Result<seq<string>>)
    ensures r == Spellings(table, input)
  {
    var converted := Convert(table, input);
    if converted.Failure? {
      return Failure(converted.error);
    }
    r := SpellOut(converted.value);
  }

  /** The rest of `convertToVariants`: one builder group per Romaji character, then every built combination
      joined. */
  method SpellOut(romaji: string) returns (r: Result<seq<string>>)
    ensures r == PassportSpellings(romaji)
  {
    var builder := FeedBuilder(romaji);
    var list := builder.Build();
    if list.Failure? {
      return Failure(list.error);
    }
    var result := JoinEach(list.value);
    return Success(result);
  }

  /** The loop of `convertToVariants` that feeds the builder: a new group per character, holding its spellings. */
  method FeedBuilder(romaji: string) returns (builder: RuleOfProductComboBuilder<string>)
    ensures fresh(builder) && builder.Valid()
    ensures builder.groups == CharGroups(romaji)
  {
    builder := new RuleOfProductComboBuilder<string>();
    for i := 0 to |romaji|
      invariant builder.Valid()
      invariant builder.groups == CharGroups(romaji[..i])
    {
      ghost var before := builder.groups;
      var o := builder.NewGroup();
      assert o.Pass?;
      var vs := VariantsForChar(romaji[i]);
      builder.Variants(vs);
      WithVariantsNewGroup(before, vs);
      assert romaji[..i + 1] == romaji[..i] + [romaji[i]];
      CharGroupsSnoc(romaji[..i], romaji[i]);
    }
    assert romaji[..|romaji|] == romaji;
  }

  /** The loop of `convertToVariants` that joins each built combination, in order. */
  method JoinEach(combos: seq<seq<string>>) returns (result: seq<string>)
    ensures result == JoinAll(combos)
  {
    result := [];
    for j := 0 to |combos|
      invariant result == JoinAll(combos[..j])
    {
      result := result + [Join(combos[j])];
    }
    assert combos[..|combos|] == combos;
  }
}
