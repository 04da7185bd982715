/**
 * The word-count kernel (src/rnbench.c:122-239): build a text of random words
 * from a fixed 32-word lexicon, then count its words with `wc_count`.
 *
 * `wc_count` counts a word only when whitespace follows it, so a final word
 * that runs into the terminating NUL is not counted; the generated text always
 * ends with a space, so on the kernel's own texts the count is exact.
 */
module WordCount {
  import opened Prng
  import opened CStrings

  /** `WC_TEST_WORDS_NUMBER` */
  const WordsNumber: int := 32
  /** `WC_MAX_TEST_DATA_SIZE` */
  const MaxTestDataSize: int := 512
  /** `BENCH_WC_ITERATIONS` */
  const Iterations: int := 500
  /** The longest lexicon word (11 characters) plus its trailing space. */
  const WordSlot: int := 12

  /** `test_words` */
  const Lexicon: seq<string> := [
    "lorem", "ipsum", "dolor", "sit", "amet", "consectetur", "adipiscing", "elit",
    "sed", "tristique", "ante", "libero", "eu", "sodales", "arcu", "euismod",
    "sit", "amet", "duis", "nec", "consequat", "metus", "donec", "ut",
    "lectus", "vel", "dui", "blandit", "blandit", "nam", "luctus", "scelerisque"
  ]

  /** A word: no whitespace and no NUL inside. */
  predicate IsWord(w: seq<char>)
  {
    forall j :: 0 <= j < |w| ==> !IsWhitespace(w[j]) && w[j] != '\0'
  }

  /** A lexicon entry the text builder can use: a non-empty word that fits in a slot with its space. */
  ghost predicate FitsSlot(w: seq<char>)
  {
    1 <= |w| < WordSlot && IsWord(w)
  }

  lemma LexiconWordsFirst()
    ensures forall k :: 0 <= k < 8 ==> FitsSlot(Lexicon[k])
  {
  }

  lemma LexiconWordsSecond()
    ensures forall k :: 8 <= k < 16 ==> FitsSlot(Lexicon[k])
  {
  }

  lemma LexiconWordsThird()
    ensures forall k :: 16 <= k < 24 ==> FitsSlot(Lexicon[k])
  {
  }

  lemma LexiconWordsFourth()
    ensures forall k :: 24 <= k < 32 ==> FitsSlot(Lexicon[k])
  {
  }

  /** Every lexicon entry is a non-empty word that fits in a slot with its space. */
  lemma LexiconWords()
    ensures |Lexicon| == WordsNumber
    ensures forall k :: 0 <= k < |Lexicon| ==> 1 <= |Lexicon[k]| < WordSlot && IsWord(Lexicon[k])
  {
    LexiconWordsFirst();
    LexiconWordsSecond();
    LexiconWordsThird();
    LexiconWordsFourth();
    assert forall k :: 0 <= k < |Lexicon| ==> FitsSlot(Lexicon[k]);
  }

  /**
   * The number of word ends in `s`: the positions where a whitespace
   * character directly follows a non-whitespace one.
   */
  function WordEnds(s: seq<char>): nat
  {
    if |s| < 2 then 0
    else WordEnds(s[..|s| - 1]) + (if IsWhitespace(s[|s| - 1]) && !IsWhitespace(s[|s| - 2]) then 1 else 0)
  }

  /** Appending non-whitespace characters adds no word end. */
  lemma {:induction false} WordEndsAppendWord(t: seq<char>, w: seq<char>)
    requires forall j :: 0 <= j < |w| ==> !IsWhitespace(w[j])
    ensures WordEnds(t + w) == WordEnds(t)
  {
    if w == [] {
      assert t + w == t;
    } else {
      var w' := w[..|w| - 1];
      assert (t + w)[..|t + w| - 1] == t + w';
      WordEndsAppendWord(t, w');
    }
  }

  /** A word followed by a space adds exactly one word end. */
  lemma WordEndsAppendWordSpace(t: seq<char>, w: seq<char>)
    requires |w| >= 1 && IsWord(w)
    ensures WordEnds(t + w + [' ']) == WordEnds(t) + 1
  {
    WordEndsAppendWord(t, w);
    assert (t + w + [' '])[..|t + w|] == t + w;
  }

  /** `wc_count` counts what `WordEnds` counts: `"single"` has no word end, `"a b  c"` two. */
  lemma WordEndsExamples()
    ensures WordEnds("") == 0
    ensures WordEnds("   ") == 0
    ensures WordEnds("single") == 0
    ensures WordEnds("a b  c") == 2
    ensures WordEnds("a b  c ") == 3
  {
    WordEndsAppendWord([], "single");
    assert "single" == [] + "single";
    assert "a b  c"[..5] == "a b  ";
    assert "a b  "[..4] == "a b ";
    assert "a b "[..3] == "a b";
    assert "a b"[..2] == "a ";
    assert "a "[..1] == "a";
    assert "a b  c "[..6] == "a b  c";
  }

  /**
   * `wc_count`: a null text and an empty text count 0; otherwise one word is
   * counted per whitespace character that ends a word.
   */
  method WcCount(text: array?<char>) returns (count: nat)
    requires text != null ==> IsCString(text[..])
    ensures text == null ==> count == 0
    ensures text != null ==> count == WordEnds(CStr(text[..]))
  {
    if text == null {
      return 0;
    }
    var len := StrLen(text);
    if len == 0 {
      return 0;
    }
    count := 0;
    var inWord := false;
    var i := 0;
    while text[i] != '\0'
      invariant 0 <= i <= len
      invariant count == WordEnds(text[..i])
      invariant inWord <==> i > 0 && !IsWhitespace(text[i - 1])
      decreases len - i
    {
      var c := text[i];
      if c == '\0' {
        // The early exit of the source is unreachable: the loop condition
        // has already stopped at the NUL.
        assert false;
      }
      if !IsWhitespace(c) {
        inWord := true;
      } else {
        if inWord {
          count := count + 1;
        }
        inWord := false;
      }
      assert text[..i + 1][..i] == text[..i];
      i := i + 1;
    }
    assert text[..i] == CStr(text[..]);
  }

  /** The number of words `wc_create_test_text` writes: one fewer than asked. */
  function WordsWritten(numberOfWords: int): nat
  {
    if numberOfWords > 1 then numberOfWords - 1 else 0
  }

  /** The text of `k` random lexicon words, each followed by one space, drawn from state `s`. */
  function WcText(s: int, k: nat): seq<char>
  {
    if k == 0 then []
    else WcText(s, k - 1) + Lexicon[Range(StepN(s, k - 1), 0, WordsNumber)] + [' ']
  }

  /** The generated text holds no NUL, ends with a space and fits `k` slots. */
  lemma {:induction false} WcTextShape(s: int, k: nat)
    ensures '\0' !in WcText(s, k)
    ensures k > 0 ==> |WcText(s, k)| > 0 && WcText(s, k)[|WcText(s, k)| - 1] == ' '
    ensures |WcText(s, k)| <= WordSlot * k
  {
    if k > 0 {
      WcTextShape(s, k - 1);
      LexiconWords();
    }
  }

  /** The generated text has exactly one word end per word: `wc_count` counts every word of it. */
  lemma {:induction false} WcTextWordEnds(s: int, k: nat)
    ensures WordEnds(WcText(s, k)) == k
  {
    if k > 0 {
      WcTextWordEnds(s, k - 1);
      LexiconWords();
      var w := Lexicon[Range(StepN(s, k - 1), 0, WordsNumber)];
      WordEndsAppendWordSpace(WcText(s, k - 1), w);
    }
  }

  /**
   * The first `maxSize` characters of `s` hold the text `t` and NULs after it.
   */
  ghost predicate Padded(s: seq<char>, t: seq<char>, maxSize: int)
  {
    && |t| <= maxSize <= |s|
    && (forall j :: 0 <= j < |t| ==> s[j] == t[j])
    && (forall j :: |t| <= j < maxSize ==> s[j] == '\0')
  }

  /** A padded text ends at its length when there is room for the NUL. */
  lemma PaddedCLen(s: seq<char>, t: seq<char>, maxSize: int)
    requires Padded(s, t, maxSize) && |t| < maxSize && '\0' !in t
    ensures IsCString(s) && CLen(s) == |t| && CStr(s) == t
  {
    CLenAt(s, |t|);
  }

  /** Before `rnb_strcat(text, w)`: both C strings end where their text ends. */
  lemma PaddedCatReady(s: seq<char>, t: seq<char>, w: seq<char>, maxSize: int)
    requires Padded(s, t, maxSize) && |t| + |w| < maxSize && '\0' !in t && '\0' !in w
    ensures IsCString(s) && CLen(s) == |t|
    ensures IsCString(w + ['\0']) && CLen(w + ['\0']) == |w|
  {
    CLenAt(s, |t|);
    CLenAt(w + ['\0'], |w|);
  }

  /** Concatenating a NUL-free `w` behind the text of a padded buffer, as `rnb_strcat` does. */
  lemma PaddedAppend(before: seq<char>, after: seq<char>, t: seq<char>, w: seq<char>, maxSize: int)
    requires Padded(before, t, maxSize) && |t| + |w| < maxSize
    requires after == before[..|t|] + (w + ['\0'])[..|w| + 1] + before[|t| + |w| + 1..]
    ensures Padded(after, t + w, maxSize)
    ensures after[maxSize..] == before[maxSize..]
  {
    assert (w + ['\0'])[..|w| + 1] == w + ['\0'];
  }

  /**
   * One `rnb_strcat(text, w)` of `wc_create_test_text` on a buffer whose first
   * `maxSize` characters hold the text `t` padded with NULs: the text grows
   * by `w` and the padding keeps its place.
   */
  method AppendPadded(text: array<char>, ghost t: seq<char>, w: seq<char>, maxSize: nat)
    requires Padded(text[..], t, maxSize) && |t| + |w| < maxSize && '\0' !in t && '\0' !in w
    modifies text
    ensures Padded(text[..], t + w, maxSize)
    ensures text[maxSize..] == old(text[maxSize..])
  {
    PaddedCatReady(text[..], t, w, maxSize);
    ghost var before := text[..];
    StrCat(text, w + ['\0']);
    PaddedAppend(before, text[..], t, w, maxSize);
  }

  /**
   * `wc_create_test_text`: zero the first `maxSize` characters, then append
   * `numberOfWords - 1` random lexicon words, each with one space after it;
   * each word costs one draw. The caller keeps the text inside the buffer.
   */
  method WcCreateTestText(text: array<char>, numberOfWords: int, maxSize: nat, rng: Rng)
    requires maxSize <= text.Length
    requires numberOfWords > 1 ==> WordSlot * (numberOfWords - 1) < maxSize
    modifies text, rng
    ensures rng.state == StepN(old(rng.state), WordsWritten(numberOfWords))
    ensures Padded(text[..], WcText(old(rng.state), WordsWritten(numberOfWords)), maxSize)
    ensures maxSize > 0 ==> IsCString(text[..]) && CStr(text[..]) == WcText(old(rng.state), WordsWritten(numberOfWords))
    ensures text[maxSize..] == old(text[maxSize..])
  {
    ghost var s0 := rng.state;
    ghost var done: nat := 0;
    StrZero(text, maxSize);
    assert text[maxSize..] == old(text[maxSize..]);
    var n := numberOfWords - 1;
    while n > 0
      invariant done == WordsWritten(numberOfWords) - (if n > 0 then n else 0)
      invariant rng.state == StepN(s0, done)
      invariant |WcText(s0, done)| <= WordSlot * done
      invariant Padded(text[..], WcText(s0, done), maxSize)
      invariant text[maxSize..] == old(text[maxSize..])
    {
      WcTextShape(s0, done);
      LexiconWords();
      ghost var t := WcText(s0, done);
      var w := rng.GetIntRange(0, WordsNumber);
      var word := Lexicon[w];
      AppendPadded(text, t, word, maxSize);
      ghost var t' := t + word;
      if n >= 1 {
        AppendPadded(text, t', [' '], maxSize);
      }
      done := done + 1;
      assert WcText(s0, done) == t' + [' '];
      n := n - 1;
    }
    WcTextShape(s0, done);
    if maxSize > 0 {
      PaddedCLen(text[..], WcText(s0, done), maxSize);
    }
  }

  /** One kernel round from state `s`: the words counted and the state after it. */
  function WcRound(s: int): (int, int)
  {
    var numberOfWords := Range(s, 16, 32);
    (WordsWritten(numberOfWords), StepN(Step(s), WordsWritten(numberOfWords)))
  }

  /** `k` rounds from state `s`: the total word count and the final state. */
  function WcRounds(s: int, k: nat): (r: (int, int))
    ensures 15 * k <= r.0 <= 30 * k
  {
    if k == 0 then (0, s)
    else
      var before := WcRounds(s, k - 1);
      var round := WcRound(before.1);
      (before.0 + round.0, round.1)
  }

  /** The integer average of 500 counts, each between 15 and 30, lies between 15 and 30. */
  lemma AverageBounds(total: int)
    requires 15 * Iterations <= total <= 30 * Iterations
    ensures 15 <= total / Iterations <= 30
  {
  }

  /** One round of `bench_word_count`: draw a word number, build the text, count its words. */
  method WordCountRound(rng: Rng, testText: array<char>) returns (count: nat)
    requires testText.Length == MaxTestDataSize
    modifies rng, testText
    ensures count == WcRound(old(rng.state)).0
    ensures rng.state == WcRound(old(rng.state)).1
  {
    ghost var s := rng.state;
    var numberOfWords := rng.GetIntRange(16, 32);
    ghost var s1 := rng.state;
    WcCreateTestText(testText, numberOfWords, MaxTestDataSize, rng);
    count := WcCount(testText);
    WcTextWordEnds(s1, WordsWritten(numberOfWords));
  }

  /**
   * `bench_word_count`: 500 rounds of building a text of 16 to 31 requested
   * words and counting it; the result is the integer average count, which
   * therefore lies between 15 and 30.
   */
  method BenchWordCount(rng: Rng) returns (average: int)
    modifies rng
    ensures average == WcRounds(old(rng.state), Iterations).0 / Iterations
    ensures rng.state == WcRounds(old(rng.state), Iterations).1
    ensures 15 <= average <= 30
  {
    ghost var s0 := rng.state;
    var testText := new char[MaxTestDataSize](_ => '\0');
    var total := 0;
    var i := 0;
    while i < Iterations
      invariant 0 <= i <= Iterations
      invariant total == WcRounds(s0, i).0 && rng.state == WcRounds(s0, i).1
    {
      var count := WordCountRound(rng, testText);
      total := total + count;
      i := i + 1;
    }
    average := total / Iterations;
    AverageBounds(total);
  }
}
