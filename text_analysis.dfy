/** The counting core of the text-scoring engine: lexicon matching, the
    complex-word counter, the first-person pronoun tally and the record that
    `perform_text_analysis` assembles from them. */
module TextAnalysis {
  import opened CharClass
  import opened Tokenizer
  import opened Counting

  datatype Result<T, E> = Ok(value: T) | Err(error: E)

  // ---------------------------------------------------------------------
  // Lexicon matcher: `count_positive_negative_words`.

  /** Exact, case-sensitive membership in a lexicon. */
  function InLexicon(lexicon: set<string>): string -> bool {
    w => w in lexicon
  }

  /** `(positive_count, negative_count)`: how many tokens, with repetition,
      are members of each lexicon. The two lexicons are consulted
      independently of each other. */
  function CountPositiveNegativeWords(text: string, positiveWords: set<string>,
                                      negativeWords: set<string>): (r: (nat, nat))
    ensures r.0 <= |Tokens(text)| && r.1 <= |Tokens(text)|
  {
    var words := Tokens(text);
    (CountWhere(words, InLexicon(positiveWords)), CountWhere(words, InLexicon(negativeWords)))
  }

  /** Each count is the number of token positions holding a member of the
      respective lexicon. */
  lemma MatchCountsArePositions(text: string, positiveWords: set<string>, negativeWords: set<string>)
    ensures CountPositiveNegativeWords(text, positiveWords, negativeWords)
            == (|Positions(Tokens(text), InLexicon(positiveWords))|,
                |Positions(Tokens(text), InLexicon(negativeWords))|)
  {
    CountIsPositions(Tokens(text), InLexicon(positiveWords));
    CountIsPositions(Tokens(text), InLexicon(negativeWords));
  }

  /** A token in both lexicons adds one to both counts: together the two
      counts are the matches against the union plus those against the
      intersection. */
  lemma SharedWordsCountTwice(text: string, positiveWords: set<string>, negativeWords: set<string>)
    ensures var r := CountPositiveNegativeWords(text, positiveWords, negativeWords);
            r.0 + r.1 == CountWhere(Tokens(text), InLexicon(positiveWords + negativeWords))
                       + CountWhere(Tokens(text), InLexicon(positiveWords * negativeWords))
  {
    CountUnion(Tokens(text), InLexicon(positiveWords), InLexicon(negativeWords),
               InLexicon(positiveWords + negativeWords), InLexicon(positiveWords * negativeWords));
  }

  /** A larger lexicon never matches fewer tokens. */
  lemma LexiconMonotone(text: string, small: set<string>, large: set<string>, other: set<string>)
    requires small <= large
    ensures CountPositiveNegativeWords(text, small, other).0 <= CountPositiveNegativeWords(text, large, other).0
    ensures CountPositiveNegativeWords(text, other, small).1 <= CountPositiveNegativeWords(text, other, large).1
  {
    CountMonotone(Tokens(text), InLexicon(small), InLexicon(large));
  }

  /** Matching is exact: a one-word text whose word is not itself a lexicon
      entry counts nothing, even when its lower-case form is one. */
  lemma LexiconIsCaseSensitive(w: string, positiveWords: set<string>, negativeWords: set<string>)
    requires IsWord(w)
    ensures CountPositiveNegativeWords(w, positiveWords, negativeWords)
            == ((if w in positiveWords then 1 else 0), (if w in negativeWords then 1 else 0))
  {
    TokensOfWord(w);
    CountSingleton(w, InLexicon(positiveWords));
    CountSingleton(w, InLexicon(negativeWords));
  }

  lemma CapitalisedWordIsNotMatched()
    ensures CountPositiveNegativeWords("Good", {"good"}, {"bad"}) == (0, 0)
  {
    LexiconIsCaseSensitive("Good", {"good"}, {"bad"});
  }

  /** Both counts are additive over texts joined by a non-word character. */
  lemma PositiveNegativeAdditive(a: string, c: char, b: string,
                                 positiveWords: set<string>, negativeWords: set<string>)
    requires !IsWordChar(c)
    ensures var r := CountPositiveNegativeWords(a + [c] + b, positiveWords, negativeWords);
            var ra := CountPositiveNegativeWords(a, positiveWords, negativeWords);
            var rb := CountPositiveNegativeWords(b, positiveWords, negativeWords);
            r.0 == ra.0 + rb.0 && r.1 == ra.1 + rb.1
  {
    TokensSeparated(a, c, b);
    CountAppend(Tokens(a), Tokens(b), InLexicon(positiveWords));
    CountAppend(Tokens(a), Tokens(b), InLexicon(negativeWords));
  }

  // ---------------------------------------------------------------------
  // Complex-word counter: `count_complex_words`.

  const DefaultSyllableThreshold: int := 2

  function HasAtLeastSyllables(syllableCount: string -> nat, threshold: int): string -> bool {
    w => syllableCount(w) >= threshold
  }

  /** How many tokens, with repetition, have an estimated syllable count of
      at least `threshold`. */
  function CountComplexWords(text: string, syllableCount: string -> nat, threshold: int): (r: nat)
    ensures r <= |Tokens(text)|
  {
    CountWhere(Tokens(text), HasAtLeastSyllables(syllableCount, threshold))
  }

  /** Raising the threshold never makes more words complex. */
  lemma ComplexAntitone(text: string, syllableCount: string -> nat, k1: int, k2: int)
    requires k1 <= k2
    ensures CountComplexWords(text, syllableCount, k2) <= CountComplexWords(text, syllableCount, k1)
  {
    CountMonotone(Tokens(text), HasAtLeastSyllables(syllableCount, k2),
                  HasAtLeastSyllables(syllableCount, k1));
  }

  /** With a threshold of zero or less, every token is complex. */
  lemma ComplexAtNonPositiveThreshold(text: string, syllableCount: string -> nat, k: int)
    requires k <= 0
    ensures CountComplexWords(text, syllableCount, k) == |Tokens(text)|
  {
    CountAll(Tokens(text), HasAtLeastSyllables(syllableCount, k));
  }

  /** Every token is complex exactly when the count reaches the number of
      tokens; none is exactly when it is zero. */
  lemma ComplexExtremes(text: string, syllableCount: string -> nat, k: int)
    ensures var words := Tokens(text);
            && (CountComplexWords(text, syllableCount, k) == |words|
                <==> forall i :: 0 <= i < |words| ==> syllableCount(words[i]) >= k)
            && (CountComplexWords(text, syllableCount, k) == 0
                <==> forall i :: 0 <= i < |words| ==> syllableCount(words[i]) < k)
  {
    CountAll(Tokens(text), HasAtLeastSyllables(syllableCount, k));
    CountNone(Tokens(text), HasAtLeastSyllables(syllableCount, k));
  }

  lemma ComplexAdditive(a: string, c: char, b: string, syllableCount: string -> nat, k: int)
    requires !IsWordChar(c)
    ensures CountComplexWords(a + [c] + b, syllableCount, k)
            == CountComplexWords(a, syllableCount, k) + CountComplexWords(b, syllableCount, k)
  {
    TokensSeparated(a, c, b);
    CountAppend(Tokens(a), Tokens(b), HasAtLeastSyllables(syllableCount, k));
  }

  /** A one-word text is one complex word or none. */
  lemma ComplexSingleWord(w: string, syllableCount: string -> nat, k: int)
    requires IsWord(w)
    ensures CountComplexWords(w, syllableCount, k) == if syllableCount(w) >= k then 1 else 0
  {
    TokensOfWord(w);
    CountSingleton(w, HasAtLeastSyllables(syllableCount, k));
  }

  // ---------------------------------------------------------------------
  // Pronoun counter: the `Counter` of lower-cased pronouns and its
  // `i` + `we` projection.

  const PronounList: seq<string> := ["i", "me", "my", "mine", "we", "us", "our", "ours"]

  /** The token spellings that lower-case to "i" or "we". */
  const FirstPersonForms: set<string> := {"i", "I", "we", "We", "wE", "WE"}

  function LowerIs(key: string): string -> bool {
    w => Lower(w) == key
  }

  /** A counter lookup: a missing key counts zero. */
  function Get(counter: map<string, nat>, key: string): nat {
    if key in counter then counter[key] else 0
  }

  /** The tally of lower-cased tokens that are listed pronouns, built one
      token at a time. */
  function PronounCounts(words: seq<string>): (counter: map<string, nat>)
    ensures forall key :: key in counter ==> key in PronounList && counter[key] > 0
  {
    if words == [] then map[]
    else
      var counter := PronounCounts(words[..|words| - 1]);
      var key := Lower(words[|words| - 1]);
      if key in PronounList then counter[key := Get(counter, key) + 1] else counter
  }

  /** Each listed pronoun is tallied by the number of tokens that lower-case
      to it; nothing else is tallied. */
  lemma {:induction false} PronounCountsTally(words: seq<string>, key: string)
    ensures Get(PronounCounts(words), key)
            == if key in PronounList then CountWhere(words, LowerIs(key)) else 0
    ensures key in PronounCounts(words) <==> key in PronounList && CountWhere(words, LowerIs(key)) > 0
  {
    if words != [] {
      PronounCountsTally(words[..|words| - 1], key);
    }
  }

  /** The `PERSONAL PRONOUNS` field: the tallies of "i" and "we" only, which
      are the numbers of tokens that lower-case to "i" and to "we". */
  function PersonalPronouns(text: string): (r: nat)
    ensures r == CountWhere(Tokens(text), LowerIs("i")) + CountWhere(Tokens(text), LowerIs("we"))
  {
    var words := Tokens(text);
    PronounCountsTally(words, "i");
    PronounCountsTally(words, "we");
    assert "i" in PronounList && "we" in PronounList;
    var counter := PronounCounts(words);
    Get(counter, "i") + Get(counter, "we")
  }

  lemma FirstPersonForm(w: string)
    ensures w in FirstPersonForms <==> Lower(w) == "i" || Lower(w) == "we"
  {
    LowerIsI(w);
    LowerIsWe(w);
  }

  /** The field counts the tokens spelled "i" or "we" in any capitalisation,
      in one pass, and is at most the number of tokens. */
  lemma PersonalPronounsCount(text: string)
    ensures PersonalPronouns(text) == CountWhere(Tokens(text), InLexicon(FirstPersonForms))
    ensures PersonalPronouns(text) <= |Tokens(text)|
  {
    var words := Tokens(text);
    forall w ensures InLexicon(FirstPersonForms)(w) == (LowerIs("i")(w) || LowerIs("we")(w)) {
      FirstPersonForm(w);
    }
    var neither: string -> bool := w => false;
    CountUnion(words, LowerIs("i"), LowerIs("we"), InLexicon(FirstPersonForms), neither);
    CountNone(words, neither);
  }

  /** A token that is not "i" or "we" leaves the field alone, though a
      listed pronoun such as "me" or "our" is still tallied. */
  lemma OtherPronounsIgnored(a: string, w: string, b: string)
    requires IsWord(w) && Lower(w) != "i" && Lower(w) != "we"
    ensures PersonalPronouns(a + " " + w + " " + b) == PersonalPronouns(a + " " + b)
    ensures Lower(w) in PronounList ==>
              Get(PronounCounts(Tokens(a + " " + w + " " + b)), Lower(w))
              == Get(PronounCounts(Tokens(a + " " + b)), Lower(w)) + 1
  {
    assert a + " " + w + " " + b == a + [' '] + (w + [' '] + b);
    TokensSeparated(a, ' ', w + [' '] + b);
    TokensSeparated(w, ' ', b);
    TokensOfWord(w);
    assert a + " " + b == a + [' '] + b;
    TokensSeparated(a, ' ', b);
    var with, without := Tokens(a) + [w] + Tokens(b), Tokens(a) + Tokens(b);
    assert Tokens(a + " " + w + " " + b) == with;
    PersonalPronounsCount(a + " " + w + " " + b);
    PersonalPronounsCount(a + " " + b);
    CountRemove(Tokens(a), w, Tokens(b), LowerIs("i"));
    CountRemove(Tokens(a), w, Tokens(b), LowerIs("we"));
    PronounCountsTally(with, Lower(w));
    PronounCountsTally(without, Lower(w));
    CountRemove(Tokens(a), w, Tokens(b), LowerIs(Lower(w)));
  }

  lemma PersonalPronounsAdditive(a: string, c: char, b: string)
    requires !IsWordChar(c)
    ensures PersonalPronouns(a + [c] + b) == PersonalPronouns(a) + PersonalPronouns(b)
  {
    TokensSeparated(a, c, b);
    PersonalPronounsCount(a + [c] + b);
    PersonalPronounsCount(a);
    PersonalPronounsCount(b);
    CountAppend(Tokens(a), Tokens(b), InLexicon(FirstPersonForms));
  }

  // ---------------------------------------------------------------------
  // Order of the words.

  /** The counts and sums ignore the order of the words: two texts with the
      same tokens, counted with repetition, get the same counts, the same
      syllable sum and the same total token length. */
  lemma CountsIgnoreWordOrder(a: string, b: string, positiveWords: set<string>, negativeWords: set<string>,
                              syllableCount: string -> nat, k: int)
    requires multiset(Tokens(a)) == multiset(Tokens(b))
    ensures CountPositiveNegativeWords(a, positiveWords, negativeWords)
            == CountPositiveNegativeWords(b, positiveWords, negativeWords)
    ensures CountComplexWords(a, syllableCount, k) == CountComplexWords(b, syllableCount, k)
    ensures PersonalPronouns(a) == PersonalPronouns(b)
    ensures Total(Tokens(a), syllableCount) == Total(Tokens(b), syllableCount)
    ensures Total(Tokens(a), TokenLength) == Total(Tokens(b), TokenLength)
  {
    TotalPermutation(Tokens(a), Tokens(b), syllableCount);
    TotalPermutation(Tokens(a), Tokens(b), TokenLength);
    CountPermutation(Tokens(a), Tokens(b), InLexicon(positiveWords));
    CountPermutation(Tokens(a), Tokens(b), InLexicon(negativeWords));
    CountPermutation(Tokens(a), Tokens(b), HasAtLeastSyllables(syllableCount, k));
    CountPermutation(Tokens(a), Tokens(b), InLexicon(FirstPersonForms));
    PersonalPronounsCount(a);
    PersonalPronounsCount(b);
  }

  // ---------------------------------------------------------------------
  // Texts without words.

  /** A text has no tokens exactly when it has no word characters, and then
      every count is zero. */
  lemma CountsOfWordlessText(text: string, positiveWords: set<string>, negativeWords: set<string>,
                             syllableCount: string -> nat, k: int)
    requires IsGap(text)
    ensures Tokens(text) == []
    ensures CountPositiveNegativeWords(text, positiveWords, negativeWords) == (0, 0)
    ensures CountComplexWords(text, syllableCount, k) == 0
    ensures PersonalPronouns(text) == 0
    ensures forall key :: Get(PronounCounts(Tokens(text)), key) == 0
  {
    TokensOfGap(text);
  }

  // ---------------------------------------------------------------------
  // `perform_text_analysis`.

  /** The black-box primitives the record depends on, each a function of the
      text (or, for syllables, of a token): VADER's compound polarity and
      textstat's `flesch_reading_ease`, `lexicon_count`, `sentence_count` and
      `syllable_count`. */
  datatype TextStatistics = TextStatistics(
    compoundPolarity: string -> real,
    fleschReadingEase: string -> real,
    lexiconCount: string -> nat,
    sentenceCount: string -> nat,
    syllableCount: string -> nat)

  datatype Lexicons = Lexicons(positiveWords: set<string>, negativeWords: set<string>)

  /** The thirteen fields of the result record. */
  datatype Metrics = Metrics(
    positiveScore: nat,
    negativeScore: nat,
    polarityScore: real,
    subjectivityScore: real,
    avgSentenceLength: real,
    percentageOfComplexWords: real,
    fogIndex: real,
    avgNumberOfWordsPerSentence: real,
    complexWordCount: nat,
    wordCount: nat,
    syllablePerWord: real,
    personalPronouns: nat,
    avgWordLength: real)

  /** The division by a zero `lexicon_count` or `sentence_count`. */
  datatype AnalysisError = ZeroDivision

  function Abs(x: real): real {
    if x < 0.0 then -x else x
  }

  /** The relations `perform_text_analysis` keeps between the fields of
      its record, the tokens of the text and the black-box statistics. */
  predicate RecordConsistent(text: string, stats: TextStatistics, m: Metrics) {
    var words := Tokens(text);
    && m.wordCount == stats.lexiconCount(text)
    && m.positiveScore <= |words| && m.negativeScore <= |words|
    && m.complexWordCount <= |words| && m.personalPronouns <= |words|
    && m.polarityScore == stats.compoundPolarity(text)
    && m.subjectivityScore >= 0.0
    && (m.subjectivityScore == m.polarityScore || m.subjectivityScore == -m.polarityScore)
    && m.wordCount > 0 && stats.sentenceCount(text) > 0
    && m.percentageOfComplexWords == (m.complexWordCount as real / m.wordCount as real) * 100.0
    && m.fogIndex == 0.4 * (m.avgSentenceLength + m.percentageOfComplexWords)
    && m.avgNumberOfWordsPerSentence == m.wordCount as real / stats.sentenceCount(text) as real
    && m.avgWordLength == WordCharCount(text) as real / m.wordCount as real
    && m.syllablePerWord == Total(words, stats.syllableCount) as real / m.wordCount as real
    && m.personalPronouns == CountWhere(words, InLexicon(FirstPersonForms))
  }

  /** The record for one text, `perform_text_analysis` past its two
      divisions. The ratios are exact real arithmetic. */
  function MetricsOf(text: string, lexicons: Lexicons, stats: TextStatistics): (m: Metrics)
    requires stats.lexiconCount(text) > 0 && stats.sentenceCount(text) > 0
    ensures RecordConsistent(text, stats, m)
  {
    PersonalPronounsCount(text);
    TotalLengthOfTokens(text);
    var words := Tokens(text);
    var (positiveCount, negativeCount) :=
      CountPositiveNegativeWords(text, lexicons.positiveWords, lexicons.negativeWords);
    var polarityScore := stats.compoundPolarity(text);
    var fleschScore := stats.fleschReadingEase(text);
    var totalWords := stats.lexiconCount(text) as real;
    var percentageComplexWords :=
      (CountComplexWords(text, stats.syllableCount, DefaultSyllableThreshold) as real / totalWords) * 100.0;
    Metrics(
      positiveScore := positiveCount,
      negativeScore := negativeCount,
      polarityScore := polarityScore,
      subjectivityScore := Abs(polarityScore),
      avgSentenceLength := fleschScore,
      percentageOfComplexWords := percentageComplexWords,
      fogIndex := 0.4 * (fleschScore + percentageComplexWords),
      avgNumberOfWordsPerSentence := totalWords / stats.sentenceCount(text) as real,
      complexWordCount := CountComplexWords(text, stats.syllableCount, DefaultSyllableThreshold),
      wordCount := stats.lexiconCount(text),
      syllablePerWord := Total(words, stats.syllableCount) as real / totalWords,
      personalPronouns := PersonalPronouns(text),
      avgWordLength := Total(words, TokenLength) as real / totalWords)
  }

  /** `perform_text_analysis`: the record for one text, or the division by
      zero that a zero `lexicon_count` (the percentage of complex words) or
      a zero `sentence_count` (words per sentence) raises. */
  function PerformTextAnalysis(text: string, lexicons: Lexicons, stats: TextStatistics)
    : (r: Result<Metrics, AnalysisError>)
    ensures r.Err? <==> stats.lexiconCount(text) == 0 || stats.sentenceCount(text) == 0
    ensures r.Ok? ==> RecordConsistent(text, stats, r.value)
  {
    if stats.lexiconCount(text) == 0 then Err(ZeroDivision)
    else if stats.sentenceCount(text) == 0 then Err(ZeroDivision)
    else Ok(MetricsOf(text, lexicons, stats))
  }

  /** The integer and copied fields of the record are the counts above. */
  lemma AnalysisFields(text: string, lexicons: Lexicons, stats: TextStatistics)
    requires stats.lexiconCount(text) > 0 && stats.sentenceCount(text) > 0
    ensures var r := PerformTextAnalysis(text, lexicons, stats);
            var counts := CountPositiveNegativeWords(text, lexicons.positiveWords, lexicons.negativeWords);
            && r.Ok?
            && (r.value.positiveScore, r.value.negativeScore) == counts
            && counts == (|Positions(Tokens(text), InLexicon(lexicons.positiveWords))|,
                          |Positions(Tokens(text), InLexicon(lexicons.negativeWords))|)
            && r.value.complexWordCount == CountComplexWords(text, stats.syllableCount, DefaultSyllableThreshold)
            && r.value.personalPronouns == PersonalPronouns(text)
            && r.value.subjectivityScore == Abs(stats.compoundPolarity(text))
            && r.value.avgSentenceLength == stats.fleschReadingEase(text)
  {
    MatchCountsArePositions(text, lexicons.positiveWords, lexicons.negativeWords);
  }

  // ---------------------------------------------------------------------
  // A worked example.

  const Example: string := "I love this. We love that."

  const ExampleGaps: seq<string> := ["", " ", " ", ". ", " ", " ", "."]
  const ExampleWords: seq<string> := ["I", "love", "this", "We", "love", "that"]

  lemma ExampleIsSegmented()
    ensures Segmentation(ExampleGaps, ExampleWords)
  {
    assert IsWord("I") && IsWord("love") && IsWord("this");
    assert IsWord("We") && IsWord("that");
    assert IsGap(" ") && IsGap(". ") && IsGap(".") && IsGap("");
  }

  /** An interleaving splits in two at any gap, the gap's two halves going
      one to each side; the example is built from its two sentences this way. */
  lemma {:induction false} InterleaveSplit(gsA: seq<string>, g1: string, g2: string, gsB: seq<string>,
                                           tsA: seq<string>, tsB: seq<string>)
    requires |gsA| == |tsA| && |gsB| == |tsB|
    ensures Interleave(gsA + [g1 + g2] + gsB, tsA + tsB)
            == Interleave(gsA + [g1], tsA) + Interleave([g2] + gsB, tsB)
  {
    if tsA == [] {
      assert gsA + [g1 + g2] + gsB == [g1 + g2] + gsB;
      assert tsA + tsB == tsB;
      if tsB != [] {
        assert ([g1 + g2] + gsB)[1..] == ([g2] + gsB)[1..];
      }
    } else {
      InterleaveSplit(gsA[1..], g1, g2, gsB, tsA[1..], tsB);
      assert (gsA + [g1 + g2] + gsB)[1..] == gsA[1..] + [g1 + g2] + gsB;
      assert (tsA + tsB)[1..] == tsA[1..] + tsB;
      assert (gsA + [g1])[1..] == gsA[1..] + [g1];
    }
  }

  lemma ExampleFirstSentence()
    ensures Interleave(["", " ", " ", ". "], ["I", "love", "this"]) == "I love this. "
  {
  }

  lemma ExampleSecondSentence()
    ensures Interleave(["", " ", " ", "."], ["We", "love", "that"]) == "We love that."
  {
  }

  lemma ExampleSentencesJoin()
    ensures "I love this. " + "We love that." == Example
    ensures ExampleGaps == ["", " ", " "] + [". " + ""] + [" ", " ", "."]
    ensures ["", " ", " "] + [". "] == ["", " ", " ", ". "]
    ensures [""] + [" ", " ", "."] == ["", " ", " ", "."]
    ensures ExampleWords == ["I", "love", "this"] + ["We", "love", "that"]
  {
    assert ". " + "" == ". ";
  }

  lemma ExampleIsInterleaving()
    ensures Interleave(ExampleGaps, ExampleWords) == Example
  {
    ExampleFirstSentence();
    ExampleSecondSentence();
    ExampleSentencesJoin();
    InterleaveSplit(["", " ", " "], ". ", "", [" ", " ", "."], ["I", "love", "this"], ["We", "love", "that"]);
  }

  lemma ExampleTokens()
    ensures Tokens(Example) == ExampleWords
  {
    ExampleIsSegmented();
    ExampleIsInterleaving();
    TokensOfInterleave(ExampleGaps, ExampleWords);
  }

  lemma ExampleFirstPersonWords()
    ensures CountWhere(ExampleWords, InLexicon(FirstPersonForms)) == 2
  {
    var p := InLexicon(FirstPersonForms);
    var front, back := ["I", "love", "this"], ["We", "love", "that"];
    assert ExampleWords == front + back;
    CountAppend(front, back, p);
    CountNone(["love", "this"], p);
    CountNone(["love", "that"], p);
    CountRemove([], "I", ["love", "this"], p);
    CountRemove([], "We", ["love", "that"], p);
  }

  lemma ExamplePositiveWords(positiveWords: set<string>)
    requires "love" in positiveWords
    ensures CountWhere(ExampleWords, InLexicon(positiveWords)) >= 2
  {
    var p := InLexicon(positiveWords);
    var front, back := ["I", "love", "this"], ["We", "love", "that"];
    assert ExampleWords == front + back;
    CountAppend(front, back, p);
    CountRemove(["I"], "love", ["this"], p);
    CountRemove(["We"], "love", ["that"], p);
  }

  /** "I" and "We" are the example's two first-person pronouns, and both
      occurrences of "love" count when it is a positive word. */
  lemma ExampleCounts(lexicons: Lexicons)
    requires "love" in lexicons.positiveWords
    ensures PersonalPronouns(Example) == 2
    ensures CountPositiveNegativeWords(Example, lexicons.positiveWords, lexicons.negativeWords).0 >= 2
  {
    ExampleTokens();
    PersonalPronounsCount(Example);
    ExampleFirstPersonWords();
    ExamplePositiveWords(lexicons.positiveWords);
  }
}
