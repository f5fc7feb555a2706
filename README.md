# Text-scoring engine: the counting core

This project models the counting part of the readability and sentiment
scorer in `text_analysis.py`. It covers:

- the word tokenizer `re.findall(r'\b\w+\b', text)`;
- the lexicon matcher `count_positive_negative_words`;
- the complex-word counter `count_complex_words`;
- the `Counter` of lower-cased first-person pronouns and its `i` + `we` projection;
- the record assembled by `perform_text_analysis`.

It proves the counting laws these parts obey.

Modules:

- `CharClass` (`chars.dfy`): word characters and lower-casing, ASCII only.
- `Tokenizer` (`tokenizer.dfy`): `Tokens` splits a text into its maximal runs of
  word characters. `Gaps` gives the non-word text around and between the tokens.
  `Interleave` puts gaps and tokens back together. Two round trips, `Decompose` and
  `TokensOfInterleave`, show that `Tokens` yields exactly the maximal runs.
- `Counting` (`counting.dfy`): one generic count with repetition,
  `sum(1 for x in xs if p(x))`, and one generic sum, `sum(f(x) for x in xs)`.
  The positive, negative and complex-word counters are instances of the count.
  The two sums in the record, token lengths and syllables, are instances of the
  sum. The pronoun `Counter` is a map, built one token at a time. Each of its
  entries is proved equal to a count. The laws are proved once: additivity,
  monotonicity, inclusion-exclusion, order independence, the extreme values,
  and that a count is the sum of its 0/1 indicator.
- `TextAnalysis` (`text_analysis.dfy`): the lexicon matcher, the complex-word
  counter, the pronoun tally, the result record, and the worked example
  `"I love this. We love that."`.

Modelling choices:

- Word characters are ASCII letters, ASCII digits and `_`. Python's `\w` also
  accepts non-ASCII letters and digits.
- Lower-casing is ASCII. Every token contains only ASCII characters, so on tokens
  this agrees exactly with Python's `str.lower`.
- The lexicons are `set<string>` parameters. They may overlap and need not be in
  lower case.
- The black-box primitives are fields of the `TextStatistics` datatype, each a
  function of the text or of a token: VADER's compound polarity, and textstat's
  `flesch_reading_ease`, `lexicon_count`, `sentence_count` and `syllable_count`.
- The floating-point ratios are computed in exact `real` arithmetic.

What the code does at its edges:

- `WORD COUNT` and the denominators at lines 53, 68 and 71 come from textstat's
  `lexicon_count`, not from the number of regex tokens. Line 59 divides
  `lexicon_count` by `sentence_count`.
- There is no dedicated degenerate-input error and no fallback for a text
  without words or sentences. A zero `lexicon_count` (line 53) or a zero
  `sentence_count` (line 59) raises a division by zero. `PerformTextAnalysis`
  returns `Err(ZeroDivision)` in exactly those two cases.
- The syllable estimate is any `nat`, and nothing bounds it from below.

## Model

| member | source | states |
|---|---|---|
| Tokenizer.RunLength | text_analysis.py:23 | the greedy `\w+` match: a prefix of word characters that cannot be extended |
| Tokenizer.Tokens | text_analysis.py:23 | every token is non-empty and made only of word characters |
| Tokenizer.Gaps | text_analysis.py:23 | one gap more than tokens; gaps hold no word character; the gaps between two tokens are non-empty; the first gap is non-empty exactly when the text starts with a non-word character |
| Tokenizer.Decompose | text_analysis.py:23 | interleaving a text's gaps and tokens gives the text back, and the parts form a segmentation into maximal runs |
| Tokenizer.TokensOfInterleave | text_analysis.py:23 | tokenizing any interleaving of word tokens and separating gaps gives those tokens back, so the tokens are exactly the maximal runs in order |
| Tokenizer.TokensOfGap | text_analysis.py:23 | a text has no tokens if and only if it has no word character (the empty text included) |
| Tokenizer.TokensOfWord | text_analysis.py:23 | a text that is one run of word characters is its own single token |
| Tokenizer.TokensAppend | text_analysis.py:23 | tokenizing distributes over a concatenation whose seam does not fall inside a word |
| Tokenizer.TokensSeparated | text_analysis.py:23 | tokens of `a + [c] + b`, with `c` a non-word character, are the tokens of `a` followed by those of `b` |
| Tokenizer.TotalLengthOfTokens | text_analysis.py:68 | `sum(len(word) for word in words)`, written `Total(words, TokenLength)`, equals the number of word characters in the text and is at least the number of tokens |
| CharClass.IsWordChar | text_analysis.py:23 | the `\w` class restricted to ASCII: letters, digits and `_`; every word character is ASCII |
| CharClass.Lower | text_analysis.py:62 | `word.lower()` on ASCII: same length, no capital left, only capitals change, and word characters stay word characters |
| CharClass.LowerIsI | text_analysis.py:62 | `w.lower() == "i"` exactly for `"i"` and `"I"` |
| CharClass.LowerIsWe | text_analysis.py:62 | `w.lower() == "we"` exactly for the four capitalisations of `"we"` |
| Counting.CountWhere | text_analysis.py:24-25 | `sum(1 for x in xs if p(x))` is at most the length of the list |
| Counting.CountIsPositions | text_analysis.py:24-25 | the count equals the number of matching positions, with repetition |
| Counting.CountAppend | text_analysis.py:24-25 | the count is additive over concatenation |
| Counting.CountRemove | text_analysis.py:31 | removing one element lowers the count by that element's share |
| Counting.CountMonotone | text_analysis.py:31 | if `p` implies `q` at every position, then `p` never counts more than `q`: a weaker predicate never counts less |
| Counting.CountAll | text_analysis.py:31 | the count equals the length if and only if every element matches |
| Counting.CountNone | text_analysis.py:31 | the count is zero if and only if no element matches |
| Counting.CountUnion | text_analysis.py:24-25 | inclusion-exclusion: count(p or q) + count(p and q) = count(p) + count(q) |
| Counting.CountPermutation | text_analysis.py:24-25 | sequences with the same multiset of elements have the same count |
| Counting.Total | text_analysis.py:68-71 | `sum(f(x) for x in xs)`; when every term is positive, the sum is at least the number of terms |
| Counting.CountIsTotal | text_analysis.py:24-25 | `sum(1 for x in xs if p(x))` equals the sum of the 0/1 indicator of `p`, so the count and the sum agree |
| Counting.TotalAppend | text_analysis.py:68-71 | the sum is additive over concatenation |
| Counting.TotalCons | text_analysis.py:68-71 | the sum over `[x] + xs` is `f(x)` plus the sum over `xs` |
| Counting.TotalPermutation | text_analysis.py:68-71 | sequences with the same multiset of elements have the same sum |
| TextAnalysis.CountPositiveNegativeWords | text_analysis.py:22-26 | both counts are at most the number of tokens |
| TextAnalysis.MatchCountsArePositions | text_analysis.py:24-25 | each count is the number of token positions whose token is in the respective lexicon |
| TextAnalysis.SharedWordsCountTwice | text_analysis.py:24-25 | the lexicons are matched independently: the two counts add up to the matches against the union plus those against the intersection, so a word in both lexicons counts in both |
| TextAnalysis.LexiconMonotone | text_analysis.py:24-25 | a larger lexicon never matches fewer tokens, for either count |
| TextAnalysis.LexiconIsCaseSensitive | text_analysis.py:24-25 | a one-word text scores 1 in a lexicon exactly when the word itself is an entry, so membership is exact and case-sensitive |
| TextAnalysis.CapitalisedWordIsNotMatched | text_analysis.py:24-25 | `"Good"` is not matched by a lexicon holding `"good"` |
| TextAnalysis.PositiveNegativeAdditive | text_analysis.py:23-25 | both counts are additive over texts joined by a non-word character |
| TextAnalysis.CountComplexWords | text_analysis.py:29-32 | the complex-word count is at most the number of tokens |
| TextAnalysis.ComplexAntitone | text_analysis.py:29-32 | raising the syllable threshold never increases the count |
| TextAnalysis.ComplexAtNonPositiveThreshold | text_analysis.py:29-32 | at a threshold of 0 or less, every token is complex |
| TextAnalysis.ComplexExtremes | text_analysis.py:29-32 | the count equals the number of tokens if and only if every token reaches the threshold, and is zero if and only if none does |
| TextAnalysis.ComplexAdditive | text_analysis.py:30-31 | the count is additive over texts joined by a non-word character |
| TextAnalysis.ComplexSingleWord | text_analysis.py:29-32 | a one-word text has one complex word exactly when the word's syllable estimate reaches the threshold |
| TextAnalysis.PronounCounts | text_analysis.py:62 | the tally has only listed pronouns as keys, each with a positive count |
| TextAnalysis.PronounCountsTally | text_analysis.py:62 | each listed pronoun is tallied by the number of tokens that lower-case to it, and unlisted keys get 0; a key is present exactly when its count is positive |
| TextAnalysis.FirstPersonForm | text_analysis.py:85 | the spellings that lower-case to `i` or `we` are exactly `i`, `I`, `we`, `We`, `wE`, `WE` |
| TextAnalysis.PersonalPronouns | text_analysis.py:85 | `pronoun_counts['i'] + pronoun_counts['we']`, looked up with `Get`, which like a `Counter` gives 0 for a missing key, is the number of tokens that lower-case to `i` plus the number that lower-case to `we` |
| TextAnalysis.PersonalPronounsCount | text_analysis.py:62-85 | `PERSONAL PRONOUNS` equals one pass counting the tokens in `FirstPersonForms`, and is at most the number of tokens |
| TextAnalysis.OtherPronounsIgnored | text_analysis.py:62-85 | inserting a word that is neither `i` nor `we` leaves the field unchanged; a listed pronoun such as `me` still raises its own tally by one |
| TextAnalysis.PersonalPronounsAdditive | text_analysis.py:62-85 | the field is additive over texts joined by a non-word character |
| TextAnalysis.CountsIgnoreWordOrder | text_analysis.py:22-71 | texts with the same multiset of tokens get the same positive, negative, complex and pronoun counts, the same syllable sum and the same total token length |
| TextAnalysis.CountsOfWordlessText | text_analysis.py:23-31 | a text without word characters has no tokens and scores 0 in every count and every tally entry |
| TextAnalysis.MetricsOf | text_analysis.py:37-86 | the assembled record keeps all the relations of `RecordConsistent`: `WORD COUNT` is `lexicon_count`; each count is at most the number of tokens; subjectivity is `Abs` of the polarity (`abs` at line 46); the four ratios are their numerators over their denominators; `PERSONAL PRONOUNS` counts the `i`/`we` tokens |
| TextAnalysis.PerformTextAnalysis | text_analysis.py:35-87 | it fails with a division by zero exactly when `lexicon_count` or `sentence_count` is 0. Otherwise, in the record: `WORD COUNT` is `lexicon_count`; the counts are at most the number of tokens; `SUBJECTIVITY SCORE` is `abs(POLARITY SCORE)` and non-negative; the percentage is `COMPLEX WORD COUNT / WORD COUNT * 100`; `FOG INDEX = 0.4 * (AVG SENTENCE LENGTH + percentage)`; average word length is the number of word characters over `WORD COUNT`; syllables per word is the syllable sum over `WORD COUNT`; `PERSONAL PRONOUNS` counts the `i`/`we` tokens |
| TextAnalysis.AnalysisFields | text_analysis.py:73-86 | with non-zero denominators, the record's positive, negative, complex-word (threshold 2), pronoun and subjectivity fields are exactly the standalone counts and `abs` of the polarity; `AVG SENTENCE LENGTH` is the Flesch score |
| TextAnalysis.InterleaveSplit | text_analysis.py:23 | an interleaving splits in two at any gap, which builds the example from its two sentences |
| TextAnalysis.ExampleTokens | text_analysis.py:23 | `"I love this. We love that."` tokenizes to `I, love, this, We, love, that` |
| TextAnalysis.ExampleCounts | text_analysis.py:24-85 | that text has 2 personal pronouns, and at least 2 positive words when `love` is in the positive lexicon |

## Left out

- HTTP retrieval, HTML parsing, the filter that keeps paragraphs over 50 characters, and Excel input and output (lines 1-3, 89-140): I/O and third-party libraries.
- Reading `positive-words.txt` and `negative-words.txt`, and downloading the VADER lexicon (lines 11-19): file and network I/O. The lexicons are parameters.
- VADER `polarity_scores`, and textstat's `flesch_reading_ease`, `lexicon_count`, `sentence_count` and `syllable_count` (lines 6, 43, 49, 52, 59, 71): foreign code. They are abstract functions in `TextStatistics`, and nothing is assumed about their values. As functions they are total: the model assumes VADER and textstat never raise, so the two zero divisions are the only failures `PerformTextAnalysis` has.
- The per-URL exception handling and the progress printing in the main loop (lines 102-131): I/O. The division-by-zero failure it catches is modelled as `Err(ZeroDivision)`.
- Floating-point rounding of the ratios (lines 53, 56, 59, 68, 71): the model uses exact reals, so IEEE rounding is not captured.
- PerformTextAnalysis: does not bound the percentage of complex words by 100. Its denominator is textstat's `lexicon_count`, which this model does not relate to the regex token count.
- Unicode word characters and Unicode lower-casing: the model covers ASCII only.
