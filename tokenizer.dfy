/** The word tokenizer `re.findall(r'\b\w+\b', text)`: the maximal runs of
    word characters of a text, in order. A text is the interleaving of its
    gaps (runs of non-word characters) and its tokens; `Tokens` and `Gaps`
    take a text apart and `Interleave` puts it back together. */
module Tokenizer {
  import opened CharClass
  import opened Counting

  /** A token: a non-empty string of word characters. */
  predicate IsWord(w: string) {
    |w| > 0 && forall i :: 0 <= i < |w| ==> IsWordChar(w[i])
  }

  /** A gap: a possibly empty string without word characters. */
  predicate IsGap(g: string) {
    forall i :: 0 <= i < |g| ==> !IsWordChar(g[i])
  }

  /** Length of the greedy `\w+` match at the start of `s`. */
  function RunLength(s: string): (n: nat)
    ensures n <= |s|
    ensures forall i :: 0 <= i < n ==> IsWordChar(s[i])
    ensures n < |s| ==> !IsWordChar(s[n])
  {
    if s == [] || !IsWordChar(s[0]) then 0 else 1 + RunLength(s[1..])
  }

  /** The tokens of `s`, left to right. */
  function Tokens(s: string): (ts: seq<string>)
    ensures forall k :: 0 <= k < |ts| ==> IsWord(ts[k])
    decreases |s|
  {
    if s == [] then []
    else if !IsWordChar(s[0]) then Tokens(s[1..])
    else
      var n := RunLength(s);
      [s[..n]] + Tokens(s[n..])
  }

  /** The gaps of `s`: the text before the first token, between consecutive
      tokens, and after the last one. */
  function Gaps(s: string): (gs: seq<string>)
    ensures |gs| == |Tokens(s)| + 1
    ensures forall k :: 0 <= k < |gs| ==> IsGap(gs[k])
    ensures |gs[0]| > 0 <==> |s| > 0 && !IsWordChar(s[0])
    ensures forall k :: 0 < k < |gs| - 1 ==> |gs[k]| > 0
    decreases |s|
  {
    if s == [] then [[]]
    else if !IsWordChar(s[0]) then
      var g := Gaps(s[1..]);
      [[s[0]] + g[0]] + g[1..]
    else
      var n := RunLength(s);
      [[]] + Gaps(s[n..])
  }

  /** `gs[0] + ts[0] + gs[1] + ... + ts[n-1] + gs[n]`. */
  function Interleave(gs: seq<string>, ts: seq<string>): string
    requires |gs| == |ts| + 1
  {
    if ts == [] then gs[0] else gs[0] + ts[0] + Interleave(gs[1..], ts[1..])
  }

  /** `ts` are maximal runs of word characters separated by `gs`: every token
      is a word, every gap is free of word characters, and the gaps between
      two tokens are not empty, so no two tokens touch. */
  predicate Segmentation(gs: seq<string>, ts: seq<string>) {
    && |gs| == |ts| + 1
    && (forall k :: 0 <= k < |ts| ==> IsWord(ts[k]))
    && (forall k :: 0 <= k < |gs| ==> IsGap(gs[k]))
    && (forall k :: 0 < k < |ts| ==> |gs[k]| > 0)
  }

  /** Number of word characters in `s`. */
  function WordCharCount(s: string): (n: nat)
    ensures n <= |s|
  {
    if s == [] then 0 else (if IsWordChar(s[0]) then 1 else 0) + WordCharCount(s[1..])
  }

  /** `len(word)`, summed over the tokens as `Total(words, TokenLength)`. */
  function TokenLength(w: string): nat {
    |w|
  }

  // ---------------------------------------------------------------------
  // Decomposition: a text is the interleaving of its gaps and tokens.

  lemma InterleaveConsGap(c: string, gs: seq<string>, ts: seq<string>)
    requires |gs| == |ts| + 1
    ensures Interleave([c + gs[0]] + gs[1..], ts) == c + Interleave(gs, ts)
  {
    var gs' := [c + gs[0]] + gs[1..];
    assert gs'[1..] == gs[1..];
  }

  /** Taking a text apart into gaps and tokens and putting it back together
      gives the text again; the parts form a segmentation. */
  lemma Decompose(s: string)
    ensures Segmentation(Gaps(s), Tokens(s))
    ensures Interleave(Gaps(s), Tokens(s)) == s
  {
    Reassemble(s);
  }

  lemma {:induction false} Reassemble(s: string)
    ensures Interleave(Gaps(s), Tokens(s)) == s
    decreases |s|
  {
    if s == [] {
    } else if !IsWordChar(s[0]) {
      ReassembleGap(s);
    } else {
      ReassembleWord(s);
    }
  }

  lemma {:induction false} ReassembleGap(s: string)
    requires s != [] && !IsWordChar(s[0])
    ensures Interleave(Gaps(s), Tokens(s)) == s
    decreases |s|, 0
  {
    var g, ts := Gaps(s[1..]), Tokens(s[1..]);
    assert Tokens(s) == ts;
    assert Gaps(s) == [[s[0]] + g[0]] + g[1..];
    assert Interleave([[s[0]] + g[0]] + g[1..], ts) == [s[0]] + Interleave(g, ts) by {
      InterleaveConsGap([s[0]], g, ts);
    }
    assert Interleave(g, ts) == s[1..] by {
      Reassemble(s[1..]);
    }
    assert [s[0]] + s[1..] == s;
  }

  lemma {:induction false} ReassembleWord(s: string)
    requires s != [] && IsWordChar(s[0])
    ensures Interleave(Gaps(s), Tokens(s)) == s
    decreases |s|, 0
  {
    var n := RunLength(s);
    var gs, ts := Gaps(s[n..]), Tokens(s[n..]);
    assert Gaps(s) == [[]] + gs && Tokens(s) == [s[..n]] + ts by {
      WordStep(s);
    }
    assert Interleave([[]] + gs, [s[..n]] + ts) == [] + s[..n] + Interleave(gs, ts) by {
      InterleaveCons([], s[..n], gs, ts);
    }
    assert Interleave(gs, ts) == s[n..] by {
      Reassemble(s[n..]);
    }
    assert [] + s[..n] + s[n..] == s;
  }

  /** At a word character, the first token is the run there and the first
      gap is empty. */
  lemma WordStep(s: string)
    requires s != [] && IsWordChar(s[0])
    ensures Tokens(s) == [s[..RunLength(s)]] + Tokens(s[RunLength(s)..])
    ensures Gaps(s) == [[]] + Gaps(s[RunLength(s)..])
  {
  }

  lemma InterleaveCons(g: string, t: string, gs: seq<string>, ts: seq<string>)
    requires |gs| == |ts| + 1
    ensures Interleave([g] + gs, [t] + ts) == g + t + Interleave(gs, ts)
  {
    assert ([g] + gs)[1..] == gs;
    assert ([t] + ts)[1..] == ts;
  }

  // ---------------------------------------------------------------------
  // Tokenizing a concatenation.

  /** A text without word characters has no tokens, and conversely. */
  lemma {:induction false} TokensOfGap(g: string)
    ensures Tokens(g) == [] <==> IsGap(g)
    decreases |g|
  {
    if g != [] {
      TokensOfGap(g[1..]);
      if !IsWordChar(g[0]) {
        assert IsGap(g) <==> IsGap(g[1..]) by {
          if IsGap(g[1..]) {
            forall i | 0 <= i < |g| ensures !IsWordChar(g[i]) {
              if i > 0 { assert g[i] == g[1..][i - 1]; }
            }
          }
        }
      }
    }
  }

  lemma TokensOfWord(w: string)
    requires IsWord(w)
    ensures Tokens(w) == [w]
  {
    assert RunLength(w) == |w|;
    assert w[..|w|] == w;
  }

  /** The greedy run at the start of `a + b` stops inside `a` when the run at
      the start of `a` stops there, or when `b` cannot continue it. */
  lemma {:induction false} RunLengthAppend(a: string, b: string)
    requires RunLength(a) < |a| || b == [] || !IsWordChar(b[0])
    ensures RunLength(a + b) == RunLength(a)
  {
    if a == [] {
      assert a + b == b;
    } else if IsWordChar(a[0]) {
      assert (a + b)[1..] == a[1..] + b;
      RunLengthAppend(a[1..], b);
    }
  }

  /** Tokenizing distributes over a concatenation whose seam is not inside a
      run of word characters. */
  lemma {:induction false} TokensAppend(a: string, b: string)
    requires a == [] || b == [] || !IsWordChar(a[|a| - 1]) || !IsWordChar(b[0])
    ensures Tokens(a + b) == Tokens(a) + Tokens(b)
    decreases |a|, 1
  {
    if a == [] {
      assert a + b == b;
    } else if !IsWordChar(a[0]) {
      assert (a + b)[1..] == a[1..] + b;
      TokensAppend(a[1..], b);
    } else {
      TokensAppendRun(a, b);
    }
  }

  /** The case of `TokensAppend` where `a` starts with a run of word
      characters, which `b` cannot extend. */
  lemma {:induction false} TokensAppendRun(a: string, b: string)
    requires a != [] && IsWordChar(a[0])
    requires b == [] || !IsWordChar(a[|a| - 1]) || !IsWordChar(b[0])
    ensures Tokens(a + b) == Tokens(a) + Tokens(b)
    decreases |a|, 0
  {
    var m := RunLength(a);
    var ab := a + b;
    assert RunLength(ab) == m by {
      RunLengthAppend(a, b);
    }
    assert ab[..m] == a[..m] && ab[m..] == a[m..] + b;
    assert Tokens(ab) == [a[..m]] + Tokens(a[m..] + b) by {
      assert ab[0] == a[0];
      WordStep(ab);
    }
    assert Tokens(a) == [a[..m]] + Tokens(a[m..]) by {
      WordStep(a);
    }
    assert Tokens(a[m..] + b) == Tokens(a[m..]) + Tokens(b) by {
      TokensAppend(a[m..], b);
    }
    ConsAppend(a[..m], Tokens(a[m..]), Tokens(b));
  }

  /** Sequence concatenation regroups: a helper for the token lists above. */
  lemma ConsAppend<T>(x: T, p: seq<T>, q: seq<T>)
    ensures [x] + (p + q) == ([x] + p) + q
  {
  }

  /** Two texts joined by one non-word character tokenize to the tokens of
      the first followed by those of the second. */
  lemma TokensSeparated(a: string, c: char, b: string)
    requires !IsWordChar(c)
    ensures Tokens(a + [c] + b) == Tokens(a) + Tokens(b)
  {
    var ac := a + [c];
    assert ac[|ac| - 1] == c;
    TokensAppend(ac, b);
    assert [c][0] == c;
    TokensAppend(a, [c]);
    assert IsGap([c]);
    TokensOfGap([c]);
    assert Tokens(ac) == Tokens(a);
  }

  /** Tokenizing an interleaving of gaps and tokens gives the tokens back:
      the tokens of a text are exactly its maximal runs of word characters. */
  lemma {:induction false} TokensOfInterleave(gs: seq<string>, ts: seq<string>)
    requires Segmentation(gs, ts)
    ensures Tokens(Interleave(gs, ts)) == ts
  {
    if ts == [] {
      TokensOfGap(gs[0]);
    } else {
      var rest := Interleave(gs[1..], ts[1..]);
      assert Tokens(rest) == ts[1..] by {
        TokensOfInterleave(gs[1..], ts[1..]);
      }
      InterleaveTailSeparated(gs, ts);
      TokensOfGapWord(gs[0], ts[0], rest);
      assert [ts[0]] + ts[1..] == ts;
    }
  }

  /** After the first token of a segmentation, the rest of the interleaving
      starts with a non-word character, if it is not empty. */
  lemma InterleaveTailSeparated(gs: seq<string>, ts: seq<string>)
    requires Segmentation(gs, ts) && ts != []
    ensures Interleave(gs, ts) == gs[0] + (ts[0] + Interleave(gs[1..], ts[1..]))
    ensures var rest := Interleave(gs[1..], ts[1..]); rest == [] || !IsWordChar(rest[0])
  {
    var rest := Interleave(gs[1..], ts[1..]);
    if ts[1..] != [] {
      assert |gs[1]| > 0 && IsGap(gs[1]);
      assert rest == gs[1..][0] + ts[1..][0] + Interleave(gs[2..], ts[2..]) by {
        assert gs[1..][1..] == gs[2..];
      }
      assert rest[0] == gs[1][0];
    } else {
      assert rest == gs[1];
      assert IsGap(gs[1]);
    }
  }

  /** A gap, a word and a text that cannot extend the word tokenize to the
      word followed by the text's tokens. */
  lemma TokensOfGapWord(g: string, w: string, rest: string)
    requires IsGap(g) && IsWord(w)
    requires rest == [] || !IsWordChar(rest[0])
    ensures Tokens(g + (w + rest)) == [w] + Tokens(rest)
  {
    assert Tokens(w + rest) == [w] + Tokens(rest) by {
      TokensAppend(w, rest);
      TokensOfWord(w);
    }
    TokensOfGap(g);
    TokensAppend(g, w + rest);
  }

  // ---------------------------------------------------------------------
  // Lengths.

  lemma {:induction false} WordCharCountOfRun(s: string, n: nat)
    requires n <= |s|
    requires forall i :: 0 <= i < n ==> IsWordChar(s[i])
    ensures WordCharCount(s) == n + WordCharCount(s[n..])
  {
    if n > 0 {
      assert s[1..][n - 1..] == s[n..];
      WordCharCountOfRun(s[1..], n - 1);
    }
  }

  /** The tokens hold every word character of the text and nothing else:
      `sum(len(word) for word in words)` is the number of word characters,
      and at least the number of tokens. */
  lemma {:induction false} TotalLengthOfTokens(s: string)
    ensures Total(Tokens(s), TokenLength) == WordCharCount(s)
    ensures |Tokens(s)| <= Total(Tokens(s), TokenLength)
    decreases |s|
  {
    if s == [] {
    } else if !IsWordChar(s[0]) {
      TotalLengthOfTokens(s[1..]);
    } else {
      var n := RunLength(s);
      TotalLengthOfTokens(s[n..]);
      WordCharCountOfRun(s, n);
      WordStep(s);
      TotalCons(s[..n], Tokens(s[n..]), TokenLength);
    }
  }
}
