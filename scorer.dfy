/**
 * `analyze_text`: term frequency, document frequency and the idf ratio of
 * every distinct lower-cased word of a list of documents.
 */
module Scorer {

  import opened Seqs
  import opened Text

  /** A token: a non-empty run of word characters. */
  predicate IsWord(w: string)
  {
    |w| >= 1 && forall k :: 0 <= k < |w| ==> IsWordChar(w[k])
  }

  /** The length of the run of word characters at the front of `s`. */
  function RunLength(s: string): (n: nat)
    ensures n <= |s|
    ensures forall k :: 0 <= k < n ==> IsWordChar(s[k])
    ensures n < |s| ==> !IsWordChar(s[n])
  {
    if s == [] || !IsWordChar(s[0]) then 0 else 1 + RunLength(s[1..])
  }

  /** `re.findall(r"\b\w+\b", s)`: the maximal runs of word characters, left to right. */
  function Tokens(s: string): (ts: seq<string>)
    ensures forall t :: t in ts ==> IsWord(t)
    decreases |s|
  {
    if s == [] then []
    else if !IsWordChar(s[0]) then Tokens(s[1..])
    else
      var n := RunLength(s);
      [s[..n]] + Tokens(s[n..])
  }

  /** Lower-casing keeps the leading run of word characters as long as it was. */
  lemma {:induction false} RunLengthOfLower(s: string)
    ensures RunLength(Lower(s)) == RunLength(s)
    decreases |s|
  {
    if s != [] {
      assert Lower(s)[1..] == Lower(s[1..]);
      RunLengthOfLower(s[1..]);
    }
  }

  /**
   * Lower-casing the text and then tokenizing gives the tokens of the text,
   * each lower-cased: `findall` over `doc.lower()` agrees with lowering every token.
   */
  lemma {:induction false} TokensOfLower(s: string)
    ensures Tokens(Lower(s)) == seq(|Tokens(s)|, k requires 0 <= k < |Tokens(s)| => Lower(Tokens(s)[k]))
    decreases |s|
  {
    var l := Lower(s);
    if s == [] {
    } else if !IsWordChar(s[0]) {
      assert l[1..] == Lower(s[1..]);
      TokensOfLower(s[1..]);
    } else {
      var n := RunLength(s);
      RunLengthOfLower(s);
      assert l[..n] == Lower(s[..n]);
      assert l[n..] == Lower(s[n..]);
      TokensOfLower(s[n..]);
      var rest := Tokens(s[n..]);
      var ts := Tokens(s);
      assert ts == [s[..n]] + rest;
      var lowered := seq(|ts|, k requires 0 <= k < |ts| => Lower(ts[k]));
      var loweredRest := seq(|rest|, k requires 0 <= k < |rest| => Lower(rest[k]));
      assert Tokens(l) == [Lower(s[..n])] + loweredRest;
      EqualElementwise([Lower(s[..n])] + loweredRest, lowered);
    }
  }

  /** Whether position `k` of `t` holds a word character; positions outside `t` do not. */
  predicate WordAt(t: string, k: int)
  {
    0 <= k < |t| && IsWordChar(t[k])
  }

  /** The regex assertion `\b` at position `k`: a word character on exactly one side. */
  predicate Boundary(t: string, k: int)
  {
    WordAt(t, k - 1) != WordAt(t, k)
  }

  /** `\bw\b` matches `t` at position `i`. */
  predicate WholeWordAt(w: string, t: string, i: int)
  {
    0 <= i && i + |w| <= |t| && Boundary(t, i) && t[i..i + |w|] == w && Boundary(t, i + |w|)
  }

  /**
   * `re.search(rf"\b{re.escape(w)}\b", t)` finds a match. `re.escape` leaves
   * word characters alone, so for a token the pattern is the token itself.
   */
  predicate Matches(w: string, t: string)
  {
    exists i :: 0 <= i <= |t| && WholeWordAt(w, t, i)
  }

  /** The tokens of one document: `re.findall(r"\b\w+\b", doc.lower())`. */
  function DocTokens(doc: string): seq<string>
  {
    Tokens(Lower(doc))
  }

  /** The tokens of all documents, document after document. */
  function AllTokens(documents: seq<string>): (ts: seq<string>)
    ensures forall t :: t in ts ==> IsWord(t)
  {
    if documents == [] then []
    else AllTokens(documents[..|documents| - 1]) + DocTokens(documents[|documents| - 1])
  }

  /** The occurrences of `w` summed document by document. */
  function SumCounts(documents: seq<string>, w: string): nat
  {
    if documents == [] then 0
    else SumCounts(documents[..|documents| - 1], w) + Count(DocTokens(documents[|documents| - 1]), w)
  }

  /** The documents a whole-word search for `w` finds (the counting loop of `df`). */
  function MatchCount(w: string, documents: seq<string>): (n: nat)
    ensures n <= |documents|
  {
    if documents == [] then 0
    else
      MatchCount(w, documents[..|documents| - 1])
      + (if Matches(w, Lower(documents[|documents| - 1])) then 1 else 0)
  }

  /** Document frequency by definition: the documents among whose tokens `w` occurs. */
  function DocFreq(w: string, documents: seq<string>): (n: nat)
    ensures n <= |documents|
  {
    if documents == [] then 0
    else
      DocFreq(w, documents[..|documents| - 1])
      + (if w in DocTokens(documents[|documents| - 1]) then 1 else 0)
  }

  /**
   * The idf of a word as the integer ratio it is computed from:
   * `round(math.log(num / den) + 1, 6)` with `num == N + 1` and `den == 1 + df`.
   */
  datatype Idf = Idf(num: nat, den: nat)

  function IdfOf(n: nat, df: nat): (r: Idf)
    ensures r.den >= 1
    ensures df <= n ==> r.num >= r.den
  {
    Idf(n + 1, 1 + df)
  }

  /**
   * `a`'s ratio `num / den` is strictly larger than `b`'s. After
   * `round(…, 6)` the idfs the program returns for them may still tie.
   */
  predicate IdfGreater(a: Idf, b: Idf)
  {
    a.num * b.den > b.num * a.den
  }

  /** One record of the result: `{"word": w, "tf": tf, "idf": ...}`. */
  datatype WordScore = WordScore(word: string, tf: nat, idf: Idf)

  /** The records `analyze_text` returns, one per distinct token in first-occurrence order. */
  function Score(documents: seq<string>): seq<WordScore>
  {
    var all := AllTokens(documents);
    var vocab := Distinct(all);
    seq(|vocab|, k requires 0 <= k < |vocab| =>
      WordScore(vocab[k], Count(all, vocab[k]), IdfOf(|documents|, MatchCount(vocab[k], documents))))
  }

  /** A `collections.Counter`: its keys in insertion order and the count of each. */
  datatype Tally = Tally(order: seq<string>, counts: map<string, nat>)

  /** `t` is the counter obtained by counting the words of `seen` one by one. */
  ghost predicate Tallies(t: Tally, seen: seq<string>)
  {
    && t.order == Distinct(seen)
    && t.counts.Keys == (set x | x in seen)
    && (forall w :: w in t.counts ==> t.counts[w] == Count(seen, w))
  }

  /** `counter[w] += 1` on a Counter: a new word joins the end of the key order. */
  function Bump(t: Tally, w: string): Tally
  {
    if w in t.counts then t.(counts := t.counts[w := t.counts[w] + 1])
    else Tally(t.order + [w], t.counts[w := 1])
  }

  /** Counting one more word keeps the counter in step with the words seen. */
  lemma BumpTallies(t: Tally, seen: seq<string>, w: string)
    requires Tallies(t, seen)
    ensures Tallies(Bump(t, w), seen + [w])
  {
    BumpOrder(t, seen, w);
    BumpCounts(t, seen, w);
  }

  lemma BumpOrder(t: Tally, seen: seq<string>, w: string)
    requires t.order == Distinct(seen) && t.counts.Keys == (set x | x in seen)
    ensures Bump(t, w).order == Distinct(seen + [w])
  {
    var after := seen + [w];
    assert after[..|after| - 1] == seen;
    assert w in Distinct(seen) <==> w in seen;
    assert w in seen <==> w in t.counts;
  }

  lemma BumpCounts(t: Tally, seen: seq<string>, w: string)
    requires t.counts.Keys == (set x | x in seen)
    requires forall x :: x in t.counts ==> t.counts[x] == Count(seen, x)
    ensures Bump(t, w).counts.Keys == (set x | x in seen + [w])
    ensures forall x :: x in Bump(t, w).counts ==> Bump(t, w).counts[x] == Count(seen + [w], x)
  {
    var after := seen + [w];
    var u := Bump(t, w);
    assert (set x | x in after) == (set x | x in seen) + {w};
    forall x | x in u.counts ensures u.counts[x] == Count(after, x) {
      CountAppend(seen, [w], x);
      assert [w][..0] == [];
    }
  }

  /** `Counter.update(words)`: one more for each word, in order. */
  method Update(t: Tally, words: seq<string>, ghost seen: seq<string>) returns (u: Tally)
    requires Tallies(t, seen)
    ensures Tallies(u, seen + words)
  {
    u := t;
    assert seen + words[..0] == seen;
    for j := 0 to |words|
      invariant Tallies(u, seen + words[..j])
    {
      BumpTallies(u, seen + words[..j], words[j]);
      AppendNext(seen, words, j);
      u := Bump(u, words[j]);
    }
    assert words[..|words|] == words;
  }

  /** `df[w]` on a `defaultdict(int)`: zero for a word never counted. */
  function DfGet(df: map<string, nat>, w: string): nat
  {
    if w in df then df[w] else 0
  }

  /** The first loop of `analyze_text`: `tf_counts.update(words)` for every lower-cased document. */
  method CountTerms(documents: seq<string>) returns (tally: Tally)
    ensures Tallies(tally, AllTokens(documents))
  {
    tally := Tally([], map[]);
    for i := 0 to |documents|
      invariant Tallies(tally, AllTokens(documents[..i]))
    {
      assert documents[..i + 1][..i] == documents[..i];
      tally := Update(tally, DocTokens(documents[i]), AllTokens(documents[..i]));
    }
    assert documents[..|documents|] == documents;
  }

  /**
   * The second loop of `analyze_text`: for each word, in order, `df[w] += 1`
   * for every document a whole-word search for `w` finds.
   */
  method CountDocuments(vocab: seq<string>, documents: seq<string>) returns (df: map<string, nat>)
    requires NoDuplicates(vocab)
    ensures forall w :: w in vocab ==> DfGet(df, w) == MatchCount(w, documents)
  {
    df := map[];
    for k := 0 to |vocab|
      invariant forall m :: 0 <= m < k ==> DfGet(df, vocab[m]) == MatchCount(vocab[m], documents)
      invariant forall x :: x in df ==> x in vocab[..k]
    {
      var w := vocab[k];
      assert w !in vocab[..k];
      for j := 0 to |documents|
        invariant DfGet(df, w) == MatchCount(w, documents[..j])
        invariant forall m :: 0 <= m < k ==> DfGet(df, vocab[m]) == MatchCount(vocab[m], documents)
        invariant forall x :: x in df ==> x in vocab[..k + 1]
      {
        assert documents[..j + 1][..j] == documents[..j];
        if Matches(w, Lower(documents[j])) {
          df := df[w := DfGet(df, w) + 1];
        }
      }
      assert documents[..|documents|] == documents;
    }
  }

  /**
   * `analyze_text`: counts every token of every lower-cased document, then
   * for each distinct token the documents a whole-word search finds, then
   * emits one record per distinct token in the counter's key order.
   */
  method AnalyzeText(documents: seq<string>) returns (results: seq<WordScore>)
    ensures results == Score(documents)
  {
    var n := |documents|;
    var tally := CountTerms(documents);
    var df := CountDocuments(tally.order, documents);
    ghost var spec := Score(documents);
    results := [];
    for k := 0 to |tally.order|
      invariant results == spec[..k]
    {
      var w := tally.order[k];
      results := results + [WordScore(w, tally.counts[w], IdfOf(n, DfGet(df, w)))];
    }
  }

  /**
   * For a fixed N the idf ratio depends on the document frequency alone and
   * falls strictly as it grows; the rounded idf only never increases.
   */
  lemma IdfDecreasing(n: nat, df1: nat, df2: nat)
    requires df1 < df2
    ensures IdfGreater(IdfOf(n, df1), IdfOf(n, df2))
  {
  }

  /** Every position of a whole-word match of a token holds a word character. */
  lemma WholeWordChars(w: string, t: string, i: int)
    requires IsWord(w) && WholeWordAt(w, t, i)
    ensures forall k :: i <= k < i + |w| ==> IsWordChar(t[k])
  {
    forall k | i <= k < i + |w| ensures IsWordChar(t[k]) {
      assert t[k] == t[i..i + |w|][k - i] == w[k - i];
    }
  }

  /**
   * Dropping the first `d` characters keeps a match at `i >= d`, provided the
   * character just before the cut, if the match starts there, is not a word character.
   */
  lemma ShiftWholeWord(w: string, s: string, d: nat, i: int)
    requires |w| >= 1 && d <= |s| && d <= i
    requires i == d ==> !WordAt(s, d - 1)
    ensures WholeWordAt(w, s, i) <==> WholeWordAt(w, s[d..], i - d)
  {
    var t := s[d..];
    assert WordAt(t, i - d) == WordAt(s, i);
    assert WordAt(t, i - d - 1) == WordAt(s, i - 1);
    assert WordAt(t, i - d + |w|) == WordAt(s, i + |w|);
    assert WordAt(t, i - d + |w| - 1) == WordAt(s, i + |w| - 1);
    if i + |w| <= |s| {
      assert t[i - d..i - d + |w|] == s[i..i + |w|];
    }
  }

  /** Text that starts with a non-word character matches where its tail does. */
  lemma MatchesSkip(w: string, s: string)
    requires IsWord(w) && s != [] && !IsWordChar(s[0])
    ensures Matches(w, s) <==> Matches(w, s[1..])
  {
    if Matches(w, s) {
      var i :| 0 <= i <= |s| && WholeWordAt(w, s, i);
      WholeWordChars(w, s, i);
      assert i >= 1;
      ShiftWholeWord(w, s, 1, i);
      assert WholeWordAt(w, s[1..], i - 1);
    }
    if Matches(w, s[1..]) {
      var j :| 0 <= j <= |s[1..]| && WholeWordAt(w, s[1..], j);
      ShiftWholeWord(w, s, 1, j + 1);
      assert WholeWordAt(w, s, j + 1);
    }
  }

  /** A match in text that starts with a run of `n` word characters is that run or lies after it. */
  lemma MatchInRun(w: string, s: string, n: nat, i: int)
    requires IsWord(w) && n == RunLength(s) && n >= 1 && WholeWordAt(w, s, i)
    ensures w == s[..n] || (i > n && WholeWordAt(w, s[n..], i - n))
  {
    WholeWordChars(w, s, i);
    if i == 0 {
      assert |w| <= n;
      assert !WordAt(s, |w|);
      assert |w| >= n;
    } else {
      assert WordAt(s, i);
      assert !WordAt(s, i - 1);
      assert i > n;
      ShiftWholeWord(w, s, n, i);
    }
  }

  /** A match after the leading run of word characters is a match in the whole text. */
  lemma MatchPastRun(w: string, s: string, n: nat, j: int)
    requires IsWord(w) && n == RunLength(s) && n >= 1 && WholeWordAt(w, s[n..], j)
    ensures WholeWordAt(w, s, j + n)
  {
    WholeWordChars(w, s[n..], j);
    assert j >= 1;
    ShiftWholeWord(w, s, n, j + n);
  }

  /**
   * Text that starts with a run of `n` word characters matches a token either
   * as that whole run or somewhere after it.
   */
  lemma MatchesAfterRun(w: string, s: string, n: nat)
    requires IsWord(w) && n == RunLength(s) && n >= 1
    ensures Matches(w, s) <==> w == s[..n] || Matches(w, s[n..])
  {
    if Matches(w, s) {
      var i :| 0 <= i <= |s| && WholeWordAt(w, s, i);
      MatchInRun(w, s, n, i);
    }
    if w == s[..n] {
      assert WholeWordAt(w, s, 0);
    }
    if Matches(w, s[n..]) {
      var j :| 0 <= j <= |s[n..]| && WholeWordAt(w, s[n..], j);
      MatchPastRun(w, s, n, j);
    }
  }

  /**
   * The whole-word search for a token finds a text exactly when the token is
   * one of the text's tokens: a `\b`-delimited match never lies inside a longer word.
   */
  lemma {:induction false} MatchesIffToken(w: string, s: string)
    requires IsWord(w)
    ensures Matches(w, s) <==> w in Tokens(s)
    decreases |s|
  {
    if s == [] {
    } else if !IsWordChar(s[0]) {
      MatchesSkip(w, s);
      MatchesIffToken(w, s[1..]);
    } else {
      var n := RunLength(s);
      MatchesAfterRun(w, s, n);
      MatchesIffToken(w, s[n..]);
    }
  }

  /** The number of positions from `i` on at which `\bw\b` matches `t`. */
  function WholeWordCountFrom(w: string, t: string, i: nat): nat
    decreases |t| + 1 - i
  {
    if i > |t| then 0
    else (if WholeWordAt(w, t, i) then 1 else 0) + WholeWordCountFrom(w, t, i + 1)
  }

  /** Dropping a prefix keeps the count of the matches after it (as `ShiftWholeWord` keeps each one). */
  lemma {:induction false} ShiftWholeWordCount(w: string, s: string, d: nat, i: nat)
    requires |w| >= 1 && d <= |s| && d <= i
    requires i == d ==> !WordAt(s, d - 1)
    ensures WholeWordCountFrom(w, s, i) == WholeWordCountFrom(w, s[d..], i - d)
    decreases |s| + 1 - i
  {
    if i <= |s| {
      ShiftWholeWord(w, s, d, i);
      ShiftWholeWordCount(w, s, d, i + 1);
    }
  }

  /** Inside the leading run of word characters, and at its end, a token matches nowhere. */
  lemma {:induction false} NoMatchInsideRun(w: string, s: string, n: nat, i: nat)
    requires IsWord(w) && n == RunLength(s) && 1 <= i <= n + 1
    ensures WholeWordCountFrom(w, s, i) == WholeWordCountFrom(w, s, n + 1)
    decreases n + 1 - i
  {
    if i <= n {
      assert !WholeWordAt(w, s, i) by {
        if i < n {
          assert WordAt(s, i - 1) && WordAt(s, i);
        } else if i + |w| <= |s| {
          assert s[i..i + |w|][0] == s[i] && IsWordChar(w[0]);
        }
      }
      NoMatchInsideRun(w, s, n, i + 1);
    }
  }

  /** Text that starts with a run of `n` word characters matches a token once at the run, if at all, then after it. */
  lemma WholeWordCountOfRun(w: string, s: string, n: nat)
    requires IsWord(w) && n == RunLength(s) && n >= 1
    ensures WholeWordCountFrom(w, s, 0) == (if w == s[..n] then 1 else 0) + WholeWordCountFrom(w, s[n..], 0)
  {
    var t := s[n..];
    assert WholeWordAt(w, s, 0) <==> w == s[..n] by {
      if WholeWordAt(w, s, 0) {
        MatchInRun(w, s, n, 0);
      }
    }
    NoMatchInsideRun(w, s, n, 1);
    ShiftWholeWordCount(w, s, n, n + 1);
    assert !WholeWordAt(w, t, 0) by {
      if |w| <= |t| {
        assert t[0..|w|][0] == t[0] == s[n] && IsWordChar(w[0]);
      }
    }
  }

  /**
   * Each token occurs among a text's tokens exactly as often as the whole-word
   * search matches it: `findall` lists every maximal run once, so tf counts
   * the `\bw\b` matches of every document.
   */
  lemma {:induction false} TokenCount(w: string, s: string)
    requires IsWord(w)
    ensures Count(Tokens(s), w) == WholeWordCountFrom(w, s, 0)
    decreases |s|
  {
    if s == [] {
      assert !WholeWordAt(w, s, 0);
    } else if !IsWordChar(s[0]) {
      assert !WholeWordAt(w, s, 0) by {
        if |w| <= |s| {
          assert s[0..|w|][0] == s[0] && IsWordChar(w[0]);
        }
      }
      ShiftWholeWordCount(w, s, 1, 1);
      TokenCount(w, s[1..]);
    } else {
      var n := RunLength(s);
      var t := s[n..];
      WholeWordCountOfRun(w, s, n);
      TokenCount(w, t);
      CountAppend([s[..n]], Tokens(t), w);
      assert Count([s[..n]], w) == if s[..n] == w then 1 else 0;
    }
  }

  /** The regex-based document count of a token is its document frequency. */
  lemma {:induction false} MatchCountIsDocFreq(w: string, documents: seq<string>)
    requires IsWord(w)
    ensures MatchCount(w, documents) == DocFreq(w, documents)
    decreases |documents|
  {
    if documents != [] {
      MatchCountIsDocFreq(w, documents[..|documents| - 1]);
      MatchesIffToken(w, Lower(documents[|documents| - 1]));
    }
  }

  /** A token of some document is in at least one document. */
  lemma {:induction false} DocFreqPositive(w: string, documents: seq<string>)
    requires w in AllTokens(documents)
    ensures DocFreq(w, documents) >= 1
    decreases |documents|
  {
    var init := documents[..|documents| - 1];
    if w !in DocTokens(documents[|documents| - 1]) {
      DocFreqPositive(w, init);
    }
  }

  /** Term frequency over all documents is the sum of the per-document counts, uncapped. */
  lemma {:induction false} CountIsSum(documents: seq<string>, w: string)
    ensures Count(AllTokens(documents), w) == SumCounts(documents, w)
    decreases |documents|
  {
    if documents != [] {
      var init := documents[..|documents| - 1];
      CountIsSum(init, w);
      CountAppend(AllTokens(init), DocTokens(documents[|documents| - 1]), w);
    }
  }

  /**
   * One record per distinct token: no word twice, every token has a record,
   * every record is a token; no documents give no records.
   */
  lemma ScoreVocabulary(documents: seq<string>)
    ensures forall i, j :: 0 <= i < j < |Score(documents)| ==> Score(documents)[i].word != Score(documents)[j].word
    ensures forall w :: w in AllTokens(documents) <==> exists i :: 0 <= i < |Score(documents)| && Score(documents)[i].word == w
    ensures documents == [] ==> Score(documents) == []
  {
    var all := AllTokens(documents);
    var vocab := Distinct(all);
    var r := Score(documents);
    forall w | w in all ensures exists i :: 0 <= i < |r| && r[i].word == w {
      var k :| 0 <= k < |all| && all[k] == w;
      var i :| 0 <= i < |vocab| && vocab[i] == w;
      assert r[i].word == w;
    }
  }

  /**
   * Each record: tf is the total number of occurrences of its word summed over
   * the documents (at least one); df, counted by whole-word search, is the number
   * of documents holding the word as a token, between 1 and N; idf is (N + 1, 1 + df).
   */
  lemma ScoreRecord(documents: seq<string>, k: nat)
    requires k < |Score(documents)|
    ensures var r := Score(documents)[k];
      && r.tf == SumCounts(documents, r.word)
      && r.tf >= 1
      && 1 <= DocFreq(r.word, documents) <= |documents|
      && r.idf == IdfOf(|documents|, DocFreq(r.word, documents))
      && r.idf.num >= r.idf.den
  {
    var all := AllTokens(documents);
    var w := Distinct(all)[k];
    assert w in all;
    CountIsSum(documents, w);
    MatchCountIsDocFreq(w, documents);
    DocFreqPositive(w, documents);
  }

  /** A whole-word search does not find a word inside a longer word. */
  lemma NotFoundInsideLongerWord()
    ensures !Matches("cat", "category")
  {
    assert IsWord("cat") && IsWord("category");
    MatchesIffToken("cat", "category");
    TokensOfJoin(["category"]);
  }

  /** A whole-word search finds a word delimited by non-word characters. */
  lemma FoundBetweenDelimiters()
    ensures Matches("cat", "a cat.")
  {
    var s := "a cat.";
    assert s[2..5] == "cat";
    assert WholeWordAt("cat", s, 2);
  }

  /** A word followed by nothing or by a non-word character is the whole leading run. */
  lemma {:induction false} RunLengthOfWord(a: string, b: string)
    requires IsWord(a) && (b == [] || !IsWordChar(b[0]))
    ensures RunLength(a + b) == |a|
    decreases |a|
  {
    var s := a + b;
    assert s[0] == a[0];
    if |a| == 1 {
      assert s[1..] == b;
    } else {
      assert s[1..] == a[1..] + b;
      assert IsWord(a[1..]) by {
        forall k | 0 <= k < |a| - 1 ensures IsWordChar(a[1..][k]) {
          assert a[1..][k] == a[k + 1];
        }
      }
      RunLengthOfWord(a[1..], b);
    }
  }

  /** Round trip: words joined with single spaces tokenize back into those words. */
  lemma {:induction false} TokensOfJoin(ws: seq<string>)
    requires ws != []
    requires forall k :: 0 <= k < |ws| ==> IsWord(ws[k])
    ensures Tokens(JoinWith(" ", ws)) == ws
    decreases |ws|
  {
    var a := ws[0];
    if |ws| == 1 {
      assert a + [] == a;
      RunLengthOfWord(a, []);
      assert a[..|a|] == a && a[|a|..] == [];
    } else {
      var rest := JoinWith(" ", ws[1..]);
      var s := a + (" " + rest);
      assert JoinWith(" ", ws) == s;
      RunLengthOfWord(a, " " + rest);
      assert s[..|a|] == a && s[|a|..] == " " + rest;
      assert (" " + rest)[1..] == rest;
      TokensOfJoin(ws[1..]);
      HeadTail(ws);
    }
  }

  /** A lower-case document of two words separated by a space tokenizes into those two words. */
  lemma TwoWordDocTokens(a: string, b: string)
    requires IsWord(a) && IsWord(b) && NoUpperCase(a) && NoUpperCase(b)
    ensures DocTokens(a + " " + b) == [a, b]
  {
    var ws := [a, b];
    var doc := a + " " + b;
    assert JoinWith(" ", ws[1..]) == b;
    assert JoinWith(" ", ws) == doc;
    assert NoUpperCase(doc) by {
      forall k | 0 <= k < |doc| ensures !('A' <= doc[k] <= 'Z') && !('\U{0400}' <= doc[k] <= '\U{042F}') {
        if k < |a| {
          assert doc[k] == a[k];
        } else if k > |a| {
          assert doc[k] == b[k - |a| - 1];
        }
      }
    }
    LowerUnchanged(doc);
    TokensOfJoin(ws);
  }

  /** The tokens of each example document. */
  lemma ExampleDocTokens()
    ensures DocTokens("cat dog") == ["cat", "dog"]
    ensures DocTokens("cat bird") == ["cat", "bird"]
    ensures DocTokens("dog dog") == ["dog", "dog"]
  {
    assert "cat dog" == "cat" + " " + "dog";
    assert "cat bird" == "cat" + " " + "bird";
    assert "dog dog" == "dog" + " " + "dog";
    TwoWordDocTokens("cat", "dog");
    TwoWordDocTokens("cat", "bird");
    TwoWordDocTokens("dog", "dog");
  }

  /** A three-document collection, and the tokens of its documents in order. */
  const ExampleDocuments: seq<string> := ["cat dog", "cat bird", "dog dog"]
  const ExampleTokens: seq<string> := ["cat", "dog", "cat", "bird", "dog", "dog"]

  lemma AllTokensExample()
    ensures AllTokens(ExampleDocuments) == ExampleTokens
  {
    ExampleDocTokens();
    var d1: seq<string> := ["cat dog"];
    var d2: seq<string> := ["cat dog", "cat bird"];
    assert d1[..0] == [];
    assert AllTokens(d1) == ["cat", "dog"];
    assert d2[..1] == d1;
    assert AllTokens(d2) == ["cat", "dog", "cat", "bird"];
    assert ExampleDocuments[..2] == d2;
  }

  lemma DistinctExample()
    ensures Distinct(ExampleTokens) == ["cat", "dog", "bird"]
  {
    var t1: seq<string> := ["cat"];
    var t2: seq<string> := ["cat", "dog"];
    var t3: seq<string> := ["cat", "dog", "cat"];
    var t4: seq<string> := ["cat", "dog", "cat", "bird"];
    var t5: seq<string> := ["cat", "dog", "cat", "bird", "dog"];
    assert t1[..0] == [];
    assert Distinct(t1) == ["cat"];
    assert t2[..1] == t1;
    assert Distinct(t2) == ["cat", "dog"];
    assert t3[..2] == t2;
    assert Distinct(t3) == ["cat", "dog"];
    assert t4[..3] == t3;
    assert Distinct(t4) == ["cat", "dog", "bird"];
    assert t5[..4] == t4;
    assert Distinct(t5) == ["cat", "dog", "bird"];
    assert ExampleTokens[..5] == t5;
  }

  lemma CountExample(w: string)
    ensures Count(ExampleTokens, w)
         == (if w == "cat" then 2 else if w == "dog" then 3 else if w == "bird" then 1 else 0)
  {
    var t1: seq<string> := ["cat"];
    var t2: seq<string> := ["cat", "dog"];
    var t3: seq<string> := ["cat", "dog", "cat"];
    var t4: seq<string> := ["cat", "dog", "cat", "bird"];
    var t5: seq<string> := ["cat", "dog", "cat", "bird", "dog"];
    assert t1[..0] == [];
    assert t2[..1] == t1;
    assert t3[..2] == t2;
    assert t4[..3] == t3;
    assert t5[..4] == t4;
    assert ExampleTokens[..5] == t5;
  }

  lemma DocFreqExample()
    ensures DocFreq("cat", ExampleDocuments) == 2
    ensures DocFreq("dog", ExampleDocuments) == 2
    ensures DocFreq("bird", ExampleDocuments) == 1
  {
    ExampleDocTokens();
    var d1: seq<string> := ["cat dog"];
    var d2: seq<string> := ["cat dog", "cat bird"];
    assert d1[..0] == [];
    assert d2[..1] == d1;
    assert ExampleDocuments[..2] == d2;
  }

  /**
   * The scores of the example collection: "cat" twice in two documents, "dog"
   * three times in two documents, "bird" once in one document, in order of
   * first occurrence.
   */
  const ExampleScores: seq<WordScore> :=
    [WordScore("cat", 2, Idf(4, 3)), WordScore("dog", 3, Idf(4, 3)), WordScore("bird", 1, Idf(4, 2))]

  /**
   * The record of the `k`-th distinct word of a collection of three documents
   * with the example's tokens and document frequencies.
   */
  lemma ScoreEntryExample(documents: seq<string>, k: nat)
    requires |documents| == 3 && AllTokens(documents) == ExampleTokens
    requires DocFreq("cat", documents) == 2 && DocFreq("dog", documents) == 2 && DocFreq("bird", documents) == 1
    requires k < 3
    ensures |Score(documents)| == 3
    ensures Score(documents)[k] == ExampleScores[k]
  {
    var w := ExampleScores[k].word;
    DistinctExample();
    assert Distinct(AllTokens(documents))[k] == w;
    CountExample(w);
    assert IsWord(w);
    MatchCountIsDocFreq(w, documents);
  }

  /** The example collection scores as `ExampleScores`. */
  lemma ScoreExample(documents: seq<string>)
    requires documents == ExampleDocuments
    ensures Score(documents) == ExampleScores
  {
    AllTokensExample();
    DocFreqExample();
    var sc := Score(documents);
    ScoreEntryExample(documents, 0);
    forall k | 0 <= k < |sc| ensures sc[k] == ExampleScores[k] {
      ScoreEntryExample(documents, k);
    }
    EqualElementwise(sc, ExampleScores);
  }
}
