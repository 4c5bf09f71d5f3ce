# TF-IDF text analysis core, modelled in Dafny

This project models the two functions at the centre of the text-analysis web
application in `main/views.py`:

- `split_into_documents(text)` turns an uploaded text into documents. If the
  text has at least three non-blank paragraphs (pieces of `text.split("\n\n")`),
  it returns those paragraphs, stripped. Otherwise it takes the stripped
  non-blank lines of `text.splitlines()` and joins them four at a time with
  single spaces; a shorter last group is kept.
- `analyze_text(documents)` tokenizes every lower-cased document with
  `\b\w+\b` and counts the tokens in a `Counter` (tf). For each distinct
  token it counts the documents that a whole-word regex search finds (df).
  It returns one record `{word, tf, idf}` per token, in the counter's key
  order, with `idf = round(ln((N + 1) / (1 + df)) + 1, 6)`.

Layout:

- `seqs.dfy` (module `Seqs`): counting, first-occurrence order and
  concatenation over sequences.
- `text.dfy` (module `Text`): the Python string primitives the core relies on.
  These are `str.isspace`, `str.strip`, `str.splitlines`, `str.split("\n\n")`,
  `str.join`, `str.lower` and the `\w` class. Each comes with lemmas about it:
  round trips between splitting and joining, blank input, idempotence.
- `segmenter.dfy` (module `Segmenter`): `split_into_documents`.
  - `Segment` is the specification function.
  - `SplitIntoDocuments` and its loop `GroupLines` are methods proved equal to it.
- `scorer.dfy` (module `Scorer`): `analyze_text`.
  - `Score` is the specification function.
  - `AnalyzeText` and its three loops (`CountTerms`, `CountDocuments`, the result loop) are proved equal to it.
  - A `Counter` is modelled as a `Tally`: its key order plus its counts.

The df loop uses the regex search, as the code does (`Matches`, `MatchCount`).
`MatchCountIsDocFreq` proves that this count equals the count of documents
whose token list contains the word (`DocFreq`). So a `\b`-delimited search
for a token never finds it inside a longer word.
`TokenCount` goes further for tf: a token occurs among a text's tokens exactly as
many times as `\bw\b` matches the text.

The model follows the code on three points a reader might expect otherwise:

- Paragraphs are separated by the literal two-character string `"\n\n"`, not
  by any blank line. A line holding only spaces does not separate paragraphs,
  and neither do CRLF line endings (`"\r\n\r\n"`).
- The records come out as a list in first-occurrence order of the words, not
  as an unordered set.
- Documents are lower-cased before tokenizing rather than the tokens
  afterwards. Under the character-wise lowering modelled here the two agree
  (`TokensOfLower`), because `LowerChar` keeps word characters word characters.

## Model

| member | source | states |
|---|---|---|
| Seqs.Count | main/views.py:43 | the count of a word is at most the sequence length and is positive exactly when the word occurs |
| Seqs.CountAppend | main/views.py:41-43 | counting over the tokens of several documents adds the per-document counts (the `Counter.update` accumulation) |
| Seqs.Distinct | main/views.py:46 | the counter's key order holds every token, only tokens, and each token once |
| Seqs.DistinctFirstOccurrence | main/views.py:43-46 | the key order is first-occurrence order: a key listed before another occurs in the tokens before every occurrence of the later one |
| Text.IsWordChar | main/views.py:42 | definition: the characters `\w` matches, approximated as listed under Left out; no contract |
| Text.IsSpace | main/views.py:17-19 | definition: exactly the characters `str.isspace()` accepts and `str.strip()` removes; no contract |
| Text.IsLineBreak | main/views.py:17 | definition: exactly the line boundaries `str.splitlines()` cuts at; no contract |
| Text.LowerChar | main/views.py:42 | lower-casing keeps word characters word characters and maps `A`..`Z` into `a`..`z` |
| Text.Lower | main/views.py:42 | definition: `doc.lower()` as `LowerChar` applied to every character, keeping the length; no contract |
| Text.LowerUnchanged | main/views.py:42 | text without upper-case letters is unchanged by `lower()` |
| Text.TrimStart | main/views.py:17 | `lstrip` returns a suffix; everything dropped is whitespace and the result does not start with whitespace |
| Text.TrimEnd | main/views.py:17 | `rstrip` returns a prefix; everything dropped is whitespace and the result does not end with whitespace |
| Text.Strip | main/views.py:17-19 | definition: `str.strip()` as `rstrip` after `lstrip`; its properties are the `Strip…` lemmas below |
| Text.StripBlank | main/views.py:17 | `s.strip()` is empty exactly when `s` is all whitespace, which is the blank test `if line.strip()` |
| Text.StripIdempotent | main/views.py:19 | stripping twice is stripping once |
| Text.StripTrimmed | main/views.py:19 | a non-empty strip has no whitespace at either end |
| Text.StripUnchanged | main/views.py:19 | non-empty text with no whitespace at either end is its own strip |
| Text.SplitOnParagraphBreak | main/views.py:19 | `split("\n\n")` yields at least one piece and the first piece is a prefix of the text |
| Text.SplitOnParagraphBreakJoin | main/views.py:19 | round trip: joining the pieces with `"\n\n"` gives back the text |
| Text.SplitOnParagraphBreakPieces | main/views.py:19 | no piece contains `"\n\n"` |
| Text.SplitOnParagraphBreakBlank | main/views.py:19 | every piece of whitespace-only text is whitespace-only |
| Text.SingleLineInnerPiece | main/views.py:19 | a piece without line boundaries holds no `"\n\n"` and does not end with `"\n"` |
| Text.SplitOnParagraphBreakFirstCut | main/views.py:19 | when there is more than one piece, the text continues after the first piece with `"\n\n"`: the cut is at a separator |
| Text.SplitOnParagraphBreakInner | main/views.py:19 | no piece but the last ends with `"\n"`: the split cuts at the leftmost `"\n\n"`, so `"a\n\n\nb"` gives `["a", "\nb"]`; with the join and no-separator lemmas this fixes the pieces uniquely |
| Text.SplitWithoutParagraphBreak | main/views.py:19 | text without `"\n\n"` is one piece |
| Text.SplitAfterParagraph | main/views.py:19 | a first piece with no `"\n\n"` and no trailing `"\n"` is split off at the `"\n\n"` after it |
| Text.SplitOnParagraphBreakOfJoin | main/views.py:19 | round trip: pieces joined with `"\n\n"` split back into those pieces when none holds `"\n\n"` and none but the last ends with `"\n"`, so multi-line paragraphs come back whole |
| Text.JoinedLinesOneParagraph | main/views.py:19-20 | non-empty lines joined by single newlines contain no `"\n\n"`, so such text is one paragraph |
| Text.SplitLines | main/views.py:17 | definition: `str.splitlines()`, with CR LF as one boundary and no empty line after a trailing boundary; its properties are the `SplitLines…` lemmas below |
| Text.SplitLinesConcat | main/views.py:17 | the lines of `splitlines()`, concatenated, are the text with its line boundaries removed |
| Text.SplitLinesHaveNoBreaks | main/views.py:17 | no line contains a line boundary |
| Text.SplitLinesBlank | main/views.py:17 | every line of whitespace-only text is whitespace-only |
| Text.SplitLinesSingle | main/views.py:17 | non-empty text without a line boundary is one line |
| Text.SplitLinesAfterLine | main/views.py:17 | a first line is split off at the `"\n"` after it |
| Text.SplitLinesOfJoin | main/views.py:17 | round trip: lines without boundaries, joined with `"\n"` and with a non-empty last line, split back into those lines |
| Text.JoinWith | main/views.py:28-31 | definition: `sep.join(parts)`; its properties are the round-trip lemmas above and the row below |
| Text.JoinWithNonEmpty | main/views.py:28 | a join whose first part is non-empty is non-empty and starts with that part's first character |
| Segmenter.NonBlankStripped | main/views.py:17 | the filter keeps at most as many pieces as it is given, and every kept piece is non-empty |
| Segmenter.NonBlankStrippedAppend | main/views.py:17 | the filter works piece by piece and keeps the order |
| Segmenter.NonBlankStrippedIdempotent | main/views.py:19 | filtering again keeps every kept piece |
| Segmenter.NonBlankStrippedTrimmed | main/views.py:19 | every kept piece is non-empty and has no whitespace at either end |
| Segmenter.NonBlankStrippedOfBlank | main/views.py:17 | whitespace-only pieces are all dropped |
| Segmenter.NonBlankStrippedCons | main/views.py:19 | a trimmed first piece is kept unchanged, in first place |
| Segmenter.NonBlankStrippedKeeps | main/views.py:19 | pieces that are already trimmed are all kept, in order |
| Segmenter.Lines | main/views.py:17 | definition: the stripped non-blank lines of `text.splitlines()`; no contract |
| Segmenter.Paragraphs | main/views.py:19 | definition: the stripped non-blank pieces of `text.split("\n\n")`; no contract |
| Segmenter.Groups | main/views.py:23-31 | definition: the lines cut into consecutive groups of four, the last possibly shorter; its properties are `GroupsConcat`, `GroupSizes` and `GroupAt` |
| Segmenter.JoinGroups | main/views.py:28-31 | definition: each group joined with single spaces; no contract |
| Segmenter.Segment | main/views.py:10-32 | definition: the paragraphs if there are at least three, else the grouped lines; its properties are the `Segment…` lemmas below |
| Segmenter.SplitIntoDocuments | main/views.py:10-32 | the method returns `Segment(text)`: the paragraphs if there are at least three, else the lines grouped by four |
| Segmenter.GroupLines | main/views.py:23-31 | the `temp` loop with its flush at every fourth line and the final flush of a non-empty `temp` returns each group of four lines joined with spaces, in order |
| Segmenter.FullGroupAt | main/views.py:27 | after whole groups, `idx % 4 == 0` holds exactly when the open group has four lines |
| Segmenter.GroupsAppend | main/views.py:30-31 | after whole groups, one to four more lines form exactly one more group |
| Segmenter.Flush | main/views.py:28-31 | flushing `temp` appends its space-joined text as the next document |
| Segmenter.GroupsConcat | main/views.py:23-31 | the groups, concatenated, are the lines, each once and in order |
| Segmenter.GroupSizes | main/views.py:25-31 | there are ceil(L/4) groups; every group but the last has four lines and the last has one to four |
| Segmenter.GroupAt | main/views.py:25-31 | group k is exactly lines 4k to 4k+3, cut at the end |
| Segmenter.SegmentOfBlank | main/views.py:17-32 | empty or whitespace-only text gives no documents |
| Segmenter.SegmentParagraphs | main/views.py:19-21 | with at least three paragraphs the documents are the paragraphs, each non-empty and without whitespace at either end |
| Segmenter.SegmentNonEmpty | main/views.py:17-32 | no document is empty |
| Segmenter.SegmentFallback | main/views.py:23-31 | with fewer than three paragraphs there are ceil(L/4) documents, and document k joins lines 4k to 4k+3 with spaces |
| Segmenter.ParagraphExample | main/views.py:19-21 | `"cat dog\n\ncat bird\n\ndog dog"` gives the documents `"cat dog"`, `"cat bird"` and `"dog dog"` |
| Segmenter.JoinParagraphExample | main/views.py:19 | the three paragraphs joined with `"\n\n"` are that text |
| Segmenter.JoinLinesExample | main/views.py:17 | five one-letter lines joined with `"\n"` are `"a\nb\nc\nd\ne"` |
| Segmenter.FiveLinesParagraphs | main/views.py:19-20 | five lines with no blank line form one paragraph |
| Segmenter.FiveLinesLines | main/views.py:17 | those five lines are the stripped non-blank lines |
| Segmenter.FiveLinesGroups | main/views.py:23-31 | five lines give the groups `"a b c d"` and `"e"` |
| Segmenter.FiveLinesExample | main/views.py:17-32 | `"a\nb\nc\nd\ne"` gives a four-line document and a one-line document |
| Scorer.RunLength | main/views.py:42 | the leading run of word characters: all of its characters are word characters, and the next character is not |
| Scorer.Tokens | main/views.py:42 | every token `findall(r"\b\w+\b")` returns is a non-empty run of word characters |
| Scorer.RunLengthOfLower | main/views.py:42 | lower-casing keeps the leading run of word characters the same length |
| Scorer.TokensOfLower | main/views.py:42 | tokenizing `doc.lower()` gives the document's tokens, each lower-cased, in the same order |
| Scorer.RunLengthOfWord | main/views.py:42 | a word followed by a non-word character is exactly the leading run |
| Scorer.TokensOfJoin | main/views.py:42 | round trip: words joined with single spaces tokenize back into those words |
| Scorer.TwoWordDocTokens | main/views.py:42 | a lower-case document of two words separated by a space tokenizes into those two words |
| Scorer.DocTokens | main/views.py:42 | definition: `re.findall(r"\b\w+\b", doc.lower())`; no contract |
| Scorer.AllTokens | main/views.py:41-43 | every counted token is a word |
| Scorer.Boundary | main/views.py:48 | definition: `\b` holds at a position with a word character on exactly one side; no contract |
| Scorer.WholeWordAt | main/views.py:48 | definition: `\bw\b` matches at a position; no contract |
| Scorer.Matches | main/views.py:48 | definition: `re.search(rf"\b{re.escape(w)}\b", t)` finds a match somewhere; its meaning is `MatchesIffToken` |
| Scorer.SumCounts | main/views.py:40-43 | definition: per-document occurrence counts summed; no contract |
| Scorer.MatchCount | main/views.py:47-49 | the regex-based df of a word is at most N |
| Scorer.DocFreq | main/views.py:45-49 | the reference df (documents whose tokens include the word) is at most N |
| Scorer.IdfOf | main/views.py:53 | the idf ratio `(N + 1) / (1 + df)` has a positive denominator and is at least 1 when df is at most N |
| Scorer.IdfGreater | main/views.py:53 | definition: one idf ratio is strictly larger than another (the rounded idfs may still tie); no contract |
| Scorer.Score | main/views.py:35-55 | definition: one record per distinct token in first-occurrence order; its properties are `ScoreVocabulary` and `ScoreRecord` |
| Scorer.Bump | main/views.py:43 | definition: one increment of a `Counter`, where a new key joins the end; its properties are `BumpTallies`, `BumpOrder` and `BumpCounts` |
| Scorer.BumpTallies | main/views.py:43 | counting one more word keeps the counter equal to the count of the words seen, in first-occurrence key order |
| Scorer.BumpOrder | main/views.py:43 | a new word joins the end of the key order; a known word leaves it unchanged |
| Scorer.BumpCounts | main/views.py:43 | after one more word, the keys are the words seen and each count is its number of occurrences |
| Scorer.Update | main/views.py:43 | `Counter.update(words)` extends the counter from `seen` to `seen + words` |
| Scorer.DfGet | main/views.py:49-53 | definition: reading `df[w]` from a `defaultdict(int)` gives 0 for a word never counted; no contract |
| Scorer.CountTerms | main/views.py:40-43 | after the first loop the counter holds every token of every lower-cased document, with its occurrence count, in first-occurrence order |
| Scorer.CountDocuments | main/views.py:45-49 | after the nested loop `df[w]` is the number of documents the whole-word search finds, for every vocabulary word |
| Scorer.AnalyzeText | main/views.py:35-55 | the returned records are `Score(documents)`: one per distinct token in counter order with its tf and idf ratio, so two runs on the same documents agree |
| Scorer.IdfDecreasing | main/views.py:53 | for fixed N the ratio `(N + 1) / (1 + df)` falls strictly as df grows; the rounded idf the code returns only never increases (see Left out) |
| Scorer.WholeWordChars | main/views.py:48 | a whole-word match of a token covers only word characters |
| Scorer.ShiftWholeWord | main/views.py:48 | dropping a prefix that ends at a non-word character keeps the matches after it |
| Scorer.MatchesSkip | main/views.py:48 | a leading non-word character does not change whether the search finds a token |
| Scorer.MatchInRun | main/views.py:48 | a match in text that starts with a run of word characters is that whole run or lies after it |
| Scorer.MatchPastRun | main/views.py:48 | a match after the leading run is a match in the whole text |
| Scorer.MatchesAfterRun | main/views.py:48 | the search finds a token exactly when it is the leading run or is found after it |
| Scorer.MatchesIffToken | main/views.py:42-48 | the `\b`-delimited search finds a token exactly when the token is one of the text's `\b\w+\b` tokens |
| Scorer.WholeWordCountFrom | main/views.py:42-48 | definition: the number of positions from `i` on at which `\bw\b` matches; no contract |
| Scorer.ShiftWholeWordCount | main/views.py:48 | dropping a prefix that ends at a non-word character keeps the number of matches after it |
| Scorer.NoMatchInsideRun | main/views.py:48 | no match of a token starts inside the leading run of word characters or at its end |
| Scorer.WholeWordCountOfRun | main/views.py:42-48 | text starting with a run of word characters has one match of a token at the run exactly when the token is that run, and the rest of its matches after the run |
| Scorer.TokenCount | main/views.py:42-43 | a token occurs among a text's `\b\w+\b` tokens exactly as many times as `\bw\b` matches the text, so tf counts whole-word matches |
| Scorer.MatchCountIsDocFreq | main/views.py:45-49 | the regex-based df equals the number of documents whose tokens include the word |
| Scorer.DocFreqPositive | main/views.py:45-49 | a word that occurs in the documents has df of at least 1 |
| Scorer.CountIsSum | main/views.py:40-43 | tf is the sum of the per-document occurrence counts |
| Scorer.ScoreVocabulary | main/views.py:46-54 | there is exactly one record per distinct token: no word twice, every token has a record and every record is a token; no documents give no records |
| Scorer.ScoreRecord | main/views.py:39-54 | tf is the total occurrence count and at least 1; df is between 1 and N; idf is `(N + 1, 1 + df)` and at least 1 |
| Scorer.NotFoundInsideLongerWord | main/views.py:48 | the search for `"cat"` does not find `"category"` |
| Scorer.FoundBetweenDelimiters | main/views.py:48 | the search for `"cat"` finds `"a cat."` |
| Scorer.ExampleDocTokens | main/views.py:42 | `"cat dog"`, `"cat bird"` and `"dog dog"` tokenize into their two words each |
| Scorer.AllTokensExample | main/views.py:41-43 | the three example documents yield the tokens cat, dog, cat, bird, dog, dog |
| Scorer.DistinctExample | main/views.py:46 | their key order is cat, dog, bird |
| Scorer.CountExample | main/views.py:43 | tf is 2 for cat, 3 for dog, 1 for bird and 0 otherwise |
| Scorer.DocFreqExample | main/views.py:45-49 | df is 2 for cat, 2 for dog and 1 for bird |
| Scorer.ScoreEntryExample | main/views.py:51-54 | three documents with the example's tokens and document frequencies give the example record at each position |
| Scorer.ScoreExample | main/views.py:35-55 | the example documents score cat (tf 2, idf 4/3), dog (tf 3, idf 4/3), bird (tf 1, idf 4/2) |

## Left out

- `upload_text` (main/views.py:58 onwards) and `main/forms.py` are not part of this model. They cover request handling, file decoding, sorting the records by idf, keeping the top 50, session storage and pagination.
- Scorer.IdfOf: stands for the idf by its ratio `(N + 1) / (1 + df)`. The natural logarithm, the `+ 1` and the rounding to six decimals are floating point and are not modelled. The logarithm is strictly increasing, so the ratio falls strictly as df grows (`IdfDecreasing`). The rounded value the code returns only never increases: `round(…, 6)` can give two df values the same idf. For N = 2,000,000, df = N − 1 and df = N both give 1.0. Such ties are possible once df is above about a million. A strict comparison of ratios (`IdfGreater`) therefore does not always mean a strictly larger returned idf.
- Scorer.IdfDecreasing: proves the strict decrease for the ratio only. For the rounded idf the code returns, the decrease is not strict, as the `Scorer.IdfOf` line explains.
- Text.IsWordChar: Python's Unicode `\w` is approximated by ASCII letters, digits, `_` and the Cyrillic block U+0400..U+045F. Other Unicode letters and digits count as non-word characters.
- Text.LowerChar: `str.lower` is modelled character by character on ASCII and the Cyrillic block. Other case mappings are not modelled, including ones that change the length of the string.
- The regex search in `analyze_text` is modelled by what it finds (`Matches`), not by how the pattern is built and run. `re.escape` leaves word characters alone, so for a token the pattern is the token itself between `\b` assertions.
- A `Counter` and a `defaultdict(int)` are modelled as values (`Tally`, a `map` with `DfGet`), not as shared mutable objects. The Counter's insertion order is kept explicitly (`Tally.order`); `df`'s is not, since nothing iterates over it.
- Running time is not modelled; that includes the per-word, per-document regex scan.
