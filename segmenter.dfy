/**
 * `split_into_documents`: cuts a raw text into documents, either its
 * paragraphs or groups of four non-blank lines.
 */
module Segmenter {

  import opened Seqs
  import opened Text

  /** Lines per document when the text falls back to line grouping. */
  const GroupSize: nat := 4

  /** Paragraphs needed before they are taken as the documents. */
  const MinParagraphs: nat := 3

  /** `[p.strip() for p in pieces if p.strip()]`. */
  function NonBlankStripped(pieces: seq<string>): (r: seq<string>)
    ensures |r| <= |pieces|
    ensures forall k :: 0 <= k < |r| ==> r[k] != []
  {
    if pieces == [] then []
    else if Strip(pieces[0]) == [] then NonBlankStripped(pieces[1..])
    else [Strip(pieces[0])] + NonBlankStripped(pieces[1..])
  }

  /** Filtering a concatenation filters each part: the pieces keep their order. */
  lemma {:induction false} NonBlankStrippedAppend(a: seq<string>, b: seq<string>)
    ensures NonBlankStripped(a + b) == NonBlankStripped(a) + NonBlankStripped(b)
    decreases |a|
  {
    if a == [] {
      assert a + b == b;
    } else {
      assert (a + b)[0] == a[0] && (a + b)[1..] == a[1..] + b;
      NonBlankStrippedAppend(a[1..], b);
    }
  }

  /** The kept pieces are already stripped and non-blank: filtering again keeps them all. */
  lemma {:induction false} NonBlankStrippedIdempotent(pieces: seq<string>)
    ensures NonBlankStripped(NonBlankStripped(pieces)) == NonBlankStripped(pieces)
    decreases |pieces|
  {
    if pieces != [] {
      NonBlankStrippedIdempotent(pieces[1..]);
      var p := Strip(pieces[0]);
      if p != [] {
        StripIdempotent(pieces[0]);
        assert ([p] + NonBlankStripped(pieces[1..]))[1..] == NonBlankStripped(pieces[1..]);
      }
    }
  }

  lemma AllTrimmedCons(p: string, rest: seq<string>)
    requires Trimmed(p)
    requires forall k :: 0 <= k < |rest| ==> Trimmed(rest[k])
    ensures forall k :: 0 <= k < |[p] + rest| ==> Trimmed(([p] + rest)[k])
  {
    forall k | 0 <= k < |[p] + rest| ensures Trimmed(([p] + rest)[k]) {
      if k > 0 {
        assert ([p] + rest)[k] == rest[k - 1];
      }
    }
  }

  /** Every kept piece is trimmed: non-empty, without whitespace at either end. */
  lemma {:induction false} NonBlankStrippedTrimmed(pieces: seq<string>)
    ensures forall k :: 0 <= k < |NonBlankStripped(pieces)| ==> Trimmed(NonBlankStripped(pieces)[k])
    decreases |pieces|
  {
    if pieces != [] {
      var r := NonBlankStripped(pieces);
      var rest := NonBlankStripped(pieces[1..]);
      NonBlankStrippedTrimmed(pieces[1..]);
      var p := Strip(pieces[0]);
      if p != [] {
        StripTrimmed(pieces[0]);
        AllTrimmedCons(p, rest);
        assert r == [p] + rest;
      }
    }
  }

  /** The stripped non-blank pieces of `text.split("\n\n")`. */
  function Paragraphs(text: string): seq<string>
  {
    NonBlankStripped(SplitOnParagraphBreak(text))
  }

  /** The stripped non-blank lines of `text.splitlines()`. */
  function Lines(text: string): seq<string>
  {
    NonBlankStripped(SplitLines(text))
  }

  function Min(a: int, b: int): int
  {
    if a <= b then a else b
  }

  /** `lines` cut into consecutive groups of four; the last group may be shorter. */
  function Groups(lines: seq<string>): seq<seq<string>>
    decreases |lines|
  {
    if |lines| <= GroupSize then (if lines == [] then [] else [lines])
    else [lines[..GroupSize]] + Groups(lines[GroupSize..])
  }

  /** Each group joined with single spaces. */
  function JoinGroups(groups: seq<seq<string>>): seq<string>
  {
    seq(|groups|, k requires 0 <= k < |groups| => JoinWith(" ", groups[k]))
  }

  /** The documents of `text`. */
  function Segment(text: string): seq<string>
  {
    var paragraphs := Paragraphs(text);
    if |paragraphs| >= MinParagraphs then paragraphs else JoinGroups(Groups(Lines(text)))
  }

  /**
   * `split_into_documents`: the paragraphs when there are at least three,
   * otherwise the non-blank lines grouped four at a time.
   */
  method SplitIntoDocuments(text: string) returns (documents: seq<string>)
    ensures documents == Segment(text)
  {
    var lines := Lines(text);
    var paragraphs := Paragraphs(text);
    if |paragraphs| >= MinParagraphs {
      return paragraphs;
    }
    documents := GroupLines(lines);
  }

  /**
   * The fallback loop of `split_into_documents`: appends each line to `temp`
   * and flushes `temp` as one document at every fourth line, then flushes
   * what is left.
   */
  method GroupLines(lines: seq<string>) returns (documents: seq<string>)
    ensures documents == JoinGroups(Groups(lines))
  {
    documents := [];
    var temp: seq<string> := [];
    ghost var done := 0;
    for i := 0 to |lines|
      invariant done % GroupSize == 0 && done <= i
      invariant |temp| < GroupSize && temp == lines[done..i]
      invariant documents == JoinGroups(Groups(lines[..done]))
    {
      temp := temp + [lines[i]];
      var idx := i + 1;
      FullGroupAt(done, |temp|);
      if idx % GroupSize == 0 {
        assert lines[..done] + temp == lines[..idx];
        Flush(lines[..done], temp);
        documents := documents + [JoinWith(" ", temp)];
        temp := [];
        done := idx;
      }
    }
    if temp != [] {
      assert lines[..done] + temp == lines;
      Flush(lines[..done], temp);
      documents := documents + [JoinWith(" ", temp)];
    } else {
      assert lines[..done] == lines;
    }
  }

  /** After a whole number of groups, the running line count is a multiple of four just when the open group is full. */
  lemma FullGroupAt(done: nat, open: nat)
    requires done % GroupSize == 0 && 1 <= open <= GroupSize
    ensures (done + open) % GroupSize == 0 <==> open == GroupSize
  {
  }

  /** Appending a group after a whole number of full groups adds it as the last group. */
  lemma {:induction false} GroupsAppend(lines: seq<string>, tail: seq<string>)
    requires |lines| % GroupSize == 0
    requires 1 <= |tail| <= GroupSize
    ensures Groups(lines + tail) == Groups(lines) + [tail]
    decreases |lines|
  {
    if lines == [] {
      assert lines + tail == tail;
    } else {
      assert (lines + tail)[..GroupSize] == lines[..GroupSize];
      assert (lines + tail)[GroupSize..] == lines[GroupSize..] + tail;
      GroupsAppend(lines[GroupSize..], tail);
    }
  }

  /** Flushing the open group appends its joined text as the next document. */
  lemma Flush(full: seq<string>, open: seq<string>)
    requires |full| % GroupSize == 0
    requires 1 <= |open| <= GroupSize
    ensures JoinGroups(Groups(full + open)) == JoinGroups(Groups(full)) + [JoinWith(" ", open)]
  {
    GroupsAppend(full, open);
    var groups := Groups(full);
    assert JoinGroups(groups + [open]) == JoinGroups(groups) + [JoinWith(" ", open)];
  }

  /** The groups, concatenated, give back every line once and in order. */
  lemma {:induction false} GroupsConcat(lines: seq<string>)
    ensures Concat(Groups(lines)) == lines
    decreases |lines|
  {
    if |lines| > GroupSize {
      GroupsConcat(lines[GroupSize..]);
      assert lines == lines[..GroupSize] + lines[GroupSize..];
    }
  }

  /** There are ceil(L / 4) groups; all but the last hold four lines, the last one to four. */
  lemma {:induction false} GroupSizes(lines: seq<string>)
    ensures |Groups(lines)| == (|lines| + GroupSize - 1) / GroupSize
    ensures forall k :: 0 <= k < |Groups(lines)| - 1 ==> |Groups(lines)[k]| == GroupSize
    ensures Groups(lines) != [] ==> 1 <= |Groups(lines)[|Groups(lines)| - 1]| <= GroupSize
    decreases |lines|
  {
    if |lines| > GroupSize {
      var rest := Groups(lines[GroupSize..]);
      GroupSizes(lines[GroupSize..]);
      assert Groups(lines) == [lines[..GroupSize]] + rest;
      assert rest != [];
    }
  }

  /** Group k is exactly lines 4k .. 4k+3 (fewer at the end). */
  lemma {:induction false} GroupAt(lines: seq<string>, k: nat)
    requires k < |Groups(lines)|
    ensures 4 * k < |lines|
    ensures Groups(lines)[k] == lines[4 * k .. Min(4 * k + 4, |lines|)]
    decreases |lines|
  {
    if |lines| > GroupSize && k > 0 {
      var tail := lines[GroupSize..];
      GroupAt(tail, k - 1);
      var lo := 4 * (k - 1);
      var hi := Min(lo + 4, |tail|);
      assert lo + 4 == 4 * k && hi + 4 == Min(4 * k + 4, |lines|);
      assert tail[lo..hi] == lines[lo + 4 .. hi + 4];
    }
  }

  /** `NonBlankStripped` drops every piece of a whitespace-only input. */
  lemma {:induction false} NonBlankStrippedOfBlank(pieces: seq<string>)
    requires forall p :: p in pieces ==> AllSpace(p)
    ensures NonBlankStripped(pieces) == []
    decreases |pieces|
  {
    if pieces != [] {
      StripBlank(pieces[0]);
      assert pieces[0] in pieces;
      forall p | p in pieces[1..] ensures AllSpace(p) {
        assert p in pieces;
      }
      NonBlankStrippedOfBlank(pieces[1..]);
    }
  }

  /** Empty or whitespace-only text has no documents. */
  lemma SegmentOfBlank(text: string)
    requires AllSpace(text)
    ensures Segment(text) == []
  {
    SplitOnParagraphBreakBlank(text);
    NonBlankStrippedOfBlank(SplitOnParagraphBreak(text));
    SplitLinesBlank(text);
    NonBlankStrippedOfBlank(SplitLines(text));
  }

  /**
   * With three paragraphs or more, the documents are the paragraphs, each
   * stripped and non-empty.
   */
  lemma SegmentParagraphs(text: string)
    requires |Paragraphs(text)| >= MinParagraphs
    ensures Segment(text) == Paragraphs(text)
    ensures forall k :: 0 <= k < |Segment(text)| ==> Trimmed(Segment(text)[k])
  {
    NonBlankStrippedTrimmed(SplitOnParagraphBreak(text));
  }

  /** No document is empty. */
  lemma SegmentNonEmpty(text: string)
    ensures forall d :: d in Segment(text) ==> d != []
  {
    var lines := Lines(text);
    if |Paragraphs(text)| < MinParagraphs {
      var groups := Groups(lines);
      forall k | 0 <= k < |groups| ensures JoinWith(" ", groups[k]) != [] {
        GroupAt(lines, k);
        assert groups[k][0] == lines[4 * k];
        JoinWithNonEmpty(" ", groups[k]);
      }
    }
  }

  /**
   * With fewer than three paragraphs, document k joins lines 4k .. 4k+3 of the
   * non-blank stripped lines (fewer for the last one), and there are ceil(L / 4)
   * documents for L lines.
   */
  lemma SegmentFallback(text: string)
    requires |Paragraphs(text)| < MinParagraphs
    ensures |Segment(text)| == (|Lines(text)| + GroupSize - 1) / GroupSize
    ensures forall k :: 0 <= k < |Segment(text)| ==>
      4 * k < |Lines(text)| &&
      Segment(text)[k] == JoinWith(" ", Lines(text)[4 * k .. Min(4 * k + 4, |Lines(text)|)])
  {
    var lines := Lines(text);
    var docs := JoinGroups(Groups(lines));
    assert Segment(text) == docs;
    GroupSizes(lines);
    forall k | 0 <= k < |docs|
      ensures 4 * k < |lines| && docs[k] == JoinWith(" ", lines[4 * k .. Min(4 * k + 4, |lines|)])
    {
      GroupAt(lines, k);
    }
  }

  /** A trimmed first piece is kept as it is. */
  lemma NonBlankStrippedCons(pieces: seq<string>)
    requires pieces != [] && Trimmed(pieces[0])
    ensures NonBlankStripped(pieces) == [pieces[0]] + NonBlankStripped(pieces[1..])
  {
    StripUnchanged(pieces[0]);
  }

  /** Pieces that are already trimmed are all kept, in order. */
  lemma {:induction false} NonBlankStrippedKeeps(pieces: seq<string>)
    requires forall k :: 0 <= k < |pieces| ==> Trimmed(pieces[k])
    ensures NonBlankStripped(pieces) == pieces
    decreases |pieces|
  {
    if pieces != [] {
      NonBlankStrippedCons(pieces);
      NonBlankStrippedKeeps(pieces[1..]);
      HeadTail(pieces);
    }
  }

  lemma JoinParagraphExample(pieces: seq<string>)
    requires pieces == ["cat dog", "cat bird", "dog dog"]
    ensures JoinWith(ParagraphBreak, pieces) == "cat dog\n\ncat bird\n\ndog dog"
  {
    assert JoinWith(ParagraphBreak, pieces[2..]) == "dog dog";
    assert JoinWith(ParagraphBreak, pieces[1..]) == "cat bird\n\ndog dog";
  }

  /** Three paragraphs separated by blank lines are the three documents. */
  lemma ParagraphExample(text: string, pieces: seq<string>)
    requires text == "cat dog\n\ncat bird\n\ndog dog"
    requires pieces == ["cat dog", "cat bird", "dog dog"]
    ensures Segment(text) == pieces
  {
    JoinParagraphExample(pieces);
    assert forall k :: 0 <= k < |pieces| ==> SingleLine(pieces[k]) && Trimmed(pieces[k]);
    SingleLineInnerPiece(pieces[0]);
    SingleLineInnerPiece(pieces[1]);
    SingleLineInnerPiece(pieces[2]);
    SplitOnParagraphBreakOfJoin(pieces);
    NonBlankStrippedKeeps(pieces);
  }

  lemma JoinLinesExample(lines: seq<string>)
    requires lines == ["a", "b", "c", "d", "e"]
    ensures JoinWith("\n", lines) == "a\nb\nc\nd\ne"
  {
    assert JoinWith("\n", lines[3..]) == "d\ne";
    assert JoinWith("\n", lines[1..]) == "b\nc\nd\ne";
  }

  lemma FiveLinesParagraphs(text: string, lines: seq<string>)
    requires text == "a\nb\nc\nd\ne"
    requires lines == ["a", "b", "c", "d", "e"]
    ensures Paragraphs(text) == [text]
  {
    JoinLinesExample(lines);
    assert forall k :: 0 <= k < |lines| ==> lines[k] != [] && SingleLine(lines[k]);
    JoinedLinesOneParagraph(lines);
    SplitWithoutParagraphBreak(text);
    assert Trimmed([text][0]);
    NonBlankStrippedKeeps([text]);
  }

  lemma FiveLinesLines(text: string, lines: seq<string>)
    requires text == "a\nb\nc\nd\ne"
    requires lines == ["a", "b", "c", "d", "e"]
    ensures Lines(text) == lines
  {
    JoinLinesExample(lines);
    assert forall k :: 0 <= k < |lines| ==> lines[k] != [] && SingleLine(lines[k]) && Trimmed(lines[k]);
    SplitLinesOfJoin(lines);
    NonBlankStrippedKeeps(lines);
  }

  lemma FiveLinesGroups(lines: seq<string>, first: seq<string>)
    requires lines == ["a", "b", "c", "d", "e"]
    requires first == ["a", "b", "c", "d"]
    ensures JoinGroups(Groups(lines)) == ["a b c d", "e"]
  {
    assert lines[GroupSize..] == ["e"] && lines[..GroupSize] == first;
    assert Groups(lines) == [first, ["e"]];
    assert JoinWith(" ", first[2..]) == "c d";
    assert JoinWith(" ", first[1..]) == "b c d";
    assert JoinWith(" ", first) == "a b c d";
    assert JoinWith(" ", ["e"]) == "e";
    var g := JoinGroups([first, ["e"]]);
    assert |g| == 2 && g[0] == "a b c d" && g[1] == "e";
  }

  /** Five lines and no blank line give a four-line document and a one-line document. */
  lemma FiveLinesExample(text: string)
    requires text == "a\nb\nc\nd\ne"
    ensures Segment(text) == ["a b c d", "e"]
  {
    var lines := ["a", "b", "c", "d", "e"];
    FiveLinesParagraphs(text, lines);
    FiveLinesLines(text, lines);
    FiveLinesGroups(lines, lines[..4]);
  }
}
