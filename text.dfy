/**
 * The pieces of Python's `str` and `re` that the text-analysis views rely on,
 * over Dafny strings (sequences of Unicode scalar values).
 */
module Text {

  import opened Seqs

  /**
   * Python's `\w` on a `str` pattern. Approximated by the ASCII letters,
   * digits and underscore plus the Cyrillic block U+0400..U+045F.
   */
  predicate IsWordChar(c: char)
  {
    ('a' <= c <= 'z') || ('A' <= c <= 'Z') || ('0' <= c <= '9') || c == '_' ||
    ('\U{0400}' <= c <= '\U{045F}')
  }

  /** `str.isspace()`: exactly the characters `str.strip()` removes. */
  predicate IsSpace(c: char)
  {
    var n := c as int;
    (0x09 <= n <= 0x0D) || (0x1C <= n <= 0x20) || n == 0x85 || n == 0xA0 ||
    n == 0x1680 || (0x2000 <= n <= 0x200A) || n == 0x2028 || n == 0x2029 ||
    n == 0x202F || n == 0x205F || n == 0x3000
  }

  /** The line boundaries `str.splitlines()` recognises (a CR LF pair is one boundary). */
  predicate IsLineBreak(c: char)
  {
    var n := c as int;
    (0x0A <= n <= 0x0D) || (0x1C <= n <= 0x1E) || n == 0x85 || n == 0x2028 || n == 0x2029
  }

  /** `str.lower()` on one character, on the letters `IsWordChar` knows about. */
  function LowerChar(c: char): (l: char)
    ensures IsWordChar(l) == IsWordChar(c)
    ensures 'A' <= c <= 'Z' ==> 'a' <= l <= 'z'
  {
    if 'A' <= c <= 'Z' then (c as int + 0x20) as char
    else if '\U{0400}' <= c <= '\U{040F}' then (c as int + 0x50) as char
    else if '\U{0410}' <= c <= '\U{042F}' then (c as int + 0x20) as char
    else c
  }

  /** `str.lower()`, character by character. */
  function Lower(s: string): string
  {
    seq(|s|, i requires 0 <= i < |s| => LowerChar(s[i]))
  }

  /** Text without a character that `LowerChar` changes. */
  predicate NoUpperCase(s: string)
  {
    forall k :: 0 <= k < |s| ==> !('A' <= s[k] <= 'Z') && !('\U{0400}' <= s[k] <= '\U{042F}')
  }

  /** Lower-casing text without upper-case letters leaves it unchanged. */
  lemma LowerUnchanged(s: string)
    requires NoUpperCase(s)
    ensures Lower(s) == s
  {
  }

  predicate AllSpace(s: string)
  {
    forall i :: 0 <= i < |s| ==> IsSpace(s[i])
  }

  /** `str.lstrip()`: the suffix left after dropping leading whitespace. */
  function TrimStart(s: string): (r: string)
    ensures |r| <= |s| && r == s[|s| - |r|..]
    ensures AllSpace(s[..|s| - |r|])
    ensures r != [] ==> !IsSpace(r[0])
  {
    if s != [] && IsSpace(s[0]) then
      var t := TrimStart(s[1..]);
      var k := |s| - |t|;
      assert t == s[k..];
      assert forall i :: 1 <= i < k ==> s[i] == s[1..][..k - 1][i - 1];
      assert AllSpace(s[..k]);
      t
    else s
  }

  /** `str.rstrip()`: the prefix left after dropping trailing whitespace. */
  function TrimEnd(s: string): (r: string)
    ensures |r| <= |s| && r == s[..|r|]
    ensures AllSpace(s[|r|..])
    ensures r != [] ==> !IsSpace(r[|r| - 1])
  {
    if s != [] && IsSpace(s[|s| - 1]) then
      var u := s[..|s| - 1];
      var t := TrimEnd(u);
      assert u[..|t|] == s[..|t|];
      assert forall i :: |t| <= i < |s| - 1 ==> s[i] == u[|t|..][i - |t|];
      assert AllSpace(s[|t|..]);
      t
    else s
  }

  /** `str.strip()`. */
  function Strip(s: string): string
  {
    TrimEnd(TrimStart(s))
  }

  /** A stripped string is empty exactly when the original was all whitespace. */
  lemma StripBlank(s: string)
    ensures Strip(s) == [] <==> AllSpace(s)
  {
    var t := TrimStart(s);
    var r := TrimEnd(t);
    assert s == s[..|s| - |t|] + t;
    if t != [] {
      assert r != [] by {
        assert !IsSpace(t[0]);
        assert !AllSpace(t[|r|..]) || |r| > 0;
      }
      assert !IsSpace(s[|s| - |t|]);
    } else {
      assert s[..|s| - |t|] == s;
    }
  }

  /** Stripping twice is stripping once. */
  lemma StripIdempotent(s: string)
    ensures Strip(Strip(s)) == Strip(s)
  {
    var t := TrimStart(s);
    var r := TrimEnd(t);
    if r != [] {
      assert t != [] && r[0] == t[0];
      assert TrimStart(r) == r;
      assert TrimEnd(r) == r;
    }
  }

  /** The separator of `text.split("\n\n")`. */
  const ParagraphBreak: string := "\n\n"

  /**
   * `s.split("\n\n")`: the pieces between the non-overlapping occurrences of
   * the separator, found left to right; the first piece is a prefix of `s`.
   */
  function SplitOnParagraphBreak(s: string): (pieces: seq<string>)
    ensures |pieces| >= 1
    ensures |pieces[0]| <= |s| && pieces[0] == s[..|pieces[0]|]
    decreases |s|
  {
    if |s| < 2 then [s]
    else if s[0] == '\n' && s[1] == '\n' then [""] + SplitOnParagraphBreak(s[2..])
    else
      var rest := SplitOnParagraphBreak(s[1..]);
      [[s[0]] + rest[0]] + rest[1..]
  }

  /** `sep.join(parts)`. */
  function JoinWith(sep: string, parts: seq<string>): string
  {
    if parts == [] then ""
    else if |parts| == 1 then parts[0]
    else parts[0] + sep + JoinWith(sep, parts[1..])
  }

  /** Moving text from the front of the first part to the front of the join. */
  lemma JoinWithFirst(sep: string, a: string, b: string, rest: seq<string>)
    ensures JoinWith(sep, [a + b] + rest) == a + JoinWith(sep, [b] + rest)
  {
    if rest != [] {
      assert ([a + b] + rest)[1..] == rest && ([b] + rest)[1..] == rest;
    }
  }

  predicate ContainsParagraphBreak(p: string)
  {
    exists k :: 0 <= k < |p| - 1 && p[k] == '\n' && p[k + 1] == '\n'
  }

  /** Joining the pieces back with the separator gives the original text. */
  lemma {:induction false} SplitOnParagraphBreakJoin(s: string)
    ensures JoinWith(ParagraphBreak, SplitOnParagraphBreak(s)) == s
    decreases |s|
  {
    if |s| < 2 {
    } else if s[0] == '\n' && s[1] == '\n' {
      SplitOnParagraphBreakJoin(s[2..]);
      assert s == ParagraphBreak + s[2..];
    } else {
      var rest := SplitOnParagraphBreak(s[1..]);
      SplitOnParagraphBreakJoin(s[1..]);
      JoinWithFirst(ParagraphBreak, [s[0]], rest[0], rest[1..]);
      assert [rest[0]] + rest[1..] == rest;
      assert s == [s[0]] + s[1..];
    }
  }

  /** No piece contains the separator: every occurrence was split on. */
  lemma {:induction false} SplitOnParagraphBreakPieces(s: string)
    ensures forall p :: p in SplitOnParagraphBreak(s) ==> !ContainsParagraphBreak(p)
    decreases |s|
  {
    if |s| < 2 {
    } else if s[0] == '\n' && s[1] == '\n' {
      SplitOnParagraphBreakPieces(s[2..]);
      assert !ContainsParagraphBreak("");
    } else {
      var rest := SplitOnParagraphBreak(s[1..]);
      SplitOnParagraphBreakPieces(s[1..]);
      var first := [s[0]] + rest[0];
      forall k | 0 <= k < |first| - 1
        ensures !(first[k] == '\n' && first[k + 1] == '\n')
      {
        if k == 0 {
          assert first[1] == rest[0][0] == s[1];
        } else {
          assert first[k] == rest[0][k - 1] && first[k + 1] == rest[0][k];
          assert rest[0] in rest;
        }
      }
      forall p | p in rest[1..] ensures p in rest { }
    }
  }

  /** Non-empty text that neither starts nor ends with whitespace. */
  predicate Trimmed(s: string)
  {
    s != [] && !IsSpace(s[0]) && !IsSpace(s[|s| - 1])
  }

  /** A non-empty strip neither starts nor ends with whitespace. */
  lemma StripTrimmed(s: string)
    ensures Strip(s) != [] ==> Trimmed(Strip(s))
  {
    var t := TrimStart(s);
    var r := TrimEnd(t);
    if r != [] {
      assert r[0] == t[0];
    }
  }

  /** Trimmed text is its own strip. */
  lemma StripUnchanged(s: string)
    requires Trimmed(s)
    ensures Strip(s) == s
  {
    assert TrimStart(s) == s;
  }

  /**
   * `s.splitlines()`: the lines between line boundaries, without the
   * boundaries; a trailing boundary does not start a new, empty line.
   */
  function SplitLines(s: string): (lines: seq<string>)
    decreases |s|
  {
    if s == [] then []
    else if IsLineBreak(s[0]) then
      [""] + SplitLines(if s[0] == '\r' && |s| > 1 && s[1] == '\n' then s[2..] else s[1..])
    else
      var rest := SplitLines(s[1..]);
      if rest == [] then [[s[0]]] else [[s[0]] + rest[0]] + rest[1..]
  }

  /** The characters of `s` that are not line boundaries, in order. */
  function DropLineBreaks(s: string): (r: string)
  {
    if s == [] then []
    else (if IsLineBreak(s[0]) then [] else [s[0]]) + DropLineBreaks(s[1..])
  }

  /** Concatenating the lines gives the text with its line boundaries removed. */
  lemma {:induction false} SplitLinesConcat(s: string)
    ensures Concat(SplitLines(s)) == DropLineBreaks(s)
    decreases |s|
  {
    if s == [] {
    } else if IsLineBreak(s[0]) {
      if s[0] == '\r' && |s| > 1 && s[1] == '\n' {
        SplitLinesConcat(s[2..]);
        assert s[1..][1..] == s[2..];
        assert DropLineBreaks(s[1..]) == DropLineBreaks(s[2..]);
      } else {
        SplitLinesConcat(s[1..]);
      }
    } else {
      var rest := SplitLines(s[1..]);
      SplitLinesConcat(s[1..]);
      if rest != [] {
        var lines := [[s[0]] + rest[0]] + rest[1..];
        assert lines[1..] == rest[1..];
        assert Concat(lines) == [s[0]] + rest[0] + Concat(rest[1..]);
      }
    }
  }

  /** No line contains a line boundary. */
  lemma {:induction false} SplitLinesHaveNoBreaks(s: string)
    ensures forall l, k :: l in SplitLines(s) && 0 <= k < |l| ==> !IsLineBreak(l[k])
    decreases |s|
  {
    if s == [] {
    } else if IsLineBreak(s[0]) {
      SplitLinesHaveNoBreaks(if s[0] == '\r' && |s| > 1 && s[1] == '\n' then s[2..] else s[1..]);
    } else {
      var rest := SplitLines(s[1..]);
      SplitLinesHaveNoBreaks(s[1..]);
      if rest != [] {
        assert rest[0] in rest;
        forall p | p in rest[1..] ensures p in rest { }
      }
    }
  }

  /** Splitting whitespace-only text on "\n\n" gives whitespace-only pieces. */
  lemma {:induction false} SplitOnParagraphBreakBlank(s: string)
    requires AllSpace(s)
    ensures forall p :: p in SplitOnParagraphBreak(s) ==> AllSpace(p)
    decreases |s|
  {
    if |s| < 2 {
    } else if s[0] == '\n' && s[1] == '\n' {
      SplitOnParagraphBreakBlank(s[2..]);
    } else {
      var rest := SplitOnParagraphBreak(s[1..]);
      SplitOnParagraphBreakBlank(s[1..]);
      assert rest[0] in rest;
      forall p | p in rest[1..] ensures p in rest { }
    }
  }

  /** Splitting whitespace-only text into lines gives whitespace-only lines. */
  lemma {:induction false} SplitLinesBlank(s: string)
    requires AllSpace(s)
    ensures forall l :: l in SplitLines(s) ==> AllSpace(l)
    decreases |s|
  {
    if s == [] {
    } else if IsLineBreak(s[0]) {
      SplitLinesBlank(if s[0] == '\r' && |s| > 1 && s[1] == '\n' then s[2..] else s[1..]);
    } else {
      var rest := SplitLines(s[1..]);
      SplitLinesBlank(s[1..]);
      if rest != [] {
        assert rest[0] in rest;
        forall p | p in rest[1..] ensures p in rest { }
      }
    }
  }

  /** A join whose first part is non-empty starts with that part's first character. */
  lemma JoinWithNonEmpty(sep: string, parts: seq<string>)
    requires parts != [] && parts[0] != []
    ensures JoinWith(sep, parts) != [] && JoinWith(sep, parts)[0] == parts[0][0]
  {
  }

  /** Text without a line boundary. */
  predicate SingleLine(s: string)
  {
    forall k :: 0 <= k < |s| ==> !IsLineBreak(s[k])
  }

  /** Text without a "\n\n" is a single piece. */
  lemma {:induction false} SplitWithoutParagraphBreak(s: string)
    requires !ContainsParagraphBreak(s)
    ensures SplitOnParagraphBreak(s) == [s]
    decreases |s|
  {
    if |s| >= 2 {
      assert !(s[0] == '\n' && s[1] == '\n');
      assert !ContainsParagraphBreak(s[1..]) by {
        forall k | 0 <= k < |s| - 2 ensures !(s[1..][k] == '\n' && s[1..][k + 1] == '\n') {
          assert s[1..][k] == s[k + 1] && s[1..][k + 1] == s[k + 2];
        }
      }
      SplitWithoutParagraphBreak(s[1..]);
      assert [s[0]] + s[1..] == s;
    }
  }

  /**
   * A piece that `split("\n\n")` can return before the last one: it holds no
   * "\n\n" and does not end with "\n", since the leftmost cut would otherwise
   * have fallen one character earlier.
   */
  predicate InnerPiece(p: string)
  {
    !ContainsParagraphBreak(p) && (p == [] || p[|p| - 1] != '\n')
  }

  /** A single line is a possible inner piece. */
  lemma SingleLineInnerPiece(p: string)
    requires SingleLine(p)
    ensures InnerPiece(p)
  {
    if p != [] {
      assert !IsLineBreak(p[|p| - 1]);
    }
    forall k | 0 <= k < |p| - 1 ensures p[k] != '\n' {
      assert !IsLineBreak(p[k]);
    }
  }

  /** When there is more than one piece, the text goes on after the first piece with "\n\n". */
  lemma {:induction false} SplitOnParagraphBreakFirstCut(s: string)
    ensures var pieces := SplitOnParagraphBreak(s);
      |pieces| > 1 ==>
        |pieces[0]| + 2 <= |s| && s[|pieces[0]|] == '\n' && s[|pieces[0]| + 1] == '\n'
    decreases |s|
  {
    if |s| >= 2 && !(s[0] == '\n' && s[1] == '\n') {
      SplitOnParagraphBreakFirstCut(s[1..]);
    }
  }

  /**
   * Every piece but the last is an inner piece: it does not end with "\n", so
   * of the readings of "a\n\n\nb" as a join the split takes ["a", "\nb"].
   */
  lemma {:induction false} SplitOnParagraphBreakInner(s: string)
    ensures forall k :: 0 <= k < |SplitOnParagraphBreak(s)| - 1 ==> InnerPiece(SplitOnParagraphBreak(s)[k])
    decreases |s|
  {
    var pieces := SplitOnParagraphBreak(s);
    SplitOnParagraphBreakPieces(s);
    if |s| < 2 {
    } else if s[0] == '\n' && s[1] == '\n' {
      var rest := SplitOnParagraphBreak(s[2..]);
      SplitOnParagraphBreakInner(s[2..]);
      forall k | 0 <= k < |pieces| - 1 ensures InnerPiece(pieces[k]) {
        assert pieces[k] in pieces;
        if k > 0 {
          assert pieces[k] == rest[k - 1] && InnerPiece(rest[k - 1]);
        }
      }
    } else {
      var rest := SplitOnParagraphBreak(s[1..]);
      SplitOnParagraphBreakInner(s[1..]);
      forall k | 0 <= k < |pieces| - 1 ensures InnerPiece(pieces[k]) {
        assert pieces[k] in pieces;
        if k > 0 {
          assert pieces[k] == rest[k] && InnerPiece(rest[k]);
        } else if rest[0] == [] {
          SplitOnParagraphBreakFirstCut(s[1..]);
          assert s[1..][0] == s[1] == '\n';
          assert pieces[0] == [s[0]];
        } else {
          assert InnerPiece(rest[0]);
          assert pieces[0][|pieces[0]| - 1] == rest[0][|rest[0]| - 1];
        }
      }
    }
  }

  /** An inner piece is split off at the "\n\n" after it. */
  lemma {:induction false} SplitAfterParagraph(a: string, b: string)
    requires InnerPiece(a)
    ensures SplitOnParagraphBreak(a + ParagraphBreak + b) == [a] + SplitOnParagraphBreak(b)
    decreases |a|
  {
    var s := a + ParagraphBreak + b;
    if a == [] {
      assert s == ParagraphBreak + b && s[2..] == b;
    } else {
      assert s[0] == a[0] && s[1..] == a[1..] + ParagraphBreak + b;
      if |a| >= 2 {
        assert s[1] == a[1];
      }
      assert InnerPiece(a[1..]) by {
        forall k | 0 <= k < |a| - 2 ensures !(a[1..][k] == '\n' && a[1..][k + 1] == '\n') {
          assert a[1..][k] == a[k + 1] && a[1..][k + 1] == a[k + 2];
        }
      }
      SplitAfterParagraph(a[1..], b);
      assert [a[0]] + a[1..] == a;
    }
  }

  /**
   * Round trip: pieces joined with "\n\n" split back into the same pieces,
   * provided every piece but the last is an inner piece and the last holds no "\n\n".
   */
  lemma {:induction false} SplitOnParagraphBreakOfJoin(ps: seq<string>)
    requires ps != []
    requires forall k :: 0 <= k < |ps| - 1 ==> InnerPiece(ps[k])
    requires !ContainsParagraphBreak(ps[|ps| - 1])
    ensures SplitOnParagraphBreak(JoinWith(ParagraphBreak, ps)) == ps
    decreases |ps|
  {
    if |ps| == 1 {
      SplitWithoutParagraphBreak(ps[0]);
    } else {
      SplitAfterParagraph(ps[0], JoinWith(ParagraphBreak, ps[1..]));
      SplitOnParagraphBreakOfJoin(ps[1..]);
      HeadTail(ps);
    }
  }

  /** Non-empty text on a single line is one line. */
  lemma {:induction false} SplitLinesSingle(s: string)
    requires s != [] && SingleLine(s)
    ensures SplitLines(s) == [s]
    decreases |s|
  {
    assert !IsLineBreak(s[0]);
    if |s| == 1 {
      assert s[1..] == [] && [s[0]] == s;
    } else {
      assert SingleLine(s[1..]) by {
        forall k | 0 <= k < |s| - 1 ensures !IsLineBreak(s[1..][k]) {
          assert s[1..][k] == s[k + 1];
        }
      }
      SplitLinesSingle(s[1..]);
      assert [s[0]] + s[1..] == s;
    }
  }

  /** A single first line is split off at the "\n" after it. */
  lemma {:induction false} SplitLinesAfterLine(a: string, b: string)
    requires SingleLine(a)
    ensures SplitLines(a + "\n" + b) == [a] + SplitLines(b)
    decreases |a|
  {
    var s := a + "\n" + b;
    if a == [] {
      assert s == "\n" + b && s[1..] == b;
    } else {
      assert s[0] == a[0] && s[1..] == a[1..] + "\n" + b;
      SplitLinesAfterLine(a[1..], b);
      assert [a[0]] + a[1..] == a;
    }
  }

  /**
   * Round trip: lines without boundaries, joined with "\n", split back
   * into the same lines, provided the last one is not empty.
   */
  lemma {:induction false} SplitLinesOfJoin(ls: seq<string>)
    requires ls != [] && ls[|ls| - 1] != []
    requires forall k :: 0 <= k < |ls| ==> SingleLine(ls[k])
    ensures SplitLines(JoinWith("\n", ls)) == ls
    decreases |ls|
  {
    if |ls| == 1 {
      SplitLinesSingle(ls[0]);
    } else {
      SplitLinesAfterLine(ls[0], JoinWith("\n", ls[1..]));
      SplitLinesOfJoin(ls[1..]);
      HeadTail(ls);
    }
  }

  /**
   * Non-empty lines joined with single "\n"s hold no "\n\n": such a text
   * is one paragraph.
   */
  lemma {:induction false} JoinedLinesOneParagraph(ls: seq<string>)
    requires ls != []
    requires forall k :: 0 <= k < |ls| ==> ls[k] != [] && SingleLine(ls[k])
    ensures !ContainsParagraphBreak(JoinWith("\n", ls))
    decreases |ls|
  {
    var a := ls[0];
    if |ls| == 1 {
      forall k | 0 <= k < |a| - 1 ensures a[k] != '\n' {
        assert !IsLineBreak(a[k]);
      }
    } else {
      var r := JoinWith("\n", ls[1..]);
      JoinedLinesOneParagraph(ls[1..]);
      JoinWithNonEmpty("\n", ls[1..]);
      var s := a + "\n" + r;
      assert JoinWith("\n", ls) == s;
      forall k | 0 <= k < |s| - 1 ensures !(s[k] == '\n' && s[k + 1] == '\n') {
        if k < |a| {
          assert s[k] == a[k] && !IsLineBreak(a[k]);
        } else if k == |a| {
          assert s[k + 1] == r[0] == ls[1][0] && !IsLineBreak(ls[1][0]);
        } else {
          assert s[k] == r[k - |a| - 1] && s[k + 1] == r[k - |a|];
        }
      }
    }
  }
}
