/**
 What breaking promises of each line: it fits, it begins with a word, and words that fit stay whole.
 The width is taken to be monotone: more text is never narrower.
 */
module LineFit {
  import opened Wrappers
  import opened LineBreaking

  /** A word begins at `p`: white space before, none at it. */
  ghost predicate BeginsWord(f: Font, line: string, p: int) {
    0 < p < |line| && f.isSpace(line[p - 1]) && !f.isSpace(line[p])
  }

  /** One word, with the white space after it: it begins at the start of the line or as a word does, and no other begins inside. */
  ghost predicate OneWord(f: Font, line: string, ws: int, we: int) {
    && 0 <= ws < we <= |line|
    && (ws == 0 || BeginsWord(f, line, ws)) && (we == |line| || BeginsWord(f, line, we))
    && forall p | ws < p < we :: !BeginsWord(f, line, p)
  }

  lemma OneWordExactly(f: Font, line: string, ws: nat, we: nat)
    ensures OneWord(f, line, ws, we) <==> IsWord(f, line, ws, we)
    ensures forall p: nat :: BeginsWord(f, line, p) <==> IsWordStart(f, line, p)
  {
    forall p: nat ensures BeginsWord(f, line, p) <==> IsWordStart(f, line, p) {
    }
    assert IsWrapPoint(f, Word, line, we) <==> we == |line| || BeginsWord(f, line, we);
    hide BeginsWord, IsWordStart, IsWrapPoint;
    if IsWord(f, line, ws, we) {
      forall p | ws < p < we ensures !BeginsWord(f, line, p) {
        assert !IsWordStart(f, line, p as nat);
      }
    }
  }

  ghost predicate OnlySpace(f: Font, s: string) {
    forall c <- s :: f.isSpace(c)
  }

  /** `core` is the text without the white space at its end. */
  ghost predicate IsCore(f: Font, s: string, core: string) {
    core <= s && OnlySpace(f, s[|core|..]) && (core == "" || !f.isSpace(Last(core)))
  }

  lemma CoreExactly(f: Font, s: string, core: string)
    ensures IsCore(f, s, core) <==> core == TrimEnd(f, s)
  {
    TrimmedIsPrefix(f, s);
    var trimmed := TrimEnd(f, s);
    hide TrimEnd;
    assert IsCore(f, s, trimmed) by {
      forall c <- s[|trimmed|..] ensures f.isSpace(c) {
        var k: nat :| k < |s[|trimmed|..]| && s[|trimmed|..][k] == c;
        assert c == s[|trimmed| + k];
      }
    }
    if IsCore(f, s, core) && core != trimmed {
      ShorterCore(f, s, core, trimmed);
      ShorterCore(f, s, trimmed, core);
    }
  }

  lemma LastOfLonger(s: string, a: string, b: string)
    requires a <= s && b <= s && |a| < |b|
    ensures Last(b) in s[|a|..]
  {
    assert Last(b) == s[|b| - 1] == s[|a|..][|b| - 1 - |a|];
  }

  /** The shorter of two cores would leave out the last visible character of the longer. */
  lemma ShorterCore(f: Font, s: string, a: string, b: string)
    requires IsCore(f, s, a) && IsCore(f, s, b)
    ensures |a| >= |b|
  {
    if |a| < |b| {
      LastOfLonger(s, a, b);
    }
  }

  // ---------------------------------------------------------------- every line fits

  ghost predicate Fits(f: Font, limit: real, mode: WrapMode, text: string) {
    || |text| <= 1
    || (mode.Char? && f.width(text) <= limit)
    || (mode.Word? && exists core :: IsCore(f, text, core) && f.width(core) <= limit)
  }

  lemma TrimmedTwice(f: Font, s: string)
    ensures IsCore(f, s, TrimEnd(f, s)) && IsCore(f, TrimEnd(f, s), TrimEnd(f, s))
  {
    CoreExactly(f, s, TrimEnd(f, s));
    hide TrimEnd;
  }

  lemma PieceFits(f: Font, limit: real, mode: WrapMode, line: string, span: Span, text: string)
    requires Monotone(f) && span.0 <= span.1 <= |line| && WellPlaced(f, limit, mode, line, span, text)
    ensures Fits(f, limit, mode, text)
  {
    var slice := line[span.0..span.1];
    TrimmedTwice(f, slice);
    hide TrimEnd, IsCore;
    if mode.Word? && WellChosen(f, limit, mode, line, span.0, span.1) && text == PieceText(f, mode, line, span.0, span.1) {
      assert f.width(TrimEnd(f, slice)) <= limit;
      assert text == slice || text == TrimEnd(f, slice);
    } else if mode.Word? {
      assert BrokenPiece(f, limit, line, span.0, span.1) && text == slice;
      assert f.width(slice) <= limit || |slice| <= 1;
      TrimmedIsPrefix(f, slice);
      assert f.width(TrimEnd(f, slice)) <= f.width(slice);
    }
  }

  /** Every line fits, but for white space at its end when words are wrapped, or is one character. */
  lemma LinesFit(f: Font, limit: real, mode: WrapMode, line: string, lines: seq<Line>, i: nat)
    requires Monotone(f) && Broken(f, limit, mode, line, lines) && i < |lines|
    ensures Fits(f, limit, mode, lines[i].1) && lines[i].0 == f.width(lines[i].1)
  {
    var spans :| BrokenAt(f, limit, mode, line, lines, spans, |line|);
    PieceAt(f, limit, mode, line, lines, spans, |line|, i);
    PieceFits(f, limit, mode, line, spans[i], lines[i].1);
  }

  // ---------------------------------------------------------------- words

  /** A word that is too wide for a line of its own. */
  ghost predicate WideWord(f: Font, limit: real, line: string, ws: int, we: int) {
    OneWord(f, line, ws, we) && exists core :: IsCore(f, line[ws..we], core) && f.width(core) > limit
  }

  lemma WideWordExactly(f: Font, limit: real, line: string, ws: nat, we: nat)
    ensures WideWord(f, limit, line, ws, we) <==> TooWide(f, limit, line, ws, we)
  {
    OneWordExactly(f, line, ws, we);
    if OneWord(f, line, ws, we) {
      var slice := line[ws..we];
      forall core ensures IsCore(f, slice, core) <==> core == TrimEnd(f, slice) {
        CoreExactly(f, slice, core);
      }
    }
  }

  lemma ChosenBoundary(f: Font, limit: real, line: string, s: nat, e: nat)
    requires WordPiece(f, limit, line, s, e)
    ensures e == |line| || BeginsWord(f, line, e)
  {
    hide TrimEnd;
  }

  lemma BrokenBoundary(f: Font, limit: real, line: string, s: nat, e: nat)
    requires s <= e && BrokenPiece(f, limit, line, s, e)
    ensures e == 0 || e == |line| || BeginsWord(f, line, e) || exists ws, we :: ws < e < we && WideWord(f, limit, line, ws, we)
  {
    var ws: nat, we: nat :| ws <= s && e <= we && TooWide(f, limit, line, ws, we) && CharPiece(f, limit, line, we, s, e);
    WideWordExactly(f, limit, line, ws, we);
    OneWordExactly(f, line, ws, we);
    hide CharPiece, TooWide, TrimEnd, IsWord, IsCore;
  }

  /** A line ends where a word begins, or inside a word too wide for any line. */
  lemma BreaksBetweenWords(f: Font, limit: real, line: string, lines: seq<Line>, spans: seq<Span>, i: nat)
    requires Monotone(f) && BrokenAt(f, limit, Word, line, lines, spans, |line|) && i < |spans|
    ensures
      var p := spans[i].1;
      p == 0 || p == |line| || BeginsWord(f, line, p) || exists ws, we :: ws < p < we && WideWord(f, limit, line, ws, we)
  {
    PieceAt(f, limit, Word, line, lines, spans, |line|, i);
    hide BrokenAt, WordPiece, BrokenPiece, BeginsWord, WideWord, TrimEnd;
    var (s, e) := spans[i];
    if WellChosen(f, limit, Word, line, s, e) {
      ChosenBoundary(f, limit, line, s, e);
    } else {
      BrokenBoundary(f, limit, line, s, e);
    }
  }

  lemma SameWord(f: Font, line: string, ws: int, we: int, ws': int, we': int, p: int)
    requires OneWord(f, line, ws, we) && OneWord(f, line, ws', we') && ws < p < we && ws' < p < we'
    ensures ws == ws' && we == we'
  {
  }

  /** The span a place of the line is in. */
  lemma SpanAt(spans: seq<Span>, to: nat, p: nat) returns (i: nat)
    requires Tiles(spans, 0, to) && p < to
    ensures i < |spans| && spans[i].0 <= p < spans[i].1
  {
    i := 0;
    while spans[i].1 <= p
      invariant i < |spans| && spans[i].0 <= p
      decreases |spans| - i
    {
      assert i < |spans| - 1;
      i := i + 1;
    }
  }

  lemma InsideWord(f: Font, line: string, ws: int, we: int, p: int)
    requires OneWord(f, line, ws, we) && ws < p < we
    ensures 0 < p < |line| && !BeginsWord(f, line, p)
  {
    hide BeginsWord;
  }

  ghost predicate Covers(spans: seq<Span>, i: int, ws: nat, we: nat) {
    0 <= i < |spans| && spans[i].0 <= ws && we <= spans[i].1
  }

  /** A word that fits a line is never divided. */
  lemma WordsStayWhole(f: Font, limit: real, line: string, lines: seq<Line>, spans: seq<Span>, ws: nat, we: nat)
    requires Monotone(f) && BrokenAt(f, limit, Word, line, lines, spans, |line|)
    requires OneWord(f, line, ws, we) && !WideWord(f, limit, line, ws, we)
    ensures exists i :: Covers(spans, i, ws, we)
  {
    WordsAreTiled(f, limit, line, lines, spans);
    assert ws < |line|;
    var i := SpanAt(spans, |line|, ws);
    hide BrokenAt, WideWord, Tiles, BeginsWord, OneWord, Monotone;
    BreaksBetweenWords(f, limit, line, lines, spans, i);
    var e := spans[i].1;
    if e < we {
      InsideWord(f, line, ws, we, e);
      var ws', we' :| ws' < e < we' && WideWord(f, limit, line, ws', we');
      WideIsWord(f, limit, line, ws', we');
      SameWord(f, line, ws, we, ws', we', e);
    } else {
      assert Covers(spans, i, ws, we);
    }
  }

  lemma WordsAreTiled(f: Font, limit: real, line: string, lines: seq<Line>, spans: seq<Span>)
    requires BrokenAt(f, limit, Word, line, lines, spans, |line|)
    ensures Tiles(spans, 0, |line|)
  {
  }

  lemma WideIsWord(f: Font, limit: real, line: string, ws: int, we: int)
    requires WideWord(f, limit, line, ws, we)
    ensures OneWord(f, line, ws, we)
  {
  }

  // ---------------------------------------------------------------- nothing more fits

  /** The piece is a part of a word too wide for any line. */
  ghost predicate InWideWord(f: Font, limit: real, line: string, span: Span) {
    exists ws, we :: ws <= span.0 && span.1 <= we && WideWord(f, limit, line, ws, we)
  }

  /** By characters, a line with the next character would reach the limit. */
  lemma NoCharacterMore(f: Font, limit: real, line: string, lines: seq<Line>, spans: seq<Span>, i: nat)
    requires Monotone(f) && BrokenAt(f, limit, Char, line, lines, spans, |line|) && i < |spans| && spans[i].1 < |line|
    ensures spans[i].0 <= spans[i].1 && f.width(line[spans[i].0..spans[i].1 + 1]) >= limit
  {
    PieceAt(f, limit, Char, line, lines, spans, |line|, i);
    hide BrokenAt;
  }

  ghost predicate WordEndsAt(f: Font, line: string, we: int) {
    we == |line| || BeginsWord(f, line, we)
  }

  /** By words, a line with any further word would reach the limit, unless it is a part of a word too wide for any line. */
  lemma NoWordMore(f: Font, limit: real, line: string, lines: seq<Line>, spans: seq<Span>, i: nat, we: nat, core: string)
    requires Monotone(f) && BrokenAt(f, limit, Word, line, lines, spans, |line|) && i < |spans|
    requires spans[i].0 <= spans[i].1 < we <= |line| && WordEndsAt(f, line, we) && IsCore(f, line[spans[i].0..we], core)
    ensures f.width(core) >= limit || InWideWord(f, limit, line, spans[i])
  {
    PieceAt(f, limit, Word, line, lines, spans, |line|, i);
    CoreExactly(f, line[spans[i].0..we], core);
    hide BrokenAt, TrimEnd, IsCore;
    var (s, e) := spans[i];
    if WellChosen(f, limit, Word, line, s, e) {
      assert IsWrapPoint(f, Word, line, we);
    } else {
      var ws: nat, we': nat :| ws <= s && e <= we' && TooWide(f, limit, line, ws, we') && CharPiece(f, limit, line, we', s, e);
      WideWordExactly(f, limit, line, ws, we');
      hide TooWide, WideWord, CharPiece;
      assert ws <= spans[i].0 && spans[i].1 <= we';
    }
  }
}
