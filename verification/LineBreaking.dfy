/**
 Breaking text into lines that fit a width. A string is taken character by character; the width
 of a string and what counts as white space are given by the font.
 */
module LineBreaking {
  import opened Wrappers

  datatype WrapMode = Word | Char

  datatype Font = Font(width: string -> real, isSpace: char -> bool)

  type Line = (real, string)

  /** A longer line is never narrower. */
  ghost predicate Monotone(f: Font) {
    forall p, q | p <= q :: f.width(p) <= f.width(q)
  }

  function TrimEnd(f: Font, s: string): string {
    if s != "" && f.isSpace(Last(s)) then TrimEnd(f, s[..|s| - 1]) else s
  }

  function TrimWrapped(f: Font, mode: WrapMode, s: string): string {
    if mode.Word? then TrimEnd(f, s) else s
  }

  function StripReturn(s: string): string {
    if s != "" && Last(s) == '\r' then s[..|s| - 1] else s
  }

  /** `str::lines` */
  function Lines(text: string): seq<string> {
    LinesFrom(text, 0)
  }

  /** The lines of a text of which the first `i` characters are known not to break the line. */
  function LinesFrom(text: string, i: nat): seq<string>
    requires i <= |text|
    decreases |text|, |text| - i
  {
    if i == |text| then (if text == "" then [] else [text])
    else if text[i] == '\n' then [StripReturn(text[..i])] + LinesFrom(text[i + 1..], 0)
    else LinesFrom(text, i + 1)
  }

  // ---------------------------------------------------------------- wrap points

  predicate IsWordStart(f: Font, line: string, p: nat) {
    0 < p < |line| && !f.isSpace(line[p]) && f.isSpace(line[p - 1])
  }

  /** A place where a line may end. */
  predicate IsWrapPoint(f: Font, mode: WrapMode, line: string, p: nat) {
    p == |line| || (if mode.Word? then IsWordStart(f, line, p) else 0 < p < |line|)
  }

  ghost predicate Increasing(s: seq<nat>) {
    forall i, j | 0 <= i < j < |s| :: s[i] < s[j]
  }

  ghost predicate ArePoints(f: Font, mode: WrapMode, line: string, points: seq<nat>) {
    Increasing(points) && forall p: nat :: p in points <==> IsWrapPoint(f, mode, line, p)
  }

  /** The first character from `start` on that is white space, or is not. */
  method Find(f: Font, line: string, start: nat, space: bool) returns (found: Option<nat>)
    requires start <= |line|
    ensures found.Some? ==> start <= found.value < |line| && f.isSpace(line[found.value]) == space
    ensures forall k | start <= k < (if found.Some? then found.value else |line|) :: f.isSpace(line[k]) != space
  {
    var k := start;
    while k < |line|
      invariant start <= k <= |line| && forall j | start <= j < k :: f.isSpace(line[j]) != space
    {
      if f.isSpace(line[k]) == space {
        return Some(k);
      }
      k := k + 1;
    }
    return None;
  }

  lemma IncreasingAppend(s: seq<nat>, x: nat)
    requires Increasing(s) && forall p <- s :: p < x
    ensures Increasing(s + [x])
  {
    assert forall i | 0 <= i < |s| :: s[i] in s;
  }

  method FindWrapPoints(f: Font, mode: WrapMode, line: string) returns (points: seq<nat>)
    ensures |points| >= 1 && Last(points) == |line| && ArePoints(f, mode, line, points)
  {
    points := [];
    if mode.Word? {
      var wordStart := 0;
      var more := true;
      while more
        invariant wordStart <= |line| && (line != "" ==> wordStart < |line|)
        invariant Increasing(points) && (points != [] ==> Last(points) == wordStart)
        invariant forall p: nat :: p in points <==> IsWordStart(f, line, p) && p <= wordStart
        invariant !more ==> forall p: nat :: IsWordStart(f, line, p) ==> p <= wordStart
        decreases more, |line| - wordStart
      {
        var space := Find(f, line, wordStart, true);
        if space.None? {
          more := false;
        } else {
          var wordEnd := space.value;
          var next := Find(f, line, wordEnd, false);
          if next.None? {
            more := false;
          } else {
            assert next.value > wordEnd;
            IncreasingAppend(points, next.value);
            wordStart := next.value;
            points := points + [wordStart];
          }
        }
      }
      assert forall p: nat :: p in points <==> IsWordStart(f, line, p);
    } else {
      var charEnd := 1;
      while charEnd < |line|
        invariant charEnd >= 1 && (charEnd <= |line| || charEnd == 1)
        invariant Increasing(points) && forall p: nat :: p in points <==> 0 < p < charEnd
      {
        IncreasingAppend(points, charEnd);
        points := points + [charEnd];
        charEnd := charEnd + 1;
      }
      assert forall p: nat :: p in points <==> 0 < p < |line|;
    }
    assert forall p: nat :: p in points <==> IsWrapPoint(f, mode, line, p) && p != |line|;
    IncreasingAppend(points, |line|);
    points := points + [|line|];
  }

  // ---------------------------------------------------------------- searching

  datatype Search = Found(index: nat) | Insert(index: nat)

  ghost predicate Sorted(s: seq<real>) {
    forall i, j | 0 <= i <= j < |s| :: s[i] <= s[j]
  }

  /** The contract of the standard library's binary search; any match may be returned. */
  method BinarySearch(s: seq<real>, target: real) returns (r: Search)
    ensures r.Found? ==> r.index < |s| && s[r.index] == target
    ensures r.Insert? ==> r.index <= |s|
    ensures r.Insert? && Sorted(s) ==>
      (forall j | 0 <= j < r.index :: s[j] < target) && (forall j | r.index <= j < |s| :: s[j] > target)
  {
    var lo, hi := 0, |s|;
    while lo < hi
      invariant 0 <= lo <= hi <= |s|
      invariant Sorted(s) ==> forall j | 0 <= j < lo :: s[j] < target
      invariant Sorted(s) ==> forall j | hi <= j < |s| :: s[j] > target
    {
      var mid := (lo + hi) / 2;
      if s[mid] == target {
        return Found(mid);
      } else if s[mid] < target {
        lo := mid + 1;
      } else {
        hi := mid;
      }
    }
    return Insert(lo);
  }

  // ---------------------------------------------------------------- what a broken line is

  type Span = (nat, nat)

  /** The spans follow one another from `from` to `to`. */
  ghost predicate Tiles(spans: seq<Span>, from: nat, to: nat) {
    && from <= to
    && (if spans == [] then from == to else spans[0].0 == from && Last(spans).1 == to)
    && (forall i | 0 <= i < |spans| :: from <= spans[i].0 <= spans[i].1 <= to)
    && (forall i, j | 0 <= i < |spans| && 0 <= j < |spans| && j == i + 1 :: spans[i].1 == spans[j].0)
  }

  /** A span of `line[..hi]` that fits or is one character, and to which no more could be added. */
  ghost predicate CharPiece(f: Font, limit: real, line: string, hi: nat, s: nat, e: nat) {
    && s <= e <= hi <= |line|
    && (f.width(line[s..e]) <= limit || e - s <= 1)
    && (e < hi ==> f.width(line[s..e + 1]) >= limit)
  }

  /** A span of whole words that fits, and to which no further word could be added. */
  ghost predicate WordPiece(f: Font, limit: real, line: string, s: nat, e: nat) {
    && s <= e <= |line|
    && (s == 0 || IsWordStart(f, line, s)) && IsWrapPoint(f, Word, line, e)
    && f.width(TrimEnd(f, line[s..e])) <= limit
    && forall n: nat | e < n && IsWrapPoint(f, Word, line, n) :: f.width(TrimEnd(f, line[s..n])) >= limit
  }

  /** A single word, with the white space after it. */
  ghost predicate IsWord(f: Font, line: string, s: nat, e: nat) {
    && s < e && IsWrapPoint(f, Word, line, e) && (s == 0 || IsWordStart(f, line, s))
    && forall p: nat | s < p < e :: !IsWordStart(f, line, p)
  }

  /** A part of a word that is too wide by itself. */
  ghost predicate BrokenPiece(f: Font, limit: real, line: string, s: nat, e: nat) {
    exists ws: nat, we: nat :: ws <= s && e <= we && TooWide(f, limit, line, ws, we) && CharPiece(f, limit, line, we, s, e)
  }

  ghost predicate TooWide(f: Font, limit: real, line: string, ws: nat, we: nat) {
    IsWord(f, line, ws, we) && f.width(TrimEnd(f, line[ws..we])) > limit
  }

  /** The text of a piece that ends at `e`: white space before a word that starts the next one is dropped. */
  function PieceText(f: Font, mode: WrapMode, line: string, s: nat, e: nat): string
    requires s <= e <= |line|
  {
    if e != |line| then TrimWrapped(f, mode, line[s..e]) else line[s..e]
  }

  /** A piece chosen among the wrap points. */
  ghost predicate WellChosen(f: Font, limit: real, mode: WrapMode, line: string, s: nat, e: nat) {
    if mode.Char? then CharPiece(f, limit, line, |line|, s, e) else WordPiece(f, limit, line, s, e)
  }

  ghost predicate WellPlaced(f: Font, limit: real, mode: WrapMode, line: string, span: Span, text: string)
    requires span.0 <= span.1 <= |line|
  {
    || (WellChosen(f, limit, mode, line, span.0, span.1) && text == PieceText(f, mode, line, span.0, span.1))
    || (mode.Word? && BrokenPiece(f, limit, line, span.0, span.1) && text == line[span.0..span.1])
  }

  /** The slice, without the white space before a word that starts the next piece. */
  ghost predicate IsText(f: Font, mode: WrapMode, line: string, span: Span, text: string)
    requires span.0 <= span.1 <= |line|
  {
    || text == line[span.0..span.1]
    || (mode.Word? && IsWordStart(f, line, span.1) && text == TrimEnd(f, line[span.0..span.1]))
  }

  ghost predicate BrokenAt(f: Font, limit: real, mode: WrapMode, line: string, lines: seq<Line>, spans: seq<Span>, to: nat) {
    && |spans| == |lines| && to <= |line|
    && Tiles(spans, 0, to)
    && (forall i | 0 <= i < |lines| :: IsText(f, mode, line, spans[i], lines[i].1) && lines[i].0 == f.width(lines[i].1))
    && (Monotone(f) ==> forall i | 0 <= i < |spans| :: WellPlaced(f, limit, mode, line, spans[i], lines[i].1))
  }

  /**
   Pieces that cover the line, each placed as well as the width allows. An empty line disappears
   exactly when words are wrapped and not even the empty string fits.
   */
  ghost predicate Broken(f: Font, limit: real, mode: WrapMode, line: string, lines: seq<Line>) {
    && (exists spans :: BrokenAt(f, limit, mode, line, lines, spans, |line|))
    && (lines == [] <==> line == "" && mode.Word? && f.width("") > limit)
  }

  // ---------------------------------------------------------------- trimming

  lemma {:induction false} TrimmedIsPrefix(f: Font, s: string)
    ensures TrimEnd(f, s) <= s
    ensures forall k | |TrimEnd(f, s)| <= k < |s| :: f.isSpace(s[k])
    ensures TrimEnd(f, s) != "" ==> !f.isSpace(Last(TrimEnd(f, s)))
  {
    if s != "" && f.isSpace(Last(s)) {
      TrimmedIsPrefix(f, s[..|s| - 1]);
    }
  }

  /** Trimming keeps the order of prefixes. */
  lemma TrimmedInOrder(f: Font, s: string, a: nat, b: nat)
    requires a <= b <= |s|
    ensures TrimEnd(f, s[..a]) <= TrimEnd(f, s[..b])
  {
    TrimmedIsPrefix(f, s[..a]);
    TrimmedIsPrefix(f, s[..b]);
    var t, u := TrimEnd(f, s[..a]), TrimEnd(f, s[..b]);
    assert t == s[..|t|] && u == s[..|u|];
  }

  /** The widths of the candidates from `next` on, for a piece that starts at `start`. */
  ghost predicate AreWidths(f: Font, mode: WrapMode, line: string, start: nat, points: seq<nat>, next: nat, widths: seq<real>) {
    && next + |widths| == |points|
    && forall k | next <= k < |points| ::
         start <= points[k] <= |line| && widths[k - next] == f.width(TrimWrapped(f, mode, line[start..points[k]]))
  }

  /** What the search compares with the limit. */
  function CandidateWidths(f: Font, mode: WrapMode, line: string, start: nat, points: seq<nat>, next: nat): (widths: seq<real>)
    requires next <= |points| && forall k | next <= k < |points| :: start <= points[k] <= |line|
    ensures AreWidths(f, mode, line, start, points, next, widths) && |widths| == |points| - next
    decreases |points| - next
  {
    if next == |points| then []
    else
      var end := points[next];
      [f.width(TrimWrapped(f, mode, line[start..end]))] + CandidateWidths(f, mode, line, start, points, next + 1)
  }

  lemma CandidatesSorted(f: Font, mode: WrapMode, line: string, start: nat, points: seq<nat>, next: nat, widths: seq<real>)
    requires ArePoints(f, mode, line, points) && AreWidths(f, mode, line, start, points, next, widths)
    ensures Monotone(f) || |widths| == 1 ==> Sorted(widths)
  {
    if Monotone(f) {
      forall i, j | 0 <= i <= j < |widths| ensures widths[i] <= widths[j] {
        var p, q := points[next + i], points[next + j];
        assert widths[i] == f.width(TrimWrapped(f, mode, line[start..p])) && widths[j] == f.width(TrimWrapped(f, mode, line[start..q])) by {
          assert widths[(next + i) - next] == widths[i] && widths[(next + j) - next] == widths[j];
        }
        assert i < j ==> p < q;
        var rest := line[start..];
        assert line[start..p] == rest[..p - start] && line[start..q] == rest[..q - start];
        TrimmedInOrder(f, rest, p - start, q - start);
        assert rest[..p - start] <= rest[..q - start];
        assert TrimWrapped(f, mode, line[start..p]) <= TrimWrapped(f, mode, line[start..q]);
      }
    }
  }

  // ---------------------------------------------------------------- putting pieces together

  lemma TilesJoin(a: seq<Span>, b: seq<Span>, from: nat, mid: nat, to: nat)
    requires Tiles(a, from, mid) && Tiles(b, mid, to)
    ensures Tiles(a + b, from, to)
  {
    var all := a + b;
    assert forall i | 0 <= i < |a| :: all[i] == a[i];
    assert forall i | 0 <= i < |b| :: all[|a| + i] == b[i];
    forall i | 0 <= i < |all| ensures from <= all[i].0 <= all[i].1 <= to {
      if i >= |a| { assert all[i] == b[i - |a|]; }
    }
    forall i, j | 0 <= i < |all| && 0 <= j < |all| && j == i + 1 ensures all[i].1 == all[j].0 {
      if j == |a| {
        assert all[i] == Last(a) && all[j] == b[0];
      } else if j > |a| {
        assert all[i] == b[i - |a|] && all[j] == b[j - |a|];
      }
    }
  }

  lemma PieceAdded(
    f: Font, limit: real, mode: WrapMode, line: string, lines: seq<Line>, spans: seq<Span>, to: nat, next: nat, text: string)
    requires BrokenAt(f, limit, mode, line, lines, spans, to) && to <= next <= |line|
    requires IsText(f, mode, line, (to, next), text) && (Monotone(f) ==> WellPlaced(f, limit, mode, line, (to, next), text))
    ensures BrokenAt(f, limit, mode, line, lines + [(f.width(text), text)], spans + [(to, next)], next)
  {
    hide WellPlaced, Monotone, IsText;
    TilesJoin(spans, [(to, next)], 0, to, next);
  }

  function Shifted(spans: seq<Span>, offset: nat): (shifted: seq<Span>)
    ensures |shifted| == |spans|
  {
    seq(|spans|, i requires 0 <= i < |spans| => (spans[i].0 + offset, spans[i].1 + offset))
  }

  /** The pieces of a word are pieces of the line it is in. */
  lemma WordAdded(
    f: Font, limit: real, line: string, lines: seq<Line>, spans: seq<Span>, ws: nat, we: nat, more: seq<Line>, inner: seq<Span>)
    requires BrokenAt(f, limit, Word, line, lines, spans, ws) && ws <= we <= |line|
    requires Monotone(f) && more != [] ==> TooWide(f, limit, line, ws, we)
    requires BrokenAt(f, limit, Char, line[ws..we], more, inner, we - ws)
    ensures BrokenAt(f, limit, Word, line, lines + more, spans + Shifted(inner, ws), we)
  {
    hide BrokenAt, Shifted, Tiles, TooWide, Monotone, WellPlaced, IsText;
    BrokenIsTiled(f, limit, line[ws..we], more, inner);
    ShiftedTiles(inner, ws, we);
    PiecesShifted(f, limit, line, ws, we, more, inner);
    BrokenJoins(f, limit, line, lines, spans, ws, we, more, Shifted(inner, ws));
  }

  lemma BrokenIsTiled(f: Font, limit: real, line: string, lines: seq<Line>, spans: seq<Span>)
    requires BrokenAt(f, limit, Char, line, lines, spans, |line|)
    ensures Tiles(spans, 0, |line|) && |lines| == |spans|
  {
  }

  /** What is known of one piece. */
  lemma PieceAt(
    f: Font, limit: real, mode: WrapMode, line: string, lines: seq<Line>, spans: seq<Span>, to: nat, i: nat)
    requires BrokenAt(f, limit, mode, line, lines, spans, to) && i < |spans|
    ensures |lines| == |spans| && spans[i].0 <= spans[i].1 <= to <= |line|
    ensures spans[i].0 == if i == 0 then 0 else spans[i - 1].1
    ensures IsText(f, mode, line, spans[i], lines[i].1) && lines[i].0 == f.width(lines[i].1)
    ensures Monotone(f) ==> WellPlaced(f, limit, mode, line, spans[i], lines[i].1)
  {
    hide IsText, WellPlaced, Monotone;
  }

  lemma ShiftedAt(spans: seq<Span>, offset: nat, i: nat)
    requires i < |spans|
    ensures Shifted(spans, offset)[i] == (spans[i].0 + offset, spans[i].1 + offset)
  {
  }

  lemma PieceShifted(f: Font, limit: real, line: string, ws: nat, we: nat, more: seq<Line>, inner: seq<Span>, i: nat)
    requires ws <= we <= |line| && BrokenAt(f, limit, Char, line[ws..we], more, inner, we - ws) && i < |inner|
    ensures Shifted(inner, ws)[i].0 <= Shifted(inner, ws)[i].1 <= |line|
    ensures IsText(f, Word, line, Shifted(inner, ws)[i], more[i].1) && more[i].0 == f.width(more[i].1)
    ensures Monotone(f) && TooWide(f, limit, line, ws, we) ==> WellPlaced(f, limit, Word, line, Shifted(inner, ws)[i], more[i].1)
  {
    hide *;
    PieceAt(f, limit, Char, line[ws..we], more, inner, we - ws, i);
    ShiftedAt(inner, ws, i);
    WordPieceShifted(f, limit, line, ws, we, inner[i], more[i].1);
  }

  lemma PiecesShifted(f: Font, limit: real, line: string, ws: nat, we: nat, more: seq<Line>, inner: seq<Span>)
    requires ws <= we <= |line| && BrokenAt(f, limit, Char, line[ws..we], more, inner, we - ws)
    ensures forall i | 0 <= i < |inner| ::
      && IsText(f, Word, line, Shifted(inner, ws)[i], more[i].1) && more[i].0 == f.width(more[i].1)
      && (Monotone(f) && TooWide(f, limit, line, ws, we) ==> WellPlaced(f, limit, Word, line, Shifted(inner, ws)[i], more[i].1))
  {
    assert |more| == |inner|;
    hide *;
    forall i | 0 <= i < |inner|
      ensures Shifted(inner, ws)[i].0 <= Shifted(inner, ws)[i].1 <= |line|
      ensures IsText(f, Word, line, Shifted(inner, ws)[i], more[i].1) && more[i].0 == f.width(more[i].1)
      ensures Monotone(f) && TooWide(f, limit, line, ws, we) ==> WellPlaced(f, limit, Word, line, Shifted(inner, ws)[i], more[i].1)
    {
      PieceShifted(f, limit, line, ws, we, more, inner, i);
    }
  }

  lemma ShiftedTiles(spans: seq<Span>, ws: nat, we: nat)
    requires ws <= we && Tiles(spans, 0, we - ws)
    ensures Tiles(Shifted(spans, ws), ws, we)
  {
    var outer := Shifted(spans, ws);
  }

  lemma BrokenJoins(
    f: Font, limit: real, line: string, lines: seq<Line>, spans: seq<Span>, ws: nat, we: nat, more: seq<Line>, outer: seq<Span>)
    requires BrokenAt(f, limit, Word, line, lines, spans, ws) && |outer| == |more| && we <= |line|
    requires Tiles(outer, ws, we) && ws <= we
    requires forall i | 0 <= i < |outer| :: IsText(f, Word, line, outer[i], more[i].1) && more[i].0 == f.width(more[i].1)
    requires Monotone(f) ==> forall i | 0 <= i < |outer| :: WellPlaced(f, limit, Word, line, outer[i], more[i].1)
    ensures BrokenAt(f, limit, Word, line, lines + more, spans + outer, we)
  {
    hide IsText, WellPlaced, Monotone;
    TilesJoin(spans, outer, 0, ws, we);
    hide Tiles;
  }

  lemma SliceOfSlice(s: string, a: nat, b: nat, c: nat, d: nat)
    requires a <= b <= |s| && c <= d <= b - a
    ensures s[a..b][c..d] == s[a + c..a + d]
  {
    var t := s[a..b][c..d];
    assert forall i | 0 <= i < |t| :: t[i] == s[a..b][c + i] == s[a + c..a + d][i];
  }

  lemma WordPieceShifted(f: Font, limit: real, line: string, ws: nat, we: nat, span: Span, text: string)
    requires ws <= we <= |line| && span.0 <= span.1 <= we - ws
    requires IsText(f, Char, line[ws..we], span, text)
    ensures IsText(f, Word, line, (span.0 + ws, span.1 + ws), text)
    ensures TooWide(f, limit, line, ws, we) && WellPlaced(f, limit, Char, line[ws..we], span, text) ==>
      WellPlaced(f, limit, Word, line, (span.0 + ws, span.1 + ws), text)
  {
    hide TooWide;
    var word := line[ws..we];
    var (s, e) := (span.0 + ws, span.1 + ws);
    SliceOfSlice(line, ws, we, span.0, span.1);
    if e < we {
      SliceOfSlice(line, ws, we, span.0, span.1 + 1);
    }
    assert CharPiece(f, limit, word, |word|, span.0, span.1) ==> CharPiece(f, limit, line, we, s, e);
  }

  // ---------------------------------------------------------------- the algorithm

  /** The wrap point chosen is the best one: what is searched is sorted. */
  lemma ChosenPoint(
    f: Font, limit: real, mode: WrapMode, line: string, start: nat, points: seq<nat>, next: nat, widths: seq<real>, k: nat)
    requires ArePoints(f, mode, line, points)
    requires AreWidths(f, mode, line, start, points, next, widths) && next <= k < |points| && Sorted(widths)
    requires widths[k - next] <= limit || (mode.Char? && k == next && points[next] - start <= 1)
    requires k + 1 < |points| ==> widths[k + 1 - next] >= limit
    requires mode.Word? && start != 0 ==> IsWordStart(f, line, start)
    ensures WellChosen(f, limit, mode, line, start, points[k])
  {
    hide TrimEnd;
    var e := points[k];
    assert e in points;
    if mode.Char? {
      if e < |line| {
        assert IsWrapPoint(f, mode, line, e + 1) && e + 1 in points;
        var j :| 0 <= j < |points| && points[j] == e + 1;
        FollowingPoint(points, k, j);
        assert widths[k + 1 - next] <= widths[j - next];
      }
    } else {
      forall n: nat | e < n && IsWrapPoint(f, Word, line, n) ensures f.width(TrimEnd(f, line[start..n])) >= limit {
        assert n in points;
        var j :| 0 <= j < |points| && points[j] == n;
        FollowingPoint(points, k, j);
        assert widths[k + 1 - next] <= widths[j - next];
      }
    }
  }

  lemma FollowingPoint(points: seq<nat>, k: nat, j: nat)
    requires Increasing(points) && k < |points| && j < |points| && points[k] < points[j]
    ensures k < j
  {
  }

  lemma {:induction false} AtLeastIndex(points: seq<nat>, i: nat)
    requires Increasing(points) && i < |points|
    ensures points[i] >= i
  {
    if i > 0 {
      AtLeastIndex(points, i - 1);
    }
  }

  /** The points up to the start have been used; the others come after it. */
  ghost predicate Progress(points: seq<nat>, next: nat, start: nat) {
    next <= |points| && start == if next == 0 then 0 else points[next - 1]
  }

  lemma PointsAhead(f: Font, mode: WrapMode, line: string, points: seq<nat>, next: nat, start: nat)
    requires ArePoints(f, mode, line, points)
    requires Progress(points, next, start) && next < |points|
    ensures forall i | next <= i < |points| :: start <= points[i] <= |line|
    ensures start <= |line|
    ensures line != "" ==> start < points[next]
    ensures mode.Char? ==> points[next] - start <= 1
    ensures mode.Word? && line != "" ==> IsWord(f, line, start, points[next])
  {
    forall i | next <= i < |points| ensures start <= points[i] <= |line| && (next > 0 ==> start < points[i]) {
      assert points[i] in points;
      assert next > 0 ==> points[next - 1] < points[i];
    }
    assert points[next] in points;
    assert next > 0 ==> points[next - 1] in points;
    forall p: nat | start < p < points[next] 
      ensures !IsWrapPoint(f, mode, line, p) && (mode.Word? ==> !IsWordStart(f, line, p))
    {
      forall j | 0 <= j < |points| ensures points[j] != p {
        if j < next {
          assert points[j] <= points[next - 1];
        } else {
          assert points[next] <= points[j];
        }
      }
      assert p !in points;
    }
    assert mode.Char? && start < |line| ==> IsWrapPoint(f, mode, line, start + 1);
  }

  lemma PieceChosen(
    f: Font, limit: real, mode: WrapMode, line: string, points: seq<nat>, next: nat, start: nat, widths: seq<real>, found: Search, k: nat)
    requires ArePoints(f, mode, line, points)
    requires Progress(points, next, start) && AreWidths(f, mode, line, start, points, next, widths) && next < |points|
    requires found.Found? ==> found.index < |widths| && widths[found.index] == limit
    requires found.Insert? ==> found.index <= |widths|
    requires found.Insert? && Sorted(widths) ==>
      (forall j | 0 <= j < found.index :: widths[j] < limit) && (forall j | found.index <= j < |widths| :: widths[j] > limit)
    requires !(found.Insert? && found.index == 0 && mode.Word?)
    requires k == if found.Found? then next + found.index else if found.index > 0 then next + found.index - 1 else next
    ensures start <= points[k] <= |line| && points[k] in points
    ensures Sorted(widths) ==> WellChosen(f, limit, mode, line, start, points[k])
  {
    if Sorted(widths) {
      PointsAhead(f, mode, line, points, next, start);
      hide WellChosen;
      ChosenPoint(f, limit, mode, line, start, points, next, widths, k);
    }
  }

  /** Wraps one line; a word that is too wide by itself is broken by characters. */
  method BreakLine(f: Font, limit: real, mode: WrapMode, line: string) returns (lines: seq<Line>)
    requires '\n' !in line
    ensures Broken(f, limit, mode, line, lines)
    decreases if mode.Word? then 1 else 0, 0
  {
    hide WellPlaced, WellChosen, TooWide, Monotone, IsWrapPoint, ArePoints, BrokenAt, AreWidths, Sorted, TrimEnd, TrimWrapped, IsText, IsWord, TextBroken;
    var points := FindWrapPoints(f, mode, line);
    lines := [];
    ghost var spans: seq<Span> := [];
    var next, start := 0, 0;
    NothingBroken(f, limit, mode, line);
    while next < |points|
      invariant Progress(points, next, start)
      invariant BrokenAt(f, limit, mode, line, lines, spans, start)
      invariant line != "" ==> (lines == [] <==> next == 0)
      invariant line == "" && next > 0 ==> (lines == [] <==> mode.Word? && f.width("") > limit)
      invariant line == "" && next == 0 ==> lines == []
    {
      PointsAhead(f, mode, line, points, next, start);
      var widths := CandidateWidths(f, mode, line, start, points, next);
      var found := BinarySearch(widths, limit);
      EmptyLine(f, mode, line, points, next, start, widths);
      CandidatesSorted(f, mode, line, start, points, next, widths);
      assert line == "" ==> widths[0] == f.width("");
      if found.Insert? && found.index == 0 && mode.Word? {
        var wordEnd := points[next];
        var word := line[start..wordEnd];
        assert '\n' !in word;
        var more := BreakLines(f, Some((limit, Char)), word);
        ghost var perLine :| TextBroken(f, Some((limit, Char)), word, more, perLine);
        WordStep(f, limit, line, points, next, start, widths, lines, spans, more, perLine);
        lines := lines + more;
        spans :| BrokenAt(f, limit, mode, line, lines, spans, wordEnd);
        next := next + 1;
        start := wordEnd;
      } else {
        var k := if found.Found? then next + found.index else if found.index > 0 then next + found.index - 1 else next;
        var end := points[k];
        var piece := line[start..end];
        var trimmed := if end != |line| then TrimWrapped(f, mode, piece) else piece;
        PieceChosen(f, limit, mode, line, points, next, start, widths, found, k);
        TextOfPiece(f, limit, mode, line, points, k, start);
        assert trimmed == PieceText(f, mode, line, start, end);
        PieceAdded(f, limit, mode, line, lines, spans, start, end, trimmed);
        lines := lines + [(f.width(trimmed), trimmed)];
        spans := spans + [(start, end)];
        next := k + 1;
        start := end;
      }
    }
  }

  method BreakLines(f: Font, wrap: Option<(real, WrapMode)>, text: string) returns (lines: seq<Line>)
    ensures exists perLine :: TextBroken(f, wrap, text, lines, perLine)
    decreases if wrap.Some? && wrap.value.1.Word? then 1 else 0, 1
  {
    hide Broken;
    lines := [];
    ghost var perLine: seq<seq<Line>> := [];
    var all := Lines(text);
    for i := 0 to |all|
      invariant |perLine| == i && lines == Flatten(perLine)
      invariant forall j | 0 <= j < i :: LineBroken(f, wrap, all[j], perLine[j])
    {
      var line := all[i];
      var more: seq<Line>;
      if wrap.None? {
        more := [(f.width(line), line)];
      } else {
        LinesHaveNoBreaks(text, 0);
        more := BreakLine(f, wrap.value.0, wrap.value.1, line);
      }
      assert (perLine + [more])[..i] == perLine;
      lines, perLine := lines + more, perLine + [more];
    }
    assert TextBroken(f, wrap, text, lines, perLine);
  }

  function Flatten<T>(parts: seq<seq<T>>): seq<T> {
    if parts == [] then [] else Flatten(parts[..|parts| - 1]) + Last(parts)
  }

  ghost predicate LineBroken(f: Font, wrap: Option<(real, WrapMode)>, line: string, lines: seq<Line>) {
    match wrap
    case None => lines == [(f.width(line), line)]
    case Some((limit, mode)) => Broken(f, limit, mode, line, lines)
  }

  /** Every line of the text broken, one after the other. */
  ghost predicate TextBroken(
    f: Font, wrap: Option<(real, WrapMode)>, text: string, lines: seq<Line>, perLine: seq<seq<Line>>) {
    && |perLine| == |Lines(text)|
    && lines == Flatten(perLine)
    && forall i | 0 <= i < |perLine| :: LineBroken(f, wrap, Lines(text)[i], perLine[i])
  }

  // ---------------------------------------------------------------- helpers of the loop

  lemma EmptyLine(f: Font, mode: WrapMode, line: string, points: seq<nat>, next: nat, start: nat, widths: seq<real>)
    requires ArePoints(f, mode, line, points) && |points| > 0 && Last(points) == |line|
    requires Progress(points, next, start) && AreWidths(f, mode, line, start, points, next, widths) && next < |points|
    ensures line == "" ==> next == 0 && |points| == 1 && widths == [f.width("")]
  {
    if line == "" {
      AtLeastIndex(points, |points| - 1);
      assert TrimWrapped(f, mode, line[start..points[0]]) == "";
    }
  }

  /** A word that is too wide has been broken. */
  lemma WordStep(
    f: Font, limit: real, line: string, points: seq<nat>, next: nat, start: nat, widths: seq<real>, lines: seq<Line>,
    spans: seq<Span>, more: seq<Line>, perLine: seq<seq<Line>>)
    requires ArePoints(f, Word, line, points) && Progress(points, next, start) && next < |points|
    requires AreWidths(f, Word, line, start, points, next, widths) && '\n' !in line
    requires Sorted(widths) ==> forall j | 0 <= j < |widths| :: widths[j] > limit
    requires BrokenAt(f, limit, Word, line, lines, spans, start) && start <= points[next] <= |line|
    requires TextBroken(f, Some((limit, Char)), line[start..points[next]], more, perLine)
    ensures exists spans' :: BrokenAt(f, limit, Word, line, lines + more, spans', points[next])
    ensures more == [] <==> line == ""
  {
    hide BrokenAt, TextBroken, Monotone, IsWord, TrimEnd;
    PointsAhead(f, Word, line, points, next, start);
    var wordEnd := points[next];
    var word := line[start..wordEnd];
    CandidatesSorted(f, Word, line, start, points, next, widths);
    WordIsOneLine(f, limit, word, more, perLine);
    var inner :| BrokenAt(f, limit, Char, word, more, inner, |word|);
    assert widths[next - next] == f.width(TrimWrapped(f, Word, line[start..points[next]]));
    WordAdded(f, limit, line, lines, spans, start, wordEnd, more, inner);
  }

  lemma TextOfPiece(f: Font, limit: real, mode: WrapMode, line: string, points: seq<nat>, k: nat, start: nat)
    requires ArePoints(f, mode, line, points) && k < |points| && start <= points[k] <= |line|
    ensures
      var text := PieceText(f, mode, line, start, points[k]);
      && IsText(f, mode, line, (start, points[k]), text)
      && (WellChosen(f, limit, mode, line, start, points[k]) ==> WellPlaced(f, limit, mode, line, (start, points[k]), text))
  {
    hide WellChosen;
    assert points[k] in points;
  }

  lemma {:induction false} LinesHaveNoBreaks(text: string, i: nat)
    requires i <= |text| && '\n' !in text[..i]
    ensures forall line <- LinesFrom(text, i) :: '\n' !in line
    decreases |text|, |text| - i
  {
    if i == |text| {
      assert text[..i] == text;
    } else if text[i] == '\n' {
      LinesHaveNoBreaks(text[i + 1..], 0);
    } else {
      assert text[..i + 1] == text[..i] + [text[i]];
      LinesHaveNoBreaks(text, i + 1);
    }
  }

  lemma {:induction false} OneLine(text: string, i: nat)
    requires i <= |text| && '\n' !in text
    ensures LinesFrom(text, i) == if text == "" then [] else [text]
    decreases |text| - i
  {
    if i < |text| {
      OneLine(text, i + 1);
    }
  }

  lemma {:induction false} FirstLine(a: string, b: string, i: nat)
    requires i <= |a| && '\n' !in a
    ensures LinesFrom(a + "\n" + b, i) == [StripReturn(a)] + Lines(b)
    decreases |a| - i
  {
    var text := a + "\n" + b;
    if i < |a| {
      assert text[i] == a[i];
      FirstLine(a, b, i + 1);
    } else {
      assert text[i] == '\n' && text[..i] == a && text[i + 1..] == b;
    }
  }

  /** The lines of a text: each is ended by a line feed, with or without a carriage return before it; the last may lack it. */
  lemma LinesExactly(a: string, b: string)
    requires '\n' !in a
    ensures Lines(a) == if a == "" then [] else [a]
    ensures a == "" || Last(a) != '\r' ==> Lines(a + "\n" + b) == [a] + Lines(b)
    ensures Lines(a + "\r\n" + b) == [a] + Lines(b)
  {
    OneLine(a, 0);
    FirstLine(a, b, 0);
    FirstLine(a + "\r", b, 0);
    assert a + "\r" + "\n" + b == a + "\r\n" + b;
    assert (a + "\r")[..|a|] == a;
  }

  lemma WordIsOneLine(f: Font, limit: real, word: string, lines: seq<Line>, perLine: seq<seq<Line>>)
    requires '\n' !in word && TextBroken(f, Some((limit, Char)), word, lines, perLine)
    ensures exists inner :: BrokenAt(f, limit, Char, word, lines, inner, |word|)
    ensures lines == [] <==> word == ""
  {
    OneLine(word, 0);
    hide BrokenAt;
    if word == "" {
      assert lines == [];
      NothingBroken(f, limit, Char, word);
    } else {
      assert perLine == [perLine[0]] && perLine[..0] == [] && Flatten(perLine[..0]) == [];
      assert lines == perLine[0];
      assert LineBroken(f, Some((limit, Char)), Lines(word)[0], perLine[0]);
    }
  }

  lemma NothingBroken(f: Font, limit: real, mode: WrapMode, line: string)
    ensures BrokenAt(f, limit, mode, line, [], [], 0)
  {
  }

  // ---------------------------------------------------------------- nothing is lost

  function Texts(lines: seq<Line>): string {
    if lines == [] then "" else Texts(lines[..|lines| - 1]) + Last(lines).1
  }

  /** The characters that are not white space. */
  function Visible(f: Font, s: string): string {
    if s == "" then ""
    else Visible(f, s[..|s| - 1]) + (if f.isSpace(Last(s)) then "" else [Last(s)])
  }

  lemma {:induction false} VisibleJoins(f: Font, a: string, b: string)
    ensures Visible(f, a + b) == Visible(f, a) + Visible(f, b)
  {
    if b == "" {
      assert a + b == a;
    } else {
      assert (a + b)[..|a + b| - 1] == a + b[..|b| - 1];
      VisibleJoins(f, a, b[..|b| - 1]);
    }
  }

  lemma {:induction false} TrimmingHidesNothing(f: Font, s: string)
    ensures Visible(f, TrimEnd(f, s)) == Visible(f, s)
  {
    if s != "" && f.isSpace(Last(s)) {
      TrimmingHidesNothing(f, s[..|s| - 1]);
    }
  }

  lemma PieceKeeps(f: Font, mode: WrapMode, line: string, span: Span, before: string, text: string)
    requires span.0 <= span.1 <= |line| && IsText(f, mode, line, span, text)
    requires Visible(f, before) == Visible(f, line[..span.0]) && (mode.Char? ==> before == line[..span.0])
    ensures Visible(f, before + text) == Visible(f, line[..span.1]) && (mode.Char? ==> before + text == line[..span.1])
  {
    var (s, e) := span;
    TrimmingHidesNothing(f, line[s..e]);
    VisibleJoins(f, line[..s], line[s..e]);
    VisibleJoins(f, before, text);
    SliceAfterPrefix(line, s, e);
    hide Visible, TrimEnd;
  }

  lemma SliceAfterPrefix(line: string, s: nat, e: nat)
    requires s <= e <= |line|
    ensures line[..e] == line[..s] + line[s..e]
  {
  }

  lemma TextsOneMore(lines: seq<Line>, n: nat)
    requires 0 < n <= |lines|
    ensures Texts(lines[..n]) == Texts(lines[..n - 1]) + lines[n - 1].1
  {
    assert lines[..n][..n - 1] == lines[..n - 1];
  }

  lemma {:induction false} PiecesKeep(f: Font, limit: real, mode: WrapMode, line: string, lines: seq<Line>, spans: seq<Span>, n: nat)
    requires BrokenAt(f, limit, mode, line, lines, spans, |line|) && n <= |spans|
    ensures
      var end := if n == 0 then 0 else spans[n - 1].1;
      && Visible(f, Texts(lines[..n])) == Visible(f, line[..end])
      && (mode.Char? ==> Texts(lines[..n]) == line[..end])
  {
    assert Texts(lines[..0]) == "" && line[..0] == "";
    assert |lines| == |spans|;
    if n > 0 {
      hide *;
      PieceAt(f, limit, mode, line, lines, spans, |line|, n - 1);
      TextsOneMore(lines, n);
      PiecesKeep(f, limit, mode, line, lines, spans, n - 1);
      PieceKeeps(f, mode, line, spans[n - 1], Texts(lines[..n - 1]), lines[n - 1].1);
    }
  }

  /** Breaking a line keeps every visible character in its place; by characters it keeps everything. */
  lemma BreakingKeeps(f: Font, limit: real, mode: WrapMode, line: string, lines: seq<Line>)
    requires Broken(f, limit, mode, line, lines)
    ensures Visible(f, Texts(lines)) == Visible(f, line)
    ensures mode.Char? ==> Texts(lines) == line
  {
    var spans :| BrokenAt(f, limit, mode, line, lines, spans, |line|);
    PiecesKeep(f, limit, mode, line, lines, spans, |spans|);
    assert lines[..|lines|] == lines && line[..|line|] == line;
    assert spans == [] ==> line == "";
  }

  function Concat(parts: seq<string>): string {
    if parts == [] then "" else Concat(parts[..|parts| - 1]) + Last(parts)
  }

  lemma {:induction false} ConcatFirst(first: string, rest: seq<string>)
    ensures Concat([first] + rest) == first + Concat(rest)
  {
    if rest == [] {
      assert [first] + rest == [first] && [first][..0] == [];
    } else {
      assert ([first] + rest)[..|rest|] == [first] + rest[..|rest| - 1];
      ConcatFirst(first, rest[..|rest| - 1]);
    }
  }

  lemma {:induction false} LinesKeep(f: Font, text: string, i: nat)
    requires i <= |text| && f.isSpace('\n') && f.isSpace('\r')
    ensures Visible(f, Concat(LinesFrom(text, i))) == Visible(f, text)
    decreases |text|, |text| - i
  {
    if i == |text| {
      assert text != "" ==> [text][..0] == [] && Concat([text]) == text;
    } else if text[i] == '\n' {
      LinesKeep(f, text[i + 1..], 0);
      FirstLineKeeps(f, text, i, LinesFrom(text[i + 1..], 0));
    } else {
      LinesKeep(f, text, i + 1);
    }
  }

  lemma FirstLineKeeps(f: Font, text: string, i: nat, lines: seq<string>)
    requires i < |text| && text[i] == '\n' && f.isSpace('\n') && f.isSpace('\r')
    requires Visible(f, Concat(lines)) == Visible(f, text[i + 1..])
    ensures Visible(f, Concat([StripReturn(text[..i])] + lines)) == Visible(f, text)
  {
    var head, rest := text[..i], text[i + 1..];
    assert Visible(f, StripReturn(head)) == Visible(f, head);
    assert Visible(f, head + ['\n']) == Visible(f, head) by {
      assert (head + ['\n'])[..|head|] == head;
    }
    assert text == (head + ['\n']) + rest;
    hide Visible, Concat, StripReturn;
    ConcatFirst(StripReturn(head), lines);
    VisibleJoins(f, StripReturn(head), Concat(lines));
    VisibleJoins(f, head + ['\n'], rest);
  }

  lemma {:induction false} TextsJoin(a: seq<Line>, b: seq<Line>)
    ensures Texts(a + b) == Texts(a) + Texts(b)
  {
    if b == [] {
      assert a + b == a;
    } else {
      assert (a + b)[..|a + b| - 1] == a + b[..|b| - 1];
      TextsJoin(a, b[..|b| - 1]);
    }
  }

  lemma {:induction false} AllLinesKeep(f: Font, wrap: Option<(real, WrapMode)>, all: seq<string>, perLine: seq<seq<Line>>)
    requires |perLine| == |all| && forall i | 0 <= i < |all| :: LineBroken(f, wrap, all[i], perLine[i])
    ensures Visible(f, Texts(Flatten(perLine))) == Visible(f, Concat(all))
  {
    if all != [] {
      hide Broken;
      var n := |all| - 1;
      AllLinesKeep(f, wrap, all[..n], perLine[..n]);
      TextsJoin(Flatten(perLine[..n]), perLine[n]);
      VisibleJoins(f, Texts(Flatten(perLine[..n])), Texts(perLine[n]));
      VisibleJoins(f, Concat(all[..n]), all[n]);
      if wrap.Some? {
        BreakingKeeps(f, wrap.value.0, wrap.value.1, all[n], perLine[n]);
      } else {
        assert perLine[n][..0] == [];
        assert Texts(perLine[n]) == all[n];
      }
    }
  }

  /** Whatever the width, the wrap mode and the widths of strings, only white space is dropped. */
  lemma NothingVisibleIsLost(f: Font, wrap: Option<(real, WrapMode)>, text: string, lines: seq<Line>, perLine: seq<seq<Line>>)
    requires f.isSpace('\n') && f.isSpace('\r') && TextBroken(f, wrap, text, lines, perLine)
    ensures Visible(f, Texts(lines)) == Visible(f, text)
  {
    AllLinesKeep(f, wrap, Lines(text), perLine);
    LinesKeep(f, text, 0);
  }
}
