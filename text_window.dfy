/**
 The document as three segments and the pure effect of each operation of
 `TextareaVirtualized` (main.js) on them: the initial slicing, the upward and
 downward rebalance steps, the jumps to either end of the document, and the
 projection of an absolute selection offset into the window. The class in
 module Virtualized is proved to update its fields exactly as these functions
 say; the lemmas here state what the source keeps true.
 */
module TextWindow {
  import opened JsString
  import opened LineIndex

  const ROWS: nat := 30
  const ROWS_MAG: nat := 10
  const MARGINS: nat := 10
  const MARGINS_MAG: nat := 3
  const NL: char := '\n'

  /** Newlines the window is cut at: `ROWS * ROWS_MAG`. */
  const WindowLines: nat := ROWS * ROWS_MAG
  /** Newlines one rebalance step searches for: `MARGINS * MARGINS_MAG`. */
  const MarginLines: nat := MARGINS * MARGINS_MAG

  /** Whether `s` begins at a line break: empty or starting with a newline. */
  predicate StartsLine(s: string)
  {
    s == "" || s[0] == NL
  }

  predicate IsSuffix(a: string, b: string)
  {
    |a| <= |b| && b[|b| - |a|..] == a
  }

  /** `upperVirtualizedText`, `textarea.value` and `lowerVirtualizedText`. */
  datatype Segments = Segments(upper: string, visible: string, lower: string)
  {
    /** The whole document. */
    function Doc(): string
    {
      upper + visible + lower
    }

    /** Both cuts lie at the start or end of the document or just before a
        newline, which then belongs to the segment after the cut. */
    predicate Aligned()
    {
      (upper == "" || StartsLine(visible + lower)) &&
      (upper + visible == "" || StartsLine(lower))
    }
  }

  function Min(a: int, b: int): int { if a <= b then a else b }
  function Max(a: int, b: int): int { if a <= b then b else a }

  /** The constructor's slicing: the window is everything before the
      `WindowLines`-th newline, the rest goes below. The -1 of a document
      with fewer newlines reaches `substring` unchecked. */
  function Initial(doc: string): Segments
  {
    var index := NthFromStart(doc, NL, WindowLines);
    Segments("", JsSubstring(doc, 0, index), JsSubstringFrom(doc, index))
  }

  /** The body of `upperIntersectionCallback` past its guards. */
  function PullUp(s: Segments): Segments
  {
    var upperIndex := BackwardScan(s.upper, NL, MarginLines);
    var text := (if upperIndex != -1 then JsSubstringFrom(s.upper, upperIndex) else s.upper) + s.visible;
    var upper := if upperIndex != -1 then JsSubstring(s.upper, 0, upperIndex) else "";
    var index := NthFromStart(text, NL, WindowLines);
    Segments(upper, JsSubstring(text, 0, index), JsSubstringFrom(text, index) + s.lower)
  }

  /** The body of `lowerIntersectionCallback` past its guards. */
  function PullDown(s: Segments): Segments
  {
    var lowerIndex := NthFromStart(s.lower, NL, MarginLines);
    var text := s.visible + (if lowerIndex != -1 then JsSubstring(s.lower, 0, lowerIndex) else s.lower);
    var lower := if lowerIndex != -1 then JsSubstringFrom(s.lower, lowerIndex) else "";
    var index := BackwardScan(text, NL, WindowLines);
    Segments(s.upper + JsSubstring(text, 0, index), JsSubstringFrom(text, index), lower)
  }

  /** The re-slicing of meta+ArrowUp: the window restarts at the document start. */
  function JumpToStart(s: Segments): Segments
  {
    var text := s.upper + s.visible + s.lower;
    var index := NthFromStart(text, NL, WindowLines);
    Segments("",
             if index != -1 then JsSubstring(text, 0, index) else text,
             if index != -1 then JsSubstringFrom(text, index) else "")
  }

  /** The re-slicing of meta+ArrowDown: the window ends at the document end. */
  function JumpToEnd(s: Segments): Segments
  {
    var text := s.upper + s.visible + s.lower;
    var index := BackwardScan(text, NL, WindowLines);
    Segments(if index != -1 then JsSubstring(text, 0, index) else "",
             if index != -1 then JsSubstringFrom(text, index) else text,
             "")
  }

  /** An absolute selection offset as a local offset in the window,
      `min(max(abs - |upper|, 0), |visible|)`: always inside the window, and
      an exact translation back and forth precisely when `abs` falls inside it. */
  function Project(abs: int, s: Segments): (local: int)
    ensures 0 <= local <= |s.visible|
    ensures local + |s.upper| == abs <==> |s.upper| <= abs <= |s.upper| + |s.visible|
    ensures abs <= |s.upper| ==> local == 0
    ensures |s.upper| + |s.visible| <= abs ==> local == |s.visible|
  {
    Min(Max(abs - |s.upper|, 0), |s.visible|)
  }

  /** Projection keeps the order of the two selection ends. */
  lemma ProjectMonotone(a: int, b: int, s: Segments)
    requires a <= b
    ensures Project(a, s) <= Project(b, s)
  {
  }

  // Cutting at a found position or at -1.

  /** `substring(0, index)` and `substring(index)` at the `WindowLines`-th
      newline from the start: the window re-clip of the constructor and of the
      upward step. */
  lemma ClipFromStart(text: string) returns (head: string, tail: string)
    ensures var index := NthFromStart(text, NL, WindowLines);
      head == JsSubstring(text, 0, index) && tail == JsSubstringFrom(text, index)
    ensures head + tail == text
    ensures Count(head, NL) < WindowLines
    ensures Count(text, NL) >= WindowLines ==> Count(head, NL) == WindowLines - 1 && tail != "" && tail[0] == NL
    ensures Count(text, NL) < WindowLines ==> head == "" && tail == text
  {
    var index := NthFromStart(text, NL, WindowLines);
    head, tail := JsSubstring(text, 0, index), JsSubstringFrom(text, index);
    NthFromStartSpec(text, NL, WindowLines);
    SplitAt(text, index);
  }

  /** `substring(0, index)` and `substring(index)` at the `WindowLines`-th
      newline from the end: the window re-clip of the downward step. */
  lemma ClipFromEnd(text: string) returns (head: string, tail: string)
    ensures var index := BackwardScan(text, NL, WindowLines);
      head == JsSubstring(text, 0, index) && tail == JsSubstringFrom(text, index)
    ensures head + tail == text
    ensures Count(tail, NL) <= WindowLines
    ensures Count(text, NL) >= WindowLines ==> Count(tail, NL) == WindowLines && tail != "" && tail[0] == NL
    ensures Count(text, NL) < WindowLines ==> head == "" && tail == text
  {
    var index := BackwardScan(text, NL, WindowLines);
    head, tail := JsSubstring(text, 0, index), JsSubstringFrom(text, index);
    BackwardScanExact(text, NL, WindowLines);
    NthFromEndSpec(text, NL, WindowLines);
    SplitAt(text, index);
  }

  /** The split of upper in the upward step: what stays and the chunk that
      moves into the window. */
  lemma SplitOffLastLines(u: string) returns (kept: string, moved: string)
    ensures var i := BackwardScan(u, NL, MarginLines);
      kept == (if i != -1 then JsSubstring(u, 0, i) else "") &&
      moved == (if i != -1 then JsSubstringFrom(u, i) else u)
    ensures kept + moved == u
    ensures Count(u, NL) >= MarginLines ==> Count(moved, NL) == MarginLines && moved != "" && moved[0] == NL
    ensures Count(u, NL) < MarginLines ==> kept == ""
    ensures u != "" ==> moved != ""
  {
    var i := BackwardScan(u, NL, MarginLines);
    BackwardScanExact(u, NL, MarginLines);
    NthFromEndSpec(u, NL, MarginLines);
    SplitAt(u, i);
    kept := if i != -1 then JsSubstring(u, 0, i) else "";
    moved := if i != -1 then JsSubstringFrom(u, i) else u;
  }

  /** The split of lower in the downward step: the chunk that moves into the
      window and what stays. */
  lemma SplitOffFirstLines(l: string) returns (moved: string, kept: string)
    ensures var i := NthFromStart(l, NL, MarginLines);
      moved == (if i != -1 then JsSubstring(l, 0, i) else l) &&
      kept == (if i != -1 then JsSubstringFrom(l, i) else "")
    ensures moved + kept == l
    ensures Count(l, NL) >= MarginLines ==> Count(moved, NL) == MarginLines - 1 && kept != "" && kept[0] == NL
    ensures Count(l, NL) < MarginLines ==> kept == ""
    ensures l != "" ==> moved != ""
  {
    var i := NthFromStart(l, NL, MarginLines);
    NthFromStartSpec(l, NL, MarginLines);
    SplitAt(l, i);
    moved := if i != -1 then JsSubstring(l, 0, i) else l;
    kept := if i != -1 then JsSubstringFrom(l, i) else "";
    if i != -1 {
      assert i != 0;
    }
  }

  /** The upward step in pieces. */
  lemma PullUpParts(s: Segments) returns (upper: string, chunk: string, head: string, tail: string)
    ensures PullUp(s) == Segments(upper, head, tail + s.lower)
    ensures upper + chunk == s.upper && head + tail == chunk + s.visible
    ensures Count(s.upper, NL) >= MarginLines ==> Count(chunk, NL) == MarginLines && chunk != "" && chunk[0] == NL
    ensures Count(s.upper, NL) < MarginLines ==> upper == ""
    ensures s.upper != "" ==> chunk != ""
    ensures Count(head, NL) < WindowLines
    ensures head != "" ==> tail != "" && tail[0] == NL
    ensures Count(chunk + s.visible, NL) >= WindowLines ==> Count(head, NL) == WindowLines - 1
    ensures Count(chunk + s.visible, NL) < WindowLines ==> head == "" && tail == chunk + s.visible
  {
    upper, chunk := SplitOffLastLines(s.upper);
    head, tail := ClipFromStart(chunk + s.visible);
  }

  /** The downward step in pieces. */
  lemma PullDownParts(s: Segments) returns (chunk: string, lower: string, head: string, tail: string)
    ensures PullDown(s) == Segments(s.upper + head, tail, lower)
    ensures chunk + lower == s.lower && head + tail == s.visible + chunk
    ensures Count(s.lower, NL) >= MarginLines ==> Count(chunk, NL) == MarginLines - 1 && lower != "" && lower[0] == NL
    ensures Count(s.lower, NL) < MarginLines ==> lower == ""
    ensures s.lower != "" ==> chunk != ""
    ensures Count(tail, NL) <= WindowLines
    ensures head != "" ==> Count(tail, NL) == WindowLines && tail != "" && tail[0] == NL
    ensures head == "" ==> tail == s.visible + chunk
  {
    chunk, lower := SplitOffFirstLines(s.lower);
    head, tail := ClipFromEnd(s.visible + chunk);
  }

  /** Regrouping facts about concatenation that the document-keeping proofs
      below use as hints. */
  lemma Assoc(a: string, b: string, c: string)
    ensures a + (b + c) == a + b + c
  {
  }

  lemma Reassemble(u: string, v: string, l: string, a: string, chunk: string, b: string, head: string, tail: string)
    requires a + chunk + b == u + v + l
    requires head + tail == chunk
    ensures a + head + (tail + b) == u + v + l
    ensures (a + head) + tail + b == u + v + l
  {
  }

  /** Construction: nothing above, the document split between window and
      below, cuts aligned, fewer than `WindowLines` newlines in the window.
      A document with enough newlines fills the window up to its
      `WindowLines`-th newline; a shorter one leaves the window EMPTY and puts
      everything below, because the -1 of the search is passed to `substring`. */
  lemma InitialSlicing(doc: string)
    ensures Initial(doc).Doc() == doc
    ensures Initial(doc).upper == "" && Initial(doc).Aligned()
    ensures Count(Initial(doc).visible, NL) < WindowLines
    ensures Count(doc, NL) >= WindowLines ==>
      Count(Initial(doc).visible, NL) == WindowLines - 1 && Initial(doc).lower[0] == NL
    ensures Count(doc, NL) < WindowLines ==> Initial(doc).visible == "" && Initial(doc).lower == doc
  {
    var head, tail := ClipFromStart(doc);
    assert Initial(doc) == Segments("", head, tail);
    assert Initial(doc).Doc() == head + tail;
  }

  /** The upward step loses and duplicates nothing, and text only moves
      down: the new upper is a prefix of the old one, the old lower a suffix
      of the new one, and a non-empty upper strictly shrinks. */
  lemma PullUpKeepsDocument(s: Segments)
    ensures PullUp(s).Doc() == s.Doc()
    ensures PullUp(s).upper <= s.upper
    ensures IsSuffix(s.lower, PullUp(s).lower)
    ensures s.upper != "" ==> |PullUp(s).upper| < |s.upper|
  {
    var upper, chunk, head, tail := PullUpParts(s);
    Assoc(upper, chunk, s.visible);
    Reassemble(s.upper, s.visible, s.lower, upper, chunk + s.visible, s.lower, head, tail);
    assert PullUp(s).Doc() == upper + head + (tail + s.lower);
    assert (tail + s.lower)[|tail + s.lower| - |s.lower|..] == s.lower;
  }

  /** The upward step moves the last `MarginLines` lines of upper (each
      starting with its newline) into the window, or all of upper when it has
      fewer newlines; the re-count at position 0 changes nothing here. */
  lemma PullUpTakesMarginLines(s: Segments)
    ensures Count(s.upper, NL) >= MarginLines ==>
      Count(s.upper[|PullUp(s).upper|..], NL) == MarginLines &&
      s.upper[|PullUp(s).upper|..][0] == NL
    ensures Count(s.upper, NL) < MarginLines ==> PullUp(s).upper == ""
  {
    var upper, chunk, head, tail := PullUpParts(s);
    assert s.upper[|upper|..] == chunk;
  }

  /** After the upward step the cuts are aligned and the window holds fewer
      than `WindowLines` newlines. Let `text` be the chunk taken from upper
      followed by the old window: when it has at least `WindowLines` newlines
      the window is cut just before the `WindowLines`-th; otherwise the -1 of
      the search reaches `substring` and the window is left EMPTY, all of
      `text` going below. */
  lemma PullUpKeepsWindow(s: Segments)
    ensures PullUp(s).Aligned()
    ensures Count(PullUp(s).visible, NL) < WindowLines
    ensures var text := s.upper[|PullUp(s).upper|..] + s.visible;
      Count(text, NL) >= WindowLines ==> Count(PullUp(s).visible, NL) == WindowLines - 1
    ensures var text := s.upper[|PullUp(s).upper|..] + s.visible;
      Count(text, NL) < WindowLines ==> PullUp(s).visible == "" && PullUp(s).lower == text + s.lower
  {
    var upper, chunk, head, tail := PullUpParts(s);
    assert s.upper[|upper|..] == chunk;
    if upper != "" {
      assert upper + chunk == s.upper;
      assert |upper| < |s.upper| && upper == s.upper[..|upper|] && chunk == s.upper[|upper|..];
      assert Count(s.upper, NL) >= MarginLines;
      assert (head + (tail + s.lower))[0] == (chunk + s.visible + s.lower)[0] == chunk[0];
    }
  }

  /** The upward step from an upper text with exactly `MarginLines`
      newlines that does not start with one: only its first line stays above,
      and with at least `WindowLines - MarginLines` newlines in the old window
      the new window is cut to `WindowLines - 1`. */
  lemma PullUpLeavesFirstLine(s: Segments)
    requires s.upper != "" && s.upper[0] != NL && Count(s.upper, NL) == MarginLines
    requires Count(s.visible, NL) >= WindowLines - MarginLines
    ensures PullUp(s).upper != "" && Count(PullUp(s).upper, NL) == 0
    ensures Count(PullUp(s).visible, NL) == WindowLines - 1
  {
    var upper, chunk, head, tail := PullUpParts(s);
    CountConcat(upper, chunk, NL);
    CountConcat(chunk, s.visible, NL);
  }

  /** Near the document start the upward step EMPTIES the window: when the
      upper text has fewer than `MarginLines` newlines and it and the window
      together fewer than `WindowLines`, the -1 of the window search leaves
      nothing above and nothing in the window. */
  lemma PullUpNearStartEmptiesWindow(s: Segments)
    requires Count(s.upper, NL) < MarginLines && Count(s.upper + s.visible, NL) < WindowLines
    ensures PullUp(s) == Segments("", "", s.Doc())
  {
    var upper, chunk, head, tail := PullUpParts(s);
    assert chunk == s.upper;
  }

  /** The downward step loses and duplicates nothing, and text only moves
      up: the new lower is a suffix of the old one, the old upper a prefix
      of the new one, and a non-empty lower strictly shrinks. */
  lemma PullDownKeepsDocument(s: Segments)
    ensures PullDown(s).Doc() == s.Doc()
    ensures s.upper <= PullDown(s).upper
    ensures IsSuffix(PullDown(s).lower, s.lower)
    ensures s.lower != "" ==> |PullDown(s).lower| < |s.lower|
  {
    var chunk, lower, head, tail := PullDownParts(s);
    Assoc(s.upper, s.visible, chunk);
    Assoc(s.upper + s.visible, chunk, lower);
    Reassemble(s.upper, s.visible, s.lower, s.upper, s.visible + chunk, lower, head, tail);
    assert PullDown(s).Doc() == (s.upper + head) + tail + lower;
    assert s.lower[|s.lower| - |lower|..] == lower;
  }

  /** The downward step moves the lines of lower that precede its
      `MarginLines`-th newline (`MarginLines - 1` newlines) into the window, or
      all of lower when it has fewer newlines; what stays below starts with a
      newline. */
  lemma PullDownTakesMarginLines(s: Segments)
    ensures Count(s.lower, NL) >= MarginLines ==>
      Count(s.lower[..|s.lower| - |PullDown(s).lower|], NL) == MarginLines - 1 &&
      PullDown(s).lower != "" && PullDown(s).lower[0] == NL
    ensures Count(s.lower, NL) < MarginLines ==> PullDown(s).lower == ""
  {
    var chunk, lower, head, tail := PullDownParts(s);
    assert s.lower[..|s.lower| - |lower|] == chunk;
  }

  /** From aligned segments the downward step keeps the cuts aligned, and the
      window holds at most `WindowLines` newlines (exactly that many, starting
      with one, whenever anything is cut off above it). */
  lemma PullDownKeepsWindow(s: Segments)
    requires s.Aligned()
    ensures PullDown(s).Aligned()
    ensures Count(PullDown(s).visible, NL) <= WindowLines
    ensures PullDown(s).upper != s.upper ==>
      Count(PullDown(s).visible, NL) == WindowLines && PullDown(s).visible[0] == NL
  {
    var chunk, lower, head, tail := PullDownParts(s);
    assert StartsLine(lower);
    if head == "" {
      assert s.upper + head == s.upper;
      Assoc(s.visible, chunk, lower);
      assert tail + lower == s.visible + s.lower;
    } else {
      assert (tail + lower)[0] == tail[0];
    }
  }

  /** meta+ArrowUp: nothing above, the document intact, cuts aligned, and the
      window filled up to the `WindowLines`-th newline, or the whole document
      when it has fewer. */
  lemma JumpToStartSlicing(s: Segments)
    ensures JumpToStart(s).Doc() == s.Doc()
    ensures JumpToStart(s).upper == "" && JumpToStart(s).Aligned()
    ensures Count(JumpToStart(s).visible, NL) < WindowLines
    ensures Count(s.Doc(), NL) >= WindowLines ==>
      Count(JumpToStart(s).visible, NL) == WindowLines - 1 && JumpToStart(s).lower[0] == NL
    ensures Count(s.Doc(), NL) < WindowLines ==> JumpToStart(s).lower == ""
  {
    var text := s.Doc();
    var head, tail := ClipFromStart(text);
    if Count(text, NL) >= WindowLines {
      assert JumpToStart(s) == Segments("", head, tail);
    } else {
      assert JumpToStart(s) == Segments("", text, "");
    }
  }

  /** meta+ArrowDown: nothing below, the document intact, cuts aligned, and
      the window holding the last `WindowLines` newlines, or the whole
      document when it has fewer (whatever the re-count at position 0 does). */
  lemma JumpToEndSlicing(s: Segments)
    ensures JumpToEnd(s).Doc() == s.Doc()
    ensures JumpToEnd(s).lower == "" && JumpToEnd(s).Aligned()
    ensures Count(JumpToEnd(s).visible, NL) <= WindowLines
    ensures Count(s.Doc(), NL) >= WindowLines ==>
      Count(JumpToEnd(s).visible, NL) == WindowLines && JumpToEnd(s).visible[0] == NL
    ensures Count(s.Doc(), NL) < WindowLines ==> JumpToEnd(s).upper == ""
  {
    var text := s.Doc();
    var head, tail := ClipFromEnd(text);
    if BackwardScan(text, NL, WindowLines) != -1 {
      assert JumpToEnd(s) == Segments(head, tail, "");
    } else {
      assert JumpToEnd(s) == Segments("", text, "");
      BackwardScanExact(text, NL, WindowLines);
    }
  }

  /** The constructor and meta+ArrowUp slice a document with at least
      `WindowLines` newlines the same way; on a shorter non-empty document the
      constructor leaves the window empty where meta+ArrowUp fills it. */
  lemma InitialAgreesWithJumpToStart(doc: string)
    ensures Count(doc, NL) >= WindowLines ==> Initial(doc) == JumpToStart(Segments("", "", doc))
    ensures Count(doc, NL) < WindowLines && doc != "" ==>
      Initial(doc).visible == "" && JumpToStart(Segments("", "", doc)).visible == doc
  {
    var s := Segments("", "", doc);
    assert s.Doc() == doc;
    InitialSlicing(doc);
    JumpToStartSlicing(s);
  }

  // The two slicings with the -1 check that meta+ArrowUp makes (main.js:171).

  /** The constructor's slicing with the check: a document with fewer than
      `WindowLines` newlines goes entirely into the window. */
  function InitialChecked(doc: string): Segments
  {
    var index := NthFromStart(doc, NL, WindowLines);
    Segments("",
             if index != -1 then JsSubstring(doc, 0, index) else doc,
             if index != -1 then JsSubstringFrom(doc, index) else "")
  }

  /** The upward step with the check: when the chunk and the old window have
      fewer than `WindowLines` newlines, all of them stay in the window. */
  function PullUpChecked(s: Segments): Segments
  {
    var upperIndex := BackwardScan(s.upper, NL, MarginLines);
    var text := (if upperIndex != -1 then JsSubstringFrom(s.upper, upperIndex) else s.upper) + s.visible;
    var upper := if upperIndex != -1 then JsSubstring(s.upper, 0, upperIndex) else "";
    var index := NthFromStart(text, NL, WindowLines);
    Segments(upper,
             if index != -1 then JsSubstring(text, 0, index) else text,
             (if index != -1 then JsSubstringFrom(text, index) else "") + s.lower)
  }

  /** With the check the constructor keeps the document, leaves nothing
      above, aligns the cuts and shows as many newlines as it can: all of the
      document's, up to `WindowLines - 1`. A non-empty document never gets an
      empty window. */
  lemma InitialCheckedSlicing(doc: string)
    ensures InitialChecked(doc).Doc() == doc
    ensures InitialChecked(doc).upper == "" && InitialChecked(doc).Aligned()
    ensures Count(InitialChecked(doc).visible, NL) == Min(Count(doc, NL), WindowLines - 1)
    ensures doc != "" ==> InitialChecked(doc).visible != ""
  {
    var head, tail := ClipFromStart(doc);
    if Count(doc, NL) >= WindowLines {
      assert InitialChecked(doc) == Segments("", head, tail);
      assert head != "";
    } else {
      assert InitialChecked(doc) == Segments("", doc, "");
    }
  }

  /** The check changes the constructor only on a document with fewer than
      `WindowLines` newlines, where the source leaves the window empty and
      the checked slicing shows the whole document. */
  lemma InitialCheckedFixesShortDocument(doc: string)
    ensures Count(doc, NL) >= WindowLines ==> InitialChecked(doc) == Initial(doc)
    ensures Count(doc, NL) < WindowLines ==>
      Initial(doc).visible == "" && InitialChecked(doc).visible == doc
  {
    var head, tail := ClipFromStart(doc);
  }

  /** The check changes the upward step only where the source empties the
      window: there the checked step keeps everything it moved in the window. */
  lemma PullUpCheckedFixesEmptyWindow(s: Segments)
    ensures PullUpChecked(s).upper == PullUp(s).upper
    ensures PullUp(s).upper + s.upper[|PullUp(s).upper|..] == s.upper
    ensures var text := s.upper[|PullUp(s).upper|..] + s.visible;
      Count(text, NL) >= WindowLines ==> PullUpChecked(s) == PullUp(s)
    ensures var text := s.upper[|PullUp(s).upper|..] + s.visible;
      Count(text, NL) < WindowLines ==>
      PullUp(s).visible == "" && PullUpChecked(s).visible == text && PullUpChecked(s).lower == s.lower
  {
    var upper, chunk, head, tail := PullUpParts(s);
    assert s.upper[|upper|..] == chunk;
  }

  /** The segments the checked upward step gives when it keeps everything
      it moved in the window: the document and the cut alignment are kept. */
  lemma KeepAllInWindow(s: Segments, upper: string, chunk: string)
    requires s.Aligned() && upper + chunk == s.upper
    requires upper != "" ==> chunk != "" && chunk[0] == NL
    ensures Segments(upper, chunk + s.visible, s.lower).Doc() == s.Doc()
    ensures Segments(upper, chunk + s.visible, s.lower).Aligned()
  {
  }

  /** With the check the upward step still keeps the document and the cut
      alignment. */
  lemma PullUpCheckedKeepsDocument(s: Segments)
    requires s.Aligned()
    ensures PullUpChecked(s).Doc() == s.Doc() && PullUpChecked(s).Aligned()
  {
    PullUpCheckedFixesEmptyWindow(s);
    var upper := PullUp(s).upper;
    var chunk := s.upper[|upper|..];
    if Count(chunk + s.visible, NL) >= WindowLines {
      PullUpKeepsDocument(s);
      PullUpKeepsWindow(s);
    } else {
      PullUpTakesMarginLines(s);
      KeepAllInWindow(s, upper, chunk);
    }
  }

  /** With the check the window after the upward step holds all newlines of
      the chunk and the old window up to `WindowLines - 1`, so at least as
      many as before (up to that bound); whenever there was text above, the
      window is not empty. */
  lemma PullUpCheckedKeepsWindow(s: Segments)
    ensures Count(PullUpChecked(s).visible, NL) ==
      Min(Count(s.upper[|PullUp(s).upper|..] + s.visible, NL), WindowLines - 1)
    ensures Count(PullUpChecked(s).visible, NL) >= Min(Count(s.visible, NL), WindowLines - 1)
    ensures s.upper != "" ==> PullUpChecked(s).visible != ""
  {
    PullUpCheckedFixesEmptyWindow(s);
    var upper := PullUp(s).upper;
    var chunk := s.upper[|upper|..];
    CountConcat(chunk, s.visible, NL);
    if Count(chunk + s.visible, NL) >= WindowLines {
      PullUpKeepsWindow(s);
    } else if s.upper != "" {
      PullUpKeepsDocument(s);
    }
  }
}
