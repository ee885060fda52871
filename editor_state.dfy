/**
 The whole state `TextareaVirtualized` (main.js) keeps, as a value: the
 three segments, the absolute selection (`this.selectionStart`,
 `this.selectionEnd`) and the selection the engine last wrote into the
 textarea. Each handler is a function from the state before to the state
 after; the class of module Virtualized is proved to perform exactly these
 transitions, and the lemmas here state what every handler keeps true.
 */
module EditorState {
  import opened LineIndex
  import opened TextWindow

  datatype Editor = Editor(segs: Segments, selectionStart: int, selectionEnd: int,
                           textareaStart: int, textareaEnd: int)
  {
    /** Cuts on line boundaries, at most `WindowLines` newlines in the
        window, the absolute selection ordered inside the document and the
        textarea selection ordered inside the window. */
    predicate Valid()
    {
      segs.Aligned() && Count(segs.visible, NL) <= WindowLines &&
      0 <= selectionStart <= selectionEnd <= |segs.upper| + |segs.visible| + |segs.lower| &&
      0 <= textareaStart <= textareaEnd <= |segs.visible|
    }

    /** The textarea shows the absolute selection clipped to the window. */
    predicate Projected()
    {
      textareaStart == Project(selectionStart, segs) && textareaEnd == Project(selectionEnd, segs)
    }
  }

  /** The constructor: the initial slicing and an empty selection at 0. The
      constructor writes no textarea selection; the model takes it as
      `(0, 0)`, a choice of the model (a browser moves the caret to the end of
      the value when the value is set). */
  function Constructed(doc: string): Editor
  {
    Editor(Initial(doc), 0, 0, 0, 0)
  }

  /** `upperIntersectionCallback(entries)`: nothing happens unless the first
      entry intersects and there is text above the window; otherwise one
      upward step, the absolute selection kept and projected into the new
      window. `entries` holds the `isIntersecting` flags. */
  function AfterUpperIntersection(e: Editor, entries: seq<bool>): Editor
  {
    if |entries| == 0 || !entries[0] || e.segs.upper == "" then e
    else
      var t := PullUp(e.segs);
      Editor(t, e.selectionStart, e.selectionEnd,
             Project(e.selectionStart, t), Project(e.selectionEnd, t))
  }

  /** `lowerIntersectionCallback(entries)`, the mirror image. */
  function AfterLowerIntersection(e: Editor, entries: seq<bool>): Editor
  {
    if |entries| == 0 || !entries[0] || e.segs.lower == "" then e
    else
      var t := PullDown(e.segs);
      Editor(t, e.selectionStart, e.selectionEnd,
             Project(e.selectionStart, t), Project(e.selectionEnd, t))
  }

  /** meta+a: the absolute selection becomes the whole document. */
  function AfterSelectAll(e: Editor): Editor
  {
    e.(selectionStart := 0, selectionEnd := |e.segs.upper| + |e.segs.visible| + |e.segs.lower|)
  }

  /** meta+ArrowUp, with `hostEnd` the textarea's own selection end: the
      selection collapses to 0 or, with shift, runs from 0 to where it ended;
      the window restarts at the document start. */
  function AfterJumpToStart(e: Editor, shiftKey: bool, hostEnd: int): Editor
  {
    var t := JumpToStart(e.segs);
    var end := if shiftKey then |e.segs.upper| + hostEnd else 0;
    Editor(t, 0, end, 0, if shiftKey then Min(end - |t.upper|, |t.visible|) else 0)
  }

  /** meta+ArrowDown, with `hostStart` the textarea's own selection start: the
      selection collapses to the document end or, with shift, runs from where
      it started to the end; the window ends at the document end. */
  function AfterJumpToEnd(e: Editor, shiftKey: bool, hostStart: int): Editor
  {
    var t := JumpToEnd(e.segs);
    var length := |e.segs.upper| + |e.segs.visible| + |e.segs.lower|;
    var start := if shiftKey then |e.segs.upper| + hostStart else length;
    Editor(t, start, length, if shiftKey then Max(start - |t.upper|, 0) else |t.visible|, |t.visible|)
  }

  /** `onKeyDown`: the switch on the key name, each case acting only under meta. */
  function AfterKeyDown(e: Editor, key: string, metaKey: bool, shiftKey: bool,
                        hostStart: int, hostEnd: int): Editor
  {
    if key == "a" then (if metaKey then AfterSelectAll(e) else e)
    else if key == "ArrowUp" then (if metaKey then AfterJumpToStart(e, shiftKey, hostEnd) else e)
    else if key == "ArrowDown" then (if metaKey then AfterJumpToEnd(e, shiftKey, hostStart) else e)
    else e
  }

  /** A new element is in a valid state, holds exactly the given document and
      shows the (empty) absolute selection. */
  lemma ConstructedValid(doc: string)
    ensures Constructed(doc).Valid() && Constructed(doc).Projected()
    ensures Constructed(doc).segs.Doc() == doc
  {
    InitialSlicing(doc);
  }

  /** The upward callback does nothing unless the first entry intersects
      and there is text above; otherwise it keeps the state valid, the
      document and the absolute selection unchanged, moves text only
      downwards (the new upper a prefix of the old, the old lower a suffix of
      the new) and leaves the textarea showing the absolute selection. */
  lemma UpperIntersectionKeepsValid(e: Editor, entries: seq<bool>)
    requires e.Valid()
    ensures var r := AfterUpperIntersection(e, entries);
      r.Valid() && r.segs.Doc() == e.segs.Doc() &&
      r.selectionStart == e.selectionStart && r.selectionEnd == e.selectionEnd
    ensures |entries| == 0 || !entries[0] || e.segs.upper == "" ==> AfterUpperIntersection(e, entries) == e
    ensures |entries| > 0 && entries[0] && e.segs.upper != "" ==>
      var r := AfterUpperIntersection(e, entries);
      r.Projected() && r.segs.upper < e.segs.upper && IsSuffix(e.segs.lower, r.segs.lower)
  {
    if |entries| > 0 && entries[0] && e.segs.upper != "" {
      PullUpKeepsDocument(e.segs);
      PullUpKeepsWindow(e.segs);
      ProjectMonotone(e.selectionStart, e.selectionEnd, PullUp(e.segs));
    }
  }

  /** The same for the downward callback, which moves text only upwards: the
      new lower a suffix of the old, the old upper a prefix of the new. */
  lemma LowerIntersectionKeepsValid(e: Editor, entries: seq<bool>)
    requires e.Valid()
    ensures var r := AfterLowerIntersection(e, entries);
      r.Valid() && r.segs.Doc() == e.segs.Doc() &&
      r.selectionStart == e.selectionStart && r.selectionEnd == e.selectionEnd
    ensures |entries| == 0 || !entries[0] || e.segs.lower == "" ==> AfterLowerIntersection(e, entries) == e
    ensures |entries| > 0 && entries[0] && e.segs.lower != "" ==>
      var r := AfterLowerIntersection(e, entries);
      r.Projected() && e.segs.upper <= r.segs.upper && IsSuffix(r.segs.lower, e.segs.lower) &&
      |r.segs.lower| < |e.segs.lower|
  {
    if |entries| > 0 && entries[0] && e.segs.lower != "" {
      PullDownKeepsDocument(e.segs);
      PullDownKeepsWindow(e.segs);
      ProjectMonotone(e.selectionStart, e.selectionEnd, PullDown(e.segs));
    }
  }

  /** meta+ArrowUp keeps the state valid and the document unchanged, and
      although the source sets the textarea selection end without clipping
      it below at 0, the textarea ends up showing the new absolute selection
      clipped to the window. */
  lemma JumpToStartKeepsValid(e: Editor, shiftKey: bool, hostEnd: int)
    requires e.Valid()
    requires 0 <= hostEnd <= |e.segs.visible|
    ensures AfterJumpToStart(e, shiftKey, hostEnd).Valid()
    ensures AfterJumpToStart(e, shiftKey, hostEnd).Projected()
    ensures AfterJumpToStart(e, shiftKey, hostEnd).segs.Doc() == e.segs.Doc()
  {
    JumpToStartSlicing(e.segs);
  }

  /** meta+ArrowDown, the same: its textarea selection start is not clipped
      above, yet it ends up the projection of the new absolute selection. */
  lemma JumpToEndKeepsValid(e: Editor, shiftKey: bool, hostStart: int)
    requires e.Valid()
    requires 0 <= hostStart <= |e.segs.visible|
    ensures AfterJumpToEnd(e, shiftKey, hostStart).Valid()
    ensures AfterJumpToEnd(e, shiftKey, hostStart).Projected()
    ensures AfterJumpToEnd(e, shiftKey, hostStart).segs.Doc() == e.segs.Doc()
  {
    JumpToEndSlicing(e.segs);
  }

  /** Every key leaves the state valid and the document unchanged. meta+a
      selects the whole document and keeps the window; meta+ArrowUp leaves
      nothing above the window and starts the selection at 0, collapsed
      without shift; meta+ArrowDown leaves nothing below and ends the
      selection at the document length, collapsed without shift; any other
      key, or any key without meta, changes nothing. */
  lemma KeyDownKeepsValid(e: Editor, key: string, metaKey: bool, shiftKey: bool,
                          hostStart: int, hostEnd: int)
    requires e.Valid()
    requires 0 <= hostStart <= |e.segs.visible| && 0 <= hostEnd <= |e.segs.visible|
    ensures var r := AfterKeyDown(e, key, metaKey, shiftKey, hostStart, hostEnd);
      r.Valid() && r.segs.Doc() == e.segs.Doc()
    ensures metaKey && key == "a" ==>
      var r := AfterKeyDown(e, key, metaKey, shiftKey, hostStart, hostEnd);
      r.segs == e.segs && r.selectionStart == 0 && r.selectionEnd == |e.segs.Doc()|
    ensures metaKey && key == "ArrowUp" ==>
      var r := AfterKeyDown(e, key, metaKey, shiftKey, hostStart, hostEnd);
      r.segs.upper == "" && r.selectionStart == 0 && (!shiftKey ==> r.selectionEnd == 0)
    ensures metaKey && key == "ArrowDown" ==>
      var r := AfterKeyDown(e, key, metaKey, shiftKey, hostStart, hostEnd);
      r.segs.lower == "" && r.selectionEnd == |e.segs.Doc()| &&
      (!shiftKey ==> r.selectionStart == |e.segs.Doc()|)
    ensures !metaKey || (key != "a" && key != "ArrowUp" && key != "ArrowDown") ==>
      AfterKeyDown(e, key, metaKey, shiftKey, hostStart, hostEnd) == e
  {
    if metaKey && key == "ArrowUp" {
      JumpToStartKeepsValid(e, shiftKey, hostEnd);
    } else if metaKey && key == "ArrowDown" {
      JumpToEndKeepsValid(e, shiftKey, hostStart);
    }
  }

  /** The empty window of the upward step is reachable. Take a document
      with `WindowLines + MarginLines` newlines that does not start with one.
      meta+ArrowDown puts `MarginLines` newlines above a full window; the first
      upward step moves them all into the window, so that only the first line
      stays above and the window is re-cut to `WindowLines - 1` newlines; the
      second upward step takes that first line, finds fewer than
      `WindowLines` newlines and leaves a valid state with the window EMPTY and
      the whole document below it. */
  lemma UpwardStepsEmptyWindow(doc: string)
    requires doc != "" && doc[0] != NL && Count(doc, NL) == WindowLines + MarginLines
    ensures var e1 := AfterKeyDown(Constructed(doc), "ArrowDown", true, false, 0, 0);
      var e2 := AfterUpperIntersection(e1, [true]);
      e2.segs.upper != "" && Count(e2.segs.visible, NL) == WindowLines - 1
    ensures var e1 := AfterKeyDown(Constructed(doc), "ArrowDown", true, false, 0, 0);
      var e3 := AfterUpperIntersection(AfterUpperIntersection(e1, [true]), [true]);
      e3.Valid() && e3.segs == Segments("", "", doc)
  {
    var e0 := Constructed(doc);
    ConstructedValid(doc);
    var e1 := AfterKeyDown(e0, "ArrowDown", true, false, 0, 0);
    KeyDownKeepsValid(e0, "ArrowDown", true, false, 0, 0);
    JumpToEndSlicing(e0.segs);
    var u1, v1 := e1.segs.upper, e1.segs.visible;
    assert u1 + v1 == doc;
    CountConcat(u1, v1, NL);
    assert u1 != "" && u1[0] == doc[0];

    var e2 := AfterUpperIntersection(e1, [true]);
    UpperIntersectionKeepsValid(e1, [true]);
    PullUpLeavesFirstLine(e1.segs);

    UpperIntersectionKeepsValid(e2, [true]);
    CountConcat(e2.segs.upper, e2.segs.visible, NL);
    PullUpNearStartEmptiesWindow(e2.segs);
  }
}
