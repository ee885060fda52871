/**
 The `TextareaVirtualized` element of main.js with the fields its methods
 reassign: the three document segments, the absolute selection and the
 selection of the inner textarea. Each event handler reads its fields into an
 `Editor` value, computes the new value with one of the methods at the end
 of this module (which run the source's searches through the loop helpers of
 LineIndex) and writes all fields back; it is proved to perform exactly the
 transition of EditorState, whose lemmas give `Valid()` afterwards.
 */
module Virtualized {
  import opened JsString
  import opened LineIndex
  import opened TextWindow
  import opened EditorState

  class TextareaVirtualized {
    /** Text above the window. */
    var upperVirtualizedText: string
    /** `textarea.value`: the editable window. */
    var textareaValue: string
    /** Text below the window. */
    var lowerVirtualizedText: string
    /** Absolute selection, as offsets into the whole document. */
    var selectionStart: int
    var selectionEnd: int
    /** `textarea.selectionStart` / `textarea.selectionEnd` as last written
        by the engine: offsets into the window. */
    var textareaSelectionStart: int
    var textareaSelectionEnd: int

    /** The whole state as a value, for the transitions of EditorState. */
    function State(): Editor
      reads this
    {
      Editor(Segments(upperVirtualizedText, textareaValue, lowerVirtualizedText),
             selectionStart, selectionEnd, textareaSelectionStart, textareaSelectionEnd)
    }

    /** `State().Valid()`, written on the fields. */
    ghost predicate Valid()
      reads this
    {
      State().Valid()
    }

    /** Lines 104-110 of the constructor: `text` is the document. The source
        writes no textarea selection; the model takes it as `(0, 0)`. */
    constructor (text: string)
      ensures Valid()
      ensures State() == Constructed(text)
    {
      var index := IndexOf(text, NL, WindowLines);
      upperVirtualizedText := "";
      textareaValue := JsSubstring(text, 0, index);
      lowerVirtualizedText := JsSubstringFrom(text, index);
      selectionStart := 0;
      selectionEnd := 0;
      textareaSelectionStart := 0;
      textareaSelectionEnd := 0;
      ConstructedValid(text);
    }

    /** Writes a computed state back into the fields. */
    method Store(r: Editor)
      modifies this
      ensures State() == r
    {
      upperVirtualizedText, textareaValue, lowerVirtualizedText := r.segs.upper, r.segs.visible, r.segs.lower;
      selectionStart, selectionEnd := r.selectionStart, r.selectionEnd;
      textareaSelectionStart, textareaSelectionEnd := r.textareaStart, r.textareaEnd;
    }

    /** The IntersectionObserver callback of the upper sentinel. `entries`
        holds the `isIntersecting` flag of each entry; the loop of the source
        returns while handling the first one, so only that one matters. */
    method UpperIntersectionCallback(entries: seq<bool>)
      requires Valid()
      modifies this
      ensures Valid()
      ensures State() == AfterUpperIntersection(old(State()), entries)
    {
      ghost var before := State();
      var r := UpperIntersection(State(), entries);
      Store(r);
      UpperIntersectionKeepsValid(before, entries);
    }

    /** The IntersectionObserver callback of the lower sentinel, the mirror image. */
    method LowerIntersectionCallback(entries: seq<bool>)
      requires Valid()
      modifies this
      ensures Valid()
      ensures State() == AfterLowerIntersection(old(State()), entries)
    {
      ghost var before := State();
      var r := LowerIntersection(State(), entries);
      Store(r);
      LowerIntersectionKeepsValid(before, entries);
    }

    /** `onKeyDown`: meta+a, meta+ArrowUp and meta+ArrowDown (with or
        without shift); every other key, and these without meta, do nothing.
        `hostStart`/`hostEnd` are the textarea's current selection as the
        browser reports it, offsets into the window. */
    method OnKeyDown(key: string, metaKey: bool, shiftKey: bool, hostStart: int, hostEnd: int)
      requires Valid()
      requires 0 <= hostStart <= |textareaValue| && 0 <= hostEnd <= |textareaValue|
      modifies this
      ensures Valid()
      ensures State() == AfterKeyDown(old(State()), key, metaKey, shiftKey, hostStart, hostEnd)
    {
      if key == "a" {
        if metaKey {
          SelectAll();
        }
      } else if key == "ArrowUp" {
        if metaKey {
          JumpToDocumentStart(shiftKey, hostEnd);
        }
      } else if key == "ArrowDown" {
        if metaKey {
          JumpToDocumentEnd(shiftKey, hostStart);
        }
      }
    }

    /** The `case 'a'` branch under meta: the absolute selection becomes the
        whole document; segments and the textarea selection stay. */
    method SelectAll()
      requires Valid()
      modifies this
      ensures Valid()
      ensures State() == AfterSelectAll(old(State()))
    {
      selectionStart := 0;
      selectionEnd := |upperVirtualizedText| + |textareaValue| + |lowerVirtualizedText|;
    }

    /** The `case 'ArrowUp'` branch under meta. */
    method JumpToDocumentStart(shiftKey: bool, hostEnd: int)
      requires Valid()
      requires 0 <= hostEnd <= |textareaValue|
      modifies this
      ensures Valid()
      ensures State() == AfterJumpToStart(old(State()), shiftKey, hostEnd)
    {
      ghost var before := State();
      var r := MetaArrowUp(State(), shiftKey, hostEnd);
      Store(r);
      JumpToStartKeepsValid(before, shiftKey, hostEnd);
    }

    /** The `case 'ArrowDown'` branch under meta. */
    method JumpToDocumentEnd(shiftKey: bool, hostStart: int)
      requires Valid()
      requires 0 <= hostStart <= |textareaValue|
      modifies this
      ensures Valid()
      ensures State() == AfterJumpToEnd(old(State()), shiftKey, hostStart)
    {
      ghost var before := State();
      var r := MetaArrowDown(State(), shiftKey, hostStart);
      Store(r);
      JumpToEndKeepsValid(before, shiftKey, hostStart);
    }
  }

  /** `upperIntersectionCallback` on a snapshot: the two guards, then
      `lastIndexOf` finds the `MarginLines`-th newline from the end of upper,
      the part from there joins the window, `indexOf` re-clips the window at
      its `WindowLines`-th newline with the rest going on top of lower, and
      the absolute selection is clipped into the new window. */
  method UpperIntersection(e: Editor, entries: seq<bool>) returns (r: Editor)
    ensures r == AfterUpperIntersection(e, entries)
  {
    if |entries| == 0 || !entries[0] {
      return e;
    }
    if e.segs.upper == "" {
      return e;
    }
    var upperIndex := LastIndexOf(e.segs.upper, NL, MarginLines);
    var text := (if upperIndex != -1 then JsSubstringFrom(e.segs.upper, upperIndex) else e.segs.upper) + e.segs.visible;
    var upper := if upperIndex != -1 then JsSubstring(e.segs.upper, 0, upperIndex) else "";
    var index := IndexOf(text, NL, WindowLines);
    var visible := JsSubstring(text, 0, index);
    var lower := JsSubstringFrom(text, index) + e.segs.lower;
    var t := Segments(upper, visible, lower);
    r := Editor(t, e.selectionStart, e.selectionEnd, Project(e.selectionStart, t), Project(e.selectionEnd, t));
  }

  /** `lowerIntersectionCallback` on a snapshot: the two guards, then
      `indexOf` finds the `MarginLines`-th newline of lower, the part before
      it joins the window, `lastIndexOf` re-clips the window at its
      `WindowLines`-th newline from the end with the part before going under
      upper, and the absolute selection is clipped into the new window. */
  method LowerIntersection(e: Editor, entries: seq<bool>) returns (r: Editor)
    ensures r == AfterLowerIntersection(e, entries)
  {
    if |entries| == 0 || !entries[0] {
      return e;
    }
    if e.segs.lower == "" {
      return e;
    }
    var lowerIndex := IndexOf(e.segs.lower, NL, MarginLines);
    var text := e.segs.visible + (if lowerIndex != -1 then JsSubstring(e.segs.lower, 0, lowerIndex) else e.segs.lower);
    var lower := if lowerIndex != -1 then JsSubstringFrom(e.segs.lower, lowerIndex) else "";
    var index := LastIndexOf(text, NL, WindowLines);
    var visible := JsSubstringFrom(text, index);
    var upper := e.segs.upper + JsSubstring(text, 0, index);
    var t := Segments(upper, visible, lower);
    r := Editor(t, e.selectionStart, e.selectionEnd, Project(e.selectionStart, t), Project(e.selectionEnd, t));
  }

  /** meta+ArrowUp on a snapshot: the new selection end, then the whole
      document cut at the `WindowLines`-th newline found by `indexOf`, then
      the textarea selection. */
  method MetaArrowUp(e: Editor, shiftKey: bool, hostEnd: int) returns (r: Editor)
    ensures r == AfterJumpToStart(e, shiftKey, hostEnd)
  {
    var selectionEnd := if shiftKey then |e.segs.upper| + hostEnd else 0;
    var text := e.segs.upper + e.segs.visible + e.segs.lower;
    var index := IndexOf(text, NL, WindowLines);
    var visible := if index != -1 then JsSubstring(text, 0, index) else text;
    var upper := "";
    var lower := if index != -1 then JsSubstringFrom(text, index) else "";
    r := Editor(Segments(upper, visible, lower), 0, selectionEnd, 0,
                if shiftKey then Min(selectionEnd - |upper|, |visible|) else 0);
  }

  /** meta+ArrowDown on a snapshot: the new selection, then the whole
      document cut at the `WindowLines`-th newline from the end found by
      `lastIndexOf`, then the textarea selection. */
  method MetaArrowDown(e: Editor, shiftKey: bool, hostStart: int) returns (r: Editor)
    ensures r == AfterJumpToEnd(e, shiftKey, hostStart)
  {
    var length := |e.segs.upper| + |e.segs.visible| + |e.segs.lower|;
    var selectionStart := if shiftKey then |e.segs.upper| + hostStart else length;
    var text := e.segs.upper + e.segs.visible + e.segs.lower;
    var index := LastIndexOf(text, NL, WindowLines);
    var visible := if index != -1 then JsSubstringFrom(text, index) else text;
    var upper := if index != -1 then JsSubstring(text, 0, index) else "";
    r := Editor(Segments(upper, visible, ""), selectionStart, length,
                if shiftKey then Max(selectionStart - |upper|, 0) else |visible|, |visible|);
  }
}
