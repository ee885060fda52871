# textarea-virtualized: the windowed line buffer, in Dafny

`TextareaVirtualized` (main.js) is a custom element that edits a very long
document through a small `<textarea>`. The document is held as three strings
whose concatenation is always the whole text:

- `upperVirtualizedText`, the text above the window;
- `textarea.value`, the editable window;
- `lowerVirtualizedText`, the text below the window.

Two IntersectionObserver callbacks move lines between the window and its
neighbours when a sentinel above or below the textarea scrolls into view.
`onKeyDown` handles meta+a (select everything), meta+ArrowUp and
meta+ArrowDown (jump to the document start or end, extending the selection
with shift). The element keeps an absolute selection (offsets into the whole
document) next to the textarea's own selection (offsets into the window).

This project models that engine and proves what it keeps true.

- `js_string.dfy` (module `JsString`): the JavaScript `String` methods the
  engine calls, with their argument clamping. `substring` clamps -1 to 0, and
  `lastIndexOf` clamps a negative start to 0.
- `line_index.dfy` (module `LineIndex`): the search helpers `indexOf` and
  `lastIndexOf` as loop methods. Each is proved equal to a reference
  function, and the reference functions are characterised by newline counts.
- `text_window.dfy` (module `TextWindow`): the three segments as a value and
  the pure effect of each operation on them. The lemmas cover keeping the
  document, the window bound, segment boundaries just before a newline, the
  direction text moves in, and how many lines move.
- `editor_state.dfy` (module `EditorState`): the whole state as a value (an
  `Editor`) with one transition function per handler. Lemmas state what each
  handler preserves and establishes.
- `textarea_virtualized.dfy` (module `Virtualized`): the class with the
  source's fields. Each handler reads its fields as an `Editor`, computes the
  new state with a method that runs the source's searches and cuts, and
  writes the fields back. Each handler is proved to perform exactly its
  transition and to keep `Valid()`.

Behaviour the model keeps exactly as written:

- **Short documents in the constructor.** When the document has fewer than
  `ROWS * ROWS_MAG` (300) newlines, `indexOf` returns -1 and `substring`
  clamps it. The constructor then leaves the window EMPTY and puts the whole
  document below it (`InitialSlicing`). meta+ArrowUp checks for -1 and fills
  the window (`InitialAgreesWithJumpToStart`); the constructor does not. See
  "Findings".
- **The empty window of the upward step.** The upward step passes the -1 of
  its window search to `substring` unchecked as well. When the chunk it moves
  and the old window hold fewer than 300 newlines, the window becomes EMPTY
  and all of that text goes below (`PullUpKeepsWindow`). This state is
  reachable (`UpwardStepsEmptyWindow`). See "Findings".
- **The `lastIndexOf` re-count.** When the searched text (the whole
  document, the upper text or the joined window text) has fewer newlines
  than asked and its first character is a newline, `lastIndexOf` re-finds
  position 0 on every remaining round. It then returns 0 instead of -1
  (`BackwardScan`). `RecountHarmless` proves that every caller cuts the text
  into the same two pieces either way.
- **Step sizes.** Segment boundaries sit just before a newline, which belongs
  to the later segment. So the upward step moves the last 30 lines of the
  upper text, each with its leading newline. The downward step moves the part
  of the lower text before its 30th newline: 29 newlines. This matches the
  `- 1` in the scroll compensation at main.js:146. So the upward step moves
  30 newlines and the downward step 29.
- **Window size.** After construction, an upward step or meta+ArrowUp, the
  window holds at most 299 newlines. After a downward step it holds at most
  300, and exactly 300 (starting with one) whenever the step itself cut text
  off above the window (`PullDownKeepsWindow`). After meta+ArrowDown it holds
  exactly 300 when the document has at least 300 (`JumpToEndSlicing`).
  `Valid()` therefore bounds the window by 300 newlines.

The textarea's current selection, which `onKeyDown` reads, is a parameter of
the key handlers. Because the browser keeps that selection inside the
textarea's value, it is required to lie between 0 and the length of `textarea.value`.

## Model

| member | source | states |
|---|---|---|
| JsString.JsIndexOf | main.js:17 | `text.indexOf(target, from)`: -1 or the first position at or after the clamped start that holds the target, with no earlier one from there |
| JsString.JsLastIndexOf | main.js:26 | `text.lastIndexOf(target, from)`: -1 or the last position at or before the clamped start (so -1 still inspects position 0) that holds the target, with none between it and the start |
| JsString.SplitAt | main.js:106-107 | `substring(0, i)` and `substring(i)` always reassemble the string; at -1 they give `""` and the whole string |
| LineIndex.IndexOf | main.js:14-21 | the loop returns exactly `NthFromStart(text, target, count)` |
| LineIndex.NthFromStartSpec | main.js:14-21 | the forward helper's result is -1 iff `count` is 0 or the text has fewer than `count` targets; otherwise it holds the target with `count - 1` targets before it |
| LineIndex.ForwardStep | main.js:16-19 | one loop round: the (i+1)-th occurrence is `indexOf` from just after the i-th |
| LineIndex.LastIndexOf | main.js:23-30 | the loop returns exactly `BackwardScan(text, target, count)`, position-0 re-count included |
| LineIndex.NthFromEndSpec | main.js:23-30 | the exact count-th target from the end is -1 iff there are fewer than `count`; otherwise it holds the target and starts a suffix with `count` targets |
| LineIndex.BackwardStep | main.js:25-28 | one loop round: the next result is `lastIndexOf` from just before the current one, including the clamped re-find of position 0 |
| LineIndex.BackwardScanStaysGone | main.js:27 | once the backward helper has returned -1 it returns -1 for every larger count |
| LineIndex.BackwardScanExact | main.js:23-30 | with enough targets the backward helper is exact; with too few it returns -1, or 0 when the text starts with the target |
| LineIndex.RecountHarmless | main.js:23-30 | `substring` at the backward helper's result gives the same pieces as at the exact answer |
| TextWindow.Project | main.js:130-131 | the clamped local offset lies between 0 and the window's length; it plus the upper text's length is the absolute offset iff that offset falls inside the window; before the window it is 0, after it the window's length |
| TextWindow.ProjectMonotone | main.js:130-131 | projecting keeps `start <= end` |
| TextWindow.InitialSlicing | main.js:104-107 | construction keeps the document, leaves nothing above, aligns the cuts and puts fewer than 300 newlines in the window; a short document goes entirely below |
| TextWindow.InitialAgreesWithJumpToStart | main.js:104-107 | with at least 300 newlines the constructor slices like meta+ArrowUp; with fewer it leaves the window empty where meta+ArrowUp fills it |
| TextWindow.PullUpKeepsDocument | main.js:122-127 | the upward step keeps the document; the new upper is a prefix of the old one and shorter when non-empty; the old lower is a suffix of the new one |
| TextWindow.PullUpTakesMarginLines | main.js:122-124 | the upward step moves the last 30 lines of the upper text, starting at a newline, or all of it when it has fewer |
| TextWindow.PullUpKeepsWindow | main.js:125-127 | after the upward step the cuts are aligned and the window has fewer than 300 newlines; when the moved chunk and the old window hold at least 300 newlines the window gets exactly 299, otherwise it is left empty and all of that text goes below |
| TextWindow.PullUpLeavesFirstLine | main.js:122-127 | from an upper text with exactly 30 newlines that does not start with one, the upward step leaves only its first line above and, when the old window has at least 270 newlines, cuts the window to 299 |
| TextWindow.PullUpNearStartEmptiesWindow | main.js:122-127 | when the upper text has fewer than 30 newlines and it and the window together fewer than 300, the upward step leaves nothing above and nothing in the window, the whole document below |
| TextWindow.PullDownKeepsDocument | main.js:140-145 | the downward step keeps the document; the new lower is a suffix of the old one and shorter when non-empty; the old upper is a prefix of the new one |
| TextWindow.PullDownTakesMarginLines | main.js:140-142 | the downward step moves the text before the 30th newline of the lower text (29 newlines), leaving the rest starting at a newline, or all of it when it has fewer |
| TextWindow.PullDownKeepsWindow | main.js:143-145 | from aligned cuts the downward step keeps them aligned; the window has at most 300 newlines, exactly 300 starting with one when text was cut off above |
| TextWindow.JumpToStartSlicing | main.js:169-173 | meta+ArrowUp's slicing keeps the document, leaves nothing above, aligns the cuts and fills the window up to the 300th newline, or with the whole document |
| TextWindow.JumpToEndSlicing | main.js:189-193 | meta+ArrowDown's slicing keeps the document, leaves nothing below, aligns the cuts and gives the window the last 300 newlines, or the whole document |
| EditorState.ConstructedValid | main.js:104-110 | a new element is valid, holds exactly the given document and has the selection `(0, 0)` in the window |
| EditorState.UpperIntersectionKeepsValid | main.js:118-134 | the upward callback is a no-op unless the first entry intersects and the upper text is non-empty; it keeps validity, the document and the absolute selection; it moves text only downwards and projects the selection into the window |
| EditorState.LowerIntersectionKeepsValid | main.js:136-152 | the downward callback: the same guards and guarantees, moving text only upwards |
| EditorState.JumpToStartKeepsValid | main.js:163-181 | meta+ArrowUp keeps validity and the document; its textarea selection is the new absolute selection clipped to the window |
| EditorState.JumpToEndKeepsValid | main.js:183-201 | meta+ArrowDown keeps validity and the document; its textarea selection is the new absolute selection clipped to the window |
| EditorState.UpwardStepsEmptyWindow | main.js:118-134 | on a document with 330 newlines that does not start with one, meta+ArrowDown and two upward callbacks give a valid state whose window is empty, with the whole document below |
| TextWindow.InitialCheckedSlicing | main.js:104-107 | the constructor's slicing with the -1 check keeps the document, leaves nothing above, aligns the cuts and shows all of the document's newlines up to 299; a non-empty document never gets an empty window |
| TextWindow.InitialCheckedFixesShortDocument | main.js:104-107 | the check changes the constructor only on documents with fewer than 300 newlines, where the source's window is empty and the checked window is the whole document |
| TextWindow.PullUpCheckedFixesEmptyWindow | main.js:125-127 | the check changes the upward step only where the source's window is empty; there the checked window is the moved chunk followed by the old window, and nothing is added below |
| TextWindow.PullUpCheckedKeepsDocument | main.js:122-127 | the upward step with the -1 check keeps the document and, from aligned cuts, the alignment |
| TextWindow.PullUpCheckedKeepsWindow | main.js:125-127 | with the -1 check the window after the upward step holds the newlines of the moved chunk and the old window up to 299, never fewer than before up to that bound, and is not empty when there was text above |
| EditorState.KeyDownKeepsValid | main.js:154-206 | every key keeps validity and the document; meta+a selects `(0, length)` and keeps the segments; meta+ArrowUp empties the upper text and starts the selection at 0; meta+ArrowDown empties the lower text and ends it at the length; unhandled keys and keys without meta change nothing |
| Virtualized.TextareaVirtualized.constructor | main.js:104-110 | the fields are the initial slicing of the document with selection `(0, 0)`, and the object is valid |
| Virtualized.TextareaVirtualized.UpperIntersectionCallback | main.js:118-134 | the new state is `AfterUpperIntersection` of the old state, and validity is kept |
| Virtualized.TextareaVirtualized.LowerIntersectionCallback | main.js:136-152 | the new state is `AfterLowerIntersection` of the old state, and validity is kept |
| Virtualized.TextareaVirtualized.OnKeyDown | main.js:154-206 | the new state is `AfterKeyDown` of the old state for the key, modifiers and textarea selection, and validity is kept |
| Virtualized.TextareaVirtualized.SelectAll | main.js:156-161 | the absolute selection becomes the whole document and nothing else changes; validity is kept |
| Virtualized.TextareaVirtualized.JumpToDocumentStart | main.js:163-181 | the new state is `AfterJumpToStart` of the old state, and validity is kept |
| Virtualized.TextareaVirtualized.JumpToDocumentEnd | main.js:183-201 | the new state is `AfterJumpToEnd` of the old state, and validity is kept |
| Virtualized.UpperIntersection | main.js:119-132 | the guards, the two searches, the cuts and the clamped selection compute `AfterUpperIntersection` |
| Virtualized.LowerIntersection | main.js:137-150 | the guards, the two searches, the cuts and the clamped selection compute `AfterLowerIntersection` |
| Virtualized.MetaArrowUp | main.js:164-179 | the selection, the search, the cuts and the textarea selection compute `AfterJumpToStart` |
| Virtualized.MetaArrowDown | main.js:184-199 | the selection, the search, the cuts and the textarea selection compute `AfterJumpToEnd` |

## Left out

- Shadow DOM, styles and element construction (main.js:38-99), and `customElements.define`: user-interface plumbing with no effect on the segments.
- IntersectionObserver creation and registration and the keydown listener wiring (main.js:112-115, 211-212): the host calls the handler methods directly.
- Each observer entry is reduced to its `isIntersecting` flag, because that is all the callbacks read.
- All `scrollBy`/`scrollTo` calls, the line-height measurement and the container height: floating-point layout with no effect on the text or the selections.
- Demo document generation and the global DOM write (main.js:9-12): the document is the constructor's parameter.
- User typing into the textarea: the source has no input handler, so edits that change the window are outside what it keeps consistent.
- The browser's reaction to the writes is not modelled. Setting `textarea.value` moves the caret, and the selection setters clamp and reorder their values. The handler never calls `preventDefault`, so the native action of each handled key runs after it: the select-all for meta+a, and the caret move to the start or end of the textarea for meta+ArrowUp and meta+ArrowDown. The model records the values the engine writes.
- Reading `textarea.value` back turns every CR and CRLF into LF; the model stores and reads the window exactly as written. The document-keeping lemmas (`PullUpKeepsDocument`, `PullDownKeepsDocument`, `JumpToStartSlicing`, `JumpToEndSlicing`) and the window bound in `Valid()` therefore hold in a browser only for documents without `'\r'`: with one, an upward step or a jump drops characters from the window, and a lone `'\r'` read back as a newline can push the window past 300 newlines and shift every later offset.
- The searched-for character is a parameter of the helpers; the engine always passes a newline.
- `char` stands for a UTF-16 code unit: JavaScript's `.length` and string offsets count code units, and every length and offset in the model counts `char`s the same way. No proof depends on the alphabet beyond the newline, given the window reads back as written (see the CR line above).
- EditorState.Constructed: the constructor writes no textarea selection; the model takes it as `(0, 0)`. A browser moves the caret to the end of the value when the value is set, so for a long document it would be at the end of the window. `ConstructedValid`'s claim that the textarea shows the absolute selection rests on this choice.
- JavaScript numbers are modelled as unbounded integers, since every offset is a string length far below 2^53.
- Update order inside a handler: each handler computes the new state from a snapshot of its fields and writes all of them at the end. In the source, every field read after a write (the new upper text, the new selection) reads the value just written. The model uses those same new values, so the final state is the same; the intermediate states are not modelled.

## Findings

The class and the transition functions model the code as written. The
corrected definitions below stand beside them, each with the evidently
intended property proved.

| source | as written | input that shows it | evidently intended | confidence | as-written member | corrected member |
|---|---|---|---|---|---|---|
| main.js:104-107 | the constructor passes the -1 of `indexOf` to `substring`, so a document with fewer than 300 newlines gets an empty window and goes entirely below | any non-empty document with fewer than 300 newlines, such as `"a"` | check for -1 as meta+ArrowUp does at main.js:171 and show the whole short document | not executed | TextWindow.InitialCheckedFixesShortDocument | TextWindow.InitialCheckedSlicing |
| main.js:125-126 | the upward step passes the -1 of `indexOf` to `substring`, so when the moved chunk and the old window hold fewer than 300 newlines the window is emptied and everything goes below | a document with 330 newlines not starting with one, then meta+ArrowDown and two upward callbacks | check for -1 as main.js:171 does and keep the chunk and the old window in the window | not executed | EditorState.UpwardStepsEmptyWindow | TextWindow.PullUpCheckedKeepsWindow |
