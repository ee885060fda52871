/**
 The JavaScript `String.prototype` operations the engine calls, with the
 argument clamping the language prescribes. Positions are `int` because the
 engine passes -1 (the "not found" value of its search helpers) straight into
 `substring`, where it is clamped to 0.
 */
module JsString {

  /** `x` clamped into `[0, hi]`, as String methods clamp their position arguments. */
  function Clamp(x: int, hi: nat): (r: nat)
    ensures r <= hi
    ensures 0 <= x <= hi ==> r == x
    ensures x < 0 ==> r == 0
    ensures hi < x ==> r == hi
  {
    if x < 0 then 0 else if x > hi then hi else x
  }

  /** `s.indexOf(c, from)`: the first position at or after `from` (clamped
      into `[0, |s|]`) that holds `c`, or -1 when there is none. */
  function JsIndexOf(s: string, c: char, from: int): (r: int)
    decreases |s| - Clamp(from, |s|)
    ensures r == -1 || Clamp(from, |s|) <= r < |s|
    ensures r != -1 ==> s[r] == c
    ensures forall j :: Clamp(from, |s|) <= j < |s| && (r == -1 || j < r) ==> s[j] != c
  {
    var k := Clamp(from, |s|);
    if k == |s| then -1
    else if s[k] == c then k
    else JsIndexOf(s, c, k + 1)
  }

  /** `s.lastIndexOf(c, from)`: the last position at or before `from` (clamped
      into `[0, |s|]`, so a negative `from` still inspects position 0) that
      holds `c`, or -1 when there is none. */
  function JsLastIndexOf(s: string, c: char, from: int): (r: int)
    decreases Clamp(from, |s|)
    ensures -1 <= r <= Clamp(from, |s|) && r < |s|
    ensures r != -1 ==> s[r] == c
    ensures forall j :: r < j <= Clamp(from, |s|) && j < |s| ==> s[j] != c
  {
    var k := Clamp(from, |s|);
    if k < |s| && s[k] == c then k
    else if k == 0 then -1
    else JsLastIndexOf(s, c, k - 1)
  }

  /** `s.substring(start, end)`: both arguments clamped into `[0, |s|]` and
      swapped when out of order. */
  function JsSubstring(s: string, start: int, end: int): string
  {
    var a, b := Clamp(start, |s|), Clamp(end, |s|);
    if a <= b then s[a..b] else s[b..a]
  }

  /** `s.substring(start)`: everything from `start` (clamped into `[0, |s|]`). */
  function JsSubstringFrom(s: string, start: int): string
  {
    s[Clamp(start, |s|)..]
  }

  /** Cutting at any index, -1 included, loses nothing: the head and the tail
      put back together give the string again; -1 gives an empty head and the
      whole string as tail, an in-range index the plain slices. */
  lemma SplitAt(s: string, i: int)
    ensures JsSubstring(s, 0, i) + JsSubstringFrom(s, i) == s
    ensures i < 0 ==> JsSubstring(s, 0, i) == "" && JsSubstringFrom(s, i) == s
    ensures 0 <= i <= |s| ==> JsSubstring(s, 0, i) == s[..i] && JsSubstringFrom(s, i) == s[i..]
  {
  }
}
