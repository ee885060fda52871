/**
 The two search helpers of main.js, `indexOf(text, target, count)` and
 `lastIndexOf(text, target, count)`, which find the count-th occurrence of
 `target` scanning forward from the start or backward from the end by
 repeated calls to the String built-ins. Each is a loop method proved equal to
 a reference function; the reference functions are characterised by
 occurrence counts.
 */
module LineIndex {
  import opened JsString

  /** Number of occurrences of `c` in `s`. */
  function Count(s: string, c: char): nat
  {
    if s == [] then 0 else (if s[0] == c then 1 else 0) + Count(s[1..], c)
  }

  /** Occurrences in a concatenation add up. */
  lemma {:induction false} CountConcat(a: string, b: string, c: char)
    ensures Count(a + b, c) == Count(a, c) + Count(b, c)
  {
    if a == [] {
      assert a + b == b;
    } else {
      assert (a + b)[1..] == a[1..] + b;
      CountConcat(a[1..], b, c);
    }
  }

  lemma CountSplit(s: string, c: char, i: nat)
    requires i <= |s|
    ensures Count(s, c) == Count(s[..i], c) + Count(s[i..], c)
  {
    assert s == s[..i] + s[i..];
    CountConcat(s[..i], s[i..], c);
  }

  lemma CountedPresent(s: string, c: char, k: nat)
    requires k < |s|
    ensures s[k] == c ==> Count(s, c) >= 1
  {
    CountSplit(s, c, k);
    assert s[k..][0] == s[k];
  }

  /** A stretch without `c` holds no occurrence of it. */
  lemma {:induction false} NoneBetween(s: string, c: char, a: nat, b: nat)
    requires a <= b <= |s|
    requires forall j :: a <= j < b ==> s[j] != c
    ensures Count(s[a..b], c) == 0
    decreases b - a
  {
    if a < b {
      assert s[a..b][1..] == s[a + 1..b];
      NoneBetween(s, c, a + 1, b);
    }
  }

  /** An occurrence of `c` at `x` before `y` is one more occurrence in `s[..y]`
      than in `s[..x]`, and one more in `s[x..]` than in `s[y..]`. */
  lemma CountStrict(s: string, c: char, x: nat, y: nat)
    requires x < |s| && y <= |s|
    ensures x < y && s[x] == c ==> Count(s[..x], c) < Count(s[..y], c)
    ensures x < y && s[x] == c ==> Count(s[y..], c) < Count(s[x..], c)
  {
    if x < y && s[x] == c {
      assert s[..y] == s[..x] + s[x..y];
      assert s[x..] == s[x..y] + s[y..];
      CountConcat(s[..x], s[x..y], c);
      CountConcat(s[x..y], s[y..], c);
      CountedPresent(s[x..y], c, 0);
    }
  }

  /** Two occurrences with as many occurrences before them are the same one. */
  lemma PrefixCountDetermines(s: string, c: char, x: nat, y: nat)
    requires x < |s| && y < |s| && s[x] == c && s[y] == c
    requires Count(s[..x], c) == Count(s[..y], c)
    ensures x == y
  {
    CountStrict(s, c, x, y);
    CountStrict(s, c, y, x);
  }

  /** Two occurrences with as many occurrences from them to the end are the same one. */
  lemma SuffixCountDetermines(s: string, c: char, x: nat, y: nat)
    requires x < |s| && y < |s| && s[x] == c && s[y] == c
    requires Count(s[x..], c) == Count(s[y..], c)
    ensures x == y
  {
    CountStrict(s, c, x, y);
    CountStrict(s, c, y, x);
  }

  /** Position of the n-th occurrence of `c` counted from the start, or -1
      when `s` holds fewer than `n` of them (and for `n == 0`); characterised
      by `NthFromStartSpec`. */
  function NthFromStart(s: string, c: char, n: nat): (r: int)
    decreases |s|
    ensures -1 <= r < |s|
  {
    if n == 0 || s == [] then -1
    else if s[0] == c && n == 1 then 0
    else
      var r := NthFromStart(s[1..], c, if s[0] == c then n - 1 else n);
      if r == -1 then -1 else r + 1
  }

  /** The result is -1 exactly when there are fewer than `n` occurrences (or
      `n` is 0); otherwise it holds `c` and has `n - 1` occurrences before it. */
  lemma {:induction false} NthFromStartSpec(s: string, c: char, n: nat)
    decreases |s|
    ensures var r := NthFromStart(s, c, n);
      (r == -1 <==> n == 0 || Count(s, c) < n) &&
      (r != -1 ==> s[r] == c && Count(s[..r], c) == n - 1)
  {
    if n != 0 && s != [] && !(s[0] == c && n == 1) {
      var m := if s[0] == c then n - 1 else n;
      NthFromStartSpec(s[1..], c, m);
      var r := NthFromStart(s[1..], c, m);
      if r != -1 {
        assert s[..r + 1][1..] == s[1..][..r];
      }
    }
  }

  /** Position of the n-th occurrence of `c` counted back from the end, or -1
      when `s` holds fewer than `n` of them (and for `n == 0`); characterised
      by `NthFromEndSpec`. */
  function NthFromEnd(s: string, c: char, n: nat): (r: int)
    decreases |s|
    ensures -1 <= r < |s|
  {
    if n == 0 || s == [] then -1
    else if s[|s| - 1] == c && n == 1 then |s| - 1
    else NthFromEnd(s[..|s| - 1], c, if s[|s| - 1] == c then n - 1 else n)
  }

  /** The result is -1 exactly when there are fewer than `n` occurrences (or
      `n` is 0); otherwise it holds `c` and starts a suffix with `n` of them. */
  lemma {:induction false} NthFromEndSpec(s: string, c: char, n: nat)
    decreases |s|
    ensures var r := NthFromEnd(s, c, n);
      (r == -1 <==> n == 0 || Count(s, c) < n) &&
      (r != -1 ==> s[r] == c && Count(s[r..], c) == n)
  {
    if n != 0 && s != [] {
      var init := s[..|s| - 1];
      assert s == init + [s[|s| - 1]];
      CountConcat(init, [s[|s| - 1]], c);
      if !(s[|s| - 1] == c && n == 1) {
        var m := if s[|s| - 1] == c then n - 1 else n;
        NthFromEndSpec(init, c, m);
        var r := NthFromEnd(init, c, m);
        if r != -1 {
          assert s[r..] == init[r..] + [s[|s| - 1]];
          CountConcat(init[r..], [s[|s| - 1]], c);
        }
      }
    }
  }

  /** What the backward helper returns. With at least `n` occurrences it is the
      n-th from the end. With fewer, the scan reaches the first occurrence and
      asks `lastIndexOf` for a position before it; when that occurrence is at
      position 0 the position -1 is clamped back to 0, the same occurrence is
      found again on every remaining round and the result is 0 instead of -1. */
  function BackwardScan(s: string, c: char, n: nat): int
  {
    if n == 0 then |s|
    else if Count(s, c) >= n then NthFromEnd(s, c, n)
    else if |s| > 0 && s[0] == c then 0
    else -1
  }

  /** One forward round: the first occurrence after `p` (or -1). */
  lemma ScanAfter(s: string, c: char, p: int)
    requires -1 <= p < |s|
    ensures var q := JsIndexOf(s, c, p + 1);
      (q == -1 ==> Count(s[p + 1..], c) == 0) &&
      (q != -1 ==> p < q && s[q] == c && Count(s[..q], c) == Count(s[..p + 1], c))
  {
    var q := JsIndexOf(s, c, p + 1);
    if q == -1 {
      NoneBetween(s, c, p + 1, |s|);
      assert s[p + 1..] == s[p + 1..|s|];
    } else {
      NoneBetween(s, c, p + 1, q);
      assert s[..q] == s[..p + 1] + s[p + 1..q];
      CountConcat(s[..p + 1], s[p + 1..q], c);
    }
  }

  /** One backward round from `p >= 1`: the last occurrence before `p` (or -1). */
  lemma ScanBefore(s: string, c: char, p: nat)
    requires 1 <= p <= |s|
    ensures var q := JsLastIndexOf(s, c, p - 1);
      (q == -1 ==> Count(s[..p], c) == 0) &&
      (q != -1 ==> q < p && s[q] == c && Count(s[q..], c) == Count(s[p..], c) + 1)
  {
    var q := JsLastIndexOf(s, c, p - 1);
    if q == -1 {
      NoneBetween(s, c, 0, p);
      assert s[..p] == s[0..p];
    } else {
      NoneBetween(s, c, q + 1, p);
      assert s[q..] == [s[q]] + (s[q + 1..p] + s[p..]);
      CountConcat(s[q + 1..p], s[p..], c);
    }
  }

  /** The (i+1)-th occurrence is the first one after the i-th (after position
      -1 when `i == 0`): one round of the forward helper's loop. */
  lemma ForwardStep(s: string, c: char, i: nat)
    requires i == 0 || NthFromStart(s, c, i) != -1
    ensures NthFromStart(s, c, i + 1) == JsIndexOf(s, c, NthFromStart(s, c, i) + 1)
  {
    ForwardCount(s, c, i);
    if JsIndexOf(s, c, NthFromStart(s, c, i) + 1) == -1 {
      ForwardStepRunsOut(s, c, i);
    } else {
      ForwardStepFinds(s, c, i);
    }
  }

  /** Up to and including the i-th occurrence there are exactly `i`. */
  lemma ForwardCount(s: string, c: char, i: nat)
    requires i == 0 || NthFromStart(s, c, i) != -1
    ensures -1 <= NthFromStart(s, c, i) < |s|
    ensures Count(s[..NthFromStart(s, c, i) + 1], c) == i
  {
    var p := NthFromStart(s, c, i);
    NthFromStartSpec(s, c, i);
    if i > 0 {
      assert s[..p + 1] == s[..p] + [s[p]];
      CountConcat(s[..p], [s[p]], c);
    }
  }

  /** No occurrence after the i-th: there is no (i+1)-th. */
  lemma ForwardStepRunsOut(s: string, c: char, i: nat)
    requires -1 <= NthFromStart(s, c, i) < |s|
    requires Count(s[..NthFromStart(s, c, i) + 1], c) == i
    requires JsIndexOf(s, c, NthFromStart(s, c, i) + 1) == -1
    ensures NthFromStart(s, c, i + 1) == -1
  {
    var p := NthFromStart(s, c, i);
    NthFromStartSpec(s, c, i + 1);
    ScanAfter(s, c, p);
    CountSplit(s, c, p + 1);
  }

  /** The first occurrence after the i-th is preceded by exactly `i`, so it
      is the (i+1)-th. */
  lemma ForwardStepFinds(s: string, c: char, i: nat)
    requires -1 <= NthFromStart(s, c, i) < |s|
    requires Count(s[..NthFromStart(s, c, i) + 1], c) == i
    requires JsIndexOf(s, c, NthFromStart(s, c, i) + 1) != -1
    ensures NthFromStart(s, c, i + 1) == JsIndexOf(s, c, NthFromStart(s, c, i) + 1)
  {
    var p := NthFromStart(s, c, i);
    var q := JsIndexOf(s, c, p + 1);
    NthFromStartSpec(s, c, i + 1);
    ScanAfter(s, c, p);
    CountSplit(s, c, q);
    CountedPresent(s[q..], c, 0);
    PrefixCountDetermines(s, c, NthFromStart(s, c, i + 1), q);
  }

  /** One round of the backward helper's loop, re-count at position 0 included. */
  lemma BackwardStep(s: string, c: char, i: nat)
    requires BackwardScan(s, c, i) != -1
    ensures BackwardScan(s, c, i + 1) == JsLastIndexOf(s, c, BackwardScan(s, c, i) - 1)
  {
    if BackwardScan(s, c, i) == 0 {
      BackwardStepAtStart(s, c, i);
    } else {
      BackwardStepInside(s, c, i);
    }
  }

  /** The round from position 0: `lastIndexOf` at the clamped -1 finds position
      0 again, which is the next result too. */
  lemma BackwardStepAtStart(s: string, c: char, i: nat)
    requires BackwardScan(s, c, i) == 0
    ensures BackwardScan(s, c, i + 1) == JsLastIndexOf(s, c, -1)
  {
    NthFromEndSpec(s, c, i);
    NthFromEndSpec(s, c, i + 1);
    if |s| > 0 {
      CountedPresent(s, c, 0);
    }
    if i > 0 {
      assert s[0..] == s;
    }
  }

  /** The round from a position inside the text: the last occurrence before it
      is the next one from the end, or there is none. */
  lemma BackwardStepInside(s: string, c: char, i: nat)
    requires BackwardScan(s, c, i) > 0
    ensures BackwardScan(s, c, i + 1) == JsLastIndexOf(s, c, BackwardScan(s, c, i) - 1)
  {
    var p := BackwardScan(s, c, i);
    var q := JsLastIndexOf(s, c, p - 1);
    NthFromEndSpec(s, c, i);
    NthFromEndSpec(s, c, i + 1);
    ScanBefore(s, c, p);
    CountSplit(s, c, p);
    if q == -1 {
      if |s| > 0 {
        CountedPresent(s, c, 0);
      }
      CountedPresent(s[..p], c, 0);
    } else {
      CountSplit(s, c, q);
      SuffixCountDetermines(s, c, NthFromEnd(s, c, i + 1), q);
    }
  }

  /** Once the backward scan has run out it stays out for larger counts. */
  lemma BackwardScanStaysGone(s: string, c: char, j: nat, k: nat)
    requires 1 <= j <= k && BackwardScan(s, c, j) == -1
    ensures BackwardScan(s, c, k) == -1
  {
    NthFromEndSpec(s, c, j);
    NthFromEndSpec(s, c, k);
  }

  /** `indexOf` (main.js): the position of the count-th `target`, scanning
      from the start with `String.indexOf`, or -1 as soon as the text runs out. */
  method IndexOf(text: string, target: char, count: nat) returns (index: int)
    ensures index == NthFromStart(text, target, count)
  {
    index := -1;
    for i := 0 to count
      invariant index == NthFromStart(text, target, i)
      invariant i > 0 ==> index != -1
    {
      ForwardStep(text, target, i);
      index := JsIndexOf(text, target, index + 1);
      if index == -1 {
        NthFromStartSpec(text, target, i + 1);
        NthFromStartSpec(text, target, count);
        return -1;
      }
    }
  }

  /** `lastIndexOf` (main.js): the count-th `target` scanning back from the
      end with `String.lastIndexOf`, or -1 as soon as the text runs out. */
  method LastIndexOf(text: string, target: char, count: nat) returns (index: int)
    ensures index == BackwardScan(text, target, count)
  {
    index := |text|;
    for i := 0 to count
      invariant index == BackwardScan(text, target, i)
      invariant index != -1
    {
      BackwardStep(text, target, i);
      index := JsLastIndexOf(text, target, index - 1);
      if index == -1 {
        BackwardScanStaysGone(text, target, i + 1, count);
        return -1;
      }
    }
  }

  /** The backward helper is exact whenever there are enough occurrences: it
      returns -1 only when there are fewer than `n`, and then the only other
      possible result is the re-counted position 0. */
  lemma BackwardScanExact(s: string, c: char, n: nat)
    requires n > 0
    ensures Count(s, c) >= n ==> BackwardScan(s, c, n) == NthFromEnd(s, c, n) != -1
    ensures Count(s, c) < n ==> BackwardScan(s, c, n) in {-1, 0}
    ensures BackwardScan(s, c, n) == 0 && Count(s, c) < n ==> s[0] == c
  {
    NthFromEndSpec(s, c, n);
  }

  /** The re-count at position 0 is harmless to every caller: cutting the text
      at the helper's result with `substring` gives the same two pieces as
      cutting it at the exact answer (-1 when there are fewer than `n`). */
  lemma RecountHarmless(s: string, c: char, n: nat)
    requires n > 0
    ensures JsSubstring(s, 0, BackwardScan(s, c, n)) == JsSubstring(s, 0, NthFromEnd(s, c, n))
    ensures JsSubstringFrom(s, BackwardScan(s, c, n)) == JsSubstringFrom(s, NthFromEnd(s, c, n))
  {
    var b, e := BackwardScan(s, c, n), NthFromEnd(s, c, n);
    BackwardScanExact(s, c, n);
    if b != e {
      NthFromEndSpec(s, c, n);
      SplitAt(s, b);
      SplitAt(s, e);
    }
  }
}
