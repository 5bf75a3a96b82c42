/**
 * How far the token- and slice-scanning combinators reach into the
 * remaining text, as functions of that text: `take_while`,
 * `take_while_slice` (a growing slice checked after every token),
 * `take_while_window` (a fixed-size window sliding one token at a time)
 * and `take_until_slice` (up to the first occurrence of a terminator).
 */
module Slices {

  predicate StartsWith(x: seq<char>, t: seq<char>) {
    |t| <= |x| && x[..|t|] == t
  }

  predicate EndsWith(x: seq<char>, t: seq<char>) {
    |t| <= |x| && x[|x| - |t|..] == t
  }

  /** `t` occurs in `rest` starting at index `i`. */
  predicate OccursAt(rest: seq<char>, t: seq<char>, i: nat) {
    i + |t| <= |rest| && rest[i..i + |t|] == t
  }

  /** `t` occurs in `rest` at `i` and nowhere before. */
  ghost predicate FirstAt(rest: seq<char>, t: seq<char>, i: nat) {
    OccursAt(rest, t, i) && forall j :: 0 <= j < i ==> !OccursAt(rest, t, j)
  }

  /** `t` does not occur in `rest`. */
  ghost predicate Absent(rest: seq<char>, t: seq<char>) {
    forall j :: 0 <= j < |rest| ==> !OccursAt(rest, t, j)
  }

  /** The slice predicate `!slice.ends_with(t)`. */
  function NotEndingWith(t: seq<char>): seq<char> -> bool {
    x => !EndsWith(x, t)
  }

  /**
   * Where a run of tokens satisfying `pred` that starts at `p` ends
   * (`take_while`): the first position from `p` on whose token fails
   * `pred`, or the end of the text.
   */
  function RunEnd(s: seq<char>, p: nat, pred: char -> bool): (e: nat)
    ensures p <= e && (p <= |s| ==> e <= |s|) && (p > |s| ==> e == p)
    decreases |s| - p
  {
    if p < |s| && pred(s[p]) then RunEnd(s, p + 1, pred) else p
  }

  /** The run is maximal: every token in it satisfies `pred`, and the token after it, if any, does not. */
  lemma {:induction false} RunEndStops(s: seq<char>, p: nat, pred: char -> bool)
    ensures var e := RunEnd(s, p, pred);
      && (forall i :: p <= i < e ==> pred(s[i]))
      && (e < |s| ==> !pred(s[e]))
    decreases |s| - p
  {
    if p < |s| && pred(s[p]) {
      RunEndStops(s, p + 1, pred);
    }
  }

  /** The two properties of `RunEnd` determine it. */
  lemma {:induction false} RunEndUnique(s: seq<char>, p: nat, pred: char -> bool, e: nat)
    requires p <= e <= |s|
    requires forall i :: p <= i < e ==> pred(s[i])
    requires e < |s| ==> !pred(s[e])
    ensures RunEnd(s, p, pred) == e
    decreases e - p
  {
    if p < e {
      RunEndUnique(s, p + 1, pred, e);
    }
  }

  function SliceRunFrom(rest: seq<char>, pred: seq<char> -> bool, k: nat): (n: nat)
    requires k <= |rest|
    ensures k <= n <= |rest|
    decreases |rest| - k
  {
    if k < |rest| && pred(rest[..k + 1]) then SliceRunFrom(rest, pred, k + 1) else k
  }

  lemma {:induction false} SliceRunFromStops(rest: seq<char>, pred: seq<char> -> bool, k: nat)
    requires k <= |rest|
    ensures var n := SliceRunFrom(rest, pred, k);
      && (forall j :: k < j <= n ==> pred(rest[..j]))
      && (n < |rest| ==> !pred(rest[..n + 1]))
    decreases |rest| - k
  {
    if k < |rest| && pred(rest[..k + 1]) {
      SliceRunFromStops(rest, pred, k + 1);
    }
  }

  /**
   * `take_while_slice`: the length of the longest prefix of `rest` all of
   * whose non-empty prefixes satisfy `pred`; the scan stops before the first
   * prefix that fails.
   */
  function SliceLen(rest: seq<char>, pred: seq<char> -> bool): (n: nat)
    ensures n <= |rest|
  {
    SliceRunFrom(rest, pred, 0)
  }

  /** Every non-empty prefix the scan takes satisfies `pred`, and the next one does not. */
  lemma SliceLenStops(rest: seq<char>, pred: seq<char> -> bool)
    ensures var n := SliceLen(rest, pred);
      && (forall j :: 0 < j <= n ==> pred(rest[..j]))
      && (n < |rest| ==> !pred(rest[..n + 1]))
  {
    SliceRunFromStops(rest, pred, 0);
  }

  /** The two properties of `SliceLen` determine it. */
  lemma SliceLenUnique(rest: seq<char>, pred: seq<char> -> bool, n: nat)
    requires n <= |rest|
    requires forall j :: 0 < j <= n ==> pred(rest[..j])
    requires n < |rest| ==> !pred(rest[..n + 1])
    ensures SliceLen(rest, pred) == n
  {
    SliceLenStops(rest, pred);
    var m := SliceLen(rest, pred);
    if m < |rest| {
      assert !pred(rest[..m + 1]);
    }
    if n < |rest| {
      assert !pred(rest[..n + 1]);
    }
  }

  function FirstFrom(rest: seq<char>, t: seq<char>, k: nat): (n: nat)
    requires k <= |rest|
    ensures k <= n <= |rest|
    decreases |rest| - k
  {
    if k == |rest| || OccursAt(rest, t, k) then k else FirstFrom(rest, t, k + 1)
  }

  lemma {:induction false} FirstFromIsFirst(rest: seq<char>, t: seq<char>, k: nat)
    requires k <= |rest|
    ensures var n := FirstFrom(rest, t, k);
      && (forall i :: k <= i < n ==> !OccursAt(rest, t, i))
      && (n < |rest| ==> OccursAt(rest, t, n))
    decreases |rest| - k
  {
    if k < |rest| && !OccursAt(rest, t, k) {
      FirstFromIsFirst(rest, t, k + 1);
    }
  }

  /**
   * `take_until_slice`: the index of the first occurrence of `t` in `rest`,
   * or `|rest|` when there is none.
   */
  function UntilLen(rest: seq<char>, t: seq<char>): (n: nat)
    ensures n <= |rest|
  {
    FirstFrom(rest, t, 0)
  }

  /** No occurrence of `t` starts before `UntilLen`, and one starts there unless it is the end. */
  lemma UntilLenIsFirst(rest: seq<char>, t: seq<char>)
    ensures var n := UntilLen(rest, t);
      && (forall i :: 0 <= i < n ==> !OccursAt(rest, t, i))
      && (n < |rest| ==> OccursAt(rest, t, n))
  {
    FirstFromIsFirst(rest, t, 0);
  }

  /** The first occurrence is determined by an occurrence with none before it. */
  lemma UntilLenIs(rest: seq<char>, t: seq<char>, i: nat)
    requires OccursAt(rest, t, i)
    requires forall j :: 0 <= j < i ==> !OccursAt(rest, t, j)
    ensures UntilLen(rest, t) == i
  {
    UntilLenIsFirst(rest, t);
  }

  /** A prefix of `rest` of length `j` ends with `t` exactly when `t` occurs at `j - |t|`. */
  lemma EndsWithOccurs(rest: seq<char>, t: seq<char>, j: nat)
    requires j <= |rest|
    ensures EndsWith(rest[..j], t) <==> (|t| <= j && OccursAt(rest, t, j - |t|))
  {
    if |t| <= j {
      assert rest[..j][j - |t|..] == rest[j - |t|..j];
    }
  }

  /**
   * `take_while_slice(|s| !s.ends_with(t))` stops one token before the first
   * occurrence of `t` completes: it takes the text before that occurrence
   * and all of `t` but its last token. With no occurrence it takes everything.
   */
  lemma {:induction false} TakeUntilStrStops(rest: seq<char>, t: seq<char>)
    requires |t| > 0
    ensures var i := UntilLen(rest, t);
      && (OccursAt(rest, t, i) ==> SliceLen(rest, NotEndingWith(t)) == i + |t| - 1)
      && (!OccursAt(rest, t, i) ==> SliceLen(rest, NotEndingWith(t)) == |rest|)
  {
    var i := UntilLen(rest, t);
    UntilLenIsFirst(rest, t);
    var pred := NotEndingWith(t);
    var n := if OccursAt(rest, t, i) then i + |t| - 1 else |rest|;
    forall j | 0 < j <= n
      ensures pred(rest[..j])
    {
      EndsWithOccurs(rest, t, j);
      if |t| <= j {
        assert j - |t| < i;
      }
    }
    if n < |rest| {
      EndsWithOccurs(rest, t, n + 1);
    }
    SliceLenUnique(rest, pred, n);
  }

  /** The window of `w` tokens of `rest` that starts at index `j`. */
  function Window(rest: seq<char>, j: nat, w: nat): seq<char>
    requires j + w <= |rest|
  {
    rest[j..j + w]
  }

  function WindowRunFrom(rest: seq<char>, w: nat, pred: seq<char> -> bool, i: nat): (n: nat)
    requires w > 0 && i + w <= |rest| + 1
    ensures i <= n && n + w <= |rest| + 1
    decreases |rest| - i
  {
    if i + w <= |rest| && pred(Window(rest, i, w)) then WindowRunFrom(rest, w, pred, i + 1) else i
  }

  lemma {:induction false} WindowRunFromStops(rest: seq<char>, w: nat, pred: seq<char> -> bool, i: nat)
    requires w > 0 && i + w <= |rest| + 1
    ensures var n := WindowRunFrom(rest, w, pred, i);
      && (forall j :: i <= j < n ==> pred(Window(rest, j, w)))
      && (n + w <= |rest| ==> !pred(Window(rest, n, w)))
    decreases |rest| - i
  {
    if i + w <= |rest| && pred(Window(rest, i, w)) {
      WindowRunFromStops(rest, w, pred, i + 1);
    }
  }

  /**
   * `take_while_window(w, pred)`: with fewer than `w` tokens left it takes
   * them all; otherwise it takes one token for every full window, starting
   * at that token, that satisfies `pred`, and stops at the first that does
   * not or when no full window is left.
   */
  function WindowLen(rest: seq<char>, w: nat, pred: seq<char> -> bool): (n: nat)
    requires w > 0
    ensures n <= |rest|
    ensures |rest| < w ==> n == |rest|
    ensures |rest| >= w ==> n + w <= |rest| + 1
  {
    if |rest| < w then |rest| else WindowRunFrom(rest, w, pred, 0)
  }

  /** With a full window left, every window the scan passes satisfies `pred`, and the one it stops at does not. */
  lemma WindowLenStops(rest: seq<char>, w: nat, pred: seq<char> -> bool)
    requires w > 0 && |rest| >= w
    ensures var n := WindowLen(rest, w, pred);
      && (forall j :: 0 <= j < n ==> pred(Window(rest, j, w)))
      && (n + w <= |rest| ==> !pred(Window(rest, n, w)))
  {
    WindowRunFromStops(rest, w, pred, 0);
  }

  /** The properties of `WindowLen` determine it. */
  lemma WindowLenUnique(rest: seq<char>, w: nat, pred: seq<char> -> bool, n: nat)
    requires w > 0 && |rest| >= w && n + w <= |rest| + 1
    requires forall j :: 0 <= j < n ==> pred(Window(rest, j, w))
    requires n + w <= |rest| ==> !pred(Window(rest, n, w))
    ensures WindowLen(rest, w, pred) == n
  {
    WindowLenStops(rest, w, pred);
    var m := WindowLen(rest, w, pred);
    if m + w <= |rest| {
      assert !pred(Window(rest, m, w));
    }
    if n + w <= |rest| {
      assert !pred(Window(rest, n, w));
    }
  }

  /**
   * A window that always passes still stops when no full window is left:
   * the last `w - 1` tokens are not taken.
   */
  lemma WindowLeavesTail(rest: seq<char>, w: nat, pred: seq<char> -> bool)
    requires w > 0 && |rest| >= w
    requires forall j :: 0 <= j <= |rest| - w ==> pred(Window(rest, j, w))
    ensures WindowLen(rest, w, pred) == |rest| - w + 1
  {
    WindowLenStops(rest, w, pred);
  }

  /** The window predicate `|window| window != t`. */
  function WindowIsNot(t: seq<char>): seq<char> -> bool {
    x => x != t
  }

  /**
   * Searching for `t` with a sliding window of `|t|` tokens agrees with
   * `take_until_slice` whenever `t` occurs in the text.
   */
  lemma {:induction false} WindowFindsFirstOccurrence(rest: seq<char>, t: seq<char>)
    requires |t| > 0 && OccursAt(rest, t, UntilLen(rest, t))
    ensures WindowLen(rest, |t|, WindowIsNot(t)) == UntilLen(rest, t)
  {
    var i := UntilLen(rest, t);
    UntilLenIsFirst(rest, t);
    forall j | 0 <= j < i
      ensures WindowIsNot(t)(Window(rest, j, |t|))
    {
      assert !OccursAt(rest, t, j);
    }
    WindowLenUnique(rest, |t|, WindowIsNot(t), i);
  }

  /**
   * Without an occurrence the two differ once `t` has two or more tokens:
   * the window search leaves the last `|t| - 1` tokens behind.
   */
  lemma {:induction false} WindowMissesTail(rest: seq<char>, t: seq<char>)
    requires |t| > 0 && |rest| >= |t| && UntilLen(rest, t) == |rest|
    ensures WindowLen(rest, |t|, WindowIsNot(t)) == |rest| - |t| + 1
  {
    UntilLenIsFirst(rest, t);
    forall j | 0 <= j <= |rest| - |t|
      ensures WindowIsNot(t)(Window(rest, j, |t|))
    {
      assert !OccursAt(rest, t, j);
    }
    WindowLeavesTail(rest, |t|, WindowIsNot(t));
  }
}
