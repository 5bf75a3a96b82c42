/**
 * The terminator parsers of lib/tests/parsers.rs and the expectations their
 * tests state: `take_until_str` (a growing slice that stops one token before
 * the terminator completes), `take_until_and_str` (the same, then the rest
 * of the terminator is skipped and trimmed), `take_until_slice` through
 * `test_until_window`, the window-termination facts, and extents over a
 * cursor input.
 */
module ParserTests {
  import opened Engine
  import opened Slices
  import opened Parsers

  type Parse<T> = (seq<char>, nat) -> Reply<T>

  const TakeUntilStrInfo := ParserInfo("take_until_str", false)
  const TestUntilInfo := ParserInfo("test_until", false)
  const TakeUntilAndStrInfo := ParserInfo("take_until_and_str", false)
  const TestUntilAndInfo := ParserInfo("test_until_and", false)
  const TestUntilWindowInfo := ParserInfo("test_until_window", false)
  const TakeUntilCursorStrInfo := ParserInfo("take_until_cursor_str", false)

  // ------------------------------------------------------------- test texts

  /** The text of the first `test_while_slice*` cases: `]]` first occurs at its end. */
  lemma DoubleBracketText()
    ensures FirstAt("[[ a ] b c ]]", "]]", 11)
  {
    var s := "[[ a ] b c ]]";
    forall j | 0 <= j < 11 ensures !OccursAt(s, "]]", j) {
      assert s[j..j + 2][0] == s[j] && s[j..j + 2][1] == s[j + 1];
    }
    assert s[11..13] == "]]";
  }

  /** The text of the second cases: `]]` occurs early, but `]]]` only at 12. */
  lemma TripleBracketText()
    ensures FirstAt("[[ a ]] b c ]]] hi", "]]]", 12)
  {
    var s := "[[ a ]] b c ]]] hi";
    forall j | 0 <= j < 12 ensures !OccursAt(s, "]]]", j) {
      assert s[j..j + 3][0] == s[j] && s[j..j + 3][1] == s[j + 1] && s[j..j + 3][2] == s[j + 2];
    }
    assert s[12..15] == "]]]";
  }

  /** A one-token terminator first occurs where its token does, when no earlier token is it. */
  lemma TokenFirstAt(s: seq<char>, c: char, i: nat)
    requires i < |s| && s[i] == c && forall j :: 0 <= j < i ==> s[j] != c
    ensures FirstAt(s, [c], i)
  {
    forall j | 0 <= j < i ensures !OccursAt(s, [c], j) {
      assert s[j..j + 1][0] == s[j];
    }
    assert s[i..i + 1] == [c];
  }

  /** A one-token terminator is absent from a text none of whose tokens is it. */
  lemma TokenAbsent(s: seq<char>, c: char)
    requires forall j :: 0 <= j < |s| ==> s[j] != c
    ensures Absent(s, [c])
  {
    forall j | 0 <= j < |s| ensures !OccursAt(s, [c], j) {
      assert s[j..j + 1][0] == s[j];
    }
  }

  // ---------------------------------------------------------- take_until_str

  function TakeUntilStrSpec(s: seq<char>, p: nat, t: seq<char>): Reply<seq<char>> {
    Wrap(TakeUntilStrInfo, Plain, (s: seq<char>, p: nat) => Try(TakeWhileSliceSpec(s, p, NotEndingWith(t))), s, p)
  }

  function TakeUntilStrParser(t: seq<char>): Parse<seq<char>> {
    (s: seq<char>, p: nat) => TakeUntilStrSpec(s, p, t)
  }

  /**
   * `take_until_str(t)` never fails and returns the text it consumed. It
   * stops one token before the first occurrence of `t` completes, so the
   * last token of `t` is still there to be eaten; with no occurrence it
   * takes everything, and with an empty `t` nothing.
   */
  lemma TakeUntilStrStopsBefore(s: seq<char>, p: nat, t: seq<char>)
    requires p <= |s|
    ensures var r := TakeUntilStrSpec(s, p, t); var i := UntilLen(s[p..], t);
      && r.result.Ok? && p <= r.pos <= |s| && r.result.value == s[p..r.pos]
      && (t == [] ==> r.pos == p)
      && (|t| > 0 && OccursAt(s[p..], t, i) ==> r.pos == p + i + |t| - 1 && s[r.pos] == t[|t| - 1])
      && (|t| > 0 && !OccursAt(s[p..], t, i) ==> r.pos == |s|)
  {
    var rest := s[p..];
    var n := SliceLen(rest, NotEndingWith(t));
    assert rest[..n] == s[p..p + n];
    if t == [] {
      SliceLenUnique(rest, NotEndingWith(t), 0);
    } else {
      TakeUntilStrStops(rest, t);
      var i := UntilLen(rest, t);
      if OccursAt(rest, t, i) {
        assert rest[i..i + |t|][|t| - 1] == s[p + i + |t| - 1];
      }
    }
  }

  method TakeUntilStr(inp: Input, t: seq<char>) returns (r: Result<seq<char>>)
    requires inp.Valid()
    modifies inp
    ensures inp.Valid()
    ensures Reply(r, inp.pos) == TakeUntilStrSpec(inp.s, old(inp.pos), t)
    ensures inp.log == old(inp.log) + [Marked(TakeUntilStrInfo, old(inp.pos)), Unmarked(TakeUntilStrInfo, r.Ok?)]
  {
    var m := inp.Mark(TakeUntilStrInfo);
    var slice := TakeWhileSlice(inp, NotEndingWith(t));
    r := Finish(inp, TakeUntilStrInfo, Plain, m, slice);
  }

  // ------------------------------------------- (first(..)?, eat_slice(r)?).0

  /** The body `(first(..)?, eat_slice(r)?).0` shared by the three `test_until` parsers. */
  function ThenEatSlice(first: Parse<seq<char>>, r: seq<char>): Body<seq<char>> {
    (s: seq<char>, p: nat) =>
      var a := first(s, p);
      if a.result.Err? then Try(a)
      else
        var b := EatSliceSpec(s, a.pos, r);
        if b.result.Err? then Try(b) else BodyOut(Bare(a.result.value), b.pos)
  }

  /**
   * A `test_until` parser returns what `first` returned exactly when `r`
   * follows it, and then has consumed `r` as well; otherwise it fails where
   * `first` stopped (or where `first` failed) with its own context last.
   */
  lemma ThenEatSliceReturns(info: ParserInfo, first: Parse<seq<char>>, r: seq<char>, s: seq<char>, p: nat)
    ensures var a := first(s, p); var out := Wrap(info, Plain, ThenEatSlice(first, r), s, p);
      && (a.result.Err? ==> out.result.Err? && out.pos == a.pos && out.result.error.cause == a.result.error.cause)
      && (a.result.Ok? ==>
            && (out.result.Ok? <==> StartsWith(Rest(s, a.pos), r))
            && (out.result.Ok? ==> out.result.value == a.result.value && out.pos == a.pos + |r|)
            && (out.result.Err? ==>
                  && out.pos == a.pos
                  && out.result.error.trace == [(Context(p, a.pos), info)]))
  {
  }

  function TestUntilSpec(s: seq<char>, p: nat, t: seq<char>, r: seq<char>): Reply<seq<char>> {
    Wrap(TestUntilInfo, Plain, ThenEatSlice(TakeUntilStrParser(t), r), s, p)
  }

  method TestUntil(inp: Input, t: seq<char>, r: seq<char>) returns (out: Result<seq<char>>)
    requires inp.Valid()
    modifies inp
    ensures inp.Valid()
    ensures Reply(out, inp.pos) == TestUntilSpec(inp.s, old(inp.pos), t, r)
    ensures Bracketed(old(inp.log), inp.log, TestUntilInfo, old(inp.pos), out.Ok?)
  {
    var m := inp.Mark(TestUntilInfo);
    ghost var p := inp.pos;
    var res: Result<seq<char>>;
    var a := TakeUntilStr(inp, t);
    assert Reply(a, inp.pos) == TakeUntilStrSpec(inp.s, p, t);
    if a.Err? {
      res := a;
    } else {
      ghost var q := inp.pos;
      var b := EatSlice(inp, r);
      assert Reply(b, inp.pos) == EatSliceSpec(inp.s, q, r);
      assert TakeUntilStrParser(t)(inp.s, p) == Reply(a, q);
      res := if b.Err? then b else Ok(a.value);
    }
    assert ThenEatSlice(TakeUntilStrParser(t), r)(inp.s, p) == BodyOut(if res.Ok? then Bare(res.value) else Full(res), inp.pos);
    out := Finish(inp, TestUntilInfo, Plain, m, res);
  }

  /**
   * `test_until(t, r)` returns the text `take_until_str(t)` took exactly when
   * `r` follows it: after the first occurrence of `t` less its last token.
   */
  lemma TestUntilReturns(s: seq<char>, p: nat, t: seq<char>, r: seq<char>)
    requires p <= |s| && |t| > 0 && OccursAt(s[p..], t, UntilLen(s[p..], t))
    ensures var out := TestUntilSpec(s, p, t, r); var e := p + UntilLen(s[p..], t) + |t| - 1;
      && e < |s|
      && (out.result.Ok? <==> StartsWith(s[e..], r))
      && (out.result.Ok? ==> out.result.value == s[p..e] && out.pos == e + |r|)
  {
    var a := TakeUntilStrSpec(s, p, t);
    TakeUntilStrStopsBefore(s, p, t);
    assert TakeUntilStrParser(t)(s, p) == a;
    ThenEatSliceReturns(TestUntilInfo, TakeUntilStrParser(t), r, s, p);
  }

  /** With no occurrence of `t`, `test_until(t, r)` returns the whole text exactly when `r` is empty. */
  lemma TestUntilReturnsAll(s: seq<char>, p: nat, t: seq<char>, r: seq<char>)
    requires p <= |s| && |t| > 0 && !OccursAt(s[p..], t, UntilLen(s[p..], t))
    ensures var out := TestUntilSpec(s, p, t, r);
      && (out.result.Ok? <==> r == [])
      && (out.result.Ok? ==> out.result.value == s[p..] && out.pos == |s|)
  {
    var a := TakeUntilStrSpec(s, p, t);
    TakeUntilStrStopsBefore(s, p, t);
    assert TakeUntilStrParser(t)(s, p) == a;
    ThenEatSliceReturns(TestUntilInfo, TakeUntilStrParser(t), r, s, p);
  }

  /** `test_until` on a text whose first occurrence of `t` is at `i`, followed by `r` less `t`'s last token. */
  lemma TestUntilFirstAt(s: seq<char>, t: seq<char>, r: seq<char>, i: nat)
    requires |t| > 0 && FirstAt(s, t, i)
    requires StartsWith(s[i + |t| - 1..], r)
    ensures TestUntilSpec(s, 0, t, r).result == Ok(s[..i + |t| - 1])
    ensures TestUntilSpec(s, 0, t, r).pos == i + |t| - 1 + |r|
  {
    UntilLenIs(s, t, i);
    assert s[0..] == s;
    TestUntilReturns(s, 0, t, r);
  }

  function TestUntilParser(t: seq<char>, r: seq<char>): Parse<seq<char>> {
    (s: seq<char>, p: nat) => TestUntilSpec(s, p, t, r)
  }

  /**
   * `parse!(test_until(t, r): s)` with `t` first at `i` and `r` all that
   * follows `t` less its last token: the text up to there, and the end of
   * input is reached.
   */
  lemma ParseTestUntilAt(s: seq<char>, t: seq<char>, r: seq<char>, i: nat)
    requires |t| > 0 && FirstAt(s, t, i) && s[i + |t| - 1..] == r
    ensures TestUntilSpec(s, 0, t, r).result == Ok(s[..i + |t| - 1])
    ensures ParseSpec(TestUntilParser(t, r), s) == Ok(s[..i + |t| - 1])
  {
    assert r[..|r|] == r;
    TestUntilFirstAt(s, t, r, i);
    assert TestUntilParser(t, r)(s, 0) == TestUntilSpec(s, 0, t, r);
  }

  /** `test_while_slice`, first case: the second `]` of `]]` is left for `eat_slice`. */
  lemma TestWhileSliceDouble()
    ensures TestUntilSpec("[[ a ] b c ]]", 0, "]]", "]").result == Ok("[[ a ] b c ]")
    ensures ParseSpec(TestUntilParser("]]", "]"), "[[ a ] b c ]]") == Ok("[[ a ] b c ]")
  {
    var s := "[[ a ] b c ]]";
    DoubleBracketText();
    assert s[12..] == "]";
    ParseTestUntilAt(s, "]]", "]", 11);
    assert s[..12] == "[[ a ] b c ]";
  }

  /** `test_while_slice`, second case: `]]` inside the text does not stop a `]]]` search. */
  lemma TestWhileSliceTriple()
    ensures TestUntilSpec("[[ a ]] b c ]]] hi", 0, "]]]", "] hi").result == Ok("[[ a ]] b c ]]")
    ensures ParseSpec(TestUntilParser("]]]", "] hi"), "[[ a ]] b c ]]] hi") == Ok("[[ a ]] b c ]]")
  {
    var s := "[[ a ]] b c ]]] hi";
    TripleBracketText();
    assert s[14..] == "] hi";
    ParseTestUntilAt(s, "]]]", "] hi", 12);
    assert s[..14] == "[[ a ]] b c ]]";
  }

  /** `test_while_slice`, third case: a one-token terminator is not consumed at all. */
  lemma TestWhileSliceSingle()
    ensures TestUntilSpec("[[ a ]] b c ]]]", 0, "]", "]] b c ]]]").result == Ok("[[ a ")
    ensures ParseSpec(TestUntilParser("]", "]] b c ]]]"), "[[ a ]] b c ]]]") == Ok("[[ a ")
  {
    var s := "[[ a ]] b c ]]]";
    TokenFirstAt(s, ']', 5);
    assert s[5..] == "]] b c ]]]";
    ParseTestUntilAt(s, "]", "]] b c ]]]", 5);
    assert s[..5] == "[[ a ";
  }

  // ------------------------------------------------------ take_until_and_str

  const EmptyTerminatorMessage := "what would that mean?"

  /**
   * The body of `take_until_and_str(t)`: an empty terminator is an error;
   * otherwise take the slice `take_until_str` takes and, when it ends with
   * all of `t` but its last token, skip one more token and trim those from
   * the result. As written the trim also happens when the slice ran to the
   * end of the input (`trimAtEnd`); the corrected body trims only when a
   * token follows the slice, which is when `t` was found.
   */
  function UntilAndBody(t: seq<char>, trimAtEnd: bool): Body<seq<char>> {
    (s: seq<char>, p: nat) =>
      if t == [] then BodyOut(Full(Fail(UserError(EmptyTerminatorMessage))), p)
      else
        var a := TakeWhileSliceSpec(s, p, NotEndingWith(t));
        if a.result.Err? then Try(a)
        else
          var slice := a.result.value;
          if EndsWith(slice, t[..|t| - 1]) && (trimAtEnd || a.pos < |s|) then
            BodyOut(Bare(slice[..|slice| - (|t| - 1)]), SkipAnySpec(s, a.pos).pos)
          else BodyOut(Bare(slice), a.pos)
  }

  /** `take_until_and_str(t)` as written in lib/tests/parsers.rs. */
  function TakeUntilAndStrAsWritten(s: seq<char>, p: nat, t: seq<char>): Reply<seq<char>> {
    Wrap(TakeUntilAndStrInfo, Plain, UntilAndBody(t, true), s, p)
  }

  /** `take_until_and_str(t)`, trimming only a terminator that is actually there. */
  function TakeUntilAndStrSpec(s: seq<char>, p: nat, t: seq<char>): Reply<seq<char>> {
    Wrap(TakeUntilAndStrInfo, Plain, UntilAndBody(t, false), s, p)
  }

  function TakeUntilAndStrParser(t: seq<char>): Parse<seq<char>> {
    (s: seq<char>, p: nat) => TakeUntilAndStrAsWritten(s, p, t)
  }

  /**
   * `take_until_and_str(t)` fails on an empty terminator without moving;
   * otherwise it returns the text before the first occurrence of `t` and
   * consumes `t` with it, or returns and consumes everything when `t` does
   * not occur.
   */
  lemma TakeUntilAndStrFinds(s: seq<char>, p: nat, t: seq<char>)
    requires p <= |s|
    ensures var r := TakeUntilAndStrSpec(s, p, t); var i := UntilLen(s[p..], t);
      && (t == [] ==> r.pos == p && r.result.Err? && r.result.error.cause == UserError(EmptyTerminatorMessage))
      && (|t| > 0 && OccursAt(s[p..], t, i) ==> r == Reply(Ok(s[p..p + i]), p + i + |t|))
      && (|t| > 0 && !OccursAt(s[p..], t, i) ==> r == Reply(Ok(s[p..]), |s|))
  {
    if t == [] {
      assert UntilAndBody(t, false)(s, p) == BodyOut(Full(Fail(UserError(EmptyTerminatorMessage))), p);
    } else if OccursAt(s[p..], t, UntilLen(s[p..], t)) {
      UntilAndFound(s, p, t);
    } else {
      UntilAndNotFound(s, p, t);
    }
  }

  lemma UntilAndFound(s: seq<char>, p: nat, t: seq<char>)
    requires p <= |s| && |t| > 0 && OccursAt(s[p..], t, UntilLen(s[p..], t))
    ensures var i := UntilLen(s[p..], t);
      UntilAndBody(t, false)(s, p) == BodyOut(Bare(s[p..p + i]), p + i + |t|)
  {
    var rest := s[p..];
    var i := UntilLen(rest, t);
    var n := SliceLen(rest, NotEndingWith(t));
    TakeUntilStrStops(rest, t);
    var a := TakeWhileSliceSpec(s, p, NotEndingWith(t));
    assert a == Reply(Ok(rest[..n]), p + n);
    assert rest[..n][n - (|t| - 1)..] == rest[i..i + |t|][..|t| - 1];
    assert EndsWith(rest[..n], t[..|t| - 1]);
    assert rest[..n][..n - (|t| - 1)] == s[p..p + i];
  }

  /**
   * As written, with no occurrence of `t` everything is consumed, and the
   * result loses a trailing `t` less its last token when the text ends with
   * one (for a one-token `t` that is nothing, so the whole text is returned).
   */
  lemma UntilAndAsWrittenNotFound(s: seq<char>, p: nat, t: seq<char>)
    requires p <= |s| && |t| > 0 && !OccursAt(s[p..], t, UntilLen(s[p..], t))
    ensures var trimmed := EndsWith(s[p..], t[..|t| - 1]);
      && (trimmed ==> UntilAndBody(t, true)(s, p) == BodyOut(Bare(s[p..|s| - (|t| - 1)]), |s|))
      && (!trimmed ==> UntilAndBody(t, true)(s, p) == BodyOut(Bare(s[p..]), |s|))
  {
    var rest := s[p..];
    TakeUntilStrStops(rest, t);
    var a := TakeWhileSliceSpec(s, p, NotEndingWith(t));
    assert rest[..|rest|] == rest;
    assert a == Reply(Ok(rest), |s|);
    if EndsWith(rest, t[..|t| - 1]) {
      assert rest[..|rest| - (|t| - 1)] == s[p..|s| - (|t| - 1)];
    }
  }

  lemma UntilAndNotFound(s: seq<char>, p: nat, t: seq<char>)
    requires p <= |s| && |t| > 0 && !OccursAt(s[p..], t, UntilLen(s[p..], t))
    ensures UntilAndBody(t, false)(s, p) == BodyOut(Bare(s[p..]), |s|)
  {
    var rest := s[p..];
    TakeUntilStrStops(rest, t);
    var a := TakeWhileSliceSpec(s, p, NotEndingWith(t));
    assert rest[..|rest|] == rest;
    assert a == Reply(Ok(rest), |s|);
  }

  /**
   * Whenever the terminator occurs, or is a single token, the body as
   * written behaves as the corrected one: every case the tests exercise.
   */
  lemma TakeUntilAndStrAgreesWhenFound(s: seq<char>, p: nat, t: seq<char>)
    requires p <= |s| && |t| > 0
    requires OccursAt(s[p..], t, UntilLen(s[p..], t)) || |t| == 1
    ensures TakeUntilAndStrAsWritten(s, p, t) == TakeUntilAndStrSpec(s, p, t)
  {
    var rest := s[p..];
    var n := SliceLen(rest, NotEndingWith(t));
    TakeUntilStrStops(rest, t);
    assert rest[..n][..n - 0] == rest[..n];
  }

  /**
   * As written, a text that does not contain a terminator of two or more
   * tokens but ends with all of it except the last token loses those
   * tokens from the result, although they are consumed.
   */
  lemma TakeUntilAndStrDropsUnfinished(s: seq<char>, p: nat, t: seq<char>)
    requires p <= |s| && |t| >= 2
    requires !OccursAt(s[p..], t, UntilLen(s[p..], t)) && EndsWith(s[p..], t[..|t| - 1])
    ensures TakeUntilAndStrAsWritten(s, p, t) == Reply(Ok(s[p..|s| - (|t| - 1)]), |s|)
    ensures TakeUntilAndStrSpec(s, p, t) == Reply(Ok(s[p..]), |s|)
  {
    UntilAndAsWrittenNotFound(s, p, t);
    TakeUntilAndStrFinds(s, p, t);
  }

  /** The input that shows it: `ab]` with the terminator `]]` gives `ab`, not `ab]`. */
  lemma TakeUntilAndStrLosesBracket()
    ensures UntilLen("ab]", "]]") == 3
    ensures TakeUntilAndStrAsWritten("ab]", 0, "]]") == Reply(Ok("ab"), 3)
    ensures TakeUntilAndStrSpec("ab]", 0, "]]") == Reply(Ok("ab]"), 3)
  {
    var s := "ab]";
    forall j | 0 <= j < 3 ensures !OccursAt(s, "]]", j) {
      if j + 2 <= 3 {
        assert s[j..j + 2][0] == s[j];
      }
    }
    assert s[2..] == "]]"[..1];
    TakeUntilAndStrDropsUnfinished(s, 0, "]]");
    assert s[0..2] == "ab";
  }

  /**
   * `take_until_and_str(t)` as written: the `skip_any` after a slice that
   * ran to the end fails, and `parse_try!` discards that failure.
   */
  method TakeUntilAndStr(inp: Input, t: seq<char>) returns (r: Result<seq<char>>)
    requires inp.Valid()
    modifies inp
    ensures inp.Valid()
    ensures Reply(r, inp.pos) == TakeUntilAndStrAsWritten(inp.s, old(inp.pos), t)
    ensures inp.log == old(inp.log) + [Marked(TakeUntilAndStrInfo, old(inp.pos)), Unmarked(TakeUntilAndStrInfo, r.Ok?)]
  {
    var m := inp.Mark(TakeUntilAndStrInfo);
    var res: Result<seq<char>>;
    if t == [] {
      res := Fail(UserError(EmptyTerminatorMessage));
    } else {
      var slice := TakeWhileSlice(inp, NotEndingWith(t));
      if slice.Err? {
        res := slice;
      } else if EndsWith(slice.value, t[..|t| - 1]) {
        var _ := SkipAny(inp);
        res := Ok(slice.value[..|slice.value| - (|t| - 1)]);
      } else {
        res := slice;
      }
    }
    r := Finish(inp, TakeUntilAndStrInfo, Plain, m, res);
  }

  function TestUntilAndSpec(s: seq<char>, p: nat, t: seq<char>, r: seq<char>): Reply<seq<char>> {
    Wrap(TestUntilAndInfo, Plain, ThenEatSlice(TakeUntilAndStrParser(t), r), s, p)
  }

  method TestUntilAnd(inp: Input, t: seq<char>, r: seq<char>) returns (out: Result<seq<char>>)
    requires inp.Valid()
    modifies inp
    ensures inp.Valid()
    ensures Reply(out, inp.pos) == TestUntilAndSpec(inp.s, old(inp.pos), t, r)
    ensures Bracketed(old(inp.log), inp.log, TestUntilAndInfo, old(inp.pos), out.Ok?)
  {
    var m := inp.Mark(TestUntilAndInfo);
    ghost var p := inp.pos;
    var res: Result<seq<char>>;
    var a := TakeUntilAndStr(inp, t);
    assert TakeUntilAndStrParser(t)(inp.s, p) == Reply(a, inp.pos);
    if a.Err? {
      res := a;
    } else {
      ghost var q := inp.pos;
      var b := EatSlice(inp, r);
      assert TakeUntilAndStrParser(t)(inp.s, p) == Reply(a, q);
      res := if b.Err? then b else Ok(a.value);
    }
    assert ThenEatSlice(TakeUntilAndStrParser(t), r)(inp.s, p) == BodyOut(if res.Ok? then Bare(res.value) else Full(res), inp.pos);
    out := Finish(inp, TestUntilAndInfo, Plain, m, res);
  }

  /**
   * `test_until_and(t, r)` returns the text before the first occurrence of
   * `t` exactly when `r` follows that occurrence.
   */
  lemma TestUntilAndReturns(s: seq<char>, p: nat, t: seq<char>, r: seq<char>)
    requires p <= |s| && |t| > 0 && OccursAt(s[p..], t, UntilLen(s[p..], t))
    ensures var out := TestUntilAndSpec(s, p, t, r); var i := UntilLen(s[p..], t);
      && p + i + |t| <= |s|
      && (out.result.Ok? <==> StartsWith(s[p + i + |t|..], r))
      && (out.result.Ok? ==> out.result.value == s[p..p + i] && out.pos == p + i + |t| + |r|)
  {
    var i := UntilLen(s[p..], t);
    var a := TakeUntilAndStrAsWritten(s, p, t);
    TakeUntilAndStrFinds(s, p, t);
    TakeUntilAndStrAgreesWhenFound(s, p, t);
    assert a == Reply(Ok(s[p..p + i]), p + i + |t|);
    assert TakeUntilAndStrParser(t)(s, p) == a;
    ThenEatSliceReturns(TestUntilAndInfo, TakeUntilAndStrParser(t), r, s, p);
    assert Rest(s, a.pos) == s[p + i + |t|..];
  }

  /**
   * With no occurrence of `t`, `test_until_and(t, r)` succeeds exactly when
   * `r` is empty. It returns the whole text, less a trailing `t` without its
   * last token: nothing for a one-token `t`.
   */
  lemma TestUntilAndReturnsAll(s: seq<char>, p: nat, t: seq<char>, r: seq<char>)
    requires p <= |s| && |t| > 0 && !OccursAt(s[p..], t, UntilLen(s[p..], t))
    ensures var out := TestUntilAndSpec(s, p, t, r);
      && (out.result.Ok? <==> r == [])
      && (out.result.Ok? ==> out.pos == |s|)
      && (out.result.Ok? && EndsWith(s[p..], t[..|t| - 1]) ==> out.result.value == s[p..|s| - (|t| - 1)])
      && (out.result.Ok? && !EndsWith(s[p..], t[..|t| - 1]) ==> out.result.value == s[p..])
      && (out.result.Ok? && |t| == 1 ==> out.result.value == s[p..])
  {
    var a := TakeUntilAndStrAsWritten(s, p, t);
    UntilAndAsWrittenNotFound(s, p, t);
    assert TakeUntilAndStrParser(t)(s, p) == a;
    ThenEatSliceReturns(TestUntilAndInfo, TakeUntilAndStrParser(t), r, s, p);
  }

  /** `test_until_and` on a text whose first occurrence of `t` is at `i`, followed by `r`. */
  lemma TestUntilAndFirstAt(s: seq<char>, t: seq<char>, r: seq<char>, i: nat)
    requires |t| > 0 && FirstAt(s, t, i)
    requires StartsWith(s[i + |t|..], r)
    ensures TestUntilAndSpec(s, 0, t, r).result == Ok(s[..i])
    ensures TestUntilAndSpec(s, 0, t, r).pos == i + |t| + |r|
  {
    UntilLenIs(s, t, i);
    assert s[0..] == s;
    TestUntilAndReturns(s, 0, t, r);
  }

  /**
   * `test_until_and` on a text without `t`, and nothing to eat after it:
   * the whole text, less a trailing `t` without its last token, so the whole
   * text for a one-token `t`.
   */
  lemma TestUntilAndAbsent(s: seq<char>, t: seq<char>)
    requires |t| > 0 && Absent(s, t)
    ensures EndsWith(s, t[..|t| - 1]) ==> TestUntilAndSpec(s, 0, t, []).result == Ok(s[..|s| - (|t| - 1)])
    ensures !EndsWith(s, t[..|t| - 1]) ==> TestUntilAndSpec(s, 0, t, []).result == Ok(s)
    ensures |t| == 1 ==> TestUntilAndSpec(s, 0, t, []).result == Ok(s)
    ensures TestUntilAndSpec(s, 0, t, []).pos == |s|
  {
    assert s[0..] == s;
    TestUntilAndReturnsAll(s, 0, t, []);
  }

  /** `test_until_and` on a text none of whose tokens is the one-token terminator: the whole text. */
  lemma TestUntilAndTokenAbsent(s: seq<char>, t: seq<char>)
    requires |t| == 1 && forall j :: 0 <= j < |s| ==> s[j] != t[0]
    ensures TestUntilAndSpec(s, 0, t, []).result == Ok(s)
    ensures ParseSpec(TestUntilAndParser(t, []), s) == Ok(s)
  {
    TokenAbsent(s, t[0]);
    assert [t[0]] == t;
    TestUntilAndAbsent(s, t);
    assert TestUntilAndParser(t, [])(s, 0) == TestUntilAndSpec(s, 0, t, []);
  }

  function TestUntilAndParser(t: seq<char>, r: seq<char>): Parse<seq<char>> {
    (s: seq<char>, p: nat) => TestUntilAndSpec(s, p, t, r)
  }

  /**
   * `parse!(test_until_and(t, r): s)` with `t` first at `i` and `r` all that
   * follows it: the text before `t`, and the end of input is reached.
   */
  lemma ParseTestUntilAndAt(s: seq<char>, t: seq<char>, r: seq<char>, i: nat)
    requires |t| > 0 && FirstAt(s, t, i) && s[i + |t|..] == r
    ensures TestUntilAndSpec(s, 0, t, r).result == Ok(s[..i])
    ensures ParseSpec(TestUntilAndParser(t, r), s) == Ok(s[..i])
  {
    assert r[..|r|] == r;
    TestUntilAndFirstAt(s, t, r, i);
    assert TestUntilAndParser(t, r)(s, 0) == TestUntilAndSpec(s, 0, t, r);
  }

  /** `test_while_slice_and`, first case: `]]` is consumed and trimmed, nothing is left. */
  lemma TestWhileSliceAndDouble()
    ensures TestUntilAndSpec("[[ a ] b c ]]", 0, "]]", "").result == Ok("[[ a ] b c ")
    ensures ParseSpec(TestUntilAndParser("]]", ""), "[[ a ] b c ]]") == Ok("[[ a ] b c ")
  {
    var s := "[[ a ] b c ]]";
    DoubleBracketText();
    assert s[13..] == "";
    ParseTestUntilAndAt(s, "]]", "", 11);
    assert s[..11] == "[[ a ] b c ";
  }

  /** `test_while_slice_and`, second case: `]]]` is consumed, ` hi` is left. */
  lemma TestWhileSliceAndTriple()
    ensures TestUntilAndSpec("[[ a ]] b c ]]] hi", 0, "]]]", " hi").result == Ok("[[ a ]] b c ")
    ensures ParseSpec(TestUntilAndParser("]]]", " hi"), "[[ a ]] b c ]]] hi") == Ok("[[ a ]] b c ")
  {
    var s := "[[ a ]] b c ]]] hi";
    TripleBracketText();
    assert s[15..] == " hi";
    ParseTestUntilAndAt(s, "]]]", " hi", 12);
    assert s[..12] == "[[ a ]] b c ";
  }

  /** `test_while_slice_and`, third case: a one-token terminator is consumed. */
  lemma TestWhileSliceAndSingle()
    ensures TestUntilAndSpec("[[ a ]] b c ]]]", 0, "]", "] b c ]]]").result == Ok("[[ a ")
    ensures ParseSpec(TestUntilAndParser("]", "] b c ]]]"), "[[ a ]] b c ]]]") == Ok("[[ a ")
  {
    var s := "[[ a ]] b c ]]]";
    TokenFirstAt(s, ']', 5);
    assert s[6..] == "] b c ]]]";
    ParseTestUntilAndAt(s, "]", "] b c ]]]", 5);
    assert s[..5] == "[[ a ";
  }

  /** `test_while_slice_and`, last case: a multi-byte character is one token. */
  lemma TestWhileSliceAndChick()
    ensures TestUntilAndSpec("[[ \U{1F425} ]] b c ]]]", 0, "]", "] b c ]]]").result == Ok("[[ \U{1F425} ")
    ensures ParseSpec(TestUntilAndParser("]", "] b c ]]]"), "[[ \U{1F425} ]] b c ]]]") == Ok("[[ \U{1F425} ")
  {
    var s := "[[ \U{1F425} ]] b c ]]]";
    TokenFirstAt(s, ']', 5);
    assert s[6..] == "] b c ]]]";
    ParseTestUntilAndAt(s, "]", "] b c ]]]", 5);
    assert s[..5] == "[[ \U{1F425} ";
  }

  /** `test_while_slice_and`, fourth case: no terminator, so the whole text. */
  lemma TestWhileSliceAndMissing()
    ensures TestUntilAndSpec("hi", 0, "]", "").result == Ok("hi")
    ensures ParseSpec(TestUntilAndParser("]", ""), "hi") == Ok("hi")
  {
    TestUntilAndTokenAbsent("hi", "]");
  }

  /** `test_while_slice_and`, fifth case: the same with a multi-byte character, which is one token. */
  lemma TestWhileSliceAndChickMissing()
    ensures TestUntilAndSpec("\U{1F425}hi", 0, "]", "").result == Ok("\U{1F425}hi")
    ensures ParseSpec(TestUntilAndParser("]", ""), "\U{1F425}hi") == Ok("\U{1F425}hi")
  {
    TestUntilAndTokenAbsent("\U{1F425}hi", "]");
  }

  // ------------------------------------------------------- test_until_window

  function TakeUntilSliceParser(t: seq<char>): Parse<seq<char>> {
    (s: seq<char>, p: nat) => TakeUntilSliceSpec(s, p, t)
  }

  function TestUntilWindowSpec(s: seq<char>, p: nat, t: seq<char>, r: seq<char>): Reply<seq<char>> {
    Wrap(TestUntilWindowInfo, Plain, ThenEatSlice(TakeUntilSliceParser(t), r), s, p)
  }

  method TestUntilWindow(inp: Input, t: seq<char>, r: seq<char>) returns (out: Result<seq<char>>)
    requires inp.Valid()
    modifies inp
    ensures inp.Valid()
    ensures Reply(out, inp.pos) == TestUntilWindowSpec(inp.s, old(inp.pos), t, r)
    ensures inp.log == old(inp.log) + [Marked(TestUntilWindowInfo, old(inp.pos)), Unmarked(TestUntilWindowInfo, out.Ok?)]
  {
    var m := inp.Mark(TestUntilWindowInfo);
    ghost var p := inp.pos;
    var res: Result<seq<char>>;
    var a := TakeUntilSlice(inp, t);
    assert TakeUntilSliceParser(t)(inp.s, p) == Reply(a, inp.pos);
    if a.Err? {
      res := a;
    } else {
      var b := EatSlice(inp, r);
      res := if b.Err? then b else Ok(a.value);
    }
    assert ThenEatSlice(TakeUntilSliceParser(t), r)(inp.s, p) == BodyOut(if res.Ok? then Bare(res.value) else Full(res), inp.pos);
    out := Finish(inp, TestUntilWindowInfo, Plain, m, res);
  }

  /**
   * `test_until_window(t, r)` returns the text before the first occurrence
   * of `t` exactly when `r` follows it there (`t` itself was not consumed).
   * With no occurrence, the window leaves the last `|t| - 1` tokens unread
   * (none for a one-token `t`, all for a text shorter than `t`), and `r`
   * must start that unread tail.
   */
  lemma TestUntilWindowReturns(s: seq<char>, p: nat, t: seq<char>, r: seq<char>)
    requires p <= |s| && |t| > 0
    ensures var out := TestUntilWindowSpec(s, p, t, r); var i := UntilLen(s[p..], t);
      && (OccursAt(s[p..], t, i) ==>
            && (out.result.Ok? <==> StartsWith(s[p + i..], r))
            && (out.result.Ok? ==> out.result.value == s[p..p + i] && out.pos == p + i + |r|))
      && (!OccursAt(s[p..], t, i) && |t| <= |s| - p ==>
            && (out.result.Ok? <==> StartsWith(s[|s| - (|t| - 1)..], r))
            && (out.result.Ok? ==> out.result.value == s[p..|s| - (|t| - 1)]))
      && (!OccursAt(s[p..], t, i) && (|t| == 1 || |s| - p < |t|) ==>
            && (out.result.Ok? <==> r == [])
            && (out.result.Ok? ==> out.result.value == s[p..] && out.pos == |s|))
  {
    TakeUntilSliceFirstOccurrence(s, p, t);
    ThenEatSliceReturns(TestUntilWindowInfo, TakeUntilSliceParser(t), r, s, p);
  }

  /** `test_until_window` on a text whose first occurrence of `t` is at `i`, where `r` follows. */
  lemma TestUntilWindowFirstAt(s: seq<char>, t: seq<char>, r: seq<char>, i: nat)
    requires |t| > 0 && FirstAt(s, t, i)
    requires StartsWith(s[i..], r)
    ensures TestUntilWindowSpec(s, 0, t, r).result == Ok(s[..i])
    ensures TestUntilWindowSpec(s, 0, t, r).pos == i + |r|
  {
    UntilLenIs(s, t, i);
    assert s[0..] == s;
    TestUntilWindowReturns(s, 0, t, r);
  }

  function TestUntilWindowParser(t: seq<char>, r: seq<char>): Parse<seq<char>> {
    (s: seq<char>, p: nat) => TestUntilWindowSpec(s, p, t, r)
  }

  /**
   * `parse!(test_until_window(t, r): s)` with `t` first at `i` and `r` all
   * that follows from there: the text before `t`, and the end of input is
   * reached.
   */
  lemma ParseTestUntilWindowAt(s: seq<char>, t: seq<char>, r: seq<char>, i: nat)
    requires |t| > 0 && FirstAt(s, t, i) && s[i..] == r
    ensures TestUntilWindowSpec(s, 0, t, r).result == Ok(s[..i])
    ensures ParseSpec(TestUntilWindowParser(t, r), s) == Ok(s[..i])
  {
    assert r[..|r|] == r;
    TestUntilWindowFirstAt(s, t, r, i);
    assert TestUntilWindowParser(t, r)(s, 0) == TestUntilWindowSpec(s, 0, t, r);
  }

  /** The same with a one-token terminator first found at `i`. */
  lemma ParseTestUntilWindowTokenAt(s: seq<char>, t: seq<char>, r: seq<char>, i: nat)
    requires |t| == 1 && i < |s| && s[i] == t[0] && forall j :: 0 <= j < i ==> s[j] != t[0]
    requires s[i..] == r
    ensures TestUntilWindowSpec(s, 0, t, r).result == Ok(s[..i])
    ensures ParseSpec(TestUntilWindowParser(t, r), s) == Ok(s[..i])
  {
    TokenFirstAt(s, t[0], i);
    assert [t[0]] == t;
    ParseTestUntilWindowAt(s, t, r, i);
  }

  /** `parse!(test_until_window(t, ""): s)` on a text without the one-token `t`: the whole text. */
  lemma ParseTestUntilWindowTokenAbsent(s: seq<char>, t: seq<char>)
    requires |t| == 1 && forall j :: 0 <= j < |s| ==> s[j] != t[0]
    ensures TestUntilWindowSpec(s, 0, t, []).result == Ok(s)
    ensures ParseSpec(TestUntilWindowParser(t, []), s) == Ok(s)
  {
    TokenAbsent(s, t[0]);
    assert [t[0]] == t;
    assert s[0..] == s;
    UntilLenIsFirst(s, t);
    TestUntilWindowReturns(s, 0, t, []);
    assert TestUntilWindowParser(t, [])(s, 0) == TestUntilWindowSpec(s, 0, t, []);
  }

  /** `test_while_slice_window`, first case: the window stops at `]]` and leaves it whole. */
  lemma TestWhileSliceWindowDouble()
    ensures TestUntilWindowSpec("[[ a ] b c ]]", 0, "]]", "]]").result == Ok("[[ a ] b c ")
    ensures ParseSpec(TestUntilWindowParser("]]", "]]"), "[[ a ] b c ]]") == Ok("[[ a ] b c ")
  {
    var s := "[[ a ] b c ]]";
    DoubleBracketText();
    assert s[11..] == "]]";
    ParseTestUntilWindowAt(s, "]]", "]]", 11);
    assert s[..11] == "[[ a ] b c ";
  }

  /** `test_while_slice_window`, second case. */
  lemma TestWhileSliceWindowTriple()
    ensures TestUntilWindowSpec("[[ a ]] b c ]]] hi", 0, "]]]", "]]] hi").result == Ok("[[ a ]] b c ")
    ensures ParseSpec(TestUntilWindowParser("]]]", "]]] hi"), "[[ a ]] b c ]]] hi") == Ok("[[ a ]] b c ")
  {
    var s := "[[ a ]] b c ]]] hi";
    TripleBracketText();
    assert s[12..] == "]]] hi";
    ParseTestUntilWindowAt(s, "]]]", "]]] hi", 12);
    assert s[..12] == "[[ a ]] b c ";
  }

  /** `test_while_slice_window`, third case: a one-token terminator. */
  lemma TestWhileSliceWindowSingle()
    ensures TestUntilWindowSpec("[[ a ]] b c ]]]", 0, "]", "]] b c ]]]").result == Ok("[[ a ")
    ensures ParseSpec(TestUntilWindowParser("]", "]] b c ]]]"), "[[ a ]] b c ]]]") == Ok("[[ a ")
  {
    var s := "[[ a ]] b c ]]]";
    assert s[5..] == "]] b c ]]]";
    ParseTestUntilWindowTokenAt(s, "]", "]] b c ]]]", 5);
    assert s[..5] == "[[ a ";
  }

  /** `test_while_slice_window`, fourth case: a multi-byte character is one token. */
  lemma TestWhileSliceWindowChick()
    ensures TestUntilWindowSpec("[[ \U{1F425} ]] b c ]]]", 0, "]", "]] b c ]]]").result == Ok("[[ \U{1F425} ")
    ensures ParseSpec(TestUntilWindowParser("]", "]] b c ]]]"), "[[ \U{1F425} ]] b c ]]]") == Ok("[[ \U{1F425} ")
  {
    var c := "[[ \U{1F425} ]] b c ]]]";
    assert c[5..] == "]] b c ]]]";
    ParseTestUntilWindowTokenAt(c, "]", "]] b c ]]]", 5);
    assert c[..5] == "[[ \U{1F425} ";
  }

  /** `test_while_slice_window`, last case: no terminator, so everything. */
  lemma TestWhileSliceWindowMissing()
    ensures TestUntilWindowSpec("\U{1F425}hi", 0, "]", "").result == Ok("\U{1F425}hi")
    ensures ParseSpec(TestUntilWindowParser("]", ""), "\U{1F425}hi") == Ok("\U{1F425}hi")
  {
    ParseTestUntilWindowTokenAbsent("\U{1F425}hi", "]");
  }

  // -------------------------------------------------------- window termination

  function Never(): seq<char> -> bool { _ => false }
  function Always(): seq<char> -> bool { _ => true }
  function AnyToken(): char -> bool { _ => true }
  function IsWindow(x: seq<char>): seq<char> -> bool { w => w == x }

  /** The expectations of `test_window_termination`, all with windows of two tokens. */
  lemma TestWindowTermination()
    ensures TakeWhileWindowSpec("a", 0, 2, Never()).result == Ok("a")
    ensures TakeWhileWindowSpec("aa", 0, 2, Never()).result == Ok("")
    ensures TakeSomeWhileSomeWindowSpec("a", 0, 2, Never()).result.Err?
    ensures TakeSomeWhileWindowSpec("aa", 0, 2, Never()).result.Err?
    ensures TakeWhileWindowSpec("aa", 0, 2, Always()).result == Ok("a")
    ensures TakeSomeWhileWindowSpec("aa", 0, 2, Always()).result == Ok("a")
    ensures TakeWhileWindowSpec("aaab", 0, 2, IsWindow("aa")).result == Ok("aa")
    ensures TakeSomeWhileWindowSpec("aaab", 0, 2, IsWindow("aa")).result == Ok("aa")
    ensures TakeWhileSomeWindowSpec("aa", 0, 2, Never()).result == Ok("")
  {
    assert "a"[..1] == "a";
    WindowLenUnique("aa", 2, Never(), 0);
    WindowLenUnique("aa", 2, Always(), 1);
    assert "aa"[..1] == "a";
    var s := "aaab";
    assert Window(s, 0, 2) == "aa" && Window(s, 1, 2) == "aa" && Window(s, 2, 2) == "ab";
    WindowLenUnique(s, 2, IsWindow("aa"), 2);
    assert s[..2] == "aa";
  }

  // ----------------------------------------------------------------- cursors

  /** A slice of a cursor input: the value with the span of the input it was read from. */
  datatype Extent<T> = Extent(start: nat, end: nat, value: T)

  /** What a parser over a cursor input returns: its value with the span it consumed. */
  function Spanned<T>(p: nat, r: Reply<T>): Reply<Extent<T>> {
    Reply(if r.result.Ok? then Ok(Extent(p, r.pos, r.result.value)) else Err(r.result.error), r.pos)
  }

  function TakeUntilCursorStrSpec(s: seq<char>, p: nat, t: seq<char>): Reply<Extent<seq<char>>> {
    Wrap(TakeUntilCursorStrInfo, Plain,
         (s: seq<char>, p: nat) => Try(Spanned(p, TakeWhileSliceSpec(s, p, NotEndingWith(t)))), s, p)
  }

  /**
   * Extents over a cursor are the very slices of the input they span, and
   * each starts where the input was and ends where the parser left it, so
   * successive extents are contiguous.
   */
  lemma CursorExtents(s: seq<char>, p: nat, t: seq<char>, pred: char -> bool)
    requires p <= |s|
    ensures var r := TakeUntilCursorStrSpec(s, p, t);
      && r.result.Ok? && r.result.value == Extent(p, r.pos, s[p..r.pos])
      && r.pos == TakeUntilStrSpec(s, p, t).pos
    ensures var r := Spanned(p, EatAnySpec(s, p));
      r.result.Ok? ==> r.result.value == Extent(p, p + 1, s[p]) && r.pos == p + 1
    ensures var r := Spanned(p, TakeWhileSpec(s, p, pred));
      && r.result.Ok? && r.result.value.start == p && r.result.value.end == r.pos
      && r.result.value.value == s[p..r.pos]
  {
    TakeUntilStrStopsBefore(s, p, t);
    TakeWhileMaximal(s, p, pred);
  }

  method TakeUntilCursorStr(inp: Input, t: seq<char>) returns (r: Result<Extent<seq<char>>>)
    requires inp.Valid()
    modifies inp
    ensures inp.Valid()
    ensures Reply(r, inp.pos) == TakeUntilCursorStrSpec(inp.s, old(inp.pos), t)
    ensures inp.log == old(inp.log) + [Marked(TakeUntilCursorStrInfo, old(inp.pos)), Unmarked(TakeUntilCursorStrInfo, r.Ok?)]
  {
    var m := inp.Mark(TakeUntilCursorStrInfo);
    var start := inp.pos;
    var slice := TakeWhileSlice(inp, NotEndingWith(t));
    var res: Result<Extent<seq<char>>>;
    match slice {
      case Ok(v) => res := Ok(Extent(start, inp.pos, v));
      case Err(e) => res := Err(e);
    }
    r := Finish(inp, TakeUntilCursorStrInfo, Plain, m, res);
  }

  /** `eat_any` over a cursor input. */
  method EatAnyExtent(inp: Input) returns (r: Result<Extent<char>>)
    requires inp.Valid()
    modifies inp`pos
    ensures inp.Valid()
    ensures Reply(r, inp.pos) == Spanned(old(inp.pos), EatAnySpec(inp.s, old(inp.pos)))
  {
    var start := inp.pos;
    var c := EatAny(inp);
    r := if c.Ok? then Ok(Extent(start, inp.pos, c.value)) else Err(c.error);
  }

  /** `take_while` over a cursor input. */
  method TakeWhileExtent(inp: Input, pred: char -> bool) returns (r: Result<Extent<seq<char>>>)
    requires inp.Valid()
    modifies inp`pos
    ensures inp.Valid()
    ensures Reply(r, inp.pos) == Spanned(old(inp.pos), TakeWhileSpec(inp.s, old(inp.pos), pred))
  {
    var start := inp.pos;
    var taken := TakeWhile(inp, pred);
    match taken {
      case Ok(v) => r := Ok(Extent(start, inp.pos, v));
      case Err(e) => r := Err(e);
    }
  }

  const Hello := "hellothisishe"

  /** `test_cursor`, first call. */
  lemma CursorFirst()
    ensures TakeUntilCursorStrSpec("abchello", 0, "hell").result == Ok(Extent(0, 6, "abchel"))
  {
    var a := "abchello";
    forall j | 0 <= j < 3 ensures !OccursAt(a, "hell", j) {
      assert a[j..j + 4][0] == a[j];
    }
    UntilLenIs(a, "hell", 3);
    CursorExtents(a, 0, "hell", AnyToken());
    TakeUntilStrStopsBefore(a, 0, "hell");
    assert a[0..6] == "abchel";
  }

  /** `test_cursor`, the call after `eat_any` read `h`. */
  lemma CursorThis()
    ensures TakeUntilCursorStrSpec(Hello, 1, "this") == Reply(Ok(Extent(1, 8, "ellothi")), 8)
  {
    var b := "ellothisishe";
    forall j | 0 <= j < 4 ensures !OccursAt(b, "this", j) {
      assert b[j..j + 4][0] == b[j];
    }
    UntilLenIs(b, "this", 4);
    assert Hello[1..] == b;
    CursorExtents(Hello, 1, "this", AnyToken());
    TakeUntilStrStopsBefore(Hello, 1, "this");
    assert Hello[1..8] == "ellothi";
  }

  /** `test_cursor`, the call that continues where the previous extent ended. */
  lemma CursorIs()
    ensures TakeUntilCursorStrSpec(Hello, 8, "is") == Reply(Ok(Extent(8, 10, "si")), 10)
  {
    var c := Hello[8..];
    assert c == "sishe";
    assert c[0..2][0] == 's';
    UntilLenIs(c, "is", 1);
    CursorExtents(Hello, 8, "is", AnyToken());
    TakeUntilStrStopsBefore(Hello, 8, "is");
    assert Hello[8..10] == "si";
  }

  /** `test_cursor`, the final `take_while` of everything left. */
  lemma CursorRest()
    ensures Spanned(10, TakeWhileSpec(Hello, 10, AnyToken())) == Reply(Ok(Extent(10, 13, "she")), 13)
  {
    TakeWhileMaximal(Hello, 10, AnyToken());
    assert Hello[10..13] == "she";
  }

  /** `test_cursor`, first part: `take_until_cursor_str` on a fresh cursor. */
  method CursorTestFresh() returns (first: Extent<seq<char>>)
    ensures first == Extent(0, 6, "abchel") && first.value == "abchello"[first.start..first.end]
  {
    var input := new Input("abchello");
    CursorFirst();
    var r := TakeUntilCursorStr(input, "hell");
    first := r.value;
    assert "abchello"[0..6] == "abchel";
  }

  /**
   * `test_cursor`, second part: one cursor reused across calls.
   * `peek_slice` consumes nothing, so `eat_any` still reads `h`, and the
   * extents that follow are contiguous slices of the input.
   */
  method CursorTestReused() returns (h: Extent<char>, e1: Extent<seq<char>>, e2: Extent<seq<char>>, e3: Extent<seq<char>>)
    ensures h == Extent(0, 1, 'h')
    ensures e1 == Extent(1, 8, "ellothi") && e1.value == Hello[e1.start..e1.end]
    ensures e2 == Extent(8, 10, "si") && e2.value == Hello[e2.start..e2.end]
    ensures e3 == Extent(10, 13, "she") && e3.value == Hello[e3.start..e3.end]
    ensures h.end == e1.start && e1.end == e2.start && e2.end == e3.start && e3.end == |Hello|
  {
    var cursor := new Input(Hello);
    assert Hello[..5] == "hello";
    var peeked := PeekSlice(cursor, "hello");
    assert peeked.Ok? && cursor.pos == 0;
    var c := EatAnyExtent(cursor);
    h := c.value;
    CursorThis();
    var a := TakeUntilCursorStr(cursor, "this");
    e1 := a.value;
    CursorIs();
    var b := TakeUntilCursorStr(cursor, "is");
    e2 := b.value;
    CursorRest();
    var w := TakeWhileExtent(cursor, AnyToken());
    e3 := w.value;
    assert Hello[1..8] == "ellothi" && Hello[8..10] == "si" && Hello[10..13] == "she";
  }
}
