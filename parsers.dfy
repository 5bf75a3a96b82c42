/**
 * The library parsers and combinators that the modelled parsers call, over
 * a text input. Each one has a meaning as a function of the text and the
 * start position (`...Spec`, giving a `Reply`: the result and the new
 * position) and, where the parsers call it directly, a method on `Input`
 * proved to have exactly that effect. The library's own source is not part
 * of this model; these follow its documented contracts and the behaviour
 * its tests pin down.
 */
module Parsers {
  import opened Engine
  import opened Slices

  /** The text from position `p` on (empty past the end). */
  function Rest(s: seq<char>, p: nat): (r: seq<char>)
    ensures p <= |s| ==> r == s[p..]
    ensures p > |s| ==> r == []
  {
    if p <= |s| then s[p..] else []
  }

  // ---------------------------------------------------------------- tokens

  /** `eat(c)`: consume one token equal to `c`; otherwise fail and stay put. */
  function EatSpec(s: seq<char>, p: nat, c: char): (r: Reply<char>)
    ensures r.result.Ok? <==> p < |s| && s[p] == c
    ensures r.result.Ok? ==> r.result.value == c && r.pos == p + 1
    ensures r.result.Err? ==> r.pos == p
  {
    if p < |s| && s[p] == c then Reply(Ok(c), p + 1)
    else if p < |s| then Reply(Fail(Mismatch([c], [s[p]])), p)
    else Reply(Fail(EndOfInput), p)
  }

  /** `eat_any`: consume any one token. */
  function EatAnySpec(s: seq<char>, p: nat): (r: Reply<char>)
    ensures r.result.Ok? <==> p < |s|
    ensures r.result.Ok? ==> r.result.value == s[p] && r.pos == p + 1
    ensures r.result.Err? ==> r.pos == p
  {
    if p < |s| then Reply(Ok(s[p]), p + 1) else Reply(Fail(EndOfInput), p)
  }

  /** `skip_any`: skip any one token. */
  function SkipAnySpec(s: seq<char>, p: nat): (r: Reply<()>)
    ensures r.result.Ok? <==> p < |s|
    ensures r.pos == if p < |s| then p + 1 else p
  {
    if p < |s| then Reply(Ok(()), p + 1) else Reply(Fail(EndOfInput), p)
  }

  /** `eof`: succeed exactly at the end of the input, consuming nothing. */
  function EofSpec(s: seq<char>, p: nat): (r: Reply<()>)
    ensures r.result.Ok? <==> p >= |s|
    ensures r.pos == p
  {
    if p < |s| then Reply(Fail(ExpectedEnd(s[p])), p) else Reply(Ok(()), p)
  }

  /** `eat_slice(t)`: consume `t` if the input continues with it; otherwise fail and stay put. */
  function EatSliceSpec(s: seq<char>, p: nat, t: seq<char>): (r: Reply<seq<char>>)
    ensures r.result.Ok? <==> StartsWith(Rest(s, p), t)
    ensures r.result.Ok? ==> r.result.value == t && r.pos == p + |t|
    ensures r.result.Err? ==> r.pos == p
  {
    var rest := Rest(s, p);
    if StartsWith(rest, t) then Reply(Ok(t), p + |t|)
    else Reply(Fail(Mismatch(t, if |t| <= |rest| then rest[..|t|] else rest)), p)
  }

  const PeekInfo := ParserInfo("peek", true)
  const PeekSliceInfo := ParserInfo("peek_slice", true)

  function PeekBody(c: char): Body<char> {
    (s: seq<char>, p: nat) => var r := EatSpec(s, p, c); BodyOut(Full(r.result), r.pos)
  }

  function PeekSliceBody(t: seq<char>): Body<seq<char>> {
    (s: seq<char>, p: nat) => var r := EatSliceSpec(s, p, t); BodyOut(Full(r.result), r.pos)
  }

  /** `peek(c)`: `eat(c)` under the `peek` policy, so it never consumes. */
  function PeekSpec(s: seq<char>, p: nat, c: char): (r: Reply<char>)
    ensures r.result.Ok? <==> p < |s| && s[p] == c
    ensures r.pos == p
  {
    Wrap(PeekInfo, PeekOnly, PeekBody(c), s, p)
  }

  /** `peek_slice(t)`: `eat_slice(t)` under the `peek` policy, so it never consumes. */
  function PeekSliceSpec(s: seq<char>, p: nat, t: seq<char>): (r: Reply<seq<char>>)
    ensures r.result.Ok? <==> StartsWith(Rest(s, p), t)
    ensures r.pos == p
  {
    Wrap(PeekSliceInfo, PeekOnly, PeekSliceBody(t), s, p)
  }

  // ------------------------------------------------------ token predicates

  /** `take_while(pred)`: the longest run of tokens satisfying `pred`; never fails. */
  function TakeWhileSpec(s: seq<char>, p: nat, pred: char -> bool): (r: Reply<seq<char>>)
    ensures r.result.Ok? && p <= r.pos && (p <= |s| ==> r.pos <= |s|)
  {
    var e := RunEnd(s, p, pred);
    Reply(Ok(if e <= |s| then s[p..e] else []), e)
  }

  /** `take_some_while(pred)`: as `take_while`, but at least one token must be taken. */
  function TakeSomeWhileSpec(s: seq<char>, p: nat, pred: char -> bool): (r: Reply<seq<char>>)
    ensures r.result.Ok? ==> p < r.pos <= |s| && |r.result.value| == r.pos - p
    ensures r.result.Err? ==> r.pos == p
  {
    var e := RunEnd(s, p, pred);
    if e == p then Reply(Fail(PredicateViolation), p) else Reply(Ok(s[p..e]), e)
  }

  /** The tokens satisfying `pred` other than `until`. */
  function Except(pred: char -> bool, until: char): char -> bool {
    c => pred(c) && c != until
  }

  /** `take_some_while_until(pred, until)`: at least one token satisfying `pred` and other than `until`. */
  function TakeSomeWhileUntilSpec(s: seq<char>, p: nat, pred: char -> bool, until: char): (r: Reply<seq<char>>)
    ensures r.result.Ok? ==> p < r.pos <= |s|
    ensures r.result.Err? ==> r.pos == p
  {
    TakeSomeWhileSpec(s, p, Except(pred, until))
  }

  /** `skip_while(pred)`: skip the longest run of tokens satisfying `pred`; never fails. */
  function SkipWhileSpec(s: seq<char>, p: nat, pred: char -> bool): (r: Reply<()>)
    ensures r.result.Ok? && p <= r.pos && (p <= |s| ==> r.pos <= |s|)
  {
    Reply(Ok(()), RunEnd(s, p, pred))
  }

  /** What `take_while`, `take_some_while` and `skip_while` take: a maximal run of `pred` tokens. */
  lemma TakeWhileMaximal(s: seq<char>, p: nat, pred: char -> bool)
    requires p <= |s|
    ensures var r := TakeWhileSpec(s, p, pred);
      && r.result.Ok? && p <= r.pos <= |s| && r.result.value == s[p..r.pos]
      && (forall i :: p <= i < r.pos ==> pred(s[i]))
      && (r.pos < |s| ==> !pred(s[r.pos]))
    ensures TakeSomeWhileSpec(s, p, pred).result.Err? <==> (p == |s| || !pred(s[p]))
    ensures TakeSomeWhileSpec(s, p, pred).result.Ok? ==> TakeSomeWhileSpec(s, p, pred) == TakeWhileSpec(s, p, pred)
    ensures TakeSomeWhileSpec(s, p, pred).result.Err? ==> TakeSomeWhileSpec(s, p, pred).pos == p
    ensures SkipWhileSpec(s, p, pred).pos == TakeWhileSpec(s, p, pred).pos
  {
    RunEndStops(s, p, pred);
  }

  /**
   * `take_some_while_until(pred, until)` succeeds exactly when the first
   * token satisfies `pred` and is not `until`; it then takes the maximal run
   * of such tokens, which stops at `until` or at a token failing `pred`.
   */
  lemma TakeSomeWhileUntilStops(s: seq<char>, p: nat, pred: char -> bool, until: char)
    requires p <= |s|
    ensures var r := TakeSomeWhileUntilSpec(s, p, pred, until);
      && (r.result.Ok? <==> p < |s| && pred(s[p]) && s[p] != until)
      && (r.result.Ok? ==>
            && r.result.value == s[p..r.pos]
            && (forall i :: p <= i < r.pos ==> pred(s[i]) && s[i] != until)
            && (r.pos < |s| ==> !pred(s[r.pos]) || s[r.pos] == until))
  {
    RunEndStops(s, p, Except(pred, until));
  }

  // --------------------------------------------------------- slice windows

  /** `take_while_slice(pred)`: grow a slice token by token while `pred` holds of it; never fails. */
  function TakeWhileSliceSpec(s: seq<char>, p: nat, pred: seq<char> -> bool): (r: Reply<seq<char>>)
  {
    var n := SliceLen(Rest(s, p), pred);
    Reply(Ok(Rest(s, p)[..n]), p + n)
  }

  /** `take_while_window(w, pred)`; never fails. */
  function TakeWhileWindowSpec(s: seq<char>, p: nat, w: nat, pred: seq<char> -> bool): (r: Reply<seq<char>>)
    requires w > 0
  {
    var n := WindowLen(Rest(s, p), w, pred);
    Reply(Ok(Rest(s, p)[..n]), p + n)
  }

  /** `take_some_while_window(w, pred)`: fails when nothing is taken. */
  function TakeSomeWhileWindowSpec(s: seq<char>, p: nat, w: nat, pred: seq<char> -> bool): (r: Reply<seq<char>>)
    requires w > 0
  {
    var r := TakeWhileWindowSpec(s, p, w, pred);
    if r.pos == p then Reply(Fail(PredicateViolation), p) else r
  }

  /** `take_while_some_window(w, pred)`: fails when fewer than `w` tokens are left. */
  function TakeWhileSomeWindowSpec(s: seq<char>, p: nat, w: nat, pred: seq<char> -> bool): (r: Reply<seq<char>>)
    requires w > 0
  {
    if |Rest(s, p)| < w then Reply(Fail(EndOfInput), p) else TakeWhileWindowSpec(s, p, w, pred)
  }

  /** `take_some_while_some_window(w, pred)`: fails when fewer than `w` tokens are left or nothing is taken. */
  function TakeSomeWhileSomeWindowSpec(s: seq<char>, p: nat, w: nat, pred: seq<char> -> bool): (r: Reply<seq<char>>)
    requires w > 0
  {
    if |Rest(s, p)| < w then Reply(Fail(EndOfInput), p) else TakeSomeWhileWindowSpec(s, p, w, pred)
  }

  /** The four window variants fail exactly where their "some" qualifiers say, and never move when they fail. */
  lemma WindowVariants(s: seq<char>, p: nat, w: nat, pred: seq<char> -> bool)
    requires w > 0
    ensures TakeWhileWindowSpec(s, p, w, pred).result.Ok?
    ensures TakeSomeWhileWindowSpec(s, p, w, pred).result.Err?
        <==> WindowLen(Rest(s, p), w, pred) == 0
    ensures TakeWhileSomeWindowSpec(s, p, w, pred).result.Err? <==> |Rest(s, p)| < w
    ensures TakeSomeWhileSomeWindowSpec(s, p, w, pred).result.Err?
        <==> |Rest(s, p)| < w || WindowLen(Rest(s, p), w, pred) == 0
    ensures TakeSomeWhileWindowSpec(s, p, w, pred).result.Err? ==> TakeSomeWhileWindowSpec(s, p, w, pred).pos == p
    ensures TakeSomeWhileSomeWindowSpec(s, p, w, pred).result.Err? ==> TakeSomeWhileSomeWindowSpec(s, p, w, pred).pos == p
    ensures TakeSomeWhileSomeWindowSpec(s, p, w, pred).result.Ok?
        ==> TakeSomeWhileSomeWindowSpec(s, p, w, pred) == TakeWhileWindowSpec(s, p, w, pred)
  {
  }

  /**
   * `take_until_slice(t)`: a window of `|t|` tokens that stops at the first
   * window equal to `t`, so `t` itself is not consumed.
   */
  function TakeUntilSliceSpec(s: seq<char>, p: nat, t: seq<char>): (r: Reply<seq<char>>)
  {
    if t == [] then Reply(Ok([]), p) else TakeWhileWindowSpec(s, p, |t|, WindowIsNot(t))
  }

  /**
   * `take_until_slice(t)` returns the text before the first occurrence of
   * `t` and leaves `t` to be eaten. With no occurrence it returns everything
   * when `t` is one token long or longer than what is left; otherwise the
   * window stops at the last full window, leaving the final `|t| - 1`
   * tokens unread.
   */
  lemma {:induction false} TakeUntilSliceFirstOccurrence(s: seq<char>, p: nat, t: seq<char>)
    requires p <= |s| && |t| > 0
    ensures var i := UntilLen(s[p..], t); var r := TakeUntilSliceSpec(s, p, t);
      && r.result.Ok?
      && (OccursAt(s[p..], t, i) ==> r.result.value == s[p..p + i] && r.pos == p + i
                                       && EatSliceSpec(s, r.pos, t).result.Ok?)
      && (!OccursAt(s[p..], t, i) && (|t| == 1 || |s| - p < |t|) ==> r.result.value == s[p..] && r.pos == |s|)
      && (!OccursAt(s[p..], t, i) && |t| <= |s| - p ==>
            r.result.value == s[p..|s| - (|t| - 1)] && r.pos == |s| - (|t| - 1))
  {
    var rest := s[p..];
    var i := UntilLen(rest, t);
    UntilLenIsFirst(rest, t);
    if OccursAt(rest, t, i) {
      WindowFindsFirstOccurrence(rest, t);
      assert rest[i..][..|t|] == t;
    } else if |rest| >= |t| {
      WindowMissesTail(rest, t);
      assert rest[..|rest| - |t| + 1] == s[p..|s| - (|t| - 1)];
    }
  }

  // ------------------------------------------------------------ sequencing

  /** The item parser never moves backwards and never past the end. */
  ghost predicate Advances<T>(item: (seq<char>, nat) -> Reply<T>, s: seq<char>) {
    forall q: nat :: q <= |s| ==> q <= item(s, q).pos <= |s|
  }

  /** `surrounded(item, pad)`: skip `pad` tokens, run `item`, skip `pad` tokens. */
  function SurroundedSpec<T>(item: (seq<char>, nat) -> Reply<T>, pad: char -> bool, s: seq<char>, p: nat): Reply<T> {
    var before := SkipWhileSpec(s, p, pad).pos;
    var r := item(s, before);
    if r.result.Err? then r
    else Reply(r.result, SkipWhileSpec(s, r.pos, pad).pos)
  }

  /** The rest of `series` after `acc` was collected: a separator, then one more item, and so on. */
  function SeriesMore<T>(item: (seq<char>, nat) -> Reply<T>, sep: char, s: seq<char>, p: nat, acc: seq<T>): (r: Reply<seq<T>>)
    requires Advances(item, s) && p <= |s|
    ensures r.result.Ok? && p <= r.pos <= |s|
    decreases |s| - p
  {
    if p < |s| && s[p] == sep then
      var next := item(s, p + 1);
      if next.result.Err? then Reply(Ok(acc), p)
      else SeriesMore(item, sep, s, next.pos, acc + [next.result.value])
    else Reply(Ok(acc), p)
  }

  /**
   * `series(item, sep)`: items separated by `sep`. An item that fails is
   * rewound together with the separator before it, and ends the series;
   * the series itself never fails.
   */
  function SeriesSpec<T>(item: (seq<char>, nat) -> Reply<T>, sep: char, s: seq<char>, p: nat): (r: Reply<seq<T>>)
    requires Advances(item, s) && p <= |s|
    ensures r.result.Ok? && p <= r.pos <= |s|
  {
    var first := item(s, p);
    if first.result.Err? then Reply(Ok([]), p)
    else SeriesMore(item, sep, s, first.pos, [first.result.value])
  }

  /** `prefixed_series(prefix, item, sep)`: nothing unless the input continues with `prefix`, then a series. */
  function PrefixedSeriesSpec<T>(prefix: char, item: (seq<char>, nat) -> Reply<T>, sep: char, s: seq<char>, p: nat): (r: Reply<seq<T>>)
    requires Advances(item, s) && p <= |s|
    ensures r.result.Ok? && p <= r.pos <= |s|
  {
    if p < |s| && s[p] == prefix then SeriesSpec(item, sep, s, p + 1) else Reply(Ok([]), p)
  }

  /** `surrounded(item, pad)` as a parser value. */
  function Surrounded<T>(item: (seq<char>, nat) -> Reply<T>, pad: char -> bool): (seq<char>, nat) -> Reply<T> {
    (s: seq<char>, p: nat) => SurroundedSpec(item, pad, s, p)
  }

  /**
   * Padding an item keeps it well-behaved: the item runs after the longest
   * run of padding, and a successful item is followed by skipping the
   * longest run of padding after it.
   */
  lemma SurroundedPads<T>(item: (seq<char>, nat) -> Reply<T>, pad: char -> bool, s: seq<char>)
    requires Advances(item, s)
    ensures Advances(Surrounded(item, pad), s)
    ensures forall p: nat :: p <= |s| ==>
      var b := RunEnd(s, p, pad);
      var r := Surrounded(item, pad)(s, p);
      && r.result == item(s, b).result
      && (forall i :: p <= i < b ==> pad(s[i]))
      && (r.result.Ok? ==> r.pos == RunEnd(s, item(s, b).pos, pad))
  {
    forall p: nat | p <= |s|
      ensures var b := RunEnd(s, p, pad); forall i :: p <= i < b ==> pad(s[i])
    {
      RunEndStops(s, p, pad);
    }
  }

  /**
   * `xs` are the values of items parsed from `p` on, each one after the
   * previous one's end and a single `sep` token, the last ending at `q`.
   */
  ghost predicate Items<T>(item: (seq<char>, nat) -> Reply<T>, sep: char, s: seq<char>, p: nat, xs: seq<T>, q: nat)
    decreases |xs|
  {
    && |xs| > 0
    && item(s, p).result == Ok(xs[0])
    && if |xs| == 1 then q == item(s, p).pos
       else
         var e := item(s, p).pos;
         e < |s| && s[e] == sep && Items(item, sep, s, e + 1, xs[1..], q)
  }

  /** At `q` no separator follows that an item could follow. */
  ghost predicate SeriesEnds<T>(item: (seq<char>, nat) -> Reply<T>, sep: char, s: seq<char>, q: nat) {
    !(q < |s| && s[q] == sep && item(s, q + 1).result.Ok?)
  }

  lemma {:induction false} ItemsExtend<T>(item: (seq<char>, nat) -> Reply<T>, sep: char, s: seq<char>, p: nat, xs: seq<T>, q: nat, v: T, q': nat)
    requires Items(item, sep, s, p, xs, q)
    requires q < |s| && s[q] == sep && item(s, q + 1) == Reply(Ok(v), q')
    ensures Items(item, sep, s, p, xs + [v], q')
    decreases |xs|
  {
    var e := item(s, p).pos;
    if |xs| == 1 {
      assert (xs + [v])[1..] == [v];
    } else {
      ItemsExtend(item, sep, s, e + 1, xs[1..], q, v, q');
      assert (xs + [v])[1..] == xs[1..] + [v];
    }
  }

  lemma {:induction false} SeriesMoreCollects<T>(item: (seq<char>, nat) -> Reply<T>, sep: char, s: seq<char>, p0: nat, p: nat, acc: seq<T>)
    requires Advances(item, s) && p <= |s|
    requires Items(item, sep, s, p0, acc, p)
    ensures var r := SeriesMore(item, sep, s, p, acc);
      && r.result.Ok? && p <= r.pos <= |s|
      && acc <= r.result.value
      && Items(item, sep, s, p0, r.result.value, r.pos)
      && SeriesEnds(item, sep, s, r.pos)
    decreases |s| - p
  {
    if p < |s| && s[p] == sep {
      var next := item(s, p + 1);
      if next.result.Ok? {
        ItemsExtend(item, sep, s, p0, acc, p, next.result.value, next.pos);
        SeriesMoreCollects(item, sep, s, p0, next.pos, acc + [next.result.value]);
      }
    }
  }

  /**
   * `series` never fails. It collects nothing, and stays put, exactly when
   * the first item fails; otherwise what it collects is a chain of items
   * joined by single separators, and it stops where no separator is
   * followed by a successful item, the separator before a failed item
   * being left unconsumed.
   */
  lemma SeriesCollects<T>(item: (seq<char>, nat) -> Reply<T>, sep: char, s: seq<char>, p: nat)
    requires Advances(item, s) && p <= |s|
    ensures var r := SeriesSpec(item, sep, s, p);
      && r.result.Ok? && p <= r.pos <= |s|
      && (r.result.value == [] <==> item(s, p).result.Err?)
      && (r.result.value == [] ==> r.pos == p)
      && (r.result.value != [] ==> Items(item, sep, s, p, r.result.value, r.pos) && SeriesEnds(item, sep, s, r.pos))
  {
    var first := item(s, p);
    if first.result.Ok? {
      assert Items(item, sep, s, p, [first.result.value], first.pos);
      SeriesMoreCollects(item, sep, s, p, first.pos, [first.result.value]);
    }
  }

  /**
   * `prefixed_series` collects items only after the prefix; without it the
   * series is empty and nothing is consumed. After the prefix the items
   * are a chain as in `series`.
   */
  lemma PrefixedSeriesCollects<T>(prefix: char, item: (seq<char>, nat) -> Reply<T>, sep: char, s: seq<char>, p: nat)
    requires Advances(item, s) && p <= |s|
    ensures var r := PrefixedSeriesSpec(prefix, item, sep, s, p);
      && r.result.Ok? && p <= r.pos <= |s|
      && (!(p < |s| && s[p] == prefix) ==> r.result.value == [] && r.pos == p)
      && (r.result.value != [] ==>
            && p < |s| && s[p] == prefix
            && Items(item, sep, s, p + 1, r.result.value, r.pos) && SeriesEnds(item, sep, s, r.pos))
      && (p < |s| && s[p] == prefix && r.result.value == [] ==> r.pos == p + 1 && item(s, p + 1).result.Err?)
  {
    if p < |s| && s[p] == prefix {
      SeriesCollects(item, sep, s, p + 1);
    }
  }

  /** `parse!(parser: text)`: the parser from the start of the text, then the end of input. */
  function ParseSpec<T>(parser: (seq<char>, nat) -> Reply<T>, s: seq<char>): Result<T> {
    var r := parser(s, 0);
    if r.result.Err? then r.result
    else
      var end := EofSpec(s, r.pos);
      if end.result.Err? then Err(end.result.error) else r.result
  }

  // ================================================================ methods

  method Eat(inp: Input, c: char) returns (r: Result<char>)
    requires inp.Valid()
    modifies inp`pos
    ensures inp.Valid()
    ensures Reply(r, inp.pos) == EatSpec(inp.s, old(inp.pos), c)
  {
    if inp.pos < |inp.s| && inp.s[inp.pos] == c {
      inp.pos := inp.pos + 1;
      r := Ok(c);
    } else if inp.pos < |inp.s| {
      r := Fail(Mismatch([c], [inp.s[inp.pos]]));
    } else {
      r := Fail(EndOfInput);
    }
  }

  method EatAny(inp: Input) returns (r: Result<char>)
    requires inp.Valid()
    modifies inp`pos
    ensures inp.Valid()
    ensures Reply(r, inp.pos) == EatAnySpec(inp.s, old(inp.pos))
  {
    if inp.pos < |inp.s| {
      r := Ok(inp.s[inp.pos]);
      inp.pos := inp.pos + 1;
    } else {
      r := Fail(EndOfInput);
    }
  }

  method SkipAny(inp: Input) returns (r: Result<()>)
    requires inp.Valid()
    modifies inp`pos
    ensures inp.Valid()
    ensures Reply(r, inp.pos) == SkipAnySpec(inp.s, old(inp.pos))
  {
    if inp.pos < |inp.s| {
      inp.pos := inp.pos + 1;
      r := Ok(());
    } else {
      r := Fail(EndOfInput);
    }
  }

  method Eof(inp: Input) returns (r: Result<()>)
    requires inp.Valid()
    ensures Reply(r, inp.pos) == EofSpec(inp.s, inp.pos)
  {
    if inp.pos < |inp.s| {
      r := Fail(ExpectedEnd(inp.s[inp.pos]));
    } else {
      r := Ok(());
    }
  }

  method EatSlice(inp: Input, t: seq<char>) returns (r: Result<seq<char>>)
    requires inp.Valid()
    modifies inp`pos
    ensures inp.Valid()
    ensures Reply(r, inp.pos) == EatSliceSpec(inp.s, old(inp.pos), t)
  {
    var rest := inp.s[inp.pos..];
    if |t| <= |rest| && rest[..|t|] == t {
      inp.pos := inp.pos + |t|;
      r := Ok(t);
    } else {
      r := Fail(Mismatch(t, if |t| <= |rest| then rest[..|t|] else rest));
    }
  }

  /** `peek(c)`, wrapped with the `peek` policy. */
  method Peek(inp: Input, c: char) returns (r: Result<char>)
    requires inp.Valid()
    modifies inp
    ensures inp.Valid()
    ensures Reply(r, inp.pos) == PeekSpec(inp.s, old(inp.pos), c)
    ensures inp.log == old(inp.log) + [Marked(PeekInfo, old(inp.pos)), Unmarked(PeekInfo, r.Ok?)]
  {
    var m := inp.Mark(PeekInfo);
    var body := Eat(inp, c);
    r := Finish(inp, PeekInfo, PeekOnly, m, body);
  }

  /** `peek_slice(t)`, wrapped with the `peek` policy. */
  method PeekSlice(inp: Input, t: seq<char>) returns (r: Result<seq<char>>)
    requires inp.Valid()
    modifies inp
    ensures inp.Valid()
    ensures Reply(r, inp.pos) == PeekSliceSpec(inp.s, old(inp.pos), t)
    ensures inp.log == old(inp.log) + [Marked(PeekSliceInfo, old(inp.pos)), Unmarked(PeekSliceInfo, r.Ok?)]
  {
    var m := inp.Mark(PeekSliceInfo);
    var body := EatSlice(inp, t);
    r := Finish(inp, PeekSliceInfo, PeekOnly, m, body);
  }

  /** The token scan shared by `take_while`, `take_some_while` and `skip_while`. */
  method ScanWhile(inp: Input, pred: char -> bool) returns (n: nat)
    requires inp.Valid()
    modifies inp`pos
    ensures inp.Valid()
    ensures inp.pos == RunEnd(inp.s, old(inp.pos), pred) && n == inp.pos - old(inp.pos)
  {
    var start := inp.pos;
    while inp.pos < |inp.s| && pred(inp.s[inp.pos])
      invariant start <= inp.pos <= |inp.s|
      invariant RunEnd(inp.s, inp.pos, pred) == RunEnd(inp.s, start, pred)
      decreases |inp.s| - inp.pos
    {
      inp.pos := inp.pos + 1;
    }
    n := inp.pos - start;
  }

  method TakeWhile(inp: Input, pred: char -> bool) returns (r: Result<seq<char>>)
    requires inp.Valid()
    modifies inp`pos
    ensures inp.Valid()
    ensures Reply(r, inp.pos) == TakeWhileSpec(inp.s, old(inp.pos), pred)
  {
    var start := inp.pos;
    var n := ScanWhile(inp, pred);
    r := Ok(inp.s[start..inp.pos]);
  }

  method TakeSomeWhile(inp: Input, pred: char -> bool) returns (r: Result<seq<char>>)
    requires inp.Valid()
    modifies inp`pos
    ensures inp.Valid()
    ensures Reply(r, inp.pos) == TakeSomeWhileSpec(inp.s, old(inp.pos), pred)
  {
    var start := inp.pos;
    var n := ScanWhile(inp, pred);
    if n == 0 {
      r := Fail(PredicateViolation);
    } else {
      r := Ok(inp.s[start..inp.pos]);
    }
  }

  method TakeSomeWhileUntil(inp: Input, pred: char -> bool, until: char) returns (r: Result<seq<char>>)
    requires inp.Valid()
    modifies inp`pos
    ensures inp.Valid()
    ensures Reply(r, inp.pos) == TakeSomeWhileUntilSpec(inp.s, old(inp.pos), pred, until)
  {
    r := TakeSomeWhile(inp, Except(pred, until));
  }

  method SkipWhile(inp: Input, pred: char -> bool) returns (r: Result<()>)
    requires inp.Valid()
    modifies inp`pos
    ensures inp.Valid()
    ensures Reply(r, inp.pos) == SkipWhileSpec(inp.s, old(inp.pos), pred)
  {
    var n := ScanWhile(inp, pred);
    r := Ok(());
  }

  method TakeWhileSlice(inp: Input, pred: seq<char> -> bool) returns (r: Result<seq<char>>)
    requires inp.Valid()
    modifies inp`pos
    ensures inp.Valid()
    ensures Reply(r, inp.pos) == TakeWhileSliceSpec(inp.s, old(inp.pos), pred)
  {
    var rest := inp.s[inp.pos..];
    var n := 0;
    while n < |rest| && pred(rest[..n + 1])
      invariant n <= |rest|
      invariant SliceRunFrom(rest, pred, n) == SliceLen(rest, pred)
    {
      n := n + 1;
    }
    inp.pos := inp.pos + n;
    r := Ok(rest[..n]);
  }

  method TakeWhileWindow(inp: Input, w: nat, pred: seq<char> -> bool) returns (r: Result<seq<char>>)
    requires inp.Valid() && w > 0
    modifies inp`pos
    ensures inp.Valid()
    ensures Reply(r, inp.pos) == TakeWhileWindowSpec(inp.s, old(inp.pos), w, pred)
  {
    var rest := inp.s[inp.pos..];
    if |rest| < w {
      inp.pos := |inp.s|;
      assert rest[..|rest|] == rest;
      r := Ok(rest);
      return;
    }
    var n := 0;
    while n + w <= |rest| && pred(rest[n..n + w])
      invariant n + w <= |rest| + 1
      invariant WindowRunFrom(rest, w, pred, n) == WindowLen(rest, w, pred)
    {
      n := n + 1;
    }
    inp.pos := inp.pos + n;
    r := Ok(rest[..n]);
  }

  method TakeSomeWhileWindow(inp: Input, w: nat, pred: seq<char> -> bool) returns (r: Result<seq<char>>)
    requires inp.Valid() && w > 0
    modifies inp`pos
    ensures inp.Valid()
    ensures Reply(r, inp.pos) == TakeSomeWhileWindowSpec(inp.s, old(inp.pos), w, pred)
  {
    var start := inp.pos;
    r := TakeWhileWindow(inp, w, pred);
    if inp.pos == start {
      r := Fail(PredicateViolation);
    }
  }

  method TakeWhileSomeWindow(inp: Input, w: nat, pred: seq<char> -> bool) returns (r: Result<seq<char>>)
    requires inp.Valid() && w > 0
    modifies inp`pos
    ensures inp.Valid()
    ensures Reply(r, inp.pos) == TakeWhileSomeWindowSpec(inp.s, old(inp.pos), w, pred)
  {
    if |inp.s| - inp.pos < w {
      r := Fail(EndOfInput);
    } else {
      r := TakeWhileWindow(inp, w, pred);
    }
  }

  method TakeSomeWhileSomeWindow(inp: Input, w: nat, pred: seq<char> -> bool) returns (r: Result<seq<char>>)
    requires inp.Valid() && w > 0
    modifies inp`pos
    ensures inp.Valid()
    ensures Reply(r, inp.pos) == TakeSomeWhileSomeWindowSpec(inp.s, old(inp.pos), w, pred)
  {
    if |inp.s| - inp.pos < w {
      r := Fail(EndOfInput);
    } else {
      r := TakeSomeWhileWindow(inp, w, pred);
    }
  }

  method TakeUntilSlice(inp: Input, t: seq<char>) returns (r: Result<seq<char>>)
    requires inp.Valid()
    modifies inp`pos
    ensures inp.Valid()
    ensures Reply(r, inp.pos) == TakeUntilSliceSpec(inp.s, old(inp.pos), t)
  {
    if t == [] {
      r := Ok([]);
    } else {
      r := TakeWhileWindow(inp, |t|, WindowIsNot(t));
    }
  }
}
