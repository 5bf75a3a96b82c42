/**
 * The media-type example (examples/media_type/src/main.rs): a parser for
 * `top/sub; key=value; ...` media types, as in section 3.1.1.1 of RFC 7231,
 * with quoted values whose backslash escapes follow the quoted-pair rule of
 * section 3.2.6 of RFC 7230, and for the comma-separated, optionally
 * weighted lists of the Accept header (section 5.3.2 of RFC 7231).
 */
module MediaTypes {
  import opened Engine
  import opened Slices
  import opened Parsers
  import opened Alternation

  // ------------------------------------------------------------ characters

  /** `is_valid_token`: the token characters this parser admits. */
  predicate IsValidToken(c: char) {
    || ('0' <= c <= '9') || ('a' <= c <= 'z') || ('^' <= c <= '~') || ('#' <= c <= '\'')
    || c == '!' || c == '*' || c == '+' || c == '-' || c == '.'
  }

  /** `is_whitespace`: space and horizontal tab. */
  predicate IsWhitespace(c: char) {
    c == ' ' || c == '\t'
  }

  /**
   * The delimiters the grammar relies on are never token characters, and
   * neither is whitespace, so a token run stops at each of them. Unlike the
   * token rule of section 3.2.6 of RFC 7230, upper-case letters are not
   * token characters and `{` and `}` are.
   */
  lemma DelimitersAreNotTokens()
    ensures forall c :: c in "/;=,\"\\ \t" ==> !IsValidToken(c)
    ensures forall c :: IsWhitespace(c) ==> !IsValidToken(c)
    ensures forall c :: 'A' <= c <= 'Z' ==> !IsValidToken(c)
    ensures IsValidToken('{') && IsValidToken('}')
  {
  }

  /** `take_some_while_until(is_valid_token, d)` for a delimiter `d` is a plain token run. */
  lemma UntilDelimiterIsTokenRun(s: seq<char>, p: nat, d: char)
    requires !IsValidToken(d)
    ensures TakeSomeWhileUntilSpec(s, p, IsValidToken, d) == TakeSomeWhileSpec(s, p, IsValidToken)
  {
    if p <= |s| {
      RunEndStops(s, p, IsValidToken);
      RunEndUnique(s, p, Except(IsValidToken, d), RunEnd(s, p, IsValidToken));
    }
  }

  // -------------------------------------------------------- quoted strings

  /**
   * One call of the `take_while` closure in `quoted_string`: whether the
   * token is taken, and the closure's `is_escaped` flag afterwards.
   */
  function QuoteStep(escaped: bool, c: char): (bool, bool) {
    if escaped then (true, false)
    else if c == '\\' then (true, true)
    else (c != '"', false)
  }

  /** How many tokens `take_while` takes from `rest` when the closure's flag starts as `escaped`. */
  function QuotedLen(rest: seq<char>, escaped: bool): (n: nat)
    ensures n <= |rest|
  {
    if rest == [] then 0
    else
      var step := QuoteStep(escaped, rest[0]);
      if step.0 then 1 + QuotedLen(rest[1..], step.1) else 0
  }

  /** The number of backslashes immediately before position `i` of `t`. */
  function BackslashesBefore(t: seq<char>, i: nat): (n: nat)
    requires i <= |t|
    ensures n <= i
  {
    if i == 0 || t[i - 1] != '\\' then 0 else 1 + BackslashesBefore(t, i - 1)
  }

  /** The token at `i` is escaped: an odd number of backslashes precedes it. */
  predicate Escaped(t: seq<char>, i: nat)
    requires i <= |t|
  {
    BackslashesBefore(t, i) % 2 == 1
  }

  /** A closing quote: a `"` that is not escaped. */
  predicate ClosesAt(t: seq<char>, i: nat)
    requires i < |t|
  {
    t[i] == '"' && !Escaped(t, i)
  }

  /**
   * Run from position `k` with the flag the closure would have there, the
   * scan stops at the first closing quote at or after `k`, or at the end.
   */
  lemma {:induction false} QuotedLenFindsClose(t: seq<char>, k: nat)
    requires k <= |t|
    ensures var n := k + QuotedLen(t[k..], Escaped(t, k));
      && n <= |t|
      && (forall i :: k <= i < n ==> !ClosesAt(t, i))
      && (n < |t| ==> ClosesAt(t, n))
    decreases |t| - k
  {
    if k < |t| {
      var e := Escaped(t, k);
      assert t[k..][0] == t[k] && t[k..][1..] == t[k + 1..];
      assert Escaped(t, k + 1) == (!e && t[k] == '\\');
      QuotedLenFindsClose(t, k + 1);
    }
  }

  /** `take_while` with the escape-tracking closure of `quoted_string`. */
  function QuotedRunSpec(s: seq<char>, p: nat): (r: Reply<seq<char>>)
    ensures r.result.Ok? && p <= r.pos && (p <= |s| ==> r.pos <= |s|)
  {
    var n := QuotedLen(Rest(s, p), false);
    Reply(Ok(Rest(s, p)[..n]), p + n)
  }

  const QuotedStringInfo := ParserInfo("quoted_string", false)

  /** `eat('"')?; let inner = take_while(...)?; eat('"')?; inner` */
  function QuotedStringBody(s: seq<char>, p: nat): BodyOut<seq<char>> {
    var open := EatSpec(s, p, '"');
    if open.result.Err? then Try(Failed(open))
    else
      var inner := QuotedRunSpec(s, open.pos);
      var close := EatSpec(s, inner.pos, '"');
      if close.result.Err? then Try(Failed(close))
      else BodyOut(Bare(inner.result.value), close.pos)
  }

  function QuotedStringSpec(s: seq<char>, p: nat): (r: Reply<seq<char>>)
    ensures p <= r.pos && (p <= |s| ==> r.pos <= |s|)
  {
    Conclude(QuotedStringInfo, Plain, p, Lift(QuotedStringBody(s, p)))
  }

  /** `t` holds a closing quote. */
  ghost predicate HasClose(t: seq<char>) {
    exists i :: 0 <= i < |t| && ClosesAt(t, i)
  }

  /** No closing quote lies before position `n` of `t`. */
  ghost predicate NoCloseBefore(t: seq<char>, n: nat) {
    forall i :: 0 <= i < n && i < |t| ==> !ClosesAt(t, i)
  }

  /** The scan of `quoted_string` from the start of `t` stops at the first closing quote, or at the end. */
  lemma {:induction false} QuotedLenFirstClose(t: seq<char>)
    ensures var n := QuotedLen(t, false);
      && NoCloseBefore(t, n)
      && (n < |t| <==> HasClose(t))
      && (n < |t| ==> ClosesAt(t, n))
  {
    assert !Escaped(t, 0);
    QuotedLenFindsClose(t, 0);
    assert t[0..] == t;
    var n := QuotedLen(t, false);
    if n < |t| {
      assert ClosesAt(t, n);
    } else {
      assert !HasClose(t);
    }
  }

  /**
   * `quoted_string` needs an opening `"` and a closing one, and returns what
   * lies between: everything up to the first `"` after the opening one
   * that is not escaped by an odd run of backslashes. Backslashes are kept
   * in the value.
   */
  lemma QuotedStringReads(s: seq<char>, p: nat)
    requires p <= |s|
    ensures var r := QuotedStringSpec(s, p);
      && (r.result.Ok? <==> p < |s| && s[p] == '"' && HasClose(s[p + 1..]))
      && (r.result.Ok? ==>
            var v := r.result.value;
            && r.pos == p + |v| + 2 <= |s|
            && v == s[p + 1..p + 1 + |v|]
            && ClosesAt(s[p + 1..], |v|)
            && NoCloseBefore(s[p + 1..], |v|))
      && (r.result.Err? ==> r.result.error.trace[|r.result.error.trace| - 1].1 == QuotedStringInfo)
  {
    if p < |s| && s[p] == '"' {
      var t := s[p + 1..];
      assert Rest(s, p + 1) == t;
      QuotedLenFirstClose(t);
      var n := QuotedLen(t, false);
      assert n < |t| ==> s[p + 1 + n] == t[n];
    }
  }

  // ------------------------------------------------------------- media_param

  /** A parameter: its key and its value. */
  type Param = (seq<char>, seq<char>)

  const MediaParamInfo := ParserInfo("media_param", false)

  function PeekQuote(): Step<char> {
    (s: seq<char>, p: nat) => PeekSpec(s, p, '"')
  }

  function QuotedValue(): Arm<char, seq<char>> {
    (_: char, s: seq<char>, p: nat) => QuotedStringSpec(s, p)
  }

  function TokenValue(): Step<seq<char>> {
    (s: seq<char>, p: nat) => TakeSomeWhileUntilSpec(s, p, IsValidToken, ';')
  }

  /** `switch! { peek('"') => quoted_string()?, _ => take_some_while_until(is_valid_token, ';')? }` */
  function ParamValueCases(): seq<Case<char, seq<char>>> {
    [Calls([PeekQuote()], QuotedValue()), Wild(TokenValue())]
  }

  /**
   * The value of a parameter: a quoted string where the input holds `"`, a
   * token run otherwise. `ParamValueIsSwitch` shows that this is what the
   * `switch!` with its `peek('"')` guard evaluates to.
   */
  function ParamValueSpec(s: seq<char>, p: nat): (r: Reply<seq<char>>)
    ensures p <= r.pos && (p <= |s| ==> r.pos <= |s|)
  {
    if p < |s| && s[p] == '"' then QuotedStringSpec(s, p)
    else TakeSomeWhileUntilSpec(s, p, IsValidToken, ';')
  }

  /** The expansion is the switch: the first case when its guard succeeds, the wildcard otherwise. */
  lemma ParamValueIsSwitch(s: seq<char>, p: nat)
    ensures var out := Switch(ParamValueCases(), s, p);
      && out.outcome.Ran?
      && Reply(out.outcome.result, out.pos) == ParamValueSpec(s, p)
  {
  }

  /** The value switch as a parser. */
  function ParamValue(): Step<seq<char>> {
    (s: seq<char>, p: nat) => ParamValueSpec(s, p)
  }

  /**
   * `let key = (take_some_while_until(is_valid_token, '=')?, eat('=')?).0;`
   * then `value` (the switch), then `(key, value)`.
   */
  function KeyValueBody(value: Step<seq<char>>, s: seq<char>, p: nat): BodyOut<Param> {
    var key := TakeSomeWhileUntilSpec(s, p, IsValidToken, '=');
    if key.result.Err? then Try(Failed(key))
    else
      var eq := EatSpec(s, key.pos, '=');
      if eq.result.Err? then Try(Failed(eq))
      else
        var v := value(s, eq.pos);
        if v.result.Err? then Try(Failed(v))
        else BodyOut(Bare((key.result.value, v.result.value)), v.pos)
  }

  function MediaParamSpec(s: seq<char>, p: nat): (r: Reply<Param>)
    ensures p <= r.pos && (p <= |s| ==> r.pos <= |s|)
  {
    Conclude(MediaParamInfo, Plain, p, Lift(KeyValueBody(ParamValue(), s, p)))
  }

  /** `take_some_while_until(is_valid_token, d)` for a delimiter `d` takes the non-empty token run at `p`. */
  lemma TokenRun(s: seq<char>, p: nat, d: char)
    requires p <= |s| && !IsValidToken(d)
    ensures var run := TakeSomeWhileUntilSpec(s, p, IsValidToken, d);
      var e := RunEnd(s, p, IsValidToken);
      && (run.result.Ok? <==> p < e)
      && (run.result.Ok? ==> run.pos == e && run.result.value == s[p..e])
  {
    UntilDelimiterIsTokenRun(s, p, d);
  }

  /**
   * The body reads a non-empty token run as the key, then `=`, then the
   * value from the next position; it fails exactly when one of these does.
   */
  lemma KeyValueReads(value: Step<seq<char>>, s: seq<char>, p: nat)
    requires p <= |s|
    ensures var b := Lift(KeyValueBody(value, s, p));
      var k := RunEnd(s, p, IsValidToken);
      var v := value(s, k + 1);
      && (b.result.Ok? <==> p < k < |s| && s[k] == '=' && v.result.Ok?)
      && (b.result.Ok? ==> v.result.Ok? && b.result.value == (s[p..k], v.result.value) && b.pos == v.pos)
  {
    DelimitersAreNotTokens();
    TokenRun(s, p, '=');
  }

  /** The value of a parameter that starts at `v`: quoted when `v` holds `"`, a token run otherwise. */
  ghost predicate ValueAt(s: seq<char>, v: nat, value: seq<char>, end: nat)
    requires v <= |s|
  {
    if v < |s| && s[v] == '"' then QuotedStringSpec(s, v) == Reply(Ok(value), end)
    else
      && end == RunEnd(s, v, IsValidToken) && v < end
      && value == s[v..end]
  }

  /** The value switch at `v`: the quoted string if `v` holds `"`, the token run otherwise. */
  lemma ParamValueIs(s: seq<char>, v: nat)
    requires v <= |s|
    ensures var r := ParamValueSpec(s, v);
      && (r.result.Ok? <==>
            if v < |s| && s[v] == '"' then QuotedStringSpec(s, v).result.Ok?
            else v < |s| && IsValidToken(s[v]))
      && (r.result.Ok? ==> ValueAt(s, v, r.result.value, r.pos))
  {
    DelimitersAreNotTokens();
    UntilDelimiterIsTokenRun(s, v, ';');
  }

  /**
   * A parameter is a non-empty run of token characters (its key), then
   * `=`, then a value that the value switch reads from the next position
   * (see `ParamValueIs`); the parameter ends where the value ends. A
   * failure carries `media_param`'s context last.
   */
  lemma MediaParamReads(s: seq<char>, p: nat)
    requires p <= |s|
    ensures var r := MediaParamSpec(s, p);
      var k := RunEnd(s, p, IsValidToken);
      var v := ParamValue()(s, k + 1);
      && (r.result.Ok? <==> p < k < |s| && s[k] == '=' && v.result.Ok?)
      && (r.result.Ok? ==> v.result.Ok? && r.result.value == (s[p..k], v.result.value) && r.pos == v.pos)
      && (r.result.Err? ==> |r.result.error.trace| > 0 && r.result.error.trace[|r.result.error.trace| - 1].1 == MediaParamInfo)
  {
    var b := Lift(KeyValueBody(ParamValue(), s, p));
    KeyValueReads(ParamValue(), s, p);
    ConcludeOutcome(MediaParamInfo, Plain, p, b);
    assert MediaParamSpec(s, p) == Conclude(MediaParamInfo, Plain, p, b);
  }

  // -------------------------------------------------------------- media_type

  /** A media type `top/sub` with its parameters, in the order they appear. */
  datatype MediaType = MediaType(top: seq<char>, sub: seq<char>, params: seq<Param>)

  const MediaTypeInfo := ParserInfo("media_type", false)

  /** `media_param` as a parser. */
  function MediaParamParser(): Step<Param> {
    (s: seq<char>, p: nat) => MediaParamSpec(s, p)
  }

  /** `|i| surrounded(i, media_param, is_whitespace)`: a parameter with blanks around it. */
  function PaddedParam(): Step<Param> {
    Surrounded(MediaParamParser(), IsWhitespace)
  }

  lemma PaddedParamAdvances(s: seq<char>)
    ensures Advances(PaddedParam(), s)
  {
    assert Advances(MediaParamParser(), s);
    SurroundedPads(MediaParamParser(), IsWhitespace, s);
  }

  /**
   * The fields of `media_type`, in the order Rust evaluates them: `top`
   * up to `/`, then the rest.
   */
  function MediaTypeBody(param: Step<Param>, s: seq<char>, p: nat): BodyOut<MediaType>
    requires Advances(param, s)
  {
    var top := TakeSomeWhileUntilSpec(s, p, IsValidToken, '/');
    if top.result.Err? then Try(Failed(top))
    else SubtypeThenParams(param, s, top.pos, top.result.value)
  }

  /** `sub: (eat('/')?, take_some_while_until(is_valid_token, ';')?).1`, then the parameters. */
  function SubtypeThenParams(param: Step<Param>, s: seq<char>, q: nat, top: seq<char>): BodyOut<MediaType>
    requires Advances(param, s)
  {
    var slash := EatSpec(s, q, '/');
    if slash.result.Err? then Try(Failed(slash))
    else
      var sub := TakeSomeWhileUntilSpec(s, slash.pos, IsValidToken, ';');
      if sub.result.Err? then Try(Failed(sub))
      else ParamsThenDone(param, s, sub.pos, top, sub.result.value)
  }

  /** `params: { skip_while(is_whitespace)?; prefixed_series(';', param, ';')? }`, then the value. */
  function ParamsThenDone(param: Step<Param>, s: seq<char>, q: nat, top: seq<char>, sub: seq<char>): BodyOut<MediaType>
    requires Advances(param, s) && q <= |s|
  {
    var blanks := SkipWhileSpec(s, q, IsWhitespace);
    var params := PrefixedSeriesSpec(';', param, ';', s, blanks.pos);
    if params.result.Err? then Try(Failed(params))
    else BodyOut(Bare(MediaType(top, sub, params.result.value)), params.pos)
  }

  function MediaTypeSpec(s: seq<char>, p: nat): (r: Reply<MediaType>)
    ensures p <= r.pos && (p <= |s| ==> r.pos <= |s|)
  {
    PaddedParamAdvances(s);
    Conclude(MediaTypeInfo, Plain, p, Lift(MediaTypeBody(PaddedParam(), s, p)))
  }

  /** The parameters are the prefixed series read after the blanks at `q`; this part never fails. */
  lemma ParamsThenDoneReads(param: Step<Param>, s: seq<char>, q: nat, top: seq<char>, sub: seq<char>)
    requires Advances(param, s) && q <= |s|
    ensures var params := PrefixedSeriesSpec(';', param, ';', s, RunEnd(s, q, IsWhitespace));
      Lift(ParamsThenDone(param, s, q, top, sub)) == Reply(Ok(MediaType(top, sub, params.result.value)), params.pos)
  {
  }

  /** After `top`, a `/` and a non-empty token run must follow: that run is `sub`. */
  lemma SubtypeThenParamsReads(param: Step<Param>, s: seq<char>, q: nat, top: seq<char>)
    requires Advances(param, s) && q <= |s|
    ensures var b := Lift(SubtypeThenParams(param, s, q, top));
      var e := RunEnd(s, q + 1, IsValidToken);
      && (b.result.Ok? <==> q < |s| && s[q] == '/' && q + 1 < e)
      && (b.result.Ok? ==> b == Lift(ParamsThenDone(param, s, e, top, s[q + 1..e])))
  {
    if q < |s| && s[q] == '/' {
      TokenRun(s, q + 1, ';');
    }
  }

  /** `top` is the non-empty token run at `p`; the rest is read after it. */
  lemma MediaTypeBodyStarts(param: Step<Param>, s: seq<char>, p: nat)
    requires Advances(param, s) && p <= |s|
    ensures var b := Lift(MediaTypeBody(param, s, p));
      var a := RunEnd(s, p, IsValidToken);
      && (b.result.Ok? <==> p < a && Lift(SubtypeThenParams(param, s, a, s[p..a])).result.Ok?)
      && (b.result.Ok? ==> b == Lift(SubtypeThenParams(param, s, a, s[p..a])))
  {
    TokenRun(s, p, '/');
  }

  /**
   * The body fails exactly when it does not find a non-empty token run,
   * then `/`, then a non-empty token run.
   */
  lemma MediaTypeBodyAccepts(param: Step<Param>, s: seq<char>, p: nat)
    requires Advances(param, s) && p <= |s|
    ensures var a := RunEnd(s, p, IsValidToken);
      Lift(MediaTypeBody(param, s, p)).result.Ok? <==> p < a < |s| && s[a] == '/' && a + 1 < RunEnd(s, a + 1, IsValidToken)
  {
    var a := RunEnd(s, p, IsValidToken);
    MediaTypeBodyStarts(param, s, p);
    if p < a {
      SubtypeThenParamsReads(param, s, a, s[p..a]);
    }
  }

  /** What a body that succeeds reads: `top`, then `sub` after the `/`, then the parameters. */
  lemma MediaTypeBodyValue(param: Step<Param>, s: seq<char>, p: nat)
    requires Advances(param, s) && p <= |s|
    requires Lift(MediaTypeBody(param, s, p)).result.Ok?
    ensures var a := RunEnd(s, p, IsValidToken); a < RunEnd(s, a + 1, IsValidToken) <= |s|
    ensures var b := Lift(MediaTypeBody(param, s, p));
      var a := RunEnd(s, p, IsValidToken);
      var e := RunEnd(s, a + 1, IsValidToken);
      var params := PrefixedSeriesSpec(';', param, ';', s, RunEnd(s, e, IsWhitespace));
      && b.result.value == MediaType(s[p..a], s[a + 1..e], params.result.value)
      && b.pos == params.pos
  {
    var a := RunEnd(s, p, IsValidToken);
    MediaTypeBodyStarts(param, s, p);
    SubtypeThenParamsReads(param, s, a, s[p..a]);
    var e := RunEnd(s, a + 1, IsValidToken);
    ParamsThenDoneReads(param, s, e, s[p..a], s[a + 1..e]);
  }

  /**
   * The body reads a non-empty token run as `top`, then `/`, then a
   * non-empty token run as `sub`, and fails exactly when one of these is
   * missing. The parameters are the prefixed series read after the blanks
   * that follow `sub`, and the body ends where that series ends.
   */
  lemma MediaTypeBodyReads(param: Step<Param>, s: seq<char>, p: nat)
    requires Advances(param, s) && p <= |s|
    ensures var b := Lift(MediaTypeBody(param, s, p));
      var a := RunEnd(s, p, IsValidToken);
      var e := RunEnd(s, a + 1, IsValidToken);
      && (b.result.Ok? <==> p < a < |s| && s[a] == '/' && a + 1 < e)
      && (b.result.Ok? ==>
            var params := PrefixedSeriesSpec(';', param, ';', s, RunEnd(s, e, IsWhitespace));
            && b.result.value == MediaType(s[p..a], s[a + 1..e], params.result.value)
            && b.pos == params.pos)
  {
    MediaTypeBodyAccepts(param, s, p);
    if Lift(MediaTypeBody(param, s, p)).result.Ok? {
      MediaTypeBodyValue(param, s, p);
    }
  }

  // ================================================================ methods

  /**
   * The `take_while` of `quoted_string`, with the closure's `is_escaped`
   * flag as a local that each call of the closure updates.
   */
  method QuotedRun(inp: Input) returns (inner: seq<char>)
    requires inp.Valid()
    modifies inp`pos
    ensures inp.Valid()
    ensures Reply(Ok(inner), inp.pos) == QuotedRunSpec(inp.s, old(inp.pos))
  {
    var start := inp.pos;
    var escaped := false;
    while inp.pos < |inp.s| && QuoteStep(escaped, inp.s[inp.pos]).0
      invariant start <= inp.pos <= |inp.s|
      invariant start + QuotedLen(inp.s[start..], false) == inp.pos + QuotedLen(inp.s[inp.pos..], escaped)
      decreases |inp.s| - inp.pos
    {
      assert inp.s[inp.pos..][0] == inp.s[inp.pos] && inp.s[inp.pos..][1..] == inp.s[inp.pos + 1..];
      escaped := QuoteStep(escaped, inp.s[inp.pos]).1;
      inp.pos := inp.pos + 1;
    }
    if inp.pos < |inp.s| {
      assert inp.s[inp.pos..][0] == inp.s[inp.pos];
    }
    assert QuotedLen(inp.s[inp.pos..], escaped) == 0;
    assert Rest(inp.s, start)[..inp.pos - start] == inp.s[start..inp.pos];
    inner := inp.s[start..inp.pos];
  }

  method QuotedString(inp: Input) returns (r: Result<seq<char>>)
    requires inp.Valid()
    modifies inp
    ensures inp.Valid()
    ensures Reply(r, inp.pos) == QuotedStringSpec(inp.s, old(inp.pos))
    ensures inp.log == old(inp.log) + [Marked(QuotedStringInfo, old(inp.pos)), Unmarked(QuotedStringInfo, r.Ok?)]
  {
    var m := inp.Mark(QuotedStringInfo);
    var res: Result<seq<char>>;
    var open := Eat(inp, '"');
    if open.Err? {
      res := Err(open.error);
    } else {
      var inner := QuotedRun(inp);
      var close := Eat(inp, '"');
      res := if close.Err? then Err(close.error) else Ok(inner);
    }
    r := Finish(inp, QuotedStringInfo, Plain, m, res);
  }

  /** The `switch!` of `media_param`: `peek('"')` selects the quoted string, the wildcard a token run. */
  method ParamValueSwitch(inp: Input) returns (r: Result<seq<char>>)
    requires inp.Valid()
    modifies inp
    ensures inp.Valid()
    ensures Reply(r, inp.pos) == ParamValueSpec(inp.s, old(inp.pos))
    ensures Extends(old(inp.log), inp.log)
  {
    var quote := Peek(inp, '"');
    if quote.Ok? {
      r := QuotedString(inp);
    } else {
      r := TakeSomeWhileUntil(inp, IsValidToken, ';');
    }
  }

  /** The body of `media_param`: the key, `=`, the value switch. */
  method KeyValue(inp: Input) returns (res: Result<Param>)
    requires inp.Valid()
    modifies inp
    ensures inp.Valid()
    ensures Reply(res, inp.pos) == Lift(KeyValueBody(ParamValue(), inp.s, old(inp.pos)))
    ensures Extends(old(inp.log), inp.log)
  {
    var key := TakeSomeWhileUntil(inp, IsValidToken, '=');
    match key {
      case Err(e) => res := Err(e);
      case Ok(k) =>
        var eq := Eat(inp, '=');
        if eq.Err? {
          res := Err(eq.error);
        } else {
          var value := ParamValueSwitch(inp);
          match value {
            case Err(e) => res := Err(e);
            case Ok(v) => res := Ok((k, v));
          }
        }
    }
  }

  method MediaParam(inp: Input) returns (r: Result<Param>)
    requires inp.Valid()
    modifies inp
    ensures inp.Valid()
    ensures Reply(r, inp.pos) == MediaParamSpec(inp.s, old(inp.pos))
    ensures Bracketed(old(inp.log), inp.log, MediaParamInfo, old(inp.pos), r.Ok?)
  {
    var m := inp.Mark(MediaParamInfo);
    var res := KeyValue(inp);
    r := Finish(inp, MediaParamInfo, Plain, m, res);
  }

  /** `surrounded(i, media_param, is_whitespace)`: blanks, a parameter, and the blanks after a parameter that was read. */
  method PaddedMediaParam(inp: Input) returns (r: Result<Param>)
    requires inp.Valid()
    modifies inp
    ensures inp.Valid()
    ensures Reply(r, inp.pos) == PaddedParam()(inp.s, old(inp.pos))
    ensures Extends(old(inp.log), inp.log)
  {
    var before := SkipWhile(inp, IsWhitespace);
    r := MediaParam(inp);
    if r.Ok? {
      var after := SkipWhile(inp, IsWhitespace);
    }
  }

  /**
   * One round of the loop of `series(|i| surrounded(i, media_param,
   * is_whitespace), ';')`: the `;` and one more parameter; a parameter that
   * fails is rewound together with its `;`.
   */
  method NextParam(inp: Input) returns (next: Result<Param>)
    requires inp.Valid() && inp.pos < |inp.s| && inp.s[inp.pos] == ';'
    modifies inp
    ensures inp.Valid()
    ensures var item := PaddedParam()(inp.s, old(inp.pos) + 1);
      && next == item.result
      && inp.pos == (if next.Ok? then item.pos else old(inp.pos))
    ensures Extends(old(inp.log), inp.log)
  {
    var before := inp.pos;
    var sep := Eat(inp, ';');
    next := PaddedMediaParam(inp);
    if next.Err? {
      inp.RewindTo(Marker(before));
    }
  }

  /** The loop of the parameter series after its first parameter: it ends at the first round that fails. */
  method MoreParams(inp: Input, acc: seq<Param>) returns (params: seq<Param>)
    requires inp.Valid()
    modifies inp
    ensures inp.Valid()
    ensures (PaddedParamAdvances(inp.s);
      Reply(Ok(params), inp.pos) == SeriesMore(PaddedParam(), ';', inp.s, old(inp.pos), acc))
    ensures Extends(old(inp.log), inp.log)
  {
    PaddedParamAdvances(inp.s);
    ghost var start := inp.pos;
    params := acc;
    while inp.pos < |inp.s| && inp.s[inp.pos] == ';'
      invariant inp.Valid() && start <= inp.pos
      invariant SeriesMore(PaddedParam(), ';', inp.s, inp.pos, params) == SeriesMore(PaddedParam(), ';', inp.s, start, acc)
      invariant Extends(old(inp.log), inp.log)
      decreases |inp.s| - inp.pos
    {
      ghost var log := inp.log;
      var next := NextParam(inp);
      ExtendsTransitive(old(inp.log), log, inp.log);
      if next.Err? {
        break;
      }
      params := params + [next.value];
    }
  }

  /** `series(|i| surrounded(i, media_param, is_whitespace), ';')`: nothing if the first parameter fails. */
  method ParamSeries(inp: Input) returns (params: seq<Param>)
    requires inp.Valid()
    modifies inp
    ensures inp.Valid()
    ensures (PaddedParamAdvances(inp.s);
      Reply(Ok(params), inp.pos) == SeriesSpec(PaddedParam(), ';', inp.s, old(inp.pos)))
    ensures Extends(old(inp.log), inp.log)
  {
    var start := inp.pos;
    var first := PaddedMediaParam(inp);
    if first.Err? {
      inp.RewindTo(Marker(start));
      return [];
    }
    params := MoreParams(inp, [first.value]);
  }

  /** `prefixed_series(';', ..., ';')`: the series of parameters after a `;`, none without it. */
  method PrefixedParams(inp: Input) returns (params: seq<Param>)
    requires inp.Valid()
    modifies inp
    ensures inp.Valid()
    ensures (PaddedParamAdvances(inp.s);
      Reply(Ok(params), inp.pos) == PrefixedSeriesSpec(';', PaddedParam(), ';', inp.s, old(inp.pos)))
    ensures Extends(old(inp.log), inp.log)
  {
    PaddedParamAdvances(inp.s);
    if inp.pos < |inp.s| && inp.s[inp.pos] == ';' {
      var prefix := Eat(inp, ';');
      params := ParamSeries(inp);
    } else {
      params := [];
    }
  }

  /** The body of `media_type`: its three fields, in order. */
  method MediaTypeFields(inp: Input) returns (res: Result<MediaType>)
    requires inp.Valid()
    modifies inp
    ensures inp.Valid()
    ensures (PaddedParamAdvances(inp.s);
      Reply(res, inp.pos) == Lift(MediaTypeBody(PaddedParam(), inp.s, old(inp.pos))))
    ensures Extends(old(inp.log), inp.log)
  {
    PaddedParamAdvances(inp.s);
    var top := TakeSomeWhileUntil(inp, IsValidToken, '/');
    if top.Err? {
      return Err(top.error);
    }
    var slash := Eat(inp, '/');
    if slash.Err? {
      return Err(slash.error);
    }
    var sub := TakeSomeWhileUntil(inp, IsValidToken, ';');
    if sub.Err? {
      return Err(sub.error);
    }
    var blanks := SkipWhile(inp, IsWhitespace);
    var params := PrefixedParams(inp);
    res := Ok(MediaType(top.value, sub.value, params));
  }

  /** `media_type`: its body inside the invocation wrapper. */
  method ReadMediaType(inp: Input) returns (r: Result<MediaType>)
    requires inp.Valid()
    modifies inp
    ensures inp.Valid()
    ensures Reply(r, inp.pos) == MediaTypeSpec(inp.s, old(inp.pos))
    ensures Bracketed(old(inp.log), inp.log, MediaTypeInfo, old(inp.pos), r.Ok?)
  {
    var m := inp.Mark(MediaTypeInfo);
    var res := MediaTypeFields(inp);
    r := Finish(inp, MediaTypeInfo, Plain, m, res);
  }
}
