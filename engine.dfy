/**
 * The execution engine of the parser runtime: the input capability with its
 * marker protocol, parse errors with their context trace, and the invocation
 * wrapper that the `#[parser]` attribute emits around every parser body
 * (codegen/src/lib.rs, `wrapping_fn_block`).
 */
module Engine {

  /** Identifies one parser invocation: its declared name and whether it is raw. */
  datatype ParserInfo = ParserInfo(name: string, raw: bool)

  /** The `rewind` and `peek` modifiers of a parser declaration. */
  datatype Flags = Flags(rewind: bool, peek: bool)

  const Plain := Flags(false, false)
  const RewindOnly := Flags(true, false)
  const PeekOnly := Flags(false, true)

  /** A snapshot of the input position, taken when an invocation starts. */
  datatype Marker = Marker(at: nat)

  /** The diagnostic context of a failure: where the failing invocation started and where it stopped. */
  datatype Context = Context(start: nat, end: nat)

  datatype Cause =
    | Mismatch(expected: seq<char>, found: seq<char>)
    | EndOfInput
    | ExpectedEnd(next: char)
    | PredicateViolation
    | UserError(message: string)

  /** An error and the (context, parser) entries added while it propagated, innermost first. */
  datatype ParseError = ParseError(cause: Cause, trace: seq<(Context, ParserInfo)>) {
    function PushContext(ctx: Context, info: ParserInfo): ParseError {
      this.(trace := trace + [(ctx, info)])
    }
  }

  datatype Result<T> = Ok(value: T) | Err(error: ParseError)

  datatype Option<T> = None | Some(value: T)

  /** A user-raised error: the cause with an empty trace. */
  function Fail<T>(cause: Cause): Result<T> {
    Err(ParseError(cause, []))
  }

  /** The meaning of a parser run: its result and the position it leaves the input at. */
  datatype Reply<T> = Reply(result: Result<T>, pos: nat)

  function Failed<A, B>(r: Reply<A>): Reply<B>
    requires r.result.Err?
  {
    Reply(Err(r.result.error), r.pos)
  }

  /**
   * What a parser body evaluates to: a bare value (lifted by a non-raw
   * parser) or a full result (the only form a raw parser may produce).
   */
  datatype BodyValue<T> = Bare(v: T) | Full(r: Result<T>)

  /** `AsResult::as_result`: a bare value becomes `Ok`, a result passes through. */
  function AsResult<T>(b: BodyValue<T>): Result<T> {
    match b
    case Bare(v) => Ok(v)
    case Full(r) => r
  }

  datatype BodyOut<T> = BodyOut(value: BodyValue<T>, pos: nat)

  /** A body whose last expression is `parser()?`: the value on success, an early return of the error otherwise. */
  function Try<T>(r: Reply<T>): BodyOut<T> {
    BodyOut(if r.result.Ok? then Bare(r.result.value) else Full(r.result), r.pos)
  }

  /** A parser body as a function of the text and the position it starts at. */
  type Body<T> = (seq<char>, nat) -> BodyOut<T>

  /** The marker protocol's observable events. */
  datatype Event = Marked(info: ParserInfo, at: nat) | Unmarked(info: ParserInfo, success: bool)

  /**
   * `log` is opened by `Marked(info, at)` and closed by `Unmarked(info, ok)`,
   * and extends `before`; whatever nested invocations logged lies in between.
   */
  ghost predicate Bracketed(before: seq<Event>, after: seq<Event>, info: ParserInfo, at: nat, ok: bool) {
    && |after| >= |before| + 2
    && after[..|before|] == before
    && after[|before|] == Marked(info, at)
    && after[|after| - 1] == Unmarked(info, ok)
  }

  /** `after` continues `before`: whatever was logged before is kept. */
  ghost predicate Extends(before: seq<Event>, after: seq<Event>) {
    |after| >= |before| && after[..|before|] == before
  }

  lemma ExtendsTransitive(a: seq<Event>, b: seq<Event>, c: seq<Event>)
    requires Extends(a, b) && Extends(b, c)
    ensures Extends(a, c)
  {
    assert c[..|a|] == c[..|b|][..|a|];
  }

  /** A log that was opened by `Marked` and extended is bracketed once `Unmarked` closes it. */
  lemma ClosingBrackets(before: seq<Event>, inner: seq<Event>, info: ParserInfo, at: nat, ok: bool)
    requires Extends(before + [Marked(info, at)], inner)
    ensures Bracketed(before, inner + [Unmarked(info, ok)], info, at, ok)
  {
    var started := before + [Marked(info, at)];
    assert inner[..|started|] == started;
    assert (inner + [Unmarked(info, ok)])[..|before|] == started[..|before|];
    assert (inner + [Unmarked(info, ok)])[|before|] == started[|before|];
  }

  /** A text input: the token sequence and a cursor into it. */
  class Input {
    const s: seq<char>
    var pos: nat
    ghost var log: seq<Event>

    ghost predicate Valid()
      reads this
    {
      pos <= |s|
    }

    constructor (text: seq<char>)
      ensures s == text && pos == 0 && log == [] && Valid()
    {
      s := text;
      pos := 0;
      log := [];
    }

    /** `Input::mark`: snapshot the position; never fails, never moves. */
    method Mark(info: ParserInfo) returns (m: Marker)
      modifies this`log
      ensures m == Marker(pos)
      ensures log == old(log) + [Marked(info, pos)]
    {
      m := Marker(pos);
      log := log + [Marked(info, pos)];
    }

    /** `Input::context`: the diagnostic for a failure that started at `m`. */
    function ContextOf(m: Marker): (c: Context)
      reads this
      ensures c.start == m.at && c.end == pos
    {
      Context(m.at, pos)
    }

    /** `Rewind::rewind_to`: restore the position saved in `m`. */
    method RewindTo(m: Marker)
      requires m.at <= |s|
      modifies this`pos
      ensures pos == m.at
    {
      pos := m.at;
    }

    /** `Input::unmark`: the last step of every invocation; it does not move the input. */
    method Unmark(info: ParserInfo, success: bool, m: Marker)
      modifies this`log
      ensures log == old(log) + [Unmarked(info, success)]
    {
      log := log + [Unmarked(info, success)];
    }
  }

  /**
   * The wrapper's steps after the body, as a function of the body's result:
   * on failure the context is pushed, then the input is rewound if the
   * parser is `rewind`; on success it is rewound if the parser is `peek`.
   */
  function Conclude<T>(info: ParserInfo, flags: Flags, entry: nat, body: Reply<T>): Reply<T> {
    match body.result
    case Err(e) =>
      Reply(Err(e.PushContext(Context(entry, body.pos), info)), if flags.rewind then entry else body.pos)
    case Ok(_) =>
      Reply(body.result, if flags.peek then entry else body.pos)
  }

  /** The complete wrapped invocation of `body`, as a function of the text and the entry position. */
  function Wrap<T>(info: ParserInfo, flags: Flags, body: Body<T>, s: seq<char>, p: nat): Reply<T> {
    var b := body(s, p);
    Conclude(info, flags, p, Reply(AsResult(b.value), b.pos))
  }

  /** A body's outcome as a reply: its value lifted, and where it left the input. */
  function Lift<T>(b: BodyOut<T>): Reply<T> {
    Reply(AsResult(b.value), b.pos)
  }

  /**
   * The wrapper keeps a successful result as it is and extends a failure's
   * trace by this invocation's context, which it appends last; without
   * `rewind` and `peek` it leaves the input wherever the body left it.
   */
  lemma ConcludeOutcome<T>(info: ParserInfo, flags: Flags, entry: nat, body: Reply<T>)
    ensures var r := Conclude(info, flags, entry, body);
      && (r.result.Ok? <==> body.result.Ok?)
      && (r.result.Ok? ==> r.result == body.result)
      && (r.result.Err? ==>
            && r.result.error.cause == body.result.error.cause
            && r.result.error.trace == body.result.error.trace + [(Context(entry, body.pos), info)])
      && (!flags.rewind && !flags.peek ==> r.pos == body.pos)
  {
  }

  /**
   * The tail of the emitted block (lines 165-181): push the context and
   * rewind on failure, rewind a `peek` parser on success, then unmark with
   * the success flag.
   */
  method Finish<T>(inp: Input, info: ParserInfo, flags: Flags, m: Marker, res: Result<T>) returns (out: Result<T>)
    requires inp.Valid() && m.at <= |inp.s|
    modifies inp
    ensures inp.Valid()
    ensures Reply(out, inp.pos) == Conclude(info, flags, m.at, Reply(res, old(inp.pos)))
    ensures inp.log == old(inp.log) + [Unmarked(info, res.Ok?)]
  {
    out := res;
    if out.Err? {
      var ctx := inp.ContextOf(m);
      out := Err(out.error.PushContext(ctx, info));
      if flags.rewind {
        inp.RewindTo(m);
      }
    } else {
      if flags.peek {
        inp.RewindTo(m);
      }
    }
    inp.Unmark(info, out.Ok?, m);
  }

  /**
   * One invocation of a parser whose body is `body`: mark, run the body and
   * lift its value, conclude, unmark.
   */
  method Invoke<T>(inp: Input, info: ParserInfo, flags: Flags, body: Body<T>) returns (res: Result<T>)
    requires inp.Valid()
    requires body(inp.s, inp.pos).pos <= |inp.s|
    requires info.raw ==> body(inp.s, inp.pos).value.Full?
    modifies inp
    ensures inp.Valid()
    // mark exactly once first, unmark exactly once last, with the success flag
    ensures inp.log == old(inp.log) + [Marked(info, old(inp.pos)), Unmarked(info, res.Ok?)]
    // lifting: a bare value becomes Ok, a full result passes through
    ensures var b := body(inp.s, old(inp.pos));
      && (b.value.Bare? ==> res == Ok(b.value.v))
      && (b.value.Full? && b.value.r.Ok? ==> res == b.value.r)
    // failure: the error is the body's, with this invocation's context appended last
    ensures var b := body(inp.s, old(inp.pos));
      b.value.Full? && b.value.r.Err? ==>
        res == Err(ParseError(b.value.r.error.cause,
                              b.value.r.error.trace + [(Context(old(inp.pos), b.pos), info)]))
    // position rules
    ensures flags.rewind && res.Err? ==> inp.pos == old(inp.pos)
    ensures flags.peek && res.Ok? ==> inp.pos == old(inp.pos)
    ensures !flags.peek && res.Ok? ==> inp.pos == body(inp.s, old(inp.pos)).pos
    ensures !flags.rewind && res.Err? ==> inp.pos == body(inp.s, old(inp.pos)).pos
    ensures Reply(res, inp.pos) == Wrap(info, flags, body, inp.s, old(inp.pos))
  {
    var m := inp.Mark(info);
    var b := body(inp.s, inp.pos);
    inp.pos := b.pos;
    res := Finish(inp, info, flags, m, AsResult(b.value));
  }

  /** An error propagated outwards through invocations `frames`, innermost first. */
  function Propagate(e: ParseError, frames: seq<(Context, ParserInfo)>): ParseError
    decreases |frames|
  {
    if frames == [] then e
    else Propagate(e.PushContext(frames[0].0, frames[0].1), frames[1..])
  }

  /**
   * Context ordering: a failure that unwinds through nested invocations
   * keeps its cause and lists the innermost invocation's entry first.
   */
  lemma {:induction false} PropagateOrder(e: ParseError, frames: seq<(Context, ParserInfo)>)
    ensures Propagate(e, frames).cause == e.cause
    ensures Propagate(e, frames).trace == e.trace + frames
    decreases |frames|
  {
    if frames != [] {
      PropagateOrder(e.PushContext(frames[0].0, frames[0].1), frames[1..]);
      assert e.trace + [frames[0]] + frames[1..] == e.trace + frames;
    }
  }
}
