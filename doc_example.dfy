/**
 * The example in the documentation of the `#[parser]` attribute
 * (codegen/src/lib.rs): `ab_in_dots` eats a dot, takes a run of `a` and
 * `b`, eats a dot and returns the run; `parse!` runs a parser from the
 * start of a text and then demands the end of input.
 */
module DocExample {
  import opened Engine
  import opened Parsers

  const AbInDotsInfo := ParserInfo("ab_in_dots", false)

  function IsAOrB(): char -> bool {
    c => c == 'a' || c == 'b'
  }

  /** `eat('.')?; let inside = take_while(a or b)?; eat('.')?; inside` */
  function AbInDotsBody(): Body<seq<char>> {
    (s: seq<char>, p: nat) =>
      var open := EatSpec(s, p, '.');
      if open.result.Err? then Try(Failed(open))
      else
        var inside := TakeWhileSpec(s, open.pos, IsAOrB());
        if inside.result.Err? then Try(inside)
        else
          var close := EatSpec(s, inside.pos, '.');
          if close.result.Err? then Try(Failed(close))
          else BodyOut(Bare(inside.result.value), close.pos)
  }

  function AbInDotsSpec(s: seq<char>, p: nat): Reply<seq<char>> {
    Wrap(AbInDotsInfo, Plain, AbInDotsBody(), s, p)
  }

  function AbInDotsParser(): (seq<char>, nat) -> Reply<seq<char>> {
    (s: seq<char>, p: nat) => AbInDotsSpec(s, p)
  }

  /** `parse!(ab_in_dots: text)` */
  function ParseAbInDots(s: seq<char>): Result<seq<char>> {
    ParseSpec(AbInDotsParser(), s)
  }

  /** The whole text is a dot, a run of `a` and `b`, and a dot. */
  ghost predicate DottedRun(s: seq<char>) {
    && |s| >= 2 && s[0] == '.' && s[|s| - 1] == '.'
    && forall i :: 0 < i < |s| - 1 ==> IsAOrB()(s[i])
  }

  /** `parse!(ab_in_dots: s)` succeeds exactly on a dotted run, and returns the run. */
  lemma ParseAbInDotsAccepts(s: seq<char>)
    ensures ParseAbInDots(s).Ok? <==> DottedRun(s)
    ensures ParseAbInDots(s).Ok? ==> ParseAbInDots(s).value == s[1..|s| - 1]
  {
    if |s| > 0 && s[0] == '.' {
      TakeWhileMaximal(s, 1, IsAOrB());
    }
  }

  /** The first run in the documentation: `.abba.` gives `abba`. */
  lemma DocExampleAbba()
    ensures ParseAbInDots(".abba.") == Ok("abba")
  {
    var s := ".abba.";
    assert DottedRun(s);
    ParseAbInDotsAccepts(s);
    assert s[1..5] == "abba";
  }

  /** The second run: `.ba.` gives `ba`. */
  lemma DocExampleBa()
    ensures ParseAbInDots(".ba.") == Ok("ba")
  {
    var s := ".ba.";
    assert DottedRun(s);
    ParseAbInDotsAccepts(s);
    assert s[1..3] == "ba";
  }

  /**
   * The third run: `...` is an error. `ab_in_dots` itself succeeds with an
   * empty run and stops after the second dot; the end of input that
   * `parse!` then demands fails on the third.
   */
  lemma DocExampleDots()
    ensures AbInDotsSpec("...", 0) == Reply(Ok(""), 2)
    ensures ParseAbInDots("...").Err?
  {
    var s := "...";
    assert !IsAOrB()(s[1]);
    TakeWhileMaximal(s, 1, IsAOrB());
    ParseAbInDotsAccepts(s);
  }

  method AbInDots(inp: Input) returns (r: Result<seq<char>>)
    requires inp.Valid()
    modifies inp
    ensures inp.Valid()
    ensures Reply(r, inp.pos) == AbInDotsSpec(inp.s, old(inp.pos))
    ensures inp.log == old(inp.log) + [Marked(AbInDotsInfo, old(inp.pos)), Unmarked(AbInDotsInfo, r.Ok?)]
  {
    var m := inp.Mark(AbInDotsInfo);
    var res: Result<seq<char>>;
    var open := Eat(inp, '.');
    if open.Err? {
      res := Err(open.error);
    } else {
      var inside := TakeWhile(inp, IsAOrB());
      match inside {
        case Err(e) => res := Err(e);
        case Ok(run) =>
          var close := Eat(inp, '.');
          res := if close.Err? then Err(close.error) else Ok(run);
      }
    }
    r := Finish(inp, AbInDotsInfo, Plain, m, res);
  }

  /** `parse!(ab_in_dots: &mut Text::from(text))` */
  method Parse(text: seq<char>) returns (r: Result<seq<char>>)
    ensures r == ParseAbInDots(text)
  {
    var inp := new Input(text);
    r := AbInDots(inp);
    if r.Ok? {
      var end := Eof(inp);
      if end.Err? {
        r := Err(end.error);
      }
    }
  }
}
