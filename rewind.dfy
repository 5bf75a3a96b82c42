/**
 * Backtracking through `rewind` parsers (lib/tests/rewind.rs): `ab`, `abc`
 * and `abcd` each eat their letters and then demand the end of input, and
 * `combo` tries them in that order with `switch!`, falling back to a user
 * error. Because each alternative rewinds when it fails, every later
 * alternative starts from the same position.
 */
module Rewind {
  import opened Engine
  import opened Slices
  import opened Parsers
  import opened Alternation

  /** `eat(t[0])?; eat(t[1])?; ...; eof()?`: the body shared by `ab`, `abc` and `abcd`. */
  function EatThenEof(s: seq<char>, p: nat, t: seq<char>): (r: Reply<()>)
    decreases |t|
  {
    if t == [] then EofSpec(s, p)
    else
      var e := EatSpec(s, p, t[0]);
      if e.result.Err? then Failed(e) else EatThenEof(s, e.pos, t[1..])
  }

  /** The body as the wrapper sees it: `()` on success, the first failure otherwise. */
  function EatThenEofBody(t: seq<char>): Body<()> {
    (s: seq<char>, p: nat) =>
      var r := EatThenEof(s, p, t);
      BodyOut(if r.result.Ok? then Bare(()) else Full(r.result), r.pos)
  }

  const AbInfo := ParserInfo("ab", false)
  const AbcInfo := ParserInfo("abc", false)
  const AbcdInfo := ParserInfo("abcd", false)
  const ComboInfo := ParserInfo("combo", false)

  /** `#[parser(rewind)] fn <info.name>`, whose body eats `t` and then the end of input. */
  function ExactlySpec(info: ParserInfo, t: seq<char>, s: seq<char>, p: nat): Reply<()> {
    Wrap(info, RewindOnly, EatThenEofBody(t), s, p)
  }

  /**
   * The body succeeds exactly when what is left is `t`, and then stops at
   * the end of the text; when it fails it has not gone past the text.
   */
  lemma {:induction false} EatThenEofExact(s: seq<char>, p: nat, t: seq<char>)
    requires p <= |s|
    ensures var r := EatThenEof(s, p, t);
      && (r.result.Ok? <==> s[p..] == t)
      && (r.result.Ok? ==> r.pos == |s|)
      && p <= r.pos <= |s|
    decreases |t|
  {
    if t != [] {
      var e := EatSpec(s, p, t[0]);
      if e.result.Ok? {
        EatThenEofExact(s, p + 1, t[1..]);
        assert s[p..] == [s[p]] + s[p + 1..];
        if s[p..] == t {
          assert s[p + 1..] == t[1..];
        }
      }
    }
  }

  /**
   * A `rewind` parser that eats exactly `t`: it succeeds exactly when the
   * rest of the text is `t` and then consumes it all; when it fails it
   * leaves the input where it was and records its own context last.
   */
  lemma ExactlyBehaves(info: ParserInfo, t: seq<char>, s: seq<char>, p: nat)
    requires p <= |s|
    ensures var r := ExactlySpec(info, t, s, p);
      && (r.result.Ok? <==> s[p..] == t)
      && (r.result.Ok? ==> r.pos == |s|)
      && (r.result.Err? ==>
            && r.pos == p && |r.result.error.trace| > 0
            && r.result.error.trace[|r.result.error.trace| - 1].1 == info
            && r.result.error.trace[|r.result.error.trace| - 1].0.start == p)
  {
    EatThenEofExact(s, p, t);
  }

  method Ab(inp: Input) returns (r: Result<()>)
    requires inp.Valid()
    modifies inp
    ensures inp.Valid()
    ensures Reply(r, inp.pos) == ExactlySpec(AbInfo, "ab", inp.s, old(inp.pos))
    ensures inp.log == old(inp.log) + [Marked(AbInfo, old(inp.pos)), Unmarked(AbInfo, r.Ok?)]
  {
    var m := inp.Mark(AbInfo);
    var res: Result<()>;
    var a := Eat(inp, 'a');
    if a.Err? {
      res := Err(a.error);
    } else {
      var b := Eat(inp, 'b');
      if b.Err? {
        res := Err(b.error);
      } else {
        var e := Eof(inp);
        res := if e.Err? then Err(e.error) else Ok(());
      }
    }
    r := Finish(inp, AbInfo, RewindOnly, m, res);
  }

  method Abc(inp: Input) returns (r: Result<()>)
    requires inp.Valid()
    modifies inp
    ensures inp.Valid()
    ensures Reply(r, inp.pos) == ExactlySpec(AbcInfo, "abc", inp.s, old(inp.pos))
    ensures inp.log == old(inp.log) + [Marked(AbcInfo, old(inp.pos)), Unmarked(AbcInfo, r.Ok?)]
  {
    var m := inp.Mark(AbcInfo);
    var res: Result<()>;
    var a := Eat(inp, 'a');
    if a.Err? {
      res := Err(a.error);
    } else {
      var b := Eat(inp, 'b');
      if b.Err? {
        res := Err(b.error);
      } else {
        var c := Eat(inp, 'c');
        if c.Err? {
          res := Err(c.error);
        } else {
          var e := Eof(inp);
          res := if e.Err? then Err(e.error) else Ok(());
        }
      }
    }
    r := Finish(inp, AbcInfo, RewindOnly, m, res);
  }

  method Abcd(inp: Input) returns (r: Result<()>)
    requires inp.Valid()
    modifies inp
    ensures inp.Valid()
    ensures Reply(r, inp.pos) == ExactlySpec(AbcdInfo, "abcd", inp.s, old(inp.pos))
    ensures inp.log == old(inp.log) + [Marked(AbcdInfo, old(inp.pos)), Unmarked(AbcdInfo, r.Ok?)]
  {
    var m := inp.Mark(AbcdInfo);
    var res: Result<()>;
    var a := Eat(inp, 'a');
    if a.Err? {
      res := Err(a.error);
    } else {
      var b := Eat(inp, 'b');
      if b.Err? {
        res := Err(b.error);
      } else {
        var c := Eat(inp, 'c');
        if c.Err? {
          res := Err(c.error);
        } else {
          var d := Eat(inp, 'd');
          if d.Err? {
            res := Err(d.error);
          } else {
            var e := Eof(inp);
            res := if e.Err? then Err(e.error) else Ok(());
          }
        }
      }
    }
    r := Finish(inp, AbcdInfo, RewindOnly, m, res);
  }

  // ------------------------------------------------------------------ combo

  const ComboMessage := "not ab, abc, or abcd"

  /** An arm that evaluates to a constant string. */
  function Yields(v: string): Arm<(), string> {
    (_: (), s: seq<char>, p: nat) => Reply(Ok(v), p)
  }

  /** The `switch!` of `combo`: three rewinding guards and a wildcard that returns a user error. */
  function ComboCases(): seq<Case<(), string>> {
    [ Calls([(s: seq<char>, p: nat) => ExactlySpec(AbInfo, "ab", s, p)], Yields("ab")),
      Calls([(s: seq<char>, p: nat) => ExactlySpec(AbcInfo, "abc", s, p)], Yields("abc")),
      Calls([(s: seq<char>, p: nat) => ExactlySpec(AbcdInfo, "abcd", s, p)], Yields("abcd")),
      Wild((s: seq<char>, p: nat) => Reply(Fail(UserError(ComboMessage)), p)) ]
  }

  /** The switch of `combo` never falls through: its last case is a wildcard. */
  lemma ComboSelects(s: seq<char>, p: nat)
    ensures Switch(ComboCases(), s, p).outcome.Ran?
  {
  }

  /** `combo`'s body: the selected arm's string, or the wildcard's early `return` of an error. */
  function ComboBody(): Body<string> {
    (s: seq<char>, p: nat) =>
      var out := Switch(ComboCases(), s, p);
      ComboSelects(s, p);
      BodyOut(if out.outcome.result.Ok? then Bare(out.outcome.result.value) else Full(out.outcome.result), out.pos)
  }

  function ComboSpec(s: seq<char>, p: nat): Reply<string> {
    Wrap(ComboInfo, Plain, ComboBody(), s, p)
  }

  /**
   * `combo` accepts exactly the three words and consumes the whole text;
   * anything else (`a`, `abcdef`, ...) is the wildcard's error, with the
   * input left where it was because every guard rewound.
   */
  lemma ComboAccepts(s: seq<char>, p: nat)
    requires p <= |s|
    ensures var r := ComboSpec(s, p);
      && (r.result == Ok("ab") <==> s[p..] == "ab")
      && (r.result == Ok("abc") <==> s[p..] == "abc")
      && (r.result == Ok("abcd") <==> s[p..] == "abcd")
      && (r.result.Ok? ==> r.pos == |s|)
      && (r.result.Err? <==> s[p..] !in {"ab", "abc", "abcd"})
      && (r.result.Err? ==>
            && r.pos == p
            && r.result.error == ParseError(UserError(ComboMessage), [(Context(p, p), ComboInfo)]))
  {
    ExactlyBehaves(AbInfo, "ab", s, p);
    ExactlyBehaves(AbcInfo, "abc", s, p);
    ExactlyBehaves(AbcdInfo, "abcd", s, p);
  }

  function ComboParser(): (seq<char>, nat) -> Reply<string> {
    (s: seq<char>, p: nat) => ComboSpec(s, p)
  }

  /** `parse!(combo: text)` */
  function ParseCombo(s: seq<char>): Result<string> {
    ParseSpec(ComboParser(), s)
  }

  /** The expectations of the rewind tests, each run through `parse!`. */
  lemma RewindTests()
    ensures ParseCombo("ab") == Ok("ab")
    ensures ParseCombo("abc") == Ok("abc")
    ensures ParseCombo("abcd") == Ok("abcd")
    ensures ParseCombo("a").Err?
    ensures ParseCombo("abcdef").Err?
  {
    ComboAccepts("ab", 0);
    ComboAccepts("abc", 0);
    ComboAccepts("abcd", 0);
    ComboAccepts("a", 0);
    ComboAccepts("abcdef", 0);
    assert "abcdef"[0..] == "abcdef";
  }

  /**
   * `combo` as the `#[parser]` expansion runs it: an `if let Ok(_) = ab()
   * ... else if ... else { return parse_error!(...) }` chain inside the
   * wrapper.
   */
  method Combo(inp: Input) returns (r: Result<string>)
    requires inp.Valid()
    modifies inp
    ensures inp.Valid()
    ensures Reply(r, inp.pos) == ComboSpec(inp.s, old(inp.pos))
    ensures Bracketed(old(inp.log), inp.log, ComboInfo, old(inp.pos), r.Ok?)
  {
    var m := inp.Mark(ComboInfo);
    ghost var started := inp.log;
    var res: Result<string>;
    var g1 := Ab(inp);
    if g1.Ok? {
      res := Ok("ab");
    } else {
      ghost var log1 := inp.log;
      var g2 := Abc(inp);
      ExtendsTransitive(started, log1, inp.log);
      if g2.Ok? {
        res := Ok("abc");
      } else {
        ghost var log2 := inp.log;
        var g3 := Abcd(inp);
        ExtendsTransitive(started, log2, inp.log);
        if g3.Ok? {
          res := Ok("abcd");
        } else {
          res := Fail(UserError(ComboMessage));
        }
      }
    }
    ghost var inner := inp.log;
    r := Finish(inp, ComboInfo, Plain, m, res);
    ClosingBrackets(old(inp.log), inner, ComboInfo, old(inp.pos), r.Ok?);
  }
}
