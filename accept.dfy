/**
 * The weighted media types of an `Accept` header
 * (examples/media_type/src/main.rs): `weighted_media_type` reads a media
 * type and takes its weight from a first parameter named `q`, and `accept`
 * reads a `,`-separated series of whitespace-padded weighted media types.
 *
 * The `f32` parse of the weight text is a parameter, `ParseFloat`: the
 * number the text denotes, or `None` where `str::parse::<f32>` fails.
 */
module AcceptHeader {
  import opened Engine
  import opened Slices
  import opened Parsers
  import opened Alternation
  import opened MediaTypes

  /** `|v| v.parse::<f32>().ok()`, as the value a weight text denotes. */
  type ParseFloat = seq<char> -> Option<real>

  type Weighted = (MediaType, Option<real>)

  const WeightedInfo := ParserInfo("weighted_media_type", false)
  const AcceptInfo := ParserInfo("accept", false)

  const WeightTooLarge := "media-type weight >= 1.0"
  const WeightInvalid := "invalid media-type weight"

  /**
   * The `match` of `weighted_media_type`: a first parameter `q` must hold
   * a number no greater than 1; any other first parameter, or none, gives
   * no weight.
   */
  function WeightOf(parse: ParseFloat, params: seq<Param>): Result<Option<real>> {
    if |params| > 0 && params[0].0 == "q" then
      match parse(params[0].1)
      case Some(q) => if q > 1.0 then Fail(UserError(WeightTooLarge)) else Ok(Some(q))
      case None => Fail(UserError(WeightInvalid))
    else Ok(None)
  }

  /**
   * The weight rule: there is a weight exactly when the first parameter is
   * `q`, and it is then the parsed value of that parameter, at most 1; the
   * rule rejects exactly a `q` whose value does not parse or exceeds 1,
   * with the message the source gives for each case.
   */
  lemma WeightRule(parse: ParseFloat, params: seq<Param>)
    ensures var w := WeightOf(parse, params);
      && (w.Ok? && w.value.Some? <==> |params| > 0 && params[0].0 == "q" && w.Ok?)
      && (w.Ok? && w.value.Some? ==> parse(params[0].1) == Some(w.value.value) && w.value.value <= 1.0)
      && (w.Err? <==> |params| > 0 && params[0].0 == "q" && (parse(params[0].1).None? || parse(params[0].1).value > 1.0))
      && (w.Err? ==> w.error.trace == [])
      && (w.Err? && parse(params[0].1).None? ==> w.error.cause == UserError(WeightInvalid))
      && (w.Err? && parse(params[0].1).Some? ==> w.error.cause == UserError(WeightTooLarge))
  {
  }

  /** `let media_type = media_type()?;`, then the weight, whose failures `return` from the body. */
  function WeightedBody(parse: ParseFloat, s: seq<char>, p: nat): BodyOut<Weighted> {
    var mt := MediaTypeSpec(s, p);
    if mt.result.Err? then Try(Failed(mt))
    else
      match WeightOf(parse, mt.result.value.params)
      case Err(e) => BodyOut(Full(Err(e)), mt.pos)
      case Ok(w) => BodyOut(Bare((mt.result.value, w)), mt.pos)
  }

  function WeightedSpec(parse: ParseFloat, s: seq<char>, p: nat): (r: Reply<Weighted>)
    ensures p <= r.pos && (p <= |s| ==> r.pos <= |s|)
  {
    Conclude(WeightedInfo, Plain, p, Lift(WeightedBody(parse, s, p)))
  }

  /**
   * A weighted media type is a media type whose weight the rule accepts,
   * read up to where the media type ends. When the weight is rejected the
   * error carries only this invocation's context, which spans the media
   * type; when the media type fails, its error passes through with this
   * invocation's context appended last.
   */
  lemma WeightedReads(parse: ParseFloat, s: seq<char>, p: nat)
    ensures var r := WeightedSpec(parse, s, p);
      var mt := MediaTypeSpec(s, p);
      && (r.result.Ok? <==> mt.result.Ok? && WeightOf(parse, mt.result.value.params).Ok?)
      && (r.result.Ok? ==>
            r.result.value == (mt.result.value, WeightOf(parse, mt.result.value.params).value) && r.pos == mt.pos)
      && (mt.result.Ok? && r.result.Err? ==>
            r.result.error == ParseError(WeightOf(parse, mt.result.value.params).error.cause, [(Context(p, mt.pos), WeightedInfo)]))
      && (mt.result.Err? ==>
            r.result.error == mt.result.error.PushContext(Context(p, mt.pos), WeightedInfo) && r.pos == mt.pos)
  {
    var mt := MediaTypeSpec(s, p);
    if mt.result.Ok? {
      WeightRule(parse, mt.result.value.params);
    }
  }

  /** `weighted_media_type` as a parser. */
  function WeightedParser(parse: ParseFloat): Step<Weighted> {
    (s: seq<char>, p: nat) => WeightedSpec(parse, s, p)
  }

  /** `|i| surrounded(i, weighted_media_type, is_whitespace)` */
  function PaddedWeighted(parse: ParseFloat): Step<Weighted> {
    Surrounded(WeightedParser(parse), IsWhitespace)
  }

  lemma PaddedWeightedAdvances(parse: ParseFloat, s: seq<char>)
    ensures Advances(PaddedWeighted(parse), s)
  {
    assert Advances(WeightedParser(parse), s);
    SurroundedPads(WeightedParser(parse), IsWhitespace, s);
  }

  /** `Ok(series(..., ',')?)`: the series' own result, which is never an error. */
  function AcceptBody(parse: ParseFloat, s: seq<char>, p: nat): BodyOut<seq<Weighted>>
    requires p <= |s|
  {
    PaddedWeightedAdvances(parse, s);
    var items := SeriesSpec(PaddedWeighted(parse), ',', s, p);
    BodyOut(Full(items.result), items.pos)
  }

  function AcceptSpec(parse: ParseFloat, s: seq<char>, p: nat): Reply<seq<Weighted>>
    requires p <= |s|
  {
    Conclude(AcceptInfo, Plain, p, Lift(AcceptBody(parse, s, p)))
  }

  /**
   * `accept` never fails. It collects nothing, and stays put, exactly
   * when no padded weighted media type can be read at `p`; otherwise it
   * collects a chain of padded weighted media types joined by single
   * commas, and stops where no comma is followed by one.
   */
  lemma AcceptCollects(parse: ParseFloat, s: seq<char>, p: nat)
    requires p <= |s|
    ensures var r := AcceptSpec(parse, s, p);
      && r.result.Ok? && p <= r.pos <= |s|
      && (r.result.value == [] <==> PaddedWeighted(parse)(s, p).result.Err?)
      && (r.result.value == [] ==> r.pos == p)
      && (r.result.value != [] ==>
            && Items(PaddedWeighted(parse), ',', s, p, r.result.value, r.pos)
            && SeriesEnds(PaddedWeighted(parse), ',', s, r.pos))
  {
    PaddedWeightedAdvances(parse, s);
    SeriesCollects(PaddedWeighted(parse), ',', s, p);
  }

  // ================================================================ methods

  /** `weighted_media_type`: the media type, then the weight of its first parameter. */
  method WeightedMediaType(inp: Input, parse: ParseFloat) returns (r: Result<Weighted>)
    requires inp.Valid()
    modifies inp
    ensures inp.Valid()
    ensures Reply(r, inp.pos) == WeightedSpec(parse, inp.s, old(inp.pos))
    ensures Bracketed(old(inp.log), inp.log, WeightedInfo, old(inp.pos), r.Ok?)
  {
    var m := inp.Mark(WeightedInfo);
    var res: Result<Weighted>;
    var mt := ReadMediaType(inp);
    match mt {
      case Err(e) => res := Err(e);
      case Ok(t) =>
        var weight: Option<real> := None;
        var failure: Option<string> := None;
        if |t.params| > 0 && t.params[0].0 == "q" {
          match parse(t.params[0].1) {
            case Some(q) =>
              if q > 1.0 {
                failure := Some(WeightTooLarge);
              } else {
                weight := Some(q);
              }
            case None =>
              failure := Some(WeightInvalid);
          }
        }
        res := if failure.Some? then Fail(UserError(failure.value)) else Ok((t, weight));
    }
    ghost var inner := inp.log;
    r := Finish(inp, WeightedInfo, Plain, m, res);
    ClosingBrackets(old(inp.log), inner, WeightedInfo, old(inp.pos), r.Ok?);
  }

  /** `surrounded(i, weighted_media_type, is_whitespace)` */
  method PaddedWeightedMediaType(inp: Input, parse: ParseFloat) returns (r: Result<Weighted>)
    requires inp.Valid()
    modifies inp
    ensures inp.Valid()
    ensures Reply(r, inp.pos) == PaddedWeighted(parse)(inp.s, old(inp.pos))
    ensures Extends(old(inp.log), inp.log)
  {
    var before := SkipWhile(inp, IsWhitespace);
    r := WeightedMediaType(inp, parse);
    if r.Ok? {
      var after := SkipWhile(inp, IsWhitespace);
    }
  }

  /**
   * One round of the loop of `series(..., ',')`: the `,` and one more item;
   * an item that fails is rewound together with its `,`.
   */
  method NextWeighted(inp: Input, parse: ParseFloat) returns (next: Result<Weighted>)
    requires inp.Valid() && inp.pos < |inp.s| && inp.s[inp.pos] == ','
    modifies inp
    ensures inp.Valid()
    ensures var item := PaddedWeighted(parse)(inp.s, old(inp.pos) + 1);
      && next == item.result
      && inp.pos == (if next.Ok? then item.pos else old(inp.pos))
    ensures Extends(old(inp.log), inp.log)
  {
    var before := inp.pos;
    var sep := Eat(inp, ',');
    next := PaddedWeightedMediaType(inp, parse);
    if next.Err? {
      inp.RewindTo(Marker(before));
    }
  }

  /** The loop of `series(..., ',')` after its first item: it ends at the first round that fails. */
  method MoreWeighted(inp: Input, parse: ParseFloat, acc: seq<Weighted>) returns (items: seq<Weighted>)
    requires inp.Valid()
    modifies inp
    ensures inp.Valid()
    ensures (PaddedWeightedAdvances(parse, inp.s);
      Reply(Ok(items), inp.pos) == SeriesMore(PaddedWeighted(parse), ',', inp.s, old(inp.pos), acc))
    ensures Extends(old(inp.log), inp.log)
  {
    PaddedWeightedAdvances(parse, inp.s);
    ghost var start := inp.pos;
    items := acc;
    while inp.pos < |inp.s| && inp.s[inp.pos] == ','
      invariant inp.Valid() && start <= inp.pos
      invariant SeriesMore(PaddedWeighted(parse), ',', inp.s, inp.pos, items) == SeriesMore(PaddedWeighted(parse), ',', inp.s, start, acc)
      invariant Extends(old(inp.log), inp.log)
      decreases |inp.s| - inp.pos
    {
      ghost var log := inp.log;
      var next := NextWeighted(inp, parse);
      ExtendsTransitive(old(inp.log), log, inp.log);
      if next.Err? {
        break;
      }
      items := items + [next.value];
    }
  }

  /** `series(|i| surrounded(i, weighted_media_type, is_whitespace), ',')`: nothing if the first item fails. */
  method WeightedSeries(inp: Input, parse: ParseFloat) returns (items: seq<Weighted>)
    requires inp.Valid()
    modifies inp
    ensures inp.Valid()
    ensures (PaddedWeightedAdvances(parse, inp.s);
      Reply(Ok(items), inp.pos) == SeriesSpec(PaddedWeighted(parse), ',', inp.s, old(inp.pos)))
    ensures Extends(old(inp.log), inp.log)
  {
    var start := inp.pos;
    var first := PaddedWeightedMediaType(inp, parse);
    if first.Err? {
      inp.RewindTo(Marker(start));
      return [];
    }
    items := MoreWeighted(inp, parse, [first.value]);
  }

  /** `accept`: the series inside the invocation wrapper. */
  method Accept(inp: Input, parse: ParseFloat) returns (r: Result<seq<Weighted>>)
    requires inp.Valid()
    modifies inp
    ensures inp.Valid()
    ensures Reply(r, inp.pos) == AcceptSpec(parse, inp.s, old(inp.pos))
    ensures Bracketed(old(inp.log), inp.log, AcceptInfo, old(inp.pos), r.Ok?)
  {
    var m := inp.Mark(AcceptInfo);
    var items := WeightedSeries(inp, parse);
    ghost var inner := inp.log;
    r := Finish(inp, AcceptInfo, Plain, m, Ok(items));
    ClosingBrackets(old(inp.log), inner, AcceptInfo, old(inp.pos), r.Ok?);
  }
}
