/**
 * `parse!(media_type: ...)` as `main` in examples/media_type/src/main.rs
 * runs it: the media type parser followed by the end of input, and what
 * it yields for a parameterless type and for unquoted parameters.
 */
module MediaExamples {
  import opened Engine
  import opened Slices
  import opened Parsers
  import opened MediaTypes
  import opened Alternation

  /** `media_type` as a parser value. */
  function MediaTypeParser(): Step<MediaType> {
    (s: seq<char>, p: nat) => MediaTypeSpec(s, p)
  }

  /** `parse!(media_type: text)`: the media type, then the end of input. */
  function ParseMediaType(s: seq<char>): Result<MediaType> {
    ParseSpec(MediaTypeParser(), s)
  }

  /** `parse!(media_type: "a/b")`: a media type without parameters. */
  lemma MediaTypeWithoutParams()
    ensures ParseMediaType("a/b") == Ok(MediaType("a", "b", []))
  {
    var s := "a/b";
    PaddedParamAdvances(s);
    MediaTypeBodyReads(PaddedParam(), s, 0);
    assert RunEnd(s, 0, IsValidToken) == 1;
    assert RunEnd(s, 2, IsValidToken) == 3;
    assert s[0..1] == "a" && s[2..3] == "b";
  }

  /** A `key=value` parameter at `b` whose value is an unquoted token run: the key up to `k`, `=`, the value up to `e`. */
  lemma TokenParamAt(s: seq<char>, b: nat, k: nat, e: nat)
    requires b < k && k + 1 < e <= |s| && s[k] == '=' && s[k + 1] != '"'
    requires RunEnd(s, b, IsValidToken) == k && RunEnd(s, k + 1, IsValidToken) == e
    ensures MediaParamSpec(s, b) == Reply(Ok((s[b..k], s[k + 1..e])), e)
  {
    var v := ParamValueSpec(s, k + 1);
    ParamValueIs(s, k + 1);
    assert v == Reply(Ok(s[k + 1..e]), e);
    assert ParamValue()(s, k + 1) == v;
    MediaParamReads(s, b);
  }

  /** The same parameter with blanks from `p` up to `b` before it and from `e` up to `f` after it. */
  lemma PaddedTokenParamAt(s: seq<char>, p: nat, b: nat, k: nat, e: nat, f: nat)
    requires b < k && k + 1 < e <= |s| && s[k] == '=' && s[k + 1] != '"'
    requires RunEnd(s, p, IsWhitespace) == b && RunEnd(s, b, IsValidToken) == k
    requires RunEnd(s, k + 1, IsValidToken) == e && RunEnd(s, e, IsWhitespace) == f
    ensures PaddedParam()(s, p) == Reply(Ok((s[b..k], s[k + 1..e])), f)
  {
    TokenParamAt(s, b, k, e);
    assert MediaParamParser()(s, b) == MediaParamSpec(s, b);
  }
}
