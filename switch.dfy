/**
 * The runtime meaning of `switch!` (codegen/src/lib.rs, `Case::to_tokens`):
 * cases are expanded into `if let Ok(x) = guard { arm } else if ... else
 * { rest }`, so guards run left to right within a case and cases top to
 * bottom, the first successful guard selects its case's arm, a wildcard
 * case runs unconditionally and ends the chain, and a chain that runs out
 * of cases evaluates to `()`.
 */
module Alternation {
  import opened Engine

  type Step<T> = (seq<char>, nat) -> Reply<T>

  /** A consequence that receives the value its guard produced. */
  type Arm<!G, R> = (G, seq<char>, nat) -> Reply<R>

  datatype Case<!G, R> =
    | Wild(otherwise: Step<R>)
    | Calls(guards: seq<Step<G>>, arm: Arm<G, R>)

  /** What a switch evaluates to: the selected arm's result, or `()` when no case was selected. */
  datatype Outcome<R> = Ran(result: Result<R>) | Unit

  /** The outcome, the final position and the (case, guard) indices of the guards that ran, in order. */
  datatype SwitchOut<R> = SwitchOut(outcome: Outcome<R>, pos: nat, tried: seq<(nat, nat)>)

  /** The expansion of `cases[c..]`. */
  function Eval<G, R>(cases: seq<Case<G, R>>, s: seq<char>, p: nat, c: nat): SwitchOut<R>
    requires c <= |cases|
    decreases |cases| - c, 1, 0
  {
    if c == |cases| then SwitchOut(Unit, p, [])
    else match cases[c]
      case Wild(k) => var r := k(s, p); SwitchOut(Ran(r.result), r.pos, [])
      case Calls(_, _) => EvalGuards(cases, s, p, c, 0)
  }

  /** The `if let ... else if ...` chain of case `c` from guard `g` on, falling through to the next case. */
  function EvalGuards<G, R>(cases: seq<Case<G, R>>, s: seq<char>, p: nat, c: nat, g: nat): SwitchOut<R>
    requires c < |cases| && cases[c].Calls? && g <= |cases[c].guards|
    decreases |cases| - c, 0, |cases[c].guards| - g
  {
    if g == |cases[c].guards| then Eval(cases, s, p, c + 1)
    else
      var r := cases[c].guards[g](s, p);
      if r.result.Ok? then
        var k := cases[c].arm(r.result.value, s, r.pos);
        SwitchOut(Ran(k.result), k.pos, [(c, g)])
      else
        var rest := EvalGuards(cases, s, r.pos, c, g + 1);
        rest.(tried := [(c, g)] + rest.tried)
  }

  /** The switch as a whole. */
  function Switch<G, R>(cases: seq<Case<G, R>>, s: seq<char>, p: nat): SwitchOut<R> {
    Eval(cases, s, p, 0)
  }

  // ------------------------------------------------ a flat reference model

  /** One alternative of a flattened switch: a guard with its case's arm, or a default. */
  datatype Alt<!G, R> =
    | Guarded(id: (nat, nat), guard: Step<G>, arm: Arm<G, R>)
    | Default(otherwise: Step<R>)

  /** Ordered first-match over a flat list of alternatives. */
  function FirstMatch<G, R>(alts: seq<Alt<G, R>>, s: seq<char>, p: nat): SwitchOut<R>
    decreases |alts|
  {
    if alts == [] then SwitchOut(Unit, p, [])
    else match alts[0]
      case Default(k) => var r := k(s, p); SwitchOut(Ran(r.result), r.pos, [])
      case Guarded(id, guard, arm) =>
        var r := guard(s, p);
        if r.result.Ok? then
          var k := arm(r.result.value, s, r.pos);
          SwitchOut(Ran(k.result), k.pos, [id])
        else
          var rest := FirstMatch(alts[1..], s, r.pos);
          rest.(tried := [id] + rest.tried)
  }

  /** Every guard of every case in order, up to and including the first wildcard. */
  function Flatten<G, R>(cases: seq<Case<G, R>>, c: nat): seq<Alt<G, R>>
    requires c <= |cases|
    decreases |cases| - c, 1, 0
  {
    if c == |cases| then []
    else match cases[c]
      case Wild(k) => [Default(k)]
      case Calls(_, _) => FlattenGuards(cases, c, 0)
  }

  function FlattenGuards<G, R>(cases: seq<Case<G, R>>, c: nat, g: nat): seq<Alt<G, R>>
    requires c < |cases| && cases[c].Calls? && g <= |cases[c].guards|
    decreases |cases| - c, 0, |cases[c].guards| - g
  {
    if g == |cases[c].guards| then Flatten(cases, c + 1)
    else [Guarded((c, g), cases[c].guards[g], cases[c].arm)] + FlattenGuards(cases, c, g + 1)
  }

  /** (c1, g1) comes strictly before (c2, g2): an earlier case, or an earlier guard of the same case. */
  predicate Before(a: (nat, nat), b: (nat, nat)) {
    a.0 < b.0 || (a.0 == b.0 && a.1 < b.1)
  }

  /**
   * The flattened alternatives list the guards of `cases[c..]` top to bottom
   * and left to right, each with its own case's arm; a default can only be
   * the last alternative, and it is there exactly when a wildcard case is.
   */
  lemma {:induction false} FlattenShape<G, R>(cases: seq<Case<G, R>>, c: nat)
    requires c <= |cases|
    ensures var alts := Flatten(cases, c);
      && (forall i :: 0 <= i < |alts| && alts[i].Guarded? ==>
            var (ci, gi) := alts[i].id;
            c <= ci < |cases| && cases[ci].Calls? && gi < |cases[ci].guards|
            && alts[i].guard == cases[ci].guards[gi] && alts[i].arm == cases[ci].arm)
      && (forall i, j :: 0 <= i < j < |alts| ==> alts[i].Guarded? && (alts[j].Guarded? ==> Before(alts[i].id, alts[j].id)))
      && ((exists i :: c <= i < |cases| && cases[i].Wild?) <==> (alts != [] && alts[|alts| - 1].Default?))
    decreases |cases| - c, 1, 0
  {
    if c < |cases| && cases[c].Calls? {
      FlattenGuardsShape(cases, c, 0);
    }
  }

  lemma {:induction false} FlattenGuardsShape<G, R>(cases: seq<Case<G, R>>, c: nat, g: nat)
    requires c < |cases| && cases[c].Calls? && g <= |cases[c].guards|
    ensures var alts := FlattenGuards(cases, c, g);
      && (forall i :: 0 <= i < |alts| && alts[i].Guarded? ==>
            var (ci, gi) := alts[i].id;
            c <= ci < |cases| && cases[ci].Calls? && gi < |cases[ci].guards| && (ci == c ==> g <= gi)
            && alts[i].guard == cases[ci].guards[gi] && alts[i].arm == cases[ci].arm)
      && (forall i, j :: 0 <= i < j < |alts| ==> alts[i].Guarded? && (alts[j].Guarded? ==> Before(alts[i].id, alts[j].id)))
      && ((exists i :: c < i < |cases| && cases[i].Wild?) <==> (alts != [] && alts[|alts| - 1].Default?))
    decreases |cases| - c, 0, |cases[c].guards| - g
  {
    if g == |cases[c].guards| {
      FlattenShape(cases, c + 1);
    } else {
      FlattenGuardsShape(cases, c, g + 1);
      var tail := FlattenGuards(cases, c, g + 1);
      var alts := FlattenGuards(cases, c, g);
      assert alts == [Guarded((c, g), cases[c].guards[g], cases[c].arm)] + tail;
      forall i, j | 0 <= i < j < |alts|
        ensures alts[i].Guarded? && (alts[j].Guarded? ==> Before(alts[i].id, alts[j].id))
      {
        if i > 0 {
          assert alts[i] == tail[i - 1] && alts[j] == tail[j - 1];
        } else {
          assert alts[j] == tail[j - 1];
        }
      }
      forall i | 0 <= i < |alts| && alts[i].Guarded?
        ensures var (ci, gi) := alts[i].id;
          c <= ci < |cases| && cases[ci].Calls? && gi < |cases[ci].guards| && (ci == c ==> g <= gi)
          && alts[i].guard == cases[ci].guards[gi] && alts[i].arm == cases[ci].arm
      {
        if i > 0 {
          assert alts[i] == tail[i - 1];
        }
      }
    }
  }

  /** The expansion behaves exactly as ordered first-match over the flattened alternatives. */
  lemma {:induction false} SwitchIsFirstMatch<G, R>(cases: seq<Case<G, R>>, s: seq<char>, p: nat, c: nat)
    requires c <= |cases|
    ensures Eval(cases, s, p, c) == FirstMatch(Flatten(cases, c), s, p)
    decreases |cases| - c, 1, 0
  {
    if c < |cases| && cases[c].Calls? {
      GuardsAreFirstMatch(cases, s, p, c, 0);
    }
  }

  lemma {:induction false} GuardsAreFirstMatch<G, R>(cases: seq<Case<G, R>>, s: seq<char>, p: nat, c: nat, g: nat)
    requires c < |cases| && cases[c].Calls? && g <= |cases[c].guards|
    ensures EvalGuards(cases, s, p, c, g) == FirstMatch(FlattenGuards(cases, c, g), s, p)
    decreases |cases| - c, 0, |cases[c].guards| - g
  {
    if g == |cases[c].guards| {
      SwitchIsFirstMatch(cases, s, p, c + 1);
    } else {
      var r := cases[c].guards[g](s, p);
      var alts := FlattenGuards(cases, c, g);
      assert alts[1..] == FlattenGuards(cases, c, g + 1);
      if r.result.Err? {
        GuardsAreFirstMatch(cases, s, r.pos, c, g + 1);
      }
    }
  }

  /** The position at which alternative `j` runs when every alternative before it was a failing guard. */
  function PosBefore<G, R>(alts: seq<Alt<G, R>>, s: seq<char>, p: nat, j: nat): nat
    requires j <= |alts| && forall i :: 0 <= i < j ==> alts[i].Guarded?
    decreases j
  {
    if j == 0 then p else alts[j - 1].guard(s, PosBefore(alts, s, p, j - 1)).pos
  }

  function Ids<G, R>(alts: seq<Alt<G, R>>): seq<(nat, nat)>
    requires forall i :: 0 <= i < |alts| ==> alts[i].Guarded?
    ensures |Ids(alts)| == |alts|
    ensures forall i :: 0 <= i < |alts| ==> Ids(alts)[i] == alts[i].id
  {
    seq(|alts|, i requires 0 <= i < |alts| => alts[i].id)
  }

  /** Alternatives `0..i` were failing guards, and alternative `i` (if any) is where the search ends. */
  ghost predicate HitsAt<G, R>(alts: seq<Alt<G, R>>, s: seq<char>, p: nat, i: nat) {
    && i <= |alts|
    && (forall j :: 0 <= j < i ==> alts[j].Guarded?)
    && (forall j :: 0 <= j < i ==> alts[j].guard(s, PosBefore(alts, s, p, j)).result.Err?)
    && (i < |alts| && alts[i].Guarded? ==> alts[i].guard(s, PosBefore(alts, s, p, i)).result.Ok?)
  }

  lemma {:induction false} PosBeforeShift<G, R>(alts: seq<Alt<G, R>>, s: seq<char>, p: nat, j: nat)
    requires 0 < |alts| && j < |alts| && forall i :: 0 <= i <= j ==> alts[i].Guarded?
    ensures PosBefore(alts, s, p, j + 1) == PosBefore(alts[1..], s, alts[0].guard(s, p).pos, j)
    decreases j
  {
    if j > 0 {
      PosBeforeShift(alts, s, p, j - 1);
    }
  }

  /** Dropping a failing first guard leaves a search that ends at the same alternative. */
  lemma HitsAtShift<G, R>(alts: seq<Alt<G, R>>, s: seq<char>, p: nat, i: nat)
    requires HitsAt(alts, s, p, i) && i > 0
    ensures HitsAt(alts[1..], s, alts[0].guard(s, p).pos, i - 1)
    ensures PosBefore(alts, s, p, i) == PosBefore(alts[1..], s, alts[0].guard(s, p).pos, i - 1)
  {
    var q := alts[0].guard(s, p).pos;
    var tail := alts[1..];
    forall j | 0 <= j < i - 1
      ensures tail[j].guard(s, PosBefore(tail, s, q, j)).result.Err?
    {
      PosBeforeShift(alts, s, p, j);
      assert alts[j + 1].guard(s, PosBefore(alts, s, p, j + 1)).result.Err?;
    }
    PosBeforeShift(alts, s, p, i - 1);
  }

  lemma IdsCons<G, R>(alts: seq<Alt<G, R>>, k: nat)
    requires 0 < k <= |alts| && forall i :: 0 <= i < k ==> alts[i].Guarded?
    ensures Ids(alts[..k]) == [alts[0].id] + Ids(alts[1..][..k - 1])
  {
  }

  /** The outcome first-match is expected to have when the search ends at alternative `i`. */
  ghost function Selected<G, R>(alts: seq<Alt<G, R>>, s: seq<char>, p: nat, i: nat): SwitchOut<R>
    requires HitsAt(alts, s, p, i)
  {
    var q := PosBefore(alts, s, p, i);
    if i == |alts| then SwitchOut(Unit, q, Ids(alts))
    else match alts[i]
      case Default(k) =>
        var r := k(s, q);
        SwitchOut(Ran(r.result), r.pos, Ids(alts[..i]))
      case Guarded(_, guard, arm) =>
        var r := guard(s, q);
        var k := arm(r.result.value, s, r.pos);
        SwitchOut(Ran(k.result), k.pos, Ids(alts[..i + 1]))
  }

  /** A failing first guard is recorded and the search goes on from where it left the input. */
  lemma FirstMatchSkips<G, R>(alts: seq<Alt<G, R>>, s: seq<char>, p: nat)
    requires alts != [] && alts[0].Guarded? && alts[0].guard(s, p).result.Err?
    ensures var rest := FirstMatch(alts[1..], s, alts[0].guard(s, p).pos);
      FirstMatch(alts, s, p) == rest.(tried := [alts[0].id] + rest.tried)
  {
  }

  lemma SelectedShift<G, R>(alts: seq<Alt<G, R>>, s: seq<char>, p: nat, i: nat)
    requires HitsAt(alts, s, p, i) && i > 0
    ensures HitsAt(alts[1..], s, alts[0].guard(s, p).pos, i - 1)
    ensures var rest := Selected(alts[1..], s, alts[0].guard(s, p).pos, i - 1);
      Selected(alts, s, p, i) == rest.(tried := [alts[0].id] + rest.tried)
  {
    HitsAtShift(alts, s, p, i);
    var tail := alts[1..];
    if i == |alts| {
      assert alts[..i] == alts;
      IdsCons(alts, i);
      assert tail[..i - 1] == tail;
    } else if alts[i].Default? {
      assert tail[i - 1] == alts[i];
      IdsCons(alts, i);
    } else {
      assert tail[i - 1] == alts[i];
      IdsCons(alts, i + 1);
    }
  }

  /**
   * First match: when alternatives `0..i` are guards that fail, run in turn,
   * and alternative `i` is a guard that succeeds or a default, the result is
   * that alternative's arm, the guards tried are exactly `0..i` in order and
   * no later guard runs; when every alternative is a failing guard the
   * result is `()`.
   */
  lemma {:induction false} FirstMatchSelects<G, R>(alts: seq<Alt<G, R>>, s: seq<char>, p: nat, i: nat)
    requires HitsAt(alts, s, p, i)
    ensures FirstMatch(alts, s, p) == Selected(alts, s, p, i)
    decreases i
  {
    if i > 0 {
      SelectedShift(alts, s, p, i);
      FirstMatchSkips(alts, s, p);
      FirstMatchSelects(alts[1..], s, alts[0].guard(s, p).pos, i - 1);
    } else if alts != [] {
      assert alts[..1] == [alts[0]];
    }
  }

  /** With guards that rewind when they fail, every guard of the chain runs at the switch's own position. */
  lemma {:induction false} RewindingGuardsRunAtEntry<G, R>(alts: seq<Alt<G, R>>, s: seq<char>, p: nat, j: nat)
    requires j <= |alts| && forall i :: 0 <= i < j ==> alts[i].Guarded?
    requires forall i :: 0 <= i < j ==> alts[i].guard(s, p).result.Err? && alts[i].guard(s, p).pos == p
    ensures PosBefore(alts, s, p, j) == p
    decreases j
  {
    if j > 0 {
      RewindingGuardsRunAtEntry(alts, s, p, j - 1);
    }
  }

  /**
   * A switch without a wildcard whose guards all fail and rewind evaluates
   * to `()`, leaves the input where it was, and has tried every guard of
   * every case in order.
   */
  lemma {:induction false} ExhaustedSwitchIsUnit<G, R>(cases: seq<Case<G, R>>, s: seq<char>, p: nat)
    requires forall c :: 0 <= c < |cases| ==> cases[c].Calls?
    requires forall c, g :: 0 <= c < |cases| && cases[c].Calls? && 0 <= g < |cases[c].guards| ==>
      cases[c].guards[g](s, p).result.Err? && cases[c].guards[g](s, p).pos == p
    ensures var alts := Flatten(cases, 0);
      && (forall i :: 0 <= i < |alts| ==> alts[i].Guarded?)
      && Switch(cases, s, p) == SwitchOut(Unit, p, Ids(alts))
  {
    var alts := Flatten(cases, 0);
    FlattenShape(cases, 0);
    SwitchIsFirstMatch(cases, s, p, 0);
    forall i | 0 <= i < |alts|
      ensures alts[i].guard(s, p).result.Err? && alts[i].guard(s, p).pos == p
    {
      var (ci, gi) := alts[i].id;
      assert alts[i].guard == cases[ci].guards[gi];
    }
    RewindingGuardsRunAtEntry(alts, s, p, |alts|);
    forall j | 0 <= j < |alts|
      ensures alts[j].guard(s, PosBefore(alts, s, p, j)).result.Err?
    {
      RewindingGuardsRunAtEntry(alts, s, p, j);
    }
    FirstMatchSelects(alts, s, p, |alts|);
  }
}
