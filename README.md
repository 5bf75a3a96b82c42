# Pear: the parser wrapper, `switch!`, and the parsers built on them

Pear is a Rust parser-combinator library. A parser is a function over a
mutable input. The `#[parser]` attribute wraps the function's body in a
fixed protocol:

1. mark the input;
2. run the body and lift a bare value into `Ok`;
3. on failure, push the invocation's context onto the error and, for a
   `rewind` parser, restore the input;
4. on success, restore the input for a `peek` parser;
5. unmark with the success flag.

`switch!` expands into an ordered chain of `if let Ok(..) = guard` tests,
and the first guard that succeeds selects its arm.

This project models:

- the wrapper and the `switch!` expansion of `codegen/src/lib.rs`;
- the parsers that the library's tests and example program build on them:
  - `lib/tests/parsers.rs`: slice scanning, sliding windows and cursors;
  - `lib/tests/rewind.rs`: rewinding alternatives in a switch;
  - `examples/media_type/src/main.rs`: media types, quoted strings and
    `Accept` headers.

It then proves what those parsers return.

Every parser has two forms:

- **A function.** It maps the text and the entry position to a `Reply`,
  which holds the result and the position the input is left at.
- **A method.** It works on the mutable `Engine.Input` class, which holds
  the text, a cursor, and a ghost log of marker events. Its contract ties
  the new state to the function.

The method runs the same steps as the emitted code: `Mark`, then the body,
then `Finish`. The lemmas state the properties about the functions.

The modules are:

- `Engine` (engine.dfy): the marker protocol, errors with their context
  trace, and the wrapper.
- `Alternation` (switch.dfy): the `switch!` expansion.
- `Slices` and `Parsers` (slices.dfy, parsers.dfy): the parsing primitives
  the tests use.
- `Rewind` (rewind.dfy): the rewinding alternatives of `combo`.
- `ParserTests` (parser_tests.dfy): the test parsers and their expectations.
- `DocExample` (doc_example.dfy): the `ab_in_dots` example from the
  attribute's documentation.
- `MediaTypes`, `AcceptHeader` and `MediaExamples` (media_type.dfy,
  accept.dfy, media_examples.dfy): the media-type example program.

## Model

| member | source | states |
|---|---|---|
| Engine.Input.Mark | codegen/src/lib.rs:163 | marking never moves the input, returns the current position, and logs exactly one `Marked` event |
| Engine.Input.ContextOf | codegen/src/lib.rs:166 | the context of a failure spans from the marked entry to where the input stopped |
| Engine.Input.RewindTo | codegen/src/lib.rs:145-151 | rewinding puts the cursor back at the marked position |
| Engine.Input.Unmark | codegen/src/lib.rs:180 | unmarking never moves the input and logs exactly one `Unmarked` event with the success flag |
| Engine.Finish | codegen/src/lib.rs:165-181 | the tail of the emitted block: on failure the context is appended and a `rewind` parser restores the entry position; on success a `peek` parser restores it; the log gains one `Unmarked` |
| Engine.Invoke | codegen/src/lib.rs:156-182 | a wrapped call logs mark first and unmark last; a bare value becomes `Ok`; a full result passes through; a failure keeps its cause and gets this invocation's context last; the four position rules for `rewind`/`peek` on success/failure hold |
| Engine.ConcludeOutcome | codegen/src/lib.rs:164-171 | the wrapper never turns a success into a failure or back, keeps a success unchanged, appends exactly one context to a failure's trace, and without `rewind`/`peek` leaves the input where the body left it |
| Engine.PropagateOrder | codegen/src/lib.rs:165-167 | a failure that unwinds through nested invocations keeps its cause and lists their contexts innermost first |
| Engine.ClosingBrackets | codegen/src/lib.rs:163-180 | whatever nested invocations log between mark and unmark, the invocation's log is opened by its `Marked` and closed by its `Unmarked` |
| Alternation.SwitchIsFirstMatch | codegen/src/lib.rs:223-274 | the recursive expansion of the cases behaves exactly as ordered first-match over the flat list of guards, top to bottom and left to right |
| Alternation.GuardsAreFirstMatch | codegen/src/lib.rs:238-272 | the `if`/`else if` chain of one case's alternative guards, with the rest of the cases in its `else`, is first-match over the remaining guards |
| Alternation.FlattenShape | codegen/src/lib.rs:226-272 | the flattened alternatives keep source order, each guard carries its own case's arm, and a default is present, and last, exactly when a wildcard case is |
| Alternation.FlattenGuardsShape | codegen/src/lib.rs:239-270 | the same shape facts for the guards of one case and the cases after it |
| Alternation.FirstMatchSkips | codegen/src/lib.rs:263-270 | a guard that fails is recorded as tried and the next one runs where it left the input |
| Alternation.FirstMatchSelects | codegen/src/lib.rs:378-380 | when guard `i` is the first to succeed, its arm runs, no later guard runs, and exactly the guards before it were tried |
| Alternation.RewindingGuardsRunAtEntry | codegen/src/lib.rs:263-270 | when every failed guard rewinds, every guard starts at the switch's entry position |
| Alternation.ExhaustedSwitchIsUnit | codegen/src/lib.rs:226-227 | a switch without a wildcard whose guards all fail (and rewind) evaluates to the unit value at the entry position, having tried every guard in order |
| Parsers.EatSpec | lib/tests/rewind.rs:10-11 | `eat(c)` succeeds exactly when the next token is `c`, then returns it and advances by one; otherwise it does not move |
| Parsers.EatAnySpec | lib/tests/parsers.rs:144-145 | `eat_any` succeeds exactly when a token is left, returns it, and advances by one |
| Parsers.SkipAnySpec | lib/tests/parsers.rs:36 | `skip_any` succeeds exactly when a token is left, and advances by one only then |
| Parsers.EofSpec | lib/tests/rewind.rs:12 | `eof` succeeds exactly at the end of the text and never moves |
| Parsers.EatSliceSpec | lib/tests/parsers.rs:13 | `eat_slice(t)` succeeds exactly when the rest starts with `t`, then returns `t` and advances by `len(t)`; otherwise it does not move |
| Parsers.PeekSpec | examples/media_type/src/main.rs:49 | `peek(c)` succeeds exactly when the next token is `c`, and never moves |
| Parsers.PeekSliceSpec | lib/tests/parsers.rs:142 | `peek_slice(t)` succeeds exactly when the rest starts with `t`, and never moves |
| Parsers.TakeWhileMaximal | lib/tests/parsers.rs:156-157 | `take_while` returns the maximal run of tokens satisfying the predicate; `take_some_while` fails exactly when that run is empty and otherwise agrees with it; `skip_while` stops where it does |
| Parsers.TakeSomeWhileUntilStops | examples/media_type/src/main.rs:47 | `take_some_while_until(pred, u)` succeeds exactly when the next token satisfies `pred` and is not `u`, and returns the maximal such run |
| Parsers.WindowVariants | lib/tests/parsers.rs:92-120 | `take_while_window` never fails; `take_some_while_window` fails exactly when it takes nothing (no token is left, or the first full window fails), `take_while_some_window` exactly when fewer than `n` tokens are left, `take_some_while_some_window` exactly when either holds; they fail without moving, and on success the last agrees with `take_while_window` |
| Parsers.TakeUntilSliceFirstOccurrence | lib/tests/parsers.rs:71 | `take_until_slice(t)` returns the text before the first occurrence of `t`, leaving `t` to be eaten; with no occurrence it returns all the rest when `t` is one token or longer than the rest, and otherwise stops `len(t) - 1` tokens before the end |
| Parsers.SurroundedPads | examples/media_type/src/main.rs:63 | `surrounded(item, pad)` runs the item after the longest run of padding, returns its result, and on success skips the longest run of padding after it |
| Parsers.SeriesMoreCollects | examples/media_type/src/main.rs:85 | continuing a series keeps what was collected, adds one item per separator-and-item, and stops where no separator-and-item follows |
| Parsers.SeriesCollects | examples/media_type/src/main.rs:85 | `series(item, sep)` never fails, is empty exactly when the first item fails, and otherwise returns the items separated by `sep` up to the first separator that is not followed by an item |
| Parsers.PrefixedSeriesCollects | examples/media_type/src/main.rs:63 | `prefixed_series(prefix, item, sep)` is empty without the prefix; after it, it is the series of items |
| Parsers.Eat | lib/tests/rewind.rs:10-11 | the method leaves the input where `EatSpec` says and returns its result |
| Parsers.EatAny | lib/tests/parsers.rs:144 | the method agrees with `EatAnySpec` |
| Parsers.SkipAny | lib/tests/parsers.rs:36 | the method agrees with `SkipAnySpec` |
| Parsers.Eof | lib/tests/rewind.rs:12 | the method agrees with `EofSpec` and changes nothing |
| Parsers.EatSlice | lib/tests/parsers.rs:13 | the method compares the next `len(t)` tokens with `t` in one slice comparison and agrees with `EatSliceSpec` |
| Parsers.Peek | examples/media_type/src/main.rs:49 | the wrapped `eat` under the `peek` policy agrees with `PeekSpec` and logs one mark/unmark pair |
| Parsers.PeekSlice | lib/tests/parsers.rs:142 | the wrapped `eat_slice` under the `peek` policy agrees with `PeekSliceSpec` and logs one mark/unmark pair |
| Parsers.TakeWhile | lib/tests/parsers.rs:156 | the scanning loop agrees with `TakeWhileSpec` |
| Parsers.TakeSomeWhile | examples/media_type/src/main.rs:59 | the scanning loop agrees with `TakeSomeWhileSpec` |
| Parsers.TakeSomeWhileUntil | examples/media_type/src/main.rs:59 | the scanning loop agrees with `TakeSomeWhileUntilSpec` |
| Parsers.SkipWhile | examples/media_type/src/main.rs:62 | the scanning loop agrees with `SkipWhileSpec` |
| Parsers.TakeWhileSlice | lib/tests/parsers.rs:8 | the loop over growing prefixes agrees with `TakeWhileSliceSpec` |
| Parsers.TakeWhileWindow | lib/tests/parsers.rs:94-98 | the sliding-window loop agrees with `TakeWhileWindowSpec` |
| Parsers.TakeSomeWhileWindow | lib/tests/parsers.rs:103-104 | the method agrees with `TakeSomeWhileWindowSpec` |
| Parsers.TakeWhileSomeWindow | lib/tests/parsers.rs:118-119 | the method agrees with `TakeWhileSomeWindowSpec` |
| Parsers.TakeSomeWhileSomeWindow | lib/tests/parsers.rs:100-101 | the method agrees with `TakeSomeWhileSomeWindowSpec` |
| Parsers.TakeUntilSlice | lib/tests/parsers.rs:71 | the method agrees with `TakeUntilSliceSpec` |
| Slices.RunEndStops | examples/media_type/src/main.rs:35-39 | every token in a run satisfies the predicate, and the token after it does not |
| Slices.RunEndUnique | examples/media_type/src/main.rs:35-39 | a run end is determined: any position with those two properties is it |
| Slices.SliceLenStops | lib/tests/parsers.rs:8 | every non-empty prefix up to the slice length satisfies the slice predicate, and the next longer prefix does not |
| Slices.SliceLenUnique | lib/tests/parsers.rs:8 | the slice length is the only length with those properties |
| Slices.EndsWithOccurs | lib/tests/parsers.rs:8 | a prefix ends with `t` exactly when `t` occurs in the text ending where the prefix ends |
| Slices.TakeUntilStrStops | lib/tests/parsers.rs:8 | taking prefixes that do not end with `t` stops one token before the first occurrence of `t` completes, or takes everything when `t` does not occur |
| Slices.UntilLenIsFirst | lib/tests/parsers.rs:71 | no occurrence of `t` starts before the computed index, and one starts there unless it is the end |
| Slices.UntilLenIs | lib/tests/parsers.rs:71 | the first occurrence is the computed index |
| Slices.WindowLenStops | lib/tests/parsers.rs:92-120 | every window before the stop passes the predicate, and the window at the stop fails |
| Slices.WindowLenUnique | lib/tests/parsers.rs:92-120 | the stop is the only index with those properties |
| Slices.WindowLeavesTail | lib/tests/parsers.rs:106-107 | when every window passes, the scan stops `n - 1` tokens before the end (`"aa"` with an always-true predicate gives `"a"`) |
| Slices.WindowFindsFirstOccurrence | lib/tests/parsers.rs:71 | scanning windows of `len(t)` tokens that are not `t` stops exactly at the first occurrence of `t` |
| Slices.WindowMissesTail | lib/tests/parsers.rs:71 | with no occurrence, the window scan leaves the last `len(t) - 1` tokens |
| Rewind.EatThenEofExact | lib/tests/rewind.rs:8-30 | the body of `ab`/`abc`/`abcd` succeeds exactly when what is left is the word, then stands at the end |
| Rewind.ExactlyBehaves | lib/tests/rewind.rs:8-30 | a `rewind` parser for a word succeeds exactly on the word; on failure it leaves the input at its entry position and its context is last in the trace |
| Rewind.Ab | lib/tests/rewind.rs:8-13 | `ab` as emitted: agrees with `ExactlySpec` for `"ab"` and logs one mark/unmark pair |
| Rewind.Abc | lib/tests/rewind.rs:15-21 | `abc` as emitted: agrees with `ExactlySpec` for `"abc"` |
| Rewind.Abcd | lib/tests/rewind.rs:23-30 | `abcd` as emitted: agrees with `ExactlySpec` for `"abcd"` |
| Rewind.ComboSelects | lib/tests/rewind.rs:34-39 | the switch of `combo` always runs an arm, because its last case is a wildcard |
| Rewind.ComboAccepts | lib/tests/rewind.rs:32-40 | `combo` returns `"ab"`, `"abc"` or `"abcd"` exactly when the rest is that word; any other input fails with the wildcard's message at the entry position |
| Rewind.RewindTests | lib/tests/rewind.rs:42-67 | the five test expectations under `parse!` (`combo`, then end of input): `"ab"`, `"abc"` and `"abcd"` succeed with themselves; `"a"` and `"abcdef"` fail |
| Rewind.Combo | lib/tests/rewind.rs:32-40 | the method runs the guards in order, each rewound on failure, agrees with `ComboSpec`, and brackets its log |
| DocExample.ParseAbInDotsAccepts | codegen/src/lib.rs:341-348 | `parse!(ab_in_dots: s)` succeeds exactly when `s` is a run of `a`/`b` between two dots, and returns the run |
| DocExample.DocExampleAbba | codegen/src/lib.rs:352-353 | `".abba."` gives `"abba"` |
| DocExample.DocExampleBa | codegen/src/lib.rs:355-356 | `".ba."` gives `"ba"` |
| DocExample.DocExampleDots | codegen/src/lib.rs:358-359 | `ab_in_dots` alone reads `"..."` as an empty run ending after the second dot, so `parse!` fails on the third |
| DocExample.AbInDots | codegen/src/lib.rs:341-348 | the wrapped method agrees with `AbInDotsSpec` and logs one mark/unmark pair |
| DocExample.Parse | codegen/src/lib.rs:350-359 | running the method on a fresh input and then `eof` gives `ParseAbInDots` |
| ParserTests.TakeUntilStrStopsBefore | lib/tests/parsers.rs:6-9 | `take_until_str(t)` never fails and returns what it consumed; it stops on the last token of the first occurrence of `t`, takes everything when `t` does not occur, and takes nothing for an empty `t` |
| ParserTests.TakeUntilStr | lib/tests/parsers.rs:6-9 | the wrapped method agrees with `TakeUntilStrSpec` |
| ParserTests.ThenEatSliceReturns | lib/tests/parsers.rs:11-14 | `(first()?, eat_slice(r)?).0` returns `first`'s value exactly when `r` follows it, then has consumed `r`; a failure of `first` passes through with its cause; a missing `r` fails where `first` stopped |
| ParserTests.TestUntil | lib/tests/parsers.rs:11-14 | the wrapped method agrees with `TestUntilSpec` and brackets the nested invocations in its log |
| ParserTests.TestUntilReturns | lib/tests/parsers.rs:11-14 | when `t` occurs, `test_until` succeeds exactly when `r` follows the text up to the last token of `t`, and returns that text |
| ParserTests.TestUntilReturnsAll | lib/tests/parsers.rs:11-14 | when `t` does not occur, `test_until` succeeds exactly when `r` is empty, and returns everything |
| ParserTests.TestUntilFirstAt | lib/tests/parsers.rs:16-26 | with `t` first at `i` and `r` following, the result is the text before the last token of `t`, and the parser stops after `r` |
| ParserTests.ParseTestUntilAt | lib/tests/parsers.rs:16-26 | under `parse!`, with `t` first at `i` and `r` exactly the rest after `t` less its last token, the whole text is read and the text before that last token is returned |
| ParserTests.TestWhileSliceDouble | lib/tests/parsers.rs:18-19 | the first `test_while_slice` expectation: under `parse!`, `test_until("]]", "]")` on `"[[ a ] b c ]]"` reads the whole text and gives `"[[ a ] b c ]"` |
| ParserTests.TestWhileSliceTriple | lib/tests/parsers.rs:21-22 | the second expectation: under `parse!`, `test_until("]]]", "] hi")` reads the whole text and gives `"[[ a ]] b c ]]"` |
| ParserTests.TestWhileSliceSingle | lib/tests/parsers.rs:24-25 | the third expectation: under `parse!`, `test_until("]", "]] b c ]]]")` reads the whole text and gives `"[[ a "` |
| ParserTests.TakeUntilAndStrFinds | lib/tests/parsers.rs:28-41 | the corrected `take_until_and_str(t)`: an empty `t` is the user error, without moving; otherwise it returns the text before the first occurrence and consumes `t` too, or everything when `t` does not occur |
| ParserTests.UntilAndFound | lib/tests/parsers.rs:34-37 | when `t` occurs, the body trims `len(t) - 1` tokens and skips the last one |
| ParserTests.UntilAndNotFound | lib/tests/parsers.rs:38-40 | when `t` does not occur, the corrected body returns everything |
| ParserTests.UntilAndAsWrittenNotFound | lib/tests/parsers.rs:34-40 | when `t` does not occur, the body as written consumes everything and returns it less a trailing `t` without its last token, if the text ends with one |
| ParserTests.TakeUntilAndStrAgreesWhenFound | lib/tests/parsers.rs:34-40 | the code as written and the corrected code agree whenever `t` occurs or is one token long, which covers every test |
| ParserTests.TakeUntilAndStrDropsUnfinished | lib/tests/parsers.rs:35-37 | as written, a text ending in a proper prefix of `t` loses that prefix although `t` never occurs; the corrected code keeps it |
| ParserTests.TakeUntilAndStrLosesBracket | lib/tests/parsers.rs:35-37 | the concrete case: `"ab]"` with `"]]"` gives `"ab"` as written, `"ab]"` corrected |
| ParserTests.TakeUntilAndStr | lib/tests/parsers.rs:28-41 | the wrapped method computes the code as written, `TakeUntilAndStrAsWritten`: a `skip_any` failing at the end is discarded |
| ParserTests.TestUntilAnd | lib/tests/parsers.rs:43-46 | the wrapped method agrees with `TestUntilAndSpec`, built on the code as written, and brackets its log |
| ParserTests.TestUntilAndReturns | lib/tests/parsers.rs:43-46 | when `t` occurs, `test_until_and` succeeds exactly when `r` follows `t`, and returns the text before `t` |
| ParserTests.TestUntilAndReturnsAll | lib/tests/parsers.rs:43-46 | when `t` does not occur, it succeeds exactly when `r` is empty; it returns everything less a trailing `t` without its last token, so everything for a one-token `t` |
| ParserTests.TestUntilAndFirstAt | lib/tests/parsers.rs:48-67 | with `t` first at `i` and `r` after it, the result is the text before `i`, and the parser stops after `r` |
| ParserTests.ParseTestUntilAndAt | lib/tests/parsers.rs:48-67 | under `parse!`, with `t` first at `i` and `r` exactly the rest after `t`, the whole text is read and the text before `t` is returned |
| ParserTests.TestUntilAndAbsent | lib/tests/parsers.rs:59-63 | with `t` absent and `r` empty, the result is the whole text less a trailing `t` without its last token, so the whole text for a one-token `t` |
| ParserTests.TestWhileSliceAndDouble | lib/tests/parsers.rs:50-51 | the first `test_while_slice_and` expectation: under `parse!`, `test_until_and("]]", "")` reads the whole text and gives `"[[ a ] b c "` |
| ParserTests.TestWhileSliceAndTriple | lib/tests/parsers.rs:53-54 | the second expectation: under `parse!`, `test_until_and("]]]", " hi")` reads the whole text and gives `"[[ a ]] b c "` |
| ParserTests.TestWhileSliceAndSingle | lib/tests/parsers.rs:56-57 | the third expectation: under `parse!`, `test_until_and("]", "] b c ]]]")` reads the whole text and gives `"[[ a "` |
| ParserTests.TestWhileSliceAndChick | lib/tests/parsers.rs:65-66 | the sixth expectation: under `parse!`, the emoji is one token and the result is `"[[ 🐥 "` |
| ParserTests.TestWhileSliceAndMissing | lib/tests/parsers.rs:59-60 | the fourth expectation: under `parse!`, `"hi"` has no `]`, so all of it is read and returned |
| ParserTests.TestWhileSliceAndChickMissing | lib/tests/parsers.rs:62-63 | the fifth expectation: under `parse!`, `"🐥hi"` is read and returned whole, the emoji being one token |
| ParserTests.TestUntilWindow | lib/tests/parsers.rs:69-72 | the wrapped method agrees with `TestUntilWindowSpec` |
| ParserTests.TestUntilWindowReturns | lib/tests/parsers.rs:69-72 | when `t` occurs, `test_until_window` succeeds exactly when `r` follows the text before `t`, and returns that text; when `t` does not occur, it returns the text up to the last `len(t) - 1` tokens (all of it for a one-token `t` or a text shorter than `t`) and succeeds exactly when `r` starts what is left |
| ParserTests.TestUntilWindowFirstAt | lib/tests/parsers.rs:74-90 | with `t` first at `i` and `r` starting there, the result is the text before `i`, and the parser stops after `r` |
| ParserTests.ParseTestUntilWindowAt | lib/tests/parsers.rs:74-90 | under `parse!`, with `t` first at `i` and `r` exactly the rest from there, the whole text is read and the text before `t` is returned |
| ParserTests.ParseTestUntilWindowTokenAbsent | lib/tests/parsers.rs:88-89 | under `parse!` with an empty `r`, a text without the one-token `t` is read and returned whole |
| ParserTests.TestWhileSliceWindowDouble | lib/tests/parsers.rs:76-77 | the first `test_while_slice_window` expectation: under `parse!`, `test_until_window("]]", "]]")` reads the whole text and gives `"[[ a ] b c "` |
| ParserTests.TestWhileSliceWindowTriple | lib/tests/parsers.rs:79-80 | the second expectation: under `parse!`, `test_until_window("]]]", "]]] hi")` reads the whole text and gives `"[[ a ]] b c "` |
| ParserTests.TestWhileSliceWindowSingle | lib/tests/parsers.rs:82-83 | the third expectation: under `parse!`, the whole text is read and the result is `"[[ a "` |
| ParserTests.TestWhileSliceWindowChick | lib/tests/parsers.rs:85-86 | the fourth expectation: under `parse!`, with the emoji as one token, the result is `"[[ 🐥 "` |
| ParserTests.TestWhileSliceWindowMissing | lib/tests/parsers.rs:88-89 | the fifth expectation: under `parse!`, `"🐥hi"` has no `]`, so all of it is read and returned |
| ParserTests.TestWindowTermination | lib/tests/parsers.rs:92-120 | the nine expectations of `test_window_termination` |
| ParserTests.CursorExtents | lib/tests/parsers.rs:124-127 | over a cursor, the extents of `take_until_cursor_str`, `eat_any` and `take_while` start where the input was, end where it was left, and hold exactly the text between |
| ParserTests.TakeUntilCursorStr | lib/tests/parsers.rs:124-127 | the wrapped method agrees with `TakeUntilCursorStrSpec` |
| ParserTests.EatAnyExtent | lib/tests/parsers.rs:144-145 | `eat_any` over a cursor returns the token with its extent |
| ParserTests.TakeWhileExtent | lib/tests/parsers.rs:156-158 | `take_while` over a cursor returns the run with its extent |
| ParserTests.CursorFirst | lib/tests/parsers.rs:131-137 | `"abchello"` with `"hell"` gives the extent 0..6, `"abchel"` |
| ParserTests.CursorThis | lib/tests/parsers.rs:147-149 | from 1 with `"this"`: 1..8, `"ellothi"` |
| ParserTests.CursorIs | lib/tests/parsers.rs:151-153 | from 8 with `"is"`: 8..10, `"si"` |
| ParserTests.CursorRest | lib/tests/parsers.rs:156-158 | from 10, `take_while` with an always-true predicate: 10..13, `"she"` |
| ParserTests.CursorTestFresh | lib/tests/parsers.rs:131-137 | the first half of `test_cursor` on a fresh cursor: the extent and the slice it spans |
| ParserTests.CursorTestReused | lib/tests/parsers.rs:139-158 | the second half on one reused cursor: each extent, each equal to the input slice it spans, and the extents contiguous up to the end |
| MediaTypes.DelimitersAreNotTokens | examples/media_type/src/main.rs:14-21 | `/ ; = , " \`, space and tab are not token characters, nor are upper-case letters; `{` and `}` are |
| MediaTypes.UntilDelimiterIsTokenRun | examples/media_type/src/main.rs:59-60 | `take_some_while_until(is_valid_token, d)` for a non-token `d` is the non-empty token run |
| MediaTypes.QuotedLenFindsClose | examples/media_type/src/main.rs:34-39 | the closure with its `is_escaped` flag stops at the first quote not escaped by an odd run of backslashes |
| MediaTypes.QuotedLenFirstClose | examples/media_type/src/main.rs:34-39 | from the start of the string the scan stops at the first closing quote, and before the end exactly when there is one |
| MediaTypes.QuotedStringReads | examples/media_type/src/main.rs:30-43 | `quoted_string` succeeds exactly when a quote opens and a closing quote follows; it returns the text between, escapes kept, and ends after the closing quote; a failure carries its context last |
| MediaTypes.ParamValueIsSwitch | examples/media_type/src/main.rs:48-51 | the value `switch!` always runs an arm, and is the quoted string after a `"` and the token run otherwise |
| MediaTypes.ParamValueIs | examples/media_type/src/main.rs:48-51 | the value succeeds exactly when a quoted string or a non-empty token run starts there, and is that string or run |
| MediaTypes.TokenRun | examples/media_type/src/main.rs:47 | the key is the non-empty token run at the entry position |
| MediaTypes.KeyValueReads | examples/media_type/src/main.rs:47-53 | the body succeeds exactly when a non-empty key, `=`, and a value follow, and returns the key and value |
| MediaTypes.MediaParamReads | examples/media_type/src/main.rs:45-54 | `media_param` succeeds exactly when a key, `=` and a value follow, returns them, and on failure carries its own context last |
| MediaTypes.PaddedParamAdvances | examples/media_type/src/main.rs:63 | a padded parameter never moves backwards nor past the end |
| MediaTypes.ParamsThenDoneReads | examples/media_type/src/main.rs:61-64 | after the subtype, the blanks are skipped and the parameters are the `;`-prefixed series |
| MediaTypes.SubtypeThenParamsReads | examples/media_type/src/main.rs:60-64 | after the top type, `/` and a non-empty token run are required; the parameters follow |
| MediaTypes.MediaTypeBodyStarts | examples/media_type/src/main.rs:59 | the top type is a non-empty token run up to the first non-token |
| MediaTypes.MediaTypeBodyAccepts | examples/media_type/src/main.rs:56-66 | the body succeeds exactly when a non-empty token run, `/`, and another non-empty token run start the text |
| MediaTypes.MediaTypeBodyValue | examples/media_type/src/main.rs:56-66 | on success the media type holds those two runs and the parameter series read after the blanks, and ends where the series ends |
| MediaTypes.MediaTypeBodyReads | examples/media_type/src/main.rs:56-66 | both halves together: when `media_type` succeeds and what it returns |
| MediaTypes.QuotedRun | examples/media_type/src/main.rs:34-39 | the `take_while` loop, with the closure's flag as a local, agrees with `QuotedRunSpec` |
| MediaTypes.QuotedString | examples/media_type/src/main.rs:30-43 | the wrapped method agrees with `QuotedStringSpec` |
| MediaTypes.ParamValueSwitch | examples/media_type/src/main.rs:48-51 | the emitted `if let` on `peek('"')` with the wildcard in its `else` agrees with `ParamValueSpec` |
| MediaTypes.KeyValue | examples/media_type/src/main.rs:47-53 | the method runs the body's steps and agrees with the body |
| MediaTypes.MediaParam | examples/media_type/src/main.rs:45-54 | the wrapped method agrees with `MediaParamSpec` and brackets its log |
| MediaTypes.PaddedMediaParam | examples/media_type/src/main.rs:63 | the method agrees with `PaddedParam` |
| MediaTypes.NextParam | examples/media_type/src/main.rs:63 | after a `;`, one more padded parameter; on failure the `;` is given back |
| MediaTypes.MoreParams | examples/media_type/src/main.rs:63 | the series loop agrees with `SeriesMore` |
| MediaTypes.ParamSeries | examples/media_type/src/main.rs:63 | the method agrees with `SeriesSpec` |
| MediaTypes.PrefixedParams | examples/media_type/src/main.rs:63 | the method agrees with `PrefixedSeriesSpec` |
| MediaTypes.MediaTypeFields | examples/media_type/src/main.rs:58-65 | the struct expression's field steps agree with the body |
| MediaTypes.ReadMediaType | examples/media_type/src/main.rs:56-66 | the wrapped method agrees with `MediaTypeSpec` and brackets its log |
| AcceptHeader.WeightRule | examples/media_type/src/main.rs:71-78 | the weight is present exactly when the first parameter is `q` and accepted; it fails exactly when that value does not parse or exceeds 1.0, with the matching message and an empty trace |
| AcceptHeader.WeightedReads | examples/media_type/src/main.rs:68-81 | `weighted_media_type` succeeds exactly when the media type does and its weight is accepted; a rejected weight carries only this invocation's context; a media-type failure passes through with this context appended |
| AcceptHeader.PaddedWeightedAdvances | examples/media_type/src/main.rs:85 | a padded weighted media type never moves backwards nor past the end |
| AcceptHeader.AcceptCollects | examples/media_type/src/main.rs:83-86 | `accept` never fails, is empty exactly when the first item fails, and otherwise is the `,`-separated series of padded weighted media types |
| AcceptHeader.WeightedMediaType | examples/media_type/src/main.rs:68-81 | the wrapped method agrees with `WeightedSpec` and brackets its log |
| AcceptHeader.PaddedWeightedMediaType | examples/media_type/src/main.rs:85 | the method agrees with `PaddedWeighted` |
| AcceptHeader.NextWeighted | examples/media_type/src/main.rs:85 | after a `,`, one more padded item; on failure the `,` is given back |
| AcceptHeader.MoreWeighted | examples/media_type/src/main.rs:85 | the series loop agrees with `SeriesMore` |
| AcceptHeader.WeightedSeries | examples/media_type/src/main.rs:85 | the method agrees with `SeriesSpec` |
| AcceptHeader.Accept | examples/media_type/src/main.rs:83-86 | the wrapped method agrees with `AcceptSpec` and brackets its log |
| MediaExamples.MediaTypeWithoutParams | examples/media_type/src/main.rs:94 | `parse!(media_type: "a/b")` gives top `a`, sub `b`, no parameters |
| MediaExamples.TokenParamAt | examples/media_type/src/main.rs:45-54 | a `key=value` parameter with an unquoted value reads as the key run and the value run, and ends after the value |
| MediaExamples.PaddedTokenParamAt | examples/media_type/src/main.rs:63 | the same parameter with blanks around it ends after the trailing blanks |

## Left out

- The library itself (`lib/src`: the input types, `eat`, `take_while` and
  the other primitives, `series`, `surrounded`, `parse!`) is not part of
  this model. Its primitives are rebuilt from their documented behaviour
  and from what the tests expect. They are not wrapped in the marker
  protocol, except `peek` and `peek_slice`, which are `eat`/`eat_slice`
  under the `peek` policy.
- The rebuilt `series` and `prefixed_series` make two choices that the
  library source would settle and that this model cannot check:
  - `Parsers.SeriesSpec`: when the first item fails, the series is empty
    and the input goes back to where the series started, just as for an
    item that fails after a separator.
  - `Parsers.PrefixedSeriesSpec`: when the prefix is present but no item
    follows it, the prefix stays consumed (`Parsers.PrefixedSeriesCollects`
    states `r.pos == p + 1`).

  The results of inputs such as `"a/b; "` for `media_type` and `"  "` for
  `accept` depend on these two choices.
- `parse!` is modelled as the parser followed by `eof`.
- `map_err` and the `parse_error!` macro's expansion are not modelled. A
  user error is its message with an empty trace, and the wrapper appends
  the context as usual.
- The debug tracing of the emitted block (`parser_entry`/`parser_exit`,
  lines 159-161 and 173-178) has no effect on results and is left out.
- The parser marker is a position only. `Input::context` may return
  `None` in the library; here it always returns the span.
- The attribute's compile-time work is left out: argument parsing, the `?`
  rewriting that threads the input (lines 292-306), and the errors for
  malformed functions. The model starts from the rewritten body.
- Tokens are Unicode scalar values. UTF-8 byte offsets and `&str` slicing
  are not modelled. Each `char` is one position, so an emoji counts as one
  token.
- Window parsers require a window of at least one token. Size 0 is not
  used by the tests and is left out.
- `take_until_slice(t)` with no occurrence of `t` is modelled as its
  sliding-window definition. When `t` has two or more tokens, this leaves
  the last `|t| - 1` tokens unread (`Slices.WindowMissesTail`,
  `Parsers.TakeUntilSliceFirstOccurrence`,
  `ParserTests.TestUntilWindowReturns`). The competing reading, that the
  parser takes everything when `t` never occurs, is not modelled. Only the
  one-token case occurs in the tests, where the two readings agree.
- `take_until_and_str(t)` slices `&s[..s.len() - 1]` by bytes, which
  panics when the last character of `t` is more than one byte long. The
  model works on tokens and drops the last token instead, so it does not
  capture that panic.
- AcceptHeader: the `f32` parse of a weight is a parameter `ParseFloat` of
  every accept parser. Floating-point rounding, `NaN`, and Rust's float
  grammar are not modelled. The weight is an exact `real`.
- `main` prints its seven results. Only `parse!(media_type: "a/b")` is
  stated as a fixed result (`MediaExamples.MediaTypeWithoutParams`). The
  other six inputs are covered by the general lemmas
  (`MediaTypes.MediaTypeBodyReads`, `MediaExamples.PaddedTokenParamAt`,
  `AcceptHeader.AcceptCollects`). They are not spelled out concretely,
  because unrolling every parser over those literal strings is beyond the
  solver's budget.
- `switch!` is modelled on values (`Alternation`). The guards and arms are
  step functions over the text, and the `if let` chain is their
  evaluation. Guard bindings of the form `x@parser()` are the value the
  guard passes to its arm.

## Findings

| source | as written | input that shows it | evidently intended | confidence | as-written member | corrected member |
|---|---|---|---|---|---|---|
| lib/tests/parsers.rs:35-37 | after `take_while_slice` stops, `take_until_and_str` trims `len(t) - 1` tokens whenever the slice ends with `t` minus its last token, even when the input ended and `t` never occurred | `take_until_and_str("]]")` on `"ab]"` returns `"ab"`, losing the `]` although `"]]"` does not occur | trim only when the terminator is really there, and return `"ab]"` | not executed | ParserTests.TakeUntilAndStrLosesBracket | ParserTests.TakeUntilAndStrFinds |
