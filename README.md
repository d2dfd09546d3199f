# EduChainSim contract interaction and lesson sidebars, in Dafny

This project models the front-end core of EduChainSim, a teaching tool for
writing, deploying and calling Solidity contracts.

The contract-interaction component (`DynamicFunctionCaller`) shows one form
per ABI function.
- Every edit of a field stores its text and re-checks it.
- A call re-checks all declared arguments, converts the texts to typed
  values, and either calls a read-only function or sends a transaction.
- A confirmed transaction appends a gas record to a history. The history is
  shown as a leaderboard sorted by gas.

Both versions of the component are modelled:
- the current one, `FunctionCaller.Caller`, which checks fields live with the
  real parser and collects every argument error before aborting;
- the older one, `FunctionCallerOld.LegacyCaller`, which only flags empty
  fields and stops at the first argument that does not parse.

Two lesson sidebars are modelled as well:
- `GuidedLessons`: seven lessons unlocked one at a time by marking the open
  one completed;
- `LessonCarousel`: three lessons with Previous and Next buttons that wrap
  around.

## Structure

| module | what it holds |
|---|---|
| `Wrappers` | `Option`, `Result` |
| `Strings` | JavaScript `startsWith`, `endsWith`, `includes`, `trim`, `split(',')` and `join` on `seq<char>`, with their laws |
| `Decimal` | the integer-literal regex `^[-+]?\d+$`, `BigInt` of such a literal, and `bigint.toString()` |
| `Values` | runtime values, parse error tags, ABI parameter and function entries, and the library calls as function-valued fields of `Lib` |
| `ValueParser` | `parseTypedValue` |
| `Formatter` | `formatOutput` |
| `GasLedger` | gas records and the sorted leaderboard view |
| `FieldState` | the nested `inputs` / `validationErrors` maps and their spread updates |
| `Validation` | the live field checks and the re-validation done by a call; the re-validation takes the value parser as a function value, and both components pass `ParserOf(lib)`, which is `parseTypedValue` |
| `Calls` | the part of `callFunction` after validation: the ether override, the read-only call or transaction, the result shown, and the gas record |
| `FunctionCaller`, `FunctionCallerOld` | the two component versions as classes whose handlers update their fields |
| `GuidedLessons`, `LessonCarousel` | the two sidebars as classes |

The library calls are `ethers.isAddress`, `JSON.parse`, `ethers.parseEther`
and `JSON.stringify`. They are parameters of the model (the `Lib` datatype),
so every property holds whatever they do. The contract and the wallet are
outside the model too:
- what a read-only call returns or throws is the parameter `readReply`;
- what a transaction's receipt is, or what sending or waiting throws, is the
  parameter `writeReply`;
- the request the component would make is returned as a `Call` value.

Points where a reader might expect otherwise:
- Types are examined as raw strings, in the order the code tests them, and
  are not parsed into a type grammar. So `uint256` accepts `-5`, and an
  element type containing `tuple` anywhere is parsed as JSON.
- The current version computes the message "This field cannot be empty." on
  a failed edit but stores the parser's own message instead. An empty field
  therefore never gets an empty-field error. For `string` and `bytes…` types
  it gets no error at all.
- The per-function Reset button (the inline handler at
  `frontend/src/DynamicFunctionCaller.jsx:357-362`) sets the function's
  error row to `{}`. `handleReset` (`frontend/src/DynamicFunctionCaller.jsx:73-77`)
  sets it to `undefined`; it is defined but the current component never
  calls it. The model removes the row instead of storing `undefined`. Every
  reader of the error table (`?.[i]`, `|| {}`, the spread) treats a missing
  row and an `undefined` one alike.

## Model

| member | source | states |
|---|---|---|
| Strings.ContainsIffOccurs | frontend/src/DynamicFunctionCaller.jsx:95 | `includes` holds exactly when the substring occurs at some position |
| Strings.TrimShape | frontend/src/DynamicFunctionCaller.jsx:109 | `trim` returns a slice of the text with only whitespace around it, and the slice neither starts nor ends with whitespace |
| Strings.TrimEmptyIff | frontend/src/DynamicFunctionCaller_old.jsx:44 | a text trims to empty exactly when it is all whitespace |
| Strings.SplitCount | frontend/src/DynamicFunctionCaller.jsx:109 | `split(',')` yields one more piece than there are commas |
| Strings.SplitPiecesFree | frontend/src/DynamicFunctionCaller.jsx:109 | no piece of a split contains the separator |
| Strings.JoinSplit | frontend/src/DynamicFunctionCaller.jsx:109 | joining the pieces of a split with the separator gives back the text |
| Strings.SplitJoin | frontend/src/DynamicFunctionCaller.jsx:109 | splitting a join of separator-free pieces gives back the pieces |
| Decimal.IntToStringRoundTrip | frontend/src/DynamicFunctionCaller.jsx:118-125 | the decimal text of any integer matches the literal pattern and `BigInt` of it is that integer |
| Decimal.LiteralCanonical | frontend/src/DynamicFunctionCaller.jsx:118-125 | re-printing the value of an accepted literal drops its `+` sign and leading zeros (and gives `0` for `-0`) and changes nothing else |
| ValueParser.Parse | frontend/src/DynamicFunctionCaller.jsx:90-169 | `parseTypedValue`: the value or the error of a text for a type, with the type tested in the order the code tests it. It has no contract of its own; the rows from `ValueParser.ParseInteger` to `ValueParser.ParseArray` state each branch, and `Validation.ParseNeverFieldEmpty` states that it never gives the empty-field error |
| ValueParser.ParseInteger | frontend/src/DynamicFunctionCaller.jsx:118-126 | for an integer type, parsing succeeds exactly on texts matching `^[-+]?\d+$`, gives the literal's value, and otherwise fails with that type's number error |
| ValueParser.UnsignedAcceptsNegative | frontend/src/DynamicFunctionCaller.jsx:118-125 | an unsigned type accepts a negative literal: `-5` as `uint256` parses to -5 |
| ValueParser.ScalarNotTrimmed | frontend/src/DynamicFunctionCaller.jsx:118-136 | a scalar field is not trimmed: ` 1` as `uint256` and `true ` as `bool` are rejected |
| ValueParser.ParseBool | frontend/src/DynamicFunctionCaller.jsx:128-136 | `bool` accepts exactly `true` and `false`, maps them to the boolean, and otherwise fails with the boolean error |
| ValueParser.ParseAddress | frontend/src/DynamicFunctionCaller.jsx:138-146 | `address` keeps the text when the address check accepts it and fails with the address error otherwise |
| ValueParser.ParseTextual | frontend/src/DynamicFunctionCaller.jsx:148-154 | `string` and every non-array type starting with `bytes` keep the text as it is, including the empty text |
| ValueParser.ParseTuple | frontend/src/DynamicFunctionCaller.jsx:156-166 | `tuple` is the JSON reading of the text, or the tuple error |
| ValueParser.ParseUnsupported | frontend/src/DynamicFunctionCaller.jsx:168 | every other non-array type fails as unsupported |
| ValueParser.ParseStructArray | frontend/src/DynamicFunctionCaller.jsx:91-105 | an array type whose element type contains `tuple` is the JSON reading of the text, or the struct-array error |
| ValueParser.ParseEach | frontend/src/DynamicFunctionCaller.jsx:109 | the `map` over the trimmed pieces, ending at the first piece that throws. It has no contract of its own; `ValueParser.ParseEachAll` states it |
| ValueParser.ParseEachAll | frontend/src/DynamicFunctionCaller.jsx:109 | parsing pieces succeeds exactly when every trimmed piece parses, and then gives their values in order |
| ValueParser.ParseArray | frontend/src/DynamicFunctionCaller.jsx:91-116 | a primitive array succeeds exactly when every trimmed comma-separated piece parses as the element type. It then gives one element per piece (commas + 1), in order. Any failure becomes the array error naming the element type |
| ValueParser.IntegerRoundTrip | frontend/src/DynamicFunctionCaller.jsx:118-125 | the decimal text of any integer parses back to it as any integer type |
| ValueParser.IntArrayRoundTrip | frontend/src/DynamicFunctionCaller.jsx:91-125 | a non-empty list of integers written comma-separated parses as an integer array type back to that list |
| Formatter.Format | frontend/src/DynamicFunctionCaller.jsx:178-189 | `formatOutput`: arrays bracketed with their elements joined by `", "`, bigints as decimal text, objects through `JSON.stringify`. It has no contract of its own; `Formatter.FormatIntRoundTrip`, `Formatter.JoinSpaced` and `Formatter.DisplayedIntArrayRoundTrip` state it |
| Formatter.FormatIntRoundTrip | frontend/src/DynamicFunctionCaller.jsx:180 | a returned bigint is shown as text that parses back to the same integer |
| Formatter.JoinSpaced | frontend/src/DynamicFunctionCaller.jsx:179 | joining with `", "` is joining with `","` pieces that carry a leading space |
| Formatter.DisplayedIntArrayRoundTrip | frontend/src/DynamicFunctionCaller.jsx:179-180 | a displayed integer array is bracketed, and its inner text is accepted back as input for the array type, giving the same integers |
| GasLedger.Insert | frontend/src/DynamicFunctionCaller.jsx:393-394 | inserting into a gas-sorted list keeps it sorted and adds one record |
| GasLedger.InsertPermutes | frontend/src/DynamicFunctionCaller.jsx:393-394 | insertion adds exactly the new record; nothing is lost or duplicated |
| GasLedger.SortByGas | frontend/src/DynamicFunctionCaller.jsx:393-394 | the leaderboard is sorted by gas ascending and is a permutation of the history |
| GasLedger.SortByGasStable | frontend/src/DynamicFunctionCaller.jsx:393-394 | records of equal gas keep their history order |
| GasLedger.LeaderboardOf | frontend/src/DynamicFunctionCaller.jsx:393-394 | the leaderboard of a history is sorted by gas, a permutation of the history, and stable: records of equal gas keep history order |
| GasLedger.LeaderboardAfterAppend | frontend/src/DynamicFunctionCaller.jsx:244-251 | after a record is appended, the leaderboard is the old one with the new record inserted after every record of no greater gas and before every record of greater gas |
| GasLedger.AppendedLands | frontend/src/DynamicFunctionCaller.jsx:393-394 | sorting the history with one more record at its end equals inserting that record behind the records of equal gas in the old sorted view |
| FieldState.Put | frontend/src/DynamicFunctionCaller.jsx:35-41 | storing a text changes only the edited slot of the edited function |
| FieldState.Delete | frontend/src/DynamicFunctionCaller.jsx:47-54 | clearing an error removes only that slot and keeps the function's row |
| FieldState.ApplyEdit | frontend/src/DynamicFunctionCaller.jsx:44-69 | after a live check, the slot holds the new error or none, and every other slot is unchanged |
| FieldState.ClearRow | frontend/src/DynamicFunctionCaller.jsx:359-360 | an empty row for one function; other functions unchanged |
| FieldState.DropRow | frontend/src/DynamicFunctionCaller.jsx:75 | one function's row gone (read everywhere as the `undefined` the code stores); other functions unchanged |
| Validation.EditError | frontend/src/DynamicFunctionCaller.jsx:44-69 | the live verdict of the current version: the parser's error, or none. An edit of the typeless `value` field (jsx:344) gives the type error. It has no contract of its own; `Validation.EmptyFieldNotReported` and `Validation.EditNeverFieldEmpty` state it |
| Validation.EmptyFieldNotReported | frontend/src/DynamicFunctionCaller.jsx:55-68 | an empty field is stored with the parser's verdict, not an empty-field error. It passes for `string` and `bytes32` and is a number error for `uint256`. An edit with no type gives the type error |
| Validation.ParseNeverFieldEmpty | frontend/src/DynamicFunctionCaller.jsx:90-168 | no text and no type makes the parser produce the empty-field error |
| Validation.EditNeverFieldEmpty | frontend/src/DynamicFunctionCaller.jsx:55-68 | for every edit, the stored live error is never the empty-field error |
| Validation.EmptinessError | frontend/src/DynamicFunctionCaller_old.jsx:44-62 | the older live check flags a field exactly when it is all whitespace, and only with the empty-field error |
| Validation.ExpectedErrors | frontend/src/DynamicFunctionCaller.jsx:204-212 | the errors of a call are keyed by exactly the indices of the arguments that fail to parse, each with its own error |
| Validation.NoErrorsAllParsed | frontend/src/DynamicFunctionCaller.jsx:204-221 | there are no errors exactly when every argument parses, and then the values passed are all arguments in declared order |
| Validation.OksWhenNoErrors | frontend/src/DynamicFunctionCaller.jsx:207-208 | with no failure, the pushed values are all the outcomes, in order |
| Validation.ValidateAll | frontend/src/DynamicFunctionCaller.jsx:199-212 | the loop examines every argument, even after a failure, and collects exactly the expected errors and the successful values in order |
| Validation.ParseUntilFailure | frontend/src/DynamicFunctionCaller_old.jsx:180-190 | the older `map` succeeds exactly when every argument parses, giving all values in order. Otherwise it stops at the first failing argument with that argument's error |
| Calls.Dispatch | frontend/src/DynamicFunctionCaller.jsx:223-257 | nothing is sent exactly when a payable call's non-empty amount fails to parse. A read-only call gets no overrides and never leaves a gas record. A transaction carries the parsed amount exactly when one was given. A gas record appears exactly for a confirmed transaction, with its gas and hash |
| FunctionCaller.Caller.constructor | frontend/src/DynamicFunctionCaller.jsx:5-9 | the initial state: no contract, no texts, no errors, an empty result panel and an empty gas history |
| FunctionCaller.Caller.Connect | frontend/src/DynamicFunctionCaller.jsx:24 | the contract is stored; texts, errors, result and history are unchanged |
| FunctionCaller.Caller.HandleChange | frontend/src/DynamicFunctionCaller.jsx:34-70 | an edit stores the text and sets or clears that slot's error by the parser's verdict |
| FunctionCaller.Caller.HandleReset | frontend/src/DynamicFunctionCaller.jsx:73-77 | the function's texts are emptied, its error row removed and the result panel cleared (the handler is defined but not called by the component) |
| FunctionCaller.Caller.ResetFunction | frontend/src/DynamicFunctionCaller.jsx:357-362 | the function's texts and errors are set to empty rows and the result panel cleared |
| FunctionCaller.Caller.HandleResetAll | frontend/src/DynamicFunctionCaller.jsx:81-86 | texts, errors, result and gas history all empty; the contract stays connected |
| FunctionCaller.Caller.CallFunction | frontend/src/DynamicFunctionCaller.jsx:192-258 | without a contract only "not ready" is shown. Otherwise the errors become this function's expected errors alone. Any error aborts with "fix the inputs". Else the dispatch outcome is shown and its record appended. The history only ever grows at its end, by at most one |
| FunctionCaller.Caller.Leaderboard | frontend/src/DynamicFunctionCaller.jsx:393-394 | the table is `GasLedger.LeaderboardOf` of the stored history, whose row states its properties; the stored order is not changed |
| FunctionCallerOld.LegacyCaller.constructor | frontend/src/DynamicFunctionCaller_old.jsx:5-9 | the same initial state as the current version |
| FunctionCallerOld.LegacyCaller.Connect | frontend/src/DynamicFunctionCaller_old.jsx:24 | the contract is stored; the rest is unchanged |
| FunctionCallerOld.LegacyCaller.HandleChange | frontend/src/DynamicFunctionCaller_old.jsx:34-63 | an edit stores the text and flags the slot exactly when it is blank, whatever its type |
| FunctionCallerOld.LegacyCaller.CallFunction | frontend/src/DynamicFunctionCaller_old.jsx:173-229 | the first failing argument aborts the call with its error and leaves the live errors untouched. When all parse, this function's errors become an empty row and the call is dispatched as in the current version |
| FunctionCallerOld.LegacyCaller.Leaderboard | frontend/src/DynamicFunctionCaller_old.jsx:316-317 | the same table as the current version: `GasLedger.LeaderboardOf` of the stored history |
| GuidedLessons.Completing | frontend/src/SidebarLessons.js:121-125 | completing adds the open lesson once. Since only the next lesson can be new, the completed lessons stay exactly the first few, in order |
| GuidedLessons.WalkThrough | frontend/src/SidebarLessons.js:114-125 | opening and completing the lessons in turn reaches every lesson |
| GuidedLessons.GuidedLessons.constructor | frontend/src/SidebarLessons.js:111-112 | the first lesson is open and nothing is completed, a state that satisfies the invariant |
| GuidedLessons.GuidedLessons.HandleSelectLesson | frontend/src/SidebarLessons.js:114-119 | an unlocked lesson becomes the open one and is reported; a locked one changes nothing |
| GuidedLessons.GuidedLessons.HandleComplete | frontend/src/SidebarLessons.js:121-125 | the open lesson is recorded once and the sidebar invariant holds |
| GuidedLessons.GuidedLessons.HandleReset | frontend/src/SidebarLessons.js:127-131 | nothing completed, the first lesson open and reported |
| GuidedLessons.GuidedLessons.IsLocked | frontend/src/SidebarLessons.js:133 | a lesson is selectable exactly when it is completed or is the first not completed; the open lesson is never locked |
| LessonCarousel.NextIndex | frontend/src/SidebarLessons1.js:58 | Next moves one lesson on, and from the last lesson to the first |
| LessonCarousel.PrevIndex | frontend/src/SidebarLessons1.js:64 | Previous moves one lesson back, and from the first lesson to the last |
| LessonCarousel.NextThenPrev | frontend/src/SidebarLessons1.js:57-67 | Previous undoes Next and Next undoes Previous |
| LessonCarousel.ForwardNoWrap | frontend/src/SidebarLessons1.js:58 | before the end, k presses of Next move k lessons on |
| LessonCarousel.FullCycle | frontend/src/SidebarLessons1.js:58 | as many presses of Next as there are lessons return to the start |
| LessonCarousel.Periodic | frontend/src/SidebarLessons1.js:58 | the walk by Next repeats with the number of lessons as its period |
| LessonCarousel.Carousel.constructor | frontend/src/SidebarLessons1.js:55 | the first lesson is shown, a state that satisfies the invariant |
| LessonCarousel.Carousel.HandleNext | frontend/src/SidebarLessons1.js:57-61 | the next lesson, wrapping, becomes the open one and is reported |
| LessonCarousel.Carousel.HandlePrev | frontend/src/SidebarLessons1.js:63-67 | the previous lesson, wrapping, becomes the open one and is reported |

## Left out

- The wallet set-up effect (`frontend/src/DynamicFunctionCaller.jsx:12-32`) calls MetaMask and ethers. Its alerts are left out. Only its success is modelled, as `Connect`.
- `await` and React's batched, asynchronous state updates are left out. Each handler is atomic, and its updates take effect at once.
- `ethers.isAddress`, `JSON.parse`, `ethers.parseEther` and `JSON.stringify` are foreign library calls. Their results are abstract functions in `Lib`.
- The wording of messages and the result panel's text are left out. Errors and the result are tags that carry the same information.
- JSX rendering, placeholders, hints, `alert` and `console` are left out.
- `gasUsed` is a string in the code, and so is the fallback `'unknown'`. It is compared by numeric subtraction, which gives `NaN` for the fallback. The model's gas is a natural number, and `Dispatch` assumes a receipt always has one.
- The receipt's `transactionHash` is taken from the receipt as it is; whether the ethers version in use sets it is not modelled.
- `null` and `undefined` values are left out, because the `Value` type has none. So a contract call cannot return them. Also, `JSON.parse("null")` on the `tuple` and struct-array paths (jsx:97, 158) cannot succeed with `null`: the abstract `jsonParse` must give some other value or fail.
- Number values returned by contracts are kept as their display text, because floating point is out of scope.
- `onSelectLesson` is an editor callback. The lesson it would receive is returned, as its position in the list.
- GuidedLessons.GuidedLessons.HandleSelectLesson: requires an index inside the list, because the lesson list buttons are its only callers.
- Old `SidebarLessons_old.js`, `App.js`, the editor, the compile flow and the backend are not part of this model.
