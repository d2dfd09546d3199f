/** The current contract-interaction component: its state (the connected
    contract, the typed texts, the live validation errors, the result panel
    and the gas history) and the handlers that update it. */
module FunctionCaller {
  import opened Wrappers
  import opened Values
  import opened FieldState
  import opened ValueParser
  import opened Validation
  import opened GasLedger
  import opened Calls

  class Caller {
    /** The library calls the component relies on. */
    const lib: Lib
    /** Whether the wallet set-up has produced a contract instance. */
    var ready: bool
    var inputs: Table<string>
    var errors: Table<Error>
    var result: Display
    var gasHistory: seq<GasRecord>

    /** The initial state: no contract, nothing typed, nothing shown. */
    constructor (lib: Lib)
      ensures this.lib == lib && !ready
      ensures inputs == map[] && errors == map[] && result == Blank && gasHistory == []
    {
      this.lib := lib;
      ready := false;
      inputs, errors, result, gasHistory := map[], map[], Blank, [];
    }

    /** The wallet set-up succeeded and stored the contract instance. */
    method Connect()
      modifies this
      ensures ready
      ensures inputs == old(inputs) && errors == old(errors)
      ensures result == old(result) && gasHistory == old(gasHistory)
    {
      ready := true;
    }

    /** An edit of slot `key` of function `f`: the text is stored and the
        slot's live error becomes the parser's verdict on it (the `value`
        field of a payable function is edited with no type). */
    method HandleChange(f: string, key: Key, text: string, ty: Option<string>)
      modifies this
      ensures inputs == Put(old(inputs), f, key, text)
      ensures errors == ApplyEdit(old(errors), f, key, EditError(lib, text, ty))
      ensures ready == old(ready) && result == old(result) && gasHistory == old(gasHistory)
    {
      inputs := Put(inputs, f, key, text);
      errors := ApplyEdit(errors, f, key, EditError(lib, text, ty));
    }

    /** `handleReset`: clears the texts of `f`, drops its errors and the
        result panel. */
    method HandleReset(f: string)
      modifies this
      ensures inputs == ClearRow(old(inputs), f)
      ensures errors == DropRow(old(errors), f)
      ensures result == Blank
      ensures ready == old(ready) && gasHistory == old(gasHistory)
    {
      inputs := ClearRow(inputs, f);
      errors := DropRow(errors, f);
      result := Blank;
    }

    /** The per-function Reset button: the same, with the errors of `f` set
        to an empty row. */
    method ResetFunction(f: string)
      modifies this
      ensures inputs == ClearRow(old(inputs), f)
      ensures errors == ClearRow(old(errors), f)
      ensures result == Blank
      ensures ready == old(ready) && gasHistory == old(gasHistory)
    {
      inputs := ClearRow(inputs, f);
      errors := ClearRow(errors, f);
      result := Blank;
    }

    /** `handleResetAll`: everything but the contract is back to its
        initial state, the gas history included. */
    method HandleResetAll()
      modifies this
      ensures inputs == map[] && errors == map[] && result == Blank && gasHistory == []
      ensures ready == old(ready)
    {
      inputs, errors, result, gasHistory := map[], map[], Blank, [];
    }

    /** `callFunction`. Without a contract nothing else happens. Otherwise
        every declared argument is re-validated and the errors of all other
        functions are discarded; any error stops the call; else the call is
        dispatched, and a confirmed transaction appends its record to the gas
        history. Returns the request made of the contract, if any. */
    method CallFunction(func: FunctionDescriptor, readReply: Result<Value, string>,
                        writeReply: Result<Receipt, string>) returns (sent: Option<Call>)
      modifies this
      ensures inputs == old(inputs) && ready == old(ready)
      ensures !ready ==>
                result == NotReady && sent.None? &&
                errors == old(errors) && gasHistory == old(gasHistory)
      ensures ready ==> errors == map[func.name := ExpectedErrors(ParserOf(lib), Row(inputs, func.name), func.inputs)]
      ensures ready && ExpectedErrors(ParserOf(lib), Row(inputs, func.name), func.inputs) != map[] ==>
                result == FixInputs(func.name) && sent.None? && gasHistory == old(gasHistory)
      ensures ready && ExpectedErrors(ParserOf(lib), Row(inputs, func.name), func.inputs) == map[] ==>
                var o := Dispatch(lib, func, Row(inputs, func.name), Successes(ParserOf(lib), Row(inputs, func.name), func.inputs),
                                  readReply, writeReply);
                result == o.display && sent == o.sent && gasHistory == old(gasHistory) + OptionToSeq(o.record)
      ensures |old(gasHistory)| <= |gasHistory| <= |old(gasHistory)| + 1
      ensures gasHistory[..|old(gasHistory)|] == old(gasHistory)
    {
      if !ready {
        result := NotReady;
        return None;
      }
      var raw := Row(inputs, func.name);
      var args, newErrors := ValidateAll(ParserOf(lib), raw, func.inputs);
      errors := map[func.name := newErrors];
      if newErrors != map[] {
        result := FixInputs(func.name);
        return None;
      }
      var o := Dispatch(lib, func, raw, args, readReply, writeReply);
      result := o.display;
      sent := o.sent;
      gasHistory := gasHistory + OptionToSeq(o.record);
    }

    /** The leaderboard table of the stored history (`LeaderboardOf` states
        what it is). */
    function Leaderboard(): (board: seq<GasRecord>)
      reads this
    {
      LeaderboardOf(gasHistory)
    }
  }
}
