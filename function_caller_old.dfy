/** The older contract-interaction component: the same state with no reset
    handlers; its live check only tests for an empty field, and a call stops
    at the first argument that does not parse. */
module FunctionCallerOld {
  import opened Wrappers
  import opened Values
  import opened FieldState
  import opened ValueParser
  import opened Validation
  import opened GasLedger
  import opened Calls

  class LegacyCaller {
    const lib: Lib
    var ready: bool
    var inputs: Table<string>
    var errors: Table<Error>
    var result: Display
    var gasHistory: seq<GasRecord>

    constructor (lib: Lib)
      ensures this.lib == lib && !ready
      ensures inputs == map[] && errors == map[] && result == Blank && gasHistory == []
    {
      this.lib := lib;
      ready := false;
      inputs, errors, result, gasHistory := map[], map[], Blank, [];
    }

    /** The wallet set-up succeeded and stored the contract instance. */
    method Connect()
      modifies this
      ensures ready
      ensures inputs == old(inputs) && errors == old(errors)
      ensures result == old(result) && gasHistory == old(gasHistory)
    {
      ready := true;
    }

    /** An edit: the text is stored; the slot's error is "field cannot be
        empty" when the trimmed text is empty, and is removed otherwise,
        whatever the declared type. */
    method HandleChange(f: string, key: Key, text: string)
      modifies this
      ensures inputs == Put(old(inputs), f, key, text)
      ensures errors == ApplyEdit(old(errors), f, key, EmptinessError(text))
      ensures ready == old(ready) && result == old(result) && gasHistory == old(gasHistory)
    {
      inputs := Put(inputs, f, key, text);
      errors := ApplyEdit(errors, f, key, EmptinessError(text));
    }

    /** `callFunction`. The arguments are parsed in order; the first that
        fails ends the call with its own message and leaves the live errors
        as they were. When all parse, the errors of every function are
        replaced by an empty row for this one and the call is dispatched. */
    method CallFunction(func: FunctionDescriptor, readReply: Result<Value, string>,
                        writeReply: Result<Receipt, string>) returns (sent: Option<Call>)
      modifies this
      ensures inputs == old(inputs) && ready == old(ready)
      ensures !ready ==>
                result == NotReady && sent.None? &&
                errors == old(errors) && gasHistory == old(gasHistory)
      ensures ready && ExpectedErrors(ParserOf(lib), Row(inputs, func.name), func.inputs) != map[] ==>
                sent.None? && errors == old(errors) && gasHistory == old(gasHistory) &&
                exists i :: FirstFailingArg(ParserOf(lib), Row(inputs, func.name), func.inputs, i) &&
                            result == CallError(func.name, BadArgument(ParseArg(ParserOf(lib), Row(inputs, func.name), func.inputs, i).error))
      ensures ready && ExpectedErrors(ParserOf(lib), Row(inputs, func.name), func.inputs) == map[] ==>
                var o := Dispatch(lib, func, Row(inputs, func.name), Successes(ParserOf(lib), Row(inputs, func.name), func.inputs),
                                  readReply, writeReply);
                errors == map[func.name := map[]] &&
                result == o.display && sent == o.sent && gasHistory == old(gasHistory) + OptionToSeq(o.record)
      ensures |old(gasHistory)| <= |gasHistory| <= |old(gasHistory)| + 1
      ensures gasHistory[..|old(gasHistory)|] == old(gasHistory)
    {
      if !ready {
        result := NotReady;
        return None;
      }
      var raw := Row(inputs, func.name);
      NoErrorsAllParsed(ParserOf(lib), raw, func.inputs);
      var parsed := ParseUntilFailure(ParserOf(lib), raw, func.inputs);
      match parsed
      case Err(failure) =>
        result := CallError(func.name, BadArgument(failure.error));
        return None;
      case Ok(args) =>
        assert args == Successes(ParserOf(lib), raw, func.inputs);
        errors := map[func.name := map[]];
        var o := Dispatch(lib, func, raw, args, readReply, writeReply);
        result := o.display;
        sent := o.sent;
        gasHistory := gasHistory + OptionToSeq(o.record);
    }

    /** The leaderboard table, as in the current version. */
    function Leaderboard(): (board: seq<GasRecord>)
      reads this
    {
      LeaderboardOf(gasHistory)
    }
  }
}
