/** The part of `callFunction` after the arguments are parsed, the same in
    both versions: the payable value override, the read-only or
    state-changing call, what is shown, and the gas record a confirmed
    transaction leaves. The contract and the wallet are outside the model:
    their answers are parameters. */
module Calls {
  import opened Wrappers
  import opened Values
  import opened GasLedger
  import opened Formatter

  /** What the result panel shows, as a tag (`''` is `Blank`). */
  datatype Display =
    | Blank
    | NotReady                         // "Contract not ready."
    | FixInputs(fn: string)            // "Please fix the input errors before calling …"
    | Output(fn: string, text: string) // "Output from …: …"
    | TxSuccess(gas: nat)              // "Transaction successful: Gas Used: …"
    | CallError(fn: string, cause: Cause) // "Error calling …: …"

  /** Why a call failed. */
  datatype Cause =
    | Rejected(message: string)  // the contract call or the transaction threw
    | BadEtherAmount             // `ethers.parseEther` threw on the value field
    | BadArgument(error: Error)  // an argument failed to parse (older version only)

  /** What `tx.wait()` returns, as far as it is used. */
  datatype Receipt = Receipt(gasUsed: nat, hash: string)

  /** The request made of the contract: a read-only call with the arguments
      only, or a transaction with the arguments and the override object,
      whose `value` is the amount in wei when one was given. */
  datatype Call =
    | StaticCall(fn: string, args: seq<Value>)
    | Transaction(fn: string, args: seq<Value>, wei: Option<int>)

  datatype Outcome = Outcome(display: Display, sent: Option<Call>, record: Option<GasRecord>)

  /** `rawInputs['value']`, with `undefined` as the empty text. */
  function EtherText(raw: map<Key, string>): string {
    if ValueField in raw then raw[ValueField] else ""
  }

  /** Whether an amount is attached: the function is payable and the
      value field is non-empty (truthy). */
  predicate HasEther(func: FunctionDescriptor, raw: map<Key, string>) {
    func.mutability == Payable && EtherText(raw) != ""
  }

  /** The call ends before anything is sent when the amount does not parse. */
  predicate BadEther(lib: Lib, func: FunctionDescriptor, raw: map<Key, string>) {
    HasEther(func, raw) && lib.parseEther(EtherText(raw)).None?
  }

  /** Dispatching a call whose arguments all parsed. `readReply` is what the
      contract's read-only function returns or throws, `writeReply` what the
      transaction's receipt is or what sending or waiting throws. */
  function Dispatch(lib: Lib, func: FunctionDescriptor, raw: map<Key, string>, args: seq<Value>,
                    readReply: Result<Value, string>, writeReply: Result<Receipt, string>): (o: Outcome)
    ensures o.sent.None? <==> BadEther(lib, func, raw)
    ensures o.sent.None? ==> o.display == CallError(func.name, BadEtherAmount) && o.record.None?
    ensures o.sent.Some? ==> o.sent.value.fn == func.name && o.sent.value.args == args
    ensures o.sent.Some? ==> (o.sent.value.StaticCall? <==> IsReadOnly(func.mutability))
    ensures o.sent.Some? && o.sent.value.Transaction? ==>
              (o.sent.value.wei.Some? <==> HasEther(func, raw)) &&
              (HasEther(func, raw) ==> o.sent.value.wei == lib.parseEther(EtherText(raw)))
    ensures o.sent.Some? && IsReadOnly(func.mutability) ==>
              o.record.None? &&
              o.display == (if readReply.Ok? then Output(func.name, Format(lib, readReply.value))
                            else CallError(func.name, Rejected(readReply.error)))
    ensures o.record.Some? <==> o.sent.Some? && !IsReadOnly(func.mutability) && writeReply.Ok?
    ensures o.record.Some? ==>
              o.record.value == GasRecord(func.name, writeReply.value.gasUsed, writeReply.value.hash) &&
              o.display == TxSuccess(writeReply.value.gasUsed)
    ensures o.sent.Some? && !IsReadOnly(func.mutability) && writeReply.Err? ==>
              o.display == CallError(func.name, Rejected(writeReply.error))
  {
    var wei := if HasEther(func, raw) then lib.parseEther(EtherText(raw)) else None;
    if HasEther(func, raw) && wei.None? then
      Outcome(CallError(func.name, BadEtherAmount), None, None)
    else if IsReadOnly(func.mutability) then
      var shown := match readReply
                   case Ok(v) => Output(func.name, Format(lib, v))
                   case Err(m) => CallError(func.name, Rejected(m));
      Outcome(shown, Some(StaticCall(func.name, args)), None)
    else
      var sent := Some(Transaction(func.name, args, wei));
      match writeReply
      case Ok(receipt) =>
        Outcome(TxSuccess(receipt.gasUsed), sent, Some(GasRecord(func.name, receipt.gasUsed, receipt.hash)))
      case Err(m) =>
        Outcome(CallError(func.name, Rejected(m)), sent, None)
  }
}
