/** The values, error tags, schema entries and foreign capabilities shared by
    both versions of the contract-interaction component. */
module Values {
  import opened Wrappers

  /** A JavaScript value as the parser produces it and as a contract call
      returns it: `bigint`, boolean, string, a number (kept as its display
      text), an array, or a plain object (its fields in order). */
  datatype Value =
    | Int(n: int)
    | Bool(b: bool)
    | Text(s: string)
    | Num(display: string)
    | List(items: seq<Value>)
    | Obj(fields: seq<(string, Value)>)

  /** The message a failed parse throws, as a tag. */
  datatype Error =
    | InvalidStructArray              // array of structs, text is not JSON
    | InvalidArray(elementType: string)
    | InvalidNumber(ty: string)
    | InvalidBoolean
    | InvalidAddress
    | InvalidTuple
    | Unsupported(ty: string)
    | MissingType                     // TypeError: the field was edited without a type
    | FieldEmpty                      // "This field cannot be empty."

  /** The library calls the component makes and does not define:
      `ethers.isAddress`, `JSON.parse` (None when it throws),
      `ethers.parseEther` (None when it throws, otherwise wei) and
      `JSON.stringify` with the bigint replacer (None when it throws). */
  datatype Lib = Lib(
    isAddress: string -> bool,
    jsonParse: string -> Option<Value>,
    parseEther: string -> Option<int>,
    stringify: Value -> Option<string>)

  /** The key of an input slot: a parameter index, or the `'value'` field of a
      payable function. */
  datatype Key = Arg(index: nat) | ValueField

  /** `stateMutability` of an ABI entry. */
  datatype Mutability = Pure | View | NonPayable | Payable

  predicate IsReadOnly(m: Mutability) {
    m == Pure || m == View
  }

  /** One declared input: its optional name and its ABI type string. */
  datatype Param = Param(name: Option<string>, ty: string)

  /** An ABI function entry (a missing `inputs` list is the empty list). */
  datatype FunctionDescriptor = FunctionDescriptor(name: string, inputs: seq<Param>, mutability: Mutability)
}
