/**
 * The parts of a contract ABI that the generated forms read: abitype's
 * `AbiParameter` and the entries of an `Abi` array.
 */
module Abi {
  import opened Wrappers

  /** `{ name?, internalType?, type }`; a field that is absent (or null) is `None`. */
  datatype AbiParameter = AbiParameter(name: Option<string>, internalType: Option<string>, typ: string)

  /**
   * One ABI entry: its `type` ("function", "event", "error", "constructor",
   * ..), its name, its `stateMutability` and its inputs.
   */
  datatype AbiEntry = AbiEntry(kind: string, name: string, stateMutability: string, inputs: seq<AbiParameter>)

  /** `part.type === "function"`. */
  predicate IsFunction(entry: AbiEntry) {
    entry.kind == "function"
  }

  /** `fn.stateMutability === "view" || fn.stateMutability === "pure"`. */
  predicate IsViewOrPure(fn: AbiEntry) {
    fn.stateMutability == "view" || fn.stateMutability == "pure"
  }

  /** What a list of contract methods renders: nothing (no ABI), a message for an empty selection, or one form per entry. */
  datatype Listing = NothingRendered | EmptyMessage(text: string) | Forms(functions: seq<AbiEntry>)
}
