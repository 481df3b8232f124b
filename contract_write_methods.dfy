/**
 * The list of write methods: the functions that are neither view nor pure,
 * each keyed by its name and position; and how the three method lists
 * divide the functions of an ABI between them.
 */
module ContractWriteMethods {
  import opened Wrappers
  import opened JsStrings
  import opened JsArrays
  import opened Abi
  import ContractReadMethods
  import ContractVariables

  /** The second filter of the list. */
  predicate IsWriteMethod(fn: AbiEntry) {
    fn.stateMutability != "view" && fn.stateMutability != "pure"
  }

  /** `functionsToDisplay`: the functions, then those neither view nor pure. */
  function FunctionsToDisplay(abi: seq<AbiEntry>): seq<AbiEntry> {
    Filter(Filter(abi, IsFunction), IsWriteMethod)
  }

  /** An entry is listed exactly when it is a function that is neither view nor pure. */
  lemma WriteSelection(abi: seq<AbiEntry>, e: AbiEntry)
    ensures e in FunctionsToDisplay(abi) <==> e in abi && IsFunction(e) && IsWriteMethod(e)
  {
  }

  /** Selection keeps ABI order: the list of a concatenation is the concatenation of the lists. */
  lemma WriteSelectionKeepsOrder(a: seq<AbiEntry>, b: seq<AbiEntry>)
    ensures FunctionsToDisplay(a + b) == FunctionsToDisplay(a) + FunctionsToDisplay(b)
  {
    FilterConcat(a, b, IsFunction);
    FilterConcat(Filter(a, IsFunction), Filter(b, IsFunction), IsWriteMethod);
  }

  /** What `ContractWriteMethods` renders for an ABI, or for none. */
  function ContractWriteMethods(abi: Option<seq<AbiEntry>>): Listing {
    if abi.None? then NothingRendered
    else if FunctionsToDisplay(abi.value) == [] then EmptyMessage("No write methods")
    else Forms(FunctionsToDisplay(abi.value))
  }

  /**
   * No ABI renders nothing; an ABI renders the empty-list message exactly when
   * none of its entries qualifies, and otherwise the qualifying functions.
   */
  lemma WriteListing(abi: seq<AbiEntry>)
    ensures ContractWriteMethods(None) == NothingRendered
    ensures ContractWriteMethods(Some(abi)).EmptyMessage? <==> forall i :: 0 <= i < |abi| ==> !(IsFunction(abi[i]) && IsWriteMethod(abi[i]))
    ensures ContractWriteMethods(Some(abi)).EmptyMessage? ==> ContractWriteMethods(Some(abi)).text == "No write methods"
    ensures ContractWriteMethods(Some(abi)).Forms? ==> ContractWriteMethods(Some(abi)).functions == FunctionsToDisplay(abi) != []
  {
    var fs := Filter(abi, IsFunction);
    if forall i :: 0 <= i < |abi| ==> !(IsFunction(abi[i]) && IsWriteMethod(abi[i])) {
      forall i | 0 <= i < |fs| ensures !IsWriteMethod(fs[i]) {
        assert fs[i] in abi && IsFunction(fs[i]);
        var j :| 0 <= j < |abi| && abi[j] == fs[i];
      }
      FilterNone(fs, IsWriteMethod);
    } else {
      var i :| 0 <= i < |abi| && IsFunction(abi[i]) && IsWriteMethod(abi[i]);
      assert abi[i] in fs;
      assert abi[i] in FunctionsToDisplay(abi);
    }
  }

  /** `${fn.name}-${idx}`, the React key of the form at position `idx`. */
  function ElementKey(fn: AbiEntry, idx: nat): string {
    fn.name + "-" + NatToString(idx)
  }

  /** The position can be read back from a key: it is the text after the last `-`. */
  lemma ElementKeyIndex(fn: AbiEntry, idx: nat)
    ensures Last(Split(ElementKey(fn, idx), '-')) == NatToString(idx)
  {
    assert !IsDigitIn('-', 16);
    RadixStringHasNo(idx, 10, '-');
    assert ElementKey(fn, idx) == fn.name + ['-'] + NatToString(idx);
    LastSegment(fn.name, NatToString(idx), '-');
  }

  /** The keys of the listed forms are pairwise distinct, even when names repeat. */
  lemma ElementKeysDistinct(fns: seq<AbiEntry>, i: nat, j: nat)
    requires i < j < |fns|
    ensures ElementKey(fns[i], i) != ElementKey(fns[j], j)
  {
    ElementKeyIndex(fns[i], i);
    ElementKeyIndex(fns[j], j);
    if ElementKey(fns[i], i) == ElementKey(fns[j], j) {
      RadixStringInjective(i, j, 10);
    }
  }

  /** Every function is listed by exactly one of the three lists. */
  lemma ExactlyOneList(fn: AbiEntry)
    ensures IsWriteMethod(fn) != (ContractReadMethods.IsReadMethod(fn) || ContractVariables.IsVariable(fn))
    ensures !(ContractReadMethods.IsReadMethod(fn) && ContractVariables.IsVariable(fn))
  {
  }

  /** The three lists together hold every function of the ABI, each exactly once. */
  lemma {:induction false} ListsPartitionFunctions(abi: seq<AbiEntry>)
    ensures |ContractReadMethods.FunctionsToDisplay(abi)| + |ContractVariables.FunctionsToDisplay(abi)|
            + |FunctionsToDisplay(abi)| == |Filter(abi, IsFunction)|
    decreases |abi|
  {
    if abi != [] {
      ListsPartitionFunctions(abi[1..]);
      var head := abi[..1];
      assert abi == head + abi[1..];
      FilterConcat(head, abi[1..], IsFunction);
      ContractReadMethods.ReadSelectionKeepsOrder(head, abi[1..]);
      ContractVariables.VariableSelectionKeepsOrder(head, abi[1..]);
      FilterConcat(Filter(head, IsFunction), Filter(abi[1..], IsFunction), IsWriteMethod);
      ExactlyOneList(abi[0]);
      assert head[1..] == [];
    }
  }
}
