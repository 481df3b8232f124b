/** The list of contract variables: the view or pure functions without inputs. */
module ContractVariables {
  import opened Wrappers
  import opened JsArrays
  import opened Abi

  /** The second filter of the list. */
  predicate IsVariable(fn: AbiEntry) {
    IsViewOrPure(fn) && |fn.inputs| == 0
  }

  /** `functionsToDisplay`: the functions, then those that are view or pure with no input. */
  function FunctionsToDisplay(abi: seq<AbiEntry>): seq<AbiEntry> {
    Filter(Filter(abi, IsFunction), IsVariable)
  }

  /** An entry is listed exactly when it is a view or pure function without inputs. */
  lemma VariableSelection(abi: seq<AbiEntry>, e: AbiEntry)
    ensures e in FunctionsToDisplay(abi) <==> e in abi && IsFunction(e) && IsVariable(e)
  {
  }

  /** The list keeps ABI order. */
  lemma VariableSelectionKeepsOrder(a: seq<AbiEntry>, b: seq<AbiEntry>)
    ensures FunctionsToDisplay(a + b) == FunctionsToDisplay(a) + FunctionsToDisplay(b)
  {
    FilterConcat(a, b, IsFunction);
    FilterConcat(Filter(a, IsFunction), Filter(b, IsFunction), IsVariable);
  }

  /** What `ContractVariables` renders for an ABI, or for none. */
  function ContractVariables(abi: Option<seq<AbiEntry>>): Listing {
    if abi.None? then NothingRendered
    else if FunctionsToDisplay(abi.value) == [] then EmptyMessage("No contract variables")
    else Forms(FunctionsToDisplay(abi.value))
  }

  /**
   * No ABI renders nothing; an ABI renders the empty-list message exactly when
   * none of its entries qualifies, and otherwise the qualifying functions.
   */
  lemma VariableListing(abi: seq<AbiEntry>)
    ensures ContractVariables(None) == NothingRendered
    ensures ContractVariables(Some(abi)).EmptyMessage? <==> forall i :: 0 <= i < |abi| ==> !(IsFunction(abi[i]) && IsVariable(abi[i]))
    ensures ContractVariables(Some(abi)).EmptyMessage? ==> ContractVariables(Some(abi)).text == "No contract variables"
    ensures ContractVariables(Some(abi)).Forms? ==> ContractVariables(Some(abi)).functions == FunctionsToDisplay(abi) != []
  {
    var fs := Filter(abi, IsFunction);
    if forall i :: 0 <= i < |abi| ==> !(IsFunction(abi[i]) && IsVariable(abi[i])) {
      forall i | 0 <= i < |fs| ensures !IsVariable(fs[i]) {
        assert fs[i] in abi && IsFunction(fs[i]);
        var j :| 0 <= j < |abi| && abi[j] == fs[i];
      }
      FilterNone(fs, IsVariable);
    } else {
      var i :| 0 <= i < |abi| && IsFunction(abi[i]) && IsVariable(abi[i]);
      assert abi[i] in fs;
      assert abi[i] in FunctionsToDisplay(abi);
    }
  }
}
