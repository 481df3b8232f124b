/** The list of read methods: the view or pure functions that take inputs. */
module ContractReadMethods {
  import opened Wrappers
  import opened JsArrays
  import opened Abi

  /** The second filter of the list. */
  predicate IsReadMethod(fn: AbiEntry) {
    IsViewOrPure(fn) && |fn.inputs| > 0
  }

  /** `functionsToDisplay`: the functions, then those that are view or pure with at least one input. */
  function FunctionsToDisplay(abi: seq<AbiEntry>): seq<AbiEntry> {
    Filter(Filter(abi, IsFunction), IsReadMethod)
  }

  /** An entry is listed exactly when it is a view or pure function with inputs. */
  lemma ReadSelection(abi: seq<AbiEntry>, e: AbiEntry)
    ensures e in FunctionsToDisplay(abi) <==> e in abi && IsFunction(e) && IsReadMethod(e)
  {
  }

  /** The list keeps ABI order: the selection of two ABI parts is the two selections one after the other. */
  lemma ReadSelectionKeepsOrder(a: seq<AbiEntry>, b: seq<AbiEntry>)
    ensures FunctionsToDisplay(a + b) == FunctionsToDisplay(a) + FunctionsToDisplay(b)
  {
    FilterConcat(a, b, IsFunction);
    FilterConcat(Filter(a, IsFunction), Filter(b, IsFunction), IsReadMethod);
  }

  /** What `ContractReadMethods` renders for an ABI, or for none. */
  function ContractReadMethods(abi: Option<seq<AbiEntry>>): Listing {
    if abi.None? then NothingRendered
    else if FunctionsToDisplay(abi.value) == [] then EmptyMessage("No read methods")
    else Forms(FunctionsToDisplay(abi.value))
  }

  /**
   * No ABI renders nothing; an ABI renders the empty-list message exactly when
   * none of its entries qualifies, and otherwise the qualifying functions.
   */
  lemma ReadListing(abi: seq<AbiEntry>)
    ensures ContractReadMethods(None) == NothingRendered
    ensures ContractReadMethods(Some(abi)).EmptyMessage? <==> forall i :: 0 <= i < |abi| ==> !(IsFunction(abi[i]) && IsReadMethod(abi[i]))
    ensures ContractReadMethods(Some(abi)).EmptyMessage? ==> ContractReadMethods(Some(abi)).text == "No read methods"
    ensures ContractReadMethods(Some(abi)).Forms? ==> ContractReadMethods(Some(abi)).functions == FunctionsToDisplay(abi) != []
  {
    var fs := Filter(abi, IsFunction);
    if forall i :: 0 <= i < |abi| ==> !(IsFunction(abi[i]) && IsReadMethod(abi[i])) {
      forall i | 0 <= i < |fs| ensures !IsReadMethod(fs[i]) {
        assert fs[i] in abi && IsFunction(fs[i]);
        var j :| 0 <= j < |abi| && abi[j] == fs[i];
      }
      FilterNone(fs, IsReadMethod);
    } else {
      var i :| 0 <= i < |abi| && IsFunction(abi[i]) && IsReadMethod(abi[i]);
      assert abi[i] in fs;
      assert abi[i] in FunctionsToDisplay(abi);
    }
  }
}
