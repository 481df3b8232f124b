/**
 * Form marshalling for contract calls: the key of each input field, the
 * initial empty form, the conversion of a filled form into the argument
 * list, and the choice of an error message.
 */
module ContractUtils {
  import opened Wrappers
  import opened JsStrings
  import opened Records
  import opened Abi
  import opened InputUtils
  import opened JsArrays

  // ---------------------------------------------------------------------------
  // getFunctionInputKey

  /** A value interpolated into a template literal: an absent one reads `undefined`. */
  function Interpolated(s: Option<string>): string {
    if s.Some? then s.value else "undefined"
  }

  /** `input?.name ?? \`input_${inputIndex}_\``. */
  function KeyName(input: AbiParameter, index: nat): string {
    if input.name.Some? then input.name.value else "input_" + NatToString(index) + "_"
  }

  /** `getFunctionInputKey(functionName, input, inputIndex)`. */
  function FunctionInputKey(functionName: string, input: AbiParameter, index: nat): string {
    functionName + "_" + KeyName(input, index) + "_" + Interpolated(input.internalType) + "_" + input.typ
  }

  /** The position of the first `_` in `t` (its length when there is none). */
  function UnderscoreIndex(t: string): nat
    decreases |t|
  {
    if t == [] || t[0] == '_' then 0 else 1 + UnderscoreIndex(t[1..])
  }

  /** A `_`-free run followed by `_` has its first `_` right after the run. */
  lemma {:induction false} UnderscoreAfterRun(d: string, s: string)
    requires '_' !in d && s != "" && s[0] == '_'
    ensures UnderscoreIndex(d + s) == |d|
    decreases |d|
  {
    if d == [] {
      assert d + s == s;
    } else {
      assert (d + s)[0] == d[0];
      assert (d + s)[1..] == d[1..] + s;
      UnderscoreAfterRun(d[1..], s);
    }
  }

  /** Two strings that agree, each a `_`-free run followed by a `_`, have the same run. */
  lemma SameRunBeforeUnderscore(d1: string, s1: string, d2: string, s2: string)
    requires '_' !in d1 && '_' !in d2 && s1 != "" && s2 != "" && s1[0] == '_' && s2[0] == '_'
    requires d1 + s1 == d2 + s2
    ensures d1 == d2
  {
    UnderscoreAfterRun(d1, s1);
    UnderscoreAfterRun(d2, s2);
    assert d1 == (d1 + s1)[..|d1|] && d2 == (d2 + s2)[..|d2|];
  }

  /** An unnamed input's key: a fixed prefix, the index digits, then a part starting with `_`. */
  lemma UnnamedKeyShape(functionName: string, a: AbiParameter, i: nat)
    requires a.name.None?
    ensures FunctionInputKey(functionName, a, i)
            == (functionName + "_input_") + (NatToString(i) + ("__" + Interpolated(a.internalType) + "_" + a.typ))
  {
    assert "_" + "input_" == "_input_" && "_" + "_" == "__";
    KeyRegroup(functionName, "_", "input_", NatToString(i), Interpolated(a.internalType), a.typ);
  }

  /** The regrouping of an unnamed key, over any strings. */
  lemma KeyRegroup(f: string, u: string, p: string, d: string, t: string, ty: string)
    ensures f + u + (p + d + u) + u + t + u + ty == (f + (u + p)) + (d + ((u + u) + t + u + ty))
  {
  }

  /**
   * Two unnamed inputs of one function at different positions get different
   * keys, whatever their types.
   */
  lemma UnnamedKeysDistinct(functionName: string, a: AbiParameter, i: nat, b: AbiParameter, j: nat)
    requires a.name.None? && b.name.None? && i != j
    ensures FunctionInputKey(functionName, a, i) != FunctionInputKey(functionName, b, j)
  {
    var prefix := functionName + "_input_";
    var di, dj := NatToString(i), NatToString(j);
    var si := "__" + Interpolated(a.internalType) + "_" + a.typ;
    var sj := "__" + Interpolated(b.internalType) + "_" + b.typ;
    UnnamedKeyShape(functionName, a, i);
    UnnamedKeyShape(functionName, b, j);
    if prefix + (di + si) == prefix + (dj + sj) {
      assert di + si == (prefix + (di + si))[|prefix|..];
      assert dj + sj == (prefix + (dj + sj))[|prefix|..];
      assert !IsDigitIn('_', 16);
      RadixStringHasNo(i, 10, '_');
      RadixStringHasNo(j, 10, '_');
      SameRunBeforeUnderscore(di, si, dj, sj);
      RadixStringInjective(i, j, 10);
      assert false;
    }
  }

  /**
   * Named inputs get no such guarantee: an `_` inside a name or an internal
   * type lets two different inputs of one function share a key.
   */
  lemma NamedKeysCanCollide()
    ensures var a := AbiParameter(Some("a"), Some("b_c"), "uint256");
            var b := AbiParameter(Some("a_b"), Some("c"), "uint256");
            a != b && FunctionInputKey("f", a, 0) == FunctionInputKey("f", b, 1)
  {
  }

  /**
   * Compilers write an unnamed parameter as `name: ""`; `??` keeps the empty
   * name, so two unnamed inputs of one type share a key.
   */
  lemma EmptyNamesCollide()
    ensures var a := AbiParameter(Some(""), Some("uint256"), "uint256");
            FunctionInputKey("f", a, 0) == FunctionInputKey("f", a, 1) == "f__uint256_uint256"
  {
  }

  /** The key with the positional fallback taken for an empty name too. */
  function FunctionInputKeyCorrected(functionName: string, input: AbiParameter, index: nat): string {
    var unnamed := input.name.None? || input.name.value == "";
    FunctionInputKey(functionName, if unnamed then input.(name := None) else input, index)
  }

  /** With the correction, inputs without a name or with an empty one never share a key. */
  lemma CorrectedKeysDistinct(functionName: string, a: AbiParameter, i: nat, b: AbiParameter, j: nat)
    requires (a.name.None? || a.name == Some("")) && (b.name.None? || b.name == Some(""))
    requires i != j
    ensures FunctionInputKeyCorrected(functionName, a, i) != FunctionInputKeyCorrected(functionName, b, j)
  {
    UnnamedKeysDistinct(functionName, a.(name := None), i, b.(name := None), j);
  }

  /** The type the argument parser reads off a key: the text after its last `_`. */
  function BaseType(key: string): string {
    Last(Split(key, '_'))
  }

  /** The base type of a derived key is the input's type, when that type holds no `_`. */
  lemma BaseTypeOfKey(functionName: string, input: AbiParameter, index: nat)
    requires '_' !in input.typ
    ensures BaseType(FunctionInputKey(functionName, input, index)) == input.typ
  {
    var prefix := functionName + "_" + KeyName(input, index) + "_" + Interpolated(input.internalType);
    assert FunctionInputKey(functionName, input, index) == prefix + ['_'] + input.typ;
    LastSegment(prefix, input.typ, '_');
  }

  // ---------------------------------------------------------------------------
  // getInitialFormState

  /** The keys of a function's inputs, in input order. */
  function InputKeys(functionName: string, inputs: seq<AbiParameter>): (keys: seq<string>)
    ensures |keys| == |inputs|
    ensures forall i :: 0 <= i < |inputs| ==> keys[i] == FunctionInputKey(functionName, inputs[i], i)
  {
    seq(|inputs|, i requires 0 <= i < |inputs| => FunctionInputKey(functionName, inputs[i], i))
  }

  /** The object built by assigning `""` to each key in turn. */
  function EmptyForm(keys: seq<string>): Record<InputValue>
    decreases |keys|
  {
    if keys == [] then [] else Set(EmptyForm(keys[..|keys| - 1]), Last(keys), StringInput(""))
  }

  /** The form holds exactly the given keys. */
  lemma {:induction false} EmptyFormKeys(keys: seq<string>)
    ensures forall k :: k in Keys(EmptyForm(keys)) <==> k in keys
    decreases |keys|
  {
    if keys != [] {
      var init := keys[..|keys| - 1];
      EmptyFormKeys(init);
      InitThenLast(keys);
      var r := EmptyForm(init);
      assert Keys(EmptyForm(keys)) == if Last(keys) in Keys(r) then Keys(r) else Keys(r) + [Last(keys)];
    }
  }

  /** Every given key is mapped to `""`. */
  lemma {:induction false} EmptyFormValues(keys: seq<string>)
    ensures forall k :: k in keys ==> Get(EmptyForm(keys), k) == Some(StringInput(""))
    decreases |keys|
  {
    if keys != [] {
      var init := keys[..|keys| - 1];
      EmptyFormValues(init);
      InitThenLast(keys);
    }
  }

  /** Each key is held once. */
  lemma {:induction false} EmptyFormDistinct(keys: seq<string>)
    ensures DistinctKeys(EmptyForm(keys))
    decreases |keys|
  {
    if keys != [] {
      var init := keys[..|keys| - 1];
      EmptyFormDistinct(init);
      SetKeepsDistinct(EmptyForm(init), Last(keys), StringInput(""));
    }
  }

  /** Distinct keys come in the given order. */
  lemma {:induction false} EmptyFormOrder(keys: seq<string>)
    requires forall i, j :: 0 <= i < j < |keys| ==> keys[i] != keys[j]
    ensures Keys(EmptyForm(keys)) == keys
    decreases |keys|
  {
    if keys != [] {
      var init := keys[..|keys| - 1];
      var k := Last(keys);
      DistinctPrefix(keys);
      EmptyFormOrder(init);
      FreshKeyAppended(EmptyForm(init), k, StringInput(""));
      assert EmptyForm(keys) == Set(EmptyForm(init), k, StringInput(""));
      InitThenLast(keys);
    }
  }

  /** A non-empty sequence is its prefix followed by its last element. */
  lemma InitThenLast(keys: seq<string>)
    requires keys != []
    ensures keys[..|keys| - 1] + [Last(keys)] == keys
  {
  }

  /** Setting a key the object does not hold appends it to the keys. */
  lemma FreshKeyAppended<V>(r: Record<V>, k: string, v: V)
    requires k !in Keys(r)
    ensures Keys(Set(r, k, v)) == Keys(r) + [k]
  {
  }

  /** Dropping the last of distinct keys leaves distinct keys, none of them the last. */
  lemma DistinctPrefix(keys: seq<string>)
    requires keys != []
    requires forall i, j :: 0 <= i < j < |keys| ==> keys[i] != keys[j]
    ensures var init := keys[..|keys| - 1];
            (forall i, j :: 0 <= i < j < |init| ==> init[i] != init[j]) && Last(keys) !in init
  {
    var init := keys[..|keys| - 1];
    assert forall i :: 0 <= i < |init| ==> init[i] == keys[i];
  }

  /** `getInitialFormState(abiFunction)`: absent inputs give the empty form. */
  method InitialFormState(functionName: string, inputs: Option<seq<AbiParameter>>) returns (form: Record<InputValue>)
    ensures inputs.None? ==> form == []
    ensures inputs.Some? ==> form == EmptyForm(InputKeys(functionName, inputs.value))
  {
    form := [];
    if inputs.None? {
      return;
    }
    var keys := InputKeys(functionName, inputs.value);
    var i := 0;
    while i < |inputs.value|
      invariant 0 <= i <= |inputs.value|
      invariant form == EmptyForm(keys[..i])
    {
      var key := FunctionInputKey(functionName, inputs.value[i], i);
      EmptyFormStep(keys, i);
      form := Set(form, key, StringInput(""));
      i := i + 1;
    }
    assert keys[..i] == keys;
  }

  /** One more key extends the form by one assignment. */
  lemma EmptyFormStep(keys: seq<string>, i: nat)
    requires i < |keys|
    ensures EmptyForm(keys[..i + 1]) == Set(EmptyForm(keys[..i]), keys[i], StringInput(""))
  {
    assert keys[..i + 1][..i] == keys[..i];
  }

  /** A function whose inputs are all unnamed gets one field per input, in input order, each `""`. */
  lemma UnnamedInitialForm(functionName: string, inputs: seq<AbiParameter>)
    requires forall i :: 0 <= i < |inputs| ==> inputs[i].name.None?
    ensures Keys(EmptyForm(InputKeys(functionName, inputs))) == InputKeys(functionName, inputs)
    ensures forall i :: 0 <= i < |inputs| ==>
              Get(EmptyForm(InputKeys(functionName, inputs)), FunctionInputKey(functionName, inputs[i], i)) == Some(StringInput(""))
  {
    var keys := InputKeys(functionName, inputs);
    forall i, j | 0 <= i < j < |keys| ensures keys[i] != keys[j] {
      UnnamedKeysDistinct(functionName, inputs[i], i, inputs[j], j);
    }
    EmptyFormOrder(keys);
    EmptyFormValues(keys);
    forall i | 0 <= i < |inputs|
      ensures Get(EmptyForm(keys), FunctionInputKey(functionName, inputs[i], i)) == Some(StringInput(""))
    {
      assert keys[i] in keys;
    }
  }

  // ---------------------------------------------------------------------------
  // getParsedContractFunctionArgs

  /** One argument: a field passed through, a `bool` normalised to 1 or 0, or the parse of a JSON field. */
  datatype Arg<J> = Raw(value: InputValue) | Flag(bit: nat) | Parsed(json: J)

  /** ARRAY_TYPE_REGEX, `/\[.*\]$/`: a `[`, then characters other than line terminators, then a final `]`. */
  predicate IsArrayType(t: string) {
    && |t| >= 2 && t[|t| - 1] == ']'
    && exists i :: 0 <= i < |t| - 1 && t[i] == '[' && forall k :: i < k < |t| - 1 ==> !IsLineTerminator(t[k])
  }

  /** What `JSON.parse` receives: a string as is, a bigint as its decimal text. */
  function JsonText(value: InputValue): string {
    match value
    case StringInput(s) => s
    case BigIntInput(n) => IntToRadixString(n, 10)
  }

  /** The strings a `bool` field reads as true. */
  const TrueSpellings: seq<string> := ["true", "1", "0x1", "0x01", "0x0001"]

  /** The callback for one key; `None` is the `undefined` a failed `JSON.parse` yields. */
  function ParseField<J>(key: string, value: InputValue, jsonParse: string -> Option<J>): Option<Arg<J>> {
    var base := BaseType(key);
    if IsArrayType(base) || base == "tuple" then
      var parsed := jsonParse(JsonText(value));
      if parsed.Some? then Some(Parsed(parsed.value)) else None
    else if base == "bool" then
      Some(Flag(if value.StringInput? && value.s in TrueSpellings then 1 else 0))
    else
      Some(Raw(value))
  }

  /** `getParsedContractFunctionArgs(form)`: the per-key results in key order, `undefined` removed. */
  function ParsedContractFunctionArgs<J>(form: Record<InputValue>, jsonParse: string -> Option<J>): (args: seq<Arg<J>>)
    ensures |args| <= |form|
  {
    FlatMapAtMostOne(form, FieldArgsOf(jsonParse));
    FlatMap(form, FieldArgsOf(jsonParse))
  }

  /** `FieldArgs` for one parser, as the callback of the map. */
  function FieldArgsOf<J>(jsonParse: string -> Option<J>): Entry<InputValue> -> seq<Arg<J>> {
    e => FieldArgs(e, jsonParse)
  }

  /** What one field contributes: its result, or nothing when it is `undefined`. */
  function FieldArgs<J>(e: Entry<InputValue>, jsonParse: string -> Option<J>): seq<Arg<J>> {
    var head := ParseField(e.key, e.value, jsonParse);
    if head.Some? then [head.value] else []
  }

  /** The arguments of a form split in two are the arguments of each part, in order. */
  lemma ParsedArgsConcat<J>(a: Record<InputValue>, b: Record<InputValue>, jsonParse: string -> Option<J>)
    ensures ParsedContractFunctionArgs(a + b, jsonParse)
            == ParsedContractFunctionArgs(a, jsonParse) + ParsedContractFunctionArgs(b, jsonParse)
  {
    FlatMapConcat(a, b, FieldArgsOf(jsonParse));
  }

  /** A form none of whose fields fails gives exactly one argument per field, each the field's own result. */
  lemma {:induction false} ParsedArgsNoFailure<J>(form: Record<InputValue>, jsonParse: string -> Option<J>)
    requires forall i :: 0 <= i < |form| ==> ParseField(form[i].key, form[i].value, jsonParse).Some?
    ensures var args := ParsedContractFunctionArgs(form, jsonParse);
            && |args| == |form|
            && forall i :: 0 <= i < |form| ==> Some(args[i]) == ParseField(form[i].key, form[i].value, jsonParse)
    decreases |form|
  {
    if form != [] {
      ParsedArgsNoFailure(form[1..], jsonParse);
      var args := ParsedContractFunctionArgs(form, jsonParse);
      var rest := ParsedContractFunctionArgs(form[1..], jsonParse);
      assert args == [ParseField(form[0].key, form[0].value, jsonParse).value] + rest;
      forall i | 0 < i < |form| ensures Some(args[i]) == ParseField(form[i].key, form[i].value, jsonParse) {
        assert args[i] == rest[i - 1] && form[i] == form[1..][i - 1];
      }
    }
  }

  /** A field whose JSON does not parse is dropped, and only that field. */
  lemma FailedFieldDropped<J>(before: Record<InputValue>, e: Entry<InputValue>, after: Record<InputValue>,
                              jsonParse: string -> Option<J>)
    requires IsArrayType(BaseType(e.key)) || BaseType(e.key) == "tuple"
    requires jsonParse(JsonText(e.value)).None?
    ensures ParsedContractFunctionArgs(before + [e] + after, jsonParse)
            == ParsedContractFunctionArgs(before, jsonParse) + ParsedContractFunctionArgs(after, jsonParse)
  {
    assert before + [e] + after == before + ([e] + after);
    ParsedArgsConcat(before, [e] + after, jsonParse);
    ParsedArgsCons(e, after, jsonParse);
    FailedFieldGivesNothing(e, jsonParse);
    assert [] + ParsedContractFunctionArgs(after, jsonParse) == ParsedContractFunctionArgs(after, jsonParse);
  }

  /** One step of the recursion: the first field's arguments, then those of the remaining fields. */
  lemma ParsedArgsUnfold<J>(form: Record<InputValue>, jsonParse: string -> Option<J>)
    requires form != []
    ensures ParsedContractFunctionArgs(form, jsonParse)
            == FieldArgs(form[0], jsonParse) + ParsedContractFunctionArgs(form[1..], jsonParse)
  {
  }

  /** The arguments of a form are those of its first field, then those of the rest. */
  lemma ParsedArgsCons<J>(e: Entry<InputValue>, rest: Record<InputValue>, jsonParse: string -> Option<J>)
    ensures ParsedContractFunctionArgs([e] + rest, jsonParse)
            == FieldArgs(e, jsonParse) + ParsedContractFunctionArgs(rest, jsonParse)
  {
    assert ([e] + rest)[0] == e && ([e] + rest)[1..] == rest;
  }

  /** A field of array or tuple type whose JSON does not parse yields `undefined`, so no argument. */
  lemma FailedFieldGivesNothing<J>(e: Entry<InputValue>, jsonParse: string -> Option<J>)
    requires IsArrayType(BaseType(e.key)) || BaseType(e.key) == "tuple"
    requires jsonParse(JsonText(e.value)).None?
    ensures FieldArgs(e, jsonParse) == []
  {
  }

  /** A `bool` field is never dropped: it becomes 1 exactly for the five true spellings, else 0. */
  lemma BoolField<J>(key: string, value: InputValue, jsonParse: string -> Option<J>)
    requires BaseType(key) == "bool"
    ensures ParseField(key, value, jsonParse)
            == Some(Flag(if value.StringInput? && value.s in TrueSpellings then 1 else 0))
  {
    assert !IsArrayType("bool") by {
      assert "bool"[3] != ']';
    }
  }

  /** A field of any other type passes through unchanged. */
  lemma OtherFieldPassesThrough<J>(key: string, value: InputValue, jsonParse: string -> Option<J>)
    requires !IsArrayType(BaseType(key)) && BaseType(key) != "tuple" && BaseType(key) != "bool"
    ensures ParseField(key, value, jsonParse) == Some(Raw(value))
  {
  }

  /** An array type such as `uint256[]` or `address[3]` is JSON-parsed. */
  lemma ArrayTypeOfSuffix(element: string, size: string)
    requires forall k :: 0 <= k < |size| ==> !IsLineTerminator(size[k])
    ensures IsArrayType(element + "[" + size + "]")
  {
    var t := element + "[" + size + "]";
    assert t[|element|] == '[';
    forall k | |element| < k < |t| - 1 ensures !IsLineTerminator(t[k]) {
      assert t[k] == size[k - |element| - 1];
    }
  }

  // ---------------------------------------------------------------------------
  // getParsedError

  /** The fields of a thrown value that the message is chosen from; absent (or nullish) fields are `None`. */
  datatype ErrorValue = ErrorValue(
    isViemError: bool,
    message: Option<string>,
    details: Option<string>,
    shortMessage: Option<string>,
    name: Option<string>)

  const UnknownError: string := "An unknown error occurred"

  /** `a ?? b`. */
  function Coalesce(a: Option<string>, b: string): string {
    if a.Some? then a.value else b
  }

  /** `getParsedError(e)`. */
  function ParsedError(e: ErrorValue): string {
    var message := Coalesce(e.message, UnknownError);
    if e.isViemError then Coalesce(e.details, Coalesce(e.shortMessage, Coalesce(e.message, Coalesce(e.name, message))))
    else message
  }

  /** The first present candidate, or the fallback when none is present. */
  function FirstPresent(candidates: seq<Option<string>>, fallback: string): (m: string)
    ensures (forall i :: 0 <= i < |candidates| ==> candidates[i].None?) ==> m == fallback
    ensures forall i :: (0 <= i < |candidates| && candidates[i].Some?
                         && forall j :: 0 <= j < i ==> candidates[j].None?) ==> m == candidates[i].value
    decreases |candidates|
  {
    if candidates == [] then fallback
    else if candidates[0].Some? then candidates[0].value
    else FirstPresent(candidates[1..], fallback)
  }

  lemma FirstPresentCons(a: Option<string>, rest: seq<Option<string>>, fallback: string)
    ensures FirstPresent([a] + rest, fallback) == Coalesce(a, FirstPresent(rest, fallback))
  {
    assert ([a] + rest)[1..] == rest;
  }

  /**
   * A viem error reports the first present of details, shortMessage,
   * message and name; any other error its message; failing those, the
   * unknown-error text.
   */
  lemma ParsedErrorChoice(e: ErrorValue)
    ensures ParsedError(e) == FirstPresent(
              if e.isViemError then [e.details, e.shortMessage, e.message, e.name] else [e.message], UnknownError)
  {
    FirstPresentCons(e.message, [], UnknownError);
    if e.isViemError {
      FirstPresentCons(e.name, [], UnknownError);
      FirstPresentCons(e.message, [e.name], UnknownError);
      FirstPresentCons(e.shortMessage, [e.message, e.name], UnknownError);
      FirstPresentCons(e.details, [e.shortMessage, e.message, e.name], UnknownError);
      assert Coalesce(e.name, UnknownError) == Coalesce(e.name, Coalesce(e.message, UnknownError)) || e.message.Some?;
    }
  }
}
