/**
 * The generic contract-input component: which input widget a parameter
 * type gets, the placeholder and value it shows, and the form update its
 * `onChange` makes.
 */
module ContractInput {
  import opened Wrappers
  import opened JsStrings
  import opened Records
  import opened Abi
  import opened InputUtils

  /** The widget kinds; `TextWidget` is the plain `InputBase`. */
  datatype Widget = AddressWidget | Bytes32Widget | BytesWidget | TextWidget | IntegerWidget(variant: string)

  /** The `switch (paramType.type)` of the component. */
  function SelectWidget(typ: string): Widget {
    if typ == "address" then AddressWidget
    else if typ == "bytes32" then Bytes32Widget
    else if typ == "bytes" then BytesWidget
    else if typ == "string" then TextWidget
    else if Includes(typ, "int") && '[' !in typ then IntegerWidget(typ)
    else TextWidget
  }

  /** The four exact type names, tested before anything else. */
  lemma ExactTypes()
    ensures SelectWidget("address") == AddressWidget
    ensures SelectWidget("bytes32") == Bytes32Widget
    ensures SelectWidget("bytes") == BytesWidget
    ensures SelectWidget("string") == TextWidget
  {
  }

  /**
   * The integer widget is chosen exactly for the types other than the four
   * exact names that contain `int` and no `[`, and its variant is the type.
   */
  lemma IntegerWidgetChoice(typ: string)
    ensures SelectWidget(typ).IntegerWidget?
            <==> typ !in ["address", "bytes32", "bytes", "string"] && Includes(typ, "int") && '[' !in typ
    ensures SelectWidget(typ).IntegerWidget? ==> SelectWidget(typ).variant == typ
  {
  }

  /** Every other type, among them arrays, `tuple` and `bool`, gets the plain widget. */
  lemma FallbackIsText(typ: string)
    requires typ !in ["address", "bytes32", "bytes", "string"]
    requires !(Includes(typ, "int") && '[' !in typ)
    ensures SelectWidget(typ) == TextWidget
  {
  }

  /** An array of integers such as `uint256[]` never gets the integer widget. */
  lemma IntegerArraysAreText(element: string, size: string)
    ensures SelectWidget(element + "[" + size + "]") == TextWidget
  {
    var t := element + "[" + size + "]";
    assert t[|element|] == '[';
    assert t != "address" && t != "bytes32" && t != "bytes" && t != "string" by {
      assert '[' in t;
      assert '[' !in "address" && '[' !in "bytes32" && '[' !in "bytes" && '[' !in "string";
    }
  }

  /** Every member of the `IntegerVariant` enum gets the integer widget with itself as variant. */
  lemma IntegerVariantsGetIntegerWidget(i: nat)
    requires i < |IntegerVariants|
    ensures SelectWidget(IntegerVariants[i]) == IntegerWidget(IntegerVariants[i])
  {
    var bits := Width(i);
    var digits := NatToString(bits);
    var v := IntegerVariants[i];
    var prefix := if i >= 32 then "int" else "uint";
    assert v == prefix + digits;
    var at := if i >= 32 then 0 else 1;
    assert OccursAt(v, "int", at) by {
      assert v[at..at + 3] == "int";
    }
    IncludesSpec(v, "int");
    assert !IsDigitIn('[', 16);
    RadixStringHasNo(bits, 10, '[');
    assert '[' !in v by {
      forall k | 0 <= k < |v| ensures v[k] != '[' {
        if k >= |prefix| {
          assert v[k] == digits[k - |prefix|];
        }
      }
    }
    assert |v| >= 4;
    assert v != "address" && v != "bytes32" && v != "bytes" && v != "string" by {
      assert v[0] == 'i' || v[0] == 'u';
    }
  }

  /** `paramType.name ? \`${type} ${name}\` : type`: an empty or absent name shows the type alone. */
  function Placeholder(param: AbiParameter): (p: string)
    ensures |param.typ| <= |p| && p[..|param.typ|] == param.typ
    ensures p == param.typ <==> param.name.None? || param.name.value == ""
    ensures p != param.typ ==> p[|param.typ|..] == " " + param.name.value
  {
    if param.name.Some? && param.name.value != "" then param.typ + " " + param.name.value else param.typ
  }

  /** `form?.[stateObjectKey]`. */
  function FieldValue(form: Option<Record<InputValue>>, key: string): Option<InputValue> {
    if form.Some? then Get(form.value, key) else None
  }

  /** The form after `onChange(value)`: `{ ...prevForm, [stateObjectKey]: value }`. */
  function OnChange(prevForm: Record<InputValue>, key: string, value: InputValue): Record<InputValue> {
    Set(prevForm, key, value)
  }

  /**
   * After `onChange(value)` the field shows `value`, every other field shows
   * what it showed before, and no field appears or disappears but this one.
   */
  lemma OnChangeUpdatesOneField(prevForm: Record<InputValue>, key: string, value: InputValue)
    ensures FieldValue(Some(OnChange(prevForm, key, value)), key) == Some(value)
    ensures forall k :: k != key ==> FieldValue(Some(OnChange(prevForm, key, value)), k) == FieldValue(Some(prevForm), k)
    ensures forall k :: k in Keys(OnChange(prevForm, key, value)) <==> k in Keys(prevForm) || k == key
  {
  }
}
