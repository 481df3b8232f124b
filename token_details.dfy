/**
 * The token-details form of the example page: the owner and name
 * validators, the field and error state the change handler keeps, and the
 * tuple text the copy button produces.
 */
module TokenDetails {
  import opened Wrappers
  import opened JsStrings
  import opened JsArrays

  // ---------------------------------------------------------------------------
  // Validators

  predicate IsHexChar(c: char) {
    ('0' <= c <= '9') || ('a' <= c <= 'f') || ('A' <= c <= 'F')
  }

  /** `/^0x[a-fA-F0-9]{40}$/`. */
  predicate IsAddressFormat(v: string) {
    |v| == 42 && v[0] == '0' && v[1] == 'x' && forall i :: 2 <= i < 42 ==> IsHexChar(v[i])
  }

  const ZeroAddress: string := "0x0000000000000000000000000000000000000000"
  const InvalidAddressError: string := "Invalid Ethereum address format"
  const ZeroAddressError: string := "Address cannot be the zero address"

  /** `validateOwner(value)`: the format test comes first, then the zero-address test. */
  function ValidateOwner(value: string): string {
    if !IsAddressFormat(value) then InvalidAddressError
    else if value == ZeroAddress then ZeroAddressError
    else ""
  }

  /** The owner is accepted exactly when it is a well-formed address other than the zero address. */
  lemma OwnerAccepted(value: string)
    ensures ValidateOwner(value) == "" <==> IsAddressFormat(value) && value != ZeroAddress
    ensures !IsAddressFormat(value) ==> ValidateOwner(value) == InvalidAddressError
  {
  }

  /** The zero address is well formed, so it reaches the second test and gets its own message. */
  lemma ZeroAddressRejected()
    ensures IsAddressFormat(ZeroAddress)
    ensures ValidateOwner(ZeroAddress) == ZeroAddressError
  {
    assert forall i :: 2 <= i < 42 ==> ZeroAddress[i] == '0';
  }

  /** A character of `[a-zA-Z0-9\s\-_]`. */
  predicate IsNameChar(c: char) {
    ('a' <= c <= 'z') || ('A' <= c <= 'Z') || ('0' <= c <= '9') || IsWhitespace(c) || c == '-' || c == '_'
  }

  const NameRequiredError: string := "Name is required."
  const NameTooLongError: string := "Name is too long."
  const NameInvalidError: string :=
    "Name contains invalid characters. Only alphanumeric, spaces, hyphens, and underscores are allowed."

  /** `validateName(value)`: required, then at most 100 characters, then `^[a-zA-Z0-9\s\-_]+$`. */
  function ValidateName(value: string): string {
    if Trim(value) == "" then NameRequiredError
    else if |value| > 100 then NameTooLongError
    else if !(value != "" && forall i :: 0 <= i < |value| ==> IsNameChar(value[i])) then NameInvalidError
    else ""
  }

  /**
   * A name is accepted exactly when it has 1 to 100 characters, all of them
   * letters, digits, white space, `-` or `_`, not all of them white space.
   */
  lemma NameAccepted(value: string)
    ensures ValidateName(value) == ""
            <==> && 1 <= |value| <= 100
                 && (forall i :: 0 <= i < |value| ==> IsNameChar(value[i]))
                 && (exists i :: 0 <= i < |value| && !IsWhitespace(value[i]))
  {
    if Trim(value) == "" {
      if exists i :: 0 <= i < |value| && !IsWhitespace(value[i]) {
        var i :| 0 <= i < |value| && !IsWhitespace(value[i]);
        TrimKeeps(value, value[i]);
      }
    } else {
      var c := Trim(value)[0];
      TrimKeeps(value, c);
    }
  }

  /** A name of white space only is reported as missing, whatever its length. */
  lemma BlankNameRequired(value: string)
    requires forall i :: 0 <= i < |value| ==> IsWhitespace(value[i])
    ensures ValidateName(value) == NameRequiredError
  {
    TrimBlank(value);
  }

  /** The error `validateField(name, value)` records: owner and name are validated, any other field gets `""`. */
  function FieldError(name: string, value: string): string {
    if name == "owner" then ValidateOwner(value)
    else if name == "name" then ValidateName(value)
    else ""
  }

  // ---------------------------------------------------------------------------
  // The tuple text

  /** The ten fields of `TokenDetails`, in declaration order. */
  const FieldNames: seq<string> := ["owner", "name", "symbol", "decimals", "irs", "ONCHAINID",
                                    "irAgents", "tokenAgents", "complianceModules", "complianceSettings"]

  predicate NonEmpty(s: string) {
    s != ""
  }

  /** `s.split(",").filter(Boolean)`. */
  function Segments(s: string): seq<string> {
    Filter(Split(s, ','), NonEmpty)
  }

  function Quote(s: string): string {
    "\"" + s + "\""
  }

  /** Each element between double quotes. */
  function QuoteAll(items: seq<string>): (r: seq<string>)
    ensures |r| == |items|
    ensures forall i :: 0 <= i < |items| ==> r[i] == Quote(items[i])
    decreases |items|
  {
    if items == [] then [] else [Quote(items[0])] + QuoteAll(items[1..])
  }

  /** Each element trimmed, then between double quotes. */
  function QuoteAllTrimmed(items: seq<string>): (r: seq<string>)
    ensures |r| == |items|
    ensures forall i :: 0 <= i < |items| ==> r[i] == Quote(Trim(items[i]))
    decreases |items|
  {
    if items == [] then [] else [Quote(Trim(items[0]))] + QuoteAllTrimmed(items[1..])
  }

  /** The compliance lists: `["a","b"]` for a non-empty list, `[]` otherwise; the elements are not trimmed. */
  function ComplianceList(s: string): string {
    Rendered(Segments(s))
  }

  /** A list written out as the compliance fields are: `["a","b"]`, or `[]` when empty. */
  function Rendered(items: seq<string>): string {
    if |items| > 0 then "[\"" + Join(items, "\",\"") + "\"]" else "[]"
  }

  /** Each element with its surrounding white space removed. */
  function TrimAll(items: seq<string>): (r: seq<string>)
    ensures |r| == |items|
    ensures forall i :: 0 <= i < |items| ==> r[i] == Trim(items[i])
  {
    seq(|items|, i requires 0 <= i < |items| => Trim(items[i]))
  }

  /** The agent lists: the elements trimmed, quoted and joined with `,`; the brackets are the tuple's. */
  function AgentList(s: string): string {
    Join(QuoteAllTrimmed(Segments(s)), ",")
  }

  /** Joining with `","` inside a pair of quotes is quoting each element and joining with `,`. */
  lemma {:induction false} QuotedJoin(items: seq<string>)
    requires items != []
    ensures "\"" + Join(items, "\",\"") + "\"" == Join(QuoteAll(items), ",")
    decreases |items|
  {
    if |items| > 1 {
      QuotedJoin(items[1..]);
      var rest := Join(items[1..], "\",\"");
      assert QuoteAll(items)[1..] == QuoteAll(items[1..]);
      calc {
        "\"" + Join(items, "\",\"") + "\"";
        "\"" + (items[0] + "\",\"" + rest) + "\"";
        Quote(items[0]) + "," + ("\"" + rest + "\"");
      }
    }
  }

  /**
   * Both kinds of list have one shape, quoted elements between `[` and `]`
   * separated by `,`: an agent list, bracketed, is the compliance rendering of
   * its trimmed elements.
   */
  lemma ListShapes(s: string)
    ensures ComplianceList(s) == "[" + Join(QuoteAll(Segments(s)), ",") + "]"
    ensures "[" + AgentList(s) + "]" == Rendered(TrimAll(Segments(s)))
  {
    if |Segments(s)| > 0 {
      QuotedJoin(Segments(s));
    }
    RenderedTrimmed(Segments(s));
  }

  /** Quoting trimmed elements and bracketing them is rendering the trimmed list. */
  lemma RenderedTrimmed(items: seq<string>)
    ensures "[" + Join(QuoteAllTrimmed(items), ",") + "]" == Rendered(TrimAll(items))
  {
    if |items| > 0 {
      QuotedJoin(TrimAll(items));
      QuoteTrimmed(items);
    }
  }

  /** Trimming and then quoting each element is what the agent lists do. */
  lemma QuoteTrimmed(items: seq<string>)
    ensures QuoteAll(TrimAll(items)) == QuoteAllTrimmed(items)
  {
  }

  /**
   * Every element of an agent list is a quoted text that neither starts nor
   * ends with white space.
   */
  lemma AgentElementsTrimmed(s: string, i: nat)
    requires i < |QuoteAllTrimmed(Segments(s))|
    ensures var e := QuoteAllTrimmed(Segments(s))[i];
            |e| >= 2 && e[0] == '"' && e[|e| - 1] == '"'
            && (|e| > 2 ==> !IsWhitespace(e[1]) && !IsWhitespace(e[|e| - 2]))
  {
    var t := Trim(Segments(s)[i]);
    assert QuoteAllTrimmed(Segments(s))[i] == "\"" + t + "\"";
  }

  /** Splitting keeps no empty piece exactly when the text is nothing but commas. */
  lemma {:induction false} NoSegments(s: string)
    ensures Segments(s) == [] <==> forall i :: 0 <= i < |s| ==> s[i] == ','
    decreases |s|
  {
    if s != "" {
      NoSegments(s[1..]);
      if s[0] == ',' {
        LeadingCommaSegments(s);
        assert forall i :: 1 <= i < |s| ==> s[i] == s[1..][i - 1];
      } else {
        LeadingCharSegments(s);
      }
    }
  }

  /** A leading comma adds only an empty piece, which the filter drops. */
  lemma LeadingCommaSegments(s: string)
    requires s != "" && s[0] == ','
    ensures Segments(s) == Segments(s[1..])
  {
    var rest := Split(s[1..], ',');
    assert Split(s, ',') == [""] + rest;
    FilterConcat([""], rest, NonEmpty);
  }

  /** Any other first character starts a non-empty first piece, which the filter keeps. */
  lemma LeadingCharSegments(s: string)
    requires s != "" && s[0] != ','
    ensures Segments(s) != []
  {
    var rest := Split(s[1..], ',');
    var parts := [[s[0]] + rest[0]] + rest[1..];
    assert Split(s, ',') == parts;
    FilterConcat([parts[0]], parts[1..], NonEmpty);
    assert parts == [parts[0]] + parts[1..];
  }

  /** A list field of commas only, the empty one among them, renders as `[]`. */
  lemma EmptyListRendering(s: string)
    requires forall i :: 0 <= i < |s| ==> s[i] == ','
    ensures ComplianceList(s) == "[]" && AgentList(s) == ""
  {
    NoSegments(s);
  }

  /** The ten positional fields of the tuple; `decimals` alone is not quoted. */
  function TupleFields(d: map<string, string>): (fields: seq<string>)
    requires forall f :: f in FieldNames ==> f in d
    ensures |fields| == |FieldNames|
    ensures fields[0] == Quote(d[FieldNames[0]]) && fields[1] == Quote(d[FieldNames[1]])
    ensures fields[2] == Quote(d[FieldNames[2]]) && fields[3] == d[FieldNames[3]]
    ensures fields[4] == Quote(d[FieldNames[4]]) && fields[5] == Quote(d[FieldNames[5]])
    ensures fields[6] == "[" + AgentList(d[FieldNames[6]]) + "]"
    ensures fields[7] == "[" + AgentList(d[FieldNames[7]]) + "]"
    ensures fields[8] == ComplianceList(d[FieldNames[8]])
    ensures fields[9] == ComplianceList(d[FieldNames[9]])
  {
    assert FieldNames[6] == "irAgents" && FieldNames[7] == "tokenAgents";
    assert FieldNames[8] == "complianceModules" && FieldNames[9] == "complianceSettings";
    [Quote(d["owner"]), Quote(d["name"]), Quote(d["symbol"]), d["decimals"], Quote(d["irs"]), Quote(d["ONCHAINID"]),
     "[" + AgentList(d["irAgents"]) + "]", "[" + AgentList(d["tokenAgents"]) + "]",
     ComplianceList(d["complianceModules"]), ComplianceList(d["complianceSettings"])]
  }

  /**
   * `tupleString`, the template literal of `handleCopy`, grouped from the
   * right: `["owner", "name", "symbol", decimals, "irs", "ONCHAINID",
   * [irAgents], [tokenAgents], modules, settings]`.
   */
  function TupleString(d: map<string, string>): string
    requires forall f :: f in FieldNames ==> f in d
  {
    "[" + (Quote(d["owner"]) + ", " + (Quote(d["name"]) + ", " + (Quote(d["symbol"]) + ", " + (d["decimals"] + ", "
    + (Quote(d["irs"]) + ", " + (Quote(d["ONCHAINID"]) + ", " + ("[" + AgentList(d["irAgents"]) + "]" + ", "
    + ("[" + AgentList(d["tokenAgents"]) + "]" + ", " + (ComplianceList(d["complianceModules"]) + ", "
    + ComplianceList(d["complianceSettings"])))))))))) + "]"
  }

  lemma JoinCons(a: string, rest: seq<string>, sep: string)
    requires rest != []
    ensures Join([a] + rest, sep) == a + sep + Join(rest, sep)
  {
    assert ([a] + rest)[1..] == rest;
  }

  /** Joining ten strings is nesting them to the right around the separator. */
  lemma JoinTen(f0: string, f1: string, f2: string, f3: string, f4: string,
                f5: string, f6: string, f7: string, f8: string, f9: string, sep: string)
    ensures Join([f0, f1, f2, f3, f4, f5, f6, f7, f8, f9], sep)
            == f0 + sep + (f1 + sep + (f2 + sep + (f3 + sep + (f4 + sep + (f5 + sep + (f6 + sep + (f7 + sep
               + (f8 + sep + f9))))))))
  {
    var s9 := [f9];
    var s8 := [f8] + s9;
    var s7 := [f7] + s8;
    var s6 := [f6] + s7;
    var s5 := [f5] + s6;
    var s4 := [f4] + s5;
    var s3 := [f3] + s4;
    var s2 := [f2] + s3;
    var s1 := [f1] + s2;
    JoinCons(f8, s9, sep);
    JoinCons(f7, s8, sep);
    JoinCons(f6, s7, sep);
    JoinCons(f5, s6, sep);
    JoinCons(f4, s5, sep);
    JoinCons(f3, s4, sep);
    JoinCons(f2, s3, sep);
    JoinCons(f1, s2, sep);
    JoinCons(f0, s1, sep);
    assert [f0] + s1 == [f0, f1, f2, f3, f4, f5, f6, f7, f8, f9];
  }

  /** The tuple is its ten fields in order, separated by `, `, inside `[` and `]`. */
  lemma TupleLayout(d: map<string, string>)
    requires forall f :: f in FieldNames ==> f in d
    ensures TupleString(d) == "[" + Join(TupleFields(d), ", ") + "]"
  {
    var f := TupleFields(d);
    JoinTen(f[0], f[1], f[2], f[3], f[4], f[5], f[6], f[7], f[8], f[9], ", ");
    assert f == [f[0], f[1], f[2], f[3], f[4], f[5], f[6], f[7], f[8], f[9]];
  }

  // ---------------------------------------------------------------------------
  // The form state

  /** The field values and the per-field errors of the form. */
  class TokenDetailsForm {
    var tokenDetails: map<string, string>
    var errors: map<string, string>

    /** Every field of `TokenDetails` has a value. */
    ghost predicate Valid()
      reads this
    {
      forall f :: f in FieldNames ==> f in tokenDetails
    }

    /** Every field empty, no error recorded. */
    constructor ()
      ensures Valid()
      ensures tokenDetails == map f | f in FieldNames :: ""
      ensures errors == map[]
    {
      tokenDetails := map f | f in FieldNames :: "";
      errors := map[];
    }

    /** `validateField(name, value)`: records the field's error and touches no other entry. */
    method ValidateField(name: string, value: string)
      modifies this
      ensures errors == old(errors)[name := FieldError(name, value)]
      ensures tokenDetails == old(tokenDetails)
    {
      var error := FieldError(name, value);
      errors := errors[name := error];
    }

    /** `handleChange(e)`: stores the value under the input's name, then validates it. */
    method HandleChange(name: string, value: string)
      requires Valid()
      modifies this
      ensures Valid()
      ensures tokenDetails == old(tokenDetails)[name := value]
      ensures errors == old(errors)[name := FieldError(name, value)]
    {
      tokenDetails := tokenDetails[name := value];
      ValidateField(name, value);
    }

    /** `Object.values(errors).some(error => error)`: the copy button is disabled exactly then. */
    predicate HasErrors()
      reads this
    {
      exists k :: k in errors && errors[k] != ""
    }

    /** `handleCopy()`: nothing while an error is shown, otherwise the tuple text. */
    method HandleCopy() returns (tuple: Option<string>)
      requires Valid()
      ensures tuple.None? <==> HasErrors()
      ensures tuple.Some? ==> tuple.value == TupleString(tokenDetails)
    {
      if exists k :: k in errors && errors[k] != "" {
        return None;
      }
      return Some(TupleString(tokenDetails));
    }
  }

  /** Fixing a field clears its own error; an error on another field still blocks copying. */
  lemma ErrorsAfterChange(before: map<string, string>, name: string, value: string, other: string)
    requires other != name && other in before && before[other] != ""
    ensures var after := before[name := FieldError(name, value)];
            && (exists k :: k in after && after[k] != "")
            && (name !in ["owner", "name"] ==> after[name] == "")
  {
    var after := before[name := FieldError(name, value)];
    assert other in after && after[other] != "";
  }
}
