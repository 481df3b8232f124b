/**
 * The renderer of contract call results: a branch-ordered classification of
 * a JavaScript value into the empty text, a number, an Ether amount, an
 * address, an array rendering or pretty-printed JSON, recursing through
 * arrays in text mode.
 *
 * viem's `formatEther`, and `JSON.stringify` with the project's `replacer`
 * (compact and with an indent of 2), are taken as parameters.
 */
module DisplayUtils {
  import opened JsStrings

  /** The JavaScript values a call can return. */
  datatype JsValue =
    | Undefined
    | Null
    | BigIntV(n: int)
    | NumberV(x: real)
    | BooleanV(b: bool)
    | StringV(s: string)
    | ArrayV(items: seq<JsValue>)
    | ObjectV(fields: seq<(string, JsValue)>)

  /** What `displayTxResult` returns: text, a number, an `<Address>` element or a `<span>` of text. */
  datatype Display = Text(s: string) | Number(n: int) | AddressElement(address: string) | Span(text: string)

  /** The foreign serialisers: `formatEther`, `JSON.stringify(x, replacer)` and `JSON.stringify(x, replacer, 2)`. */
  datatype Serialisers = Serialisers(
    formatEther: int -> string,
    stringify: JsValue -> string,
    stringifyIndented: JsValue -> string)

  /** `Number.MAX_SAFE_INTEGER`, 2^53 - 1. */
  const MaxSafeInteger: int := 9007199254740991

  /** The Ether sign the large-bigint branch prefixes. */
  const EtherSign: char := '\U{39E}'

  /**
   * `Number(n)` is within the safe range exactly when `n` is: the conversion
   * rounds monotonically and both bounds are exactly representable, so the
   * test on the rounded value is the exact integer comparison written here,
   * and within the range the conversion is exact.
   */
  predicate IsSafeInteger(n: int) {
    -MaxSafeInteger <= n <= MaxSafeInteger
  }

  /** An address-like string: a `0x` prefix and 42 characters, the digits unchecked. */
  predicate IsAddressLike(s: string) {
    StartsWith(s, "0x") && |s| == 42
  }

  /** `displayTxResult(displayContent, asText)`. In text mode the result is always text or a number. */
  function DisplayTxResult(v: JsValue, asText: bool, ser: Serialisers): (r: Display)
    ensures asText ==> r.Text? || r.Number?
    decreases v, 1
  {
    match v
    case Undefined => Text("")
    case Null => Text("")
    case BigIntV(n) => if IsSafeInteger(n) then Number(n) else Text([EtherSign] + ser.formatEther(n))
    case StringV(s) =>
      if IsAddressLike(s) then (if asText then Text(s) else AddressElement(s))
      else Text(ser.stringifyIndented(v))
    case ArrayV(items) =>
      var displayable := ser.stringify(ArrayV(seq(|items|, i requires 0 <= i < |items| => MostReadable(items[i], ser))));
      if asText then Text(displayable) else Span(ReplaceAll(displayable, ',', ",\n"))
    case _ => Text(ser.stringifyIndented(v))
  }

  /** `mostReadable(v)`: numbers and booleans as they are, anything else as its text rendering. */
  function MostReadable(v: JsValue, ser: Serialisers): (r: JsValue)
    ensures v.NumberV? || v.BooleanV? ==> r == v
    ensures !(v.NumberV? || v.BooleanV?) ==> r.StringV? || r.NumberV?
    decreases v, 2
  {
    if v.NumberV? || v.BooleanV? then v
    else
      var d := DisplayTxResult(v, true, ser);
      if d.Number? then NumberV(d.n as real) else StringV(d.s)
  }

  /** `displayTxResultAsText(v)`. */
  function DisplayTxResultAsText(v: JsValue, ser: Serialisers): (r: Display)
    ensures r.Text? || r.Number?
  {
    DisplayTxResult(v, true, ser)
  }

  /** `null` and `undefined` render as the empty text in both modes. */
  lemma NullishIsEmpty(v: JsValue, asText: bool, ser: Serialisers)
    requires v.Undefined? || v.Null?
    ensures DisplayTxResult(v, asText, ser) == Text("")
  {
  }

  /**
   * A bigint renders as the number itself exactly when it is a safe integer,
   * and otherwise as the Ether sign followed by `formatEther`.
   */
  lemma BigIntRendering(n: int, asText: bool, ser: Serialisers)
    ensures DisplayTxResult(BigIntV(n), asText, ser).Number? <==> IsSafeInteger(n)
    ensures IsSafeInteger(n) ==> DisplayTxResult(BigIntV(n), asText, ser).n == n
    ensures !IsSafeInteger(n) ==> DisplayTxResult(BigIntV(n), asText, ser).s == [EtherSign] + ser.formatEther(n)
  {
  }

  /** The boundaries of the safe range: 2^53 - 1 renders as a number, 2^53 as Ether. */
  lemma SafeRangeBoundaries(ser: Serialisers)
    ensures DisplayTxResult(BigIntV(MaxSafeInteger), false, ser) == Number(MaxSafeInteger)
    ensures DisplayTxResult(BigIntV(-MaxSafeInteger), false, ser) == Number(-MaxSafeInteger)
    ensures DisplayTxResult(BigIntV(MaxSafeInteger + 1), false, ser).Text?
  {
  }

  /** An address-like string is returned as it is in text mode and as an address element otherwise; it is never serialised. */
  lemma AddressRendering(s: string, asText: bool, ser: Serialisers)
    requires IsAddressLike(s)
    ensures DisplayTxResult(StringV(s), asText, ser) == if asText then Text(s) else AddressElement(s)
  {
  }

  /** Numbers and other strings fall through to the indented serialisation. */
  lemma DefaultIsIndentedJson(v: JsValue, asText: bool, ser: Serialisers)
    requires v.NumberV? || v.BooleanV? || v.ObjectV? || (v.StringV? && !IsAddressLike(v.s))
    ensures DisplayTxResult(v, asText, ser) == Text(ser.stringifyIndented(v))
  {
  }

  /** The elements of an array rendering: each element made most readable, in order. */
  function ReadableItems(items: seq<JsValue>, ser: Serialisers): (r: seq<JsValue>)
    ensures |r| == |items|
    ensures forall i :: 0 <= i < |items| ==> r[i] == MostReadable(items[i], ser)
  {
    seq(|items|, i requires 0 <= i < |items| => MostReadable(items[i], ser))
  }

  /** Every element of a serialised array is a number, a boolean or a string. */
  lemma ReadableItemsArePrimitive(items: seq<JsValue>, ser: Serialisers)
    ensures forall i :: 0 <= i < |items| ==>
              ReadableItems(items, ser)[i].NumberV? || ReadableItems(items, ser)[i].BooleanV?
              || ReadableItems(items, ser)[i].StringV?
  {
  }

  /** Inside an array an address stays its own text and a safe bigint becomes a number. */
  lemma ArrayElements(s: string, n: int, ser: Serialisers)
    requires IsAddressLike(s) && IsSafeInteger(n)
    ensures MostReadable(StringV(s), ser) == StringV(s)
    ensures MostReadable(BigIntV(n), ser) == NumberV(n as real)
  {
  }

  /** Deleting the line break after each `,`: the inverse of the element rendering's `replaceAll`. */
  function JoinCommaLines(s: string): string
    decreases |s|
  {
    if |s| >= 2 && s[0] == ',' && s[1] == '\n' then [','] + JoinCommaLines(s[2..])
    else if s == "" then ""
    else [s[0]] + JoinCommaLines(s[1..])
  }

  /** Breaking the line after each `,` loses nothing: joining the lines again gives back the text. */
  lemma {:induction false} CommaLinesRoundTrip(s: string)
    ensures JoinCommaLines(ReplaceAll(s, ',', ",\n")) == s
    decreases |s|
  {
    if s != "" {
      CommaLinesRoundTrip(s[1..]);
      var r := ReplaceAll(s, ',', ",\n");
      var rest := ReplaceAll(s[1..], ',', ",\n");
      if s[0] == ',' {
        assert r == ",\n" + rest;
        assert r[2..] == rest;
      } else {
        assert r == [s[0]] + rest;
        assert r[1..] == rest;
      }
    }
  }

  /** Every `,` in `t` is followed by a line break. */
  predicate EveryCommaBreaksLine(t: string) {
    forall i :: 0 <= i < |t| && t[i] == ',' ==> i + 1 < |t| && t[i + 1] == '\n'
  }

  /** One step of the replacement. */
  lemma ReplaceAllCons(a: char, x: string, c: char, rep: string)
    ensures ReplaceAll([a] + x, c, rep) == (if a == c then rep else [a]) + ReplaceAll(x, c, rep)
  {
    assert ([a] + x)[0] == a && ([a] + x)[1..] == x;
  }

  /** After the replacement every `,` is followed by a line break. */
  lemma {:induction false} CommasBreakLines(s: string)
    ensures EveryCommaBreaksLine(ReplaceAll(s, ',', ",\n"))
    decreases |s|
  {
    if s != "" {
      CommasBreakLines(s[1..]);
      var r := ReplaceAll(s, ',', ",\n");
      var rest := ReplaceAll(s[1..], ',', ",\n");
      var head := if s[0] == ',' then ",\n" else [s[0]];
      assert r == head + rest;
      forall i | 0 <= i < |r| && r[i] == ','
        ensures i + 1 < |r| && r[i + 1] == '\n'
      {
        if i >= |head| {
          var k := i - |head|;
          assert rest[k] == r[i];
          assert k + 1 < |rest| && rest[k + 1] == '\n';
          assert r[i + 1] == rest[k + 1];
        }
      }
    }
  }

  /**
   * A text in which every `,` is followed by a line break is the replacement
   * of its joined lines: the element rendering is the only text with both
   * properties.
   */
  lemma {:induction false} CommaLinesDetermine(t: string)
    requires EveryCommaBreaksLine(t)
    ensures ReplaceAll(JoinCommaLines(t), ',', ",\n") == t
    decreases |t|
  {
    if |t| >= 2 && t[0] == ',' && t[1] == '\n' {
      var rest := t[2..];
      assert EveryCommaBreaksLine(rest) by {
        forall i | 0 <= i < |rest| && rest[i] == ',' ensures i + 1 < |rest| && rest[i + 1] == '\n' {
          assert t[i + 2] == rest[i];
        }
      }
      CommaLinesDetermine(rest);
      ReplaceAllCons(',', JoinCommaLines(rest), ',', ",\n");
      assert t == ",\n" + rest;
    } else if t != "" {
      var rest := t[1..];
      assert t[0] != ',';
      assert EveryCommaBreaksLine(rest) by {
        forall i | 0 <= i < |rest| && rest[i] == ',' ensures i + 1 < |rest| && rest[i + 1] == '\n' {
          assert t[i + 1] == rest[i];
        }
      }
      CommaLinesDetermine(rest);
      ReplaceAllCons(t[0], JoinCommaLines(rest), ',', ",\n");
      assert t == [t[0]] + rest;
    }
  }

  /**
   * An array renders as the compact serialisation of its readable elements
   * in text mode; as an element it is the same text with a line break after
   * every comma, which joining the lines undoes.
   */
  lemma ArrayRendering(items: seq<JsValue>, ser: Serialisers)
    ensures DisplayTxResult(ArrayV(items), true, ser) == Text(ser.stringify(ArrayV(ReadableItems(items, ser))))
    ensures var element := DisplayTxResult(ArrayV(items), false, ser);
            && element.Span?
            && JoinCommaLines(element.text) == ser.stringify(ArrayV(ReadableItems(items, ser)))
            && EveryCommaBreaksLine(element.text)
  {
    CommaLinesRoundTrip(ser.stringify(ArrayV(ReadableItems(items, ser))));
    CommasBreakLines(ser.stringify(ArrayV(ReadableItems(items, ser))));
  }
}
