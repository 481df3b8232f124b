/**
 * The integer-input validator: the `IntegerVariant` names, the two number
 * grammars, `isValidInteger` exactly as written, and the ENS-name test.
 *
 * `BigInt(value)` is modelled by `ToBigInt`, which implements ECMAScript's
 * StringToBigInt for strings (surrounding white space ignored, the empty
 * string is 0n, `0x`/`0o`/`0b` prefixes, otherwise an optionally signed run of
 * decimal digits) and is the identity on bigints. A coercion failure (the
 * SyntaxError the source catches) is `None`.
 */
module InputUtils {
  import opened Wrappers
  import opened JsStrings

  /** What an integer field holds: the text being typed, or a bigint. */
  datatype InputValue = StringInput(s: string) | BigIntInput(n: int)

  // ---------------------------------------------------------------------------
  // IntegerVariant

  function VariantName(signed: bool, bits: nat): string {
    (if signed then "int" else "uint") + NatToString(bits)
  }

  /** The members of the `IntegerVariant` enum in declaration order: uint8 .. uint256, then int8 .. int256. */
  const IntegerVariants: seq<string> :=
    seq(64, i requires 0 <= i < 64 => VariantName(i >= 32, Width(i)))

  /** The width of the enum member at position `i`: 8, 16, .., 256, twice over. */
  function Width(i: nat): nat {
    8 * ((if i >= 32 then i - 32 else i) + 1)
  }

  /** `dataType.startsWith("i")`. */
  predicate IsSigned(dataType: string) {
    StartsWith(dataType, "i")
  }

  /**
   * `Number(t)` where it gives an integer: on such strings (surrounding white
   * space ignored, the empty string 0, `0x`/`0o`/`0b` prefixes, an optionally
   * signed run of decimal digits) Number and BigInt agree. Every other
   * string is taken as NaN, written `None`.
   */
  function NumberValue(t: string): Option<int> {
    StringToBigInt(t)
  }

  /** `Number(dataType.slice(isSigned ? 3 : 4))`. */
  function BitCount(dataType: string): Option<int> {
    var from := if IsSigned(dataType) then 3 else 4;
    NumberValue(if |dataType| <= from then "" else dataType[from..])
  }

  /** A variant name is signed exactly when built as `int<N>`, and its bit count is `N`. */
  lemma VariantNameParts(signed: bool, bits: nat)
    ensures IsSigned(VariantName(signed, bits)) == signed
    ensures BitCount(VariantName(signed, bits)) == Some(bits)
  {
    var prefix := if signed then "int" else "uint";
    var name := VariantName(signed, bits);
    assert name[..|prefix|] == prefix && name[0] == prefix[0];
    assert name[..1] == prefix[..1];
    assert name[|prefix|..] == NatToString(bits);
    assert |name| > |prefix|;
    RadixStringValue(bits, 10);
    DecimalStringCoerces(NatToString(bits));
  }

  lemma WidthFacts(i: nat)
    requires i < 64
    ensures Width(i) % 8 == 0 && 8 <= Width(i) <= 256
    ensures Width(i) == Width(if i >= 32 then i - 32 else i + 32)
  {
    var k := (if i >= 32 then i - 32 else i) + 1;
    assert (8 * k) % 8 == 0;
  }

  /**
   * Every enum member has a bit count that is a multiple of 8 between 8 and
   * 256, its signedness is its `i` prefix, and its counterpart of the other
   * signedness and the same width is a member too.
   */
  lemma IntegerVariantsWellFormed(i: nat)
    requires i < |IntegerVariants|
    ensures BitCount(IntegerVariants[i]).Some?
    ensures var w := BitCount(IntegerVariants[i]).value;
            && w % 8 == 0 && 8 <= w <= 256
            && IntegerVariants[i] == VariantName(IsSigned(IntegerVariants[i]), w)
            && VariantName(!IsSigned(IntegerVariants[i]), w) in IntegerVariants
  {
    var j := if i >= 32 then i - 32 else i + 32;
    WidthFacts(i);
    VariantNameParts(i >= 32, Width(i));
    assert IntegerVariants[j] == VariantName(i < 32, Width(i));
  }

  /** The enum has 64 members, all distinct. */
  lemma IntegerVariantsDistinct(i: nat, j: nat)
    requires i < j < |IntegerVariants|
    ensures IntegerVariants[i] != IntegerVariants[j]
  {
    VariantNameParts(i >= 32, Width(i));
    VariantNameParts(j >= 32, Width(j));
  }

  // ---------------------------------------------------------------------------
  // BigInt coercion

  /** A non-empty run of digits of `radix` and its value; anything else fails. */
  function DigitsIn(t: string, radix: nat): (r: Option<nat>)
    ensures r.Some? <==> t != "" && AllDigitsIn(t, radix)
  {
    if t != "" && AllDigitsIn(t, radix) then Some(DigitsValue(t, radix)) else None
  }

  /** ECMAScript StringToBigInt, which `BigInt(string)` applies. */
  function StringToBigInt(s: string): Option<int> {
    TrimmedToBigInt(Trim(s))
  }

  /** StringToBigInt once the surrounding white space is gone. */
  function TrimmedToBigInt(t: string): Option<int> {
    if t == "" then Some(0)
    else if |t| >= 2 && t[0] == '0' && (t[1] == 'x' || t[1] == 'X') then DigitsIn(t[2..], 16)
    else if |t| >= 2 && t[0] == '0' && (t[1] == 'o' || t[1] == 'O') then DigitsIn(t[2..], 8)
    else if |t| >= 2 && t[0] == '0' && (t[1] == 'b' || t[1] == 'B') then DigitsIn(t[2..], 2)
    else if t[0] == '-' then
      var magnitude := DigitsIn(t[1..], 10);
      if magnitude.Some? then Some(0 - magnitude.value) else None
    else if t[0] == '+' then DigitsIn(t[1..], 10)
    else DigitsIn(t, 10)
  }

  /** `BigInt(value)`. */
  function ToBigInt(value: InputValue): Option<int> {
    match value
    case BigIntInput(n) => Some(n)
    case StringInput(s) => StringToBigInt(s)
  }

  /** A non-empty run of decimal digits: `\d+`. */
  predicate IsDigitRun(s: string) {
    s != "" && AllDigitsIn(s, 10)
  }

  /** A run of decimal digits coerces to its value. */
  lemma DecimalStringCoerces(d: string)
    requires IsDigitRun(d)
    ensures StringToBigInt(d) == Some(DigitsValue(d, 10) as int)
  {
    assert IsDigitIn(d[0], 10) && IsDigitIn(d[|d| - 1], 10);
    TrimUnchanged(d);
    assert d[0] != '0' || |d| < 2 || IsDigitIn(d[1], 10);
  }

  /** The digits `toString(radix)` writes read back as the number: `DigitsIn` inverts `RadixString`. */
  lemma DigitsInRoundTrip(n: nat, radix: nat)
    requires 2 <= radix <= 36
    ensures DigitsIn(RadixString(n, radix), radix) == Some(n)
  {
    RadixStringValue(n, radix);
  }

  /** `BigInt(n.toString())` is `n` for every integer. */
  lemma BigIntOfDecimalRoundTrip(n: int)
    ensures StringToBigInt(IntToRadixString(n, 10)) == Some(n)
  {
    var mag := if n < 0 then -n else n;
    RadixStringValue(mag, 10);
    if n < 0 {
      NegativeDecimalStringCoerces(RadixString(mag, 10));
    } else {
      DecimalStringCoerces(RadixString(mag, 10));
    }
  }

  /** A run of decimal digits after a minus sign coerces to the negated value. */
  lemma NegativeDecimalStringCoerces(d: string)
    requires IsDigitRun(d)
    ensures StringToBigInt("-" + d) == Some(0 - DigitsValue(d, 10))
  {
    var s := "-" + d;
    assert IsDigitIn(s[|s| - 1], 10) by {
      assert s[|s| - 1] == d[|d| - 1];
    }
    TrimUnchanged(s);
    assert s[1..] == d;
  }

  /** A string holding no digit of radix `radix` is not a digit run of it. */
  lemma DigitsInFailsOn(t: string, radix: nat, c: char)
    requires radix <= 16 && !IsDigitIn(c, 16) && c in t
    ensures DigitsIn(t, radix).None?
  {
    var i :| 0 <= i < |t| && t[i] == c;
    assert !IsDigitIn(t[i], radix);
  }

  /** A string containing a `.` never coerces, whatever its other characters. */
  lemma DotStringDoesNotCoerce(s: string)
    requires '.' in s
    ensures StringToBigInt(s).None?
  {
    var t := Trim(s);
    TrimKeeps(s, '.');
    var i :| 0 <= i < |t| && t[i] == '.';
    if |t| >= 2 && t[0] == '0' && t[1] in "xXoObB" {
      assert t[2..][i - 2] == '.';
      DigitsInFailsOn(t[2..], 16, '.');
      DigitsInFailsOn(t[2..], 8, '.');
      DigitsInFailsOn(t[2..], 2, '.');
    } else if t[0] == '-' || t[0] == '+' {
      assert t[1..][i - 1] == '.';
      DigitsInFailsOn(t[1..], 10, '.');
    } else {
      DigitsInFailsOn(t, 10, '.');
    }
  }

  /** The bare minus sign does not coerce. */
  lemma MinusDoesNotCoerce()
    ensures StringToBigInt("-").None?
  {
    TrimUnchanged("-");
    assert "-"[1..] == "";
  }

  /** The empty string (and any white space) coerces to 0n. */
  lemma BlankCoercesToZero(s: string)
    requires forall i :: 0 <= i < |s| ==> IsWhitespace(s[i])
    ensures StringToBigInt(s) == Some(0)
  {
    TrimBlank(s);
  }

  // ---------------------------------------------------------------------------
  // The number grammars

  /** UNSIGNED_NUMBER_REGEX, `^\d+(\.\d+)?$`. */
  predicate MatchesUnsignedNumber(s: string) {
    || IsDigitRun(s)
    || exists i :: 0 < i < |s| && s[i] == '.' && IsDigitRun(s[..i]) && IsDigitRun(s[i + 1..])
  }

  /** SIGNED_NUMBER_REGEX, `^-?\d+(\.\d+)?$`. */
  predicate MatchesSignedNumber(s: string) {
    MatchesUnsignedNumber(s) || (s != "" && s[0] == '-' && MatchesUnsignedNumber(s[1..]))
  }

  /** Every string of the unsigned grammar is in the signed grammar. */
  lemma UnsignedGrammarInSigned(s: string)
    ensures MatchesUnsignedNumber(s) ==> MatchesSignedNumber(s)
  {
  }

  /** A string of either grammar without a decimal point coerces to an integer. */
  lemma GrammarWithoutDotCoerces(s: string)
    requires MatchesSignedNumber(s) && '.' !in s
    ensures StringToBigInt(s).Some?
  {
    if IsDigitRun(s) {
      DecimalStringCoerces(s);
    } else {
      assert s[0] == '-' && s[1..] != "";
      NegativeDecimalStringCoerces(s[1..]);
      assert "-" + s[1..] == s;
    }
  }

  // ---------------------------------------------------------------------------
  // isValidInteger

  /** `hexString.match(/.*x0*(.*)$/)?.[1] ?? ""` for a hexadecimal rendering (which holds no line terminator). */
  function SignificantHexDigits(hex: string): string {
    if 'x' in hex then DropLeadingZeros(Last(Split(hex, 'x'))) else ""
  }

  function DropLeadingZeros(s: string): string
    decreases |s|
  {
    if s != "" && s[0] == '0' then DropLeadingZeros(s[1..]) else s
  }

  /** `parseInt(digits.slice(-1), 16)`: the value of the last hexadecimal digit; NaN (`None`) when there is none. */
  function LastHexDigit(digits: string): Option<nat> {
    if digits != "" && IsDigitIn(Last(digits), 16) then DigitOf(Last(digits)) else None
  }

  /** The width test of lines 121-124; a NaN bit count makes every comparison false. */
  predicate ExceedsBitCount(digits: string, signed: bool, bitcount: Option<int>) {
    match bitcount
    case None => false
    case Some(w) =>
      || |digits| * 4 > w
      || (signed && |digits| * 4 == w && LastHexDigit(digits).Some? && LastHexDigit(digits).value < 8)
  }

  /** `isValidInteger(dataType, value, strict)`, as written. */
  function IsValidInteger(dataType: string, value: InputValue, strict: bool): bool {
    var signed := IsSigned(dataType);
    match ToBigInt(value)
    case None =>
      if strict then false
      else if value.BigIntInput? || value.s == "" then true
      else if signed then MatchesSignedNumber(value.s) || value.s == "-"
      else MatchesUnsignedNumber(value.s)
    case Some(n) =>
      if !signed && n < 0 then false
      else !ExceedsBitCount(SignificantHexDigits(IntToRadixString(n, 16)), signed, BitCount(dataType))
  }

  /** `toString(16)` never writes an `x`, so the pattern never matches and the significant digits are always empty. */
  lemma SignificantHexDigitsAlwaysEmpty(n: int)
    ensures SignificantHexDigits(IntToRadixString(n, 16)) == ""
  {
    var mag := if n < 0 then -n else n;
    assert !IsDigitIn('x', 16);
    RadixStringHasNo(mag, 16, 'x');
    if n < 0 {
      assert IntToRadixString(n, 16) == "-" + RadixString(mag, 16);
    }
  }

  /** A value that does not coerce is always rejected in strict mode. */
  lemma StrictRejectsUncoercible(dataType: string, value: InputValue)
    requires ToBigInt(value).None?
    ensures !IsValidInteger(dataType, value, true)
  {
  }

  /**
   * In non-strict mode a value that does not coerce is accepted when it is
   * empty, or when it matches the signedness's grammar (or is `-` for a
   * signed type).
   */
  lemma NonStrictUncoercible(dataType: string, s: string)
    requires StringToBigInt(s).None?
    ensures IsValidInteger(dataType, StringInput(s), false)
            <==> (if IsSigned(dataType) then MatchesSignedNumber(s) || s == "-" else MatchesUnsignedNumber(s))
  {
    BlankCoercesToZero("");
  }

  /** What the grammars let through without coercing: only strings with a decimal point, and `-`. */
  lemma NonStrictAcceptsOnlyFractions(dataType: string, s: string)
    requires s != "" && StringToBigInt(s).None? && IsValidInteger(dataType, StringInput(s), false)
    ensures '.' in s || (IsSigned(dataType) && s == "-")
  {
    if '.' !in s && s != "-" {
      if MatchesSignedNumber(s) {
        GrammarWithoutDotCoerces(s);
      }
    }
  }

  /** An unsigned type rejects every negative value. */
  lemma UnsignedRejectsNegative(dataType: string, value: InputValue, strict: bool)
    requires !IsSigned(dataType) && ToBigInt(value).Some? && ToBigInt(value).value < 0
    ensures !IsValidInteger(dataType, value, strict)
  {
  }

  /**
   * As written the width is never checked: a value that coerces is accepted
   * unless it is negative for an unsigned type, or the bit count read from
   * the type is negative (`0 * 4 > bitcount`), which no enum member has.
   */
  lemma CoercibleAcceptedAsWritten(dataType: string, value: InputValue, strict: bool)
    requires ToBigInt(value).Some?
    ensures IsValidInteger(dataType, value, strict)
            <==> (IsSigned(dataType) || ToBigInt(value).value >= 0)
                 && !(BitCount(dataType).Some? && BitCount(dataType).value < 0)
  {
    SignificantHexDigitsAlwaysEmpty(ToBigInt(value).value);
  }

  /** For every enum member a coercible value is accepted unless it is negative for an unsigned type. */
  lemma EnumMemberIgnoresWidth(i: nat, value: InputValue, strict: bool)
    requires i < |IntegerVariants| && ToBigInt(value).Some?
    ensures IsValidInteger(IntegerVariants[i], value, strict)
            <==> IsSigned(IntegerVariants[i]) || ToBigInt(value).value >= 0
  {
    IntegerVariantsWellFormed(i);
    CoercibleAcceptedAsWritten(IntegerVariants[i], value, strict);
  }

  /** A type text whose suffix reads as a negative number, such as `int-8`, rejects every coercible value. */
  lemma NegativeSuffixRejects()
    ensures !IsValidInteger("int-8", StringInput("5"), true)
    ensures !IsValidInteger("uint-8", StringInput("5"), true)
  {
    assert "int-8"[..1] == "i" && "uint-8"[..1] == "u";
    assert "int-8"[3..] == "-" + "8" && "uint-8"[4..] == "-" + "8";
    assert IsDigitRun("8") && DigitsValue("8", 10) == 8 by { assert "8"[..0] == ""; }
    NegativeDecimalStringCoerces("8");
    assert IsDigitRun("5") && DigitsValue("5", 10) == 5 by { assert "5"[..0] == ""; }
    DecimalStringCoerces("5");
    CoercibleAcceptedAsWritten("int-8", StringInput("5"), true);
    CoercibleAcceptedAsWritten("uint-8", StringInput("5"), true);
  }

  /** So "256" passes as a `uint8` even in strict mode. */
  lemma Uint8Accepts256AsWritten()
    ensures IsValidInteger("uint8", StringInput("256"), true)
  {
    Uint8Coercions();
    EightBitCounts();
    CoercibleAcceptedAsWritten("uint8", StringInput("256"), true);
  }

  // ---------------------------------------------------------------------------
  // The range check the source evidently intends

  function Pow2(n: nat): (r: nat)
    ensures r >= 1
  {
    if n == 0 then 1 else 2 * Pow2(n - 1)
  }

  /** Representable in `bits` bits: two's complement when signed. */
  predicate InRange(n: int, signed: bool, bits: nat) {
    if signed then -(Pow2(bits) as int) <= 2 * n < Pow2(bits) else 0 <= n < Pow2(bits)
  }

  /** `isValidInteger` with the width test it is evidently meant to make. */
  function IsValidIntegerInRange(dataType: string, value: InputValue, strict: bool): bool {
    var signed := IsSigned(dataType);
    match ToBigInt(value)
    case None => IsValidInteger(dataType, value, strict)
    case Some(n) =>
      match BitCount(dataType)
      case None => signed || n >= 0
      case Some(w) => w >= 0 && InRange(n, signed, w)
  }

  /**
   * For a type of width `w`, every representable value is accepted and the
   * values one beyond either bound are rejected.
   */
  lemma InRangeBounds(dataType: string, w: nat, n: int)
    requires BitCount(dataType) == Some(w) && w >= 1
    ensures var lo := if IsSigned(dataType) then -(Pow2(w - 1) as int) else 0;
            var hi := if IsSigned(dataType) then Pow2(w - 1) - 1 else Pow2(w) - 1;
            && (IsValidIntegerInRange(dataType, BigIntInput(n), true) <==> lo <= n <= hi)
            && !IsValidIntegerInRange(dataType, BigIntInput(lo - 1), true)
            && !IsValidIntegerInRange(dataType, BigIntInput(hi + 1), true)
  {
    assert Pow2(w) == 2 * Pow2(w - 1);
  }

  /** `uint8` and `int8` have a bit count of 8. */
  lemma EightBitCounts()
    ensures BitCount("uint8") == Some(8) && BitCount("int8") == Some(8)
    ensures !IsSigned("uint8") && IsSigned("int8")
  {
    assert "uint8"[..1] == "u" && "uint8"[4..] == "8";
    assert "int8"[..1] == "i" && "int8"[3..] == "8";
    assert IsDigitRun("8") && DigitsValue("8", 10) == 8 by { assert "8"[..0] == ""; }
    DecimalStringCoerces("8");
  }

  /** A string is judged as the bigint it coerces to. */
  lemma SameAsCoerced(dataType: string, s: string, n: int, strict: bool)
    requires StringToBigInt(s) == Some(n)
    ensures IsValidIntegerInRange(dataType, StringInput(s), strict) == IsValidIntegerInRange(dataType, BigIntInput(n), strict)
  {
  }

  lemma Uint8Coercions()
    ensures StringToBigInt("256") == Some(256) && StringToBigInt("255") == Some(255)
  {
    assert DigitsValue("256", 10) == 256 by {
      assert "256"[..2] == "25" && "25"[..1] == "2" && "2"[..0] == "";
    }
    assert DigitsValue("255", 10) == 255 by {
      assert "255"[..2] == "25" && "25"[..1] == "2" && "2"[..0] == "";
    }
    DecimalStringCoerces("256");
    DecimalStringCoerces("255");
  }

  /** The boundary cases of `uint8`: 255 is accepted, 256 is not. */
  lemma Uint8Boundaries()
    ensures !IsValidIntegerInRange("uint8", StringInput("256"), true)
    ensures IsValidIntegerInRange("uint8", StringInput("255"), true)
  {
    EightBitCounts();
    Uint8Coercions();
    SameAsCoerced("uint8", "256", 256, true);
    SameAsCoerced("uint8", "255", 255, true);
    assert Pow2(8) == 256;
    InRangeBounds("uint8", 8, 255);
  }

  lemma Int8Coercions()
    ensures StringToBigInt("-129") == Some(-129) && StringToBigInt("-128") == Some(-128)
  {
    Int8Magnitudes();
    NegativeDecimalStringCoerces("129");
    NegativeDecimalStringCoerces("128");
    assert "-" + "129" == "-129" && "-" + "128" == "-128";
  }

  /** The digit runs `129` and `128` and their values. */
  lemma Int8Magnitudes()
    ensures IsDigitRun("129") && DigitsValue("129", 10) == 129
    ensures IsDigitRun("128") && DigitsValue("128", 10) == 128
  {
    assert "129"[..2] == "12" && "128"[..2] == "12" && "12"[..1] == "1" && "1"[..0] == "";
  }

  /** The boundary cases of `int8`: -128 is accepted, -129 is not. */
  lemma Int8Boundaries()
    ensures !IsValidIntegerInRange("int8", StringInput("-129"), true)
    ensures IsValidIntegerInRange("int8", StringInput("-128"), true)
  {
    EightBitCounts();
    Int8Coercions();
    SameAsCoerced("int8", "-129", -129, true);
    SameAsCoerced("int8", "-128", -128, true);
    assert Pow2(4) == 16;
    assert Pow2(7) == 128;
    InRangeBounds("int8", 8, -128);
  }

  // ---------------------------------------------------------------------------
  // isENS

  /** A `.` at position i with a character that is no line terminator on each side. */
  predicate DotBetween(s: string, i: int) {
    0 < i < |s| - 1 && s[i] == '.' && !IsLineTerminator(s[i - 1]) && !IsLineTerminator(s[i + 1])
  }

  /** Such a dot is found at position 1, or further on in the text after the first character. */
  lemma DotBetweenShift(s: string)
    requires |s| >= 3
    ensures (exists i :: DotBetween(s, i)) <==> DotBetween(s, 1) || exists j :: DotBetween(s[1..], j)
  {
    var rest := s[1..];
    if j :| DotBetween(rest, j) {
      assert s[j + 1] == rest[j] && s[j] == rest[j - 1] && s[j + 2] == rest[j + 1];
      assert DotBetween(s, j + 1);
    }
    if i :| DotBetween(s, i) && i != 1 {
      assert rest[i - 1] == s[i] && rest[i - 2] == s[i - 1] && rest[i] == s[i + 1];
      assert DotBetween(rest, i - 1);
    }
  }

  /**
   * `/.+\..+/.test(address)`: somewhere a `.` has a character on each side
   * that is not a line terminator. The default argument is `""`.
   */
  function IsEns(address: string): (r: bool)
    ensures r <==> exists i :: DotBetween(address, i)
    decreases |address|
  {
    if |address| < 3 then false
    else
      DotBetweenShift(address);
      DotBetween(address, 1) || IsEns(address[1..])
  }
}
