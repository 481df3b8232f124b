# Scaffold-ETH 2 front-end core, modelled in Dafny

This project models the logic at the core of the Scaffold-ETH 2 Next.js front-end. Each module below follows one source file.

- `InputUtils`: the Solidity integer variants and the `isValidInteger` check of contract-form inputs. It follows JavaScript `BigInt` string coercion and the two number regular expressions. A second, range-correct version of the check sits beside the one as written. It also holds the ENS-name test.
- `ContractUtils`: the contract-form helpers.
  - The key of a function input, and the initial form built from those keys (a method with a loop).
  - An argument parser that turns form fields into call arguments: JSON for arrays and tuples, 1/0 for booleans, failed fields dropped.
  - The error-message extractor.
- `ContractInput`: the choice of input widget for an ABI type, the placeholder, and the per-field form update.
- `DisplayUtils`: the renderer of call results. It is a branch-ordered classification of a JavaScript value, and it recurses through arrays in text mode.
- `ContractReadMethods`, `ContractVariables`, `ContractWriteMethods`: the three method lists that divide an ABI's functions. Each is a two-stage filter, and the write list has per-position React keys.
- `TokenDetails`: the token-details form of the example page, a class with two maps. It covers field validation, the error map, and the tuple string built for copying.
- `Pagination`: the block explorer's previous and next buttons.
- `ContractLogs`: the contract-log buffer, a class with a sequence field. The initial fetch replaces it; new blocks append to it and keep the last 100.
- `AutoConnect`: the choice of wallet connector on mount, and the stored wallet id kept in step with the account.
- `BurnerWallet`: the burner wallet's private key in local storage.

Shared modules model JavaScript built-ins the core relies on:

- `Wrappers`: `Option`.
- `JsStrings`: `trim` white space, `split`/`join`, `includes`, `replaceAll`, and `toString(radix)`.
- `JsArrays`: `filter` and `find`.
- `Records`: objects as insertion-ordered key/value lists, since `Object.keys` order decides the argument order.

Some inputs the source gets from libraries or the browser are parameters of the model:

- `JSON.parse`, and `JSON.stringify` with the project's `replacer`.
- viem's `formatEther`.
- The generated default burner key.
- Whether a browser window exists.
- The scaffold configuration.
- The burner connector's id and chain.
- The results of RPC log requests.

Local storage is a map from keys to strings.

Two properties a reader of the code would expect do not hold, and the model follows the code on both:

- Form-field keys are unique. The key of `getFunctionInputKey` (utilsContract.tsx:11-14) can collide when parameter names contain `_` (`ContractUtils.NamedKeysCanCollide`), or when two parameters have the empty name (`ContractUtils.EmptyNamesCollide`, see Findings). Keys are proved distinct for parameters without a name (`ContractUtils.UnnamedKeysDistinct`).
- `isValidInteger` checks "the correct bit length", as its doc comment says (utils.ts:80). As written, it never rejects a coercible value for its width (see Findings). Its signed test reads the last hexadecimal digit (`slice(-1)`, utils.ts:123); `InputUtils.LastHexDigit` follows the code.

## Operations

Each operation of the core is a function or method of the model. This table names, for each, the members in "## Model" whose contracts state what it does.

| operation | source | stated by |
|---|---|---|
| InputUtils.IsSigned, InputUtils.BitCount | packages/nextjs/components/scaffold-eth/Input/utils.ts:88-89 | VariantNameParts, IntegerVariantsWellFormed, NegativeSuffixRejects |
| InputUtils.StringToBigInt | packages/nextjs/components/scaffold-eth/Input/utils.ts:94-98 | DecimalStringCoerces, NegativeDecimalStringCoerces, BigIntOfDecimalRoundTrip, DigitsInRoundTrip, DotStringDoesNotCoerce, MinusDoesNotCoerce, BlankCoercesToZero |
| InputUtils.MatchesSignedNumber, InputUtils.MatchesUnsignedNumber | packages/nextjs/components/scaffold-eth/Input/utils.ts:73-76 | UnsignedGrammarInSigned, GrammarWithoutDotCoerces, NonStrictUncoercible |
| InputUtils.IsValidInteger | packages/nextjs/components/scaffold-eth/Input/utils.ts:87-129 | StrictRejectsUncoercible, NonStrictUncoercible, NonStrictAcceptsOnlyFractions, UnsignedRejectsNegative, CoercibleAcceptedAsWritten, EnumMemberIgnoresWidth, Uint8Accepts256AsWritten |
| InputUtils.IsValidIntegerInRange | packages/nextjs/components/scaffold-eth/Input/utils.ts:116-126 | InRangeBounds, Uint8Boundaries, Int8Boundaries |
| ContractUtils.FunctionInputKey | packages/nextjs/components/scaffold-eth/Contract/utilsContract.tsx:11-14 | UnnamedKeyShape, UnnamedKeysDistinct, NamedKeysCanCollide, EmptyNamesCollide, BaseTypeOfKey |
| ContractUtils.InitialFormState | packages/nextjs/components/scaffold-eth/Contract/utilsContract.tsx:65-75 | its own contract, EmptyFormKeys, EmptyFormValues, EmptyFormDistinct, EmptyFormOrder, UnnamedInitialForm |
| ContractUtils.ParseField, ContractUtils.ParsedContractFunctionArgs | packages/nextjs/components/scaffold-eth/Contract/utilsContract.tsx:39-58 | ParsedArgsConcat, ParsedArgsNoFailure, FailedFieldDropped, BoolField, OtherFieldPassesThrough |
| ContractUtils.ParsedError | packages/nextjs/components/scaffold-eth/Contract/utilsContract.tsx:21-29 | FirstPresent, FirstPresentCons, ParsedErrorChoice |
| ContractInput.SelectWidget | packages/nextjs/components/scaffold-eth/Contract/ContractInput.tsx:32-45 | ExactTypes, IntegerWidgetChoice, FallbackIsText, IntegerArraysAreText, IntegerVariantsGetIntegerWidget |
| ContractInput.OnChange | packages/nextjs/components/scaffold-eth/Contract/ContractInput.tsx:25-29 | OnChangeUpdatesOneField |
| TokenDetails.ValidateOwner | packages/nextjs/pages/example-ui.tsx:65-70 | OwnerAccepted, ZeroAddressRejected |
| TokenDetails.ValidateName | packages/nextjs/pages/example-ui.tsx:72-79 | NameAccepted, BlankNameRequired |
| TokenDetails.FieldError | packages/nextjs/pages/example-ui.tsx:46-63 | ErrorsAfterChange, TokenDetailsForm.ValidateField |
| TokenDetails.Segments, TokenDetails.ComplianceList, TokenDetails.AgentList | packages/nextjs/pages/example-ui.tsx:88-98 | ListShapes, AgentElementsTrimmed, NoSegments, EmptyListRendering |
| TokenDetails.TupleString | packages/nextjs/pages/example-ui.tsx:100 | TupleFields, TupleLayout, TokenDetailsForm.HandleCopy |
| AutoConnect.GetInitialConnector | packages/nextjs/hooks/scaffold-eth/useAutoConnect.ts:16-39 | SafeConnectorFirst, FirstVisitChoosesBurner, FirstVisitForbiddenBurner, ReconnectsPreviousWallet, AutoConnectOff, ForbiddenBurnerNeverChosen |
| AutoConnect.ConnectRequest | packages/nextjs/hooks/scaffold-eth/useAutoConnect.ts:62-67 | ConnectRequestIff |
| AutoConnect.InitialWalletId | packages/nextjs/hooks/scaffold-eth/useAutoConnect.ts:45-46 | StoredIdIsRecovered, WagmiFallback, WalletIdStore.constructor |
| BurnerWallet.IsValidSk | packages/nextjs/hooks/scaffold-eth/useBurnerWallet.ts:9-11 | IsValidSkIff |
| BurnerWallet.Load, BurnerWallet.Saved | packages/nextjs/hooks/scaffold-eth/useBurnerWallet.ts:15-33 | CurrentSk, ValidKeyIsReturned, QuotedKeyLoads, InvalidKeyFallsBack, NoWindowGivesDefault, LoadIdempotent, BurnerKeyStore.LoadBurnerSK |

## Model

| member | source | states |
|---|---|---|
| InputUtils.VariantNameParts | packages/nextjs/components/scaffold-eth/Input/utils.ts:88-89 | a variant name read back gives its signedness (a leading `i`) and its bit count (the digits after `int`/`uint`) |
| InputUtils.WidthFacts | packages/nextjs/components/scaffold-eth/Input/utils.ts:2-70 | every enum position has a width that is a multiple of 8 in 8..256, equal to the width of its signed/unsigned twin |
| InputUtils.IntegerVariantsWellFormed | packages/nextjs/components/scaffold-eth/Input/utils.ts:2-70 | each variant parses to a width that is a multiple of 8 in 8..256; it is named by its signedness and width, and its twin of the other signedness is also a variant |
| InputUtils.IntegerVariantsDistinct | packages/nextjs/components/scaffold-eth/Input/utils.ts:2-70 | the 64 variant names are pairwise distinct |
| InputUtils.DigitsInRoundTrip | packages/nextjs/components/scaffold-eth/Input/utils.ts:95 | the digits `toString(radix)` writes for a number read back as that number in the same radix |
| InputUtils.BigIntOfDecimalRoundTrip | packages/nextjs/components/scaffold-eth/Input/utils.ts:95 | `BigInt` of the decimal text of any integer, negative ones included, is that integer |
| InputUtils.DecimalStringCoerces | packages/nextjs/components/scaffold-eth/Input/utils.ts:94-95 | a run of decimal digits coerces to its decimal value |
| InputUtils.NegativeDecimalStringCoerces | packages/nextjs/components/scaffold-eth/Input/utils.ts:94-95 | `-` followed by decimal digits coerces to minus their value |
| InputUtils.DigitsInFailsOn | packages/nextjs/components/scaffold-eth/Input/utils.ts:94-98 | a digit run holding a character that is no hex digit fails to coerce in any radix up to 16 |
| InputUtils.DotStringDoesNotCoerce | packages/nextjs/components/scaffold-eth/Input/utils.ts:94-98 | any string containing `.` makes `BigInt` throw |
| InputUtils.MinusDoesNotCoerce | packages/nextjs/components/scaffold-eth/Input/utils.ts:94-98 | the lone `-` makes `BigInt` throw |
| InputUtils.BlankCoercesToZero | packages/nextjs/components/scaffold-eth/Input/utils.ts:95 | the empty or all-white-space string coerces to 0 |
| InputUtils.UnsignedGrammarInSigned | packages/nextjs/components/scaffold-eth/Input/utils.ts:73-76 | every string matching the unsigned number pattern matches the signed one |
| InputUtils.GrammarWithoutDotCoerces | packages/nextjs/components/scaffold-eth/Input/utils.ts:73-76 | a string of the signed pattern without a decimal point always coerces, so only fractions reach the pattern test |
| InputUtils.SignificantHexDigitsAlwaysEmpty | packages/nextjs/components/scaffold-eth/Input/utils.ts:117-118 | the `.*x0*(.*)$` match on `toString(16)` never succeeds, so the significant digits are always empty |
| InputUtils.StrictRejectsUncoercible | packages/nextjs/components/scaffold-eth/Input/utils.ts:101-104 | in strict mode a value that does not coerce is rejected |
| InputUtils.NonStrictUncoercible | packages/nextjs/components/scaffold-eth/Input/utils.ts:105-108 | in non-strict mode an uncoercible string is accepted iff it matches the signed pattern or is `-` (signed types), or matches the unsigned pattern (unsigned types) |
| InputUtils.NonStrictAcceptsOnlyFractions | packages/nextjs/components/scaffold-eth/Input/utils.ts:105-108 | an uncoercible, non-empty string accepted in non-strict mode contains `.`, or is `-` for a signed type |
| InputUtils.UnsignedRejectsNegative | packages/nextjs/components/scaffold-eth/Input/utils.ts:111-114 | an unsigned type rejects every negative coerced value, strict or not |
| InputUtils.CoercibleAcceptedAsWritten | packages/nextjs/components/scaffold-eth/Input/utils.ts:88-128 | as written, a coercible value is accepted iff the type is signed or the value is not negative, and the bit count read from the type is not a negative number |
| InputUtils.EnumMemberIgnoresWidth | packages/nextjs/components/scaffold-eth/Input/utils.ts:111-128 | for every integer variant, a coercible value is accepted iff the type is signed or the value is not negative, whatever its width |
| InputUtils.NegativeSuffixRejects | packages/nextjs/components/scaffold-eth/Input/utils.ts:89-125 | a type whose suffix `Number` reads as negative (`int-8`, `uint-8`) rejects a coercible value |
| InputUtils.Uint8Accepts256AsWritten | packages/nextjs/components/scaffold-eth/Input/utils.ts:116-128 | as written, `"256"` passes as a `uint8` in strict mode |
| InputUtils.InRangeBounds | packages/nextjs/components/scaffold-eth/Input/utils.ts:116-126 | the corrected check accepts a value of an N-bit type exactly when it lies in [-2^(N-1), 2^(N-1)-1] (signed) or [0, 2^N-1] (unsigned), and rejects the two values one beyond the bounds |
| InputUtils.Uint8Boundaries | packages/nextjs/components/scaffold-eth/Input/utils.ts:116-126 | the corrected check accepts `"255"` and rejects `"256"` for `uint8` |
| InputUtils.Int8Boundaries | packages/nextjs/components/scaffold-eth/Input/utils.ts:116-126 | the corrected check accepts `"-128"` and rejects `"-129"` for `int8` |
| InputUtils.IsEns | packages/nextjs/components/scaffold-eth/Input/utils.ts:137-138 | a name is ENS-like iff some `.` has a character that is no line terminator on each side |
| ContractUtils.UnderscoreAfterRun | packages/nextjs/components/scaffold-eth/Contract/utilsContract.tsx:12 | the first `_` in an underscore-free run followed by `_` sits right after the run |
| ContractUtils.SameRunBeforeUnderscore | packages/nextjs/components/scaffold-eth/Contract/utilsContract.tsx:12-13 | two strings that agree and each start with an underscore-free run before a `_` have equal runs |
| ContractUtils.UnnamedKeyShape | packages/nextjs/components/scaffold-eth/Contract/utilsContract.tsx:11-14 | the key of an unnamed parameter is `fn_input_<index>__<internalType>_<type>` |
| ContractUtils.UnnamedKeysDistinct | packages/nextjs/components/scaffold-eth/Contract/utilsContract.tsx:11-14 | unnamed parameters at different positions get different keys |
| ContractUtils.EmptyNamesCollide | packages/nextjs/components/scaffold-eth/Contract/utilsContract.tsx:11-14 | two parameters named `""` of one type at different positions share a key |
| ContractUtils.CorrectedKeysDistinct | packages/nextjs/components/scaffold-eth/Contract/utilsContract.tsx:11-14 | with the empty name taken as absent, parameters without a name or with the empty one at different positions get different keys |
| ContractUtils.NamedKeysCanCollide | packages/nextjs/components/scaffold-eth/Contract/utilsContract.tsx:11-14 | two different named parameters (`a` / `b_c` and `a_b` / `c`) of one function share a key |
| ContractUtils.BaseTypeOfKey | packages/nextjs/components/scaffold-eth/Contract/utilsContract.tsx:42-43 | the text after a key's last `_` is the input's type, when that type has no `_` |
| ContractUtils.EmptyFormKeys | packages/nextjs/components/scaffold-eth/Contract/utilsContract.tsx:66-72 | the initial form has exactly the given keys |
| ContractUtils.EmptyFormValues | packages/nextjs/components/scaffold-eth/Contract/utilsContract.tsx:71 | every key maps to the empty string |
| ContractUtils.EmptyFormDistinct | packages/nextjs/components/scaffold-eth/Contract/utilsContract.tsx:66-72 | the form holds each key once, even when keys repeat |
| ContractUtils.EmptyFormOrder | packages/nextjs/components/scaffold-eth/Contract/utilsContract.tsx:69-72 | with distinct keys, the form lists them in input order |
| ContractUtils.InitialFormState | packages/nextjs/components/scaffold-eth/Contract/utilsContract.tsx:65-75 | no inputs give the empty form; otherwise the loop builds the form that maps each input's key to "" |
| ContractUtils.UnnamedInitialForm | packages/nextjs/components/scaffold-eth/Contract/utilsContract.tsx:65-75 | for unnamed inputs the form lists every input's key in order, each with value "" |
| ContractUtils.ParsedContractFunctionArgs | packages/nextjs/components/scaffold-eth/Contract/utilsContract.tsx:39-58 | there are never more arguments than form fields |
| ContractUtils.ParsedArgsConcat | packages/nextjs/components/scaffold-eth/Contract/utilsContract.tsx:40-57 | parsing keeps form order: the arguments of two form parts are those of each, one after the other |
| ContractUtils.ParsedArgsNoFailure | packages/nextjs/components/scaffold-eth/Contract/utilsContract.tsx:40-57 | when no field fails, there is one argument per field, each that field's parsed value |
| ContractUtils.FailedFieldDropped | packages/nextjs/components/scaffold-eth/Contract/utilsContract.tsx:46-57 | an array or tuple field whose JSON does not parse is dropped, and only that field |
| ContractUtils.BoolField | packages/nextjs/components/scaffold-eth/Contract/utilsContract.tsx:48-50 | a `bool` field becomes 1 exactly for `true`, `1`, `0x1`, `0x01`, `0x0001`, and 0 otherwise |
| ContractUtils.OtherFieldPassesThrough | packages/nextjs/components/scaffold-eth/Contract/utilsContract.tsx:44-52 | a field of any other type is passed on unchanged |
| ContractUtils.ArrayTypeOfSuffix | packages/nextjs/components/scaffold-eth/Contract/utilsContract.tsx:32 | a type ending in `[size]` matches the array pattern |
| ContractUtils.FirstPresent | packages/nextjs/components/scaffold-eth/Contract/utilsContract.tsx:22-25 | the `??` chain gives the first present candidate, or the fallback when none is present |
| ContractUtils.FirstPresentCons | packages/nextjs/components/scaffold-eth/Contract/utilsContract.tsx:25 | the chain is one `??` in front of the rest of the chain |
| ContractUtils.ParsedErrorChoice | packages/nextjs/components/scaffold-eth/Contract/utilsContract.tsx:21-29 | a viem error reports the first present of details, shortMessage, message and name; another error its message; failing those, "An unknown error occurred" |
| ContractInput.ExactTypes | packages/nextjs/components/scaffold-eth/Contract/ContractInput.tsx:32-40 | `address`, `bytes32`, `bytes` and `string` get their own widgets |
| ContractInput.IntegerWidgetChoice | packages/nextjs/components/scaffold-eth/Contract/ContractInput.tsx:41-44 | the integer widget is chosen iff the type is none of the four exact types, contains `int` and has no `[`; its variant is the type |
| ContractInput.FallbackIsText | packages/nextjs/components/scaffold-eth/Contract/ContractInput.tsx:41-45 | every other type gets the plain text widget |
| ContractInput.IntegerArraysAreText | packages/nextjs/components/scaffold-eth/Contract/ContractInput.tsx:42-45 | array types, integer arrays included, get the plain text widget |
| ContractInput.IntegerVariantsGetIntegerWidget | packages/nextjs/components/scaffold-eth/Contract/ContractInput.tsx:42-43 | every integer variant gets the integer widget with itself as variant |
| ContractInput.Placeholder | packages/nextjs/components/scaffold-eth/Contract/ContractInput.tsx:26 | the placeholder starts with the type; it is the type alone iff the name is absent or empty, and otherwise the type, a space and the name |
| ContractInput.OnChangeUpdatesOneField | packages/nextjs/components/scaffold-eth/Contract/ContractInput.tsx:25-29 | after a change the field has the new value, every other field keeps its value, and the key set gains at most that key |
| DisplayUtils.DisplayTxResult | packages/nextjs/components/scaffold-eth/Contract/utilsDisplay.tsx:22-60 | in text mode the result is always text or a number |
| DisplayUtils.MostReadable | packages/nextjs/components/scaffold-eth/Contract/utilsDisplay.tsx:46-47 | numbers and booleans are kept; everything else becomes a string or number |
| DisplayUtils.DisplayTxResultAsText | packages/nextjs/components/scaffold-eth/Contract/utilsDisplay.tsx:63 | the text rendering is text or a number |
| DisplayUtils.NullishIsEmpty | packages/nextjs/components/scaffold-eth/Contract/utilsDisplay.tsx:26-28 | `null` and `undefined` render as the empty string |
| DisplayUtils.BigIntRendering | packages/nextjs/components/scaffold-eth/Contract/utilsDisplay.tsx:31-37 | a bigint renders as a number iff it is a safe integer, as itself; otherwise as `Ξ` and its formatted Ether amount |
| DisplayUtils.SafeRangeBoundaries | packages/nextjs/components/scaffold-eth/Contract/utilsDisplay.tsx:33 | ±(2^53-1) render as numbers, 2^53 as Ether text |
| DisplayUtils.AddressRendering | packages/nextjs/components/scaffold-eth/Contract/utilsDisplay.tsx:40-42 | a `0x` string of 42 characters renders as itself in text mode and as an address element otherwise |
| DisplayUtils.DefaultIsIndentedJson | packages/nextjs/components/scaffold-eth/Contract/utilsDisplay.tsx:58-59 | numbers, booleans, objects and non-address strings render as indented JSON |
| DisplayUtils.ReadableItemsArePrimitive | packages/nextjs/components/scaffold-eth/Contract/utilsDisplay.tsx:46-49 | every mapped element is a number, boolean or string, so nesting is flattened to text |
| DisplayUtils.ArrayElements | packages/nextjs/components/scaffold-eth/Contract/utilsDisplay.tsx:46-47 | inside an array, addresses stay strings and safe bigints become numbers |
| DisplayUtils.CommaLinesRoundTrip | packages/nextjs/components/scaffold-eth/Contract/utilsDisplay.tsx:54 | replacing `,` by `,\n` loses nothing: removing the inserted line breaks gives the JSON back |
| DisplayUtils.CommasBreakLines | packages/nextjs/components/scaffold-eth/Contract/utilsDisplay.tsx:54 | after replacing `,` by `,\n`, every comma is followed by a line break |
| DisplayUtils.CommaLinesDetermine | packages/nextjs/components/scaffold-eth/Contract/utilsDisplay.tsx:54 | a text in which every comma is followed by a line break is the replacement of its joined lines, so the two properties fix the rendering |
| DisplayUtils.ArrayRendering | packages/nextjs/components/scaffold-eth/Contract/utilsDisplay.tsx:45-56 | an array renders in text mode as the JSON of its readable items, and otherwise as a span whose text has a line break after every comma and joins back to that JSON (by CommaLinesDetermine, exactly the JSON with a line break after each comma) |
| ContractReadMethods.ReadSelection | packages/nextjs/components/scaffold-eth/Contract/ContractReadMethods.tsx:13-20 | an entry is listed iff it is a view or pure function with at least one input |
| ContractReadMethods.ReadSelectionKeepsOrder | packages/nextjs/components/scaffold-eth/Contract/ContractReadMethods.tsx:14-19 | the list keeps ABI order |
| ContractReadMethods.ReadListing | packages/nextjs/components/scaffold-eth/Contract/ContractReadMethods.tsx:7-31 | no ABI renders nothing; "No read methods" shows iff no entry qualifies; otherwise the non-empty list of read functions |
| ContractVariables.VariableSelection | packages/nextjs/components/scaffold-eth/Contract/ContractVariables.tsx:19-26 | an entry is listed iff it is a view or pure function without inputs |
| ContractVariables.VariableSelectionKeepsOrder | packages/nextjs/components/scaffold-eth/Contract/ContractVariables.tsx:20-25 | the list keeps ABI order |
| ContractVariables.VariableListing | packages/nextjs/components/scaffold-eth/Contract/ContractVariables.tsx:13-42 | no ABI renders nothing; "No contract variables" shows iff no entry qualifies; otherwise the non-empty list of variables |
| ContractWriteMethods.WriteSelection | packages/nextjs/components/scaffold-eth/Contract/ContractWriteMethods.tsx:19-26 | an entry is listed iff it is a function that is neither view nor pure |
| ContractWriteMethods.WriteSelectionKeepsOrder | packages/nextjs/components/scaffold-eth/Contract/ContractWriteMethods.tsx:20-25 | the list keeps ABI order |
| ContractWriteMethods.WriteListing | packages/nextjs/components/scaffold-eth/Contract/ContractWriteMethods.tsx:13-42 | no ABI renders nothing; "No write methods" shows iff no entry qualifies; otherwise the non-empty list of write functions |
| ContractWriteMethods.ElementKeyIndex | packages/nextjs/components/scaffold-eth/Contract/ContractWriteMethods.tsx:36 | the text after the last `-` of a form's key is its position |
| ContractWriteMethods.ElementKeysDistinct | packages/nextjs/components/scaffold-eth/Contract/ContractWriteMethods.tsx:34-36 | forms at different positions have different keys, even for overloaded names |
| ContractWriteMethods.ExactlyOneList | packages/nextjs/components/scaffold-eth/Contract/ContractWriteMethods.tsx:24 | a function is a write method iff it is neither a read method nor a variable, and never both of those |
| ContractWriteMethods.ListsPartitionFunctions | packages/nextjs/components/scaffold-eth/Contract/ContractWriteMethods.tsx:20-25 | the three lists together hold as many entries as the ABI has functions |
| TokenDetails.OwnerAccepted | packages/nextjs/pages/example-ui.tsx:65-70 | the owner is accepted iff it is `0x` and 40 hex digits and not the zero address; a malformed one gets the format error |
| TokenDetails.ZeroAddressRejected | packages/nextjs/pages/example-ui.tsx:68 | the zero address is well-formed but rejected with its own message |
| TokenDetails.NameAccepted | packages/nextjs/pages/example-ui.tsx:72-79 | a name is accepted iff it has 1..100 characters, all letters, digits, white space, `-` or `_`, and one of them is not white space |
| TokenDetails.BlankNameRequired | packages/nextjs/pages/example-ui.tsx:73 | an empty or blank name gets "Name is required." |
| TokenDetails.QuoteAll | packages/nextjs/pages/example-ui.tsx:92 | element i of the result is element i of the input between double quotes, and there are as many |
| TokenDetails.QuoteAllTrimmed | packages/nextjs/pages/example-ui.tsx:97-98 | element i of the result is element i of the input trimmed and between double quotes, and there are as many |
| TokenDetails.QuotedJoin | packages/nextjs/pages/example-ui.tsx:92-97 | joining with `","` inside outer quotes is joining the quoted segments with `,` |
| TokenDetails.ListShapes | packages/nextjs/pages/example-ui.tsx:88-98 | a compliance list is its segments quoted, joined by `,` and bracketed; a bracketed agent list is the compliance rendering of its trimmed segments |
| TokenDetails.AgentElementsTrimmed | packages/nextjs/pages/example-ui.tsx:97-98 | every agent element is a quoted text that neither starts nor ends with white space |
| TokenDetails.NoSegments | packages/nextjs/pages/example-ui.tsx:88-89 | a list has no segments iff its text is only commas |
| TokenDetails.EmptyListRendering | packages/nextjs/pages/example-ui.tsx:91-98 | an all-comma list renders as `[]` (compliance) or nothing between the brackets (agents) |
| TokenDetails.TupleFields | packages/nextjs/pages/example-ui.tsx:100 | field i of the tuple comes from the i-th declared field: quoted for the five texts, bare for `decimals`, bracketed agent lists at 6 and 7, compliance lists at 8 and 9 |
| TokenDetails.TupleLayout | packages/nextjs/pages/example-ui.tsx:100 | the tuple string is its ten fields joined by `, ` inside brackets |
| TokenDetails.TokenDetailsForm.constructor | packages/nextjs/pages/example-ui.tsx:21-33 | every field starts empty and there are no errors |
| TokenDetails.TokenDetailsForm.ValidateField | packages/nextjs/pages/example-ui.tsx:46-63 | the field's error is replaced by its validation result; the details are unchanged |
| TokenDetails.TokenDetailsForm.HandleChange | packages/nextjs/pages/example-ui.tsx:36-43 | the field's value and its error are updated, nothing else, and all ten fields stay present |
| TokenDetails.TokenDetailsForm.HandleCopy | packages/nextjs/pages/example-ui.tsx:82-100 | no tuple iff some error is non-empty; otherwise the tuple string of the current details |
| TokenDetails.ErrorsAfterChange | packages/nextjs/pages/example-ui.tsx:59-62 | editing one field never clears another field's error, and fields without a validator get an empty error |
| Pagination.PageCount | packages/nextjs/components/blockexplorer/PaginationButton.tsx:9-13 | the page count is the ceiling of the item count over 20: enough pages for all items, with none left over |
| Pagination.PageCountValues | packages/nextjs/components/blockexplorer/PaginationButton.tsx:13 | no items give no pages, some items at least one, and 20 more items one more page |
| Pagination.HiddenOnFirstPage | packages/nextjs/components/blockexplorer/PaginationButton.tsx:12-15 | on page 0 nothing renders iff there are at most 20 items |
| Pagination.NextDisabledOnLastPage | packages/nextjs/components/blockexplorer/PaginationButton.tsx:13 | on a page in range, next is disabled iff it is the last page |
| Pagination.MovesStayInRange | packages/nextjs/components/blockexplorer/PaginationButton.tsx:12-31 | enabled prev and next move to pages in range, and the label `currentPage + 1` lies in 1..page count |
| ContractLogs.KeepLast | packages/nextjs/hooks/scaffold-eth/useContractLogs.ts:46 | `slice(-100)` keeps the last min(100, length) entries |
| ContractLogs.AfterBlockBounds | packages/nextjs/hooks/scaffold-eth/useContractLogs.ts:44-47 | after a block update at most 100 logs remain, and nothing is dropped while old and new fit in 100 |
| ContractLogs.NewLogsAreKept | packages/nextjs/hooks/scaffold-eth/useContractLogs.ts:44-47 | at most 100 new logs are all kept, as the end of the buffer |
| ContractLogs.LogBuffer.constructor | packages/nextjs/hooks/scaffold-eth/useContractLogs.ts:8-9 | the buffer starts empty and not loading |
| ContractLogs.LogBuffer.FetchLogs | packages/nextjs/hooks/scaffold-eth/useContractLogs.ts:13-26 | fetched logs replace the buffer untruncated; a failed fetch leaves it; loading ends false |
| ContractLogs.LogBuffer.OnBlockNumber | packages/nextjs/hooks/scaffold-eth/useContractLogs.ts:34-48 | only a higher block number with logs updates the buffer, to the last 100 of old then new |
| AutoConnect.AllowBurnerIff | packages/nextjs/hooks/scaffold-eth/useAutoConnect.ts:18 | the burner is allowed iff the local-only restriction is off or the target is hardhat (31337) |
| AutoConnect.SafeConnectorFirst | packages/nextjs/hooks/scaffold-eth/useAutoConnect.ts:20-22 | the first ready `safe` connector is chosen, with no chain id, before every other rule |
| AutoConnect.FirstVisitChoosesBurner | packages/nextjs/hooks/scaffold-eth/useAutoConnect.ts:24-28 | with no previous wallet, an allowed burner and auto-connect on, the burner connector (present iff some connector has its id) is chosen with the default burner chain |
| AutoConnect.ReconnectsPreviousWallet | packages/nextjs/hooks/scaffold-eth/useAutoConnect.ts:30-38 | with a previous wallet and auto-connect on, a choice is made iff a connector has that id and it is not a forbidden burner; the choice is that connector, without a chain |
| AutoConnect.AutoConnectOff | packages/nextjs/hooks/scaffold-eth/useAutoConnect.ts:24-38 | with auto-connect off and no ready safe connector, nothing is chosen |
| AutoConnect.FirstVisitForbiddenBurner | packages/nextjs/hooks/scaffold-eth/useAutoConnect.ts:24-39 | with no previous wallet, no ready safe connector and the burner forbidden, nothing is chosen |
| AutoConnect.ForbiddenBurnerNeverChosen | packages/nextjs/hooks/scaffold-eth/useAutoConnect.ts:16-39 | when the burner is forbidden, a chosen connector with the burner's id can only be a ready safe connector |
| AutoConnect.ConnectRequestIff | packages/nextjs/hooks/scaffold-eth/useAutoConnect.ts:62-67 | connect is called iff a connector was chosen, with exactly the chosen connector, which is one of the available ones, and the chosen chain id |
| AutoConnect.StoredIdIsRecovered | packages/nextjs/hooks/scaffold-eth/useAutoConnect.ts:45-46 | an id persisted by `setWalletId`, with a parser that inverts the serialiser, is the id a later mount starts from |
| AutoConnect.WagmiFallback | packages/nextjs/hooks/scaffold-eth/useAutoConnect.ts:45-46 | with no scaffold entry, the id starts as the parsed wagmi entry, or "" when that is absent or does not parse |
| AutoConnect.WalletIdStore.constructor | packages/nextjs/hooks/scaffold-eth/useAutoConnect.ts:45-46 | the wallet id starts as the parsed scaffold entry, else the parsed wagmi entry, else ""; storage is unchanged |
| AutoConnect.WalletIdStore.SetWalletId | packages/nextjs/hooks/scaffold-eth/useAutoConnect.ts:46 | the id is stored in state and persisted under the scaffold key |
| AutoConnect.WalletIdStore.OnAccountChange | packages/nextjs/hooks/scaffold-eth/useAutoConnect.ts:51-59 | connected: the id becomes the connector's; disconnected: the wagmi entry becomes `""` in JSON and the id is reset to "" |
| BurnerWallet.IsValidSkIff | packages/nextjs/hooks/scaffold-eth/useBurnerWallet.ts:9-11 | a key is valid iff present with 64 or 66 characters; absent keys and `0x` are invalid |
| BurnerWallet.CurrentSk | packages/nextjs/hooks/scaffold-eth/useBurnerWallet.ts:21-25 | the key read holds no `"`, and is `0x` without a window or a stored entry |
| BurnerWallet.ValidKeyIsReturned | packages/nextjs/hooks/scaffold-eth/useBurnerWallet.ts:21-28 | a valid key can only come from storage; it is returned unquoted and nothing is written |
| BurnerWallet.QuotedKeyLoads | packages/nextjs/hooks/scaffold-eth/useBurnerWallet.ts:24-28 | a valid key stored as a JSON string loads as the bare key |
| BurnerWallet.InvalidKeyFallsBack | packages/nextjs/hooks/scaffold-eth/useBurnerWallet.ts:15-32 | an invalid or missing key gives the default key, which is saved when a window exists |
| BurnerWallet.NoWindowGivesDefault | packages/nextjs/hooks/scaffold-eth/useBurnerWallet.ts:16-32 | without a window the default key is returned and storage is untouched |
| BurnerWallet.LoadIdempotent | packages/nextjs/hooks/scaffold-eth/useBurnerWallet.ts:21-33 | with a valid, quote-free default key, a second load returns the first load's key and writes nothing |
| BurnerWallet.BurnerKeyStore.SaveBurnerSK | packages/nextjs/hooks/scaffold-eth/useBurnerWallet.ts:15-19 | the key is written under the burner key only when a window exists |
| BurnerWallet.BurnerKeyStore.LoadBurnerSK | packages/nextjs/hooks/scaffold-eth/useBurnerWallet.ts:21-33 | the returned key and the new storage are those of the load function on the old storage |

## Left out

- Rendering, React state plumbing, `useMemo` and component props are left out; each component is modelled by what it computes or renders.
- I/O, asynchrony and concurrency are left out:
  - the RPC `getLogs` calls, whose results (or failure) are inputs;
  - the `watchBlockNumber` subscription and its clean-up;
  - the `connect` call itself;
  - clipboard writes and every `alert`.
- The range the block update fetches (`fromBlock: prevBlockNumber`, so inclusive of the previous block) is not modelled; the fetched logs are an input.
- `JSON.parse`, `JSON.stringify` with `replacer`, and viem's `formatEther` are uninterpreted parameters.
- The storage hook's JSON persistence of `walletId` under the scaffold key is a serialiser parameter, and its JSON reading a parser parameter.
- `generatePrivateKey` is neither modelled nor called: the default key is a parameter.
- `generateNewBurner` and `saveBurner` are left out: they depend on key generation and a wallet client.
- String lengths count Unicode scalar values; JavaScript counts UTF-16 code units, which differ only outside the Basic Multilingual Plane.
- White space follows the ECMAScript white-space and line-terminator sets.
- JavaScript's `Object.keys` puts array-index-like keys first. Form keys always contain `_`, so they are never such keys, and plain insertion order is modelled.
- Form values are the strings or bigints the inputs produce; other JavaScript values in a form are not modelled.
- `DisplayUtils.DisplayTxResult`: transaction objects and receipts are treated as plain objects rendered by the serialiser.
- `DisplayUtils.DisplayTxResult`: `Number(bigint)` is not modelled as a float. Its safe-range test is the exact integer comparison it is equivalent to, and a safe bigint renders as that integer.
- `InputUtils.IsValidInteger`: `Number` of the bit-count suffix is read through the integer forms `BigInt` accepts; a suffix `Number` reads as a fraction, an exponent or `Infinity` (only possible for a type outside the enum) is taken as `NaN`, which makes every comparison false.
- `AutoConnect.WalletIdStore.constructor`: a stored entry that does not parse to a string, JSON `null` included, is treated as absent; the storage hook's own parser is a parameter.
- The `viem` error class test (`instanceof BaseError`) is a boolean field of the error value.
- `ContractUtils.ParsedContractFunctionArgs`: a `JSON.parse` that yields `undefined` cannot happen, so only a throw drops a field.

## Findings

| source | as written | input that shows it | evidently intended | confidence | as-written member | corrected member |
|---|---|---|---|---|---|---|
| packages/nextjs/components/scaffold-eth/Input/utils.ts:116-126 | the width test matches `/.*x0*(.*)$/` against `toString(16)`, which never contains `x`, so the significant digits are always empty and no coercible value is rejected for its width | `isValidInteger("uint8", "256", true)` returns true | reject every value outside the N-bit range: [0, 2^N-1] unsigned, [-2^(N-1), 2^(N-1)-1] signed | not executed | InputUtils.Uint8Accepts256AsWritten | InputUtils.InRangeBounds |
| packages/nextjs/components/scaffold-eth/Contract/utilsContract.tsx:11-14 | `??` keeps an empty parameter name, which compilers write for unnamed parameters, so the positional fallback is skipped | two unnamed `uint256` inputs of `f` both get the key `f__uint256_uint256` | use the positional name for an empty name too, so unnamed inputs get distinct keys | not executed | ContractUtils.EmptyNamesCollide | ContractUtils.CorrectedKeysDistinct |
