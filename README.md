# Random node: a Dafny model

The Random node is a workflow-engine plugin. It emits one true-random
integer per input item, fetched from random.org. For every item it:

1. reads the bounds `min` and `max`;
2. rejects them if `min >= max`, and only then if either is not an integer;
3. asks the remote service for one integer between them;
4. trims the plain-text reply and parses it with `parseInt(…, 10)`, rejecting NaN;
5. appends a record `{randomNumber, min, max, source: "Random.org"}` paired with the item's index.

A failing item adds an `{error: message}` record when continue-on-fail is set.
Otherwise it aborts the whole run. An operation other than `generateRandomNumber`
produces no entries.

The model has four modules:

- `JsNumbers` (`js_numbers.dfy`) models JavaScript Numbers. A finite Number is
  an exact real, and +Infinity, -Infinity and NaN are kept apart.
  `AtLeast` is the `>=` operator, which is false whenever NaN is involved.
- `JsStrings` (`js_strings.dfy`) models `String.prototype.trim` and `parseInt`
  with radix 10 (section 19.2.5 of ECMA-262). Each function's contract is a
  lemma, and a round-trip lemma shows that `parseInt(s.trim(), 10)` reads back
  a whitespace-padded decimal numeral.
- `RandomNode` (`random_node.dfy`) holds the node itself:
  - `isInteger` and the two checks;
  - `ItemStep`, the per-item try block as a value;
  - `Run`, the whole batch as a function over the items;
  - the imperative `Execute` loop (with its try block `TryItem`), proved equal to `Run`.
  - `ItemStepAsWritten`, the try block as it behaves with the client's default decoding of the body (see Findings).
- `RandomNodeProperties` (`random_node_properties.dfy`) holds what the node
  promises, per item and over a batch.

The host's services are inputs, not calls:

- the bounds of each item;
- the operation, read once;
- the continue-on-fail flag;
- the reply the service would give to each item: a body, or a transport error
  with its message.

`Execute` also returns, as a ghost value, the log of requests it made. That log
shows that no request is made for an item whose checks fail, and that no item
after an abort is looked at.

Two behaviours of the code are easy to miss:

- Records carry `min` and `max` as the Numbers that were read. These are
  integers only because the checks passed.
- A non-matching operation gives an empty output, not one entry per item.

## Model

| member | source | states |
|---|---|---|
| JsNumbers.AtLeast | Random.node.ts:84 | `min >= max` is false when either bound is NaN, and on finite bounds it is the order of the reals; +Infinity is at least every non-NaN Number, and -Infinity is at least no Number but itself |
| JsNumbers.AtLeastTotalOrder | Random.node.ts:84 | apart from NaN, `>=` is a total order on Numbers, including the infinities |
| RandomNode.IsInteger | Random.node.ts:12-14 | a Number passing isInteger is finite and is the Number of its own floor; NaN and both infinities fail it |
| RandomNode.IsIntegerExact | Random.node.ts:12-14 | isInteger holds exactly of Numbers that denote an integer; NaN and the infinities fail it |
| RandomNode.Validate | Random.node.ts:84-96 | `min >= max` gives the ordering error whatever else is wrong; ordered bounds of which one is not an integer give the integrality error; passing bounds are finite with min < max |
| RandomNode.ValidateExact | Random.node.ts:84-96 | the checks pass exactly when min and max are integers a < b |
| RandomNode.ItemStep | Random.node.ts:80-124 | an item yields no entry exactly when the operation is not generateRandomNumber, and a record only when it was sent to the service |
| RandomNode.ItemError.Message | Random.node.ts:84-130 | an error record's message is the caught error's message: each fixed message ("Minimum value must be less than maximum value", "Both minimum and maximum values must be integers", "Failed to generate a valid random number") names the one check that raised it, and a transport failure keeps the client's message |
| RandomNode.Advance | Random.node.ts:79-139 | one turn of the loop leaves a thrown run unchanged, makes at most one request and adds at most one entry |
| RandomNode.AdvanceAppends | Random.node.ts:79-139 | a turn keeps the earlier requests and entries unchanged at the front: whatever it adds comes after them |
| RandomNode.Run | Random.node.ts:78-142 | the whole batch makes at most one request per item and returns at most one entry per item |
| RandomNode.ItemStepAsWritten | Random.node.ts:100-111 | when the client hands over the body decoded as a Number, the item never yields a record: a request fails with "response.data.trim is not a function"; a text body or a transport failure behaves as in ItemStep |
| RandomNode.ThrownIsFinal | Random.node.ts:126-138 | once an item's error is rethrown, later items change neither the outcome nor the requests |
| RandomNode.TryItem | Random.node.ts:80-111 | the try block computes the item's step and makes a request exactly when the operation matches and the checks pass |
| RandomNode.Execute | Random.node.ts:73-143 | the loop returns the batch outcome and request log of `Run`, for either continue-on-fail setting |
| JsStrings.Trim | Random.node.ts:104 | trim never lengthens the text, and its result neither starts nor ends with white space |
| JsStrings.ParseInt | Random.node.ts:104-106 | parseInt with radix 10 gives NaN or a finite integer (overflow to Infinity is not modelled, see Left out) |
| JsStrings.TrimStartSpec | Random.node.ts:104 | the leading-trim keeps the longest suffix that does not start with white space and drops only white space |
| JsStrings.TrimEndSpec | Random.node.ts:104 | the trailing-trim keeps the longest prefix that does not end with white space and drops only white space |
| JsStrings.TrimSpec | Random.node.ts:104 | trim returns an infix with only white space around it, neither starting nor ending with white space |
| JsStrings.TrimStartOfPadded | Random.node.ts:104 | leading white space before a non-blank text is exactly what is removed |
| JsStrings.TrimEndOfPadded | Random.node.ts:104 | trailing white space after a non-blank text is exactly what is removed |
| JsStrings.TrimOfPadded | Random.node.ts:104 | trim undoes white-space padding on both sides |
| JsStrings.TrimStartOfWhiteSpace | Random.node.ts:104 | parseInt's skip of leading white space removes the whole of a string of white space only |
| JsStrings.DigitPrefixSpec | Random.node.ts:104 | parseInt's digit run is the longest prefix of decimal digits |
| JsStrings.DigitPrefixOfNumeral | Random.node.ts:104 | the digit run of a numeral followed by a non-digit is that numeral |
| JsStrings.ParseIntOfNumeral | Random.node.ts:104 | white space, an optional sign, digits and any non-digit tail parse to the signed value of the digits |
| JsStrings.ParseIntOfNoNumeral | Random.node.ts:104-111 | when no digit follows the white space and the optional sign, parseInt is NaN |
| JsStrings.ParseIntOfDecimal | Random.node.ts:104 | for every integer k, trimming then parsing k's decimal numeral padded with white space gives k back |
| RandomNodeProperties.RunWithoutThrow | Random.node.ts:78-136 | for the operation generateRandomNumber, with continue-on-fail or when no item fails, the run returns exactly one entry per item in input order; entry k is paired with item k and holds item k's record or its error message |
| RandomNodeProperties.RequestsOfReturnedRun | Random.node.ts:78-102 | a run that returns has sent, in item order and once each, exactly the items that pass the checks, with their own bounds |
| RandomNodeProperties.ThrowsFirstFailure | Random.node.ts:126-138 | without continue-on-fail, the first failing item ends the run with its error and no output; the requests are exactly those of the items up to it |
| RandomNodeProperties.OtherOperationEmitsNothing | Random.node.ts:76-82 | an operation other than generateRandomNumber appends no entry for any item and sends nothing |
| RandomNodeProperties.TurnWithoutThrow | Random.node.ts:113-136 | for the operation generateRandomNumber, an item that is not thrown appends exactly one entry, paired with its index |
| RandomNodeProperties.TurnRequests | Random.node.ts:98-102 | an item is sent to the service exactly when it passes the checks |
| RandomNodeProperties.TurnThrows | Random.node.ts:126-138 | without continue-on-fail, a failing item turns the run into its error |
| RandomNodeProperties.OrderCheckedFirst | Random.node.ts:84-89 | min >= max fails with "Minimum value must be less than maximum value" and makes no request |
| RandomNodeProperties.BothChecksFailing | Random.node.ts:84-96 | bounds 2.5 and 1 get the ordering error, not the integrality error |
| RandomNodeProperties.IntegralityCheckedSecond | Random.node.ts:91-96 | ordered bounds with a non-integer fail with "Both minimum and maximum values must be integers" and make no request |
| RandomNodeProperties.FetchesExactly | Random.node.ts:84-102 | an item is sent to the service exactly when the operation matches and its bounds are integers a < b |
| RandomNodeProperties.SuccessRecord | Random.node.ts:104-124 | a record holds an integer parsed from a reply body, the very bounds that were checked, and source "Random.org" |
| RandomNodeProperties.ParseFailureReported | Random.node.ts:104-124 | for an item that was sent, the body gives "Failed to generate a valid random number" exactly when it parses to NaN; any other body yields a record of the Number it parses to, with the checked bounds and source "Random.org" |
| RandomNodeProperties.TrailingTextIgnored | Random.node.ts:104-124 | the body "7 apples" for bounds 1 and 6 yields a record of 7: only the leading numeral is read |
| RandomNodeProperties.TransportFailureSurfaced | Random.node.ts:100-102 | a transport failure is the item's error, with the client's message kept |
| RandomNodeProperties.ReplyReadBack | Random.node.ts:104-124 | for integer bounds a < b, a reply holding k's numeral padded with white space yields a record of k with those bounds |
| RandomNodeProperties.NumericBodyFails | Random.node.ts:100-111 | for bounds 1 and 6, the body "4\n" as text yields a record of 4, while the same reply decoded into the Number 4 fails with a TypeError |
| RandomNodeProperties.TrailingNewline | Random.node.ts:104 | the body "42\n" is read as 42 |
| RandomNodeProperties.NotANumber | Random.node.ts:104-111 | the body "not-a-number" parses to NaN |
| RandomNodeProperties.RangeNotRechecked | Random.node.ts:104-124 | the number is not checked against the bounds: 7 for bounds 1 and 6 still gives a record of 7 |

## Left out

- The HTTP GET itself is not modelled: the URL template, the 10-second timeout and the connection handling. It is replaced by a reply per item that the model takes as given.
- The HTTP client's decoding of the body is not modelled as such. `ItemStep`, and everything built on it, takes `response.data` to be the reply text. With its default settings the client at Random.node.ts:100 does not give text for a numeric body: it decodes it into a Number (see Findings). The client's own decoding rules are not part of this model.
- The `timestamp` field is omitted. It comes from the wall clock.
- The host API is not modelled as calls: input items, parameter lookup, the continue-on-fail query and error construction. Their results are inputs. A failure inside the parameter lookup itself is not modelled.
- The node's `description` metadata is left out. It is static configuration with no behaviour.
- `async`/`await` is not modelled. The items are awaited one after another, so the model is sequential.
- `returnData` is a local array that `execute` pushes to in place. The model keeps it as a local sequence that the loop extends.
- RandomNode.IsInteger: the `typeof n === 'number'` test always holds. Every bound is a Number; a bound that an expression turns into another type is not modelled.
- JsStrings.ParseInt: the result is exact. It is not rounded to the nearest double for numerals beyond 2^53, a numeral too large for a double (about 309 digits or more) gives that integer instead of Infinity, and -0 is not told apart from 0.
- JsNumbers.AtLeast: finite Numbers are exact reals. IEEE-754 rounding of the bounds is not modelled.
- JsStrings.Trim: the white space is that of ECMA-262 with the Unicode space separators listed explicitly. Strings are sequences of characters rather than UTF-16 code units, which makes no difference to the characters trim and parseInt inspect.

## Findings

| source | as written | input that shows it | evidently intended | confidence | as-written member | corrected member |
|---|---|---|---|---|---|---|
| Random.node.ts:100-104 | `axios.get(url, { timeout: 10000 })` keeps the client's default response decoding, which parses a body that is valid JSON; `response.data.trim()` is then called on a Number and throws a TypeError, so an item whose checks pass fails instead of yielding a record | bounds 1 and 6 with the plain-text body "4\n", which the default decoding hands over as the Number 4 | the body is read as text (for example with `responseType: 'text'`), so that the trimmed body is parsed; `RandomNodeProperties.ReplyReadBack` proves that a padded numeral of k then yields a record of k | not executed; rests on the client's documented default decoding, whose source is not part of this model | RandomNode.ItemStepAsWritten (counterexample: RandomNodeProperties.NumericBodyFails) | RandomNode.ItemStep |
