# HTTP client helpers, modelled in Dafny

This project models the helper module of the honeybee HTTP client: the five
helpers its test suite (`test/helpers.js`) exercises. The module itself
(`lib/helpers`) is not part of this model. Its behaviour is fixed here by the
assertions of the test suite, which serve as the contract:

- `stringifyQuery` (module `QueryString`, `query_string.dfy`) turns the
  properties of a parameters object, in JavaScript's property order
  (integer-like keys first, ascending, then the other keys in insertion
  order), into a `key=value&key=value` query string. Strings appear verbatim, numbers in
  decimal, `true` as `true`. A property whose value is `false` is dropped
  entirely. An array value gives one `key=element` fragment per element, with
  the key repeated.
- `merge` (module `Merge`, `merge.dfy`) combines option objects left to
  right. A later defined value wins; an `undefined` value (`None`) never
  erases an earlier one. Sources are values and are never changed.
- `mergeHeaders` (module `Headers`, `headers.dfy`) merges a base header
  object and an override object into one object whose header names are all
  ASCII lower case, with values passed through unchanged.
- `once` (module `OnceGuard`, `once.dfy`) wraps a callback so only its
  first invocation runs it. The wrapper is a class `Once` holding the
  `fired` flag and a counter `runs` of executions of the callback.
- `parseJSONError` (module `RequestErrors`, `request_error.dfy`) builds a
  `RequestError` with `name` `"RequestError"`, the response's `statusCode`,
  and a `message` taken from the body's `message` string, else its `error`
  string, else the reason phrase of the status code (400 gives
  "Bad Request", as in section 15.5.1 of RFC 9110).

`Wrappers` (`wrappers.dfy`) holds the `Option` type. `None` stands for
JavaScript's `undefined`. `HelpersTest` (`helpers_test.dfy`) states each
fixture of the test suite as a lemma about the model.

The query string is specified by `Pairs`, the list of (key, text) pairs that
the parameters stand for. `StringifyQueryMeetsSpec` proves that the serializer
writes exactly those pairs, in order, as `key=text` joined by `&`.
`ParseStringifyQuery` proves the inverse: reading the string back (cut at
`&`, then at the first `=`) gives the pairs again. `merge` is a left-to-right
fold. The contract of `Merge` states it equal, key by key, to `LastDefined`,
which picks the value of the last source that defines the key, scanning from
the end.

A note on one ambiguity. A rule that omits only `undefined` would keep
`veggies=false` in the output. The test fixture at `test/helpers.js:7-9` drops
it. The model follows the test: a top-level `false` is dropped.

## Model

| member | source | states |
|---|---|---|
| `QueryString.StringifyQuery` | test/helpers.js:7-14 | the serializer itself; specified by `StringifyQueryMeetsSpec` and `ParseStringifyQuery` |
| `QueryString.Render` | test/helpers.js:7-9 | the text of one scalar value; specified by `RenderMeaning` |
| `QueryString.RenderMeaning` | test/helpers.js:7-9 | a string renders verbatim, a boolean as `true` or `false`, and a number as its plain decimal form: at least one digit, no leading zero except for 0 itself, a leading `-` when negative, reading back as that number |
| `QueryString.StringifyQueryMeetsSpec` | test/helpers.js:7-14 | the query string is the `key=text` fragments of the kept pairs, in parameter order and element order, joined by `&` |
| `QueryString.ParseStringifyQuery` | test/helpers.js:7-14 | for keys free of `&` and `=` and string values free of `&`, splitting the query string at `&` and then at the first `=` gives back exactly the kept (key, text) pairs in order |
| `QueryString.FalseParamOmitted` | test/helpers.js:7-9 | a parameter whose value is `false`, at any position, leaves no fragment at all, not even `key=`: the output equals the output without that parameter |
| `QueryString.ArrayExpands` | test/helpers.js:11-14 | an array value gives one pair per element, element order kept, the key repeated |
| `QueryString.SingletonArray` | test/helpers.js:12-13 | a one-element array renders as the single fragment `key=element`, the same as the bare element; stated for every element except `false`, which the bare form drops |
| `QueryString.DecimalRoundTrip` | test/helpers.js:7-9 | the decimal text a number is rendered as reads back as that number |
| `HelpersTest.PrimitiveTypes` | test/helpers.js:7-9 | `{type: 'apples', count: 420, bbq: true, veggies: false}` gives `type=apples&count=420&bbq=true` |
| `HelpersTest.TopLevelArrays` | test/helpers.js:11-14 | `{foo: ['x'], bar: ['y', 'z']}` gives `foo=x&bar=y&bar=z` |
| `Merge.Assign` | test/helpers.js:26-32 | copying one source takes its defined values and keeps the earlier value wherever the source is undefined or silent |
| `Merge.Merge` | test/helpers.js:17-32 | for every key, the result holds the value of the last source defining it, and lacks the key when no source defines it |
| `Merge.LaterSource` | test/helpers.js:26-32 | appending a source overrides a key exactly when that source defines it; an `undefined` value leaves the earlier value in place |
| `Merge.MergeKeys` | test/helpers.js:18-32 | the result's keys are exactly the keys some source defines, so no other keys appear |
| `Merge.DisjointMerge` | test/helpers.js:18-25 | sources with disjoint keys merge into their union, each key with its own value; that nothing else appears is `MergeKeys` |
| `HelpersTest.JoinsMultipleSets` | test/helpers.js:18-25 | `merge({foo: true}, {bar: true}, {baz: true})` is `{foo: true, bar: true, baz: true}` |
| `HelpersTest.IgnoresUndefined` | test/helpers.js:26-32 | `merge({x: 1, y: 2}, {x: undefined, y: 3})` is `{x: 1, y: 3}` |
| `Headers.MergeHeaders` | test/helpers.js:36-47 | the merge itself; specified by `MergeHeadersNames`, `MergeHeadersIgnoresCase` and `EmptyBase` |
| `Headers.Lower` | test/helpers.js:42-46 | same length; every ASCII upper-case letter becomes its lower-case letter, every other character is kept, so no upper-case letter remains |
| `Headers.MergeHeadersNames` | test/helpers.js:36-47 | every result name is lower case; the result names are exactly the lower-cased input names; each value is passed through unchanged from an input header of that name |
| `Headers.MergeHeadersIgnoresCase` | test/helpers.js:36-47 | headers spelled in different letter case give the same result, so two spellings of one name never make two entries |
| `Headers.EmptyBase` | test/helpers.js:37-46 | with an empty base and override names that stay distinct once lowered, each override appears under its lower-cased name with its value, and nothing else appears |
| `Headers.LowerOfLower` | test/helpers.js:42-46 | lower-casing leaves an already lower-case name unchanged and is idempotent |
| `HelpersTest.ReturnsLowercaseNames` | test/helpers.js:36-47 | `mergeHeaders({}, {'x-my-hEaDeR': true, 'Accept': true, 'content-type': true})` is `{'x-my-header': true, 'accept': true, 'content-type': true}` |
| `OnceGuard.Once.constructor` | test/helpers.js:53 | a fresh wrapper has not fired and the callback has run zero times |
| `OnceGuard.Once.Call` | test/helpers.js:53-54 | the first call runs the callback once and sets the flag; later calls change nothing |
| `HelpersTest.CallTwice` | test/helpers.js:51-56 | calling the wrapper twice runs the callback exactly once: the counter ends at 1 |
| `OnceGuard.CallRepeatedly` | test/helpers.js:51-56 | any number n of calls runs the callback once if n > 0 and never if n = 0 |
| `RequestErrors.ParseJSONError` | test/helpers.js:60-89 | `statusCode` echoes the input and `name` is `RequestError`; the message is the body's `message` string, else its `error` string, else the status code's default message |
| `RequestErrors.FirstPresent` | test/helpers.js:70-89 | the first present candidate message wins; with none present, the fallback is used |
| `RequestErrors.ReasonPhrase` | test/helpers.js:70-75 | only a 4xx or 5xx status code has a reason phrase, and it is never empty; 400 is "Bad Request" (section 15.5.1 of RFC 9110) |
| `RequestErrors.DefaultMessage` | test/helpers.js:70-75 | the status-derived message is non-empty and is the reason phrase whenever the code has one |
| `RequestErrors.ReasonPhraseFallback` | test/helpers.js:70-75 | a body without a message yields the status code's reason phrase |
| `RequestErrors.MessageFromBodyIgnoresStatus` | test/helpers.js:77-89 | a message found in the body does not depend on the status code |
| `HelpersTest.BadRequest` | test/helpers.js:70-75 | status 400 with body `{}` gives message "Bad Request", status 400, name `RequestError` |
| `HelpersTest.MessageField` | test/helpers.js:77-82 | status 400 with body `{message: 'test msg'}` gives message "test msg" |
| `HelpersTest.ErrorField` | test/helpers.js:84-89 | status 400 with body `{error: 'test err'}` gives message "test err" |

## Left out

- `lib/helpers` is not part of this model. Every contract comes from the test assertions. Where they leave behaviour open, the model picks one behaviour, listed below. The general contracts (`StringifyQueryMeetsSpec`, `ParseStringifyQuery`, `ParseJSONError`) hold of those choices, not necessarily of `lib/helpers`.
- Query values `undefined` and `null` are not modelled. The tests do not fix whether they are dropped.
- The number `0` renders as `key=0` and the empty string as `key=`. The tests do not fix either choice.
- The parameters are given as a list `ps` that must already be in JavaScript's property order. The model does not move integer-like keys ahead of the others; it renders the list in the order given.
- A `false` inside an array is rendered as `false` and an empty array contributes nothing. Both are choices the tests do not fix.
- URL escaping of keys and values is not modelled. Plain concatenation is what the tests show.
- JavaScript numbers are modelled as unbounded integers. Fractions, exponents, `NaN` and `Infinity` are floating point and are left out. Integers beyond 2^53 are rendered exactly by the model but rounded by JavaScript.
- Decoding the response body from bytes (`Buffer.from(JSON.stringify(body))`) is left out. The body is given already parsed as `Body`: unparsable, or a JSON value with optional string `message` and `error` properties. A property that is not a string counts as absent.
- The unused `context` argument of `parseJSONError` is left out.
- `RequestErrors.ReasonPhrase` covers only the 4xx and 5xx codes of RFC 9110. For any other code the model uses the message "Unknown Error". That fallback text is a modelling choice.
- `RequestErrors.ParseJSONError`: when the body has both `message` and `error`, its ensures states that `message` wins; the tests only use bodies with one of the two, so this is a modelling choice.
- `RequestErrors.ParseJSONError`: a `message` (or `error`) that is the empty string counts as present, so its ensures states that `""` becomes the message. A chain of `||` in `lib/helpers` would skip it; the tests do not fix this.
- `Headers.MergeHeadersNames`: does not state which value wins when two names collide after lower-casing. The model stores base headers first and then overrides, so a later header wins, but the tests only use an empty base without collisions.
- Header names are lower-cased for ASCII letters only. Unicode case folding is left out.
- `once` does not model forwarding arguments to the callback or its return value. The tests call it without arguments. It also does not model concurrent calls; the tests are sequential.
- The test harness itself (`describe`, `it`, `assert.deepEqual`) is left out. Results compared with `deepEqual` are maps, so key order plays no part.
