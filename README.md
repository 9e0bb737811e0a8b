# l3xenv in Dafny

A verified model of `l3xenv.js`, a dotenv-compatible loader. The file text is
parsed into a key/value map and merged into the process environment store,
with first-writer-wins. Typed accessors then read the store with defaults,
coercion and validation.

Modules:

- `Wrappers`: `Option`, `Result` and `Outcome`.
- `Ascii`: the character classes of the regular expressions (`\s`, `\w`,
  key characters) and `Skip`, the scanner for a maximal run of one class.
  It also has `trim`, `toLowerCase`, `split` and `join` on ASCII text.
- `Decimal`: `Number()` and `String()` on integers written in decimal.
- `EnvFile`: `parse`.
  - `SplitLines` is `split(/\r?\n/)`.
  - `Match` recognises `^\s*([\w.-]+)\s*=\s*(.*)?\s*$` with its greedy group
    boundaries. It is proved sound and complete against the declarative
    `MatchesAt` (the greedy match) and `Decomposes` (any match).
  - `StripQuotes` removes one pair of quotes.
  - `Interpolate` is the one-pass `${name}` replacement.
  - `ParseLines` and `ParseText` are the left fold that specifies the
    imperative `Parse` loop.
- `Accessors`: the value model (`Value`), the options, and the error kinds
  `Missing`, `InvalidType`, `InvalidChoice`, `BelowMin` and `AboveMax`.
  It also holds the coercions of the five accessors, the `getEnv` pipeline
  and `has`.
- `Store`: class `Env`, whose field `vars` is `process.env`.
  - `Merge` is the merge loop of `config`.
  - `Config` is `config` once the file text has been read.
  - `RequireVars` is `require`. It loops over the names and stops at the
    first one that is missing.

Two consequences of the line pattern that the model keeps as the code has them:

- The value group `(.*)` is greedy. Trailing whitespace therefore stays in
  the value (`K=v  ` gives `"v  "`), and `K="v" ` keeps its quotes.
- The whitespace after `=` is dropped. So the round trip `parse("K=" + v)`
  giving `v` holds only for a `v` without leading whitespace and without
  line terminators (`ParseRoundTrip`).

## Model

| member | source | states |
|---|---|---|
| EnvFile.SplitLines | l3xenv.js:11 | `split(/\r?\n/)` gives one more line than there are line feeds, and no line contains a line feed |
| EnvFile.SplitLinesCrlf | l3xenv.js:11 | lines without line feeds joined with `\r\n` split back into exactly those lines: the carriage return before each line feed is dropped, and only that one |
| EnvFile.SplitLinesLf | l3xenv.js:11 | lines without line feeds, none but the last ending in `\r`, joined with `\n` split back into exactly those lines |
| EnvFile.CrlfParsesAsLf | l3xenv.js:11-24 | a CRLF file gives the same entries as the LF file with the same lines |
| EnvFile.SplitLinesJoin | l3xenv.js:11 | without carriage returns, joining the lines with line feeds gives the text back |
| Ascii.Skip | l3xenv.js:12 | the scan for `\s*`, `[\w.-]+` and `.*` (and `trim`'s scan at l3xenv.js:101) stops at the end of the longest run of the class: every character before it is in the class and the character at it is not |
| EnvFile.Match | l3xenv.js:12 | the recogniser returns groups in order: a non-empty key, then `=`, then the value, all inside the line |
| EnvFile.MatchSound | l3xenv.js:12 | a group layout found by the recogniser is a match of the line regex, with the greedy boundaries |
| EnvFile.MatchComplete | l3xenv.js:12 | a match of the line regex with the greedy boundaries is exactly the one the recogniser finds, so the greedy groups are unique |
| EnvFile.DecomposesAccepted | l3xenv.js:12-13 | a line the regex accepts with any split of its parts, greedy or not, is accepted by the recogniser |
| EnvFile.MatchIff | l3xenv.js:12-13 | the recogniser succeeds exactly on the lines the regex accepts |
| EnvFile.CapturesOf | l3xenv.js:12-15 | the key is group 1 and the value group 2 of the greedy match; no match, no captures (its properties are `CapturesAssignment`, `LineWithoutEquals` and `LineWithoutKey`) |
| EnvFile.LineWithoutEquals | l3xenv.js:12-13 | a line without `=` contributes no entry |
| EnvFile.LineWithoutKey | l3xenv.js:12-13 | a line whose first non-space character is not a key character contributes no entry; this covers blank lines and `# comment` |
| EnvFile.CapturesAssignment | l3xenv.js:12-15 | for `lead KEY gap = ws value`, the captures are exactly the key and the value; whitespace around the key and after `=` is dropped, and trailing whitespace stays in the value |
| EnvFile.StripQuotes | l3xenv.js:17-19 | a value quoted with the same quote at both ends loses exactly its first and last characters; a lone quote becomes empty; anything else is unchanged |
| EnvFile.StripQuotesRoundTrip | l3xenv.js:17-19 | quoting any text and stripping gives the text back, inner quotes and backslashes included |
| EnvFile.Resolve | l3xenv.js:21 | the replacement of `${k}`: the store value when non-empty, else the value parsed so far when non-empty, else `''` |
| EnvFile.ExpandFrom | l3xenv.js:21 | the replacement pass from one position on: a reference there is replaced and the scan resumes after its `}`, any other character is copied; `InterpolateReference` states the pass |
| EnvFile.Interpolate | l3xenv.js:21 | `replace(/\$\{([\w.-]+)\}/g, …)` as the replacement pass from the start of the value |
| EnvFile.ReferenceAt | l3xenv.js:21 | a `${name}` reference found at a position has a non-empty key of `[\w.-]` characters between `${` and `}` |
| EnvFile.InterpolateReferenceFree | l3xenv.js:21 | text without a `${name}` reference is unchanged |
| EnvFile.InterpolateLeadingReference | l3xenv.js:21 | a leading `${k}` is replaced by the store value when non-empty, else by the earlier parsed value, else by `''`; the rest is then interpolated |
| EnvFile.InterpolateReference | l3xenv.js:21 | one left-to-right pass: the text before the first reference is copied, the reference is replaced, the replacement is not rescanned, and the pass goes on after `}` |
| EnvFile.Step | l3xenv.js:12-22 | one line: a matching line sets its key to its unquoted, interpolated value; any other line changes nothing |
| EnvFile.ParseLines | l3xenv.js:11-24 | the `forEach` over the lines as a left fold of `Step` |
| EnvFile.ParseText | l3xenv.js:9-26 | `parse(src)`: the fold over `SplitLines(src)` from the empty object |
| EnvFile.Parse | l3xenv.js:9-26 | the loop filling `obj` line by line returns exactly the fold `ParseText` of the text against the current store |
| EnvFile.ParseAppend | l3xenv.js:11-24 | parsing two blocks of lines is parsing the second block starting from the result of the first |
| EnvFile.ParseKeys | l3xenv.js:11-24 | the parsed keys are exactly the keys of the matching lines; nothing else enters |
| EnvFile.ParseUntouched | l3xenv.js:11-24 | a key no line assigns keeps its starting value, and an absent key stays absent |
| EnvFile.LastAssignmentWins | l3xenv.js:11-24 | the last line assigning a key decides its value: that line's value, unquoted and interpolated against what the earlier lines produced |
| EnvFile.UnmatchedLineIgnored | l3xenv.js:12-13 | a line that does not match changes nothing, wherever it stands |
| EnvFile.StepAssignment | l3xenv.js:12-22 | a `KEY=value` line sets exactly that key to the value, unquoted and interpolated against the object built so far; other keys are unchanged |
| EnvFile.ParseSingleLine | l3xenv.js:11-22 | a one-line `KEY=value` text parses to the single entry whose value is unquoted and interpolated |
| EnvFile.ParseRoundTrip | l3xenv.js:11-22 | `parse("K=" + v)` is exactly `{K: v}`, for a valid key and a `v` that has no leading whitespace, no line terminator, no `${…}` reference and no surrounding quotes |
| EnvFile.QuotedRoundTrip | l3xenv.js:11-22 | for a key `K`, a quote `q` and a value `v` with no line terminator and no `${…}` reference, `parse("K=" + q + v + q)` is exactly `{K: v}`, leading and trailing spaces of `v` included |
| EnvFile.BackReference | l3xenv.js:21-22 | in `A=v` followed by `B=${A}`, `B` gets the store's `A` when that is non-empty, else `v` |
| Store.Merged | l3xenv.js:44-48 | the store after the merge loop: its own keys with their own values, plus every parsed key it lacked with the parsed value |
| Store.Env.Merge | l3xenv.js:44-48 | after the loop the store is `Merged(old store, parsed)`: absent keys are added with their parsed values, present keys are untouched |
| Store.Env.Config | l3xenv.js:41-52 | a failed read returns `ReadFailed` (the `{ error }` result, without the error object) and leaves the store unchanged; otherwise it returns the text parsed against the store as it was, and the store becomes the merge of the two |
| Store.MergeFillsAbsent | l3xenv.js:45-46 | a parsed key absent from the store holds its parsed value after the merge |
| Store.MergeKeepsPresent | l3xenv.js:45 | a key present in the store, even with `''`, keeps its old value |
| Store.MergeKeys | l3xenv.js:44-48 | no key is removed, and only parsed keys are added |
| Store.MergeCovered | l3xenv.js:44-48 | parsed entries whose keys the store already holds leave the store unchanged |
| Store.MergeIdempotent | l3xenv.js:44-48 | merging the same parsed map twice equals merging it once |
| Store.FirstLoadWins | l3xenv.js:44-48 | a key set by an earlier load is not changed by a later load |
| Store.LoadTwice | l3xenv.js:43-48 | loading the same text twice leaves the store as after the first load, although the second parse may interpolate differently |
| Store.Env.RequireVars | l3xenv.js:134-138 | it passes iff `has` holds for every name; otherwise it fails with `Missing` naming the first name, in list order, for which `has` is false; the store is not modified |
| Accessors.Has | l3xenv.js:128-131 | true iff the store holds the name with a non-empty value |
| Accessors.Stored | l3xenv.js:57 | `process.env[name]`: the stored string, or `undefined` |
| Accessors.IsMissing | l3xenv.js:58 | `undefined`, `null` and `''` are missing |
| Accessors.Allowed | l3xenv.js:70 | `choices.includes(parsed)` for the values that can be found in the list |
| Accessors.Validate | l3xenv.js:64-81 | coercion, then `choices`, then `min`, then `max` for numbers; its properties are `ValidateSound`, `ValidateComplete` and the stage lemmas |
| Accessors.GetEnv | l3xenv.js:56-82 | every error names the requested variable, and an invalid-type error names the calling accessor's own type |
| Accessors.MissingIff | l3xenv.js:57-62 | the missing error is raised iff the stored value is absent or `''` and there is no default |
| Accessors.HasAgreesWithGetEnv | l3xenv.js:57-62 | without a default, getEnv reports a missing value exactly when `has` is false |
| Accessors.RequiredIgnored | l3xenv.js:60-62 | the result does not depend on `required` |
| Accessors.DefaultAsStored | l3xenv.js:60-69 | a string default goes through the same coercion and checks as the same string in the store |
| Accessors.PresentIgnoresDefault | l3xenv.js:57-60 | a present value ignores the default |
| Accessors.ValidateSound | l3xenv.js:64-81 | a returned value is the coerced input and passes choices, min and max |
| Accessors.ValidateComplete | l3xenv.js:64-81 | a coerced value that passes every configured check is returned |
| Accessors.CoercionFirst | l3xenv.js:65-69 | a failed coercion is an invalid-type error, whatever the choices and bounds are |
| Accessors.ChoicesBeforeBounds | l3xenv.js:70-80 | a value outside the choices is reported as an invalid choice, whatever the bounds are |
| Accessors.MinBeforeMax | l3xenv.js:70-79 | a number that passes `choices` (or has none) and is below the minimum is reported as below the minimum, whatever the maximum is |
| Accessors.MaxLast | l3xenv.js:77-81 | a number that passes `choices` and the minimum is an above-maximum error iff a maximum is set and exceeded, and is returned otherwise |
| Accessors.BoundsOnlyForNumbers | l3xenv.js:73-80 | min and max have no effect when the coerced value is not a number |
| Accessors.ToString | l3xenv.js:85 | `String(v)` for each kind of value; `NumberRoundTrip` and `BooleanRoundTrip` read it back |
| Accessors.ToNumber | l3xenv.js:89-93 | `Number(v)` with NaN as failure; `NumberRoundTrip` and `Decimal.ParseIntegerTrim` state its properties |
| Accessors.ToBoolean | l3xenv.js:97-105 | the getBoolean parser; `BooleanDomain` and `GetBooleanStored` state its domain and results |
| Accessors.ToJson | l3xenv.js:110-117 | the getJSON parser; `JsonPassThrough` and `JsonParseFailure` state its cases |
| Accessors.ToArray | l3xenv.js:121-125 | the getArray parser; `ArrayDomain`, `ArrayPieces`, `ArrayRoundTrip` and `ArrayPadded` state its cases |
| Accessors.GetString | l3xenv.js:84-86 | getEnv with `String` as parser and `string` as the type in errors |
| Accessors.GetNumber | l3xenv.js:88-94 | getEnv with the number parser and `number` as the type in errors |
| Accessors.GetBoolean | l3xenv.js:96-107 | getEnv with the boolean parser and `boolean` as the type in errors |
| Accessors.GetJson | l3xenv.js:109-118 | getEnv with the JSON parser and `json` as the type in errors |
| Accessors.GetArray | l3xenv.js:120-126 | getEnv with the array parser and `array` as the type in errors |
| Accessors.GetStringPresent | l3xenv.js:84-86 | with no `choices` given, getString returns a present stored string unchanged |
| Accessors.NumberRoundTrip | l3xenv.js:88-94 | `Number(String(n))` is `n` for every integer, also with whitespace around the digits |
| Accessors.BooleanDomain | l3xenv.js:96-107 | getBoolean's coercion succeeds iff the value is a boolean, a number, or a string that reads `true`, `1`, `false` or `0` once trimmed and lower-cased |
| Accessors.BooleanNonString | l3xenv.js:98-99 | booleans pass through, and numbers convert by truthiness |
| Accessors.GetBooleanStored | l3xenv.js:100-105 | with no `choices` given, a stored string gives true iff it reads `true` or `1`, false iff it reads `false` or `0`, and otherwise an invalid-type error for a boolean |
| Accessors.BooleanRoundTrip | l3xenv.js:100-103 | `String(b)` reads back as `b` |
| Accessors.BooleanIgnoresPadding | l3xenv.js:101 | surrounding whitespace does not change the result |
| Accessors.BooleanIgnoresCase | l3xenv.js:101 | letter case does not change the result |
| Accessors.ArrayDomain | l3xenv.js:120-126 | getArray's coercion accepts exactly arrays and strings; arrays pass through unchanged |
| Accessors.ArrayPieces | l3xenv.js:123 | a string becomes one more piece than it has commas; each piece is trimmed and has no comma, and empty pieces are kept |
| Accessors.ArrayRoundTrip | l3xenv.js:123 | joining trimmed, comma-free pieces with commas and reading them back gives the same list |
| Accessors.ArrayPadded | l3xenv.js:123 | whitespace around each comma-separated piece is dropped: joining the pieces padded with any whitespace reads back as the unpadded pieces, in order |
| Accessors.ArrayPaddedExample | l3xenv.js:123 | `"a, b ,c"` reads back as `["a", "b", "c"]` |
| Accessors.JsonPassThrough | l3xenv.js:111 | objects, arrays and `null` pass through getJSON's coercion without `JSON.parse` |
| Accessors.JsonParseFailure | l3xenv.js:112-116 | a stored text that `JSON.parse` rejects is an invalid-type error for JSON |
| Ascii.SpaceStart | l3xenv.js:101 | `trim` cuts the text at the start of its maximal trailing whitespace run: everything after the cut is whitespace and the character before it is not |
| Ascii.Trim | l3xenv.js:101 | `trim`: the text between the maximal leading and trailing whitespace runs |
| Ascii.Lower | l3xenv.js:101 | `toLowerCase` on ASCII, which keeps the length |
| Ascii.TrimPadded | l3xenv.js:101 | whitespace added on both sides does not change the trimmed text |
| Ascii.TrimTrimmed | l3xenv.js:123 | trimming is idempotent and adds no character |
| Ascii.LowerTrim | l3xenv.js:101 | lower-casing commutes with trimming |
| Ascii.Split | l3xenv.js:123 | `split(',')` gives one more piece than there are separators, and no piece holds the separator |
| Ascii.JoinSplit | l3xenv.js:123 | joining the pieces of a split gives the text back |
| Ascii.SplitJoin | l3xenv.js:123 | splitting a join of separator-free pieces gives the pieces back |
| Decimal.IntToString | l3xenv.js:85 | `String(n)` for an integer: a minus sign for negatives, then the decimal digits |
| Decimal.ParseInteger | l3xenv.js:90 | `Number(s)` on trimmed, optionally signed decimal text, with whitespace-only text reading as 0 |
| Decimal.NatToDigits | l3xenv.js:90 | the decimal digits of a number have no leading zero |
| Decimal.DigitsRoundTrip | l3xenv.js:90 | reading back the decimal digits of a number gives the number |
| Decimal.IntegerRoundTrip | l3xenv.js:90 | `Number(String(n)) == n` for every integer |
| Decimal.ParseIntegerTrim | l3xenv.js:90 | `Number` depends only on the trimmed text |

## Left out

- Path resolution and file reading in `config` (l3xenv.js:29-42) are I/O. This covers `options.path`, `require.main`, `fs.existsSync`, the cwd fallback, `readFileSync` and `options.encoding`. `Store.Env.Config` takes the file text, or `None` for a failed read.
- `subFolder` (l3xenv.js:1-4) only calls `path.resolve`, so it is left out.
- Accessors.ToNumber: `Number()` covers optionally signed decimal integers with surrounding whitespace, and whitespace-only text reads as 0. Fractions, exponents, hex, `Infinity` and floating point read as NaN (an invalid type), because the model has no floating point. The `Num` values of the model are integers for the same reason.
- Decimal.IntToString: `String()` of a number is exact decimal; JavaScript's exponent form for very large magnitudes is not modelled.
- `JSON.parse` is a foreign parser. `GetJson` takes it as a partial function parameter, so only the pass-through of objects and the error wrapping are modelled.
- Accessors.Allowed: `choices.includes` is modelled for scalar values only. A coerced array or object is a fresh object and is never found, which matches reference equality for everything but a default object that is itself listed in `choices`.
- A default array that holds anything but strings (`getArray('X', {default: [1, null]})`, l3xenv.js:122) is not modelled: `Value.Arr` holds strings only, the type getArray produces from a stored string.
- `config`'s `{ error }` result (l3xenv.js:50-51) is `ReadFailed` without the error object, since the error comes from the file system.
- The process store holds strings only. A `null` entry cannot be stored through `process.env`, so `has` and `getEnv` treat absent and `''` as the only missing cases; `Null` appears only as a default.
- JavaScript plain-object quirks are not modelled. `obj` in `parse` and `process.env` both inherit `Object.prototype` names in Node. So `${constructor}` (l3xenv.js:21), `key in process.env` for a key such as `toString` (l3xenv.js:45), `process.env[k]` in getEnv and `has` (l3xenv.js:57, 129), and a `__proto__` key behave differently there. Both are maps in the model, holding only what was put in them.
- `\s`, `trim` and `toLowerCase` are modelled on ASCII; Unicode whitespace, Unicode line terminators in `.`, and non-ASCII case mapping are not.
- Error messages are modelled as error kinds that carry the variable name, the expected type, the rejected value or the bound. The message strings themselves are not modelled.
- `Object.keys` order in the merge is not modelled: the merge result does not depend on it (`Store.Env.Merge` picks keys in any order).
- Exceptions thrown by `parser(value)` other than the coercion failures are out of scope. So are the `options.type` label supplied by a caller, which every accessor overwrites, and the spread of `options`.
- test/example.js is a usage script built on `console` and `process.exit`, and l3xenv.d.ts only declares types; neither has logic to model.
