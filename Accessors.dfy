/**
  The typed accessors of l3xenv.js: `getEnv` and the coercions of
  `getString`, `getNumber`, `getBoolean`, `getJSON` and `getArray`, and `has`.
  The environment store is passed in as a map; a thrown error is an `Err`.
 */
module Accessors {
  import opened Ascii
  import opened Decimal
  import opened Wrappers

  /** A JavaScript value as getEnv sees it: a string from the store, or a default of any type. */
  datatype Value =
    | Undefined
    | Null
    | Str(str: string)
    | Num(num: int)
    | Bool(truth: bool)
    | Arr(items: seq<string>)
    | Obj(fields: map<string, Value>)

  /** The accessor that called getEnv; every accessor sets `options.type` to its own name. */
  datatype Kind = StringKind | NumberKind | BooleanKind | JsonKind | ArrayKind

  /**
    The options getEnv reads. A `default` is present or absent, and a present
    default may itself be `undefined`; `choices` is absent when not given (or
    falsy); `min` and `max` are present only when they are numbers.
   */
  datatype Options = Options(
    default: Option<Value>, required: bool, choices: Option<seq<Value>>, min: Option<int>, max: Option<int>)

  /** The errors getEnv throws, each naming the variable. */
  datatype AccessError =
    | Missing(name: string)
    | InvalidType(name: string, expected: Kind)
    | InvalidChoice(name: string, rejected: Value)
    | BelowMin(name: string, number: int, min: int)
    | AboveMax(name: string, number: int, max: int)

  /** `process.env[name]`. */
  function Stored(env: map<string, string>, name: string): Value {
    if name in env then Str(env[name]) else Undefined
  }

  /** `value === undefined || value === null || value === ''`. */
  predicate IsMissing(v: Value) {
    v == Undefined || v == Null || v == Str("")
  }

  // ---------------------------------------------------------------------------
  // Coercions

  /** `String(v)`. */
  function ToString(v: Value): string {
    match v
    case Undefined => "undefined"
    case Null => "null"
    case Str(s) => s
    case Num(n) => IntToString(n)
    case Bool(b) => if b then "true" else "false"
    case Arr(xs) => Join(xs, ',')
    case Obj(_) => "[object Object]"
  }

  /** `Number(v)` on the integer subset; `None` is NaN. */
  function ToNumber(v: Value): Option<int> {
    match v
    case Undefined => None
    case Null => Some(0)
    case Str(s) => ParseInteger(s)
    case Num(n) => Some(n)
    case Bool(b) => Some(if b then 1 else 0)
    case Arr(xs) => ParseInteger(Join(xs, ','))
    case Obj(_) => None
  }

  /** The getBoolean coercion; `None` is the thrown error. */
  function ToBoolean(v: Value): Option<bool> {
    match v
    case Bool(b) => Some(b)
    case Num(n) => Some(n != 0)
    case Str(s) =>
      var t := Lower(Trim(s));
      if t == "true" || t == "1" then Some(true)
      else if t == "false" || t == "0" then Some(false)
      else None
    case _ => None
  }

  /** The getArray coercion: comma-separated pieces, each trimmed; empty pieces are kept. */
  function ToArray(v: Value): Option<seq<string>> {
    match v
    case Arr(xs) => Some(xs)
    case Str(s) =>
      var pieces := Split(s, ',');
      Some(seq(|pieces|, i requires 0 <= i < |pieces| => Trim(pieces[i])))
    case _ => None
  }

  /** The getJSON coercion: objects (`null` and arrays included) pass through, anything else goes to `JSON.parse`. */
  function ToJson(v: Value, parseJson: string -> Option<Value>): Option<Value> {
    if v.Null? || v.Arr? || v.Obj? then Some(v) else parseJson(ToString(v))
  }

  function StringCoercion(v: Value): Option<Value> {
    Some(Str(ToString(v)))
  }

  function NumberCoercion(v: Value): Option<Value> {
    match ToNumber(v)
    case None => None
    case Some(n) => Some(Num(n))
  }

  function BooleanCoercion(v: Value): Option<Value> {
    match ToBoolean(v)
    case None => None
    case Some(b) => Some(Bool(b))
  }

  function ArrayCoercion(v: Value): Option<Value> {
    match ToArray(v)
    case None => None
    case Some(xs) => Some(Arr(xs))
  }

  // ---------------------------------------------------------------------------
  // The validation pipeline

  /**
    `choices.includes(parsed)` for the values it can find: strings, numbers,
    booleans, null and undefined compare by value; a fresh array or object is
    never in the list.
   */
  predicate Allowed(choices: seq<Value>, v: Value) {
    !v.Arr? && !v.Obj? && v in choices
  }

  /** Coercion, then `choices`, then `min`, then `max` (bounds only for a number). */
  function Validate(name: string, coerce: Value -> Option<Value>, kind: Kind, raw: Value, opts: Options)
    : Result<Value, AccessError>
  {
    match coerce(raw)
    case None => Err(InvalidType(name, kind))
    case Some(v) =>
      if opts.choices.Some? && !Allowed(opts.choices.value, v) then Err(InvalidChoice(name, v))
      else if v.Num? && opts.min.Some? && v.num < opts.min.value then Err(BelowMin(name, v.num, opts.min.value))
      else if v.Num? && opts.max.Some? && v.num > opts.max.value then Err(AboveMax(name, v.num, opts.max.value))
      else Ok(v)
  }

  /**
    `getEnv(name, parser, options)`: a missing value is replaced by the default
    when there is one and is an error otherwise, `required` or not.
   */
  function GetEnv(env: map<string, string>, name: string, coerce: Value -> Option<Value>, kind: Kind, opts: Options)
    : (r: Result<Value, AccessError>)
    ensures r.Err? ==> r.error.name == name
    ensures r.Err? && r.error.InvalidType? ==> r.error.expected == kind
  {
    var stored := Stored(env, name);
    if IsMissing(stored) then
      if opts.default.Some? then Validate(name, coerce, kind, opts.default.value, opts)
      else if opts.required then Err(Missing(name))
      else Err(Missing(name))
    else
      Validate(name, coerce, kind, stored, opts)
  }

  function GetString(env: map<string, string>, name: string, opts: Options): Result<Value, AccessError> {
    GetEnv(env, name, StringCoercion, StringKind, opts)
  }

  function GetNumber(env: map<string, string>, name: string, opts: Options): Result<Value, AccessError> {
    GetEnv(env, name, NumberCoercion, NumberKind, opts)
  }

  function GetBoolean(env: map<string, string>, name: string, opts: Options): Result<Value, AccessError> {
    GetEnv(env, name, BooleanCoercion, BooleanKind, opts)
  }

  function GetJson(env: map<string, string>, name: string, opts: Options, parseJson: string -> Option<Value>)
    : Result<Value, AccessError>
  {
    GetEnv(env, name, v => ToJson(v, parseJson), JsonKind, opts)
  }

  function GetArray(env: map<string, string>, name: string, opts: Options): Result<Value, AccessError> {
    GetEnv(env, name, ArrayCoercion, ArrayKind, opts)
  }

  /** `has(name)`: the store holds a non-empty value. */
  function Has(env: map<string, string>, name: string): (r: bool)
    ensures r <==> name in env && env[name] != ""
  {
    !IsMissing(Stored(env, name))
  }

  // ---------------------------------------------------------------------------
  // Properties of the pipeline

  /** The missing-variable error comes exactly from a missing value with no default. */
  lemma MissingIff(env: map<string, string>, name: string, coerce: Value -> Option<Value>, kind: Kind, opts: Options)
    ensures GetEnv(env, name, coerce, kind, opts) == Err(Missing(name))
        <==> !Has(env, name) && opts.default.None?
  {
  }

  /** `has` and getEnv agree on what is missing. */
  lemma HasAgreesWithGetEnv(env: map<string, string>, name: string, coerce: Value -> Option<Value>, kind: Kind, opts: Options)
    requires opts.default.None?
    ensures !Has(env, name) <==> GetEnv(env, name, coerce, kind, opts).Err? && GetEnv(env, name, coerce, kind, opts).error.Missing?
  {
  }

  /** `required` changes nothing. */
  lemma RequiredIgnored(env: map<string, string>, name: string, coerce: Value -> Option<Value>, kind: Kind,
                        opts: Options, required: bool)
    ensures GetEnv(env, name, coerce, kind, opts.(required := required)) == GetEnv(env, name, coerce, kind, opts)
  {
  }

  /** A default string goes through the same coercion and checks as the same string in the store. */
  lemma DefaultAsStored(env: map<string, string>, name: string, coerce: Value -> Option<Value>, kind: Kind,
                        opts: Options, d: string)
    requires !Has(env, name) && opts.default == Some(Str(d)) && d != ""
    ensures GetEnv(env, name, coerce, kind, opts) == GetEnv(env[name := d], name, coerce, kind, opts)
  {
  }

  /** A value that is present ignores the default. */
  lemma PresentIgnoresDefault(env: map<string, string>, name: string, coerce: Value -> Option<Value>, kind: Kind,
                              opts: Options, default: Option<Value>)
    requires Has(env, name)
    ensures GetEnv(env, name, coerce, kind, opts.(default := default)) == GetEnv(env, name, coerce, kind, opts)
  {
  }

  /** A value getEnv returns is the coerced input and passed every configured check. */
  lemma ValidateSound(name: string, coerce: Value -> Option<Value>, kind: Kind, raw: Value, opts: Options, v: Value)
    requires Validate(name, coerce, kind, raw, opts) == Ok(v)
    ensures coerce(raw) == Some(v)
    ensures opts.choices.Some? ==> Allowed(opts.choices.value, v)
    ensures v.Num? && opts.min.Some? ==> v.num >= opts.min.value
    ensures v.Num? && opts.max.Some? ==> v.num <= opts.max.value
  {
  }

  /** A coerced value that passes every configured check is returned. */
  lemma ValidateComplete(name: string, coerce: Value -> Option<Value>, kind: Kind, raw: Value, opts: Options, v: Value)
    requires coerce(raw) == Some(v)
    requires opts.choices.Some? ==> Allowed(opts.choices.value, v)
    requires v.Num? && opts.min.Some? ==> v.num >= opts.min.value
    requires v.Num? && opts.max.Some? ==> v.num <= opts.max.value
    ensures Validate(name, coerce, kind, raw, opts) == Ok(v)
  {
  }

  /** A failed coercion is reported as an invalid type whatever the later checks would say. */
  lemma CoercionFirst(name: string, coerce: Value -> Option<Value>, kind: Kind, raw: Value, opts: Options,
                      choices: Option<seq<Value>>, min: Option<int>, max: Option<int>)
    requires coerce(raw).None?
    ensures Validate(name, coerce, kind, raw, opts.(choices := choices, min := min, max := max))
         == Err(InvalidType(name, kind))
  {
  }

  /** A value outside `choices` is reported as such whatever the bounds are. */
  lemma ChoicesBeforeBounds(name: string, coerce: Value -> Option<Value>, kind: Kind, raw: Value, opts: Options,
                            min: Option<int>, max: Option<int>)
    requires coerce(raw).Some? && opts.choices.Some? && !Allowed(opts.choices.value, coerce(raw).value)
    ensures Validate(name, coerce, kind, raw, opts.(min := min, max := max))
         == Err(InvalidChoice(name, coerce(raw).value))
  {
  }

  /** A number that passes `choices` is checked against the minimum before the maximum. */
  lemma MinBeforeMax(name: string, coerce: Value -> Option<Value>, kind: Kind, raw: Value, opts: Options, n: int)
    requires coerce(raw) == Some(Num(n))
    requires opts.choices.Some? ==> Allowed(opts.choices.value, Num(n))
    requires opts.min.Some? && n < opts.min.value
    ensures Validate(name, coerce, kind, raw, opts) == Err(BelowMin(name, n, opts.min.value))
  {
  }

  /** A number that passes `choices` and the minimum fails only when it exceeds the maximum. */
  lemma MaxLast(name: string, coerce: Value -> Option<Value>, kind: Kind, raw: Value, opts: Options, n: int)
    requires coerce(raw) == Some(Num(n))
    requires opts.choices.Some? ==> Allowed(opts.choices.value, Num(n))
    requires opts.min.Some? ==> opts.min.value <= n
    ensures opts.max.Some? && n > opts.max.value ==> Validate(name, coerce, kind, raw, opts) == Err(AboveMax(name, n, opts.max.value))
    ensures !(opts.max.Some? && n > opts.max.value) ==> Validate(name, coerce, kind, raw, opts) == Ok(Num(n))
  {
  }

  /** Bounds apply only to numbers. */
  lemma BoundsOnlyForNumbers(name: string, coerce: Value -> Option<Value>, kind: Kind, raw: Value, opts: Options,
                             min: Option<int>, max: Option<int>)
    requires coerce(raw).Some? ==> !coerce(raw).value.Num?
    ensures Validate(name, coerce, kind, raw, opts.(min := min, max := max)) == Validate(name, coerce, kind, raw, opts)
  {
  }

  // ---------------------------------------------------------------------------
  // Properties of the coercions

  /** A present string comes back unchanged from getString when no choices are given. */
  lemma GetStringPresent(env: map<string, string>, name: string, opts: Options)
    requires Has(env, name) && opts.choices.None?
    ensures GetString(env, name, opts) == Ok(Str(env[name]))
  {
  }

  /** `Number(String(n)) == n`, also with whitespace around the digits. */
  lemma NumberRoundTrip(n: int, a: string, b: string)
    requires AllSpace(a) && AllSpace(b)
    ensures ToNumber(Str(a + ToString(Num(n)) + b)) == Some(n)
  {
    var s := IntToString(n);
    assert ToString(Num(n)) == s;
    TrimPadded(a, s, b);
    ParseIntegerTrim(a + s + b, s);
    IntegerRoundTrip(n);
  }

  lemma LowerIdempotent(s: string)
    ensures Lower(Lower(s)) == Lower(s)
  {
  }

  /** Booleans survive `String` and getBoolean: `"true"` and `"false"` come back. */
  lemma BooleanRoundTrip(b: bool)
    ensures ToBoolean(Str(ToString(Bool(b)))) == Some(b)
  {
    var s := ToString(Bool(b));
    TrimUnpadded(s);
    assert Lower(s) == s;
  }

  /** getBoolean ignores surrounding whitespace. */
  lemma BooleanIgnoresPadding(a: string, s: string, b: string)
    requires AllSpace(a) && AllSpace(b)
    ensures ToBoolean(Str(a + s + b)) == ToBoolean(Str(s))
  {
    TrimPadded(a, s, b);
  }

  /** getBoolean ignores letter case. */
  lemma BooleanIgnoresCase(s: string)
    ensures ToBoolean(Str(Lower(s))) == ToBoolean(Str(s))
  {
    LowerTrim(s);
    LowerIdempotent(Trim(s));
  }

  /**
    getBoolean accepts booleans, numbers (by truthiness) and the strings that
    read `true`, `1`, `false` or `0` after trimming and lower-casing; every
    other value is an invalid type.
   */
  lemma BooleanDomain(v: Value)
    ensures BooleanCoercion(v).Some? <==> v.Bool? || v.Num? || (v.Str? && IsBooleanWord(Lower(Trim(v.str))))
  {
  }

  /** Booleans pass through and numbers convert by truthiness. */
  lemma BooleanNonString(v: Value)
    ensures v.Num? ==> BooleanCoercion(v) == Some(Bool(v.num != 0))
    ensures v.Bool? ==> BooleanCoercion(v) == Some(v)
  {
  }

  /** The four spellings getBoolean accepts once trimmed and lower-cased. */
  predicate IsBooleanWord(t: string) {
    t == "true" || t == "1" || t == "false" || t == "0"
  }

  /** A stored string reads as true exactly for `true`/`1` and as false exactly for `false`/`0`, any case and padding. */
  lemma GetBooleanStored(env: map<string, string>, name: string, opts: Options)
    requires Has(env, name) && opts.choices.None?
    ensures var t := Lower(Trim(env[name]));
      && (GetBoolean(env, name, opts) == Ok(Bool(true)) <==> t == "true" || t == "1")
      && (GetBoolean(env, name, opts) == Ok(Bool(false)) <==> t == "false" || t == "0")
      && (GetBoolean(env, name, opts).Err? ==> GetBoolean(env, name, opts).error == InvalidType(name, BooleanKind))
  {
  }

  /** getArray passes arrays through, splits strings, and rejects every other value. */
  lemma ArrayDomain(v: Value)
    ensures ArrayCoercion(v).Some? <==> v.Arr? || v.Str?
    ensures v.Arr? ==> ArrayCoercion(v) == Some(v)
  {
  }

  /** A string becomes one trimmed piece per comma plus one; empty pieces are kept. */
  lemma ArrayPieces(s: string)
    ensures ToArray(Str(s)).Some?
    ensures var xs := ToArray(Str(s)).value;
      && |xs| == Count(s, ',') + 1
      && forall i :: 0 <= i < |xs| ==> Trim(xs[i]) == xs[i] && ',' !in xs[i]
  {
    var pieces := Split(s, ',');
    var xs := ToArray(Str(s)).value;
    forall i | 0 <= i < |xs|
      ensures Trim(xs[i]) == xs[i] && ',' !in xs[i]
    {
      TrimTrimmed(pieces[i]);
    }
  }

  /** Joining trimmed, comma-free pieces with commas and reading them back with getArray gives the list back. */
  lemma ArrayRoundTrip(xs: seq<string>)
    requires |xs| >= 1
    requires forall i :: 0 <= i < |xs| ==> ',' !in xs[i] && Trim(xs[i]) == xs[i]
    ensures ToArray(Str(ToString(Arr(xs)))) == Some(xs)
  {
    var s := Join(xs, ',');
    assert ToString(Arr(xs)) == s;
    SplitJoin(xs, ',');
    TrimEach(xs, xs);
  }

  /**
    Padding each piece with whitespace before joining does not change what getArray
    reads back: piece i of the split is the i-th padded piece, and trimming it
    gives the i-th original piece.
   */
  lemma ArrayPadded(xs: seq<string>, a: seq<string>, b: seq<string>, padded: seq<string>)
    requires |xs| >= 1 && |a| == |xs| && |b| == |xs| && |padded| == |xs|
    requires forall i :: 0 <= i < |xs| ==> ',' !in xs[i] && Trim(xs[i]) == xs[i]
    requires forall i :: 0 <= i < |xs| ==> AllSpace(a[i]) && AllSpace(b[i])
    requires forall i :: 0 <= i < |xs| ==> padded[i] == a[i] + xs[i] + b[i]
    ensures ToArray(Str(Join(padded, ','))) == Some(xs)
  {
    forall i | 0 <= i < |xs|
      ensures ',' !in padded[i] && Trim(padded[i]) == xs[i]
    {
      PaddedPiece(a[i], xs[i], b[i]);
    }
    SplitJoin(padded, ',');
    TrimEach(padded, xs);
  }

  /** One padded piece: whitespace adds no comma, and trimming removes the padding. */
  lemma PaddedPiece(a: string, x: string, b: string)
    requires ',' !in x && Trim(x) == x && AllSpace(a) && AllSpace(b)
    ensures ',' !in a + x + b && Trim(a + x + b) == x
  {
    SpaceFree(a);
    SpaceFree(b);
    TrimPadded(a, x, b);
  }

  /** Whitespace holds no comma. */
  lemma SpaceFree(s: string)
    requires AllSpace(s)
    ensures ',' !in s
  {
    if ',' in s {
      var j :| 0 <= j < |s| && s[j] == ',';
      assert IsSpace(s[j]);
    }
  }

  /** The padded list `"a, b ,c"` reads back as `["a", "b", "c"]`. */
  lemma ArrayPaddedExample()
    ensures ToArray(Str("a, b ,c")) == Some(["a", "b", "c"])
  {
    var xs, pad, padded := ["a", "b", "c"], ["", " ", ""], ["a", " b ", "c"];
    assert padded[1] == pad[1] + xs[1] + pad[1];
    ArrayPadded(xs, pad, pad, padded);
    JoinThree();
  }

  lemma JoinThree()
    ensures Join(["a", " b ", "c"], ',') == "a, b ,c"
  {
    assert ["a", " b ", "c"][1..] == [" b ", "c"];
    assert [" b ", "c"][1..] == ["c"];
  }

  lemma TrimEach(pieces: seq<string>, xs: seq<string>)
    requires |pieces| == |xs|
    requires forall i :: 0 <= i < |xs| ==> Trim(pieces[i]) == xs[i]
    ensures seq(|pieces|, i requires 0 <= i < |pieces| => Trim(pieces[i])) == xs
  {
  }

  /** getJSON passes objects, arrays and null through without calling `JSON.parse`. */
  lemma JsonPassThrough(v: Value, parseJson: string -> Option<Value>)
    requires v.Null? || v.Arr? || v.Obj?
    ensures ToJson(v, parseJson) == Some(v)
  {
  }

  /** getJSON reports a failed `JSON.parse` as an invalid type. */
  lemma JsonParseFailure(env: map<string, string>, name: string, opts: Options, parseJson: string -> Option<Value>)
    requires Has(env, name) && parseJson(env[name]).None?
    ensures GetJson(env, name, opts, parseJson) == Err(InvalidType(name, JsonKind))
  {
  }
}
