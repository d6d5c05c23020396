/**
 * The closed enumerations, the cache entry record and the option schema of
 * lib/translations/types.ts.
 */
module Types {
  import opened Wrappers
  import opened Nested

  /** The two supported languages. */
  datatype Language = Id | En

  /** The language code used in the store and in cache keys. */
  function LanguageCode(l: Language): string
  {
    match l
    case Id => "id"
    case En => "en"
  }

  /** Reads a language code; exactly "id" and "en" are languages. */
  function ParseLanguage(code: string): (r: Option<Language>)
    ensures r.Some? <==> code == "id" || code == "en"
  {
    if code == "id" then Some(Id)
    else if code == "en" then Some(En)
    else None
  }

  /** The language codes and the languages correspond one to one. */
  lemma LanguageCodeRoundTrip(l: Language, code: string)
    ensures ParseLanguage(LanguageCode(l)) == Some(l)
    ensures ParseLanguage(code) == Some(l) <==> LanguageCode(l) == code
  {
  }

  /** The translation services a cached value may come from. */
  datatype Provider = Google | Microsoft | OpenAI

  /** The provider's identifier, as written in options and in cache keys. */
  function ProviderName(p: Provider): string
  {
    match p
    case Google => "google"
    case Microsoft => "microsoft"
    case OpenAI => "openai"
  }

  /** Reads a provider identifier: exactly the three enumerated names are accepted. */
  function ParseProvider(name: string): (r: Option<Provider>)
    ensures r.Some? <==> name == "google" || name == "microsoft" || name == "openai"
  {
    if name == "google" then Some(Google)
    else if name == "microsoft" then Some(Microsoft)
    else if name == "openai" then Some(OpenAI)
    else None
  }

  /** Provider names and providers correspond one to one. */
  lemma ProviderNameRoundTrip(p: Provider, name: string)
    ensures ParseProvider(ProviderName(p)) == Some(p)
    ensures ParseProvider(name) == Some(p) <==> ProviderName(p) == name
  {
  }

  /**
   * One cached translation: the value stored, the time of storing in
   * milliseconds, and the provider that produced it.
   */
  datatype CacheEntry = CacheEntry(text: Node, timestamp: nat, provider: Provider)

  /** A value a caller may put in a field of the options object. */
  datatype Json = JString(s: string) | JBool(b: bool) | JNumber(n: real) | JNull

  /** The options object as passed to `t`; None is an absent (or undefined) field. */
  datatype RawOptions = RawOptions(
    provider: Option<Json>,
    cache: Option<Json>,
    detect: Option<Json>,
    batch: Option<Json>,
    timeout: Option<Json>)

  /** The empty options object `{}`. */
  const NoOptions: RawOptions := RawOptions(None, None, None, None, None)

  /** The options after a successful parse. */
  datatype Options = Options(
    provider: Option<Provider>,
    cache: Option<bool>,
    detect: Option<bool>,
    batch: Option<bool>,
    timeout: Option<real>)

  /** Inclusive bounds on the timeout option, in milliseconds. */
  const MIN_TIMEOUT: real := 1000.0
  const MAX_TIMEOUT: real := 30000.0

  /** The schema's condition on each field: absent, or of the right type and range. */
  predicate ProviderFieldOk(v: Option<Json>)
  {
    v.None? || (v.value.JString? && v.value.s in {"google", "microsoft", "openai"})
  }

  predicate BoolFieldOk(v: Option<Json>)
  {
    v.None? || v.value.JBool?
  }

  predicate TimeoutFieldOk(v: Option<Json>)
  {
    v.None? || (v.value.JNumber? && MIN_TIMEOUT <= v.value.n <= MAX_TIMEOUT)
  }

  /** The option schema as a predicate: every field optional, each checked on its own. */
  predicate ValidOptions(raw: RawOptions)
  {
    && ProviderFieldOk(raw.provider)
    && BoolFieldOk(raw.cache)
    && BoolFieldOk(raw.detect)
    && BoolFieldOk(raw.batch)
    && TimeoutFieldOk(raw.timeout)
  }

  /** Field parsers: the outer None is a schema violation, the inner one an absent field. */
  function ParseProviderField(v: Option<Json>): Option<Option<Provider>>
  {
    match v
    case None => Some(None)
    case Some(JString(name)) =>
      (match ParseProvider(name) case None => None case Some(p) => Some(Some(p)))
    case Some(_) => None
  }

  function ParseBoolField(v: Option<Json>): Option<Option<bool>>
  {
    match v
    case None => Some(None)
    case Some(JBool(b)) => Some(Some(b))
    case Some(_) => None
  }

  function ParseTimeoutField(v: Option<Json>): Option<Option<real>>
  {
    match v
    case None => Some(None)
    case Some(JNumber(n)) => if n < MIN_TIMEOUT || n > MAX_TIMEOUT then None else Some(Some(n))
    case Some(_) => None
  }

  /**
   * `TranslationOptionsSchema.parse`: the parsed options, or None where the
   * parse throws. Parsing succeeds exactly when the schema predicate holds.
   */
  function Validate(raw: RawOptions): (r: Option<Options>)
    ensures r.Some? <==> ValidOptions(raw)
  {
    var provider := ParseProviderField(raw.provider);
    var cache := ParseBoolField(raw.cache);
    var detect := ParseBoolField(raw.detect);
    var batch := ParseBoolField(raw.batch);
    var timeout := ParseTimeoutField(raw.timeout);
    if provider.None? || cache.None? || detect.None? || batch.None? || timeout.None? then None
    else Some(Options(provider.value, cache.value, detect.value, batch.value, timeout.value))
  }

  /** The options object a caller writes to request the given parsed options. */
  function ToRaw(o: Options): RawOptions
  {
    RawOptions(
      match o.provider case None => None case Some(p) => Some(JString(ProviderName(p))),
      match o.cache case None => None case Some(b) => Some(JBool(b)),
      match o.detect case None => None case Some(b) => Some(JBool(b)),
      match o.batch case None => None case Some(b) => Some(JBool(b)),
      match o.timeout case None => None case Some(n) => Some(JNumber(n)))
  }

  /** The range condition on a parsed timeout. */
  predicate TimeoutInRange(o: Options)
  {
    o.timeout.None? || MIN_TIMEOUT <= o.timeout.value <= MAX_TIMEOUT
  }

  /**
   * The parse neither coerces nor invents values: it yields `o` exactly when
   * the input is the plain encoding of `o` and the timeout is in range.
   */
  lemma ValidateExactly(raw: RawOptions, o: Options)
    ensures Validate(raw) == Some(o) <==> raw == ToRaw(o) && TimeoutInRange(o)
  {
    if Validate(raw) == Some(o) {
      match raw.provider {
        case None =>
        case Some(v) =>
          ProviderNameRoundTrip(o.provider.value, v.s);
      }
    }
    if raw == ToRaw(o) && TimeoutInRange(o) {
      match o.provider {
        case None =>
        case Some(p) => ProviderNameRoundTrip(p, ProviderName(p));
      }
    }
  }

  /** The empty options object is valid, and it leaves caching off. */
  lemma EmptyOptionsValid()
    ensures Validate(NoOptions) == Some(Options(None, None, None, None, None))
  {
  }

  /** A timeout is accepted exactly within 1000..30000 inclusive. */
  lemma TimeoutBounds(n: real)
    ensures Validate(NoOptions.(timeout := Some(JNumber(n)))).Some? <==> 1000.0 <= n <= 30000.0
  {
  }
}
