/**
 * The `t` function of `useTranslation` (lib/translations/index.ts:28-74):
 * validate the options, consult the shared cache when caching is requested,
 * otherwise walk the dotted key through the static table, store what was
 * found, and fall back to the key itself on any error.
 *
 * The store's current language and provider, the static table and the clock
 * are parameters.
 */
module Resolver {
  import opened Wrappers
  import opened Nested
  import opened Types
  import opened Cache

  /** The section `t` reads when the caller names none. */
  const DEFAULT_SECTION: string := "common"

  /** The separator inside cache keys. */
  const COLON: char := ':'

  /** The cache key `${key}:${language}:${section}:${provider}`. */
  function CacheKey(key: string, language: Language, section: string, provider: Provider): (k: string)
    ensures |k| > |key| && k[..|key|] == key && k[|key|] == COLON
    ensures |k| > |ProviderName(provider)| && k[|k| - |ProviderName(provider)|..] == ProviderName(provider)
    ensures k[|k| - |ProviderName(provider)| - 1] == COLON
  {
    key + [COLON] + LanguageCode(language) + [COLON] + section + [COLON] + ProviderName(provider)
  }

  /** A separator that lands after the shorter head must lie inside the other tail. */
  lemma ColonInside(a: string, b: string, c: string, d: string)
    requires a + [COLON] + b == c + [COLON] + d
    ensures |a| > |c| ==> COLON in d
  {
    if |a| > |c| {
      var x := a + [COLON] + b;
      assert x[|a|] == COLON;
      assert x[|a|] == d[|a| - |c| - 1];
    }
  }

  /** Splitting at the last separator: the part after it holds no separator, so both parts are determined. */
  lemma LastColon(a: string, b: string, c: string, d: string)
    requires COLON !in b && COLON !in d
    requires a + [COLON] + b == c + [COLON] + d
    ensures a == c && b == d
  {
    ColonInside(a, b, c, d);
    ColonInside(c, d, a, b);
    var x := a + [COLON] + b;
    assert a == x[..|a|] && c == x[..|c|];
    assert b == x[|a| + 1..] && d == x[|c| + 1..];
  }

  /**
   * Cache keys never collide as long as sections hold no colon (the
   * source's sections are `common`, `categories` and `products`): the
   * language, section and provider are read back from the end of the key,
   * and what is left is the text key, whatever it contains.
   */
  lemma CacheKeyInjective(k1: string, l1: Language, s1: string, p1: Provider,
                          k2: string, l2: Language, s2: string, p2: Provider)
    requires COLON !in s1 && COLON !in s2
    ensures CacheKey(k1, l1, s1, p1) == CacheKey(k2, l2, s2, p2) ==> k1 == k2 && l1 == l2 && s1 == s2 && p1 == p2
  {
    if CacheKey(k1, l1, s1, p1) == CacheKey(k2, l2, s2, p2) {
      assert COLON !in ProviderName(p1) && COLON !in ProviderName(p2);
      LastColon(k1 + [COLON] + LanguageCode(l1) + [COLON] + s1, ProviderName(p1),
                k2 + [COLON] + LanguageCode(l2) + [COLON] + s2, ProviderName(p2));
      LastColon(k1 + [COLON] + LanguageCode(l1), s1, k2 + [COLON] + LanguageCode(l2), s2);
      assert COLON !in LanguageCode(l1) && COLON !in LanguageCode(l2);
      LastColon(k1, LanguageCode(l1), k2, LanguageCode(l2));
      LanguageCodeRoundTrip(l1, LanguageCode(l2));
      ProviderNameRoundTrip(p1, ProviderName(p2));
    }
  }

  /** `validatedOptions.cache` is truthy. */
  predicate CachingOn(o: Options)
  {
    o.cache == Some(true)
  }

  /**
   * The object a key is looked up in, `translations[section][language]`:
   * the same as walking the two-step path `[section, language]`.
   */
  function SectionRoot(table: Node, section: string, language: Language): (r: Option<Node>)
    ensures r == WalkPath(table, [section, LanguageCode(language)])
  {
    var code := LanguageCode(language);
    assert [section, code][1..] == [code] && [code][1..] == [];
    if table.Branch? && section in table.children then
      var bySection := table.children[section];
      if bySection.Branch? && code in bySection.children then
        assert WalkPath(bySection, [code]) == WalkPath(bySection.children[code], []);
        Some(bySection.children[code])
      else None
    else None
  }

  /** What the table holds for the dotted key; None where `t` would throw. */
  function Lookup(table: Node, section: string, language: Language, key: string): (r: Option<Node>)
    ensures r == WalkPath(table, [section, LanguageCode(language)] + Split(key, DOT))
  {
    WalkAppend(table, [section, LanguageCode(language)], Split(key, DOT));
    match SectionRoot(table, section, language)
    case None => None
    case Some(root) => WalkPath(root, Split(key, DOT))
  }

  /** The loop over the key's parts: stop with None at the first property that is undefined. */
  method Walk(start: Node, parts: seq<string>) returns (found: Option<Node>)
    ensures found == WalkPath(start, parts)
  {
    var result := start;
    var i := 0;
    while i < |parts|
      invariant 0 <= i <= |parts|
      invariant WalkPath(start, parts) == WalkPath(result, parts[i..])
    {
      var k := parts[i];
      assert parts[i..][1..] == parts[i + 1..];
      if !(result.Branch? && k in result.children) {
        return None;
      }
      result := result.children[k];
      i := i + 1;
    }
    return Some(result);
  }

  /** What `t` returns and the cache state it leaves. */
  datatype Outcome = Outcome(text: Node, cache: CacheState)

  /**
   * The meaning of one call of `t` at time `now`, from the cache state `s`:
   * an invalid options object or a missing translation gives back the key;
   * with caching on, a truthy cached value is returned as it is, and a value
   * found in the table is stored under the cache key.
   */
  function Translation(table: Node, language: Language, provider: Provider, s: CacheState, now: nat,
                       key: string, section: string, options: RawOptions): (o: Outcome)
    requires WellFormed(s)
    ensures WellFormed(o.cache)
    ensures o.text == Leaf(key) || Some(o.text) == Lookup(table, section, language, key) ||
            Some(o.text) == Fetch(s, CacheKey(key, language, section, provider), now)
    ensures forall k :: k in o.cache.entries && k != CacheKey(key, language, section, provider) ==>
              k in s.entries && o.cache.entries[k] == s.entries[k]
  {
    match Validate(options)
    case None => Outcome(Leaf(key), s)
    case Some(opts) =>
      if !CachingOn(opts) then
        match Lookup(table, section, language, key)
        case None => Outcome(Leaf(key), s)
        case Some(n) => Outcome(n, s)
      else
        var cacheKey := CacheKey(key, language, section, provider);
        var cached := Fetch(s, cacheKey, now);
        var afterRead := AfterGet(s, cacheKey, now);
        if cached.Some? && Truthy(cached.value) then Outcome(cached.value, afterRead)
        else
          match Lookup(table, section, language, key)
          case None => Outcome(Leaf(key), afterRead)
          case Some(n) => Outcome(n, AfterSet(afterRead, cacheKey, n, provider, now))
  }

  /** `t(key, section = 'common', options = {})`, using and updating the shared cache. */
  method Translate(cache: TranslationCache, table: Node, language: Language, provider: Provider, now: nat,
                   key: string, section: string := DEFAULT_SECTION, options: RawOptions := NoOptions)
    returns (text: Node)
    requires cache.Valid()
    modifies cache
    ensures cache.Valid()
    ensures text == Translation(table, language, provider, old(cache.State()), now, key, section, options).text
    ensures cache.State() == Translation(table, language, provider, old(cache.State()), now, key, section, options).cache
  {
    var validated := Validate(options);
    if validated.None? {
      return Leaf(key);
    }
    var cacheKey: Option<string> :=
      if validated.value.cache == Some(true) then Some(CacheKey(key, language, section, provider)) else None;
    if cacheKey.Some? {
      var cached := cache.Get(cacheKey.value, now);
      if cached.Some? && Truthy(cached.value) {
        return cached.value;
      }
    }
    var keys := Split(key, DOT);
    var root := SectionRoot(table, section, language);
    if root.None? {
      return Leaf(key);
    }
    var found := Walk(root.value, keys);
    if found.None? {
      return Leaf(key);
    }
    if cacheKey.Some? {
      cache.Set(cacheKey.value, found.value, provider, now);
    }
    return found.value;
  }

  /** With caching off, `t` neither reads nor writes the cache: it returns the table's value or the key. */
  lemma CachingOffLeavesCacheAlone(table: Node, language: Language, provider: Provider, s: CacheState, now: nat,
                                   key: string, section: string, options: RawOptions)
    requires WellFormed(s) && Validate(options).Some? && !CachingOn(Validate(options).value)
    ensures Translation(table, language, provider, s, now, key, section, options).cache == s
    ensures Translation(table, language, provider, s, now, key, section, options).text ==
      match Lookup(table, section, language, key) case None => Leaf(key) case Some(n) => n
  {
  }

  /** The defaults: section `common` and `{}` as options, which leave caching off. */
  lemma DefaultsLeaveCachingOff(table: Node, language: Language, provider: Provider, s: CacheState, now: nat, key: string)
    requires WellFormed(s)
    ensures Translation(table, language, provider, s, now, key, DEFAULT_SECTION, NoOptions).cache == s
    ensures Translation(table, language, provider, s, now, key, DEFAULT_SECTION, NoOptions).text ==
      match Lookup(table, "common", language, key) case None => Leaf(key) case Some(n) => n
  {
  }

  /** Options that fail validation (a timeout of 500, say) make `t` return the key and leave the cache alone. */
  lemma InvalidOptionsFallBack(table: Node, language: Language, provider: Provider, s: CacheState, now: nat,
                               key: string, section: string, options: RawOptions)
    requires WellFormed(s) && !ValidOptions(options)
    ensures Translation(table, language, provider, s, now, key, section, options) == Outcome(Leaf(key), s)
  {
  }

  /** A timeout below the lower bound is such an invalid options object. */
  lemma ShortTimeoutIsInvalid()
    ensures !ValidOptions(NoOptions.(cache := Some(JBool(true)), timeout := Some(JNumber(500.0))))
  {
  }

  /** Validation succeeds and the validated options ask for caching: `cache: true`, whatever the other fields are. */
  predicate AsksForCaching(options: RawOptions)
  {
    Validate(options).Some? && CachingOn(Validate(options).value)
  }

  /** A non-empty cached value is returned as it is; the table is not consulted and nothing else changes. */
  lemma CacheHitSkipsTable(table1: Node, table2: Node, language: Language, provider: Provider, s: CacheState, now: nat,
                           key: string, section: string, options: RawOptions)
    requires WellFormed(s) && AsksForCaching(options)
    requires var cached := Fetch(s, CacheKey(key, language, section, provider), now); cached.Some? && Truthy(cached.value)
    ensures Translation(table1, language, provider, s, now, key, section, options) ==
      Outcome(Fetch(s, CacheKey(key, language, section, provider), now).value, s)
    ensures Translation(table1, language, provider, s, now, key, section, options) ==
      Translation(table2, language, provider, s, now, key, section, options)
  {
    GetFresh(s, CacheKey(key, language, section, provider), now);
  }

  /** An empty cached string is falsy, so it counts as a miss: the table is consulted and its value stored. */
  lemma EmptyCachedStringIsMiss(table: Node, language: Language, provider: Provider, s: CacheState, now: nat,
                                key: string, section: string, options: RawOptions, n: Node)
    requires WellFormed(s) && AsksForCaching(options)
    requires Fetch(s, CacheKey(key, language, section, provider), now) == Some(Leaf(""))
    requires Lookup(table, section, language, key) == Some(n)
    ensures Translation(table, language, provider, s, now, key, section, options) ==
      Outcome(n, AfterSet(s, CacheKey(key, language, section, provider), n, provider, now))
  {
    GetFresh(s, CacheKey(key, language, section, provider), now);
  }

  /**
   * A key whose walk meets an undefined property gives back the key itself
   * and writes nothing to the cache (the read may still drop an expired entry).
   */
  lemma MissingKeyFallsBack(table: Node, language: Language, provider: Provider, s: CacheState, now: nat,
                            key: string, section: string, options: RawOptions)
    requires WellFormed(s) && Lookup(table, section, language, key).None?
    requires AsksForCaching(options) ==>
      var cached := Fetch(s, CacheKey(key, language, section, provider), now); cached.None? || !Truthy(cached.value)
    ensures Translation(table, language, provider, s, now, key, section, options).text == Leaf(key)
    ensures Translation(table, language, provider, s, now, key, section, options).cache ==
      if AsksForCaching(options) then AfterGet(s, CacheKey(key, language, section, provider), now)
      else s
  {
  }

  /**
   * On a miss, whatever the walk reaches is returned (a whole object when the
   * key names an inner node such as `sort`) and, with caching on, stored
   * under the cache key so that an immediate second call finds it.
   */
  lemma FoundValueIsCached(table: Node, language: Language, provider: Provider, s: CacheState, now: nat,
                           key: string, section: string, options: RawOptions, n: Node)
    requires WellFormed(s) && AsksForCaching(options)
    requires var cached := Fetch(s, CacheKey(key, language, section, provider), now); cached.None? || !Truthy(cached.value)
    requires Lookup(table, section, language, key) == Some(n)
    ensures Translation(table, language, provider, s, now, key, section, options).text == n
    ensures Fetch(Translation(table, language, provider, s, now, key, section, options).cache,
                  CacheKey(key, language, section, provider), now) == Some(n)
  {
    var cacheKey := CacheKey(key, language, section, provider);
    SetThenGet(AfterGet(s, cacheKey, now), cacheKey, n, provider, now);
  }

  /** The options object `{cache: true}`. */
  const CacheOn: RawOptions := NoOptions.(cache := Some(JBool(true)))

  /** The products section of the static table, English only. */
  const SortEn: Node := Branch(map["popularity" := Leaf("Popularity"), "rating" := Leaf("Highest Rating")])
  const Fixture: Node :=
    Branch(map["products" := Branch(map["en" := Branch(map["brand" := Leaf("Brand"), "sort" := SortEn])])])

  /** The English products object of the fixture. */
  lemma FixtureRoot()
    ensures SectionRoot(Fixture, "products", En) == Some(Fixture.children["products"].children["en"])
  {
    var products := Fixture.children["products"];
    assert "en" in products.children;
    assert WalkPath(products, ["en"]) == WalkPath(products.children["en"], []);
    assert ["products", "en"][1..] == ["en"];
    assert WalkPath(Fixture, ["products", "en"]) == WalkPath(products, ["en"]);
  }

  /**
   * `t('sort.popularity', 'products')` in English is "Popularity", for any key
   * that splits into `sort` and `popularity`; FixtureKeyLeaf shows the literal
   * `sort.popularity` is one, and FixturePopularity states it for that literal.
   */
  lemma FixtureLeaf(key: string)
    requires Split(key, DOT) == ["sort", "popularity"]
    ensures Lookup(Fixture, "products", En, key) == Some(Leaf("Popularity"))
  {
    FixtureRoot();
    var en := Fixture.children["products"].children["en"];
    assert ["sort", "popularity"][1..] == ["popularity"];
    assert WalkPath(SortEn, ["popularity"]) == WalkPath(Leaf("Popularity"), []);
    assert WalkPath(en, ["sort", "popularity"]) == WalkPath(SortEn, ["popularity"]);
  }

  /**
   * `t('sort', 'products')` in English is the whole sort object, for any key
   * that splits into `sort` alone (FixtureKeySort; literal: FixtureSortObject).
   */
  lemma FixtureSubtree(key: string)
    requires Split(key, DOT) == ["sort"]
    ensures Lookup(Fixture, "products", En, key) == Some(SortEn)
  {
    FixtureRoot();
    var en := Fixture.children["products"].children["en"];
    assert WalkPath(en, ["sort"]) == WalkPath(SortEn, []);
  }

  /**
   * `t('sort.missing', 'products')` finds nothing, so `t` gives back the key,
   * for any key that splits into `sort` and `missing` (FixtureKeyMiss; literal:
   * FixtureMissingKey).
   */
  lemma FixtureMiss(key: string)
    requires Split(key, DOT) == ["sort", "missing"]
    ensures Lookup(Fixture, "products", En, key).None?
  {
    FixtureRoot();
    var en := Fixture.children["products"].children["en"];
    assert ["sort", "missing"][1..] == ["missing"];
    assert "missing" !in SortEn.children;
    assert WalkPath(en, ["sort", "missing"]) == WalkPath(SortEn, ["missing"]);
  }

  /** The dotted keys of the fixture split into their parts. */
  lemma FixtureKeyLeaf()
    ensures Split("sort.popularity", DOT) == ["sort", "popularity"]
  {
    var parts := ["sort", "popularity"];
    SplitJoin(parts, DOT);
    assert parts[1..] == ["popularity"];
    assert Join(parts, DOT) == "sort" + [DOT] + "popularity";
    assert "sort" + [DOT] + "popularity" == "sort.popularity";
  }

  lemma FixtureKeySort()
    ensures Split("sort", DOT) == ["sort"]
  {
    SplitJoin(["sort"], DOT);
  }

  lemma FixtureKeyMiss()
    ensures Split("sort.missing", DOT) == ["sort", "missing"]
  {
    var parts := ["sort", "missing"];
    SplitJoin(parts, DOT);
    assert parts[1..] == ["missing"];
    assert Join(parts, DOT) == "sort" + [DOT] + "missing";
    assert "sort" + [DOT] + "missing" == "sort.missing";
  }

  /**
   * On an empty cache with `{cache: true}`, `t('sort.popularity', 'products')`
   * in English gives "Popularity" and leaves it cached; stated for any key
   * splitting like `sort.popularity` (literal: FixtureCachedPopularity).
   */
  lemma FixtureCached(key: string, now: nat, provider: Provider)
    requires Split(key, DOT) == ["sort", "popularity"]
    ensures Translation(Fixture, En, provider, Empty, now, key, "products", CacheOn).text == Leaf("Popularity")
    ensures Fetch(Translation(Fixture, En, provider, Empty, now, key, "products", CacheOn).cache,
                  CacheKey(key, En, "products", provider), now) == Some(Leaf("Popularity"))
  {
    FixtureLeaf(key);
    FoundValueIsCached(Fixture, En, provider, Empty, now, key, "products", CacheOn, Leaf("Popularity"));
  }

  /**
   * `t('sort.missing', 'products')` gives back its key and caches nothing;
   * stated for any key splitting like `sort.missing` (literal: FixtureFallbackMissing).
   */
  lemma FixtureFallback(key: string, now: nat, provider: Provider)
    requires Split(key, DOT) == ["sort", "missing"]
    ensures Translation(Fixture, En, provider, Empty, now, key, "products", CacheOn) == Outcome(Leaf(key), Empty)
  {
    FixtureMiss(key);
    MissingKeyFallsBack(Fixture, En, provider, Empty, now, key, "products", CacheOn);
  }

  /** FixtureLeaf for the literal key `sort.popularity`. */
  lemma FixturePopularity()
    ensures Lookup(Fixture, "products", En, "sort.popularity") == Some(Leaf("Popularity"))
  {
    FixtureKeyLeaf();
    FixtureLeaf("sort.popularity");
  }

  /** FixtureSubtree for the literal key `sort`. */
  lemma FixtureSortObject()
    ensures Lookup(Fixture, "products", En, "sort") == Some(SortEn)
  {
    FixtureKeySort();
    FixtureSubtree("sort");
  }

  /** FixtureMiss for the literal key `sort.missing`. */
  lemma FixtureMissingKey()
    ensures Lookup(Fixture, "products", En, "sort.missing").None?
  {
    FixtureKeyMiss();
    FixtureMiss("sort.missing");
  }

  /** FixtureCached for the literal key `sort.popularity`. */
  lemma FixtureCachedPopularity(now: nat, provider: Provider)
    ensures Translation(Fixture, En, provider, Empty, now, "sort.popularity", "products", CacheOn).text == Leaf("Popularity")
    ensures Fetch(Translation(Fixture, En, provider, Empty, now, "sort.popularity", "products", CacheOn).cache,
                  CacheKey("sort.popularity", En, "products", provider), now) == Some(Leaf("Popularity"))
  {
    FixtureKeyLeaf();
    FixtureCached("sort.popularity", now, provider);
  }

  /** FixtureFallback for the literal key `sort.missing`. */
  lemma FixtureFallbackMissing(now: nat, provider: Provider)
    ensures Translation(Fixture, En, provider, Empty, now, "sort.missing", "products", CacheOn) == Outcome(Leaf("sort.missing"), Empty)
  {
    FixtureKeyMiss();
    FixtureFallback("sort.missing", now, provider);
  }
}
