/**
 * The public entry point `t(data, from, to, options)` and its one-entry cache.
 *
 * `t` reuses the map it built last time when the scheme pair is the same and
 * the options object compares equal; otherwise it builds a fresh map and
 * overwrites all four cache fields, but only once `makeMap` has returned.
 * ITRANS input is rewritten first, and the map's `fromRoman` flag selects
 * the roman or the Brahmic transliterator.
 */
module Facade {
  import opened Wrappers
  import opened Config
  import opened Schemes
  import opened MapBuilder
  import opened RomanSource
  import opened BrahmicSource
  import opened Itrans

  /** The object cache (`Cache`); every field starts out null. */
  datatype Cache = Cache(from: Option<string>, to: Option<string>, tmap: Option<TMap>, options: Option<Options>)

  const EmptyCache: Cache := Cache(None, None, None, None)

  /** What `t` can throw: an exception from `makeMap` or from the roman transliterator. */
  datatype TError = BuildFailed(build: BuildError) | RomanFailed(roman: RomanError)

  /**
   * Whether `t` reuses the cached map. With no cached options the source
   * compares against a freshly allocated `Options()`, whose arrays are new
   * objects and so never equal to the caller's: that comparison always fails.
   */
  predicate Hit(cache: Cache, from: string, to: string, o: Options) {
    && cache.from == Some(from)
    && cache.to == Some(to)
    && cache.options.Some?
    && SameOptions(o, cache.options.value)
    && cache.tmap.Some?
  }

  /** The input as the transliterator receives it: ITRANS input is rewritten first. */
  function Prepared(data: string, from: string): string {
    if from == "itrans" then ItransPrepass(data) else data
  }

  /** Transliteration with a given map: the roman or the Brahmic loop, as the map says. */
  function Run(data: string, m: TMap, o: Options): Result<string, TError> {
    if m.fromRoman then
      match TransliterateRoman(data, m, o)
      case Success(s) => Success(s)
      case Failure(e) => Failure(RomanFailed(e))
    else Success(TransliterateBrahmic(data, m))
  }

  /** What `t` computes when no cache is involved: build the map, then run. */
  function Transliterate(reg: Registry, data: string, from: string, to: string, o: Options): Result<string, TError> {
    match MakeMap(reg, from, to)
    case Failure(e) => Failure(BuildFailed(e))
    case Success(m) => Run(Prepared(data, from), m, o)
  }

  /** `t(data, from, to, options)`: the result and the cache afterwards. */
  function T(reg: Registry, cache: Cache, data: string, from: string, to: string, o: Options): (r: (Result<string, TError>, Cache))
    ensures Hit(cache, from, to, o) ==> r.1 == cache
    ensures !Hit(cache, from, to, o) && MakeMap(reg, from, to).Failure? ==>
              r == (Failure(BuildFailed(MakeMap(reg, from, to).error)), cache)
    ensures !Hit(cache, from, to, o) && MakeMap(reg, from, to).Success? ==>
              r.1 == Cache(Some(from), Some(to), Some(MakeMap(reg, from, to).value), Some(o))
  {
    if Hit(cache, from, to, o) then
      (Run(Prepared(data, from), cache.tmap.value, o), cache)
    else
      match MakeMap(reg, from, to)
      case Failure(e) => (Failure(BuildFailed(e)), cache)
      case Success(m) => (Run(Prepared(data, from), m, o), Cache(Some(from), Some(to), Some(m), Some(o)))
  }

  /** The cache agrees with the registry: a cached map is the one makeMap builds now. */
  predicate Valid(reg: Registry, cache: Cache) {
    cache.tmap.Some? ==>
      && cache.from.Some? && cache.to.Some?
      && MakeMap(reg, cache.from.value, cache.to.value) == Success(cache.tmap.value)
  }

  lemma EmptyCacheValid(reg: Registry)
    ensures Valid(reg, EmptyCache)
    ensures forall from, to, o :: !Hit(EmptyCache, from, to, o)
  {
  }

  /** Caching is invisible: with a valid cache `t` returns what a fresh build would. */
  lemma CachedEqualsFresh(reg: Registry, cache: Cache, data: string, from: string, to: string, o: Options)
    requires Valid(reg, cache)
    ensures T(reg, cache, data, from, to, o).0 == Transliterate(reg, data, from, to, o)
  {
  }

  /** `t` keeps the cache valid, whether it hits, rebuilds or fails. */
  lemma CacheStaysValid(reg: Registry, cache: Cache, data: string, from: string, to: string, o: Options)
    requires Valid(reg, cache)
    ensures Valid(reg, T(reg, cache, data, from, to, o).1)
  {
  }

  /** After a successful build the very same call is a hit. */
  lemma RepeatHits(reg: Registry, cache: Cache, data: string, from: string, to: string, o: Options)
    requires MakeMap(reg, from, to).Success?
    ensures Hit(T(reg, cache, data, from, to, o).1, from, to, o)
  {
  }

  /**
   * The cache changes exactly on a rebuild: it stays as it was on a hit and
   * when makeMap throws, and otherwise differs from what it was.
   */
  lemma CacheChangesIffRebuilt(reg: Registry, cache: Cache, data: string, from: string, to: string, o: Options)
    ensures T(reg, cache, data, from, to, o).1 == cache <==> (Hit(cache, from, to, o) || MakeMap(reg, from, to).Failure?)
  {
    if !Hit(cache, from, to, o) && MakeMap(reg, from, to).Success? {
      var c' := T(reg, cache, data, from, to, o).1;
      assert Hit(c', from, to, o);
    }
  }

  /**
   * Two option objects built separately never share a cache entry, even
   * with the same settings: every call that relies on the default options
   * rebuilds the map.
   */
  lemma SeparateOptionsMiss(cache: Cache, from: string, to: string, o: Options)
    requires cache.options.Some? && o.skipStarters.handle != cache.options.value.skipStarters.handle
    ensures !Hit(cache, from, to, o)
  {
  }

  /**
   * On a hit the registry is not consulted: a scheme registered or replaced
   * since the map was cached does not take effect until the cache misses.
   */
  lemma HitIgnoresRegistry(reg: Registry, reg': Registry, cache: Cache, data: string, from: string, to: string, o: Options)
    requires Hit(cache, from, to, o)
    ensures T(reg, cache, data, from, to, o) == T(reg', cache, data, from, to, o)
  {
  }

  /** The Brahmic loop never fails; only the roman one can, and only on an empty virama group. */
  lemma RunFailsOnlyOnVirama(data: string, m: TMap, o: Options)
    ensures Run(data, m, o).Failure? ==> m.fromRoman && |m.virama| == 0 && !m.toRoman
  {
  }

  /**
   * An ITRANS escape at the front of the input: the prepass turns "\c" into
   * "##c##", so c is written as it is and the rest is transliterated as if
   * it stood alone ("\nara" gives "n" followed by the reading of "ara").
   */
  lemma ItransEscapeAtFront(c: char, rest: string, m: TMap, o: Options)
    requires !IsAccent(c) && c != '#'
    requires !Occurs(['\\', c] + rest, "{\\m+}") && !Occurs(['\\', c] + rest, ".h")
    requires 2 <= m.maxTokenLength && NoHashKeys(m, o)
    requires OpensNoPrefix([c] + ("##" + EscapeBackslashes(rest)), m, o)
    ensures RomanRun(Prepared(['\\', c] + rest, "itrans"), m, o, Initial)
            == Join(Output([c], false), RomanRun(EscapeBackslashes(rest), m, o, Initial))
  {
    PrepassEscapeAtFront(c, rest);
    EscapedCharPasses(c, EscapeBackslashes(rest), m, o, false);
    assert "" + [c] == [c];
  }

  /**
   * A backslash at the end of ITRANS input disappears: the prepass writes
   * "####" for it, and the two toggles change nothing ("nara\" reads as
   * "nara").
   */
  lemma ItransTrailingBackslashVanishes(s: string, m: TMap, o: Options)
    requires NoBackslash(s) && !Occurs(s, ".h")
    requires forall i | 0 <= i < |s| :: s[i] != '#'
    requires 2 <= m.maxTokenLength && HashFreeKeys(m, o) && OpensNowhere(s, m, o)
    ensures RomanRun(Prepared(s + "\\", "itrans"), m, o, Initial) == RomanRun(Prepared(s, "itrans"), m, o, Initial)
  {
    PrepassTrailingBackslash(s);
    TrailingTogglesVanish(s, m, o, false);
  }
}
