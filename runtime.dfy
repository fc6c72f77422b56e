/**
 * The runtime `t` that rewritten components call: module-level strings loaded at most once from
 * the catalog file on the server, and a lookup by hash with a placeholder for unknown hashes.
 */
module Runtime {
  import opened Wrappers
  import opened JsString
  import opened StringsManager

  /** What `t` returns: `entry.text` when that is non-empty, else the entry object itself. */
  datatype Shown = Text(value: string) | WholeEntry(entry: ExtractedString)

  /** The placeholder for a hash that is not loaded: its first eight characters in brackets. */
  function Placeholder(hash: string): string {
    "[" + Prefix(hash, 8) + "]"
  }

  /** The lookup of `t` against the loaded strings. */
  function Lookup(stringsData: Catalog, hash: string): Shown {
    if hash !in stringsData then Text(Placeholder(hash))
    else if stringsData[hash].text != "" then Text(stringsData[hash].text)
    else WholeEntry(stringsData[hash])
  }

  /** An unknown hash shows as at most ten characters: the start of the hash between brackets. */
  lemma PlaceholderShape(stringsData: Catalog, hash: string)
    requires hash !in stringsData
    ensures var r := Lookup(stringsData, hash);
      && r.Text? && 2 <= |r.value| <= 10
      && r.value[0] == '[' && r.value[|r.value| - 1] == ']'
      && StartsWith(hash, r.value[1..|r.value| - 1])
      && (|hash| >= 8 ==> |r.value| == 10)
  {
    var r := Lookup(stringsData, hash);
    assert r.value[1..|r.value| - 1] == Prefix(hash, 8);
  }

  /** A known hash with text shows that text, whatever locale the caller has in mind. */
  lemma KnownHashShowsText(stringsData: Catalog, hash: string)
    requires hash in stringsData && stringsData[hash].text != ""
    ensures Lookup(stringsData, hash) == Text(stringsData[hash].text)
  {
  }

  /**
   * On a catalog entry the runtime `t` shows what the `t` of the generated file gives for English:
   * the two lookups agree on the default locale and on every hash the catalog has.
   */
  lemma RuntimeAgreesWithCatalogEnglish(digest: string -> string, stringsData: Catalog, hash: string)
    requires hash in stringsData && IsCatalogEntry(digest, stringsData[hash]) && stringsData[hash].text != ""
    ensures Lookup(stringsData, hash) == Text(CatalogT(stringsData, hash, None))
    ensures Lookup(stringsData, hash) == Text(CatalogT(stringsData, hash, Some("en")))
  {
    CatalogTOnEntry(digest, stringsData, hash, None);
    CatalogTOnEntry(digest, stringsData, hash, Some("en"));
  }

  /** The module-level state `stringsData` and `isLoaded`. */
  class RuntimeStrings {
    var stringsData: Catalog
    var isLoaded: bool

    constructor()
      ensures stringsData == map[] && !isLoaded
    {
      stringsData := map[];
      isLoaded := false;
    }

    /**
     * `loadStrings`. `isServer` is `typeof window === 'undefined'`; `fileContent` is the catalog
     * file, `None` when it does not exist; `extract` is the `const strings = {...};` pattern
     * followed by `JSON.parse`, `None` when the pattern does not match or the parse throws.
     * Loaded, or on the client, it does nothing; otherwise it loads when it can and stays
     * unloaded, so that a later call tries again, when it cannot.
     */
    method LoadStrings(isServer: bool, fileContent: Option<string>, extract: string -> Option<Catalog>)
      modifies this
      ensures old(isLoaded) || !isServer ==> stringsData == old(stringsData) && isLoaded == old(isLoaded)
      ensures !old(isLoaded) && isServer ==>
        if fileContent.Some? && extract(fileContent.value).Some? then
          stringsData == extract(fileContent.value).value && isLoaded
        else
          stringsData == old(stringsData) && !isLoaded
    {
      if isLoaded || !isServer {
        return;
      }
      if fileContent.Some? {
        var parsed := extract(fileContent.value);
        if parsed.Some? {
          stringsData := parsed.value;
          isLoaded := true;
        }
      }
    }

    /** `t(hash)`: loads first when not loaded on the server, then looks the hash up. */
    method T(hash: string, isServer: bool, fileContent: Option<string>, extract: string -> Option<Catalog>)
      returns (shown: Shown)
      modifies this
      ensures old(isLoaded) ==> stringsData == old(stringsData) && isLoaded
      ensures !old(isLoaded) && isServer && fileContent.Some? && extract(fileContent.value).Some? ==>
        stringsData == extract(fileContent.value).value && isLoaded
      ensures !old(isLoaded) && !(isServer && fileContent.Some? && extract(fileContent.value).Some?) ==>
        stringsData == old(stringsData) && !isLoaded
      ensures shown == Lookup(stringsData, hash)
    {
      if !isLoaded && isServer {
        LoadStrings(isServer, fileContent, extract);
      }
      shown := Lookup(stringsData, hash);
    }
  }
}
