/**
 * The string catalog. An extracted string is keyed by a digest of its text and of where it
 * occurs; the loader appends one record per string to the sink file `.text-extraction.tmp`; at
 * the end of a build the sink is merged into the catalog file `.next/extracted-strings.js`,
 * carrying over Russian translations entered by hand; the catalog file also carries a lookup
 * function `t` with a locale fallback.
 */
module StringsManager {
  import opened Wrappers
  import opened JsString
  import Pseudolocalization

  datatype Translations = Translations(en: string, ru: string, pseudo: string)

  /** Where a string occurs: the source file, the component and the JSX path inside it. */
  datatype Context = Context(file: string, component: string, path: string)

  datatype ExtractedString = ExtractedString(
    text: string,
    hash: string,
    translations: Translations,
    context: Context)

  /** `StringsDatabase`: the entries, by hash. */
  type Catalog = map<string, ExtractedString>

  /** The number of hex characters of the digest that are kept as the key. */
  const HashLength: nat := 16

  // ----- Keys

  /** A SHA-256 digest rendered in hex: 64 lowercase hexadecimal characters for every input. */
  ghost predicate IsHexDigest(digest: string -> string) {
    forall s :: |digest(s)| == 64 && forall i :: 0 <= i < 64 ==> IsLowerHex(digest(s)[i])
  }

  /** The context string `file:component:path`. */
  function ContextString(file: string, component: string, jsxPath: string): string {
    file + ":" + component + ":" + jsxPath
  }

  /** What is hashed: `text|context`. */
  function HashInput(text: string, context: string): string {
    text + "|" + context
  }

  /** `generateHash`: the first 16 characters of the digest of `text|context`. */
  function GenerateHash(digest: string -> string, text: string, context: string): (h: string)
    ensures StartsWith(digest(HashInput(text, context)), h)
    ensures |digest(HashInput(text, context))| >= HashLength ==> |h| == HashLength
    ensures IsHexDigest(digest) ==> |h| == HashLength && forall i :: 0 <= i < |h| ==> IsLowerHex(h[i])
  {
    var d := digest(HashInput(text, context));
    var h := Prefix(d, HashLength);
    assert forall i :: 0 <= i < |h| ==> h[i] == d[i];
    h
  }

  /** As long as the text has no `|`, the hashed input tells text and context apart. */
  lemma HashInputUnambiguous(text1: string, context1: string, text2: string, context2: string)
    requires '|' !in text1 && '|' !in text2
    requires HashInput(text1, context1) == HashInput(text2, context2)
    ensures text1 == text2 && context1 == context2
  {
    SeparatorSplitsUniquely(text1, context1, text2, context2, '|');
  }

  /** As long as file and component have no `:`, the context string tells its three parts apart. */
  lemma ContextStringUnambiguous(
    file1: string, component1: string, path1: string,
    file2: string, component2: string, path2: string)
    requires ':' !in file1 && ':' !in file2 && ':' !in component1 && ':' !in component2
    requires ContextString(file1, component1, path1) == ContextString(file2, component2, path2)
    ensures file1 == file2 && component1 == component2 && path1 == path2
  {
    assert ContextString(file1, component1, path1) == file1 + [':'] + (component1 + [':'] + path1);
    assert ContextString(file2, component2, path2) == file2 + [':'] + (component2 + [':'] + path2);
    SeparatorSplitsUniquely(file1, component1 + [':'] + path1, file2, component2 + [':'] + path2, ':');
    SeparatorSplitsUniquely(component1, path1, component2, path2, ':');
  }

  /** A `|` in the text makes two different strings hash the same input. */
  lemma HashInputAmbiguousWithBar()
    ensures HashInput("a|b", "c") == HashInput("a", "b|c")
  {
  }

  // ----- Records

  /** A catalog entry whose key, English text and pseudolocalization all derive from its text. */
  predicate IsCatalogEntry(digest: string -> string, e: ExtractedString) {
    && e.hash == GenerateHash(digest, e.text, ContextString(e.context.file, e.context.component, e.context.path))
    && e.translations.en == e.text
    && e.translations.pseudo == Pseudolocalization.Pseudolocalize(e.text)
  }

  /** A record as the loader writes it: a derived entry that has no Russian translation yet. */
  predicate IsSinkRecord(digest: string -> string, e: ExtractedString) {
    IsCatalogEntry(digest, e) && e.translations.ru == ""
  }

  /** The entry built for a string found in `file`, in `component`, at `jsxPath`. */
  function NewEntry(digest: string -> string, text: string, file: string, component: string, jsxPath: string): (e: ExtractedString)
    ensures IsSinkRecord(digest, e)
    ensures e.text == text && e.context == Context(file, component, jsxPath)
  {
    var hash := GenerateHash(digest, text, ContextString(file, component, jsxPath));
    ExtractedString(
      text,
      hash,
      Translations(text, "", Pseudolocalization.Pseudolocalize(text)),
      Context(file, component, jsxPath))
  }

  /** A sink record is fixed by its text and its context. */
  lemma SinkRecordDeterminedByTextAndContext(digest: string -> string, e: ExtractedString)
    requires IsSinkRecord(digest, e)
    ensures e == NewEntry(digest, e.text, e.context.file, e.context.component, e.context.path)
  {
  }

  /** `database[hash] = entry`: one key is set, overwriting what it held; every other key is kept. */
  function Upsert(db: Catalog, e: ExtractedString): (r: Catalog)
    ensures r.Keys == db.Keys + {e.hash}
    ensures r[e.hash] == e
    ensures forall k :: k in db && k != e.hash ==> r[k] == db[k]
  {
    db[e.hash := e]
  }

  // ----- The merge

  /** A non-empty Russian translation in the prior catalog replaces the record's; nothing else changes. */
  function WithPreservedRu(e: ExtractedString, prior: Catalog): (r: ExtractedString)
    ensures r.text == e.text && r.hash == e.hash && r.context == e.context
    ensures r.translations.en == e.translations.en && r.translations.pseudo == e.translations.pseudo
    ensures e.hash in prior && prior[e.hash].translations.ru != "" ==> r.translations.ru == prior[e.hash].translations.ru
    ensures !(e.hash in prior && prior[e.hash].translations.ru != "") ==> r == e
  {
    if e.hash in prior && prior[e.hash].translations.ru != "" then
      e.(translations := e.translations.(ru := prior[e.hash].translations.ru))
    else
      e
  }

  /**
   * The catalog built from the sink's lines in order: a line that does not parse (`None`) is
   * skipped, a record is stored under its hash after the `ru` rule. Every entry sits under its
   * own hash.
   */
  function Merged(records: seq<Option<ExtractedString>>, prior: Catalog): (db: Catalog)
    ensures forall k :: k in db ==> db[k].hash == k
    decreases |records|
  {
    if records == [] then map[]
    else
      var db := Merged(records[..|records| - 1], prior);
      match records[|records| - 1]
      case None => db
      case Some(e) => db[e.hash := WithPreservedRu(e, prior)]
  }

  /** `Merged` looks at the last record first. */
  lemma MergedUnfold(records: seq<Option<ExtractedString>>, prior: Catalog)
    requires records != []
    ensures Merged(records, prior) ==
      var db := Merged(records[..|records| - 1], prior);
      if records[|records| - 1].Some? then db[records[|records| - 1].value.hash := WithPreservedRu(records[|records| - 1].value, prior)] else db
  {
  }

  /** One more record: a parsed line enters the catalog under its hash, with the Russian text kept. */
  lemma MergedSnoc(records: seq<Option<ExtractedString>>, prior: Catalog, i: nat)
    requires i < |records|
    ensures Merged(records[..i + 1], prior) ==
      var db := Merged(records[..i], prior);
      if records[i].Some? then db[records[i].value.hash := WithPreservedRu(records[i].value, prior)] else db
  {
    MergedUnfold(records[..i + 1], prior);
    assert records[..i + 1][..i] == records[..i];
  }

  /** The hashes of the records that parsed. */
  function RecordHashes(records: seq<Option<ExtractedString>>): set<string> {
    set i | 0 <= i < |records| && records[i].Some? :: records[i].value.hash
  }

  /** The keys of the merged catalog are exactly the hashes of the parsed records; keys found only in the prior catalog are dropped. */
  lemma {:induction false} MergedKeys(records: seq<Option<ExtractedString>>, prior: Catalog)
    ensures Merged(records, prior).Keys == RecordHashes(records)
    ensures forall k :: k in prior && k !in RecordHashes(records) ==> k !in Merged(records, prior)
    decreases |records|
  {
    if records != [] {
      var init := records[..|records| - 1];
      MergedKeys(init, prior);
      assert forall i :: 0 <= i < |init| ==> init[i] == records[i];
      match records[|records| - 1]
      case None =>
        assert RecordHashes(records) == RecordHashes(init);
      case Some(e) =>
        assert RecordHashes(records) == RecordHashes(init) + {e.hash};
    }
  }

  /** Record `j` is the last one in the sink with hash `k`. */
  predicate IsLastWith(records: seq<Option<ExtractedString>>, j: nat, k: string) {
    && j < |records| && records[j].Some? && records[j].value.hash == k
    && forall i :: j < i < |records| && records[i].Some? ==> records[i].value.hash != k
  }

  /** When several records share a hash, the last one is stored (after the `ru` rule). */
  lemma {:induction false} LastRecordWins(records: seq<Option<ExtractedString>>, prior: Catalog, j: nat, k: string)
    requires IsLastWith(records, j, k)
    ensures k in Merged(records, prior)
    ensures Merged(records, prior)[k] == WithPreservedRu(records[j].value, prior)
    decreases |records|
  {
    var init := records[..|records| - 1];
    if j < |records| - 1 {
      assert IsLastWith(init, j, k);
      LastRecordWins(init, prior, j, k);
    }
  }

  /** A line that does not parse leaves the result as if it were not there. */
  lemma {:induction false} UnparseableLineIgnored(a: seq<Option<ExtractedString>>, b: seq<Option<ExtractedString>>, prior: Catalog)
    ensures Merged(a + [None] + b, prior) == Merged(a + b, prior)
    decreases |b|
  {
    if b == [] {
      assert a + [None] + b == a + [None];
      assert (a + [None])[..|a|] == a;
      assert a + b == a;
    } else {
      var b' := b[..|b| - 1];
      assert (a + [None] + b)[..|a + [None] + b| - 1] == a + [None] + b';
      assert (a + b)[..|a + b| - 1] == a + b';
      UnparseableLineIgnored(a, b', prior);
    }
  }

  /**
   * Merging sink records gives catalog entries whose `text`, `en`, `pseudo` and context come from
   * the records, and whose `ru` is empty or the prior catalog's.
   */
  lemma {:induction false} MergedEntriesWellFormed(digest: string -> string, records: seq<Option<ExtractedString>>, prior: Catalog)
    requires forall i :: 0 <= i < |records| && records[i].Some? ==> IsSinkRecord(digest, records[i].value)
    ensures forall k :: k in Merged(records, prior) ==>
      && IsCatalogEntry(digest, Merged(records, prior)[k])
      && (|| Merged(records, prior)[k].translations.ru == ""
          || (k in prior && Merged(records, prior)[k].translations.ru == prior[k].translations.ru))
    decreases |records|
  {
    if records != [] {
      var init := records[..|records| - 1];
      assert forall i :: 0 <= i < |init| ==> init[i] == records[i];
      MergedEntriesWellFormed(digest, init, prior);
    }
  }

  // ----- The sink file

  /** A line the filter drops: all whitespace, so that `trim` leaves nothing of it. */
  predicate IsBlank(line: string) {
    AllWhitespace(line)
  }

  lemma BlankIffTrimmedAway(line: string)
    ensures IsBlank(line) <==> Trim(line) == ""
  {
  }

  /** `content.split('\n').filter(line => line.trim())`, before parsing. */
  function NonBlank(lines: seq<string>): (r: seq<string>)
    ensures forall i :: 0 <= i < |r| ==> !IsBlank(r[i])
    ensures forall x :: x in r <==> x in lines && !IsBlank(x)
    ensures |r| <= |lines|
  {
    if lines == [] then []
    else (if !IsBlank(lines[0]) then [lines[0]] else []) + NonBlank(lines[1..])
  }

  lemma {:induction false} NonBlankAppend(a: seq<string>, b: seq<string>)
    ensures NonBlank(a + b) == NonBlank(a) + NonBlank(b)
    decreases |a|
  {
    if a == [] {
      assert a + b == b;
    } else {
      assert (a + b)[1..] == a[1..] + b;
      NonBlankAppend(a[1..], b);
    }
  }

  /** The non-blank lines of the sink file. */
  function SinkLines(content: string): seq<string> {
    NonBlank(Split(content, '\n'))
  }

  /** `JSON.parse` of each line; `None` where it throws. */
  function Parsed(lines: seq<string>, parse: string -> Option<ExtractedString>): (r: seq<Option<ExtractedString>>)
    ensures |r| == |lines| && forall i :: 0 <= i < |lines| ==> r[i] == parse(lines[i])
  {
    seq(|lines|, i requires 0 <= i < |lines| => parse(lines[i]))
  }

  /** What the merge sees of a sink file. */
  function SinkRecords(content: string, parse: string -> Option<ExtractedString>): seq<Option<ExtractedString>> {
    Parsed(SinkLines(content), parse)
  }

  /** A record codec whose lines are single, non-blank lines that parse back to the record. */
  ghost predicate IsLineCodec(encode: ExtractedString -> string, parse: string -> Option<ExtractedString>) {
    forall e :: '\n' !in encode(e) && !IsBlank(encode(e)) && parse(encode(e)) == Some(e)
  }

  /** The sink after appending the records in order, each as a line of its own. */
  function SinkText(records: seq<ExtractedString>, encode: ExtractedString -> string): (content: string)
    ensures content == "" || content[|content| - 1] == '\n'
    decreases |records|
  {
    if records == [] then ""
    else SinkText(records[..|records| - 1], encode) + encode(records[|records| - 1]) + "\n"
  }

  /** Appending one non-blank line to a sink that ends at a line break adds exactly that line. */
  lemma SinkLinesAppendLine(content: string, line: string)
    requires content == "" || content[|content| - 1] == '\n'
    requires '\n' !in line && !IsBlank(line)
    ensures SinkLines(content + line + "\n") == SinkLines(content) + [line]
  {
    SplitWithoutDelimiter(line, '\n');
    if content == "" {
      assert content + line + "\n" == line + ['\n'] + "";
      SplitAround(line, "", '\n');
      NonBlankAppend([line], [""]);
    } else {
      var p := content[..|content| - 1];
      assert content == p + ['\n'];
      SinkLinesAfterBreak(p, line);
    }
  }

  /** The split pieces of a sink that ends at a line break, before and after one more line. */
  lemma SplitAfterBreak(p: string, line: string)
    requires '\n' !in line
    ensures Split(p + ['\n'], '\n') == Split(p, '\n') + [""]
    ensures Split(p + ['\n'] + line + "\n", '\n') == Split(p, '\n') + [line] + [""]
  {
    SplitWithoutDelimiter(line, '\n');
    assert p + ['\n'] == p + ['\n'] + "";
    assert p + ['\n'] + line + "\n" == (p + ['\n'] + line) + ['\n'] + "";
    SplitAround(p, "", '\n');
    SplitAround(p + ['\n'] + line, "", '\n');
    SplitAround(p, line, '\n');
  }

  lemma SinkLinesAfterBreak(p: string, line: string)
    requires '\n' !in line && !IsBlank(line)
    ensures SinkLines(p + ['\n'] + line + "\n") == SinkLines(p + ['\n']) + [line]
  {
    SplitAfterBreak(p, line);
    var sp := Split(p, '\n');
    NonBlankAppend(sp, [""]);
    NonBlankAppend(sp + [line], [""]);
    NonBlankAppend(sp, [line]);
    NonBlankOne("");
    NonBlankOne(line);
  }

  lemma NonBlankOne(x: string)
    ensures NonBlank([x]) == if IsBlank(x) then [] else [x]
  {
    assert [x][1..] == [];
  }

  /** With a line codec, the merge reads back exactly the records that were appended, in order. */
  lemma {:induction false} SinkReadBack(records: seq<ExtractedString>, encode: ExtractedString -> string, parse: string -> Option<ExtractedString>)
    requires IsLineCodec(encode, parse)
    ensures SinkRecords(SinkText(records, encode), parse) == seq(|records|, i requires 0 <= i < |records| => Some(records[i]))
    decreases |records|
  {
    if records != [] {
      var init := records[..|records| - 1];
      var e := records[|records| - 1];
      var prev := SinkText(init, encode);
      assert SinkText(records, encode) == prev + encode(e) + "\n";
      SinkReadBack(init, encode, parse);
      SinkLinesAppendLine(prev, encode(e));
      ParsedSnoc(SinkLines(prev), encode(e), parse);
      assert parse(encode(e)) == Some(e);
      SomesSnoc(records);
    }
  }

  /** Each element wrapped in `Some`, one more at the end. */
  lemma SomesSnoc<T>(xs: seq<T>)
    requires xs != []
    ensures seq(|xs|, i requires 0 <= i < |xs| => Some(xs[i])) ==
      seq(|xs| - 1, i requires 0 <= i < |xs| - 1 => Some(xs[..|xs| - 1][i])) + [Some(xs[|xs| - 1])]
  {
  }

  lemma ParsedSnoc(lines: seq<string>, line: string, parse: string -> Option<ExtractedString>)
    ensures Parsed(lines + [line], parse) == Parsed(lines, parse) + [parse(line)]
  {
    assert forall i :: 0 <= i < |lines| ==> (lines + [line])[i] == lines[i];
  }

  // ----- The catalog file

  /** The statement that exports the catalog from the generated file. */
  const ExportStatement: string := "module.exports = strings;"

  const CatalogBanner: string :=
    "/**\n * Extracted strings database\n * Generated automatically by text-extraction-loader\n * DO NOT EDIT MANUALLY\n */\n\n"

  /** The source of the lookup `t` (modelled by `CatalogT`) and its export. */
  const CatalogRuntime: string :=
    "\n/**\n * Runtime function to get text by hash with locale support\n"
    + " * @param {string} hash - The hash of the string\n"
    + " * @param {string} locale - The locale to use (en, ru, pseudo)\n"
    + " * @returns {string} The translated text\n */\n"
    + "function t(hash, locale = 'en') {\n  const entry = strings[hash];\n  if (!entry) {\n"
    + "    console.warn(`[t] String not found for hash: ${hash}`);\n    return `[missing: ${hash}]`;\n  }\n\n"
    + "  // Return the translation for the specified locale\n  const translation = entry.translations[locale];\n\n"
    + "  // Fall back to English if translation is empty\n  if (!translation || translation === '') {\n"
    + "    return entry.translations.en || entry.text;\n  }\n\n  return translation;\n}\n\n"
    + "// Also export the t function\nmodule.exports.t = t;\n"

  /** The statements laid out one after another each occur in the text. */
  lemma LayoutContainsPieces(banner: string, definition: string, exportStatement: string, runtime: string)
    ensures Contains(banner + definition + "\n\n" + exportStatement + "\n" + runtime, definition)
    ensures Contains(banner + definition + "\n\n" + exportStatement + "\n" + runtime, exportStatement)
  {
    var src := banner + definition + "\n\n" + exportStatement + "\n" + runtime;
    ContainsInfix(banner, definition, "\n\n" + exportStatement + "\n" + runtime);
    assert src == banner + definition + ("\n\n" + exportStatement + "\n" + runtime);
    ContainsInfix(banner + definition + "\n\n", exportStatement, "\n" + runtime);
    assert src == banner + definition + "\n\n" + exportStatement + ("\n" + runtime);
  }

  /** The text `writeStringsDatabase` writes for the serialized catalog `json`. */
  function CatalogSource(json: string): (src: string)
    ensures Contains(src, "const strings = " + json + ";")
    ensures Contains(src, ExportStatement)
  {
    var definition := "const strings = " + json + ";";
    LayoutContainsPieces(CatalogBanner, definition, ExportStatement, CatalogRuntime);
    CatalogBanner + definition + "\n\n" + ExportStatement + "\n" + CatalogRuntime
  }

  /** `entry.translations[locale]`: only the three locales are properties. */
  function TranslationFor(tr: Translations, locale: string): (r: Option<string>)
    ensures r.Some? <==> locale in {"en", "ru", "pseudo"}
  {
    if locale == "en" then Some(tr.en)
    else if locale == "ru" then Some(tr.ru)
    else if locale == "pseudo" then Some(tr.pseudo)
    else None
  }

  /**
   * The `t(hash, locale = 'en')` of the generated file; `None` is an omitted locale. An unknown
   * hash gives a placeholder; an empty or absent translation falls back to English, then to the
   * text. A string with text never comes out empty.
   */
  function CatalogT(strings: Catalog, hash: string, locale: Option<string>): (r: string)
    ensures hash !in strings ==> r == "[missing: " + hash + "]"
    ensures hash in strings && strings[hash].text != "" ==> r != ""
    ensures hash in strings ==>
      r in {strings[hash].text, strings[hash].translations.en, strings[hash].translations.ru, strings[hash].translations.pseudo}
    ensures hash in strings ==>
      var tr := TranslationFor(strings[hash].translations, locale.GetOr("en"));
      && (tr.Some? && tr.value != "" ==> r == tr.value)
      && (!(tr.Some? && tr.value != "") && strings[hash].translations.en != "" ==> r == strings[hash].translations.en)
      && (!(tr.Some? && tr.value != "") && strings[hash].translations.en == "" ==> r == strings[hash].text)
  {
    if hash !in strings then "[missing: " + hash + "]"
    else
      var entry := strings[hash];
      var translation := TranslationFor(entry.translations, locale.GetOr("en"));
      if translation.None? || translation.value == "" then
        (if entry.translations.en != "" then entry.translations.en else entry.text)
      else
        translation.value
  }

  /**
   * On a catalog entry the lookup gives the text for English, an omitted locale or an unknown one,
   * the pseudolocalization for `pseudo`, and for `ru` the Russian translation when there is one and
   * the text otherwise.
   */
  lemma CatalogTOnEntry(digest: string -> string, strings: Catalog, hash: string, locale: Option<string>)
    requires hash in strings && IsCatalogEntry(digest, strings[hash])
    ensures var e := strings[hash];
      CatalogT(strings, hash, locale) ==
        if locale == Some("pseudo") then Pseudolocalization.Pseudolocalize(e.text)
        else if locale == Some("ru") && e.translations.ru != "" then e.translations.ru
        else e.text
  {
    var e := strings[hash];
    if locale == Some("pseudo") && e.text == "" {
      assert Pseudolocalization.Pseudolocalize(e.text) == "";
    }
  }

  /**
   * The loop of `consolidateStrings` over the sink's lines: each line that parses enters the
   * catalog under its hash, keeping the Russian translation of the catalog read before.
   */
  method MergeSinkLines(lines: seq<string>, parse: string -> Option<ExtractedString>, existing: Catalog)
    returns (database: Catalog)
    ensures database == Merged(Parsed(lines, parse), existing)
  {
    database := map[];
    ghost var records := Parsed(lines, parse);
    var i := 0;
    while i < |lines|
      invariant 0 <= i <= |lines|
      invariant database == Merged(records[..i], existing)
    {
      MergedSnoc(records, existing, i);
      var entry := parse(lines[i]);
      if entry.Some? {
        var e := entry.value;
        var prior := if e.hash in existing then Some(existing[e.hash]) else None;
        if prior.Some? && prior.value.translations.ru != "" {
          e := e.(translations := e.translations.(ru := prior.value.translations.ru));
        }
        assert e == WithPreservedRu(entry.value, existing);
        database := database[e.hash := e];
      }
      i := i + 1;
    }
    assert records[..|lines|] == records;
  }

  // ----- The project's files

  /** The catalog file and the sink file of a project; `None` is a file that does not exist. */
  class ProjectFiles {
    /** `.next/extracted-strings.js` */
    var stringsFile: Option<string>
    /** `.text-extraction.tmp` */
    var tempStrings: Option<string>

    constructor(stringsFile: Option<string>, tempStrings: Option<string>)
      ensures this.stringsFile == stringsFile && this.tempStrings == tempStrings
    {
      this.stringsFile := stringsFile;
      this.tempStrings := tempStrings;
    }

    /**
     * `readStringsDatabase`: `extract` is the export pattern followed by `JSON.parse`, `None` when
     * the pattern does not match or the parse throws. A missing file, no match or a parse error
     * all give the empty catalog.
     */
    function ReadStringsDatabase(extract: string -> Option<Catalog>): (db: Catalog)
      reads this
      ensures stringsFile.None? ==> db == map[]
      ensures stringsFile.Some? ==> db == extract(stringsFile.value).GetOr(map[])
    {
      match stringsFile
      case None => map[]
      case Some(content) => extract(content).GetOr(map[])
    }

    /** `writeStringsDatabase`: the catalog file is replaced; `stringify` is `JSON.stringify`. */
    method WriteStringsDatabase(db: Catalog, stringify: Catalog -> string)
      modifies this
      ensures stringsFile == Some(CatalogSource(stringify(db)))
      ensures tempStrings == old(tempStrings)
    {
      stringsFile := Some(CatalogSource(stringify(db)));
    }

    /** `addExtractedString`: read the catalog, set the one entry, write it back; returns the key. */
    method AddExtractedString(
      digest: string -> string, extract: string -> Option<Catalog>, stringify: Catalog -> string,
      text: string, file: string, component: string, jsxPath: string)
      returns (hash: string)
      modifies this
      ensures var e := NewEntry(digest, text, file, component, jsxPath);
        && hash == e.hash
        && stringsFile == Some(CatalogSource(stringify(Upsert(old(ReadStringsDatabase(extract)), e))))
      ensures tempStrings == old(tempStrings)
    {
      var contextStr := ContextString(file, component, jsxPath);
      hash := GenerateHash(digest, text, contextStr);
      var database := ReadStringsDatabase(extract);
      database := database[hash := ExtractedString(
        text,
        hash,
        Translations(text, "", Pseudolocalization.Pseudolocalize(text)),
        Context(file, component, jsxPath))];
      WriteStringsDatabase(database, stringify);
    }

    /** `appendToTempStrings`: the record is appended to the sink as one line; returns the key. */
    method AppendToTempStrings(
      digest: string -> string, encode: ExtractedString -> string,
      text: string, file: string, component: string, jsxPath: string)
      returns (hash: string)
      modifies this
      ensures var e := NewEntry(digest, text, file, component, jsxPath);
        && hash == e.hash
        && tempStrings == Some(old(tempStrings).GetOr("") + encode(e) + "\n")
      ensures stringsFile == old(stringsFile)
    {
      var contextStr := ContextString(file, component, jsxPath);
      hash := GenerateHash(digest, text, contextStr);
      var entry := ExtractedString(
        text,
        hash,
        Translations(text, "", Pseudolocalization.Pseudolocalize(text)),
        Context(file, component, jsxPath));
      tempStrings := Some(tempStrings.GetOr("") + encode(entry) + "\n");
    }

    /**
     * `consolidateStrings`. Without a sink nothing changes. Otherwise the catalog file becomes the
     * merge of the sink's lines over the catalog read before, and the sink is deleted after the
     * write; when the write fails (`writeSucceeds` false) neither file changes.
     */
    method ConsolidateStrings(
      extract: string -> Option<Catalog>, stringify: Catalog -> string,
      parse: string -> Option<ExtractedString>, writeSucceeds: bool)
      modifies this
      ensures old(tempStrings).None? || !writeSucceeds ==>
        stringsFile == old(stringsFile) && tempStrings == old(tempStrings)
      ensures old(tempStrings).Some? && writeSucceeds ==>
        && stringsFile == Some(CatalogSource(stringify(
             Merged(SinkRecords(old(tempStrings).value, parse), old(ReadStringsDatabase(extract))))))
        && tempStrings == None
    {
      if tempStrings.None? {
        return;
      }
      var existing := ReadStringsDatabase(extract);
      var database := MergeSinkLines(SinkLines(tempStrings.value), parse, existing);
      if writeSucceeds {
        WriteStringsDatabase(database, stringify);
        tempStrings := None;
      }
    }
  }
}
