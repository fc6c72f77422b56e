# turbopack-file-list-plugin, modelled in Dafny

This project models the core of `turbopack-file-list-plugin`. The package has two jobs in a
Next.js/Turbopack build.

**The file list.** After a build, the plugin reads the `.nft.json` trace files under `.next`. It
decodes the names of the SSR chunk files into the source paths they stand for. It keeps the paths
that exist and writes them, deduplicated and sorted, into a JSON file list.

**The string pipeline.** A webpack-style text-extraction loader parses every `.jsx`/`.tsx` module.
It replaces each meaningful JSX text with a call `t('<hash>')` or `t('<hash>', locale)`. It inserts
the import of `t` when the module lacks one. It appends one record per replaced text to a
temporary sink of JSON lines. The record holds:
- the text;
- a 16-character hash of the text and its context;
- the English, Russian and pseudolocalized translations;
- the context: file, component and JSX path.

Consolidation then merges the sink into the generated catalog module `.next/extracted-strings.js`.
The merge would keep the non-empty Russian translations of the previous catalog. That rule never
applies to a catalog the plugin wrote itself, because the manager cannot read its own output back
(see "Notes on the code"). The runtime `t` looks hashes up in that catalog. The locale context reads the chosen locale back from `document.cookie`.

## Modules

| file | module | models |
|---|---|---|
| `wrappers.dfy` | `Wrappers` | `Option` |
| `js_string.dfy` | `JsString` | Strings as `seq<char>`: `trim`, `split`, `join`, `includes`, `startsWith`/`endsWith`, `substring`, `replace(/c/g, d)` and the decimal rendering of a number |
| `seq_facts.dfy` | `SeqFacts` | Four generic sequence identities (`ConsSplit`, `PrefixFacts`, `SliceFacts`, `TailOfAppend`) |
| `pseudolocalize.dfy` | `Pseudolocalization` | `pseudolocalize.ts` |
| `strings_manager.dfy` | `StringsManager` | `strings-manager.ts`: entries, hash, catalog upsert, the sink, consolidation, and the generated catalog's own `t`. The class `ProjectFiles` holds the two files the manager reads and writes |
| `jsx_ast.dfy` | `JsxAst` | The part of a Babel AST the loader inspects, and the pre-order in which a traversal visits it, with each visit's chain of ancestors |
| `text_extraction_loader.dfy` | `TextExtractionLoader` | `text-extraction-loader.ts` |
| `runtime.dfy` | `Runtime` | `runtime.ts`: the class `RuntimeStrings` holds the module state (`stringsData`, `isLoaded`) |
| `locale_context.dfy` | `LocaleContext` | `getLocaleFromCookie` in `locale-context.tsx`, and the `name=value` pair that `saveLocaleToCookie` writes |
| `file_list.dfy` | `FileListPlugin` | `index.ts`: options, chunk-name decoding, trace extraction, list generation |
| `scenario.dfy` | `PageScenario` | The demo page `apps/web/src/app/page.tsx` pushed through the loader's component-name and JSX-path logic, against the records of `strings-data.ts` |

## External effects as parameters

Effects the model cannot perform are parameters of the operations that use them:
- **SHA-256** is a function `digest: string -> string`, truncated to 16 characters as `substring(0, 16)` truncates.
- **Reading the catalog file back** is `extract: string -> Option<Catalog>`. It stands for the regular expression plus `JSON.parse`, with `None` when either fails.
- **The sink's line format** is `parse`/`encode`. They are tied together by the predicate `IsLineCodec` where a read-back is proved.
- **`JSON.stringify` of the catalog** is `stringify`.
- **Babel** is `parse: string -> Option<Program>` and `generate: Program -> string`.
- **The file system** is `fileExists` and `nextDirExists`. An existing or missing file is `Option<string>`. A failed write is `writeSucceeds`.
- **The server/client test** `typeof window === 'undefined'` is `isServer`.

## Model

| member | source | states |
|---|---|---|
| Pseudolocalization.Accented | packages/turbopack-file-list-plugin/src/pseudolocalize.ts:6-59 | The accent table is defined exactly on the 52 ASCII letters |
| Pseudolocalization.MapCharChangesExactlyLetters | packages/turbopack-file-list-plugin/src/pseudolocalize.ts:71-74 | A character changes under the mapping if and only if it is an ASCII letter, and a letter becomes a non-ASCII character |
| Pseudolocalization.MapChars | packages/turbopack-file-list-plugin/src/pseudolocalize.ts:71-74 | The mapped string has the input's length, and each position holds the mapped character of the same position |
| Pseudolocalization.Pseudolocalize | packages/turbopack-file-list-plugin/src/pseudolocalize.ts:67-81 | Empty text stays empty. Otherwise the result is 5 longer, starts with `[`, ends with the `···` padding and `]`, and holds the mapped input at positions 1..n |
| Pseudolocalization.NonLettersPassThrough | packages/turbopack-file-list-plugin/src/pseudolocalize.ts:71-74 | A non-letter of the input appears unchanged one position further on in the output |
| Pseudolocalization.UnaccentedUndoesMapChar | packages/turbopack-file-list-plugin/src/pseudolocalize.ts:6-59 | The accent table is injective on ASCII: the inverse table recovers every ASCII character |
| Pseudolocalization.PseudolocalizeRoundTrip | packages/turbopack-file-list-plugin/src/pseudolocalize.ts:67-81 | Stripping the brackets and padding and inverting the accents gives back any ASCII text |
| Pseudolocalization.MapCharsAppend | packages/turbopack-file-list-plugin/src/pseudolocalize.ts:71-74 | The character mapping distributes over concatenation |
| Pseudolocalization.DemoHeadingVector | packages/turbopack-file-list-plugin/src/strings-data.ts:11-16 | The recorded pseudolocalization of "Turbopack File List Plugin Demo" is what the function produces |
| Pseudolocalization.FileNameVector | packages/turbopack-file-list-plugin/src/strings-data.ts:53-58 | The recorded pseudolocalization of ".next/list.json" is what the function produces |
| JsString.Trim | packages/turbopack-file-list-plugin/src/text-extraction-loader.ts:173-176 | The trimmed string is the input without a whitespace prefix and a whitespace suffix. It is empty exactly when the input is all whitespace, and otherwise begins and ends with a non-blank |
| JsString.SplitJoin | packages/turbopack-file-list-plugin/src/strings-manager.ts:225 | Joining the pieces of a one-character split with that character gives back the string |
| JsString.SplitAround | packages/turbopack-file-list-plugin/src/strings-manager.ts:225 | Splitting distributes over a delimiter placed between two strings |
| JsString.NatToStringRoundTrip | packages/turbopack-file-list-plugin/src/text-extraction-loader.ts:154 | The decimal rendering used in `:nth-child(n)` reads back as the number |
| StringsManager.GenerateHash | packages/turbopack-file-list-plugin/src/strings-manager.ts:30-33 | The hash is a prefix of the digest of `text\|context`. It is 16 characters whenever the digest is that long, and lowercase hex when the digest is hex |
| StringsManager.HashInput | packages/turbopack-file-list-plugin/src/strings-manager.ts:31 | `text|context`. `HashInputUnambiguous` and `HashInputAmbiguousWithBar` state when it determines its parts |
| StringsManager.HashInputUnambiguous | packages/turbopack-file-list-plugin/src/strings-manager.ts:30-33 | When neither text contains `\|`, equal hash inputs mean equal texts and equal contexts |
| StringsManager.HashInputAmbiguousWithBar | packages/turbopack-file-list-plugin/src/strings-manager.ts:30-33 | A `\|` inside the text lets two different text/context pairs share one hash input |
| StringsManager.ContextString | packages/turbopack-file-list-plugin/src/strings-manager.ts:135 | `file:component:jsxPath`. `ContextStringUnambiguous` states that it determines its parts |
| StringsManager.ContextStringUnambiguous | packages/turbopack-file-list-plugin/src/strings-manager.ts:135 | When the file and component contain no `:`, the `file:component:path` string determines all three |
| StringsManager.NewEntry | packages/turbopack-file-list-plugin/src/strings-manager.ts:137-157 | A new entry is a well-formed sink record for its text and context |
| StringsManager.SinkRecordDeterminedByTextAndContext | packages/turbopack-file-list-plugin/src/strings-manager.ts:185-198 | A well-formed sink record is determined by its text and its context |
| StringsManager.Upsert | packages/turbopack-file-list-plugin/src/strings-manager.ts:144-157 | Setting an entry adds its hash to the keys, stores it under its hash, and leaves every other key's entry alone |
| StringsManager.WithPreservedRu | packages/turbopack-file-list-plugin/src/strings-manager.ts:232-238 | A non-empty Russian translation already in the catalog replaces the record's. Otherwise the record is unchanged. Nothing but `ru` is affected |
| StringsManager.Merged | packages/turbopack-file-list-plugin/src/strings-manager.ts:221-243 | Every entry of the merged catalog is stored under its own hash |
| StringsManager.MergedKeys | packages/turbopack-file-list-plugin/src/strings-manager.ts:221-243 | The new catalog's keys are exactly the hashes of the parsed sink lines. Entries of the old catalog that the sink does not mention are dropped |
| StringsManager.LastRecordWins | packages/turbopack-file-list-plugin/src/strings-manager.ts:227-240 | For each hash, the catalog holds the last sink record with that hash, after `ru` preservation |
| StringsManager.UnparseableLineIgnored | packages/turbopack-file-list-plugin/src/strings-manager.ts:241-243 | A line whose parse fails changes nothing in the merge |
| StringsManager.MergedEntriesWellFormed | packages/turbopack-file-list-plugin/src/strings-manager.ts:221-243 | Merging well-formed sink records yields catalog entries: hash, text, English and pseudo translations agree |
| StringsManager.IsBlank | packages/turbopack-file-list-plugin/src/strings-manager.ts:225 | The lines the filter drops. `BlankIffTrimmedAway` states that they are the lines that trim to empty |
| StringsManager.BlankIffTrimmedAway | packages/turbopack-file-list-plugin/src/strings-manager.ts:225 | The sink's line filter drops exactly the lines that trim to nothing |
| StringsManager.NonBlank | packages/turbopack-file-list-plugin/src/strings-manager.ts:225 | A line is kept exactly when it is one of the input lines and not blank. There are no more lines than in the input |
| StringsManager.NonBlankAppend | packages/turbopack-file-list-plugin/src/strings-manager.ts:225 | The filter distributes over concatenation |
| StringsManager.Parsed | packages/turbopack-file-list-plugin/src/strings-manager.ts:229 | One parse result per line, in order |
| StringsManager.SinkText | packages/turbopack-file-list-plugin/src/strings-manager.ts:203 | Sink content built by appends is empty or ends with a newline |
| StringsManager.SinkLines | packages/turbopack-file-list-plugin/src/strings-manager.ts:224-225 | The non-blank lines of the sink. `SinkLinesAppendLine` and `SinkReadBack` state them |
| StringsManager.SinkLinesAppendLine | packages/turbopack-file-list-plugin/src/strings-manager.ts:203-225 | Appending one non-blank line and a newline adds exactly that line to what consolidation reads |
| StringsManager.SinkReadBack | packages/turbopack-file-list-plugin/src/strings-manager.ts:175-229 | With a line codec, consolidation reads back exactly the appended records, in order |
| StringsManager.LayoutContainsPieces | packages/turbopack-file-list-plugin/src/strings-manager.ts:82-118 | The generated module contains the definition and the export statement |
| StringsManager.CatalogSource | packages/turbopack-file-list-plugin/src/strings-manager.ts:82-118 | The generated catalog module contains `const strings = <json>;` and `module.exports = strings;` |
| StringsManager.TranslationFor | packages/turbopack-file-list-plugin/src/strings-manager.ts:106-109 | A translation is found for `en`, `ru` and `pseudo`, and for no other locale |
| StringsManager.CatalogT | packages/turbopack-file-list-plugin/src/strings-manager.ts:98-114 | A missing hash gives `[missing: <hash>]`. A present one gives the requested translation when it is a non-empty one of `en`, `ru`, `pseudo` (`en` when no locale is given). Otherwise it gives the non-empty English translation, and otherwise the text. The result is non-empty when the text is |
| StringsManager.CatalogTOnEntry | packages/turbopack-file-list-plugin/src/strings-manager.ts:98-114 | On a catalog entry: `pseudo` gives the pseudolocalized text. `ru` gives the Russian translation when present, and the text otherwise. Any other locale gives the text |
| StringsManager.MergeSinkLines | packages/turbopack-file-list-plugin/src/strings-manager.ts:227-244 | The loop over the sink lines computes the merge of their parses over the existing catalog |
| StringsManager.ProjectFiles.constructor | packages/turbopack-file-list-plugin/src/strings-manager.ts:38-40 | The catalog file and the sink start as given |
| StringsManager.ProjectFiles.ReadStringsDatabase | packages/turbopack-file-list-plugin/src/strings-manager.ts:45-67 | A missing or unreadable catalog reads as the empty catalog. Otherwise it reads as what it encodes |
| StringsManager.ProjectFiles.WriteStringsDatabase | packages/turbopack-file-list-plugin/src/strings-manager.ts:72-121 | The catalog file becomes the generated module of the serialized catalog. The sink is untouched |
| StringsManager.ProjectFiles.AddExtractedString | packages/turbopack-file-list-plugin/src/strings-manager.ts:127-163 | Returns the entry's hash. The catalog file becomes the old catalog with that entry set. The sink is untouched |
| StringsManager.ProjectFiles.AppendToTempStrings | packages/turbopack-file-list-plugin/src/strings-manager.ts:175-206 | Returns the entry's hash. The sink gains the encoded entry and a newline. The catalog file is untouched |
| StringsManager.ProjectFiles.ConsolidateStrings | packages/turbopack-file-list-plugin/src/strings-manager.ts:211-257 | Without a sink, or when the write fails, nothing changes. Otherwise the catalog file becomes the merge of the sink over the old catalog, and the sink is deleted |
| JsxAst.VisitNode | packages/turbopack-file-list-plugin/src/text-extraction-loader.ts:242-279 | A node's visits start with the node itself, under the given ancestors |
| JsxAst.ProgramFramesConsistent | packages/turbopack-file-list-plugin/src/text-extraction-loader.ts:141-159 | In every visit, each frame that records a sibling list and an index has the node at that index |
| TextExtractionLoader.IsMeaningfulText | packages/turbopack-file-list-plugin/src/text-extraction-loader.ts:173-176 | `isMeaningfulText`. `MeaningfulIffTrimNonEmpty` states that it holds exactly when the trimmed text is non-empty |
| TextExtractionLoader.MeaningfulIffTrimNonEmpty | packages/turbopack-file-list-plugin/src/text-extraction-loader.ts:173-176 | A text is meaningful exactly when its trim is non-empty, that is, when it is not all whitespace |
| TextExtractionLoader.FirstStop | packages/turbopack-file-list-plugin/src/text-extraction-loader.ts:72-113 | No name exactly when no node names a JSX-returning component. Otherwise the name of the first such node in traversal order |
| TextExtractionLoader.LastExport | packages/turbopack-file-list-plugin/src/text-extraction-loader.ts:115-121 | No name exactly when no node is a named default export. Otherwise the name of the last such node |
| TextExtractionLoader.ComponentName | packages/turbopack-file-list-plugin/src/text-extraction-loader.ts:67-125 | The name `findComponentName` returns. `ComponentNameCharacterized` states it: the first stop, else the last named default export, else the fallback. `FindComponentName` ties it to the traversal |
| TextExtractionLoader.ComponentNameCharacterized | packages/turbopack-file-list-plugin/src/text-extraction-loader.ts:67-125 | The first JSX-returning named function or declarator wins. Failing that, the last named default export wins. Failing both, the name is `default` |
| TextExtractionLoader.FirstStopAt | packages/turbopack-file-list-plugin/src/text-extraction-loader.ts:72-113 | The first stopping node determines the found name |
| TextExtractionLoader.LastExportAt | packages/turbopack-file-list-plugin/src/text-extraction-loader.ts:115-121 | The last named default export determines the fallback name |
| TextExtractionLoader.FindComponentName | packages/turbopack-file-list-plugin/src/text-extraction-loader.ts:67-125 | The traversal returns the characterized component name of the module |
| TextExtractionLoader.ScanComponentName | packages/turbopack-file-list-plugin/src/text-extraction-loader.ts:70-124 | The scan over the visited nodes, stopping at the first stop, yields the component name |
| TextExtractionLoader.LocaleDetectedByKey | packages/turbopack-file-list-plugin/src/text-extraction-loader.ts:213-236 | A declarator destructuring the key `locale`, even under another local name, counts as locale use |
| TextExtractionLoader.UsesLocale | packages/turbopack-file-list-plugin/src/text-extraction-loader.ts:213-236 | Whether some variable declarator in the module destructures the key `locale` from `useLocale(...)`, whatever name it binds and in whichever component it sits. `HasLocaleVariable` and `LocaleDetectedByKey` state it |
| TextExtractionLoader.HasLocaleVariable | packages/turbopack-file-list-plugin/src/text-extraction-loader.ts:213-236 | The traversal reports locale use exactly when some visited declarator is a locale declarator |
| TextExtractionLoader.ImportsT | packages/turbopack-file-list-plugin/src/text-extraction-loader.ts:289-302 | Whether an import already binds `t`. `HasTImport` states it |
| TextExtractionLoader.HasTImport | packages/turbopack-file-list-plugin/src/text-extraction-loader.ts:282-296 | The traversal reports an import of `t` exactly when some visited import binds `t` |
| TextExtractionLoader.WithTImport | packages/turbopack-file-list-plugin/src/text-extraction-loader.ts:298-309 | With an import present, the module is unchanged. Otherwise the runtime import is put first and the body follows |
| TextExtractionLoader.TBoundAfterInsertion | packages/turbopack-file-list-plugin/src/text-extraction-loader.ts:282-309 | After the insertion step, every module imports `t` |
| TextExtractionLoader.CountTagged | packages/turbopack-file-list-plugin/src/text-extraction-loader.ts:141-159 | The count of same-tag siblings never exceeds the siblings |
| TextExtractionLoader.CountTaggedCounts | packages/turbopack-file-list-plugin/src/text-extraction-loader.ts:145-150 | The count is exactly the number of positions holding a JSX element whose identifier tag is `tag` (the length of `sameTagSiblings`) |
| TextExtractionLoader.JSXPath | packages/turbopack-file-list-plugin/src/text-extraction-loader.ts:165-167 | The path of an ancestor chain. `NoElementAncestorIsRoot`, `ElementAncestorGivesPath` and `BuildJSXPath` state it |
| TextExtractionLoader.BuildJSXPath | packages/turbopack-file-list-plugin/src/text-extraction-loader.ts:130-168 | The walk up the parents returns the JSX path of the ancestor chain |
| TextExtractionLoader.NoElementAncestorIsRoot | packages/turbopack-file-list-plugin/src/text-extraction-loader.ts:165-167 | Without a named element ancestor the path is `root` |
| TextExtractionLoader.SegmentsAppend | packages/turbopack-file-list-plugin/src/text-extraction-loader.ts:133-165 | The segments of two chains one after the other are the segments of the first followed by those of the second |
| TextExtractionLoader.SkipNonElementFrame | packages/turbopack-file-list-plugin/src/text-extraction-loader.ts:133-167 | A frame that is not a named JSX element can be removed from anywhere in a chain without changing its segments or its path |
| TextExtractionLoader.ElementAncestorGivesPath | packages/turbopack-file-list-plugin/src/text-extraction-loader.ts:165-167 | With a named element ancestor, the path is the segments joined by ` > ` |
| TextExtractionLoader.Segment | packages/turbopack-file-list-plugin/src/text-extraction-loader.ts:141-159 | The path segment of one ancestor. `NthChildDistinguishesSiblings` and `NthChildInRange` state the meaning of its `nth-child` number |
| TextExtractionLoader.NthChildDistinguishesSiblings | packages/turbopack-file-list-plugin/src/text-extraction-loader.ts:141-159 | Two same-tag siblings get different `nth-child` numbers, the earlier one smaller |
| TextExtractionLoader.NthChildInRange | packages/turbopack-file-list-plugin/src/text-extraction-loader.ts:141-159 | A sibling's `nth-child` number is at least 1 and at most the number of same-tag siblings |
| TextExtractionLoader.RewriteSeq | packages/turbopack-file-list-plugin/src/text-extraction-loader.ts:242-279 | Rewriting a node list keeps its length |
| TextExtractionLoader.RewriteSeqAt | packages/turbopack-file-list-plugin/src/text-extraction-loader.ts:242-279 | Each node of a rewritten list is the rewrite of the node at the same position |
| TextExtractionLoader.TCall | packages/turbopack-file-list-plugin/src/text-extraction-loader.ts:262-276 | The node put in place of a text. `TCallPlaced` states its shape and hash |
| TextExtractionLoader.TextRecord | packages/turbopack-file-list-plugin/src/text-extraction-loader.ts:250-260 | The record of a meaningful text. `ExtractedAreSinkRecords` states that it is a well-formed sink record, and `RewriteRecordsFollowVisits` gives its path |
| TextExtractionLoader.TCallPlaced | packages/turbopack-file-list-plugin/src/text-extraction-loader.ts:262-276 | The call put in place of a meaningful text is `t(<hash>)`, or `t(<hash>, locale)`, passing the record's key |
| TextExtractionLoader.RewriteReplacesTexts | packages/turbopack-file-list-plugin/src/text-extraction-loader.ts:242-279 | The rewrite of a subtree keeps its shape and every text that is not meaningful. Exactly at the meaningful texts it puts `t(<hash>)`, with `locale` passed exactly when some declarator in the module destructures the key `locale` from `useLocale(...)` (`UsesLocale`). The hashes of those calls, in traversal order, are the keys of the records |
| TextExtractionLoader.SeqReplaced | packages/turbopack-file-list-plugin/src/text-extraction-loader.ts:242-279 | The same for a list of nodes, position by position |
| TextExtractionLoader.ProgramTextsReplaced | packages/turbopack-file-list-plugin/src/text-extraction-loader.ts:238-279 | In a whole module the meaningful texts are replaced in place and nothing else changes. The hashes of the inserted calls, in traversal order, are the keys of the records of the module's visits |
| TextExtractionLoader.ExtractedAreSinkRecords | packages/turbopack-file-list-plugin/src/text-extraction-loader.ts:254-276 | Every record the visitor produces is a well-formed sink record |
| TextExtractionLoader.ExtractedAppend | packages/turbopack-file-list-plugin/src/text-extraction-loader.ts:242-279 | The records of consecutive visits are the concatenation of their records |
| TextExtractionLoader.RewriteNode | packages/turbopack-file-list-plugin/src/text-extraction-loader.ts:242-279 | The rewrite of a subtree. `RewriteReplacesTexts` and `RewriteRecordsFollowVisits` state its meaning |
| TextExtractionLoader.RewriteRecordsFollowVisits | packages/turbopack-file-list-plugin/src/text-extraction-loader.ts:242-279 | The rewrite of a subtree produces one record per meaningful text, in traversal order, with its ancestors' path |
| TextExtractionLoader.RewriteProgram | packages/turbopack-file-list-plugin/src/text-extraction-loader.ts:238-279 | The rewrite of a module. `ProgramTextsReplaced`, `ProgramRecordsFollowVisits` and `SecondPassChangesNothing` state its meaning |
| TextExtractionLoader.ProgramRecordsFollowVisits | packages/turbopack-file-list-plugin/src/text-extraction-loader.ts:238-279 | Rewriting a module produces the records of its visits, in traversal order |
| TextExtractionLoader.RewriteLeavesNoText | packages/turbopack-file-list-plugin/src/text-extraction-loader.ts:243-279 | No meaningful JSX text survives the rewrite |
| TextExtractionLoader.TextFreeUnchanged | packages/turbopack-file-list-plugin/src/text-extraction-loader.ts:246-248 | A subtree without meaningful text is left as it is, with no records |
| TextExtractionLoader.SecondPassChangesNothing | packages/turbopack-file-list-plugin/src/text-extraction-loader.ts:238-279 | A second rewrite of a rewritten module changes nothing and records nothing |
| TextExtractionLoader.AppendRecords | packages/turbopack-file-list-plugin/src/text-extraction-loader.ts:265-276 | Appending the records one by one leaves the catalog alone and extends the sink by their lines, in order |
| TextExtractionLoader.Skipped | packages/turbopack-file-list-plugin/src/text-extraction-loader.ts:184-196 | A missing path, a path not ending in `.jsx`/`.tsx`, or one under `node_modules`. `TextExtractionLoaderRun` states that such a module comes back unchanged |
| TextExtractionLoader.TextExtractionLoaderRun | packages/turbopack-file-list-plugin/src/text-extraction-loader.ts:181-326 | Skipped or unparseable modules, and modules without text, come back unchanged with no effect. Otherwise the generated rewrite, with `t` imported, is returned, and the sink gains the records in order |
| Runtime.Placeholder | packages/turbopack-file-list-plugin/src/runtime.ts:50-52 | The placeholder of a missing hash. `PlaceholderShape` states its shape |
| Runtime.PlaceholderShape | packages/turbopack-file-list-plugin/src/runtime.ts:50-53 | An unknown hash shows as `[` + its first 8 characters + `]` |
| Runtime.Lookup | packages/turbopack-file-list-plugin/src/runtime.ts:48-55 | What the runtime `t` shows. `PlaceholderShape`, `KnownHashShowsText` and `RuntimeAgreesWithCatalogEnglish` state it |
| Runtime.KnownHashShowsText | packages/turbopack-file-list-plugin/src/runtime.ts:55 | A known hash with non-empty text shows that text |
| Runtime.RuntimeAgreesWithCatalogEnglish | packages/turbopack-file-list-plugin/src/runtime.ts:42-56 | On a catalog entry the runtime shows what the generated module's `t` gives for English or no locale |
| Runtime.RuntimeStrings.constructor | packages/turbopack-file-list-plugin/src/runtime.ts:7-8 | The runtime starts empty and unloaded |
| Runtime.RuntimeStrings.LoadStrings | packages/turbopack-file-list-plugin/src/runtime.ts:13-37 | Loading happens once, only on the server. A missing or unreadable file leaves the state unloaded for a later retry |
| Runtime.RuntimeStrings.T | packages/turbopack-file-list-plugin/src/runtime.ts:42-56 | Loads first when unloaded on the server, then shows the lookup of the hash in the loaded strings |
| LocaleContext.ParsePart | packages/turbopack-file-list-plugin/src/locale-context.tsx:24 | One `;` piece split into name and value. `CookiePartShape` states its shape |
| LocaleContext.CookiePartShape | packages/turbopack-file-list-plugin/src/locale-context.tsx:22-24 | A cookie part's name is its trimmed text up to the first `=`. It has a value exactly when there is an `=` |
| LocaleContext.ParseParts | packages/turbopack-file-list-plugin/src/locale-context.tsx:22-24 | One parsed part per cookie piece |
| LocaleContext.LocaleFromCookie | packages/turbopack-file-list-plugin/src/locale-context.tsx:19-30 | The locale read from the cookie. `GetLocaleFromCookie`, `NoDocumentIsEnglish` and `SavedLocaleReadBack` state it |
| LocaleContext.GetLocaleFromCookie | packages/turbopack-file-list-plugin/src/locale-context.tsx:19-30 | Scanning the cookie parts yields the locale of the cookie model |
| LocaleContext.ValueOfFirst | packages/turbopack-file-list-plugin/src/locale-context.tsx:23-28 | The value of the first part with the locale cookie name. `FirstMatchWins` and `NoLocaleCookieIsEnglish` state it |
| LocaleContext.FirstMatchWins | packages/turbopack-file-list-plugin/src/locale-context.tsx:23-26 | The first part named `lingo-locale` decides the locale |
| LocaleContext.NoLocaleCookieIsEnglish | packages/turbopack-file-list-plugin/src/locale-context.tsx:29 | Without a part of that name the locale is `en` |
| LocaleContext.NoDocumentIsEnglish | packages/turbopack-file-list-plugin/src/locale-context.tsx:20 | Without a document (on the server) the locale is `en` |
| LocaleContext.BareNameIsUndefined | packages/turbopack-file-list-plugin/src/locale-context.tsx:24-26 | A part that is the bare name without `=` yields an undefined locale, not `en` |
| LocaleContext.CookiePairParts | packages/turbopack-file-list-plugin/src/locale-context.tsx:35-42 | The saved cookie pair parses back to the locale name and the saved value |
| LocaleContext.SavedLocaleReadBack | packages/turbopack-file-list-plugin/src/locale-context.tsx:19-42 | A saved locale without `;`, `=` or surrounding blanks reads back as itself |
| LocaleContext.SavedLocaleReadBackAfter | packages/turbopack-file-list-plugin/src/locale-context.tsx:19-42 | Appended as `; name=value` after cookies without a locale part, the saved locale reads back as itself |
| LocaleContext.LocalesReadBack | packages/turbopack-file-list-plugin/src/locale-context.tsx:5-42 | Each of `en`, `ru` and `pseudo` reads back as itself after being saved |
| FileListPlugin.ResolveOptions | packages/turbopack-file-list-plugin/src/index.ts:12-17 | The output path is the given one when non-empty, else `build-files.json`. Node modules are included only when asked for with `true` |
| FileListPlugin.ResolveOptionsIdempotent | packages/turbopack-file-list-plugin/src/index.ts:12-17 | Resolving resolved options changes nothing |
| FileListPlugin.TurbopackFileListPlugin.constructor | packages/turbopack-file-list-plugin/src/index.ts:12-17 | The plugin holds the resolved options |
| FileListPlugin.TurbopackFileListPlugin.Apply | packages/turbopack-file-list-plugin/src/index.ts:20-24 | Returns the held options, whose output path is never empty |
| FileListPlugin.LastDot | packages/turbopack-file-list-plugin/src/index.ts:69 | The position of the last `.`, or none when there is none |
| FileListPlugin.StripExtension | packages/turbopack-file-list-plugin/src/index.ts:69 | A final `.ext` with a non-empty, dot-free extension is removed. A name without one is unchanged |
| FileListPlugin.StripBundleMarker | packages/turbopack-file-list-plugin/src/index.ts:70 | Removal of a trailing `._`. `StripBundleMarkerOf` states it on a name that has one |
| FileListPlugin.StripHash | packages/turbopack-file-list-plugin/src/index.ts:71 | Removal of a trailing `_` and 8 hex digits. `StripHashOf` states it on a name that has them |
| FileListPlugin.StripHashOf | packages/turbopack-file-list-plugin/src/index.ts:71 | A trailing `_` and 8 lowercase hex digits are removed |
| FileListPlugin.DetectedKind | packages/turbopack-file-list-plugin/src/index.ts:75-91 | No kind exactly when the stem ends in none of `_tsx`, `_ts`, `_jsx`, `_js`, `_css`. Otherwise a kind whose suffix the stem ends with |
| FileListPlugin.DetectsOwnKind | packages/turbopack-file-list-plugin/src/index.ts:75-91 | The order of the suffix tests detects each kind's own suffix, `_tsx` before `_ts` and `_jsx` before `_js` included |
| FileListPlugin.SourcePath | packages/turbopack-file-list-plugin/src/index.ts:98 | The decoded path has no `_` and ends with the kind's extension |
| FileListPlugin.DecodeChunkFilename | packages/turbopack-file-list-plugin/src/index.ts:66-101 | Null exactly when no kind suffix is found. Otherwise an `_`-free path with the detected extension |
| FileListPlugin.DecodeChunkName | packages/turbopack-file-list-plugin/src/index.ts:66-101 | Decoding the chunk name Turbopack builds for an `_`-free path gives back that path |
| FileListPlugin.Stripped | packages/turbopack-file-list-plugin/src/index.ts:69-71 | The three removals in order. `DecodeAnyChunkName` states the result on a chunk name |
| FileListPlugin.DecodeAnyChunkName | packages/turbopack-file-list-plugin/src/index.ts:66-101 | Decoding the chunk name of any path gives the path with each `_` turned into `/`, plus the kind's extension |
| FileListPlugin.UnderscoreMisdecoded | packages/turbopack-file-list-plugin/src/index.ts:98 | The chunk of `app/my_page.tsx` decodes to `app/my/page.tsx` |
| FileListPlugin.DocumentedExample | packages/turbopack-file-list-plugin/src/index.ts:64 | The documented chunk name decodes to `apps/web/src/app/layout.tsx` |
| FileListPlugin.Basename | packages/turbopack-file-list-plugin/src/index.ts:117 | The base name is what follows the last `/` of the path once its trailing `/`s are dropped, and it has no `/` |
| FileListPlugin.TraceContribution | packages/turbopack-file-list-plugin/src/index.ts:117-127 | An entry contributes exactly when it is under `chunks/ssr/`, its name has `_`, it decodes, and the decoded file exists. It then contributes the decoded path |
| FileListPlugin.Dedup | packages/turbopack-file-list-plugin/src/index.ts:107 | The set keeps every element once and nothing else |
| FileListPlugin.Contributions | packages/turbopack-file-list-plugin/src/index.ts:117-127 | The contributions of the entries in order. `ExtractSourceFilesFromTrace` and `GenerateFileList` state how they are used |
| FileListPlugin.ExtractSourceFilesFromTrace | packages/turbopack-file-list-plugin/src/index.ts:106-137 | An unreadable trace, or one without a files array, gives nothing. Otherwise the contributions of its entries, each once, in first-seen order |
| FileListPlugin.Insert | packages/turbopack-file-list-plugin/src/index.ts:217 | Insertion adds exactly the one element |
| FileListPlugin.Sort | packages/turbopack-file-list-plugin/src/index.ts:217 | Sorting permutes its input |
| FileListPlugin.Less | packages/turbopack-file-list-plugin/src/index.ts:217 | The default order of `sort`. `SortSorted` and `SortDistinct` state the order of the list |
| FileListPlugin.SortSorted | packages/turbopack-file-list-plugin/src/index.ts:217 | The sorted list is in non-decreasing code-point order |
| FileListPlugin.SortDistinct | packages/turbopack-file-list-plugin/src/index.ts:217-218 | Sorting distinct paths gives a strictly increasing list of the same paths and the same length |
| FileListPlugin.AddAll | packages/turbopack-file-list-plugin/src/index.ts:209-214 | Adding to a set keeps it duplicate-free and yields the union |
| FileListPlugin.GenerateFileList | packages/turbopack-file-list-plugin/src/index.ts:173-243 | Without `.next` there is no list. Otherwise the list holds every contributed path of every trace, once, in strictly increasing order, and its count is its length |
| PageScenario.DefaultExportedComponent | apps/web/src/app/page.tsx:3-6 | Imports followed by `export default function Name` returning JSX name the component `Name` |
| PageScenario.HeadingCount | apps/web/src/app/page.tsx:10-18 | `main` has one `h1` child |
| PageScenario.ParagraphCounts | apps/web/src/app/page.tsx:10-18 | `main` has two `p` children, the first with no `p` before it and the second with one |
| PageScenario.HeadingPath | packages/turbopack-file-list-plugin/src/strings-data.ts:21 | The heading text's path is `main > h1` |
| PageScenario.FirstParagraphPath | packages/turbopack-file-list-plugin/src/strings-data.ts:35 | The first paragraph's text has path `main > p:nth-child(1)` |
| PageScenario.SecondParagraphPath | packages/turbopack-file-list-plugin/src/strings-data.ts:49 | The second paragraph's texts have path `main > p:nth-child(2)` |
| PageScenario.CodePath | packages/turbopack-file-list-plugin/src/strings-data.ts:63 | The code text's path is `main > p:nth-child(2) > code` |

## Notes on the code

The model follows the code. These points are worth knowing when reading it:
- **Reading the catalog back.** `readStringsDatabase` looks for `module.exports = {...};` (strings-manager.ts:57). The module that `writeStringsDatabase` generates exports a name instead (`module.exports = strings;`, strings-manager.ts:90). So the manager's own reader does not find the object it wrote. The model keeps reading as the parameter `extract` and does not claim a round trip through the catalog file.
- **Runtime regex.** `runtime.ts` reads the catalog with the lazy pattern `const strings = ({[\s\S]*?});` (runtime.ts:28). It finds the generated definition, but it stops at the first `};` in the file. An extracted text that contains `};` cuts the match short. `JSON.parse` then throws, the runtime stays unloaded, and every `t` shows its `[<hash prefix>]` placeholder (runtime.ts:30-35, 49-52). Reading is the same `extract` parameter.
- **Russian in the catalog's own `t`.** The generated module's `t` falls back to the English translation and then the text when the chosen one is empty (strings-manager.ts:98-114). The runtime's `t` ignores locales altogether and shows the text (runtime.ts:42-56). `CatalogT` models the first, and `RuntimeStrings.T` the second.
- **Locale detection.** The loader's locale detection (text-extraction-loader.ts:213-236) tests the key `locale` of a pattern initialised by `useLocale(...)`, not the name it binds. `const { locale: lang } = useLocale()` therefore counts, and the inserted `t(hash, locale)` then names a variable the component does not bind.
- **Paths with `_`.** `decodeChunkFilename` (index.ts:66-101) turns every `_` of the stem back into `/`, so a source file whose path has `_` is decoded to a different path. `UnderscoreMisdecoded` shows the chunk of `app/my_page.tsx` decoding to `app/my/page.tsx`. Such a file is left out of the list, or a different existing file is listed in its place.
- **Loops.** The loop of `consolidateStrings` is the method `MergeSinkLines`. The traversal of `findComponentName` is `ScanComponentName` over the pre-order of visited nodes.

## Left out

- Locating the repository root (`findMonorepoRoot` in index.ts:30-60 and text-extraction-loader.ts:12-62, `getProjectRoot`): directory walking over the file system. The loader receives the resulting relative path.
- `collectTraceFiles` (index.ts:142-168): a recursive directory listing. `GenerateFileList` receives the trace contents it would find.
- `withFileListPlugin` (index.ts:248-286): it wires the loaders and a post-build hook into a Next.js config object. This is configuration, not logic.
- Writing the file-list JSON, `buildTime` (a clock), the console output, and the creation of the output directory.
- `path.basename` is modelled for POSIX separators only, with trailing slashes dropped.
- FileListPlugin.Less: compares strings by Unicode code point. `Array.prototype.sort` compares UTF-16 code units, which agree on every path without characters beyond the Basic Multilingual Plane.
- FileListPlugin.Sort: orders by `FileListPlugin.Less`, so it inherits the code-point order.
- SHA-256, `JSON.parse`, `JSON.stringify`, the catalog regexes and Babel's parser and generator are parameters (see above). Their own correctness is not modelled.
- Exceptions other than a failed parse or an unreadable file: for example a throwing `fs.appendFileSync`, or a JSON line that parses but lacks fields.
- TextExtractionLoader.RewriteProgram: models the rewrite on values. There is no in-place `replaceWith`/`unshift` on shared Babel paths, and node identities and aliasing are not modelled. Babel's `path.stop()` is taken to halt the whole traversal.
- StringsManager.TranslationFor: looks a locale up among `en`, `ru` and `pseudo` only. In the source `entry.translations[locale]` is a plain object lookup, which also finds names inherited from `Object.prototype` (`toString`, `constructor`, …) and yields a function. The model does not capture such lookups.
- StringsManager.CatalogT: an inherited locale name (strings-manager.ts:106) makes the source return a function, where the model falls back to English or the text. An inherited hash name (strings-manager.ts:99) makes `entry.translations[locale]` throw, where the model gives `[missing: <hash>]`. The catalog is a map that holds only its own keys.
- Runtime.Lookup: `stringsData[hash]` (runtime.ts:48) also finds names inherited from `Object.prototype`, so for `constructor` the source returns the `Object` function through `entry.text || entry`. The model shows the placeholder. Inherited properties of plain objects are not modelled.
- Runtime.RuntimeStrings.T: calls `Runtime.Lookup` and inherits the same gap. `t("constructor")` is not modelled as returning the `Object` function.
- The JSX tree is closed: node kinds the loader never inspects are `OtherNode` with their children in traversal order. Function nodes carry no parameters and patterns carry no children, so JSX inside a default parameter value or a destructuring default cannot be represented.
- `file-tracker-loader.ts` is not part of this model: it logs the files a build touches and changes no module.
- LocaleContext.CookiePair: models only the `lingo-locale=<locale>` pair that `saveLocaleToCookie` writes (locale-context.tsx:41). The `expires` date one year ahead and `path=/` are not modelled, because they concern the browser's cookie store and a clock. The early return without a `document` (:36) is not modelled either.
- The React side of `locale-context.tsx` (`LocaleProvider`, `useLocale`, lines 44-87) and `setLocale` beyond the cookie it writes; also `text.tsx`, `use-translate.tsx`, `language-switcher.tsx`, `locale-sync.tsx`, `client.ts` and `cli.ts`. These are UI components and module wiring around the modelled functions.
- Concurrency between loader runs appending to the same sink.
