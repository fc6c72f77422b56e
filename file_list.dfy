/**
 * The file list of a build: the plugin's options, the decoding of Turbopack chunk names back to
 * source paths, the filter over the entries of a build trace, and the sorted list of every
 * source file found in any trace.
 */
module FileListPlugin {
  import opened Wrappers
  import opened JsString

  // ----- Options

  datatype PluginOptions = PluginOptions(outputPath: string, includeNodeModules: bool)

  const DefaultOutputPath: string := "build-files.json"

  /** The `||` defaults: a missing or empty path, and a missing flag, take the defaults. */
  function ResolveOptions(outputPath: Option<string>, includeNodeModules: Option<bool>): (o: PluginOptions)
    ensures o.outputPath != ""
    ensures outputPath.Some? && outputPath.value != "" ==> o.outputPath == outputPath.value
    ensures outputPath.None? || outputPath == Some("") ==> o.outputPath == DefaultOutputPath
    ensures o.includeNodeModules <==> includeNodeModules == Some(true)
  {
    PluginOptions(
      if outputPath.Some? && outputPath.value != "" then outputPath.value else DefaultOutputPath,
      includeNodeModules.GetOr(false))
  }

  /** Resolving resolved options again changes nothing. */
  lemma ResolveOptionsIdempotent(outputPath: Option<string>, includeNodeModules: Option<bool>)
    ensures var o := ResolveOptions(outputPath, includeNodeModules);
      ResolveOptions(Some(o.outputPath), Some(o.includeNodeModules)) == o
  {
  }

  /** `TurbopackFileListPlugin`: the resolved options, handed out by `apply`. */
  class TurbopackFileListPlugin {
    const options: PluginOptions

    /** Resolved options always name an output file. */
    predicate Valid()
      reads this
    {
      options.outputPath != ""
    }

    constructor(outputPath: Option<string>, includeNodeModules: Option<bool>)
      ensures options == ResolveOptions(outputPath, includeNodeModules)
      ensures Valid()
    {
      options := ResolveOptions(outputPath, includeNodeModules);
    }

    method Apply() returns (o: PluginOptions)
      requires Valid()
      ensures o == options && o.outputPath != ""
    {
      o := options;
    }
  }

  // ----- Chunk names

  /** The position of the last `.`, if any. */
  function LastDot(s: string): (r: Option<nat>)
    ensures r.None? ==> '.' !in s
    ensures r.Some? ==> r.value < |s| && s[r.value] == '.' && '.' !in s[r.value + 1..]
    decreases |s|
  {
    if s == [] then None
    else if s[|s| - 1] == '.' then Some(|s| - 1)
    else
      var r := LastDot(s[..|s| - 1]);
      assert r.Some? ==> s[r.value + 1..] == s[..|s| - 1][r.value + 1..] + [s[|s| - 1]];
      r
  }

  /** `replace(/\.[^.]+$/, '')`: drops a final `.` and what follows, when that is not empty. */
  function StripExtension(name: string): (r: string)
    ensures (exists k :: 0 <= k < |name| - 1 && name[k] == '.' && '.' !in name[k + 1..]) ==>
      |r| < |name| - 1 && r == name[..|r|] && name[|r|] == '.' && '.' !in name[|r| + 1..]
    ensures !(exists k :: 0 <= k < |name| - 1 && name[k] == '.' && '.' !in name[k + 1..]) ==> r == name
  {
    var k := LastDot(name);
    if k.Some? && k.value + 1 < |name| then name[..k.value]
    else
      assert k.Some? ==> k.value == |name| - 1;
      name
  }

  /** `replace(/\._$/, '')` */
  function StripBundleMarker(s: string): string {
    if EndsWith(s, "._") then s[..|s| - 2] else s
  }

  /** `_` followed by eight lowercase hexadecimal digits at the end. */
  predicate EndsWithHashSuffix(s: string) {
    |s| >= 9 && s[|s| - 9] == '_' && forall i :: |s| - 8 <= i < |s| ==> IsLowerHex(s[i])
  }

  /** `replace(/_[a-f0-9]{8}$/, '')` */
  function StripHash(s: string): string {
    if EndsWithHashSuffix(s) then s[..|s| - 9] else s
  }

  /** The name that is left for the extension test: extension, `._` and hash stripped in that order. */
  function Stripped(chunkName: string): string {
    StripHash(StripBundleMarker(StripExtension(chunkName)))
  }

  /** The kinds of source file a chunk name can encode. */
  datatype SourceKind = Tsx | Ts | Jsx | Js | Css

  function KindName(k: SourceKind): (n: string)
    ensures |n| >= 2 && '_' !in n && '/' !in n && '.' !in n
  {
    match k
    case Tsx => "tsx"
    case Ts => "ts"
    case Jsx => "jsx"
    case Js => "js"
    case Css => "css"
  }

  /** How a chunk name ends for this kind, and the extension it decodes to. */
  function ChunkSuffix(k: SourceKind): string { "_" + KindName(k) }
  function Extension(k: SourceKind): string { "." + KindName(k) }

  /** The suffix test, in the order of the source: `_tsx`, `_ts`, `_jsx`, `_js`, `_css`. */
  function DetectedKind(stem: string): (k: Option<SourceKind>)
    ensures k.None? <==> forall k' :: !EndsWith(stem, ChunkSuffix(k'))
    ensures k.Some? ==> EndsWith(stem, ChunkSuffix(k.value))
  {
    if EndsWith(stem, ChunkSuffix(Tsx)) then Some(Tsx)
    else if EndsWith(stem, ChunkSuffix(Ts)) then Some(Ts)
    else if EndsWith(stem, ChunkSuffix(Jsx)) then Some(Jsx)
    else if EndsWith(stem, ChunkSuffix(Js)) then Some(Js)
    else if EndsWith(stem, ChunkSuffix(Css)) then Some(Css)
    else
      NoSuffixMatches(stem);
      None
  }

  lemma NoSuffixMatches(stem: string)
    requires !EndsWith(stem, ChunkSuffix(Tsx)) && !EndsWith(stem, ChunkSuffix(Ts)) && !EndsWith(stem, ChunkSuffix(Jsx))
    requires !EndsWith(stem, ChunkSuffix(Js)) && !EndsWith(stem, ChunkSuffix(Css))
    ensures forall k :: !EndsWith(stem, ChunkSuffix(k))
  {
    forall k ensures !EndsWith(stem, ChunkSuffix(k)) {
      match k case Tsx => case Ts => case Jsx => case Js => case Css =>
    }
  }

  /** The path of a stem that ends with a kind's suffix: the suffix dropped, `_` turned into `/`, the extension added. */
  function SourcePath(withoutHash: string, k: SourceKind): (p: string)
    requires EndsWith(withoutHash, ChunkSuffix(k))
    ensures '_' !in p && EndsWith(p, Extension(k))
  {
    var stem := withoutHash[..|withoutHash| - |ChunkSuffix(k)|];
    var p := ReplaceAll(stem, '_', '/') + Extension(k);
    assert p[|p| - |Extension(k)|..] == Extension(k);
    assert forall i :: 0 <= i < |p| ==> p[i] != '_' by {
      forall i | 0 <= i < |p| ensures p[i] != '_' {
        if i >= |stem| {
          assert p[i] == Extension(k)[i - |stem|];
        }
      }
    }
    p
  }

  /**
   * `decodeChunkFilename`: the stripped name without its `_<ext>` suffix, every `_` turned into
   * `/`, and `.<ext>` appended; `None` when no known suffix is found.
   */
  function DecodeChunkFilename(chunkName: string): (r: Option<string>)
    ensures r.None? <==> forall k :: !EndsWith(Stripped(chunkName), ChunkSuffix(k))
    ensures r.Some? ==> '_' !in r.value && EndsWith(r.value, Extension(DetectedKind(Stripped(chunkName)).value))
  {
    var withoutHash := Stripped(chunkName);
    match DetectedKind(withoutHash)
    case None => None
    case Some(k) => Some(SourcePath(withoutHash, k))
  }

  predicate IsChunkHash(hash: string) {
    |hash| == 8 && forall i :: 0 <= i < 8 ==> IsLowerHex(hash[i])
  }

  /**
   * The name Turbopack gives the chunk of a source file, as the documented example shows: the path
   * without extension with `/` turned into `_`, then `_<ext>`, `_<hash>` and `._.js`.
   */
  function ChunkName(stem: string, k: SourceKind, hash: string): string {
    ReplaceAll(stem, '/', '_') + ChunkSuffix(k) + "_" + hash + "._" + ".js"
  }

  /** A source path without `_` in it is recovered from its chunk's name. */
  lemma DecodeChunkName(stem: string, k: SourceKind, hash: string)
    requires '_' !in stem && IsChunkHash(hash)
    ensures DecodeChunkFilename(ChunkName(stem, k, hash)) == Some(stem + Extension(k))
  {
    DecodeAnyChunkName(stem, k, hash);
    ReplaceAllUndone(stem);
  }

  /** In general any `_` of the path comes back as `/` as well. */
  lemma DecodeAnyChunkName(stem: string, k: SourceKind, hash: string)
    requires IsChunkHash(hash)
    ensures DecodeChunkFilename(ChunkName(stem, k, hash)) == Some(ReplaceAll(ReplaceAll(stem, '/', '_'), '_', '/') + Extension(k))
  {
    var withExt := ReplaceAll(stem, '/', '_') + ChunkSuffix(k);
    var hashed := withExt + "_" + hash;
    StripExtensionOfJs(hashed + "._");
    StripBundleMarkerOf(hashed);
    StripHashOf(withExt, hash);
    assert Stripped(ChunkName(stem, k, hash)) == withExt;
    DetectsOwnKind(ReplaceAll(stem, '/', '_'), k);
    assert withExt[..|withExt| - |ChunkSuffix(k)|] == ReplaceAll(stem, '/', '_');
  }

  /** The last extension is dropped from a name that ends in `.js`. */
  lemma StripExtensionOfJs(s: string)
    ensures StripExtension(s + ".js") == s
  {
    var name := s + ".js";
    assert name[|s|] == '.' && name[|s| + 1..] == "js";
    var k := LastDot(name);
    assert k.Some? && k.value >= |s|;
    assert k.value == |s|;
  }

  lemma StripBundleMarkerOf(s: string)
    ensures StripBundleMarker(s + "._") == s
  {
    var m := s + "._";
    assert m[|m| - 2..] == "._";
  }

  lemma StripHashOf(s: string, hash: string)
    requires IsChunkHash(hash)
    ensures StripHash(s + "_" + hash) == s
  {
    var h := s + "_" + hash;
    assert h[|h| - 9] == '_';
    assert forall i :: |h| - 8 <= i < |h| ==> h[i] == hash[i - (|h| - 8)];
    assert h[..|h| - 9] == s;
  }

  /** The suffix test finds the kind a name was given, and no earlier one. */
  lemma DetectsOwnKind(encoded: string, k: SourceKind)
    ensures DetectedKind(encoded + ChunkSuffix(k)) == Some(k)
  {
    match k
    case Tsx => DetectsTsx(encoded);
    case Ts => DetectsTs(encoded);
    case Jsx => DetectsJsx(encoded);
    case Js => DetectsJs(encoded);
    case Css => DetectsCss(encoded);
  }

  lemma DetectsTsx(encoded: string)
    ensures DetectedKind(encoded + ChunkSuffix(Tsx)) == Some(Tsx)
  {
    var s := encoded + ChunkSuffix(Tsx);
    assert s[|s| - |ChunkSuffix(Tsx)|..] == ChunkSuffix(Tsx);
  }

  lemma DetectsTs(encoded: string)
    ensures DetectedKind(encoded + ChunkSuffix(Ts)) == Some(Ts)
  {
    var s := encoded + ChunkSuffix(Ts);
    var n := |s|;
    assert s[n - |ChunkSuffix(Ts)|..] == ChunkSuffix(Ts);
    assert s[n - 1] == 's';
    assert !EndsWith(s, ChunkSuffix(Tsx)) by { assert ChunkSuffix(Tsx)[3] == 'x'; }
  }

  lemma DetectsJsx(encoded: string)
    ensures DetectedKind(encoded + ChunkSuffix(Jsx)) == Some(Jsx)
  {
    var s := encoded + ChunkSuffix(Jsx);
    var n := |s|;
    assert s[n - |ChunkSuffix(Jsx)|..] == ChunkSuffix(Jsx);
    assert s[n - 3] == 'j' && s[n - 2] == 's';
    assert !EndsWith(s, ChunkSuffix(Tsx)) by { assert ChunkSuffix(Tsx)[1] == 't'; }
    assert !EndsWith(s, ChunkSuffix(Ts)) by { assert ChunkSuffix(Ts)[2] == 's'; }
  }

  lemma DetectsJs(encoded: string)
    ensures DetectedKind(encoded + ChunkSuffix(Js)) == Some(Js)
  {
    var s := encoded + ChunkSuffix(Js);
    var n := |s|;
    assert s[n - |ChunkSuffix(Js)|..] == ChunkSuffix(Js);
    assert s[n - 2] == 'j' && s[n - 1] == 's';
    assert !EndsWith(s, ChunkSuffix(Tsx)) by { assert ChunkSuffix(Tsx)[3] == 'x'; }
    assert !EndsWith(s, ChunkSuffix(Ts)) by { assert ChunkSuffix(Ts)[1] == 't'; }
    assert !EndsWith(s, ChunkSuffix(Jsx)) by { assert ChunkSuffix(Jsx)[3] == 'x'; }
  }

  lemma DetectsCss(encoded: string)
    ensures DetectedKind(encoded + ChunkSuffix(Css)) == Some(Css)
  {
    var s := encoded + ChunkSuffix(Css);
    var n := |s|;
    assert s[n - |ChunkSuffix(Css)|..] == ChunkSuffix(Css);
    assert s[n - 3] == 'c' && s[n - 2] == 's' && s[n - 1] == 's';
    assert !EndsWith(s, ChunkSuffix(Tsx)) by { assert ChunkSuffix(Tsx)[3] == 'x'; }
    assert !EndsWith(s, ChunkSuffix(Ts)) by { assert ChunkSuffix(Ts)[1] == 't'; }
    assert !EndsWith(s, ChunkSuffix(Jsx)) by { assert ChunkSuffix(Jsx)[3] == 'x'; }
    assert !EndsWith(s, ChunkSuffix(Js)) by { assert ChunkSuffix(Js)[1] == 'j'; }
  }

  /** Turning `/` into `_` and back gives the path again when it had no `_`. */
  lemma ReplaceAllUndone(stem: string)
    requires '_' !in stem
    ensures ReplaceAll(ReplaceAll(stem, '/', '_'), '_', '/') == stem
  {
  }

  /** The documented example. */
  lemma DocumentedExample()
    ensures DecodeChunkFilename("apps_web_src_app_layout_tsx_a4dff4b0._.js") == Some("apps/web/src/app/layout.tsx")
  {
    ExampleChunkName();
    DecodeChunkName("apps/web/src/app/layout", Tsx, "a4dff4b0");
    ExamplePath();
    SameChunkName(ChunkName("apps/web/src/app/layout", Tsx, "a4dff4b0"), "apps_web_src_app_layout_tsx_a4dff4b0._.js");
  }

  /**
   * A path with `_` in it is decoded to a different path: the chunk of `app/my_page.tsx` names
   * `app/my/page.tsx`, so the file is not listed, or another file is listed in its place.
   */
  lemma UnderscoreMisdecoded()
    ensures DecodeChunkFilename(ChunkName("app/my_page", Tsx, "0123abcd")) == Some("app/my/page.tsx")
  {
    UnderscoreHash();
    DecodeAnyChunkName("app/my_page", Tsx, "0123abcd");
    UnderscoreStem();
    UnderscorePath();
  }

  lemma UnderscoreHash()
    ensures IsChunkHash("0123abcd")
  {
  }

  lemma UnderscoreStem()
    ensures ReplaceAll(ReplaceAll("app/my_page", '/', '_'), '_', '/') == "app/my/page"
  {
    var r := ReplaceAll(ReplaceAll("app/my_page", '/', '_'), '_', '/');
    assert |r| == 11;
    forall i | 0 <= i < 11 ensures r[i] == "app/my/page"[i] {
    }
  }

  lemma UnderscorePath()
    ensures "app/my/page" + Extension(Tsx) == "app/my/page.tsx"
  {
  }

  lemma SameChunkName(a: string, b: string)
    requires a == b
    ensures DecodeChunkFilename(a) == DecodeChunkFilename(b)
  {
  }

  lemma ExamplePath()
    ensures "apps/web/src/app/layout" + Extension(Tsx) == "apps/web/src/app/layout.tsx"
  {
  }

  lemma ExampleChunkName()
    ensures IsChunkHash("a4dff4b0") && '_' !in "apps/web/src/app/layout"
    ensures ChunkName("apps/web/src/app/layout", Tsx, "a4dff4b0") == "apps_web_src_app_layout_tsx_a4dff4b0._.js"
  {
    ExampleStem();
    assert ChunkSuffix(Tsx) == "_tsx";
  }

  lemma ExampleStem()
    ensures ReplaceAll("apps/web/src/app/layout", '/', '_') == "apps_web_src_app_layout"
  {
    var r := ReplaceAll("apps/web/src/app/layout", '/', '_');
    assert |r| == 23;
    forall i | 0 <= i < 23 ensures r[i] == "apps_web_src_app_layout"[i] {
    }
  }


  // ----- Trace entries

  /** `p` without its trailing `/`s: a prefix of `p` after which only `/` follows. */
  function TrimTrailingSlashes(p: string): (q: string)
    ensures |q| <= |p| && q == p[..|q|]
    ensures q == [] || q[|q| - 1] != '/'
    ensures forall i :: |q| <= i < |p| ==> p[i] == '/'
    decreases |p|
  {
    if p != [] && p[|p| - 1] == '/' then TrimTrailingSlashes(p[..|p| - 1]) else p
  }

  /** What follows the last `/`: a suffix of `p` that starts at its beginning or just after a `/`. */
  function AfterLastSlash(p: string): (r: string)
    ensures '/' !in r
    ensures |r| <= |p| && r == p[|p| - |r|..]
    ensures |r| < |p| ==> p[|p| - |r| - 1] == '/'
    decreases |p|
  {
    if p == [] || p[|p| - 1] == '/' then [] else AfterLastSlash(p[..|p| - 1]) + [p[|p| - 1]]
  }

  /** `path.basename` on a POSIX path: the last non-empty component. */
  function Basename(p: string): (r: string)
    ensures '/' !in r
    ensures var q := TrimTrailingSlashes(p);
      |r| <= |q| && r == q[|q| - |r|..] && (|r| < |q| ==> q[|q| - |r| - 1] == '/')
  {
    AfterLastSlash(TrimTrailingSlashes(p))
  }

  /**
   * What one trace entry adds to the file list: the decoded path of an SSR chunk whose name has
   * a `_`, when decoding succeeds and the decoded file exists (`fileExists` stands for the file
   * system, relative to the repository root).
   */
  function TraceContribution(entry: string, fileExists: string -> bool): (r: Option<string>)
    ensures r.Some? <==>
      && Contains(entry, "chunks/ssr/") && '_' in Basename(entry)
      && DecodeChunkFilename(Basename(entry)).Some? && fileExists(DecodeChunkFilename(Basename(entry)).value)
    ensures r.Some? ==> r == DecodeChunkFilename(Basename(entry)) && '_' !in r.value
  {
    var fileName := Basename(entry);
    if Contains(entry, "chunks/ssr/") && '_' in fileName then
      var decoded := DecodeChunkFilename(fileName);
      if decoded.Some? && fileExists(decoded.value) then decoded else None
    else
      None
  }

  /** The contributions of the entries, in order, duplicates included. */
  function Contributions(entries: seq<string>, fileExists: string -> bool): seq<string>
    decreases |entries|
  {
    if entries == [] then []
    else
      Contributions(entries[..|entries| - 1], fileExists)
      + match TraceContribution(entries[|entries| - 1], fileExists) case Some(p) => [p] case None => []
  }

  predicate NoDuplicates(s: seq<string>) {
    forall i, j :: 0 <= i < j < |s| ==> s[i] != s[j]
  }

  /** A `Set` built by adding the elements in order, read out in insertion order. */
  function Dedup(s: seq<string>): (r: seq<string>)
    ensures NoDuplicates(r)
    ensures forall x :: x in r <==> x in s
    decreases |s|
  {
    if s == [] then []
    else
      var d := Dedup(s[..|s| - 1]);
      assert forall x :: x in s <==> x in s[..|s| - 1] || x == s[|s| - 1];
      if s[|s| - 1] in d then d else d + [s[|s| - 1]]
  }

  /**
   * `extractSourceFilesFromTrace`: `files` is the trace's `files` array, `None` when the trace
   * cannot be read or parsed or has no such array. The result holds every contribution once, in
   * the order first found.
   */
  method ExtractSourceFilesFromTrace(files: Option<seq<string>>, fileExists: string -> bool)
    returns (sourceFiles: seq<string>)
    ensures files.None? ==> sourceFiles == []
    ensures files.Some? ==> sourceFiles == Dedup(Contributions(files.value, fileExists))
  {
    sourceFiles := [];
    if files.None? {
      return;
    }
    var entries := files.value;
    var i := 0;
    assert entries[..0] == [];
    while i < |entries|
      invariant 0 <= i <= |entries|
      invariant sourceFiles == Dedup(Contributions(entries[..i], fileExists))
    {
      ContributionsStep(entries, i, fileExists);
      ghost var before := Contributions(entries[..i], fileExists);
      ghost var next := Contributions(entries[..i + 1], fileExists);
      var relativeFilePath := entries[i];
      var fileName := Basename(relativeFilePath);
      if Contains(relativeFilePath, "chunks/ssr/") && '_' in fileName {
        var decodedPath := DecodeChunkFilename(fileName);
        if decodedPath.Some? && fileExists(decodedPath.value) {
          assert TraceContribution(relativeFilePath, fileExists) == decodedPath;
          assert next == before + [decodedPath.value];
          DedupSnoc(before, decodedPath.value);
          if decodedPath.value !in sourceFiles {
            sourceFiles := sourceFiles + [decodedPath.value];
          }
          assert sourceFiles == Dedup(next);
        } else {
          assert TraceContribution(relativeFilePath, fileExists) == None;
          assert next == before;
        }
      } else {
        assert TraceContribution(relativeFilePath, fileExists) == None;
        assert next == before;
      }
      i := i + 1;
    }
    assert entries[..i] == entries;
  }

  lemma ContributionsSnoc(entries: seq<string>, entry: string, fileExists: string -> bool)
    ensures Contributions(entries + [entry], fileExists) ==
      Contributions(entries, fileExists)
      + match TraceContribution(entry, fileExists) case Some(p) => [p] case None => []
  {
    assert (entries + [entry])[..|entries|] == entries;
  }

  /** The contributions of one more entry of a trace. */
  lemma ContributionsStep(entries: seq<string>, i: nat, fileExists: string -> bool)
    requires i < |entries|
    ensures TraceContribution(entries[i], fileExists).None? ==>
      Contributions(entries[..i + 1], fileExists) == Contributions(entries[..i], fileExists)
    ensures TraceContribution(entries[i], fileExists).Some? ==>
      Contributions(entries[..i + 1], fileExists) ==
      Contributions(entries[..i], fileExists) + [TraceContribution(entries[i], fileExists).value]
  {
    assert entries[..i + 1] == entries[..i] + [entries[i]];
    ContributionsSnoc(entries[..i], entries[i], fileExists);
  }

  lemma DedupSnoc(s: seq<string>, x: string)
    ensures Dedup(s + [x]) == if x in Dedup(s) then Dedup(s) else Dedup(s) + [x]
  {
    assert (s + [x])[..|s|] == s;
  }

  // ----- The file list

  /** JavaScript's `<` on strings: a proper prefix first, else the first differing character decides. */
  predicate Less(a: string, b: string)
    decreases |a|
  {
    if a == [] then b != []
    else if b == [] then false
    else if a[0] != b[0] then a[0] < b[0]
    else Less(a[1..], b[1..])
  }

  lemma {:induction false} LessIrreflexive(a: string)
    ensures !Less(a, a)
    decreases |a|
  {
    if a != [] {
      LessIrreflexive(a[1..]);
    }
  }

  lemma {:induction false} LessTransitive(a: string, b: string, c: string)
    requires Less(a, b) && Less(b, c)
    ensures Less(a, c)
    decreases |a|
  {
    if a != [] && b != [] && c != [] && a[0] == b[0] && b[0] == c[0] {
      LessTransitive(a[1..], b[1..], c[1..]);
    }
  }

  lemma {:induction false} LessTotal(a: string, b: string)
    ensures a == b || Less(a, b) || Less(b, a)
    decreases |a|
  {
    if a != [] && b != [] && a[0] == b[0] {
      LessTotal(a[1..], b[1..]);
      if a[1..] == b[1..] {
        assert a == [a[0]] + a[1..] && b == [b[0]] + b[1..];
      }
    }
  }

  lemma {:induction false} LessAsymmetric(a: string, b: string)
    ensures !(Less(a, b) && Less(b, a))
    decreases |a|
  {
    if a != [] && b != [] && a[0] == b[0] {
      LessAsymmetric(a[1..], b[1..]);
    }
  }

  /** In order: no element is less than one before it. */
  predicate Sorted(s: seq<string>) {
    forall i, j :: 0 <= i < j < |s| ==> !Less(s[j], s[i])
  }

  /** In strictly increasing order. */
  predicate StrictlySorted(s: seq<string>) {
    forall i, j :: 0 <= i < j < |s| ==> Less(s[i], s[j])
  }

  /** `x` placed before the first element that is not less than it. */
  function Insert(x: string, s: seq<string>): (r: seq<string>)
    ensures multiset(r) == multiset(s) + multiset{x}
    decreases |s|
  {
    if s == [] || !Less(s[0], x) then [x] + s
    else
      assert s == [s[0]] + s[1..];
      [s[0]] + Insert(x, s[1..])
  }

  lemma {:induction false} InsertSorted(x: string, s: seq<string>)
    requires Sorted(s)
    ensures Sorted(Insert(x, s))
    decreases |s|
  {
    if s != [] && Less(s[0], x) {
      InsertSorted(x, s[1..]);
      var r := Insert(x, s);
      assert r == [s[0]] + Insert(x, s[1..]);
      forall j | 0 < j < |r| ensures !Less(r[j], s[0]) {
        assert r[j] in multiset(Insert(x, s[1..]));
        assert r[j] == x || r[j] in s[1..];
        if r[j] == x {
          LessAsymmetric(x, s[0]);
        }
      }
    } else if s != [] {
      forall j | 0 < j < |s| ensures !Less(s[j], x) {
        assert !Less(s[j], s[0]);
        if Less(s[j], x) {
          LessTotal(s[0], x);
          if Less(x, s[0]) {
            LessTransitive(s[j], x, s[0]);
          }
        }
      }
    }
  }

  /** `Array.prototype.sort` with its default order, as insertion sort. */
  function Sort(s: seq<string>): (r: seq<string>)
    ensures multiset(r) == multiset(s)
    decreases |s|
  {
    if s == [] then []
    else
      assert s == [s[0]] + s[1..];
      Insert(s[0], Sort(s[1..]))
  }

  lemma {:induction false} SortSorted(s: seq<string>)
    ensures Sorted(Sort(s))
    decreases |s|
  {
    if s != [] {
      SortSorted(s[1..]);
      InsertSorted(s[0], Sort(s[1..]));
    }
  }

  /** Sorting elements without duplicates puts them in strictly increasing order, and keeps them all. */
  lemma SortDistinct(s: seq<string>)
    requires NoDuplicates(s)
    ensures StrictlySorted(Sort(s)) && |Sort(s)| == |s|
    ensures forall x :: x in Sort(s) <==> x in s
  {
    var r := Sort(s);
    SortSorted(s);
    assert |r| == |multiset(r)| == |multiset(s)| == |s|;
    forall x ensures x in r <==> x in s {
      assert x in r <==> x in multiset(r);
    }
    forall i, j | 0 <= i < j < |r| ensures Less(r[i], r[j]) {
      DistinctAfterPermutation(s, r, i, j);
      LessTotal(r[i], r[j]);
    }
  }

  /** A permutation of a sequence without duplicates has none either. */
  lemma DistinctAfterPermutation(s: seq<string>, r: seq<string>, i: nat, j: nat)
    requires NoDuplicates(s) && multiset(r) == multiset(s) && i < j < |r|
    ensures r[i] != r[j]
  {
    if r[i] == r[j] {
      var x := r[i];
      assert multiset(r)[x] >= 2 by {
        assert r == r[..j] + [r[j]] + r[j + 1..];
        assert r[i] in r[..j];
        assert multiset(r) == multiset(r[..j]) + multiset{x} + multiset(r[j + 1..]);
      }
      OccursOnce(s, x);
      assert false;
    }
  }

  /** In a sequence without duplicates an element occurs at most once. */
  lemma {:induction false} OccursOnce(s: seq<string>, x: string)
    requires NoDuplicates(s)
    ensures multiset(s)[x] <= 1
    decreases |s|
  {
    if s != [] {
      assert s == [s[0]] + s[1..];
      OccursOnce(s[1..], x);
      if s[0] == x {
        assert x !in s[1..];
      }
    }
  }

  /** The list written by `generateFileList`, without its build time. */
  datatype FileList = FileList(sourceFiles: seq<string>, totalSourceFiles: nat)

  /** Every contribution of every readable trace, in order. */
  function AllContributions(traces: seq<Option<seq<string>>>, fileExists: string -> bool): seq<string>
    decreases |traces|
  {
    if traces == [] then []
    else
      AllContributions(traces[..|traces| - 1], fileExists)
      + match traces[|traces| - 1] case Some(files) => Contributions(files, fileExists) case None => []
  }

  lemma AllContributionsSnoc(traces: seq<Option<seq<string>>>, trace: Option<seq<string>>, fileExists: string -> bool)
    ensures AllContributions(traces + [trace], fileExists) ==
      AllContributions(traces, fileExists) + match trace case Some(files) => Contributions(files, fileExists) case None => []
  {
    assert (traces + [trace])[..|traces|] == traces;
  }

  /** What one trace adds, as far as membership goes. */
  lemma ContributionsOfTrace(trace: Option<seq<string>>, sourceFiles: seq<string>, fileExists: string -> bool)
    requires trace.None? ==> sourceFiles == []
    requires trace.Some? ==> sourceFiles == Dedup(Contributions(trace.value, fileExists))
    ensures forall x :: x in sourceFiles <==> x in match trace case Some(files) => Contributions(files, fileExists) case None => []
  {
  }

  /** `items.forEach(file => set.add(file))` on a set kept as a duplicate-free sequence in insertion order. */
  method AddAll(added: seq<string>, items: seq<string>) returns (r: seq<string>)
    requires NoDuplicates(added)
    ensures NoDuplicates(r)
    ensures forall x :: x in r <==> x in added || x in items
  {
    r := added;
    var k := 0;
    while k < |items|
      invariant 0 <= k <= |items|
      invariant NoDuplicates(r)
      invariant forall x :: x in r <==> x in added || x in items[..k]
    {
      assert items[..k + 1] == items[..k] + [items[k]];
      if items[k] !in r {
        r := r + [items[k]];
      }
      k := k + 1;
    }
    assert items[..k] == items;
  }

  /**
   * `generateFileList`: `nextDirExists` says whether the build has a `.next` directory, `traces`
   * are the `files` arrays of its trace files. The list holds every source file found in some
   * trace, once, in increasing order, and counts them.
   */
  method GenerateFileList(nextDirExists: bool, traces: seq<Option<seq<string>>>, fileExists: string -> bool)
    returns (fileList: Option<FileList>)
    ensures !nextDirExists ==> fileList.None?
    ensures nextDirExists ==> fileList.Some?
    ensures fileList.Some? ==>
      && StrictlySorted(fileList.value.sourceFiles)
      && (forall x :: x in fileList.value.sourceFiles <==> x in AllContributions(traces, fileExists))
      && fileList.value.totalSourceFiles == |fileList.value.sourceFiles|
  {
    if !nextDirExists {
      return None;
    }
    var allSourceFiles: seq<string> := [];
    var t := 0;
    while t < |traces|
      invariant 0 <= t <= |traces|
      invariant NoDuplicates(allSourceFiles)
      invariant forall x :: x in allSourceFiles <==> x in AllContributions(traces[..t], fileExists)
    {
      assert traces[..t + 1] == traces[..t] + [traces[t]];
      var sourceFiles := ExtractSourceFilesFromTrace(traces[t], fileExists);
      AllContributionsSnoc(traces[..t], traces[t], fileExists);
      ContributionsOfTrace(traces[t], sourceFiles, fileExists);
      allSourceFiles := AddAll(allSourceFiles, sourceFiles);
      t := t + 1;
    }
    assert traces[..t] == traces;
    var sorted := Sort(allSourceFiles);
    SortDistinct(allSourceFiles);
    fileList := Some(FileList(sorted, |sorted|));
  }
}
