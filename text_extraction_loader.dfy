/**
 * The text-extraction loader. For a JSX/TSX module outside `node_modules` it names the
 * component, checks whether a `locale` comes from `useLocale()`, replaces every JSX text that is
 * not blank by a call of `t` with the text's key, appends one record per replaced text to the
 * sink, and imports `t` unless the module already binds it.
 */
module TextExtractionLoader {
  import opened Wrappers
  import opened JsString
  import opened JsxAst
  import opened StringsManager
  import opened SeqFacts

  // ----- Meaningful text

  /** `isMeaningfulText`: something is left after `trim`, and it is not a lone line break. */
  predicate IsMeaningfulText(text: string) {
    var trimmed := Trim(text);
    |trimmed| > 0 && trimmed != "\n"
  }

  /** The line-break test adds nothing: `trim` never leaves a lone line break behind. */
  lemma MeaningfulIffTrimNonEmpty(text: string)
    ensures IsMeaningfulText(text) <==> Trim(text) != ""
    ensures IsMeaningfulText(text) <==> !AllWhitespace(text)
  {
    var trimmed := Trim(text);
    assert trimmed != [] ==> !IsWhitespace(trimmed[0]);
  }

  // ----- The component name

  predicate IsJSX(n: Node) {
    n.JSXElement? || n.JSXFragment?
  }

  /** `return <element>` or `return <>...</>`. */
  predicate IsJSXReturn(statement: Node) {
    statement.ReturnStatement? && statement.argument.Some? && IsJSX(statement.argument.value)
  }

  /** Some statement directly in the body returns JSX. */
  predicate HasJSXReturn(body: seq<Node>) {
    exists j :: 0 <= j < |body| && IsJSXReturn(body[j])
  }

  /**
   * The name a declaration visitor sets just before it stops the traversal: a named function
   * declaration, or an identifier bound to a function expression or arrow function, that returns
   * JSX directly from its body (an arrow also when its body is JSX).
   */
  function StopName(n: Node): Option<string> {
    match n
    case FunctionDeclaration(Some(id), body) => if HasJSXReturn(body) then Some(id) else None
    case VariableDeclarator(IdentifierPattern(name), Some(init)) =>
      (match init
       case FunctionExpression(_, body) => if HasJSXReturn(body) then Some(name) else None
       case ArrowBlock(body) => if HasJSXReturn(body) then Some(name) else None
       case ArrowExpression(result) => if IsJSX(result) then Some(name) else None
       case _ => None)
    case _ => None
  }

  /** The name the `export default` visitor sets, without stopping: a named function or an identifier. */
  function ExportName(n: Node): Option<string> {
    match n
    case ExportDefaultDeclaration(FunctionDeclaration(Some(id), _)) => Some(id)
    case ExportDefaultDeclaration(Identifier(name)) => Some(name)
    case _ => None
  }

  predicate IsFirstStop(ns: seq<Node>, j: int) {
    0 <= j < |ns| && StopName(ns[j]).Some? && forall i :: 0 <= i < j ==> StopName(ns[i]).None?
  }

  predicate IsLastExport(ns: seq<Node>, j: int) {
    0 <= j < |ns| && ExportName(ns[j]).Some? && forall i :: j < i < |ns| ==> ExportName(ns[i]).None?
  }

  /** The name of the first node, in visiting order, at which a declaration visitor stops. */
  function FirstStop(ns: seq<Node>): (r: Option<string>)
    ensures r.None? <==> forall j :: 0 <= j < |ns| ==> StopName(ns[j]).None?
    ensures r.Some? ==> exists j :: IsFirstStop(ns, j) && r == StopName(ns[j])
    decreases |ns|
  {
    if ns == [] then None
    else if StopName(ns[0]).Some? then
      assert IsFirstStop(ns, 0);
      StopName(ns[0])
    else
      var r := FirstStop(ns[1..]);
      assert forall j :: 0 <= j < |ns| - 1 ==> ns[1..][j] == ns[j + 1];
      if r.Some? then
        var j :| IsFirstStop(ns[1..], j) && r == StopName(ns[1..][j]);
        assert IsFirstStop(ns, j + 1);
        r
      else
        r
  }

  /** The name of the last `export default` that names something. */
  function LastExport(ns: seq<Node>): (r: Option<string>)
    ensures r.None? <==> forall j :: 0 <= j < |ns| ==> ExportName(ns[j]).None?
    ensures r.Some? ==> exists j :: IsLastExport(ns, j) && r == ExportName(ns[j])
    decreases |ns|
  {
    if ns == [] then None
    else if ExportName(ns[|ns| - 1]).Some? then
      assert IsLastExport(ns, |ns| - 1);
      ExportName(ns[|ns| - 1])
    else
      var init := ns[..|ns| - 1];
      assert forall j :: 0 <= j < |init| ==> init[j] == ns[j];
      var r := LastExport(init);
      if r.Some? then
        var j :| IsLastExport(init, j) && r == ExportName(init[j]);
        assert IsLastExport(ns, j);
        r
      else
        r
  }

  /**
   * `findComponentName`: the first declaration the traversal stops at names the component;
   * without one, the last named default export does; without that, it is `default`.
   */
  function ComponentName(ns: seq<Node>): string {
    match FirstStop(ns)
    case Some(name) => name
    case None => LastExport(ns).GetOr("default")
  }

  /** The first stop wins over any default export, and the last default export over the ones before it. */
  lemma ComponentNameCharacterized(ns: seq<Node>)
    ensures forall j :: IsFirstStop(ns, j) ==> ComponentName(ns) == StopName(ns[j]).value
    ensures (forall i :: 0 <= i < |ns| ==> StopName(ns[i]).None?) ==>
      forall j :: IsLastExport(ns, j) ==> ComponentName(ns) == ExportName(ns[j]).value
    ensures (forall i :: 0 <= i < |ns| ==> StopName(ns[i]).None? && ExportName(ns[i]).None?) ==>
      ComponentName(ns) == "default"
  {
    forall j | IsFirstStop(ns, j) ensures ComponentName(ns) == StopName(ns[j]).value {
      FirstStopAt(ns, j);
    }
    forall j | IsLastExport(ns, j) ensures LastExport(ns) == ExportName(ns[j]) {
      LastExportAt(ns, j);
    }
  }

  /** Only one position is the first stop. */
  lemma FirstStopAt(ns: seq<Node>, j: int)
    requires IsFirstStop(ns, j)
    ensures FirstStop(ns) == StopName(ns[j])
  {
    assert !(forall i :: 0 <= i < |ns| ==> StopName(ns[i]).None?);
    assert FirstStop(ns).Some?;
    var k :| IsFirstStop(ns, k) && FirstStop(ns) == StopName(ns[k]);
    assert k == j;
  }

  /** Only one position is the last export. */
  lemma LastExportAt(ns: seq<Node>, j: int)
    requires IsLastExport(ns, j)
    ensures LastExport(ns) == ExportName(ns[j])
  {
    assert !(forall i :: 0 <= i < |ns| ==> ExportName(ns[i]).None?);
    assert LastExport(ns).Some?;
    var k :| IsLastExport(ns, k) && LastExport(ns) == ExportName(ns[k]);
    assert k == j;
  }

  /** One more visited node: a named default export replaces the name found so far. */
  lemma LastExportSnoc(ns: seq<Node>, i: nat)
    requires i < |ns|
    ensures LastExport(ns[..i + 1]) == if ExportName(ns[i]).Some? then ExportName(ns[i]) else LastExport(ns[..i])
  {
    LastExportUnfold(ns[..i + 1]);
    PrefixFacts(ns, i);
  }

  /** `LastExport` looks at the last node first. */
  lemma LastExportUnfold(ns: seq<Node>)
    requires ns != []
    ensures LastExport(ns) == if ExportName(ns[|ns| - 1]).Some? then ExportName(ns[|ns| - 1]) else LastExport(ns[..|ns| - 1])
  {
  }

  /** The traversal of `findComponentName`: `componentName` updated by the visitors, `path.stop()` as the early return. */
  method FindComponentName(ast: Program) returns (componentName: string)
    ensures componentName == ComponentName(VisitedNodes(ast))
  {
    componentName := ScanComponentName(VisitedNodes(ast));
  }

  /** The visitors of `findComponentName` applied to the nodes in the order the traversal enters them. */
  method ScanComponentName(ns: seq<Node>) returns (componentName: string)
    ensures componentName == ComponentName(ns)
  {
    componentName := "default";
    var i := 0;
    while i < |ns|
      invariant 0 <= i <= |ns|
      invariant NoStopIn(ns[..i])
      invariant componentName == LastExport(ns[..i]).GetOr("default")
    {
      var stop := StopName(ns[i]);
      if stop.Some? {
        StopFound(ns, i);
        componentName := stop.value;
        return;
      }
      ExportStep(ns, i, componentName);
      NoStopSnoc(ns, i);
      var exported := ExportName(ns[i]);
      if exported.Some? {
        componentName := exported.value;
      }
      i := i + 1;
    }
    NoStopFound(ns);
  }

  /** None of the nodes is one the traversal stops at. */
  predicate NoStopIn(ns: seq<Node>)
    decreases |ns|
  {
    ns != [] ==> StopName(ns[|ns| - 1]).None? && NoStopIn(ns[..|ns| - 1])
  }

  lemma {:induction false} NoStopInAll(ns: seq<Node>)
    ensures NoStopIn(ns) <==> forall k :: 0 <= k < |ns| ==> StopName(ns[k]).None?
    decreases |ns|
  {
    if ns != [] {
      NoStopInAll(ns[..|ns| - 1]);
    }
  }

  /** The traversal goes on past one more node it does not stop at. */
  lemma NoStopSnoc(ns: seq<Node>, i: nat)
    requires i < |ns| && StopName(ns[i]).None? && NoStopIn(ns[..i])
    ensures NoStopIn(ns[..i + 1])
  {
    PrefixFacts(ns, i);
  }

  /** The first node the traversal stops at names the component. */
  lemma StopFound(ns: seq<Node>, i: nat)
    requires i < |ns| && StopName(ns[i]).Some? && NoStopIn(ns[..i])
    ensures ComponentName(ns) == StopName(ns[i]).value
  {
    NoStopInAll(ns[..i]);
    FirstStopAt(ns, i);
  }

  /** A node the traversal does not stop at: a named default export replaces the name so far. */
  lemma ExportStep(ns: seq<Node>, i: nat, name: string)
    requires i < |ns|
    requires name == LastExport(ns[..i]).GetOr("default")
    ensures (if ExportName(ns[i]).Some? then ExportName(ns[i]).value else name) == LastExport(ns[..i + 1]).GetOr("default")
  {
    LastExportSnoc(ns, i);
  }

  /** Without a stop, the last named default export, or `default`. */
  lemma NoStopFound(ns: seq<Node>)
    requires NoStopIn(ns[..|ns|])
    ensures ComponentName(ns) == LastExport(ns[..|ns|]).GetOr("default")
  {
    if ns != [] {
      PrefixFacts(ns, 0);
    }
    NoStopInAll(ns);
    assert FirstStop(ns).None?;
  }

  // ----- The locale variable

  /** `const { locale, ... } = useLocale(...)`: an object pattern with a property keyed `locale`, initialised by a call of `useLocale`. */
  predicate IsLocaleDeclarator(n: Node) {
    && n.VariableDeclarator? && n.target.ObjectPattern?
    && n.init.Some? && n.init.value.CallExpression? && n.init.value.callee == Identifier("useLocale")
    && exists j :: 0 <= j < |n.target.properties| && n.target.properties[j].ObjectProperty?
                   && n.target.properties[j].key == Some("locale")
  }

  /** Some declarator anywhere in the module takes `locale` from `useLocale()`. */
  predicate UsesLocale(ns: seq<Node>) {
    exists i :: 0 <= i < |ns| && IsLocaleDeclarator(ns[i])
  }

  /** The detection looks at the property's key only: `const { locale: lang } = useLocale()` counts, although it binds `lang`. */
  lemma LocaleDetectedByKey()
    ensures var d := VariableDeclarator(
        ObjectPattern([ObjectProperty(Some("locale"), Some("lang"))]),
        Some(CallExpression(Identifier("useLocale"), [])));
      IsLocaleDeclarator(d) && d.target.properties[0].binding != Some("locale")
  {
    var d := VariableDeclarator(
      ObjectPattern([ObjectProperty(Some("locale"), Some("lang"))]),
      Some(CallExpression(Identifier("useLocale"), [])));
    assert d.target.properties[0].key == Some("locale");
  }

  /** The traversal that sets `hasLocaleVariable`, stopping at the first declarator found. */
  method HasLocaleVariable(ast: Program) returns (hasLocaleVariable: bool)
    ensures hasLocaleVariable == UsesLocale(VisitedNodes(ast))
  {
    var ns := VisitedNodes(ast);
    hasLocaleVariable := false;
    var i := 0;
    while i < |ns|
      invariant 0 <= i <= |ns|
      invariant forall k :: 0 <= k < i ==> !IsLocaleDeclarator(ns[k])
    {
      if IsLocaleDeclarator(ns[i]) {
        hasLocaleVariable := true;
        return;
      }
      i := i + 1;
    }
  }

  // ----- The import of `t`

  /** A named or default import whose local name is `t`; a namespace import does not count. */
  predicate BindsT(s: ImportSpecifier) {
    (s.ImportNamed? || s.ImportDefault?) && s.local == "t"
  }

  predicate IsTImport(n: Node) {
    n.ImportDeclaration? && exists j :: 0 <= j < |n.specifiers| && BindsT(n.specifiers[j])
  }

  predicate ImportsT(ns: seq<Node>) {
    exists i :: 0 <= i < |ns| && IsTImport(ns[i])
  }

  /** The traversal that sets `hasImport`, stopping at the first import found. */
  method HasTImport(ast: Program) returns (hasImport: bool)
    ensures hasImport == ImportsT(VisitedNodes(ast))
  {
    var ns := VisitedNodes(ast);
    hasImport := false;
    var i := 0;
    while i < |ns|
      invariant 0 <= i <= |ns|
      invariant forall k :: 0 <= k < i ==> !IsTImport(ns[k])
    {
      if IsTImport(ns[i]) {
        hasImport := true;
        return;
      }
      i := i + 1;
    }
  }

  const RuntimeModule: string := "turbopack-file-list-plugin/dist/runtime"

  /** `import { t } from 'turbopack-file-list-plugin/dist/runtime'` */
  const TImport: Node := ImportDeclaration([ImportNamed("t")], RuntimeModule)

  /** The module with the import of `t` put first, unless it is already imported. */
  function WithTImport(ast: Program, hasImport: bool): (r: Program)
    ensures hasImport ==> r == ast
    ensures !hasImport ==> |r.body| == |ast.body| + 1 && r.body[0] == TImport && r.body[1..] == ast.body
  {
    if hasImport then ast else Program([TImport] + ast.body)
  }

  /** After the insertion step the module binds `t` through an import. */
  lemma TBoundAfterInsertion(ast: Program)
    ensures ImportsT(VisitedNodes(WithTImport(ast, ImportsT(VisitedNodes(ast)))))
  {
    if !ImportsT(VisitedNodes(ast)) {
      var p := WithTImport(ast, false);
      var vs := ProgramVisits(p);
      assert vs == VisitNode(Frame(TImport, None, 0), []) + VisitSeq(p.body, false, 1, []);
      assert VisitedNodes(p)[0] == TImport;
      assert BindsT(TImport.specifiers[0]);
    }
  }

  // ----- The JSX path

  predicate IsElementTagged(n: Node, tag: string) {
    n.JSXElement? && n.tag == Some(tag)
  }

  /** How many of the nodes are JSX elements named `tag`. */
  function CountTagged(ns: seq<Node>, tag: string): (k: nat)
    ensures k <= |ns|
    decreases |ns|
  {
    if ns == [] then 0
    else CountTagged(ns[..|ns| - 1], tag) + (if IsElementTagged(ns[|ns| - 1], tag) then 1 else 0)
  }

  /** The positions holding JSX elements named `tag`. */
  ghost function TaggedPositions(ns: seq<Node>, tag: string): set<nat> {
    set i: nat | i < |ns| && IsElementTagged(ns[i], tag)
  }

  /** `CountTagged` is the number of positions holding an element named `tag`. */
  lemma {:induction false} CountTaggedCounts(ns: seq<Node>, tag: string)
    ensures CountTagged(ns, tag) == |TaggedPositions(ns, tag)|
    decreases |ns|
  {
    if ns == [] {
      assert TaggedPositions(ns, tag) == {};
    } else {
      var n := |ns| - 1;
      var init := ns[..n];
      CountTaggedCounts(init, tag);
      var older := TaggedPositions(init, tag);
      assert n !in older;
      if IsElementTagged(ns[n], tag) {
        assert TaggedPositions(ns, tag) == older + {n};
      } else {
        assert TaggedPositions(ns, tag) == older;
      }
    }
  }

  /** The siblings before the node's position. */
  function Before(siblings: seq<Node>, index: nat): seq<Node> {
    if index <= |siblings| then siblings[..index] else siblings
  }

  /**
   * What an ancestor adds to the path: nothing unless it is an element with an identifier tag;
   * the tag, followed by `:nth-child(k)` when its parent element has more than one child element
   * with that tag, `k` counting those from 1 up to and including this one.
   */
  function Segment(f: Frame): Option<string> {
    if !(f.node.JSXElement? && f.node.tag.Some?) then None
    else
      var tag := f.node.tag.value;
      match f.siblings
      case None => Some(tag)
      case Some(siblings) =>
        if CountTagged(siblings, tag) > 1 then
          Some(tag + ":nth-child(" + NatToString(CountTagged(Before(siblings, f.index), tag) + 1) + ")")
        else
          Some(tag)
  }

  /** The segments of a chain of ancestors, outermost first. */
  function Segments(chain: seq<Frame>): seq<string>
    decreases |chain|
  {
    if chain == [] then []
    else (match Segment(chain[0]) case Some(s) => [s] case None => []) + Segments(chain[1..])
  }

  /** `buildJSXPath`: the segments joined by ` > `, or `root` when that leaves nothing. */
  function JSXPath(chain: seq<Frame>): string {
    var joined := Join(Segments(chain), " > ");
    if joined == "" then "root" else joined
  }

  /** The walk up through `parentPath` from the innermost frame, putting each segment in front. */
  method BuildJSXPath(chain: seq<Frame>) returns (path: string)
    ensures path == JSXPath(chain)
  {
    var pathSegments: seq<string> := [];
    var i := |chain|;
    while i > 0
      invariant 0 <= i <= |chain|
      invariant pathSegments == Segments(chain[i..])
    {
      i := i - 1;
      assert chain[i..][1..] == chain[i + 1..];
      var segment := Segment(chain[i]);
      if segment.Some? {
        pathSegments := [segment.value] + pathSegments;
      }
    }
    var joined := Join(pathSegments, " > ");
    path := if joined == "" then "root" else joined;
  }

  /** Without an ancestor that is an element with an identifier tag, the path is `root`. */
  lemma {:induction false} NoElementAncestorIsRoot(chain: seq<Frame>)
    requires forall j :: 0 <= j < |chain| ==> Segment(chain[j]).None?
    ensures JSXPath(chain) == "root"
  {
    NoSegments(chain);
  }

  lemma {:induction false} NoSegments(chain: seq<Frame>)
    requires forall j :: 0 <= j < |chain| ==> Segment(chain[j]).None?
    ensures Segments(chain) == []
    decreases |chain|
  {
    if chain != [] {
      assert forall j :: 0 <= j < |chain| - 1 ==> chain[1..][j] == chain[j + 1];
      NoSegments(chain[1..]);
    }
  }

  /** The segments of two chains one after the other. */
  lemma {:induction false} SegmentsAppend(a: seq<Frame>, b: seq<Frame>)
    ensures Segments(a + b) == Segments(a) + Segments(b)
    decreases |a|
  {
    if a == [] {
      assert a + b == b;
    } else {
      SeqFacts.TailOfAppend(a, b);
      SegmentsAppend(a[1..], b);
    }
  }

  /** A frame that adds no segment (a function, a statement, a container, a fragment) can be left out of a chain. */
  lemma SkipNonElementFrame(a: seq<Frame>, x: Frame, b: seq<Frame>)
    requires Segment(x).None?
    ensures Segments(a + [x] + b) == Segments(a + b) && JSXPath(a + [x] + b) == JSXPath(a + b)
  {
    SegmentsAppend(a + [x], b);
    SegmentsAppend(a, [x]);
    SegmentsAppend(a, b);
    assert Segments([x]) == [] + Segments([x][1..]);
    assert [x][1..] == [];
  }

  /** An element ancestor with a non-empty identifier tag makes the path the joined segments. */
  lemma ElementAncestorGivesPath(chain: seq<Frame>, j: nat)
    requires j < |chain| && chain[j].node.JSXElement? && chain[j].node.tag.Some? && chain[j].node.tag.value != ""
    ensures JSXPath(chain) == Join(Segments(chain), " > ")
  {
    var k := ElementAncestorGivesSegment(chain, j);
    JoinOfNonEmptyPart(Segments(chain), " > ", k);
  }

  /** Such an ancestor contributes a non-empty segment. */
  lemma {:induction false} ElementAncestorGivesSegment(chain: seq<Frame>, j: nat) returns (k: nat)
    requires j < |chain| && chain[j].node.JSXElement? && chain[j].node.tag.Some? && chain[j].node.tag.value != ""
    ensures k < |Segments(chain)| && Segments(chain)[k] != ""
    decreases |chain|
  {
    var first := Segment(chain[0]);
    var head := match first case Some(s) => [s] case None => [];
    assert Segments(chain) == head + Segments(chain[1..]);
    if j == 0 {
      assert |first.value| >= |chain[0].node.tag.value|;
      k := 0;
    } else {
      assert chain[1..][j - 1] == chain[j];
      var k' := ElementAncestorGivesSegment(chain[1..], j - 1);
      k := |head| + k';
    }
  }

  /** A join with a non-empty part is non-empty. */
  lemma {:induction false} JoinOfNonEmptyPart(parts: seq<string>, sep: string, k: nat)
    requires k < |parts| && parts[k] != ""
    ensures Join(parts, sep) != ""
    decreases |parts|
  {
    if |parts| > 1 {
      if k == 0 {
        assert |Join(parts, sep)| >= |parts[0]|;
      } else {
        JoinOfNonEmptyPart(parts[1..], sep, k - 1);
        assert |Join(parts, sep)| >= |Join(parts[1..], sep)|;
      }
    }
  }

  lemma {:induction false} CountTaggedPrefix(ns: seq<Node>, tag: string, i: nat, j: nat)
    requires i <= j <= |ns|
    ensures CountTagged(ns[..i], tag) <= CountTagged(ns[..j], tag)
    decreases j - i
  {
    if i < j {
      CountTaggedPrefix(ns, tag, i, j - 1);
      assert ns[..j][..j - 1] == ns[..j - 1];
    }
  }

  /** Two children with the same tag get different `nth-child` numbers, the earlier one the smaller. */
  lemma NthChildDistinguishesSiblings(siblings: seq<Node>, tag: string, i: nat, j: nat)
    requires i < j < |siblings|
    requires IsElementTagged(siblings[i], tag) && IsElementTagged(siblings[j], tag)
    ensures CountTagged(siblings[..i], tag) < CountTagged(siblings[..j], tag)
  {
    assert siblings[..i + 1][..i] == siblings[..i];
    CountTaggedPrefix(siblings, tag, i + 1, j);
  }

  /** The `nth-child` number of a child lies between 1 and the number of children with its tag. */
  lemma NthChildInRange(f: Frame)
    requires FrameConsistent(f) && f.siblings.Some? && f.node.JSXElement? && f.node.tag.Some?
    ensures CountTagged(Before(f.siblings.value, f.index), f.node.tag.value) + 1
      <= CountTagged(f.siblings.value, f.node.tag.value)
  {
    var s := f.siblings.value;
    var tag := f.node.tag.value;
    assert s[..f.index + 1][..f.index] == s[..f.index];
    CountTaggedPrefix(s, tag, f.index + 1, |s|);
    assert s[..|s|] == s;
  }

  // ----- The rewrite

  /** What the rewrite of one module knows: the digest, the module's path, its component name and whether `locale` is in scope. */
  datatype Env = Env(digest: string -> string, file: string, component: string, hasLocale: bool)

  /** `{t("<hash>")}`, or `{t("<hash>", locale)}` when `locale` is in scope. */
  function TCall(hash: string, withLocale: bool): Node {
    JSXExpressionContainer(CallExpression(
      Identifier("t"),
      [StringLiteral(hash)] + (if withLocale then [Identifier("locale")] else [])))
  }

  /** The record of a meaningful text: the trimmed text, at the path of the text's parent. */
  function TextRecord(env: Env, text: string, ancestors: seq<Frame>): ExtractedString {
    NewEntry(env.digest, Trim(text), env.file, env.component, JSXPath(ancestors))
  }

  /** A rewritten part of the tree and the records appended while rewriting it, in order. */
  datatype Rewritten<T> = Rewritten(result: T, records: seq<ExtractedString>)

  /** The JSXText visitor applied throughout a node: each meaningful text becomes a call of `t`. */
  function RewriteNode(env: Env, f: Frame, ancestors: seq<Frame>): Rewritten<Node>
    decreases f.node, 1
  {
    var inner := ancestors + [f];
    match f.node
    case JSXText(value) =>
      if IsMeaningfulText(value) then
        var record := TextRecord(env, value, ancestors);
        Rewritten(TCall(record.hash, env.hasLocale), [record])
      else
        Rewritten(f.node, [])
    case JSXElement(tag, attributes, children) =>
      var a := RewriteSeq(env, attributes, false, 0, inner);
      var c := RewriteSeq(env, children, true, 0, inner);
      Rewritten(JSXElement(tag, a.result, c.result), a.records + c.records)
    case JSXFragment(children) =>
      var c := RewriteSeq(env, children, false, 0, inner);
      Rewritten(JSXFragment(c.result), c.records)
    case JSXExpressionContainer(e) =>
      var r := RewriteNode(env, Frame(e, None, 0), inner);
      Rewritten(JSXExpressionContainer(r.result), r.records)
    case JSXAttribute(name, initializer) =>
      var r := RewriteOption(env, initializer, inner);
      Rewritten(JSXAttribute(name, r.result), r.records)
    case Identifier(_) => Rewritten(f.node, [])
    case StringLiteral(_) => Rewritten(f.node, [])
    case CallExpression(callee, arguments) =>
      var c := RewriteNode(env, Frame(callee, None, 0), inner);
      var a := RewriteSeq(env, arguments, false, 0, inner);
      Rewritten(CallExpression(c.result, a.result), c.records + a.records)
    case FunctionDeclaration(id, body) =>
      var b := RewriteSeq(env, body, false, 0, inner);
      Rewritten(FunctionDeclaration(id, b.result), b.records)
    case FunctionExpression(id, body) =>
      var b := RewriteSeq(env, body, false, 0, inner);
      Rewritten(FunctionExpression(id, b.result), b.records)
    case ArrowBlock(body) =>
      var b := RewriteSeq(env, body, false, 0, inner);
      Rewritten(ArrowBlock(b.result), b.records)
    case ArrowExpression(result) =>
      var r := RewriteNode(env, Frame(result, None, 0), inner);
      Rewritten(ArrowExpression(r.result), r.records)
    case VariableDeclarator(target, init) =>
      var r := RewriteOption(env, init, inner);
      Rewritten(VariableDeclarator(target, r.result), r.records)
    case ReturnStatement(argument) =>
      var r := RewriteOption(env, argument, inner);
      Rewritten(ReturnStatement(r.result), r.records)
    case ExportDefaultDeclaration(declaration) =>
      var r := RewriteNode(env, Frame(declaration, None, 0), inner);
      Rewritten(ExportDefaultDeclaration(r.result), r.records)
    case ImportDeclaration(_, _) => Rewritten(f.node, [])
    case OtherNode(children) =>
      var c := RewriteSeq(env, children, false, 0, inner);
      Rewritten(OtherNode(c.result), c.records)
  }

  function RewriteOption(env: Env, o: Option<Node>, ancestors: seq<Frame>): Rewritten<Option<Node>>
    decreases o, 0
  {
    match o
    case None => Rewritten(None, [])
    case Some(n) =>
      var r := RewriteNode(env, Frame(n, None, 0), ancestors);
      Rewritten(Some(r.result), r.records)
  }

  /** The rewrite of `ns[i..]`, one result per node. */
  function RewriteSeq(env: Env, ns: seq<Node>, inElement: bool, i: nat, ancestors: seq<Frame>): (r: Rewritten<seq<Node>>)
    requires i <= |ns|
    ensures |r.result| == |ns| - i
    decreases ns, |ns| - i
  {
    if i == |ns| then Rewritten([], [])
    else
      var h := RewriteNode(env, Frame(ns[i], if inElement then Some(ns) else None, i), ancestors);
      var t := RewriteSeq(env, ns, inElement, i + 1, ancestors);
      Rewritten([h.result] + t.result, h.records + t.records)
  }

  function RewriteProgram(env: Env, ast: Program): Rewritten<Program> {
    var r := RewriteSeq(env, ast.body, false, 0, []);
    Rewritten(Program(r.result), r.records)
  }

  // ----- What the rewrite appends

  /** The records a visit adds: one for a meaningful text, none otherwise. */
  function VisitRecords(env: Env, v: Visit): seq<ExtractedString> {
    match v.frame.node
    case JSXText(value) => if IsMeaningfulText(value) then [TextRecord(env, value, v.ancestors)] else []
    case _ => []
  }

  /** The records of a sequence of visits, in visiting order. */
  function Extracted(env: Env, vs: seq<Visit>): seq<ExtractedString>
    decreases |vs|
  {
    if vs == [] then [] else VisitRecords(env, vs[0]) + Extracted(env, vs[1..])
  }

  /** Every extracted record is a sink record: its key is derived from its text and context. */
  lemma {:induction false} ExtractedAreSinkRecords(env: Env, vs: seq<Visit>)
    ensures forall k :: 0 <= k < |Extracted(env, vs)| ==> IsSinkRecord(env.digest, Extracted(env, vs)[k])
    decreases |vs|
  {
    if vs != [] {
      ExtractedAreSinkRecords(env, vs[1..]);
    }
  }

  lemma {:induction false} ExtractedAppend(env: Env, a: seq<Visit>, b: seq<Visit>)
    ensures Extracted(env, a + b) == Extracted(env, a) + Extracted(env, b)
    decreases |a|
  {
    if a == [] {
      assert a + b == b;
    } else {
      ExtractedAppend(env, a[1..], b);
      ExtractedAppendStep(env, a, b);
    }
  }

  /** One step of `ExtractedAppend`: splitting off the first visit of `a`. */
  lemma ExtractedAppendStep(env: Env, a: seq<Visit>, b: seq<Visit>)
    requires a != []
    requires Extracted(env, a[1..] + b) == Extracted(env, a[1..]) + Extracted(env, b)
    ensures Extracted(env, a + b) == Extracted(env, a) + Extracted(env, b)
  {
    ConsSplit(a, b);
    ExtractedCons(env, a[0], a[1..]);
    ExtractedCons(env, a[0], a[1..] + b);
  }


  /** A visit sequence that starts with a given visit. */
  lemma ExtractedCons(env: Env, v: Visit, rest: seq<Visit>)
    ensures Extracted(env, [v] + rest) == VisitRecords(env, v) + Extracted(env, rest)
  {
    assert ([v] + rest)[0] == v;
    assert ([v] + rest)[1..] == rest;
  }

  /**
   * The rewrite appends exactly one record per meaningful text, in visiting order, each with the
   * trimmed text and the path of the text's parent.
   */
  lemma {:induction false} RewriteRecordsFollowVisits(env: Env, f: Frame, ancestors: seq<Frame>)
    ensures RewriteNode(env, f, ancestors).records == Extracted(env, VisitNode(f, ancestors))
    decreases f.node, 2
  {
    match f.node
    case JSXElement(_, _, _) => ElementRecordsFollowVisits(env, f, ancestors);
    case CallExpression(_, _) => CallRecordsFollowVisits(env, f, ancestors);
    case JSXFragment(_) => FragmentRecordsFollowVisits(env, f, ancestors);
    case FunctionDeclaration(_, _) => FunctionDeclarationRecordsFollowVisits(env, f, ancestors);
    case FunctionExpression(_, _) => FunctionExpressionRecordsFollowVisits(env, f, ancestors);
    case ArrowBlock(_) => ArrowBlockRecordsFollowVisits(env, f, ancestors);
    case OtherNode(_) => OtherRecordsFollowVisits(env, f, ancestors);
    case JSXExpressionContainer(_) => ContainerRecordsFollowVisits(env, f, ancestors);
    case ArrowExpression(_) => ArrowExpressionRecordsFollowVisits(env, f, ancestors);
    case ExportDefaultDeclaration(_) => ExportDefaultRecordsFollowVisits(env, f, ancestors);
    case JSXAttribute(_, _) => AttributeRecordsFollowVisits(env, f, ancestors);
    case VariableDeclarator(_, _) => DeclaratorRecordsFollowVisits(env, f, ancestors);
    case ReturnStatement(_) => ReturnRecordsFollowVisits(env, f, ancestors);
    case JSXText(_) => TextRecordsFollowVisits(env, f, ancestors);
    case Identifier(_) => LeafRecordsFollowVisits(env, f, ancestors);
    case StringLiteral(_) => LeafRecordsFollowVisits(env, f, ancestors);
    case ImportDeclaration(_, _) => LeafRecordsFollowVisits(env, f, ancestors);
  }

  /** A text: visited alone, and rewritten into a call with its record exactly when it is meaningful. */
  lemma TextRecordsFollowVisits(env: Env, f: Frame, ancestors: seq<Frame>)
    requires f.node.JSXText?
    ensures RewriteNode(env, f, ancestors).records == Extracted(env, VisitNode(f, ancestors))
  {
    assert VisitNode(f, ancestors) == [Visit(f, ancestors)];
    assert RewriteNode(env, f, ancestors).records == VisitRecords(env, Visit(f, ancestors));
    ExtractedCons(env, Visit(f, ancestors), []);
  }

  /** An identifier, a string literal or an import: visited alone, rewritten unchanged, no record. */
  lemma LeafRecordsFollowVisits(env: Env, f: Frame, ancestors: seq<Frame>)
    requires f.node.Identifier? || f.node.StringLiteral? || f.node.ImportDeclaration?
    ensures RewriteNode(env, f, ancestors).records == Extracted(env, VisitNode(f, ancestors))
  {
    assert VisitNode(f, ancestors) == [Visit(f, ancestors)];
    assert RewriteNode(env, f, ancestors).records == [];
    ExtractedCons(env, Visit(f, ancestors), []);
  }

  lemma {:induction false} ElementRecordsFollowVisits(env: Env, f: Frame, ancestors: seq<Frame>)
    requires f.node.JSXElement?
    ensures RewriteNode(env, f, ancestors).records == Extracted(env, VisitNode(f, ancestors))
    decreases f.node, 1
  {
    var inner := ancestors + [f];
    var a := VisitSeq(f.node.attributes, false, 0, inner);
    var c := VisitSeq(f.node.children, true, 0, inner);
    assert RewriteNode(env, f, ancestors).records ==
      RewriteSeq(env, f.node.attributes, false, 0, inner).records + RewriteSeq(env, f.node.children, true, 0, inner).records;
    assert VisitNode(f, ancestors) == [Visit(f, ancestors)] + (a + c);
    RewriteSeqRecordsFollowVisits(env, f.node.attributes, false, 0, inner);
    RewriteSeqRecordsFollowVisits(env, f.node.children, true, 0, inner);
    ExtractedCons(env, Visit(f, ancestors), a + c);
    ExtractedAppend(env, a, c);
  }

  lemma {:induction false} CallRecordsFollowVisits(env: Env, f: Frame, ancestors: seq<Frame>)
    requires f.node.CallExpression?
    ensures RewriteNode(env, f, ancestors).records == Extracted(env, VisitNode(f, ancestors))
    decreases f.node, 1
  {
    var inner := ancestors + [f];
    var c := VisitNode(Frame(f.node.callee, None, 0), inner);
    var a := VisitSeq(f.node.arguments, false, 0, inner);
    assert RewriteNode(env, f, ancestors).records ==
      RewriteNode(env, Frame(f.node.callee, None, 0), inner).records + RewriteSeq(env, f.node.arguments, false, 0, inner).records;
    assert VisitNode(f, ancestors) == [Visit(f, ancestors)] + (c + a);
    RewriteRecordsFollowVisits(env, Frame(f.node.callee, None, 0), inner);
    RewriteSeqRecordsFollowVisits(env, f.node.arguments, false, 0, inner);
    ExtractedCons(env, Visit(f, ancestors), c + a);
    ExtractedAppend(env, c, a);
  }

  lemma {:induction false} FragmentRecordsFollowVisits(env: Env, f: Frame, ancestors: seq<Frame>)
    requires f.node.JSXFragment?
    ensures RewriteNode(env, f, ancestors).records == Extracted(env, VisitNode(f, ancestors))
    decreases f.node, 1
  {
    var inner := ancestors + [f];
    assert RewriteNode(env, f, ancestors).records == RewriteSeq(env, f.node.children, false, 0, inner).records;
    assert VisitNode(f, ancestors) == [Visit(f, ancestors)] + VisitSeq(f.node.children, false, 0, inner);
    RewriteSeqRecordsFollowVisits(env, f.node.children, false, 0, inner);
    ExtractedCons(env, Visit(f, ancestors), VisitSeq(f.node.children, false, 0, inner));
  }

  lemma {:induction false} FunctionDeclarationRecordsFollowVisits(env: Env, f: Frame, ancestors: seq<Frame>)
    requires f.node.FunctionDeclaration?
    ensures RewriteNode(env, f, ancestors).records == Extracted(env, VisitNode(f, ancestors))
    decreases f.node, 1
  {
    var inner := ancestors + [f];
    assert RewriteNode(env, f, ancestors).records == RewriteSeq(env, f.node.body, false, 0, inner).records;
    assert VisitNode(f, ancestors) == [Visit(f, ancestors)] + VisitSeq(f.node.body, false, 0, inner);
    RewriteSeqRecordsFollowVisits(env, f.node.body, false, 0, inner);
    ExtractedCons(env, Visit(f, ancestors), VisitSeq(f.node.body, false, 0, inner));
  }

  lemma {:induction false} FunctionExpressionRecordsFollowVisits(env: Env, f: Frame, ancestors: seq<Frame>)
    requires f.node.FunctionExpression?
    ensures RewriteNode(env, f, ancestors).records == Extracted(env, VisitNode(f, ancestors))
    decreases f.node, 1
  {
    var inner := ancestors + [f];
    assert RewriteNode(env, f, ancestors).records == RewriteSeq(env, f.node.body, false, 0, inner).records;
    assert VisitNode(f, ancestors) == [Visit(f, ancestors)] + VisitSeq(f.node.body, false, 0, inner);
    RewriteSeqRecordsFollowVisits(env, f.node.body, false, 0, inner);
    ExtractedCons(env, Visit(f, ancestors), VisitSeq(f.node.body, false, 0, inner));
  }

  lemma {:induction false} ArrowBlockRecordsFollowVisits(env: Env, f: Frame, ancestors: seq<Frame>)
    requires f.node.ArrowBlock?
    ensures RewriteNode(env, f, ancestors).records == Extracted(env, VisitNode(f, ancestors))
    decreases f.node, 1
  {
    var inner := ancestors + [f];
    assert RewriteNode(env, f, ancestors).records == RewriteSeq(env, f.node.body, false, 0, inner).records;
    assert VisitNode(f, ancestors) == [Visit(f, ancestors)] + VisitSeq(f.node.body, false, 0, inner);
    RewriteSeqRecordsFollowVisits(env, f.node.body, false, 0, inner);
    ExtractedCons(env, Visit(f, ancestors), VisitSeq(f.node.body, false, 0, inner));
  }

  lemma {:induction false} OtherRecordsFollowVisits(env: Env, f: Frame, ancestors: seq<Frame>)
    requires f.node.OtherNode?
    ensures RewriteNode(env, f, ancestors).records == Extracted(env, VisitNode(f, ancestors))
    decreases f.node, 1
  {
    var inner := ancestors + [f];
    assert RewriteNode(env, f, ancestors).records == RewriteSeq(env, f.node.children, false, 0, inner).records;
    assert VisitNode(f, ancestors) == [Visit(f, ancestors)] + VisitSeq(f.node.children, false, 0, inner);
    RewriteSeqRecordsFollowVisits(env, f.node.children, false, 0, inner);
    ExtractedCons(env, Visit(f, ancestors), VisitSeq(f.node.children, false, 0, inner));
  }

  lemma {:induction false} ContainerRecordsFollowVisits(env: Env, f: Frame, ancestors: seq<Frame>)
    requires f.node.JSXExpressionContainer?
    ensures RewriteNode(env, f, ancestors).records == Extracted(env, VisitNode(f, ancestors))
    decreases f.node, 1
  {
    var inner := ancestors + [f];
    assert RewriteNode(env, f, ancestors).records == RewriteNode(env, Frame(f.node.expression, None, 0), inner).records;
    assert VisitNode(f, ancestors) == [Visit(f, ancestors)] + VisitNode(Frame(f.node.expression, None, 0), inner);
    RewriteRecordsFollowVisits(env, Frame(f.node.expression, None, 0), inner);
    ExtractedCons(env, Visit(f, ancestors), VisitNode(Frame(f.node.expression, None, 0), inner));
  }

  lemma {:induction false} ArrowExpressionRecordsFollowVisits(env: Env, f: Frame, ancestors: seq<Frame>)
    requires f.node.ArrowExpression?
    ensures RewriteNode(env, f, ancestors).records == Extracted(env, VisitNode(f, ancestors))
    decreases f.node, 1
  {
    var inner := ancestors + [f];
    assert RewriteNode(env, f, ancestors).records == RewriteNode(env, Frame(f.node.result, None, 0), inner).records;
    assert VisitNode(f, ancestors) == [Visit(f, ancestors)] + VisitNode(Frame(f.node.result, None, 0), inner);
    RewriteRecordsFollowVisits(env, Frame(f.node.result, None, 0), inner);
    ExtractedCons(env, Visit(f, ancestors), VisitNode(Frame(f.node.result, None, 0), inner));
  }

  lemma {:induction false} ExportDefaultRecordsFollowVisits(env: Env, f: Frame, ancestors: seq<Frame>)
    requires f.node.ExportDefaultDeclaration?
    ensures RewriteNode(env, f, ancestors).records == Extracted(env, VisitNode(f, ancestors))
    decreases f.node, 1
  {
    var inner := ancestors + [f];
    assert RewriteNode(env, f, ancestors).records == RewriteNode(env, Frame(f.node.declaration, None, 0), inner).records;
    assert VisitNode(f, ancestors) == [Visit(f, ancestors)] + VisitNode(Frame(f.node.declaration, None, 0), inner);
    RewriteRecordsFollowVisits(env, Frame(f.node.declaration, None, 0), inner);
    ExtractedCons(env, Visit(f, ancestors), VisitNode(Frame(f.node.declaration, None, 0), inner));
  }

  lemma {:induction false} AttributeRecordsFollowVisits(env: Env, f: Frame, ancestors: seq<Frame>)
    requires f.node.JSXAttribute?
    ensures RewriteNode(env, f, ancestors).records == Extracted(env, VisitNode(f, ancestors))
    decreases f.node, 1
  {
    var inner := ancestors + [f];
    assert RewriteNode(env, f, ancestors).records == RewriteOption(env, f.node.initializer, inner).records;
    assert VisitNode(f, ancestors) == [Visit(f, ancestors)] + VisitOption(f.node.initializer, inner);
    RewriteOptionRecordsFollowVisits(env, f.node.initializer, inner);
    ExtractedCons(env, Visit(f, ancestors), VisitOption(f.node.initializer, inner));
  }

  lemma {:induction false} DeclaratorRecordsFollowVisits(env: Env, f: Frame, ancestors: seq<Frame>)
    requires f.node.VariableDeclarator?
    ensures RewriteNode(env, f, ancestors).records == Extracted(env, VisitNode(f, ancestors))
    decreases f.node, 1
  {
    var inner := ancestors + [f];
    assert RewriteNode(env, f, ancestors).records == RewriteOption(env, f.node.init, inner).records;
    assert VisitNode(f, ancestors) == [Visit(f, ancestors)] + VisitOption(f.node.init, inner);
    RewriteOptionRecordsFollowVisits(env, f.node.init, inner);
    ExtractedCons(env, Visit(f, ancestors), VisitOption(f.node.init, inner));
  }

  lemma {:induction false} ReturnRecordsFollowVisits(env: Env, f: Frame, ancestors: seq<Frame>)
    requires f.node.ReturnStatement?
    ensures RewriteNode(env, f, ancestors).records == Extracted(env, VisitNode(f, ancestors))
    decreases f.node, 1
  {
    var inner := ancestors + [f];
    assert RewriteNode(env, f, ancestors).records == RewriteOption(env, f.node.argument, inner).records;
    assert VisitNode(f, ancestors) == [Visit(f, ancestors)] + VisitOption(f.node.argument, inner);
    RewriteOptionRecordsFollowVisits(env, f.node.argument, inner);
    ExtractedCons(env, Visit(f, ancestors), VisitOption(f.node.argument, inner));
  }

  lemma {:induction false} RewriteOptionRecordsFollowVisits(env: Env, o: Option<Node>, ancestors: seq<Frame>)
    ensures RewriteOption(env, o, ancestors).records == Extracted(env, VisitOption(o, ancestors))
    decreases o, 0
  {
    if o.Some? {
      RewriteRecordsFollowVisits(env, Frame(o.value, None, 0), ancestors);
    }
  }

  lemma {:induction false} RewriteSeqRecordsFollowVisits(env: Env, ns: seq<Node>, inElement: bool, i: nat, ancestors: seq<Frame>)
    requires i <= |ns|
    ensures RewriteSeq(env, ns, inElement, i, ancestors).records == Extracted(env, VisitSeq(ns, inElement, i, ancestors))
    decreases ns, |ns| - i
  {
    if i < |ns| {
      var f := Frame(ns[i], if inElement then Some(ns) else None, i);
      RewriteRecordsFollowVisits(env, f, ancestors);
      RewriteSeqRecordsFollowVisits(env, ns, inElement, i + 1, ancestors);
      ExtractedAppend(env, VisitNode(f, ancestors), VisitSeq(ns, inElement, i + 1, ancestors));
    }
  }

  /** For a whole module: the records are those of the meaningful texts in visiting order. */
  lemma ProgramRecordsFollowVisits(env: Env, ast: Program)
    ensures RewriteProgram(env, ast).records == Extracted(env, ProgramVisits(ast))
  {
    RewriteSeqRecordsFollowVisits(env, ast.body, false, 0, []);
  }

  // ----- The rewritten tree

  /** A call `{t("<hash>", ...)}`: a container around a call whose first argument is a string literal. */
  predicate IsTCallShape(n: Node) {
    && n.JSXExpressionContainer? && n.expression.CallExpression?
    && |n.expression.arguments| >= 1 && n.expression.arguments[0].StringLiteral?
  }

  /** The hash such a call passes. */
  function TCallHash(n: Node): string
    requires IsTCallShape(n)
  {
    n.expression.arguments[0].value
  }

  /** `n` is exactly the call the loader puts in place of a text. */
  predicate IsTCall(n: Node, withLocale: bool) {
    IsTCallShape(n) && n == TCall(TCallHash(n), withLocale)
  }

  /**
   * `after` is `before` with every meaningful JSX text replaced by a call of `t` (passing `locale`
   * when `withLocale`), and nothing else changed: same node kinds and fields, same children in the
   * same order, the texts that are not meaningful kept as they are.
   */
  predicate Replaced(before: Node, after: Node, withLocale: bool)
    decreases before, 1
  {
    match before
    case JSXText(value) => if IsMeaningfulText(value) then IsTCall(after, withLocale) else after == before
    case JSXElement(tag, attributes, children) =>
      && after.JSXElement? && after.tag == tag
      && AllReplaced(attributes, after.attributes, withLocale) && AllReplaced(children, after.children, withLocale)
    case JSXFragment(children) => after.JSXFragment? && AllReplaced(children, after.children, withLocale)
    case JSXExpressionContainer(e) => after.JSXExpressionContainer? && Replaced(e, after.expression, withLocale)
    case JSXAttribute(name, initializer) =>
      after.JSXAttribute? && after.name == name && OptionReplaced(initializer, after.initializer, withLocale)
    case Identifier(_) => after == before
    case StringLiteral(_) => after == before
    case CallExpression(callee, arguments) =>
      after.CallExpression? && Replaced(callee, after.callee, withLocale) && AllReplaced(arguments, after.arguments, withLocale)
    case FunctionDeclaration(id, body) =>
      after.FunctionDeclaration? && after.id == id && AllReplaced(body, after.body, withLocale)
    case FunctionExpression(id, body) =>
      after.FunctionExpression? && after.id == id && AllReplaced(body, after.body, withLocale)
    case ArrowBlock(body) => after.ArrowBlock? && AllReplaced(body, after.body, withLocale)
    case ArrowExpression(result) => after.ArrowExpression? && Replaced(result, after.result, withLocale)
    case VariableDeclarator(target, init) =>
      after.VariableDeclarator? && after.target == target && OptionReplaced(init, after.init, withLocale)
    case ReturnStatement(argument) => after.ReturnStatement? && OptionReplaced(argument, after.argument, withLocale)
    case ExportDefaultDeclaration(declaration) =>
      after.ExportDefaultDeclaration? && Replaced(declaration, after.declaration, withLocale)
    case ImportDeclaration(_, _) => after == before
    case OtherNode(children) => after.OtherNode? && AllReplaced(children, after.children, withLocale)
  }

  predicate OptionReplaced(before: Option<Node>, after: Option<Node>, withLocale: bool)
    decreases before, 0
  {
    match before
    case None => after.None?
    case Some(n) => after.Some? && Replaced(n, after.value, withLocale)
  }

  predicate AllReplaced(before: seq<Node>, after: seq<Node>, withLocale: bool)
    decreases before, 0
  {
    |after| == |before| && forall j :: 0 <= j < |before| ==> Replaced(before[j], after[j], withLocale)
  }

  /** The hashes the calls in `after` pass at the places of the meaningful texts of `before`, in traversal order. */
  function PlacedHashes(before: Node, after: Node): seq<string>
    decreases before, 1
  {
    match before
    case JSXText(value) => if IsMeaningfulText(value) && IsTCallShape(after) then [TCallHash(after)] else []
    case JSXElement(_, attributes, children) =>
      if after.JSXElement? then PlacedSeq(attributes, after.attributes, 0) + PlacedSeq(children, after.children, 0) else []
    case JSXFragment(children) => if after.JSXFragment? then PlacedSeq(children, after.children, 0) else []
    case JSXExpressionContainer(e) => if after.JSXExpressionContainer? then PlacedHashes(e, after.expression) else []
    case JSXAttribute(_, initializer) => if after.JSXAttribute? then PlacedOption(initializer, after.initializer) else []
    case Identifier(_) => []
    case StringLiteral(_) => []
    case CallExpression(callee, arguments) =>
      if after.CallExpression? then PlacedHashes(callee, after.callee) + PlacedSeq(arguments, after.arguments, 0) else []
    case FunctionDeclaration(_, body) => if after.FunctionDeclaration? then PlacedSeq(body, after.body, 0) else []
    case FunctionExpression(_, body) => if after.FunctionExpression? then PlacedSeq(body, after.body, 0) else []
    case ArrowBlock(body) => if after.ArrowBlock? then PlacedSeq(body, after.body, 0) else []
    case ArrowExpression(result) => if after.ArrowExpression? then PlacedHashes(result, after.result) else []
    case VariableDeclarator(_, init) => if after.VariableDeclarator? then PlacedOption(init, after.init) else []
    case ReturnStatement(argument) => if after.ReturnStatement? then PlacedOption(argument, after.argument) else []
    case ExportDefaultDeclaration(declaration) =>
      if after.ExportDefaultDeclaration? then PlacedHashes(declaration, after.declaration) else []
    case ImportDeclaration(_, _) => []
    case OtherNode(children) => if after.OtherNode? then PlacedSeq(children, after.children, 0) else []
  }

  function PlacedOption(before: Option<Node>, after: Option<Node>): seq<string>
    decreases before, 0
  {
    if before.Some? && after.Some? then PlacedHashes(before.value, after.value) else []
  }

  /** `PlacedHashes` of `before[i..]` against the nodes of `after` at the same positions. */
  function PlacedSeq(before: seq<Node>, after: seq<Node>, i: nat): seq<string>
    decreases before, |before| - i
  {
    if i >= |before| || i >= |after| then [] else PlacedHashes(before[i], after[i]) + PlacedSeq(before, after, i + 1)
  }

  /** The keys of records, in order. */
  function HashesOf(records: seq<ExtractedString>): (hs: seq<string>)
    ensures |hs| == |records| && forall k :: 0 <= k < |records| ==> hs[k] == records[k].hash
  {
    seq(|records|, k requires 0 <= k < |records| => records[k].hash)
  }

  lemma HashesOfAppend(a: seq<ExtractedString>, b: seq<ExtractedString>)
    ensures HashesOf(a + b) == HashesOf(a) + HashesOf(b)
  {
    assert forall k :: 0 <= k < |a + b| ==> HashesOf(a + b)[k] == (HashesOf(a) + HashesOf(b))[k];
  }

  /** What a rewrite of `before` has to satisfy: the texts are replaced in place, and the calls pass the records' keys in order. */
  predicate RewrittenWell(before: Node, r: Rewritten<Node>, withLocale: bool) {
    Replaced(before, r.result, withLocale) && PlacedHashes(before, r.result) == HashesOf(r.records)
  }

  /** The nodes of a rewritten sequence are the rewrites of the nodes at the same positions. */
  lemma {:induction false} RewriteSeqAt(env: Env, ns: seq<Node>, inElement: bool, i: nat, ancestors: seq<Frame>)
    requires i <= |ns|
    ensures forall k :: i <= k < |ns| ==>
      RewriteSeq(env, ns, inElement, i, ancestors).result[k - i] ==
      RewriteNode(env, Frame(ns[k], if inElement then Some(ns) else None, k), ancestors).result
    decreases |ns| - i
  {
    if i < |ns| {
      RewriteSeqAt(env, ns, inElement, i + 1, ancestors);
    }
  }

  /**
   * The rewrite replaces each meaningful text in place by `t(<hash>)`, or `t(<hash>, locale)` when
   * `locale` is in scope, leaves every other node as it was, and the hashes it puts into the tree
   * are, in traversal order, the keys of the records it appends.
   */
  lemma {:induction false} RewriteReplacesTexts(env: Env, f: Frame, ancestors: seq<Frame>)
    ensures RewrittenWell(f.node, RewriteNode(env, f, ancestors), env.hasLocale)
    decreases f.node, 2
  {
    match f.node
    case JSXText(_) => TextReplaced(env, f, ancestors);
    case JSXElement(_, _, _) => ElementReplaced(env, f, ancestors);
    case CallExpression(_, _) => CallReplaced(env, f, ancestors);
    case JSXFragment(_) => ChildrenReplaced(env, f, ancestors);
    case FunctionDeclaration(_, _) => ChildrenReplaced(env, f, ancestors);
    case FunctionExpression(_, _) => ChildrenReplaced(env, f, ancestors);
    case ArrowBlock(_) => ChildrenReplaced(env, f, ancestors);
    case OtherNode(_) => ChildrenReplaced(env, f, ancestors);
    case JSXExpressionContainer(_) => ChildReplaced(env, f, ancestors);
    case ArrowExpression(_) => ChildReplaced(env, f, ancestors);
    case ExportDefaultDeclaration(_) => ChildReplaced(env, f, ancestors);
    case JSXAttribute(_, _) => OptionChildReplaced(env, f, ancestors);
    case VariableDeclarator(_, _) => OptionChildReplaced(env, f, ancestors);
    case ReturnStatement(_) => OptionChildReplaced(env, f, ancestors);
    case Identifier(_) =>
    case StringLiteral(_) =>
    case ImportDeclaration(_, _) =>
  }

  /** The call inserted for a meaningful text is recognised as one, and it passes the record's key. */
  lemma TCallPlaced(value: string, record: ExtractedString, withLocale: bool)
    requires IsMeaningfulText(value)
    ensures RewrittenWell(JSXText(value), Rewritten(TCall(record.hash, withLocale), [record]), withLocale)
  {
    var c := TCall(record.hash, withLocale);
    assert IsTCallShape(c) && TCallHash(c) == record.hash;
    assert HashesOf([record]) == [record.hash];
  }

  lemma TextReplaced(env: Env, f: Frame, ancestors: seq<Frame>)
    requires f.node.JSXText?
    ensures RewrittenWell(f.node, RewriteNode(env, f, ancestors), env.hasLocale)
  {
    if IsMeaningfulText(f.node.value) {
      TCallPlaced(f.node.value, TextRecord(env, f.node.value, ancestors), env.hasLocale);
    }
  }

  lemma {:induction false} ElementReplaced(env: Env, f: Frame, ancestors: seq<Frame>)
    requires f.node.JSXElement?
    ensures RewrittenWell(f.node, RewriteNode(env, f, ancestors), env.hasLocale)
    decreases f.node, 1
  {
    var inner := ancestors + [f];
    var a := RewriteSeq(env, f.node.attributes, false, 0, inner);
    var c := RewriteSeq(env, f.node.children, true, 0, inner);
    SeqReplaced(env, f.node.attributes, false, inner);
    SeqReplaced(env, f.node.children, true, inner);
    HashesOfAppend(a.records, c.records);
  }

  lemma {:induction false} CallReplaced(env: Env, f: Frame, ancestors: seq<Frame>)
    requires f.node.CallExpression?
    ensures RewrittenWell(f.node, RewriteNode(env, f, ancestors), env.hasLocale)
    decreases f.node, 1
  {
    var inner := ancestors + [f];
    var c := RewriteNode(env, Frame(f.node.callee, None, 0), inner);
    var a := RewriteSeq(env, f.node.arguments, false, 0, inner);
    RewriteReplacesTexts(env, Frame(f.node.callee, None, 0), inner);
    SeqReplaced(env, f.node.arguments, false, inner);
    HashesOfAppend(c.records, a.records);
  }

  /** A fragment, a function, an arrow function with a block body or another node: one list of children. */
  lemma {:induction false} ChildrenReplaced(env: Env, f: Frame, ancestors: seq<Frame>)
    requires f.node.JSXFragment? || f.node.FunctionDeclaration? || f.node.FunctionExpression? || f.node.ArrowBlock? || f.node.OtherNode?
    ensures RewrittenWell(f.node, RewriteNode(env, f, ancestors), env.hasLocale)
    decreases f.node, 1
  {
    var inner := ancestors + [f];
    var children := if f.node.JSXFragment? || f.node.OtherNode? then f.node.children else f.node.body;
    SeqReplaced(env, children, false, inner);
  }

  /** A container, an arrow function with an expression body or a default export: one child. */
  lemma {:induction false} ChildReplaced(env: Env, f: Frame, ancestors: seq<Frame>)
    requires f.node.JSXExpressionContainer? || f.node.ArrowExpression? || f.node.ExportDefaultDeclaration?
    ensures RewrittenWell(f.node, RewriteNode(env, f, ancestors), env.hasLocale)
    decreases f.node, 1
  {
    var inner := ancestors + [f];
    var child :=
      if f.node.JSXExpressionContainer? then f.node.expression
      else if f.node.ArrowExpression? then f.node.result
      else f.node.declaration;
    RewriteReplacesTexts(env, Frame(child, None, 0), inner);
  }

  /** An attribute, a declarator or a return statement: one optional child. */
  lemma {:induction false} OptionChildReplaced(env: Env, f: Frame, ancestors: seq<Frame>)
    requires f.node.JSXAttribute? || f.node.VariableDeclarator? || f.node.ReturnStatement?
    ensures RewrittenWell(f.node, RewriteNode(env, f, ancestors), env.hasLocale)
    decreases f.node, 1
  {
    var inner := ancestors + [f];
    var child :=
      if f.node.JSXAttribute? then f.node.initializer
      else if f.node.VariableDeclarator? then f.node.init
      else f.node.argument;
    if child.Some? {
      RewriteReplacesTexts(env, Frame(child.value, None, 0), inner);
    }
  }

  lemma {:induction false} SeqReplaced(env: Env, ns: seq<Node>, inElement: bool, ancestors: seq<Frame>)
    ensures var r := RewriteSeq(env, ns, inElement, 0, ancestors);
      AllReplaced(ns, r.result, env.hasLocale) && PlacedSeq(ns, r.result, 0) == HashesOf(r.records)
    decreases ns, |ns| + 1
  {
    var r := RewriteSeq(env, ns, inElement, 0, ancestors);
    RewriteSeqAt(env, ns, inElement, 0, ancestors);
    SeqAllReplaced(env, ns, inElement, ancestors, r.result);
    SeqHashesFrom(env, ns, inElement, 0, ancestors, r.result);
  }

  lemma {:induction false} SeqAllReplaced(env: Env, ns: seq<Node>, inElement: bool, ancestors: seq<Frame>, after: seq<Node>)
    requires |after| == |ns|
    requires forall k :: 0 <= k < |ns| ==>
      after[k] == RewriteNode(env, Frame(ns[k], if inElement then Some(ns) else None, k), ancestors).result
    ensures AllReplaced(ns, after, env.hasLocale)
    decreases ns, 0
  {
    forall k | 0 <= k < |ns| ensures Replaced(ns[k], after[k], env.hasLocale) {
      RewriteReplacesTexts(env, Frame(ns[k], if inElement then Some(ns) else None, k), ancestors);
    }
  }

  lemma {:induction false} SeqHashesFrom(env: Env, ns: seq<Node>, inElement: bool, i: nat, ancestors: seq<Frame>, after: seq<Node>)
    requires i <= |ns| && |after| == |ns|
    requires forall k :: 0 <= k < |ns| ==>
      after[k] == RewriteNode(env, Frame(ns[k], if inElement then Some(ns) else None, k), ancestors).result
    ensures PlacedSeq(ns, after, i) == HashesOf(RewriteSeq(env, ns, inElement, i, ancestors).records)
    decreases ns, |ns| - i
  {
    if i < |ns| {
      var h := RewriteNode(env, Frame(ns[i], if inElement then Some(ns) else None, i), ancestors);
      var t := RewriteSeq(env, ns, inElement, i + 1, ancestors);
      RewriteReplacesTexts(env, Frame(ns[i], if inElement then Some(ns) else None, i), ancestors);
      SeqHashesFrom(env, ns, inElement, i + 1, ancestors, after);
      HashesOfAppend(h.records, t.records);
    }
  }

  /**
   * For a whole module: every meaningful text is replaced in place and nothing else changes, and
   * the hashes of the inserted calls, in traversal order, are the keys of the records of the
   * module's visits.
   */
  lemma ProgramTextsReplaced(env: Env, ast: Program)
    ensures var r := RewriteProgram(env, ast);
      && AllReplaced(ast.body, r.result.body, env.hasLocale)
      && PlacedSeq(ast.body, r.result.body, 0) == HashesOf(Extracted(env, ProgramVisits(ast)))
  {
    SeqReplaced(env, ast.body, false, []);
    ProgramRecordsFollowVisits(env, ast);
  }

  // ----- After the rewrite

  /** No meaningful JSX text anywhere in the tree. */
  predicate TextFree(n: Node)
    decreases n, 1
  {
    match n
    case JSXText(value) => !IsMeaningfulText(value)
    case JSXElement(_, attributes, children) => AllTextFree(attributes) && AllTextFree(children)
    case JSXFragment(children) => AllTextFree(children)
    case JSXExpressionContainer(e) => TextFree(e)
    case JSXAttribute(_, initializer) => initializer.None? || TextFree(initializer.value)
    case Identifier(_) => true
    case StringLiteral(_) => true
    case CallExpression(callee, arguments) => TextFree(callee) && AllTextFree(arguments)
    case FunctionDeclaration(_, body) => AllTextFree(body)
    case FunctionExpression(_, body) => AllTextFree(body)
    case ArrowBlock(body) => AllTextFree(body)
    case ArrowExpression(result) => TextFree(result)
    case VariableDeclarator(_, init) => init.None? || TextFree(init.value)
    case ReturnStatement(argument) => argument.None? || TextFree(argument.value)
    case ExportDefaultDeclaration(declaration) => TextFree(declaration)
    case ImportDeclaration(_, _) => true
    case OtherNode(children) => AllTextFree(children)
  }

  predicate AllTextFree(ns: seq<Node>)
    decreases ns, 0
  {
    forall j :: 0 <= j < |ns| ==> TextFree(ns[j])
  }

  lemma TCallTextFree(hash: string, withLocale: bool)
    ensures TextFree(TCall(hash, withLocale))
  {
    var args := [StringLiteral(hash)] + (if withLocale then [Identifier("locale")] else []);
    assert forall j :: 0 <= j < |args| ==> TextFree(args[j]);
  }

  /** No meaningful text is left after the rewrite. */
  lemma {:induction false} RewriteLeavesNoText(env: Env, f: Frame, ancestors: seq<Frame>)
    ensures TextFree(RewriteNode(env, f, ancestors).result)
    decreases f.node, 2
  {
    match f.node
    case JSXText(value) =>
      if IsMeaningfulText(value) {
        TCallTextFree(TextRecord(env, value, ancestors).hash, env.hasLocale);
      }
    case JSXElement(_, _, _) => ElementLeavesNoText(env, f, ancestors);
    case CallExpression(_, _) => CallLeavesNoText(env, f, ancestors);
    case JSXFragment(_) => FragmentLeavesNoText(env, f, ancestors);
    case FunctionDeclaration(_, _) => FunctionDeclarationLeavesNoText(env, f, ancestors);
    case FunctionExpression(_, _) => FunctionExpressionLeavesNoText(env, f, ancestors);
    case ArrowBlock(_) => ArrowBlockLeavesNoText(env, f, ancestors);
    case OtherNode(_) => OtherLeavesNoText(env, f, ancestors);
    case JSXExpressionContainer(_) => ContainerLeavesNoText(env, f, ancestors);
    case ArrowExpression(_) => ArrowExpressionLeavesNoText(env, f, ancestors);
    case ExportDefaultDeclaration(_) => ExportDefaultLeavesNoText(env, f, ancestors);
    case JSXAttribute(_, _) => AttributeLeavesNoText(env, f, ancestors);
    case VariableDeclarator(_, _) => DeclaratorLeavesNoText(env, f, ancestors);
    case ReturnStatement(_) => ReturnLeavesNoText(env, f, ancestors);
    case Identifier(_) =>
    case StringLiteral(_) =>
    case ImportDeclaration(_, _) =>
  }

  lemma {:induction false} ElementLeavesNoText(env: Env, f: Frame, ancestors: seq<Frame>)
    requires f.node.JSXElement?
    ensures TextFree(RewriteNode(env, f, ancestors).result)
    decreases f.node, 1
  {
    var inner := ancestors + [f];
    var a := RewriteSeq(env, f.node.attributes, false, 0, inner).result;
    var c := RewriteSeq(env, f.node.children, true, 0, inner).result;
    assert RewriteNode(env, f, ancestors).result == JSXElement(f.node.tag, a, c);
    RewriteSeqLeavesNoText(env, f.node.attributes, false, 0, inner);
    RewriteSeqLeavesNoText(env, f.node.children, true, 0, inner);
  }

  lemma {:induction false} CallLeavesNoText(env: Env, f: Frame, ancestors: seq<Frame>)
    requires f.node.CallExpression?
    ensures TextFree(RewriteNode(env, f, ancestors).result)
    decreases f.node, 1
  {
    var inner := ancestors + [f];
    var c := RewriteNode(env, Frame(f.node.callee, None, 0), inner).result;
    var a := RewriteSeq(env, f.node.arguments, false, 0, inner).result;
    assert RewriteNode(env, f, ancestors).result == CallExpression(c, a);
    RewriteLeavesNoText(env, Frame(f.node.callee, None, 0), inner);
    RewriteSeqLeavesNoText(env, f.node.arguments, false, 0, inner);
  }

  lemma {:induction false} FragmentLeavesNoText(env: Env, f: Frame, ancestors: seq<Frame>)
    requires f.node.JSXFragment?
    ensures TextFree(RewriteNode(env, f, ancestors).result)
    decreases f.node, 1
  {
    var inner := ancestors + [f];
    var R := RewriteSeq(env, f.node.children, false, 0, inner).result;
    assert RewriteNode(env, f, ancestors).result == JSXFragment(R);
    RewriteSeqLeavesNoText(env, f.node.children, false, 0, inner);
  }

  lemma {:induction false} FunctionDeclarationLeavesNoText(env: Env, f: Frame, ancestors: seq<Frame>)
    requires f.node.FunctionDeclaration?
    ensures TextFree(RewriteNode(env, f, ancestors).result)
    decreases f.node, 1
  {
    var inner := ancestors + [f];
    var R := RewriteSeq(env, f.node.body, false, 0, inner).result;
    assert RewriteNode(env, f, ancestors).result == FunctionDeclaration(f.node.id, R);
    RewriteSeqLeavesNoText(env, f.node.body, false, 0, inner);
  }

  lemma {:induction false} FunctionExpressionLeavesNoText(env: Env, f: Frame, ancestors: seq<Frame>)
    requires f.node.FunctionExpression?
    ensures TextFree(RewriteNode(env, f, ancestors).result)
    decreases f.node, 1
  {
    var inner := ancestors + [f];
    var R := RewriteSeq(env, f.node.body, false, 0, inner).result;
    assert RewriteNode(env, f, ancestors).result == FunctionExpression(f.node.id, R);
    RewriteSeqLeavesNoText(env, f.node.body, false, 0, inner);
  }

  lemma {:induction false} ArrowBlockLeavesNoText(env: Env, f: Frame, ancestors: seq<Frame>)
    requires f.node.ArrowBlock?
    ensures TextFree(RewriteNode(env, f, ancestors).result)
    decreases f.node, 1
  {
    var inner := ancestors + [f];
    var R := RewriteSeq(env, f.node.body, false, 0, inner).result;
    assert RewriteNode(env, f, ancestors).result == ArrowBlock(R);
    RewriteSeqLeavesNoText(env, f.node.body, false, 0, inner);
  }

  lemma {:induction false} OtherLeavesNoText(env: Env, f: Frame, ancestors: seq<Frame>)
    requires f.node.OtherNode?
    ensures TextFree(RewriteNode(env, f, ancestors).result)
    decreases f.node, 1
  {
    var inner := ancestors + [f];
    var R := RewriteSeq(env, f.node.children, false, 0, inner).result;
    assert RewriteNode(env, f, ancestors).result == OtherNode(R);
    RewriteSeqLeavesNoText(env, f.node.children, false, 0, inner);
  }

  lemma {:induction false} ContainerLeavesNoText(env: Env, f: Frame, ancestors: seq<Frame>)
    requires f.node.JSXExpressionContainer?
    ensures TextFree(RewriteNode(env, f, ancestors).result)
    decreases f.node, 1
  {
    var inner := ancestors + [f];
    var R := RewriteNode(env, Frame(f.node.expression, None, 0), inner).result;
    assert RewriteNode(env, f, ancestors).result == JSXExpressionContainer(R);
    RewriteLeavesNoText(env, Frame(f.node.expression, None, 0), inner);
  }

  lemma {:induction false} ArrowExpressionLeavesNoText(env: Env, f: Frame, ancestors: seq<Frame>)
    requires f.node.ArrowExpression?
    ensures TextFree(RewriteNode(env, f, ancestors).result)
    decreases f.node, 1
  {
    var inner := ancestors + [f];
    var R := RewriteNode(env, Frame(f.node.result, None, 0), inner).result;
    assert RewriteNode(env, f, ancestors).result == ArrowExpression(R);
    RewriteLeavesNoText(env, Frame(f.node.result, None, 0), inner);
  }

  lemma {:induction false} ExportDefaultLeavesNoText(env: Env, f: Frame, ancestors: seq<Frame>)
    requires f.node.ExportDefaultDeclaration?
    ensures TextFree(RewriteNode(env, f, ancestors).result)
    decreases f.node, 1
  {
    var inner := ancestors + [f];
    var R := RewriteNode(env, Frame(f.node.declaration, None, 0), inner).result;
    assert RewriteNode(env, f, ancestors).result == ExportDefaultDeclaration(R);
    RewriteLeavesNoText(env, Frame(f.node.declaration, None, 0), inner);
  }

  lemma {:induction false} AttributeLeavesNoText(env: Env, f: Frame, ancestors: seq<Frame>)
    requires f.node.JSXAttribute?
    ensures TextFree(RewriteNode(env, f, ancestors).result)
    decreases f.node, 1
  {
    var inner := ancestors + [f];
    var R := RewriteOption(env, f.node.initializer, inner).result;
    assert RewriteNode(env, f, ancestors).result == JSXAttribute(f.node.name, R);
    RewriteOptionLeavesNoText(env, f.node.initializer, inner);
  }

  lemma {:induction false} DeclaratorLeavesNoText(env: Env, f: Frame, ancestors: seq<Frame>)
    requires f.node.VariableDeclarator?
    ensures TextFree(RewriteNode(env, f, ancestors).result)
    decreases f.node, 1
  {
    var inner := ancestors + [f];
    var R := RewriteOption(env, f.node.init, inner).result;
    assert RewriteNode(env, f, ancestors).result == VariableDeclarator(f.node.target, R);
    RewriteOptionLeavesNoText(env, f.node.init, inner);
  }

  lemma {:induction false} ReturnLeavesNoText(env: Env, f: Frame, ancestors: seq<Frame>)
    requires f.node.ReturnStatement?
    ensures TextFree(RewriteNode(env, f, ancestors).result)
    decreases f.node, 1
  {
    var inner := ancestors + [f];
    var R := RewriteOption(env, f.node.argument, inner).result;
    assert RewriteNode(env, f, ancestors).result == ReturnStatement(R);
    RewriteOptionLeavesNoText(env, f.node.argument, inner);
  }

  lemma {:induction false} RewriteOptionLeavesNoText(env: Env, o: Option<Node>, ancestors: seq<Frame>)
    ensures var r := RewriteOption(env, o, ancestors).result; r.None? || TextFree(r.value)
    decreases o, 0
  {
    if o.Some? {
      RewriteLeavesNoText(env, Frame(o.value, None, 0), ancestors);
    }
  }

  lemma {:induction false} RewriteSeqLeavesNoText(env: Env, ns: seq<Node>, inElement: bool, i: nat, ancestors: seq<Frame>)
    requires i <= |ns|
    ensures AllTextFree(RewriteSeq(env, ns, inElement, i, ancestors).result)
    decreases ns, |ns| - i
  {
    if i < |ns| {
      var f := Frame(ns[i], if inElement then Some(ns) else None, i);
      RewriteLeavesNoText(env, f, ancestors);
      RewriteSeqLeavesNoText(env, ns, inElement, i + 1, ancestors);
      var r := RewriteSeq(env, ns, inElement, i, ancestors).result;
      assert r == [RewriteNode(env, f, ancestors).result] + RewriteSeq(env, ns, inElement, i + 1, ancestors).result;
      assert forall j :: 1 <= j < |r| ==> r[j] == RewriteSeq(env, ns, inElement, i + 1, ancestors).result[j - 1];
    }
  }

  /** A tree without meaningful text is left as it is, and nothing is appended. */
  lemma {:induction false} TextFreeUnchanged(env: Env, f: Frame, ancestors: seq<Frame>)
    requires TextFree(f.node)
    ensures RewriteNode(env, f, ancestors) == Rewritten(f.node, [])
    decreases f.node, 1
  {
    var inner := ancestors + [f];
    match f.node
    case JSXText(value) =>
    case JSXElement(tag, attributes, children) =>
      TextFreeSeqUnchanged(env, attributes, false, 0, inner);
      TextFreeSeqUnchanged(env, children, true, 0, inner);
    case JSXFragment(children) => TextFreeSeqUnchanged(env, children, false, 0, inner);
    case JSXExpressionContainer(e) => TextFreeUnchanged(env, Frame(e, None, 0), inner);
    case JSXAttribute(name, initializer) => TextFreeOptionUnchanged(env, initializer, inner);
    case Identifier(_) =>
    case StringLiteral(_) =>
    case CallExpression(callee, arguments) =>
      TextFreeUnchanged(env, Frame(callee, None, 0), inner);
      TextFreeSeqUnchanged(env, arguments, false, 0, inner);
    case FunctionDeclaration(id, body) => TextFreeSeqUnchanged(env, body, false, 0, inner);
    case FunctionExpression(id, body) => TextFreeSeqUnchanged(env, body, false, 0, inner);
    case ArrowBlock(body) => TextFreeSeqUnchanged(env, body, false, 0, inner);
    case ArrowExpression(result) => TextFreeUnchanged(env, Frame(result, None, 0), inner);
    case VariableDeclarator(target, init) => TextFreeOptionUnchanged(env, init, inner);
    case ReturnStatement(argument) => TextFreeOptionUnchanged(env, argument, inner);
    case ExportDefaultDeclaration(declaration) => TextFreeUnchanged(env, Frame(declaration, None, 0), inner);
    case ImportDeclaration(_, _) =>
    case OtherNode(children) => TextFreeSeqUnchanged(env, children, false, 0, inner);
  }

  lemma {:induction false} TextFreeOptionUnchanged(env: Env, o: Option<Node>, ancestors: seq<Frame>)
    requires o.None? || TextFree(o.value)
    ensures RewriteOption(env, o, ancestors) == Rewritten(o, [])
    decreases o, 0
  {
    if o.Some? {
      TextFreeUnchanged(env, Frame(o.value, None, 0), ancestors);
    }
  }

  lemma {:induction false} TextFreeSeqUnchanged(env: Env, ns: seq<Node>, inElement: bool, i: nat, ancestors: seq<Frame>)
    requires i <= |ns| && AllTextFree(ns)
    ensures RewriteSeq(env, ns, inElement, i, ancestors) == Rewritten(ns[i..], [])
    decreases ns, |ns| - i
  {
    if i < |ns| {
      TextFreeUnchanged(env, Frame(ns[i], if inElement then Some(ns) else None, i), ancestors);
      TextFreeSeqUnchanged(env, ns, inElement, i + 1, ancestors);
      assert ns[i..] == [ns[i]] + ns[i + 1..];
    }
  }

  /** A second pass over a rewritten module changes nothing and appends nothing, whatever it is told. */
  lemma SecondPassChangesNothing(env: Env, env2: Env, ast: Program)
    ensures var once := RewriteProgram(env, ast).result;
      RewriteProgram(env2, once) == Rewritten(once, [])
  {
    var once := RewriteProgram(env, ast).result;
    RewriteSeqLeavesNoText(env, ast.body, false, 0, []);
    TextFreeSeqUnchanged(env2, once.body, false, 0, []);
    assert once.body[0..] == once.body;
  }

  // ----- The loader

  /** The loader leaves a module alone without a path, outside `.jsx`/`.tsx`, or under `node_modules`. */
  predicate Skipped(resourcePath: Option<string>) {
    || resourcePath.None? || resourcePath.value == ""
    || !(EndsWith(resourcePath.value, ".jsx") || EndsWith(resourcePath.value, ".tsx"))
    || Contains(resourcePath.value, "node_modules")
  }

  /** What the rewrite of a parsed module is told: the found component name and locale. */
  function LoaderEnv(digest: string -> string, file: string, ast: Program): Env {
    Env(digest, file, ComponentName(VisitedNodes(ast)), UsesLocale(VisitedNodes(ast)))
  }

  lemma SinkTextSnoc(records: seq<ExtractedString>, i: nat, encode: ExtractedString -> string)
    requires i < |records|
    ensures SinkText(records[..i + 1], encode) == SinkText(records[..i], encode) + encode(records[i]) + "\n"
  {
    assert records[..i + 1][..i] == records[..i];
  }

  lemma AppendLineAssociates(base: string, prior: string, line: string)
    ensures base + prior + line + "\n" == base + (prior + line + "\n")
  {
  }

  /** The appends of the JSXText visitor, one `appendToTempStrings` per record, in order. */
  method AppendRecords(files: ProjectFiles, digest: string -> string, encode: ExtractedString -> string, records: seq<ExtractedString>)
    requires forall k :: 0 <= k < |records| ==>
      records[k] == NewEntry(digest, records[k].text, records[k].context.file, records[k].context.component, records[k].context.path)
    modifies files
    ensures files.stringsFile == old(files.stringsFile)
    ensures records == [] ==> files.tempStrings == old(files.tempStrings)
    ensures records != [] ==> files.tempStrings == Some(old(files.tempStrings).GetOr("") + SinkText(records, encode))
  {
    var i := 0;
    while i < |records|
      invariant 0 <= i <= |records|
      invariant files.stringsFile == old(files.stringsFile)
      invariant i == 0 ==> files.tempStrings == old(files.tempStrings)
      invariant i > 0 ==> files.tempStrings == Some(old(files.tempStrings).GetOr("") + SinkText(records[..i], encode))
    {
      var record := records[i];
      ghost var base := old(files.tempStrings).GetOr("");
      ghost var prior := SinkText(records[..i], encode);
      assert files.tempStrings.GetOr("") == base + prior;
      assert record == NewEntry(digest, record.text, record.context.file, record.context.component, record.context.path);
      var hash := files.AppendToTempStrings(
        digest, encode, record.text, record.context.file, record.context.component, record.context.path);
      assert files.tempStrings == Some(base + prior + encode(record) + "\n");
      SinkTextSnoc(records, i, encode);
      AppendLineAssociates(base, prior, encode(record));
      i := i + 1;
    }
    assert records[..i] == records;
  }

  /**
   * `textExtractionLoader`. `parse` is the parser (`None` when it throws), `generate` the code
   * generator, `encode` the record serializer of the sink, `relativeFilePath` the module's path
   * relative to the repository root. The source comes back unchanged when the module is skipped,
   * does not parse, or has no meaningful text; otherwise the rewritten module is generated, with
   * the import of `t` put first unless present, and one record per replaced text is appended to
   * the sink.
   */
  method TextExtractionLoaderRun(
    files: ProjectFiles, resourcePath: Option<string>, relativeFilePath: string, source: string,
    parse: string -> Option<Program>, generate: Program -> string,
    digest: string -> string, encode: ExtractedString -> string)
    returns (output: string)
    modifies files
    ensures Skipped(resourcePath) || parse(source).None? ==>
      output == source && files.stringsFile == old(files.stringsFile) && files.tempStrings == old(files.tempStrings)
    ensures !Skipped(resourcePath) && parse(source).Some? ==>
      var ast := parse(source).value;
      var r := RewriteProgram(LoaderEnv(digest, relativeFilePath, ast), ast);
      && files.stringsFile == old(files.stringsFile)
      && (r.records == [] ==> output == source && files.tempStrings == old(files.tempStrings))
      && (r.records != [] ==>
            && output == generate(WithTImport(r.result, ImportsT(VisitedNodes(r.result))))
            && files.tempStrings == Some(old(files.tempStrings).GetOr("") + SinkText(r.records, encode)))
  {
    if resourcePath.None? || resourcePath.value == "" {
      return source;
    }
    var path := resourcePath.value;
    if !(EndsWith(path, ".jsx") || EndsWith(path, ".tsx")) {
      return source;
    }
    if Contains(path, "node_modules") {
      return source;
    }
    var parsed := parse(source);
    if parsed.None? {
      return source;
    }
    var ast := parsed.value;
    var componentName := FindComponentName(ast);
    var hasLocaleVariable := HasLocaleVariable(ast);
    var env := Env(digest, relativeFilePath, componentName, hasLocaleVariable);
    var rewritten := RewriteProgram(env, ast);
    var records := rewritten.records;
    ProgramRecordsFollowVisits(env, ast);
    ExtractedAreSinkRecords(env, ProgramVisits(ast));
    forall k | 0 <= k < |records|
      ensures records[k] == NewEntry(digest, records[k].text, records[k].context.file, records[k].context.component, records[k].context.path)
    {
      SinkRecordDeterminedByTextAndContext(digest, records[k]);
    }
    AppendRecords(files, digest, encode, records);
    if records == [] {
      return source;
    }
    var hasImport := HasTImport(rewritten.result);
    output := generate(WithTImport(rewritten.result, hasImport));
  }
}
