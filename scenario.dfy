/**
 * The demo page of the web app as the loader sees it: `export default function Home()` returning
 * a `main` element that holds an `h1` and two `p` elements, the second with a `code` inside it.
 * The component name and the JSX paths the loader derives for its texts are the ones recorded in
 * the generated strings data.
 */
module PageScenario {
  import opened Wrappers
  import opened JsString
  import opened JsxAst
  import opened TextExtractionLoader

  // ----- The component name

  /** Import declarations are visited one by one, each without anything below it. */
  lemma {:induction false} ImportsVisitedFirst(body: seq<Node>, n: nat, i: nat)
    requires i <= n <= |body|
    requires forall k :: 0 <= k < n ==> body[k].ImportDeclaration?
    ensures |VisitSeq(body, false, i, [])| >= n - i
    ensures forall k :: i <= k < n ==> VisitSeq(body, false, i, [])[k - i].frame.node == body[k]
    ensures VisitSeq(body, false, i, [])[n - i..] == VisitSeq(body, false, n, [])
    decreases n - i
  {
    if i < n {
      ImportsVisitedFirst(body, n, i + 1);
      var v: seq<Visit> := [Visit(Frame(body[i], None, i), [])];
      var rest: seq<Visit> := VisitSeq(body, false, i + 1, []);
      assert VisitSeq(body, false, i, []) == v + rest by {
        ImportVisitedAlone(Frame(body[i], None, i));
        VisitSeqStep(body, i);
      }
      forall k: int | i <= k < n ensures (v + rest)[k - i].frame.node == body[k] {
        if k > i {
          assert (v + rest)[k - i] == rest[k - i - 1];
        }
      }
      assert (v + rest)[n - i..] == rest[n - i - 1..];
    }
  }

  /** An import declaration has nothing below it to visit. */
  lemma ImportVisitedAlone(f: Frame)
    requires f.node.ImportDeclaration?
    ensures VisitNode(f, []) == [Visit(f, [])]
  {
  }

  /** An `export default` is visited, then the declaration it exports. */
  lemma ExportVisitedFirst(exported: Node, n: nat)
    requires exported.ExportDefaultDeclaration?
    ensures |VisitNode(Frame(exported, None, n), [])| >= 2
    ensures VisitNode(Frame(exported, None, n), [])[0].frame.node == exported
    ensures VisitNode(Frame(exported, None, n), [])[1].frame.node == exported.declaration
  {
    var f := Frame(exported, None, n);
    assert [] + [f] == [f];
    assert VisitNode(f, []) == [Visit(f, [])] + VisitNode(Frame(exported.declaration, None, 0), [f]);
  }

  /** The leading imports of a module are its first visits. */
  lemma ImportsFirst(body: seq<Node>, n: nat)
    requires n <= |body|
    requires forall k :: 0 <= k < n ==> body[k].ImportDeclaration?
    ensures |VisitSeq(body, false, 0, [])| >= n
    ensures forall k :: 0 <= k < n ==> VisitSeq(body, false, 0, [])[k].frame.node == body[k]
    ensures VisitSeq(body, false, 0, [])[n..] == VisitSeq(body, false, n, [])
  {
    ImportsVisitedFirst(body, n, 0);
    var all := VisitSeq(body, false, 0, []);
    forall k | 0 <= k < n ensures all[k].frame.node == body[k] {
      assert all[k - 0] == all[k];
    }
  }

  /** The visits from position `i` on: the node at `i` and what lies below it, then the rest. */
  lemma VisitSeqStep(ns: seq<Node>, i: nat)
    requires i < |ns|
    ensures VisitSeq(ns, false, i, []) == VisitNode(Frame(ns[i], None, i), []) + VisitSeq(ns, false, i + 1, [])
  {
  }

  /** A module of imports and one `export default`: the imports, the export, then what it exports. */
  lemma ModuleNodes(imports: seq<Node>, exported: Node)
    requires forall k :: 0 <= k < |imports| ==> imports[k].ImportDeclaration?
    requires exported.ExportDefaultDeclaration?
    ensures var ns := VisitedNodes(Program(imports + [exported]));
      && |ns| >= |imports| + 2
      && (forall k :: 0 <= k < |imports| ==> ns[k] == imports[k])
      && ns[|imports|] == exported && ns[|imports| + 1] == exported.declaration
  {
    var moduleBody := imports + [exported];
    var n := |imports|;
    var all := VisitSeq(moduleBody, false, 0, []);
    var visits := VisitNode(Frame(exported, None, n), []);
    assert forall k :: 0 <= k < n ==> all[k].frame.node == imports[k] by {
      assert forall k :: 0 <= k < n ==> moduleBody[k] == imports[k];
      ImportsFirst(moduleBody, n);
    }
    assert all[n..] == visits + VisitSeq(moduleBody, false, n + 1, []) by {
      assert forall k :: 0 <= k < n ==> moduleBody[k] == imports[k];
      ImportsFirst(moduleBody, n);
      assert moduleBody[n] == exported;
      VisitSeqStep(moduleBody, n);
    }
    ExportVisitedFirst(exported, n);
    assert all[n] == all[n..][0] == visits[0];
    assert all[n + 1] == all[n..][1] == visits[1];
  }

  /**
   * A module made of imports and `export default function <name>` whose body returns JSX is the
   * component `<name>`: the declaration visitor stops there, after the export visitor has seen it.
   */
  lemma DefaultExportedComponent(imports: seq<Node>, name: string, body: seq<Node>)
    requires forall k :: 0 <= k < |imports| ==> imports[k].ImportDeclaration?
    requires HasJSXReturn(body)
    ensures ComponentName(VisitedNodes(Program(imports + [ExportDefaultDeclaration(FunctionDeclaration(Some(name), body))]))) == name
  {
    var exported := ExportDefaultDeclaration(FunctionDeclaration(Some(name), body));
    ModuleNodes(imports, exported);
    var ns := VisitedNodes(Program(imports + [exported]));
    assert IsFirstStop(ns, |imports| + 1);
    FirstStopAt(ns, |imports| + 1);
  }

  // ----- The JSX paths

  /** What lies between the elements of the page: the text nodes of its indentation. */
  function Gap(): Node { JSXText("\n        ") }

  function Code(text: Node): Node { JSXElement(Some("code"), [], [text]) }
  function Heading(text: Node): Node { JSXElement(Some("h1"), [], [text]) }
  function Para(children: seq<Node>): Node { JSXElement(Some("p"), [], children) }

  /** The children of `main`: `h1`, `p`, `p`, with indentation between them. */
  function MainChildren(h: Node, p1: Node, p2: Node): seq<Node> {
    [Gap(), h, Gap(), p1, Gap(), p2, Gap()]
  }

  function Main(style: seq<Node>, h: Node, p1: Node, p2: Node): Node {
    JSXElement(Some("main"), style, MainChildren(h, p1, p2))
  }

  /** `main` is what the component returns: its parent is no element. */
  function MainFrame(style: seq<Node>, h: Node, p1: Node, p2: Node): Frame {
    Frame(Main(style, h, p1, p2), None, 0)
  }

  /** `h1` occurs once among the children of `main`. */
  lemma HeadingCount(htext: Node, p1: seq<Node>, p2: seq<Node>)
    ensures CountTagged(MainChildren(Heading(htext), Para(p1), Para(p2)), "h1") == 1
  {
    var cs := MainChildren(Heading(htext), Para(p1), Para(p2));
    PrefixCount(cs, 1, "h1");
    PrefixCount(cs, 2, "h1");
    PrefixCount(cs, 3, "h1");
    PrefixCount(cs, 4, "h1");
    PrefixCount(cs, 5, "h1");
    PrefixCount(cs, 6, "h1");
    PrefixCount(cs, 7, "h1");
    assert cs[..7] == cs;
  }

  /** `p` occurs twice among the children of `main`: none before position 3, one before position 5. */
  lemma ParagraphCounts(htext: Node, p1: seq<Node>, p2: seq<Node>)
    ensures var cs := MainChildren(Heading(htext), Para(p1), Para(p2));
      && CountTagged(cs, "p") == 2 && CountTagged(cs[..3], "p") == 0 && CountTagged(cs[..5], "p") == 1
  {
    var cs := MainChildren(Heading(htext), Para(p1), Para(p2));
    PrefixCount(cs, 1, "p");
    PrefixCount(cs, 2, "p");
    PrefixCount(cs, 3, "p");
    PrefixCount(cs, 4, "p");
    PrefixCount(cs, 5, "p");
    PrefixCount(cs, 6, "p");
    PrefixCount(cs, 7, "p");
    assert cs[..7] == cs;
  }

  /** One more node in the prefix counts once more when it is an element with the tag. */
  lemma PrefixCount(ns: seq<Node>, k: nat, tag: string)
    requires 0 < k <= |ns|
    ensures CountTagged(ns[..k], tag) == CountTagged(ns[..k - 1], tag) + (if IsElementTagged(ns[k - 1], tag) then 1 else 0)
  {
    assert ns[..k][..k - 1] == ns[..k - 1];
  }

  lemma SegmentsOfTwo(a: Frame, b: Frame)
    requires Segment(a).Some? && Segment(b).Some?
    ensures Segments([a, b]) == [Segment(a).value, Segment(b).value]
  {
    assert [a, b][1..] == [b];
    assert [b][1..] == [];
    assert Segments([b]) == [Segment(b).value] + Segments([]);
    assert Segments([a, b]) == [Segment(a).value] + Segments([b]);
  }

  lemma JoinOfTwo(x: string, y: string, sep: string)
    ensures Join([x, y], sep) == x + sep + y
  {
    assert [x, y][1..] == [y];
  }

  lemma JoinOfThree(x: string, y: string, z: string, sep: string)
    ensures Join([x, y, z], sep) == x + sep + y + sep + z
  {
    assert [x, y, z][1..] == [y, z];
    JoinOfTwo(y, z, sep);
  }

  lemma SegmentsOfThree(a: Frame, b: Frame, c: Frame)
    requires Segment(a).Some? && Segment(b).Some? && Segment(c).Some?
    ensures Segments([a, b, c]) == [Segment(a).value, Segment(b).value, Segment(c).value]
  {
    assert [a, b, c][1..] == [b, c];
    SegmentsOfTwo(b, c);
    assert Segments([a, b, c]) == [Segment(a).value] + Segments([b, c]);
  }

  /** Two ancestors that both contribute give their segments joined by ` > `. */
  lemma PathOfTwo(a: Frame, b: Frame, x: string, y: string)
    requires Segment(a) == Some(x) && Segment(b) == Some(y)
    ensures JSXPath([a, b]) == x + " > " + y
  {
    SegmentsOfTwo(a, b);
    JoinOfTwo(x, y, " > ");
  }

  /** Three ancestors that all contribute give their segments joined by ` > `. */
  lemma PathOfThree(a: Frame, b: Frame, c: Frame, x: string, y: string, z: string)
    requires Segment(a) == Some(x) && Segment(b) == Some(y) && Segment(c) == Some(z)
    ensures JSXPath([a, b, c]) == x + " > " + y + " > " + z
  {
    SegmentsOfThree(a, b, c);
    JoinOfThree(x, y, z, " > ");
  }

  /** The paths, spelled out. */
  lemma PathLabels()
    ensures "main" + " > " + "h1" == "main > h1"
    ensures "main" + " > " + "p:nth-child(1)" == "main > p:nth-child(1)"
    ensures "main" + " > " + "p:nth-child(2)" == "main > p:nth-child(2)"
    ensures "main" + " > " + "p:nth-child(2)" + " > " + "code" == "main > p:nth-child(2) > code"
  {
  }

  lemma NthChildLabels()
    ensures "p" + ":nth-child(" + NatToString(1) + ")" == "p:nth-child(1)"
    ensures "p" + ":nth-child(" + NatToString(2) + ")" == "p:nth-child(2)"
  {
  }

  /** The segments the four elements of the page contribute. */
  lemma MainSegment(style: seq<Node>, h: Node, p1: Node, p2: Node)
    ensures Segment(MainFrame(style, h, p1, p2)) == Some("main")
  {
  }

  lemma HeadingSegment(htext: Node, p1: seq<Node>, p2: seq<Node>)
    ensures Segment(Frame(Heading(htext), Some(MainChildren(Heading(htext), Para(p1), Para(p2))), 1)) == Some("h1")
  {
    HeadingCount(htext, p1, p2);
  }

  lemma FirstParagraphSegment(htext: Node, p1: seq<Node>, p2: seq<Node>)
    ensures Segment(Frame(Para(p1), Some(MainChildren(Heading(htext), Para(p1), Para(p2))), 3)) == Some("p:nth-child(1)")
  {
    var cs := MainChildren(Heading(htext), Para(p1), Para(p2));
    ParagraphCounts(htext, p1, p2);
    assert Before(cs, 3) == cs[..3];
    NthChildLabels();
  }

  lemma SecondParagraphSegment(htext: Node, p1: seq<Node>, p2: seq<Node>)
    ensures Segment(Frame(Para(p2), Some(MainChildren(Heading(htext), Para(p1), Para(p2))), 5)) == Some("p:nth-child(2)")
  {
    var cs := MainChildren(Heading(htext), Para(p1), Para(p2));
    ParagraphCounts(htext, p1, p2);
    assert Before(cs, 5) == cs[..5];
    NthChildLabels();
  }

  lemma CodeSegment(before: Node, ctext: Node, after: Node)
    requires !before.JSXElement? && !after.JSXElement?
    ensures Segment(Frame(Code(ctext), Some([before, Code(ctext), after]), 1)) == Some("code")
  {
    var p2 := [before, Code(ctext), after];
    PrefixCount(p2, 1, "code");
    PrefixCount(p2, 2, "code");
    PrefixCount(p2, 3, "code");
    assert p2[..3] == p2;
  }

  // ----- Paths of the page's texts
  //
  // Each chain below lists only the element ancestors of a text. The other
  // frames of the real chain (the component function, its `return` statement,
  // a parenthesised expression) are not JSX elements, so `Segment` gives
  // `None` for them and `TextExtractionLoader.SkipNonElementFrame` shows that
  // leaving them out does not change the path.

  /** The heading's text has the path `main > h1`. */
  lemma HeadingPath(style: seq<Node>, htext: Node, p1: seq<Node>, p2: seq<Node>)
    ensures JSXPath([MainFrame(style, Heading(htext), Para(p1), Para(p2)),
                     Frame(Heading(htext), Some(MainChildren(Heading(htext), Para(p1), Para(p2))), 1)]) == "main > h1"
  {
    var chain := [MainFrame(style, Heading(htext), Para(p1), Para(p2)),
                  Frame(Heading(htext), Some(MainChildren(Heading(htext), Para(p1), Para(p2))), 1)];
    MainSegment(style, Heading(htext), Para(p1), Para(p2));
    HeadingSegment(htext, p1, p2);
    PathOfTwo(chain[0], chain[1], "main", "h1");
    PathLabels();
  }

  /** The first paragraph's text has the path `main > p:nth-child(1)`. */
  lemma FirstParagraphPath(style: seq<Node>, htext: Node, p1: seq<Node>, p2: seq<Node>)
    ensures JSXPath([MainFrame(style, Heading(htext), Para(p1), Para(p2)),
                     Frame(Para(p1), Some(MainChildren(Heading(htext), Para(p1), Para(p2))), 3)]) == "main > p:nth-child(1)"
  {
    var chain := [MainFrame(style, Heading(htext), Para(p1), Para(p2)),
                  Frame(Para(p1), Some(MainChildren(Heading(htext), Para(p1), Para(p2))), 3)];
    MainSegment(style, Heading(htext), Para(p1), Para(p2));
    FirstParagraphSegment(htext, p1, p2);
    PathOfTwo(chain[0], chain[1], "main", "p:nth-child(1)");
    PathLabels();
  }

  /** The second paragraph's texts have the path `main > p:nth-child(2)`. */
  lemma SecondParagraphPath(style: seq<Node>, htext: Node, p1: seq<Node>, p2: seq<Node>)
    ensures JSXPath([MainFrame(style, Heading(htext), Para(p1), Para(p2)),
                     Frame(Para(p2), Some(MainChildren(Heading(htext), Para(p1), Para(p2))), 5)]) == "main > p:nth-child(2)"
  {
    var chain := [MainFrame(style, Heading(htext), Para(p1), Para(p2)),
                  Frame(Para(p2), Some(MainChildren(Heading(htext), Para(p1), Para(p2))), 5)];
    MainSegment(style, Heading(htext), Para(p1), Para(p2));
    SecondParagraphSegment(htext, p1, p2);
    PathOfTwo(chain[0], chain[1], "main", "p:nth-child(2)");
    PathLabels();
  }

  /** The text inside `code`, second child of the second paragraph, has the path `main > p:nth-child(2) > code`. */
  lemma CodePath(style: seq<Node>, htext: Node, p1: seq<Node>, before: Node, ctext: Node, after: Node)
    requires !before.JSXElement? && !after.JSXElement?
    ensures var p2 := [before, Code(ctext), after];
      JSXPath([MainFrame(style, Heading(htext), Para(p1), Para(p2)),
               Frame(Para(p2), Some(MainChildren(Heading(htext), Para(p1), Para(p2))), 5),
               Frame(Code(ctext), Some(p2), 1)]) == "main > p:nth-child(2) > code"
  {
    var p2 := [before, Code(ctext), after];
    var chain := [MainFrame(style, Heading(htext), Para(p1), Para(p2)),
                  Frame(Para(p2), Some(MainChildren(Heading(htext), Para(p1), Para(p2))), 5),
                  Frame(Code(ctext), Some(p2), 1)];
    MainSegment(style, Heading(htext), Para(p1), Para(p2));
    SecondParagraphSegment(htext, p1, p2);
    CodeSegment(before, ctext, after);
    PathOfThree(chain[0], chain[1], chain[2], "main", "p:nth-child(2)", "code");
    PathLabels();
  }
}
