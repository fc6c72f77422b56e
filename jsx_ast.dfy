/**
 * The part of a parsed JSX/TSX module the text-extraction loader looks at, as a closed tree, and
 * the order in which a traversal visits it: every node before its children, children in source
 * order, each visit carrying the chain of ancestors the loader walks up through `parentPath`.
 */
module JsxAst {
  import opened Wrappers

  datatype ImportSpecifier =
    | ImportNamed(local: string)      // import { x } / import { y as x }
    | ImportDefault(local: string)    // import x
    | ImportNamespace(local: string)  // import * as x

  /** A property of an object pattern: its key when that is an identifier, and the identifier it binds when its value is one. */
  datatype PatternProperty =
    | ObjectProperty(key: Option<string>, binding: Option<string>)
    | RestElement

  datatype Pattern =
    | IdentifierPattern(name: string)
    | ObjectPattern(properties: seq<PatternProperty>)
    | OtherPattern

  datatype Node =
      /** `<tag ...attributes>children</tag>`; `tag` is `None` for a member or namespaced name. */
    | JSXElement(tag: Option<string>, attributes: seq<Node>, children: seq<Node>)
    | JSXFragment(children: seq<Node>)
    | JSXText(value: string)
    | JSXExpressionContainer(expression: Node)
    | JSXAttribute(name: string, initializer: Option<Node>)
    | Identifier(name: string)
    | StringLiteral(value: string)
    | CallExpression(callee: Node, arguments: seq<Node>)
    | FunctionDeclaration(id: Option<string>, body: seq<Node>)
    | FunctionExpression(id: Option<string>, body: seq<Node>)
      /** An arrow function with a block body, and one whose body is an expression. */
    | ArrowBlock(body: seq<Node>)
    | ArrowExpression(result: Node)
    | VariableDeclarator(target: Pattern, init: Option<Node>)
    | ReturnStatement(argument: Option<Node>)
    | ExportDefaultDeclaration(declaration: Node)
    | ImportDeclaration(specifiers: seq<ImportSpecifier>, source: string)
      /** Any other statement or expression, with its sub-nodes in traversal order. */
    | OtherNode(children: seq<Node>)

  datatype Program = Program(body: seq<Node>)

  /**
   * A node where the traversal meets it. When its parent is a JSX element and the node is one of
   * that element's children, `siblings` holds those children and `index` its position among them;
   * otherwise `siblings` is `None`.
   */
  datatype Frame = Frame(node: Node, siblings: Option<seq<Node>>, index: nat)

  /** The node stands at its recorded position among its siblings. */
  predicate FrameConsistent(f: Frame) {
    f.siblings.Some? ==> f.index < |f.siblings.value| && f.siblings.value[f.index] == f.node
  }

  /** A visit: the visited node's frame and its ancestors' frames, outermost first. */
  datatype Visit = Visit(frame: Frame, ancestors: seq<Frame>)

  /** The visits of a node and everything below it, in traversal order. */
  function VisitNode(f: Frame, ancestors: seq<Frame>): (vs: seq<Visit>)
    ensures |vs| >= 1 && vs[0] == Visit(f, ancestors)
    decreases f.node, 1
  {
    var inner := ancestors + [f];
    [Visit(f, ancestors)] +
    match f.node
    case JSXElement(_, attributes, children) =>
      VisitSeq(attributes, false, 0, inner) + VisitSeq(children, true, 0, inner)
    case JSXFragment(children) => VisitSeq(children, false, 0, inner)
    case JSXText(_) => []
    case JSXExpressionContainer(e) => VisitNode(Frame(e, None, 0), inner)
    case JSXAttribute(_, value) => VisitOption(value, inner)
    case Identifier(_) => []
    case StringLiteral(_) => []
    case CallExpression(callee, arguments) =>
      VisitNode(Frame(callee, None, 0), inner) + VisitSeq(arguments, false, 0, inner)
    case FunctionDeclaration(_, body) => VisitSeq(body, false, 0, inner)
    case FunctionExpression(_, body) => VisitSeq(body, false, 0, inner)
    case ArrowBlock(body) => VisitSeq(body, false, 0, inner)
    case ArrowExpression(result) => VisitNode(Frame(result, None, 0), inner)
    case VariableDeclarator(_, init) => VisitOption(init, inner)
    case ReturnStatement(argument) => VisitOption(argument, inner)
    case ExportDefaultDeclaration(declaration) => VisitNode(Frame(declaration, None, 0), inner)
    case ImportDeclaration(_, _) => []
    case OtherNode(children) => VisitSeq(children, false, 0, inner)
  }

  function VisitOption(o: Option<Node>, ancestors: seq<Frame>): seq<Visit>
    decreases o, 0
  {
    match o
    case None => []
    case Some(n) => VisitNode(Frame(n, None, 0), ancestors)
  }

  /** The visits of `ns[i..]`; `inElement` says whether `ns` are the children of a JSX element. */
  function VisitSeq(ns: seq<Node>, inElement: bool, i: nat, ancestors: seq<Frame>): seq<Visit>
    requires i <= |ns|
    decreases ns, |ns| - i
  {
    if i == |ns| then []
    else
      VisitNode(Frame(ns[i], if inElement then Some(ns) else None, i), ancestors)
      + VisitSeq(ns, inElement, i + 1, ancestors)
  }

  /** Every visit of a module, starting from the statements of its body. */
  function ProgramVisits(p: Program): seq<Visit> {
    VisitSeq(p.body, false, 0, [])
  }

  /** The nodes of a module in the order a traversal enters them. */
  function VisitedNodes(p: Program): (ns: seq<Node>)
    ensures |ns| == |ProgramVisits(p)|
    ensures forall i :: 0 <= i < |ns| ==> ns[i] == ProgramVisits(p)[i].frame.node
  {
    var vs := ProgramVisits(p);
    seq(|vs|, i requires 0 <= i < |vs| => vs[i].frame.node)
  }

  predicate AncestorsConsistent(fs: seq<Frame>) {
    forall j :: 0 <= j < |fs| ==> FrameConsistent(fs[j])
  }

  /** Each visit's frame and all its ancestors' frames are consistent. */
  predicate VisitsConsistent(vs: seq<Visit>) {
    forall v :: v in vs ==> FrameConsistent(v.frame) && AncestorsConsistent(v.ancestors)
  }

  lemma AppendConsistent(a: seq<Visit>, b: seq<Visit>)
    requires VisitsConsistent(a) && VisitsConsistent(b)
    ensures VisitsConsistent(a + b)
  {
  }

  /** Entering a consistent frame below consistent ancestors keeps the ancestors consistent. */
  lemma InnerConsistent(f: Frame, ancestors: seq<Frame>)
    requires FrameConsistent(f) && AncestorsConsistent(ancestors)
    ensures AncestorsConsistent(ancestors + [f])
  {
    var inner := ancestors + [f];
    assert forall j :: 0 <= j < |ancestors| ==> inner[j] == ancestors[j];
  }

  /** Every frame a traversal builds, the visited node's and its ancestors', is consistent. */
  lemma {:induction false} VisitNodeFramesConsistent(f: Frame, ancestors: seq<Frame>)
    requires FrameConsistent(f) && AncestorsConsistent(ancestors)
    ensures VisitsConsistent(VisitNode(f, ancestors))
    decreases f.node, 1
  {
    var n := f.node;
    if n.JSXElement? || n.CallExpression? {
      TwoPartFramesConsistent(f, ancestors);
    } else if n.JSXFragment? || n.FunctionDeclaration? || n.FunctionExpression? || n.ArrowBlock? || n.OtherNode? {
      SeqFramesConsistent(f, ancestors);
    } else if n.JSXExpressionContainer? || n.ArrowExpression? || n.ExportDefaultDeclaration? {
      NodeFramesConsistent(f, ancestors);
    } else if n.JSXAttribute? || n.VariableDeclarator? || n.ReturnStatement? {
      OptionFramesConsistent(f, ancestors);
    } else {
      assert VisitNode(f, ancestors) == [Visit(f, ancestors)];
    }
  }

  /** An element (attributes, then children) or a call (callee, then arguments). */
  lemma {:induction false} TwoPartFramesConsistent(f: Frame, ancestors: seq<Frame>)
    requires FrameConsistent(f) && AncestorsConsistent(ancestors)
    requires f.node.JSXElement? || f.node.CallExpression?
    ensures VisitsConsistent(VisitNode(f, ancestors))
    decreases f.node, 0
  {
    var inner := ancestors + [f];
    InnerConsistent(f, ancestors);
    if f.node.JSXElement? {
      VisitSeqFramesConsistent(f.node.attributes, false, 0, inner);
      VisitSeqFramesConsistent(f.node.children, true, 0, inner);
      var below := VisitSeq(f.node.attributes, false, 0, inner) + VisitSeq(f.node.children, true, 0, inner);
      AppendConsistent(VisitSeq(f.node.attributes, false, 0, inner), VisitSeq(f.node.children, true, 0, inner));
      AppendConsistent([Visit(f, ancestors)], below);
    } else {
      VisitNodeFramesConsistent(Frame(f.node.callee, None, 0), inner);
      VisitSeqFramesConsistent(f.node.arguments, false, 0, inner);
      var below := VisitNode(Frame(f.node.callee, None, 0), inner) + VisitSeq(f.node.arguments, false, 0, inner);
      AppendConsistent(VisitNode(Frame(f.node.callee, None, 0), inner), VisitSeq(f.node.arguments, false, 0, inner));
      AppendConsistent([Visit(f, ancestors)], below);
    }
  }

  /** A node whose sub-nodes are one sequence, visited as statements. */
  lemma {:induction false} SeqFramesConsistent(f: Frame, ancestors: seq<Frame>)
    requires FrameConsistent(f) && AncestorsConsistent(ancestors)
    requires f.node.JSXFragment? || f.node.FunctionDeclaration? || f.node.FunctionExpression? || f.node.ArrowBlock? || f.node.OtherNode?
    ensures VisitsConsistent(VisitNode(f, ancestors))
    decreases f.node, 0
  {
    var inner := ancestors + [f];
    InnerConsistent(f, ancestors);
    var children := if f.node.JSXFragment? || f.node.OtherNode? then f.node.children else f.node.body;
    VisitSeqFramesConsistent(children, false, 0, inner);
    AppendConsistent([Visit(f, ancestors)], VisitSeq(children, false, 0, inner));
  }

  /** A node with exactly one sub-node. */
  lemma {:induction false} NodeFramesConsistent(f: Frame, ancestors: seq<Frame>)
    requires FrameConsistent(f) && AncestorsConsistent(ancestors)
    requires f.node.JSXExpressionContainer? || f.node.ArrowExpression? || f.node.ExportDefaultDeclaration?
    ensures VisitsConsistent(VisitNode(f, ancestors))
    decreases f.node, 0
  {
    var inner := ancestors + [f];
    InnerConsistent(f, ancestors);
    var child :=
      if f.node.JSXExpressionContainer? then f.node.expression
      else if f.node.ArrowExpression? then f.node.result
      else f.node.declaration;
    VisitNodeFramesConsistent(Frame(child, None, 0), inner);
    AppendConsistent([Visit(f, ancestors)], VisitNode(Frame(child, None, 0), inner));
  }

  /** A node with an optional sub-node. */
  lemma {:induction false} OptionFramesConsistent(f: Frame, ancestors: seq<Frame>)
    requires FrameConsistent(f) && AncestorsConsistent(ancestors)
    requires f.node.JSXAttribute? || f.node.VariableDeclarator? || f.node.ReturnStatement?
    ensures VisitsConsistent(VisitNode(f, ancestors))
    decreases f.node, 0
  {
    var inner := ancestors + [f];
    InnerConsistent(f, ancestors);
    var o :=
      if f.node.JSXAttribute? then f.node.initializer
      else if f.node.VariableDeclarator? then f.node.init
      else f.node.argument;
    VisitOptionFramesConsistent(o, inner);
    AppendConsistent([Visit(f, ancestors)], VisitOption(o, inner));
  }

  lemma {:induction false} VisitOptionFramesConsistent(o: Option<Node>, ancestors: seq<Frame>)
    requires AncestorsConsistent(ancestors)
    ensures VisitsConsistent(VisitOption(o, ancestors))
    decreases o, 0
  {
    if o.Some? {
      VisitNodeFramesConsistent(Frame(o.value, None, 0), ancestors);
    }
  }

  lemma {:induction false} VisitSeqFramesConsistent(ns: seq<Node>, inElement: bool, i: nat, ancestors: seq<Frame>)
    requires i <= |ns|
    requires AncestorsConsistent(ancestors)
    ensures VisitsConsistent(VisitSeq(ns, inElement, i, ancestors))
    decreases ns, |ns| - i
  {
    if i < |ns| {
      VisitNodeFramesConsistent(Frame(ns[i], if inElement then Some(ns) else None, i), ancestors);
      VisitSeqFramesConsistent(ns, inElement, i + 1, ancestors);
      AppendConsistent(VisitNode(Frame(ns[i], if inElement then Some(ns) else None, i), ancestors),
                       VisitSeq(ns, inElement, i + 1, ancestors));
    }
  }

  /** Every visit of a module carries consistent frames. */
  lemma ProgramFramesConsistent(p: Program)
    ensures forall v :: v in ProgramVisits(p) ==>
      FrameConsistent(v.frame) && forall j :: 0 <= j < |v.ancestors| ==> FrameConsistent(v.ancestors[j])
  {
    VisitSeqFramesConsistent(p.body, false, 0, []);
  }
}
