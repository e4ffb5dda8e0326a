/** The part of Python's abstract syntax tree that the call-graph analysis looks at.

    Every constructor carries `children`, the node's child nodes in the order in which
    `ast.NodeVisitor.generic_visit` visits them (for a function definition: the arguments
    with their annotations and defaults, the body, the decorators and the return annotation). Everything the analysis
    does not distinguish is an `Other` node that only has children.
 */
module Syntax {

  datatype Option<+T> = None | Some(value: T)

  /** The node kinds that each add one to a function's cyclomatic complexity. `And` and
      `Or` are the operator nodes of a boolean expression, one per `BoolOp`. */
  datatype BranchKind = If | While | For | AsyncFor | ExceptHandler | And | Or

  datatype Node =
    | ClassDef(name: string, children: seq<Node>)
      /** `segment` is what the parser's source-segment lookup returned (None when it
          failed); `docstring` is the definition's docstring, if any. */
    | FunctionDef(name: string, isAsync: bool, line: int, segment: Option<string>,
                  docstring: Option<string>, children: seq<Node>)
      /** `callee` is the unparsed callee expression, or None when unparsing it failed. */
    | Call(callee: Option<string>, children: seq<Node>)
    | Branch(kind: BranchKind, children: seq<Node>)
      /** Any other node: `tag` names it (Try, With, IfExp, ListComp, ...) for readability. */
    | Other(tag: string, children: seq<Node>)

  /** Every node of the subtree rooted at `n`, `n` itself first (the nodes `ast.walk`
      yields; `ast.walk` yields them breadth-first, this lists them depth-first, and
      nothing in the analysis depends on that order). */
  function Walk(n: Node): (all: seq<Node>)
    ensures |all| >= 1 && all[0] == n
    decreases n
  {
    [n] + WalkSeq(n.children)
  }

  function WalkSeq(ns: seq<Node>): seq<Node>
    decreases ns
  {
    if |ns| == 0 then [] else Walk(ns[0]) + WalkSeq(ns[1..])
  }
}
