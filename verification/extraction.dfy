/** `FunctionCallVisitor`: one walk over a file's syntax tree that builds a record per
    function or method definition.

    The visitor's mutable `current_class` and `current_function` fields become an explicit
    `Scope` passed down the walk; the dictionary it fills becomes a map threaded through the
    walk from left to right, so visiting a list of siblings is a left fold.
 */
module Extraction {
  import opened Syntax
  import opened Names
  import opened CallLists
  import opened Complexity
  import opened Records

  /** The innermost enclosing class and the qualified name of the innermost enclosing
      function, or None outside any. */
  datatype Scope = Scope(cls: Option<string>, fn: Option<string>)

  const TopLevel := Scope(None, None)

  /** Stored when the parser cannot recover the definition's source text. */
  const SourceNotAvailable := "# Source not available"

  /** The fresh record `_process_function_node` stores for definition `def`, met while the
      innermost class is `cls`; its call list starts empty. */
  function NewRecord(cls: Option<string>, def: Node, path: string): (info: FunctionInfo)
    requires def.FunctionDef?
    ensures WellFormedRecord(Qualify(cls, def.name), info)
  {
    FunctionInfo(
      name := Qualify(cls, def.name),
      calls := [],
      sourceCode := if def.segment.Some? && def.segment.value != "" then def.segment.value
                    else SourceNotAvailable,
      filePath := path,
      complexity := ComplexityOf(def),
      summary := NoSummary,
      lineNumber := def.line,
      isAsync := def.isAsync,
      isMethod := cls.Some?,
      docstring := def.docstring)
  }

  /** `visit_Call` before it visits the call's children: when the current function name is
      non-empty and has a record, add the callee's last segment to that record's calls. */
  function RecordCall(callee: Option<string>, sc: Scope, fns: Index): (r: Index)
    ensures r.Keys == fns.Keys
    ensures forall k :: k in fns && !(sc.fn == Some(k) && k != "" && callee.Some?) ==> r[k] == fns[k]
    ensures sc.fn.Some? && sc.fn.value != "" && sc.fn.value in fns && callee.Some? ==>
      var f := sc.fn.value;
      && r[f] == fns[f].(calls := r[f].calls)
      && |fns[f].calls| <= |r[f].calls| && r[f].calls[..|fns[f].calls|] == fns[f].calls
      && (forall x :: x in r[f].calls <==> x in fns[f].calls || x == LastSegment(callee.value))
    ensures WellFormed(fns) ==> WellFormed(r)
  {
    if sc.fn.Some? && sc.fn.value != "" && sc.fn.value in fns && callee.Some? then
      var f := sc.fn.value;
      fns[f := fns[f].(calls := AddCall(fns[f].calls, LastSegment(callee.value)))]
    else fns
  }

  /** Visiting one node: class definitions change the class scope for their children,
      function definitions store a fresh record and become the function scope for their
      children, calls are recorded, and every other node just visits its children. */
  function Visit(n: Node, sc: Scope, path: string, fns: Index): (r: Index)
    ensures r.Keys == fns.Keys + NamesOf(Defs(n, sc.cls))
    ensures WellFormed(fns) ==> WellFormed(r)
    decreases n
  {
    match n
    case ClassDef(name, children) =>
      VisitSeq(children, sc.(cls := Some(name)), path, fns)
    case FunctionDef(name, _, _, _, _, children) =>
      var q := Qualify(sc.cls, name);
      NamesOfAppend([DefSite(sc.cls, n)], DefsSeq(children, sc.cls));
      NamesOfSingle(DefSite(sc.cls, n));
      VisitSeq(children, sc.(fn := Some(q)), path, fns[q := NewRecord(sc.cls, n, path)])
    case Call(callee, children) =>
      VisitSeq(children, sc, path, RecordCall(callee, sc, fns))
    case Branch(_, children) =>
      VisitSeq(children, sc, path, fns)
    case Other(_, children) =>
      VisitSeq(children, sc, path, fns)
  }

  function VisitSeq(ns: seq<Node>, sc: Scope, path: string, fns: Index): (r: Index)
    ensures r.Keys == fns.Keys + NamesOf(DefsSeq(ns, sc.cls))
    ensures WellFormed(fns) ==> WellFormed(r)
    decreases ns
  {
    if |ns| == 0 then fns
    else
      NamesOfAppend(Defs(ns[0], sc.cls), DefsSeq(ns[1..], sc.cls));
      VisitSeq(ns[1..], sc, path, Visit(ns[0], sc, path, fns))
  }

  /** The functions of one parsed file (a module's statements), keyed by qualified name. */
  function Extract(tree: seq<Node>, path: string): (r: Index)
    ensures WellFormed(r)
    ensures r.Keys == NamesOf(DefsSeq(tree, None))
  {
    VisitSeq(tree, TopLevel, path, map[])
  }

  // ----- Reference definitions -----

  /** One function definition together with its innermost enclosing class. */
  datatype DefSite = DefSite(cls: Option<string>, def: Node) {
    function QName(): string {
      if def.FunctionDef? then Qualify(cls, def.name) else ""
    }
  }

  /** Every function definition of the subtree with its innermost class, in the order the
      visitor meets them (a definition before the definitions nested in it). */
  function Defs(n: Node, cls: Option<string>): (sites: seq<DefSite>)
    ensures forall i :: 0 <= i < |sites| ==> sites[i].def.FunctionDef?
    decreases n
  {
    match n
    case ClassDef(name, children) => DefsSeq(children, Some(name))
    case FunctionDef(_, _, _, _, _, children) => [DefSite(cls, n)] + DefsSeq(children, cls)
    case Call(_, children) => DefsSeq(children, cls)
    case Branch(_, children) => DefsSeq(children, cls)
    case Other(_, children) => DefsSeq(children, cls)
  }

  function DefsSeq(ns: seq<Node>, cls: Option<string>): (sites: seq<DefSite>)
    ensures forall i :: 0 <= i < |sites| ==> sites[i].def.FunctionDef?
    decreases ns
  {
    if |ns| == 0 then [] else Defs(ns[0], cls) + DefsSeq(ns[1..], cls)
  }

  function NamesOf(sites: seq<DefSite>): set<string> {
    set s | s in sites :: s.QName()
  }

  /** How many of the sites define the qualified name `k`. */
  function Occurrences(sites: seq<DefSite>, k: string): nat {
    if |sites| == 0 then 0
    else (if sites[0].QName() == k then 1 else 0) + Occurrences(sites[1..], k)
  }

  /** The bare callee names of the calls that belong to the enclosing function itself, in
      visiting order: nested function definitions are not entered (their calls are theirs),
      class bodies and every other node are. */
  function DirectCallees(n: Node): seq<string>
    decreases n
  {
    match n
    case FunctionDef(_, _, _, _, _, _) => []
    case Call(callee, children) =>
      (if callee.Some? then [LastSegment(callee.value)] else []) + DirectCalleesSeq(children)
    case ClassDef(_, children) => DirectCalleesSeq(children)
    case Branch(_, children) => DirectCalleesSeq(children)
    case Other(_, children) => DirectCalleesSeq(children)
  }

  function DirectCalleesSeq(ns: seq<Node>): seq<string>
    decreases ns
  {
    if |ns| == 0 then [] else DirectCallees(ns[0]) + DirectCalleesSeq(ns[1..])
  }

  /** What a run of calls does to the record of `k`: when `k` is the (non-empty) current
      function the callee names are added in order, otherwise nothing changes. */
  function Attribute(sc: Scope, k: string, info: FunctionInfo, cs: seq<string>): FunctionInfo {
    if sc.fn == Some(k) && k != "" then info.(calls := AddCalls(info.calls, cs)) else info
  }

  predicate AgreeAt(m1: Index, m2: Index, k: string) {
    (k in m1 <==> k in m2) && (k in m1 ==> m1[k] == m2[k])
  }

  // ----- Small facts about the reference definitions -----

  lemma NamesOfAppend(a: seq<DefSite>, b: seq<DefSite>)
    ensures NamesOf(a + b) == NamesOf(a) + NamesOf(b)
  {
    assert forall s :: s in a + b <==> s in a || s in b;
  }

  lemma NamesOfSingle(s: DefSite)
    ensures NamesOf([s]) == {s.QName()}
  {
    assert s in [s];
  }

  lemma {:induction false} OccurrencesAppend(a: seq<DefSite>, b: seq<DefSite>, k: string)
    ensures Occurrences(a + b, k) == Occurrences(a, k) + Occurrences(b, k)
    decreases |a|
  {
    if |a| > 0 {
      assert (a + b)[0] == a[0];
      assert (a + b)[1..] == a[1..] + b;
      OccurrencesAppend(a[1..], b, k);
    } else {
      assert a + b == b;
    }
  }

  /** A name is defined at least once exactly when some site defines it. */
  lemma {:induction false} OccurrencesPositive(sites: seq<DefSite>, k: string)
    ensures Occurrences(sites, k) > 0 <==> k in NamesOf(sites)
    decreases |sites|
  {
    if |sites| > 0 {
      OccurrencesPositive(sites[1..], k);
      assert sites == [sites[0]] + sites[1..];
      NamesOfAppend([sites[0]], sites[1..]);
      assert NamesOf([sites[0]]) == {sites[0].QName()};
    }
  }

  lemma {:induction false} DefsSeqAppend(a: seq<Node>, b: seq<Node>, cls: Option<string>)
    ensures DefsSeq(a + b, cls) == DefsSeq(a, cls) + DefsSeq(b, cls)
    decreases |a|
  {
    if |a| > 0 {
      assert (a + b)[0] == a[0];
      assert (a + b)[1..] == a[1..] + b;
      DefsSeqAppend(a[1..], b, cls);
    } else {
      assert a + b == b;
    }
  }

  /** Visiting a concatenation visits the first part and then the second. */
  lemma {:induction false} VisitSeqAppend(a: seq<Node>, b: seq<Node>, sc: Scope, path: string, fns: Index)
    ensures VisitSeq(a + b, sc, path, fns) == VisitSeq(b, sc, path, VisitSeq(a, sc, path, fns))
    decreases |a|
  {
    if |a| > 0 {
      assert (a + b)[0] == a[0];
      assert (a + b)[1..] == a[1..] + b;
      VisitSeqAppend(a[1..], b, sc, path, Visit(a[0], sc, path, fns));
    } else {
      assert a + b == b;
    }
  }
}
