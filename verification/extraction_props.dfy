/** What the extractor promises: which calls land in which record, what a definition that
    occurs once produces, and that a later definition of a qualified name replaces an
    earlier one. */
module ExtractionProps {
  import opened Syntax
  import opened Names
  import opened CallLists
  import opened Records
  import opened Extraction

  // ----- Call attribution -----

  /** A record whose name is not (re)defined inside `n` only gains the calls that belong to
      the current function itself, and only when it is that function. */
  lemma {:induction false} VisitFrame(n: Node, sc: Scope, path: string, fns: Index, k: string)
    requires k in fns && k !in NamesOf(Defs(n, sc.cls))
    ensures k in Visit(n, sc, path, fns)
    ensures Visit(n, sc, path, fns)[k] == Attribute(sc, k, fns[k], DirectCallees(n))
    decreases n
  {
    match n
    case ClassDef(name, children) =>
      VisitSeqFrame(children, sc.(cls := Some(name)), path, fns, k);
    case FunctionDef(name, _, _, _, _, children) =>
      var q := Qualify(sc.cls, name);
      NamesOfAppend([DefSite(sc.cls, n)], DefsSeq(children, sc.cls));
      NamesOfSingle(DefSite(sc.cls, n));
      VisitSeqFrame(children, sc.(fn := Some(q)), path, fns[q := NewRecord(sc.cls, n, path)], k);
    case Call(callee, children) =>
      var fns' := RecordCall(callee, sc, fns);
      VisitSeqFrame(children, sc, path, fns', k);
      var cs := DirectCalleesSeq(children);
      if callee.Some? {
        var c := LastSegment(callee.value);
        assert DirectCallees(n) == [c] + cs;
        assert ([c] + cs)[1..] == cs;
      } else {
        assert DirectCallees(n) == cs;
      }
    case Branch(_, children) =>
      VisitSeqFrame(children, sc, path, fns, k);
    case Other(_, children) =>
      VisitSeqFrame(children, sc, path, fns, k);
  }

  lemma {:induction false} VisitSeqFrame(ns: seq<Node>, sc: Scope, path: string, fns: Index, k: string)
    requires k in fns && k !in NamesOf(DefsSeq(ns, sc.cls))
    ensures k in VisitSeq(ns, sc, path, fns)
    ensures VisitSeq(ns, sc, path, fns)[k] == Attribute(sc, k, fns[k], DirectCalleesSeq(ns))
    decreases ns
  {
    if |ns| == 0 {
      assert fns[k].(calls := fns[k].calls) == fns[k];
    } else {
      NamesOfAppend(Defs(ns[0], sc.cls), DefsSeq(ns[1..], sc.cls));
      var fns1 := Visit(ns[0], sc, path, fns);
      VisitFrame(ns[0], sc, path, fns, k);
      VisitSeqFrame(ns[1..], sc, path, fns1, k);
      AddCallsAppend(fns[k].calls, DirectCallees(ns[0]), DirectCalleesSeq(ns[1..]));
    }
  }

  /** Statements that define no function leave the records untouched when they are
      outside every function: calls made outside any function are dropped. */
  lemma OutsideCallsDropped(ns: seq<Node>, sc: Scope, path: string, fns: Index)
    requires sc.fn.None?
    requires DefsSeq(ns, sc.cls) == []
    ensures VisitSeq(ns, sc, path, fns) == fns
  {
    var r := VisitSeq(ns, sc, path, fns);
    forall k | k in fns ensures r[k] == fns[k] {
      VisitSeqFrame(ns, sc, path, fns, k);
    }
  }

  // ----- A definition that occurs once -----

  /** The finished record of definition site `s`: the fresh record with the calls of the
      definition's own body, deduplicated in first-occurrence order. */
  function Finished(s: DefSite, path: string): FunctionInfo
    requires s.def.FunctionDef?
  {
    var info := NewRecord(s.cls, s.def, path);
    if s.QName() != "" then info.(calls := AddCalls([], DirectCalleesSeq(s.def.children)))
    else info
  }

  lemma {:induction false} VisitUnique(n: Node, sc: Scope, path: string, fns: Index, s: DefSite)
    requires s in Defs(n, sc.cls)
    requires Occurrences(Defs(n, sc.cls), s.QName()) == 1
    requires sc.fn != Some(s.QName())
    ensures s.def.FunctionDef?
    ensures s.QName() in Visit(n, sc, path, fns)
    ensures Visit(n, sc, path, fns)[s.QName()] == Finished(s, path)
    decreases n
  {
    var k := s.QName();
    match n
    case ClassDef(name, children) =>
      VisitSeqUnique(children, sc.(cls := Some(name)), path, fns, s);
    case FunctionDef(name, _, _, _, _, children) =>
      var q := Qualify(sc.cls, name);
      var head := DefSite(sc.cls, n);
      var inner := DefsSeq(children, sc.cls);
      OccurrencesAppend([head], inner, k);
      OccurrencesPositive(inner, k);
      var fns' := fns[q := NewRecord(sc.cls, n, path)];
      var sc' := sc.(fn := Some(q));
      if q == k {
        assert Occurrences(inner, k) == 0;
        if s in inner {
          OccurrencesPositive(inner, k);
          assert false;
        }
        assert s == head;
        VisitSeqFrame(children, sc', path, fns', k);
      } else {
        assert s in inner;
        VisitSeqUnique(children, sc', path, fns', s);
      }
    case Call(callee, children) =>
      VisitSeqUnique(children, sc, path, RecordCall(callee, sc, fns), s);
    case Branch(_, children) =>
      VisitSeqUnique(children, sc, path, fns, s);
    case Other(_, children) =>
      VisitSeqUnique(children, sc, path, fns, s);
  }

  lemma {:induction false} VisitSeqUnique(ns: seq<Node>, sc: Scope, path: string, fns: Index, s: DefSite)
    requires s in DefsSeq(ns, sc.cls)
    requires Occurrences(DefsSeq(ns, sc.cls), s.QName()) == 1
    requires sc.fn != Some(s.QName())
    ensures s.def.FunctionDef?
    ensures s.QName() in VisitSeq(ns, sc, path, fns)
    ensures VisitSeq(ns, sc, path, fns)[s.QName()] == Finished(s, path)
    decreases ns
  {
    var k := s.QName();
    var first := Defs(ns[0], sc.cls);
    var rest := DefsSeq(ns[1..], sc.cls);
    OccurrencesAppend(first, rest, k);
    OccurrencesPositive(first, k);
    OccurrencesPositive(rest, k);
    var fns1 := Visit(ns[0], sc, path, fns);
    if s in first {
      VisitUnique(ns[0], sc, path, fns, s);
      VisitSeqFrame(ns[1..], sc, path, fns1, k);
    } else {
      VisitSeqUnique(ns[1..], sc, path, fns1, s);
    }
  }

  // ----- Redefinition -----

  /** The record of `k` after a visit depends on the incoming map only through its entry
      for `k`. */
  lemma {:induction false} VisitLocal(n: Node, sc: Scope, path: string, fns1: Index, fns2: Index, k: string)
    requires AgreeAt(fns1, fns2, k)
    ensures AgreeAt(Visit(n, sc, path, fns1), Visit(n, sc, path, fns2), k)
    decreases n
  {
    match n
    case ClassDef(name, children) =>
      VisitSeqLocal(children, sc.(cls := Some(name)), path, fns1, fns2, k);
    case FunctionDef(name, _, _, _, _, children) =>
      var q := Qualify(sc.cls, name);
      var info := NewRecord(sc.cls, n, path);
      VisitSeqLocal(children, sc.(fn := Some(q)), path, fns1[q := info], fns2[q := info], k);
    case Call(callee, children) =>
      VisitSeqLocal(children, sc, path, RecordCall(callee, sc, fns1), RecordCall(callee, sc, fns2), k);
    case Branch(_, children) =>
      VisitSeqLocal(children, sc, path, fns1, fns2, k);
    case Other(_, children) =>
      VisitSeqLocal(children, sc, path, fns1, fns2, k);
  }

  lemma {:induction false} VisitSeqLocal(ns: seq<Node>, sc: Scope, path: string, fns1: Index, fns2: Index, k: string)
    requires AgreeAt(fns1, fns2, k)
    ensures AgreeAt(VisitSeq(ns, sc, path, fns1), VisitSeq(ns, sc, path, fns2), k)
    decreases ns
  {
    if |ns| > 0 {
      VisitLocal(ns[0], sc, path, fns1, fns2, k);
      VisitSeqLocal(ns[1..], sc, path, Visit(ns[0], sc, path, fns1), Visit(ns[0], sc, path, fns2), k);
    }
  }

  /** When `k` is defined inside `n`, the record of `k` after the visit does not depend on
      the incoming map at all: the definition replaces whatever was there. */
  lemma {:induction false} VisitRedefined(n: Node, sc: Scope, path: string, fns1: Index, fns2: Index, k: string)
    requires k in NamesOf(Defs(n, sc.cls))
    ensures k in Visit(n, sc, path, fns1) && k in Visit(n, sc, path, fns2)
    ensures Visit(n, sc, path, fns1)[k] == Visit(n, sc, path, fns2)[k]
    decreases n
  {
    match n
    case ClassDef(name, children) =>
      VisitSeqRedefined(children, sc.(cls := Some(name)), path, fns1, fns2, k);
    case FunctionDef(name, _, _, _, _, children) =>
      var q := Qualify(sc.cls, name);
      var info := NewRecord(sc.cls, n, path);
      NamesOfAppend([DefSite(sc.cls, n)], DefsSeq(children, sc.cls));
      NamesOfSingle(DefSite(sc.cls, n));
      if q == k {
        VisitSeqLocal(children, sc.(fn := Some(q)), path, fns1[q := info], fns2[q := info], k);
      } else {
        VisitSeqRedefined(children, sc.(fn := Some(q)), path, fns1[q := info], fns2[q := info], k);
      }
    case Call(callee, children) =>
      VisitSeqRedefined(children, sc, path, RecordCall(callee, sc, fns1), RecordCall(callee, sc, fns2), k);
    case Branch(_, children) =>
      VisitSeqRedefined(children, sc, path, fns1, fns2, k);
    case Other(_, children) =>
      VisitSeqRedefined(children, sc, path, fns1, fns2, k);
  }

  lemma {:induction false} VisitSeqRedefined(ns: seq<Node>, sc: Scope, path: string, fns1: Index, fns2: Index, k: string)
    requires k in NamesOf(DefsSeq(ns, sc.cls))
    ensures k in VisitSeq(ns, sc, path, fns1) && k in VisitSeq(ns, sc, path, fns2)
    ensures VisitSeq(ns, sc, path, fns1)[k] == VisitSeq(ns, sc, path, fns2)[k]
    decreases ns
  {
    NamesOfAppend(Defs(ns[0], sc.cls), DefsSeq(ns[1..], sc.cls));
    var m1 := Visit(ns[0], sc, path, fns1);
    var m2 := Visit(ns[0], sc, path, fns2);
    if k in NamesOf(DefsSeq(ns[1..], sc.cls)) {
      VisitSeqRedefined(ns[1..], sc, path, m1, m2, k);
    } else {
      VisitRedefined(ns[0], sc, path, fns1, fns2, k);
      VisitSeqLocal(ns[1..], sc, path, m1, m2, k);
    }
  }

  // ----- Theorems about one file -----

  /** A qualified name defined exactly once in a file gets exactly the record of that
      definition: named by its innermost class only, a method exactly when some class
      encloses it, and calling the callees of its own body (not of nested definitions),
      deduplicated in first-occurrence order. */
  lemma ExtractUniqueDefinition(tree: seq<Node>, path: string, s: DefSite)
    requires s in DefsSeq(tree, None)
    requires Occurrences(DefsSeq(tree, None), s.QName()) == 1
    ensures s.def.FunctionDef?
    ensures s.QName() in Extract(tree, path)
    ensures var info := Extract(tree, path)[s.QName()];
      && info.name == Qualify(s.cls, s.def.name)
      && info.isMethod == s.cls.Some?
      && info.isAsync == s.def.isAsync
      && info.lineNumber == s.def.line
      && info.filePath == path
      && info.summary == NoSummary
      && info.complexity == Complexity.ComplexityOf(s.def)
      && info.sourceCode == (if s.def.segment.Some? && s.def.segment.value != "" then s.def.segment.value
                             else SourceNotAvailable)
      && info.docstring == s.def.docstring
      && info.calls == (if s.QName() == "" then [] else FirstOccurrences(DirectCalleesSeq(s.def.children)))
  {
    VisitSeqUnique(tree, TopLevel, path, map[], s);
    var cs := DirectCalleesSeq(s.def.children);
    AddCallsIsFirstOccurrences([], cs);
    assert [] + cs == cs;
  }

  /** Among siblings in any scope (a module body, a class body, a function body), a later
      definition of a qualified name replaces every earlier one: the siblings before it make
      no difference to that name's record. So a property setter replaces its getter, and the
      last `overload` stub of a class replaces the earlier ones. */
  lemma LaterSiblingRedefines(a: seq<Node>, b: seq<Node>, sc: Scope, path: string, fns: Index, k: string)
    requires k in NamesOf(DefsSeq(b, sc.cls))
    ensures k in VisitSeq(a + b, sc, path, fns) && k in VisitSeq(b, sc, path, fns)
    ensures VisitSeq(a + b, sc, path, fns)[k] == VisitSeq(b, sc, path, fns)[k]
  {
    VisitSeqAppend(a, b, sc, path, fns);
    VisitSeqRedefined(b, sc, path, VisitSeq(a, sc, path, fns), fns, k);
  }

  /** A definition later in the file replaces the record of an earlier definition with the
      same qualified name: what comes before it makes no difference to that record. */
  lemma ExtractRedefinition(a: seq<Node>, b: seq<Node>, path: string, k: string)
    requires k in NamesOf(DefsSeq(b, None))
    ensures k in Extract(a + b, path) && k in Extract(b, path)
    ensures Extract(a + b, path)[k] == Extract(b, path)[k]
  {
    VisitSeqAppend(a, b, TopLevel, path, map[]);
    VisitSeqRedefined(b, TopLevel, path, VisitSeq(a, TopLevel, path, map[]), map[], k);
  }
}
