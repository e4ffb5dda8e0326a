/** Worked examples: the sample program shipped with the analyser (a report generator and a
    small data pipeline), and a pair of functions that call each other. The syntax trees keep
    only the nodes that matter to the analysis: the calls and the branches. */
module Examples {
  import opened Syntax
  import opened Names
  import opened Complexity
  import opened Records
  import opened CallGraph

  // ----- Complexity of two functions of the sample program -----

  /** An expression statement that calls `callee` without arguments. */
  function CallStmt(callee: string): Node {
    Other("Expr", [Call(Some(callee), [])])
  }

  /** `write_report`: a print, the construction of a report, a `for` loop that adds one line
      per item through a method call, and a final method call. */
  function WriteReport(): Node {
    FunctionDef("write_report", false, 42, None, None, [
      CallStmt("print"),
      Other("Assign", [Call(Some("ReportGenerator"), [])]),
      Branch(For, [CallStmt("report.add_line")]),
      CallStmt("report.generate")])
  }

  /** `clean_data`: a print, and a list comprehension that normalises every item. */
  function CleanData(): Node {
    FunctionDef("clean_data", false, 29, None, None, [
      CallStmt("print"),
      Other("Assign", [Other("ListComp", [Call(Some("normalize_string"), []),
                                          Other("comprehension", [])])]),
      Other("Return", [])])
  }

  /** The loop is the only branch of `write_report`. */
  lemma WriteReportComplexity()
    ensures ComplexityOf(WriteReport()) == 2
  {
  }

  /** A comprehension is not a `for` statement: `clean_data` keeps the base complexity. */
  lemma CleanDataComplexity()
    ensures ComplexityOf(CleanData()) == 1
  {
  }

  /** `report.add_line(...)` is recorded as `add_line`, which is not the key
      `ReportGenerator.add_line` of the method it calls. */
  lemma MethodCallRecordedBare(callee: string)
    requires callee == "report.add_line"
    ensures LastSegment(callee) == "add_line"
    ensures LastSegment(callee) != "ReportGenerator.add_line"
  {
    assert callee == "report" + "." + "add_line";
    LastSegmentAfterDot("report", "add_line");
  }

  // ----- The call graph of the sample program -----

  /** A record of the sample program: only the name and the call list matter to the
      search, the other fields hold placeholder values. */
  function SampleRecord(name: string, calls: seq<string>): FunctionInfo {
    FunctionInfo(name, calls, "", "example.py", 1, NoSummary, 0, false, false, None)
  }

  /** The functions of the sample program with the bare names each one calls. The call lists
      are written out by hand from the sample program, not computed by `Extract`. */
  function SampleIndex(): Index {
    map[
      "ReportGenerator.__init__" := SampleRecord("ReportGenerator.__init__", []),
      "ReportGenerator.add_line" := SampleRecord("ReportGenerator.add_line", ["append"]),
      "ReportGenerator.generate" := SampleRecord("ReportGenerator.generate", ["print"]),
      "normalize_string" := SampleRecord("normalize_string", ["lower", "sub"]),
      "clean_data" := SampleRecord("clean_data", ["print", "normalize_string"]),
      "read_data" := SampleRecord("read_data", ["print"]),
      "write_report" := SampleRecord("write_report", ["print", "ReportGenerator", "add_line", "generate"]),
      "process_data" := SampleRecord("process_data", ["print", "read_data", "clean_data", "write_report"]),
      "main" := SampleRecord("main", ["print", "process_data"])]
  }

  /** The pipeline `main` drives. */
  const Pipeline: set<string> :=
    {"main", "process_data", "read_data", "clean_data", "write_report", "normalize_string"}

  /** Called names that have no record: library functions and the bare method names. */
  const Unrecorded: set<string> := {"print", "lower", "sub", "ReportGenerator", "add_line", "generate"}

  /** From `main` with the default bound of 10, the graph is exactly the pipeline; the
      methods of `ReportGenerator` are never reached, because they are called by bare name. */
  lemma SampleReachableFromMain()
    ensures ReachableGraph(SampleIndex(), ["main"], 10).Keys == Pipeline
    ensures "ReportGenerator.add_line" !in ReachableGraph(SampleIndex(), ["main"], 10)
  {
    SampleReach(SampleIndex());
  }

  lemma SampleReach(all: Index)
    requires all == SampleIndex()
    ensures ReachableGraph(all, ["main"], 10).Keys == Pipeline
  {
    SampleClosed(all, Unrecorded);
    SampleUnrecorded(all, Unrecorded);
    SampleChains(all);
    KeysExactly(all, ["main"], 10, Pipeline, Unrecorded);
  }

  /** The pipeline and the names it calls form a call-closed set. */
  lemma SampleClosed(all: Index, others: set<string>)
    requires all == SampleIndex() && others == Unrecorded
    ensures Reach(all, ["main"], 10) <= Pipeline + others
  {
    ClosedSetBoundsReach(all, ["main"], Pipeline + others, 10);
  }

  lemma SampleUnrecorded(all: Index, others: set<string>)
    requires all == SampleIndex() && others == Unrecorded
    ensures forall k :: k in others ==> k !in all
  {
  }

  lemma SampleChains(all: Index)
    requires all == SampleIndex()
    ensures forall k :: k in Pipeline ==> k in Reach(all, ["main"], 10) && k in all
  {
    forall k | k in Pipeline ensures k in Reach(all, ["main"], 10) && k in all {
      SampleChain(all, k);
    }
  }

  /** A call chain from `main` to a pipeline function. */
  function SamplePath(k: string): (path: seq<string>)
    ensures 1 <= |path| <= 4 && path[|path| - 1] == k
  {
    if k == "main" then ["main"]
    else if k == "process_data" then ["main", "process_data"]
    else if k == "normalize_string" then ["main", "process_data", "clean_data", "normalize_string"]
    else ["main", "process_data", k]
  }

  /** Every pipeline function ends a call chain of at most three calls from `main`. */
  lemma SampleChain(all: Index, k: string)
    requires all == SampleIndex() && k in Pipeline
    ensures k in Reach(all, ["main"], 10) && k in all
  {
    SampleCallChain(all, k);
    ChainReaches(all, ["main"], SamplePath(k), 10);
  }

  lemma SampleCallChain(all: Index, k: string)
    requires all == SampleIndex() && k in Pipeline
    ensures CallChain(all, ["main"], SamplePath(k)) && k in all
  {
  }

  /** The key set is `p` when the search stays within `p` and names without a record, and
      reaches all of `p`. */
  lemma KeysExactly(all: Index, entries: seq<string>, d: int, p: set<string>, others: set<string>)
    requires Reach(all, entries, d) <= p + others
    requires forall k :: k in others ==> k !in all
    requires forall k :: k in p ==> k in Reach(all, entries, d) && k in all
    ensures ReachableGraph(all, entries, d).Keys == p
  {
  }

  // ----- Two functions that call each other -----

  function CycleIndex(): Index {
    map["ping" := SampleRecord("ping", ["pong"]), "pong" := SampleRecord("pong", ["ping"])]
  }

  /** The search stops on the cycle: from `ping`, bound 0 keeps `ping` alone, and any
      larger bound adds `pong` and nothing else. */
  lemma CycleReach(all: Index, d: int)
    requires all == CycleIndex() && d >= 1
    ensures ReachableGraph(all, ["ping"], 0).Keys == {"ping"}
    ensures ReachableGraph(all, ["ping"], d).Keys == {"ping", "pong"}
  {
    assert Reach(all, ["ping"], 0) == {"ping"};
    ChainReaches(all, ["ping"], ["ping", "pong"], d);
    ClosedSetBoundsReach(all, ["ping"], {"ping", "pong"}, d);
  }

  /** Running the search itself on the cycle with the default bound. */
  method SearchCycle() returns (graph: Index)
    ensures graph.Keys == {"ping", "pong"}
    ensures graph["ping"].calls == ["pong"] && graph["pong"].calls == ["ping"]
  {
    var order;
    graph, order := BuildCallGraph(CycleIndex(), ["ping"], 10);
    CycleReach(CycleIndex(), 10);
  }
}
