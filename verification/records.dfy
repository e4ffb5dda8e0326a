/** `FunctionInfo`: the record the analysis keeps for one function or method, and the
    invariants every record the extractor builds satisfies. */
module Records {
  import opened Syntax
  import opened CallLists

  /** The summary every record starts with, before any enrichment. */
  const NoSummary := "No AI summary generated."

  datatype FunctionInfo = FunctionInfo(
    name: string,
    calls: seq<string>,
    sourceCode: string,
    filePath: string,
    complexity: int,
    summary: string,
    lineNumber: int,
    isAsync: bool,
    isMethod: bool,
    docstring: Option<string>)

  /** Qualified name to record, as `FunctionCallVisitor.functions` and `all_functions`. */
  type Index = map<string, FunctionInfo>

  /** The record stored under key `k`: named `k`, complexity at least one, and a call list of
      bare (dot-free) names without repetitions. */
  predicate WellFormedRecord(k: string, info: FunctionInfo) {
    && info.name == k
    && info.complexity >= 1
    && NoDup(info.calls)
    && forall c :: c in info.calls ==> '.' !in c
  }

  predicate WellFormed(index: Index) {
    forall k :: k in index ==> WellFormedRecord(k, index[k])
  }
}
