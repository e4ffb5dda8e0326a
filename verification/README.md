# CodeGrapher's analysis core, in Dafny

CodeGrapher reads the Python files of a project and records every function and method in a
`FunctionInfo` record. Each record holds its qualified name, its cyclomatic complexity and the
bare names it calls. The records of all files are merged into one index. A bounded
breadth-first search (`build_call_graph`) then keeps the functions reachable from some entry
points. Finally, the call graph is shaped into diagram data: one node per function and one
edge per call between two graph functions.

This project models that pipeline as pure Dafny functions over an explicit syntax tree. The
search and the diagram loop are methods with loop invariants. The project proves what each
step promises.

| file | module | models |
|---|---|---|
| syntax.dfy | `Syntax` | the part of the Python syntax tree the analysis looks at; `ast.walk` |
| complexity.dfy | `Complexity` | `_calculate_complexity` |
| names.dfy | `Names` | `_get_qualified_name`; the last-segment rule for callee names |
| calllists.dfy | `CallLists` | the duplicate-free `calls` list |
| records.dfy | `Records` | `FunctionInfo` and the invariants every stored record keeps |
| extraction.dfy | `Extraction` | `FunctionCallVisitor`, as a left fold threading a scope and the map |
| extraction_props.dfy | `ExtractionProps` | what one file's extraction promises |
| project.dfy | `Project` | the merge loop of `analyze_project` |
| callgraph.dfy | `CallGraph` | `build_call_graph` and a reference definition of its result |
| diagram.dfy | `Diagram` | `generate_interactive_diagram_data` |
| examples.dfy | `Examples` | the shipped sample program and a two-function cycle as worked cases |

Design decisions:

- The visitor's mutable `current_class` and `current_function` fields become a `Scope` value
  passed down the walk. Visiting a list of siblings is a left fold over the map of records.
  Each constructor's `children` are listed in the order `generic_visit` visits them. So calls
  in decorators and default arguments belong to the decorated definition, as in the source.
- Truthiness is modelled as written: `if self.current_class` and `if self.current_function`
  treat an empty string as false, while `is_method` tests `is not None`.
- The search returns, besides the graph, the order in which it inserted the keys. That is the
  dict iteration order the diagram loop depends on, so `Diagram` takes it as `order`.
- The search's result is specified by `ReachableGraph`, defined level by level (`Reach`), and
  characterised by call chains (`CallChain`). Termination is by the lexicographic measure
  (unprocessed names of a finite universe, queue length).

## Model

| member | source | states |
|---|---|---|
| Syntax.Walk | analyzer_lib.py:61 | the walk of a subtree is non-empty and starts at its root |
| Complexity.CountBranches | analyzer_lib.py:61-63 | the count over the walked nodes is at most their number, and zero exactly when none is an If/While/For/AsyncFor/ExceptHandler/And/Or node |
| Complexity.WalkCount | analyzer_lib.py:61-63 | counting branch nodes along the walk gives the same number as counting them structurally over the tree |
| Complexity.ComplexityOf | analyzer_lib.py:58-64 | complexity is at least 1 and equals 1 plus the number of branch nodes in the whole subtree, nested definitions included |
| Complexity.BranchCountSeqAppend | analyzer_lib.py:61-63 | the branch count of a statement list is the sum over its parts |
| Complexity.TwoIfsOneForGiveFour | analyzer_lib.py:58-64 | a function whose body holds two `if` statements and one `for` loop among branch-free statements has complexity 4: the base 1 plus one per branch |
| Complexity.BaseComplexityIffNoBranch | analyzer_lib.py:60-63 | complexity is 1 exactly when no node of the subtree is a branch node, so Try, With, IfExp and comprehensions add nothing |
| Names.SplitDots | analyzer_lib.py:96 | `split('.')` gives at least one piece, no piece holds a dot, and joining the pieces with dots gives the input back |
| Names.SplitJoin | analyzer_lib.py:96 | splitting dot-joined, dot-free pieces gives the pieces back |
| Names.LastSegment | analyzer_lib.py:96 | the recorded callee name has no dot; it is the whole callee when there is no dot, and otherwise the suffix after the last dot |
| Names.LastSegmentAfterDot | analyzer_lib.py:95-96 | the call `a.m(...)` is recorded as `m` |
| Names.Qualify | analyzer_lib.py:55-56 | the qualified name ends with the function name; it is longer exactly when the class name is truthy, and then it is the class name, a dot and the function name; for dot-free names it holds a dot exactly when qualified |
| Names.QualifySplits | analyzer_lib.py:55-56 | a name qualified by a class splits back into class and function name, an unqualified one stays whole, and its last segment is the function name |
| CallLists.AddCall | analyzer_lib.py:97-98 | appending a callee keeps the list duplicate-free, adds exactly that name, and keeps the earlier list as a prefix |
| CallLists.AddCalls | analyzer_lib.py:97-98 | a run of calls keeps the list duplicate-free, holds exactly the old and the new names, and never reorders the old ones |
| CallLists.FirstOccurrences | analyzer_lib.py:97-98 | the reference list is duplicate-free, has the same elements as the input, and orders them by first occurrence |
| CallLists.AddCallsIsFirstOccurrences | analyzer_lib.py:97-98 | adding callees one by one to a duplicate-free list gives exactly the first occurrences of the whole sequence |
| CallLists.NoDupFirstOccurrences | analyzer_lib.py:97-98 | a duplicate-free list is its own first-occurrence list |
| Extraction.NewRecord | analyzer_lib.py:72-85 | the fresh record of a definition is well formed under its qualified name: named by it, complexity at least 1, a duplicate-free list of dot-free callees |
| Extraction.RecordCall | analyzer_lib.py:92-99 | a call changes only the record of the current function, and only when that name is truthy and has a record; that record keeps its other fields and its earlier calls as a prefix, and gains exactly the callee's last segment; no key is added and well-formed maps stay well formed |
| Extraction.Visit | analyzer_lib.py:66-100 | visiting a node adds exactly the qualified names of the definitions inside it and keeps every record well formed |
| Extraction.VisitSeq | analyzer_lib.py:66-100 | the same for a list of siblings visited left to right |
| Extraction.Extract | analyzer_lib.py:124-125 | one file's map is well formed and its keys are exactly the qualified names of the file's definitions |
| Extraction.Defs | analyzer_lib.py:66-90 | every listed definition site is a function definition |
| ExtractionProps.VisitFrame | analyzer_lib.py:92-100 | a record not redefined inside a node only gains the callees of the current function's own body, and only when it is the current function |
| ExtractionProps.OutsideCallsDropped | analyzer_lib.py:92-93 | statements outside every function that define nothing leave the map unchanged: their calls are dropped |
| ExtractionProps.VisitUnique | analyzer_lib.py:72-100 | a definition that occurs once in a node yields exactly its finished record, whatever the map held before |
| ExtractionProps.VisitLocal | analyzer_lib.py:72-98 | the record of a name after a visit depends on the incoming map only through that name's entry |
| ExtractionProps.VisitRedefined | analyzer_lib.py:76 | when a node defines a name, that name's record after the visit does not depend on the incoming map |
| ExtractionProps.ExtractUniqueDefinition | analyzer_lib.py:72-98 | a name defined once in a file gets the record of that definition: qualified by the innermost class only, a method exactly when a class encloses it, its line, the path of its file (as resolved), async flag, complexity, source segment (or "# Source not available" when it is missing or empty), docstring, and the callees of its own body (not of nested definitions) in first-occurrence order |
| ExtractionProps.ExtractRedefinition | analyzer_lib.py:73-76 | a definition of a qualified name in a later top-level statement of the file replaces every earlier one |
| ExtractionProps.LaterSiblingRedefines | analyzer_lib.py:66-76 | in any list of siblings (module body, class body, function body), a later definition of a qualified name replaces every earlier one, so a property setter or a later overload stub in one class body wins |
| Project.FileFunctions | analyzer_lib.py:121-128 | a file's map is well formed, and empty when reading or parsing it failed |
| Project.UpdateAll | analyzer_lib.py:126 | folding `dict.update`: a key is present iff some map has it, its value comes from the last map having it, and well-formed maps give a well-formed result |
| Project.UpdateAllSnoc | analyzer_lib.py:126 | one more `update` merges the new map over the result so far |
| Project.AnalyzeProject | analyzer_lib.py:119-130 | the merged index is well formed (every key is its record's name), holds exactly the names some file defines, and each record comes from the last file defining that name |
| Project.UpdateAllSkipsEmpty | analyzer_lib.py:126-128 | an empty map anywhere in the fold changes nothing |
| Project.SkippedFileContributesNothing | analyzer_lib.py:120-128 | a file that fails to read or parse leaves the result as if it had not been found |
| Project.LastFileWins | analyzer_lib.py:120-126 | the records of the last file merged are kept unchanged |
| CallGraph.InitialQueue | analyzer_lib.py:134 | the starting queue holds every entry point that has a record, at depth 0, and nothing else |
| CallGraph.Pending | analyzer_lib.py:142-143 | the items appended after an expansion are exactly the callees not yet processed, at the next depth |
| CallGraph.BuildCallGraph | analyzer_lib.py:132-144 | the search terminates on every input, cycles included; the graph equals the reference reachable graph, is a sub-map of the index, and its insertion order lists each key once |
| CallGraph.Advance | analyzer_lib.py:136-143 | one loop turn keeps the loop invariant and decreases (unprocessed names, queue length) lexicographically |
| CallGraph.ReachMono | analyzer_lib.py:138 | raising the depth bound only adds reachable names |
| CallGraph.ChainReaches | analyzer_lib.py:136-143 | the end of a call chain of n calls from an entry point is reached within any bound of at least n |
| CallGraph.ReachedByChain | analyzer_lib.py:136-143 | every name reached within d calls ends a call chain of at most d calls |
| CallGraph.ReachableIffChain | analyzer_lib.py:132-144 | a name is in the graph iff it has a record and ends a call chain of at most `max_depth` calls from an entry point |
| CallGraph.EntriesIncluded | analyzer_lib.py:134-141 | with a non-negative bound every entry point that has a record is in the graph, with its own record |
| CallGraph.EmptyIffNoEntry | analyzer_lib.py:134-141 | with a non-negative bound the graph is empty iff no entry point has a record; with a negative bound it is empty |
| CallGraph.ClosedSetBoundsReach | analyzer_lib.py:140-143 | a set holding the entry points and closed under the calls of its members bounds the search at every depth |
| CallGraph.DepthMonotone | analyzer_lib.py:138 | a larger bound gives a graph that contains the smaller one |
| Diagram.MaxComplexity | analyzer_lib.py:183-185 | the normaliser is at least 1 (also for an empty graph), bounds every complexity, and is attained unless it is 1 |
| Diagram.NodeSize | analyzer_lib.py:190 | the size lies in [20, 50], and is the unclamped `c / max * 30 + 20` when 0 <= c <= max |
| Diagram.NodeSizeMonotone | analyzer_lib.py:190 | the size grows with complexity; the most complex function gets 50 and complexity 0 gets 20 |
| Diagram.Shape | analyzer_lib.py:198 | the shape is `diamond` iff the function is async, otherwise `box` |
| Diagram.NodeFor | analyzer_lib.py:187-199 | the node of a record has the key as id and label, the record's summary as title and its source text, a size clamped to [20, 50] that follows the scaling formula for complexities within [0, max], and the diamond shape exactly for a coroutine |
| Diagram.TargetsIn | analyzer_lib.py:200-201 | a callee is kept iff it is in the graph, and no more names are kept than there are calls |
| Diagram.EdgesFrom | analyzer_lib.py:200-202 | a caller's edges go from it to exactly its callees that are in the graph |
| Diagram.NodesOf | analyzer_lib.py:187-199 | one node per listed key, in iteration order: its id and label are the key, its title and source text come from the record, its size lies in [20, 50], and it is a diamond exactly for a coroutine |
| Diagram.EdgesOf | analyzer_lib.py:187-202 | an edge is present iff its caller is listed, its callee is in the graph and the caller calls it |
| Diagram.DiagramOf | analyzer_lib.py:178-203 | one node per key with id = label = key, title = summary, its source code, a size in [20, 50] and the async shape; an edge iff both ends are in the graph and the caller calls the callee |
| Diagram.GenerateDiagram | analyzer_lib.py:178-203 | the source's single loop produces exactly the reference diagram |
| Diagram.AppendEdges | analyzer_lib.py:200-202 | the inner loop appends one edge per callee in the graph, in call order |
| Diagram.OneNodePerKey | analyzer_lib.py:187-194 | there is a node for every graph key and for nothing else, and node ids are pairwise distinct |
| Diagram.EdgesJoinNodes | analyzer_lib.py:200-202 | both ends of every edge are node ids |
| Diagram.OutgoingFollowsCalls | analyzer_lib.py:200-202 | the edges leaving a caller are its callees in the graph, in its `calls` order |
| Examples.WriteReportComplexity | examples/example.py:42-48 | `write_report` has complexity 2: its `for` loop is its only branch |
| Examples.CleanDataComplexity | examples/example.py:29-33 | `clean_data` has complexity 1: a comprehension is not a `for` statement |
| Examples.MethodCallRecordedBare | examples/example.py:47 | `report.add_line(...)` is recorded as `add_line`, not as the method's key `ReportGenerator.add_line` |
| Examples.SampleReachableFromMain | examples/example.py:1-68 | from `main` with the default bound 10 the graph is exactly {main, process_data, read_data, clean_data, write_report, normalize_string}, and no `ReportGenerator` method is in it |
| Examples.CycleReach | analyzer_lib.py:136-143 | on two functions calling each other, bound 0 keeps the entry alone and every larger bound keeps both |
| Examples.SearchCycle | analyzer_lib.py:132-144 | running the search on the cycle terminates with both functions in the graph, each with its call to the other |

## Left out

- `_get_python_files` (analyzer_lib.py:102-111) is not modelled. It globs the file system and calls a third-party `.gitignore` parser. The discovered files are the input of `Project.AnalyzeProject`.
- Reading files and the parser are not modelled: `open`, `ast.parse`, `ast.unparse`, `ast.get_source_segment` and `ast.get_docstring` (analyzer_lib.py:78, 84, 95, 122-125). The parsed tree, the unparsed callee text and the source segment are inputs. A file that fails to read or parse is a `SourceFile` without a tree. A callee whose unparsing raises is a `Call` with callee `None`.
- `Path.resolve()` (analyzer_lib.py:79) is not modelled: it is a file-system call. `SourceFile.path` stands for its result, the absolute path with symbolic links followed, and every record of the file stores that text.
- The log strings (analyzer_lib.py:115-117, 128) are not modelled. They are presentation only.
- The final `asdict` conversion (analyzer_lib.py:130) is not modelled; records stay datatypes.
- `AIDocumenter` and `enrich_with_ai_summaries_async` (analyzer_lib.py:147-176) are not modelled: they are a network client run on a thread pool. Every record keeps the initial summary "No AI summary generated.".
- `app.py` is not modelled. It is an HTTP handler. It calls `enrich_with_ai_summaries`, which `analyzer_lib.py` does not define; only the `_async` variant exists.
- An empty list of entry points is rejected in `app.py`, not in `build_call_graph`. The model follows the library: an empty start set gives an empty graph (`CallGraph.EmptyIffNoEntry`).
- Diagram.NodeSize: computes with exact `real` arithmetic instead of IEEE doubles. The clamp bounds and the unclamped formula hold exactly; rounding of the size is not modelled.
- The `.get('complexity', 0)`, `.get('summary', '')` and `.get('is_async')` defaults in the diagram code (analyzer_lib.py:183, 188, 195, 198) never apply. Every record has these fields, so the model reads them directly.
- Syntax.Walk: lists the subtree depth-first, while `ast.walk` goes breadth-first. Only the count of branch nodes depends on the walk, and it does not depend on the order.
- The syntax tree keeps only ClassDef, FunctionDef/AsyncFunctionDef, Call, the seven counted branch kinds and a generic node. Lambdas are generic nodes, as the visitor gives them no record.
- The sample program's index in `Examples` (`SampleIndex`) is written out by hand from example.py, not computed by `Extract` from a syntax tree, so `Examples.SampleReachableFromMain` is a fact about that hand-written index. Its records hold real names and call lists only; their other fields are placeholders, as the search does not read them.
