/** `generate_interactive_diagram_data`: one node per function of the call graph, sized by
    its complexity relative to the most complex one, and one edge per call whose callee is
    itself in the graph. The graph's iteration order is passed in explicitly as `order`. */
module Diagram {
  import opened Records
  import opened CallLists

  const MinSize: real := 20.0
  const MaxSize: real := 50.0

  /** One node entry; `caption` is the entry the source calls `label`. */
  datatype DiagramNode = DiagramNode(
    id: string,
    caption: string,
    title: string,
    sourceCode: string,
    size: real,
    shape: string)

  datatype Edge = Edge(from: string, to: string)

  datatype Diagram = Diagram(nodes: seq<DiagramNode>, edges: seq<Edge>)

  /** The graph's keys in iteration order: each key once, and nothing else. */
  ghost predicate Listing(order: seq<string>, graph: Index) {
    NoDup(order) && forall k :: k in order <==> k in graph
  }

  // ----- Node attributes -----

  /** `max_complexity`: the largest complexity in the graph, but never below one, so that
      dividing by it is always defined (an empty graph gives one). */
  function MaxComplexity(order: seq<string>, graph: Index): (m: int)
    requires forall k :: k in order ==> k in graph
    ensures m >= 1
    ensures forall k :: k in order ==> graph[k].complexity <= m
    ensures m == 1 || exists k :: k in order && graph[k].complexity == m
  {
    if |order| == 0 then 1
    else
      var rest := MaxComplexity(order[1..], graph);
      assert forall k :: k in order ==> k == order[0] || k in order[1..];
      if graph[order[0]].complexity > rest then graph[order[0]].complexity else rest
  }

  /** The node size: the complexity scaled into 20..50 relative to `maxC`, clamped. */
  function NodeSize(complexity: int, maxC: int): (size: real)
    requires maxC >= 1
    ensures MinSize <= size <= MaxSize
    ensures 0 <= complexity <= maxC ==>
      size == complexity as real / maxC as real * 30.0 + MinSize
  {
    var scaled := complexity as real / maxC as real * 30.0 + MinSize;
    if scaled < MinSize then MinSize
    else if scaled > MaxSize then MaxSize
    else scaled
  }

  /** `'diamond'` for a coroutine, `'box'` otherwise. */
  function Shape(isAsync: bool): (shape: string)
    ensures shape == "diamond" <==> isAsync
    ensures shape == "diamond" || shape == "box"
  {
    if isAsync then "diamond" else "box"
  }

  /** The node entry of the record `info` stored under `k`, for the largest complexity `maxC`. */
  function NodeFor(k: string, info: FunctionInfo, maxC: int): (n: DiagramNode)
    requires maxC >= 1
    ensures n.id == k && n.caption == k
    ensures n.title == info.summary && n.sourceCode == info.sourceCode
    ensures MinSize <= n.size <= MaxSize
    ensures 0 <= info.complexity <= maxC ==>
      n.size == info.complexity as real / maxC as real * 30.0 + MinSize
    ensures n.shape == "diamond" <==> info.isAsync
  {
    DiagramNode(k, k, info.summary, info.sourceCode, NodeSize(info.complexity, maxC), Shape(info.isAsync))
  }

  // ----- Reference definitions of the nodes and edges -----

  /** The callees of one record that are themselves in the graph, in call order. */
  function TargetsIn(calls: seq<string>, graph: Index): (ts: seq<string>)
    ensures forall c :: c in ts <==> c in calls && c in graph
    ensures |ts| <= |calls|
  {
    if |calls| == 0 then []
    else
      var rest := TargetsIn(calls[1..], graph);
      assert forall c :: c in calls <==> c == calls[0] || c in calls[1..] by {
        assert calls == [calls[0]] + calls[1..];
      }
      if calls[0] in graph then [calls[0]] + rest else rest
  }

  /** One edge from `k` to each of `ts`, in order. */
  function EdgesTo(k: string, ts: seq<string>): (es: seq<Edge>)
    ensures |es| == |ts|
    ensures forall i :: 0 <= i < |ts| ==> es[i] == Edge(k, ts[i])
  {
    seq(|ts|, i requires 0 <= i < |ts| => Edge(k, ts[i]))
  }

  /** The edges drawn for the record of `k`. */
  function EdgesFrom(k: string, graph: Index): (es: seq<Edge>)
    requires k in graph
    ensures forall e :: e in es <==> e.from == k && e.to in graph && e.to in graph[k].calls
  {
    var ts := TargetsIn(graph[k].calls, graph);
    var es := EdgesTo(k, ts);
    assert forall e :: e in es <==> e.from == k && e.to in ts by {
      forall e: Edge | e.from == k && e.to in ts ensures e in es {
        var i :| 0 <= i < |ts| && ts[i] == e.to;
        assert es[i] == e;
      }
    }
    es
  }

  function NodesOf(order: seq<string>, graph: Index, maxC: int): (ns: seq<DiagramNode>)
    requires maxC >= 1 && forall k :: k in order ==> k in graph
    ensures |ns| == |order|
    ensures forall i :: 0 <= i < |order| ==> ns[i] == NodeFor(order[i], graph[order[i]], maxC)
    ensures forall i :: 0 <= i < |order| ==>
      var info := graph[order[i]];
      && ns[i].id == order[i] && ns[i].caption == order[i]
      && ns[i].title == info.summary && ns[i].sourceCode == info.sourceCode
      && MinSize <= ns[i].size <= MaxSize
      && (ns[i].shape == "diamond" <==> info.isAsync)
  {
    seq(|order|, i requires 0 <= i < |order| => NodeFor(order[i], graph[order[i]], maxC))
  }

  /** All edges, caller by caller in iteration order. */
  function EdgesOf(order: seq<string>, graph: Index): (es: seq<Edge>)
    requires forall k :: k in order ==> k in graph
    ensures forall e :: e in es <==>
      e.from in order && e.to in graph && e.to in graph[e.from].calls
  {
    if |order| == 0 then []
    else
      assert forall x :: x in order <==> x == order[0] || x in order[1..] by {
        assert order == [order[0]] + order[1..];
      }
      EdgesFrom(order[0], graph) + EdgesOf(order[1..], graph)
  }

  /** The diagram data: nodes and edges as the source builds them. */
  function DiagramOf(order: seq<string>, graph: Index): (d: Diagram)
    requires Listing(order, graph)
    ensures |d.nodes| == |order|
    ensures forall i :: 0 <= i < |order| ==>
      && d.nodes[i].id == order[i] && d.nodes[i].caption == order[i]
      && d.nodes[i].title == graph[order[i]].summary
      && d.nodes[i].sourceCode == graph[order[i]].sourceCode
      && MinSize <= d.nodes[i].size <= MaxSize
      && (d.nodes[i].shape == "diamond" <==> graph[order[i]].isAsync)
    ensures forall e :: e in d.edges <==>
      e.from in graph && e.to in graph && e.to in graph[e.from].calls
  {
    var maxC := MaxComplexity(order, graph);
    Diagram(NodesOf(order, graph, maxC), EdgesOf(order, graph))
  }

  // ----- The loop of the source -----

  /** `generate_interactive_diagram_data` as written: one pass over the graph that appends
      the node of each function and then its edges. */
  method GenerateDiagram(order: seq<string>, graph: Index) returns (d: Diagram)
    requires Listing(order, graph)
    ensures d == DiagramOf(order, graph)
  {
    var maxC := MaxComplexity(order, graph);
    var nodes: seq<DiagramNode> := [];
    var edges: seq<Edge> := [];
    var i := 0;
    while i < |order|
      invariant 0 <= i <= |order|
      invariant nodes == NodesOf(order[..i], graph, maxC)
      invariant edges == EdgesOf(order[..i], graph)
    {
      var k := order[i];
      DiagramStep(order, i, graph, maxC);
      nodes := nodes + [NodeFor(k, graph[k], maxC)];
      edges := AppendEdges(k, graph[k].calls, graph, edges);
      i := i + 1;
    }
    DiagramDone(order, graph);
    d := Diagram(nodes, edges);
  }

  lemma DiagramStep(order: seq<string>, i: int, graph: Index, maxC: int)
    requires 0 <= i < |order| && maxC >= 1 && forall x :: x in order ==> x in graph
    ensures NodesOf(order[..i + 1], graph, maxC)
            == NodesOf(order[..i], graph, maxC) + [NodeFor(order[i], graph[order[i]], maxC)]
    ensures EdgesOf(order[..i + 1], graph)
            == EdgesOf(order[..i], graph) + EdgesTo(order[i], TargetsIn(graph[order[i]].calls, graph))
  {
    assert order[..i + 1] == order[..i] + [order[i]];
    NodesOfSnoc(order[..i], order[i], graph, maxC);
    EdgesOfSnoc(order[..i], order[i], graph);
  }

  lemma DiagramDone(order: seq<string>, graph: Index)
    requires Listing(order, graph)
    ensures DiagramOf(order, graph)
      == Diagram(NodesOf(order[..|order|], graph, MaxComplexity(order, graph)), EdgesOf(order[..|order|], graph))
  {
    assert order[..|order|] == order;
  }

  /** The inner loop: an edge from `k` for each of `calls` that is a key of the graph. */
  method AppendEdges(k: string, calls: seq<string>, graph: Index, edges: seq<Edge>)
    returns (edges': seq<Edge>)
    ensures edges' == edges + EdgesTo(k, TargetsIn(calls, graph))
  {
    edges' := edges;
    var j := 0;
    while j < |calls|
      invariant 0 <= j <= |calls|
      invariant edges' == edges + EdgesTo(k, TargetsIn(calls[..j], graph))
    {
      TargetsInSnoc(calls[..j], calls[j], graph);
      assert calls[..j + 1] == calls[..j] + [calls[j]];
      if calls[j] in graph {
        EdgesToAppend(k, TargetsIn(calls[..j], graph), [calls[j]]);
        edges' := edges' + [Edge(k, calls[j])];
      }
      j := j + 1;
    }
    assert calls[..j] == calls;
  }

  lemma NodesOfSnoc(order: seq<string>, k: string, graph: Index, maxC: int)
    requires maxC >= 1 && forall x :: x in order + [k] ==> x in graph
    ensures NodesOf(order + [k], graph, maxC) == NodesOf(order, graph, maxC) + [NodeFor(k, graph[k], maxC)]
  {
  }

  lemma TargetsInSnoc(calls: seq<string>, c: string, graph: Index)
    ensures TargetsIn(calls + [c], graph) == TargetsIn(calls, graph) + (if c in graph then [c] else [])
    decreases |calls|
  {
    if |calls| == 0 {
      assert [] + [c] == [c];
    } else {
      assert (calls + [c])[1..] == calls[1..] + [c];
      TargetsInSnoc(calls[1..], c, graph);
    }
  }

  lemma EdgesToAppend(k: string, a: seq<string>, b: seq<string>)
    ensures EdgesTo(k, a + b) == EdgesTo(k, a) + EdgesTo(k, b)
  {
  }

  lemma {:induction false} EdgesOfSnoc(order: seq<string>, k: string, graph: Index)
    requires forall x :: x in order + [k] ==> x in graph
    ensures EdgesOf(order + [k], graph) == EdgesOf(order, graph) + EdgesFrom(k, graph)
    decreases |order|
  {
    if |order| == 0 {
      assert [] + [k] == [k];
      assert [k][1..] == [];
    } else {
      assert (order + [k])[1..] == order[1..] + [k];
      EdgesOfSnoc(order[1..], k, graph);
    }
  }

  // ----- Properties of the diagram -----

  /** There is exactly one node per function of the graph, identified by its name. */
  lemma OneNodePerKey(order: seq<string>, graph: Index)
    requires Listing(order, graph)
    ensures var d := DiagramOf(order, graph);
      && (forall k :: k in graph <==> exists i :: 0 <= i < |d.nodes| && d.nodes[i].id == k)
      && (forall i, j :: 0 <= i < j < |d.nodes| ==> d.nodes[i].id != d.nodes[j].id)
  {
    var d := DiagramOf(order, graph);
    forall k | k in graph ensures exists i :: 0 <= i < |d.nodes| && d.nodes[i].id == k {
      var i :| 0 <= i < |order| && order[i] == k;
      assert d.nodes[i].id == k;
    }
  }

  /** Every edge starts and ends at a node. */
  lemma EdgesJoinNodes(order: seq<string>, graph: Index)
    requires Listing(order, graph)
    ensures var d := DiagramOf(order, graph);
      forall e :: e in d.edges ==>
        && (exists i :: 0 <= i < |d.nodes| && d.nodes[i].id == e.from)
        && (exists j :: 0 <= j < |d.nodes| && d.nodes[j].id == e.to)
  {
    var d := DiagramOf(order, graph);
    OneNodePerKey(order, graph);
    forall e | e in d.edges
      ensures exists i :: 0 <= i < |d.nodes| && d.nodes[i].id == e.from
      ensures exists j :: 0 <= j < |d.nodes| && d.nodes[j].id == e.to
    {
      assert e.from in graph && e.to in graph;
    }
  }

  /** The edges leaving `k`, in the order they appear. */
  function Outgoing(es: seq<Edge>, k: string): (out: seq<Edge>)
    ensures forall e :: e in out <==> e in es && e.from == k
  {
    if |es| == 0 then []
    else
      assert forall e :: e in es <==> e == es[0] || e in es[1..] by {
        assert es == [es[0]] + es[1..];
      }
      (if es[0].from == k then [es[0]] else []) + Outgoing(es[1..], k)
  }

  lemma {:induction false} OutgoingAppend(a: seq<Edge>, b: seq<Edge>, k: string)
    ensures Outgoing(a + b, k) == Outgoing(a, k) + Outgoing(b, k)
    decreases |a|
  {
    if |a| == 0 {
      assert a + b == b;
    } else {
      assert (a + b)[0] == a[0];
      assert (a + b)[1..] == a[1..] + b;
      OutgoingAppend(a[1..], b, k);
    }
  }

  lemma {:induction false} OutgoingEdgesTo(j: string, ts: seq<string>, k: string)
    ensures Outgoing(EdgesTo(j, ts), k) == if j == k then EdgesTo(j, ts) else []
    decreases |ts|
  {
    if |ts| > 0 {
      assert EdgesTo(j, ts) == [Edge(j, ts[0])] + EdgesTo(j, ts[1..]);
      OutgoingAppend([Edge(j, ts[0])], EdgesTo(j, ts[1..]), k);
      OutgoingEdgesTo(j, ts[1..], k);
    }
  }

  /** The edges of one caller form one contiguous run in the order of its call list: one
      edge per callee that is in the graph. A name outside the listing has no edges. */
  lemma {:induction false} OutgoingFollowsCalls(order: seq<string>, graph: Index, k: string)
    requires NoDup(order) && forall x :: x in order ==> x in graph
    ensures Outgoing(EdgesOf(order, graph), k)
      == if k in order then EdgesTo(k, TargetsIn(graph[k].calls, graph)) else []
    decreases |order|
  {
    if |order| > 0 {
      var j := order[0];
      OutgoingAppend(EdgesFrom(j, graph), EdgesOf(order[1..], graph), k);
      OutgoingEdgesTo(j, TargetsIn(graph[j].calls, graph), k);
      NoDupTail(order);
      OutgoingFollowsCalls(order[1..], graph, k);
    }
  }

  /** The rest of a duplicate-free list is duplicate-free and lacks its first element. */
  lemma NoDupTail(order: seq<string>)
    requires NoDup(order) && |order| > 0
    ensures NoDup(order[1..]) && order[0] !in order[1..]
    ensures forall x :: x in order <==> x == order[0] || x in order[1..]
  {
    assert order == [order[0]] + order[1..];
    forall a, b | 0 <= a < b < |order[1..]| ensures order[1..][a] != order[1..][b] {
      assert order[1..][a] == order[a + 1] && order[1..][b] == order[b + 1];
    }
    forall a | 0 <= a < |order[1..]| ensures order[1..][a] != order[0] {
      assert order[1..][a] == order[a + 1];
    }
  }

  /** A more complex function never gets a smaller node; a function as complex as the
      maximum gets the largest size, and one of complexity zero the smallest. */
  lemma NodeSizeMonotone(c1: int, c2: int, maxC: int)
    requires maxC >= 1 && c1 <= c2
    ensures NodeSize(c1, maxC) <= NodeSize(c2, maxC)
    ensures NodeSize(maxC, maxC) == MaxSize && NodeSize(0, maxC) == MinSize
  {
    var m := maxC as real;
    DivMonotone(c1 as real, c2 as real, m);
    assert maxC as real / m == 1.0;
  }

  lemma DivMonotone(x: real, y: real, m: real)
    requires x <= y && m > 0.0
    ensures x / m <= y / m
  {
    var a, b := x / m, y / m;
    assert a * m == x && b * m == y;
  }
}
