/** `build_call_graph`: breadth-first search from the entry points over the recorded calls,
    bounded by a maximum call-chain depth, keeping the record of every name it reaches. */
module CallGraph {
  import opened Records
  import opened CallLists

  /** A queue entry: a name and the call-chain depth at which it was discovered. */
  type Item = (string, int)

  // ----- Reference definition of the reachable set -----

  /** The names called by those names of `s` that have a record. */
  function Step(all: Index, s: set<string>): set<string> {
    set f, c | f in s && f in all && c in all[f].calls :: c
  }

  /** The names at most `d` calls away from an entry point that has a record. Only names that
      have a record are followed further; for a negative `d` nothing is reached. */
  function Reach(all: Index, entries: seq<string>, d: int): set<string>
    decreases d
  {
    if d < 0 then {}
    else if d == 0 then set e | e in entries && e in all
    else
      var r := Reach(all, entries, d - 1);
      r + Step(all, r)
  }

  /** The call graph `build_call_graph` should return: the records of all functions at most
      `maxDepth` calls away from an entry point, unchanged. */
  function ReachableGraph(all: Index, entries: seq<string>, maxDepth: int): Index {
    map k | k in all && k in Reach(all, entries, maxDepth) :: all[k]
  }

  /** Every name some record calls. */
  function Callees(all: Index): set<string> {
    set f, c | f in all && c in all[f].calls :: c
  }

  // ----- The search -----

  /** The starting queue: every entry point that has a record, at depth 0, in order. */
  function InitialQueue(all: Index, entries: seq<string>): (q: seq<Item>)
    ensures forall i :: 0 <= i < |q| ==> q[i].1 == 0 && q[i].0 in entries && q[i].0 in all
    ensures forall e :: e in entries && e in all ==> (e, 0) in q
  {
    if |entries| == 0 then []
    else
      var rest := InitialQueue(all, entries[1..]);
      assert forall e :: e in entries ==> e == entries[0] || e in entries[1..];
      if entries[0] in all then [(entries[0], 0)] + rest else rest
  }

  /** The queue entries appended after expanding a name: each callee not yet processed, at
      depth `d`, in call order. */
  function Pending(calls: seq<string>, processed: set<string>, d: int): (items: seq<Item>)
    ensures forall i :: 0 <= i < |items| ==>
      items[i].1 == d && items[i].0 in calls && items[i].0 !in processed
    ensures forall c :: c in calls && c !in processed ==> (c, d) in items
  {
    if |calls| == 0 then []
    else
      var rest := Pending(calls[1..], processed, d);
      assert forall c :: c in calls ==> c == calls[0] || c in calls[1..];
      if calls[0] !in processed then [(calls[0], d)] + rest else rest
  }

  /** `build_call_graph(all_functions, entry_points, max_depth)`. The search terminates on
      every input, cycles included, and returns exactly the records of the names at most
      `maxDepth` calls from an entry point. `order` lists the graph's keys in the order they
      were added (each name is expanded at most once). */
  method BuildCallGraph(all: Index, entries: seq<string>, maxDepth: int)
    returns (graph: Index, order: seq<string>)
    ensures graph == ReachableGraph(all, entries, maxDepth)
    ensures forall k :: k in graph ==> k in all && graph[k] == all[k]
    ensures NoDup(order)
    ensures forall k :: k in order <==> k in graph
  {
    graph := map[];
    order := [];
    var queue := InitialQueue(all, entries);
    var processed: set<string> := {};
    ghost var levels: map<string, int> := map[];
    ghost var universe := all.Keys + Callees(all);
    InitialInv(all, entries, maxDepth);
    while |queue| > 0
      invariant LoopInv(all, entries, maxDepth, universe, queue, processed, levels, graph, order)
      decreases |universe - processed|, |queue|
    {
      queue, processed, graph, order, levels :=
        Advance(all, entries, maxDepth, universe, queue, processed, graph, order, levels);
    }
    SearchComplete(all, entries, maxDepth, graph, processed, levels);
  }

  /** One turn of the search loop: pop the head of the queue and skip or expand it. */
  method Advance(all: Index, ghost entries: seq<string>, maxDepth: int, ghost universe: set<string>,
                 queue: seq<Item>, processed: set<string>, graph: Index, order: seq<string>,
                 ghost levels: map<string, int>)
    returns (queue': seq<Item>, processed': set<string>, graph': Index, order': seq<string>,
             ghost levels': map<string, int>)
    requires |queue| > 0
    requires LoopInv(all, entries, maxDepth, universe, queue, processed, levels, graph, order)
    ensures LoopInv(all, entries, maxDepth, universe, queue', processed', levels', graph', order')
    ensures |universe - processed'| < |universe - processed|
         || (|universe - processed'| == |universe - processed| && |queue'| < |queue|)
  {
    var name, depth := queue[0].0, queue[0].1;
    queue', processed', graph', order', levels' := queue[1..], processed, graph, order, levels;
    if name in processed || depth > maxDepth {
      SkipPreserves(all, entries, maxDepth, universe, queue, processed, levels, graph, order, queue');
    } else {
      processed' := processed + {name};
      levels' := levels[name := depth];
      if name in all {
        graph' := graph[name := all[name]];
        order' := order + [name];
        queue' := queue' + Pending(all[name].calls, processed', depth + 1);
        ExpandFound(all, entries, maxDepth, universe, queue, processed, levels, graph, order, depth + 1,
                    queue', processed', levels', graph', order');
      } else {
        ExpandMissing(all, entries, maxDepth, universe, queue, processed, levels, graph, order,
                      queue', processed', levels');
      }
    }
  }

  /** The loop invariant of the search, together with the bookkeeping of the result. */
  ghost predicate LoopInv(all: Index, entries: seq<string>, maxDepth: int, universe: set<string>,
                          queue: seq<Item>, processed: set<string>, levels: map<string, int>,
                          graph: Index, order: seq<string>) {
    && universe == all.Keys + Callees(all)
    && Inv(all, entries, maxDepth, queue, processed, levels)
    && GraphOf(all, graph, processed)
    && NoDup(order)
    && (forall k :: k in order <==> k in graph)
    && processed <= universe
    && (forall i :: 0 <= i < |queue| ==> queue[i].0 in universe)
  }

  /** `graph` holds the record of exactly the processed names that have one. */
  ghost predicate GraphOf(all: Index, graph: Index, processed: set<string>) {
    && (forall k :: k in graph <==> k in processed && k in all)
    && (forall k :: k in graph ==> graph[k] == all[k])
  }

  lemma SkipPreserves(all: Index, entries: seq<string>, maxDepth: int, universe: set<string>,
                      q: seq<Item>, processed: set<string>, levels: map<string, int>,
                      graph: Index, order: seq<string>, q': seq<Item>)
    requires LoopInv(all, entries, maxDepth, universe, q, processed, levels, graph, order)
    requires |q| > 0 && (q[0].0 in processed || q[0].1 > maxDepth)
    requires q' == q[1..]
    ensures LoopInv(all, entries, maxDepth, universe, q', processed, levels, graph, order)
  {
    SkipKeepsInv(all, entries, maxDepth, q, processed, levels);
  }

  /** Expanding a name that has a record: it is processed, its record joins the graph and
      the order, and its unprocessed callees are queued one level deeper. */
  lemma ExpandFound(all: Index, entries: seq<string>, maxDepth: int, universe: set<string>,
                    q: seq<Item>, processed: set<string>, levels: map<string, int>,
                    graph: Index, order: seq<string>, next: int,
                    q': seq<Item>, p': set<string>, l': map<string, int>, g': Index, o': seq<string>)
    requires LoopInv(all, entries, maxDepth, universe, q, processed, levels, graph, order)
    requires |q| > 0 && q[0].0 !in processed && q[0].1 <= maxDepth && q[0].0 in all
    requires next == q[0].1 + 1
    requires p' == processed + {q[0].0} && l' == levels[q[0].0 := q[0].1]
    requires g' == graph[q[0].0 := all[q[0].0]] && o' == order + [q[0].0]
    requires q' == q[1..] + Pending(all[q[0].0].calls, p', next)
    ensures LoopInv(all, entries, maxDepth, universe, q', p', l', g', o')
    ensures |universe - p'| < |universe - processed|
  {
    var f := q[0].0;
    var added := Pending(all[f].calls, p', q[0].1 + 1);
    MakeExpandStep(all, maxDepth, q, processed, levels);
    ExpandKeepsInv(all, entries, maxDepth, q, processed, levels, added, q[1..] + added, p', levels[f := q[0].1]);
    GraphGrows(all, graph, order, processed, f);
    CalleesInUniverse(all, universe, f, q, added);
    FewerUnprocessed(universe, processed, f);
  }

  /** Expanding a name without a record: it is only marked processed. */
  lemma ExpandMissing(all: Index, entries: seq<string>, maxDepth: int, universe: set<string>,
                      q: seq<Item>, processed: set<string>, levels: map<string, int>,
                      graph: Index, order: seq<string>,
                      q': seq<Item>, p': set<string>, l': map<string, int>)
    requires LoopInv(all, entries, maxDepth, universe, q, processed, levels, graph, order)
    requires |q| > 0 && q[0].0 !in processed && q[0].1 <= maxDepth && q[0].0 !in all
    requires q' == q[1..] && p' == processed + {q[0].0} && l' == levels[q[0].0 := q[0].1]
    ensures LoopInv(all, entries, maxDepth, universe, q', p', l', graph, order)
    ensures |universe - p'| < |universe - processed|
  {
    MakeExpandStep(all, maxDepth, q, processed, levels);
    assert q' == q[1..] + [];
    ExpandKeepsInv(all, entries, maxDepth, q, processed, levels, [], q', p', l');
    MissingBookkeeping(all, universe, q, processed, graph, q', p');
    FewerUnprocessed(universe, processed, q[0].0);
  }

  lemma MissingBookkeeping(all: Index, universe: set<string>, q: seq<Item>, processed: set<string>,
                           graph: Index, q': seq<Item>, p': set<string>)
    requires GraphOf(all, graph, processed) && processed <= universe
    requires |q| > 0 && q[0].0 !in all && (forall i :: 0 <= i < |q| ==> q[i].0 in universe)
    requires q' == q[1..] && p' == processed + {q[0].0}
    ensures GraphOf(all, graph, p') && p' <= universe
    ensures forall i :: 0 <= i < |q'| ==> q'[i].0 in universe
  {
    assert forall i :: 0 <= i < |q'| ==> q'[i] == q[i + 1];
  }

  lemma MakeExpandStep(all: Index, maxDepth: int, q: seq<Item>, processed: set<string>,
                       levels: map<string, int>)
    requires |q| > 0 && q[0].0 !in processed && q[0].1 <= maxDepth
    ensures var f := q[0].0; var p' := processed + {f};
      var added := if f in all then Pending(all[f].calls, p', q[0].1 + 1) else [];
      ExpandStep(all, maxDepth, q, processed, levels, added, q[1..] + added, p', levels[f := q[0].1])
  {
  }

  lemma GraphGrows(all: Index, graph: Index, order: seq<string>, processed: set<string>, f: string)
    requires GraphOf(all, graph, processed) && NoDup(order) && (forall k :: k in order <==> k in graph)
    requires f in all && f !in processed
    ensures GraphOf(all, graph[f := all[f]], processed + {f})
    ensures NoDup(order + [f]) && (forall k :: k in order + [f] <==> k in graph[f := all[f]])
  {
    assert f !in order;
  }

  lemma CalleesInUniverse(all: Index, universe: set<string>, f: string, q: seq<Item>, added: seq<Item>)
    requires universe == all.Keys + Callees(all)
    requires f in all && |q| > 0 && (forall i :: 0 <= i < |q| ==> q[i].0 in universe)
    requires forall i :: 0 <= i < |added| ==> added[i].0 in all[f].calls
    ensures forall i :: 0 <= i < |q[1..] + added| ==> (q[1..] + added)[i].0 in universe
  {
    forall i | 0 <= i < |added| ensures added[i].0 in Callees(all) {
      assert added[i].0 in all[f].calls;
    }
    forall i | 0 <= i < |q[1..] + added| ensures (q[1..] + added)[i].0 in universe {
      if i < |q| - 1 {
        assert (q[1..] + added)[i] == q[i + 1];
      } else {
        assert (q[1..] + added)[i] == added[i - (|q| - 1)];
      }
    }
  }

  lemma FewerUnprocessed(universe: set<string>, processed: set<string>, name: string)
    requires name in universe && name !in processed
    ensures |universe - (processed + {name})| < |universe - processed|
  {
    assert universe - processed == (universe - (processed + {name})) + {name};
  }

  // ----- Loop invariant -----

  /** Queue depths never decrease from front to back and span at most two levels. */
  ghost predicate QueueOrdered(q: seq<Item>) {
    && (forall i, j :: 0 <= i < j < |q| ==> q[i].1 <= q[j].1)
    && (forall i :: 0 <= i < |q| ==> q[i].1 <= q[0].1 + 1)
  }

  /** Every queued name is reached within its depth. */
  ghost predicate QueueSound(all: Index, entries: seq<string>, q: seq<Item>) {
    forall i :: 0 <= i < |q| ==> q[i].1 >= 0 && q[i].0 in Reach(all, entries, q[i].1)
  }

  /** Each processed name was processed at its exact shortest distance, within the bound. */
  ghost predicate LevelsExact(all: Index, entries: seq<string>, maxDepth: int, levels: map<string, int>) {
    && (forall f {:trigger levels[f]} :: f in levels ==>
         0 <= levels[f] <= maxDepth && f in Reach(all, entries, levels[f]))
    && (forall f, d {:trigger levels[f], f in Reach(all, entries, d)} ::
         f in levels && f in Reach(all, entries, d) ==> levels[f] <= d)
  }

  /** Everything closer than the head of the queue has been processed. */
  ghost predicate HeadPrefixDone(all: Index, entries: seq<string>, maxDepth: int, q: seq<Item>, processed: set<string>) {
    |q| > 0 && q[0].1 <= maxDepth + 1 ==> Reach(all, entries, q[0].1 - 1) <= processed
  }

  /** Everything at the head's distance is processed or waiting at that depth. */
  ghost predicate HeadLevelQueued(all: Index, entries: seq<string>, maxDepth: int, q: seq<Item>, processed: set<string>) {
    |q| > 0 && q[0].1 <= maxDepth ==>
      forall f {:trigger f in Reach(all, entries, q[0].1)} ::
        f in Reach(all, entries, q[0].1) ==> f in processed || (f, q[0].1) in q
  }

  /** Every callee of a processed record is processed, waiting one level deeper, or beyond
      the bound. */
  ghost predicate CalleesQueued(all: Index, maxDepth: int, q: seq<Item>, levels: map<string, int>) {
    forall f, c {:trigger levels[f], c in all[f].calls} :: f in levels && f in all && c in all[f].calls ==>
      c in levels || (c, levels[f] + 1) in q || levels[f] + 1 > maxDepth
  }

  /** Every entry point with a record is processed or waiting at depth 0. */
  ghost predicate EntriesQueued(all: Index, entries: seq<string>, maxDepth: int, q: seq<Item>, processed: set<string>) {
    forall e {:trigger e in entries} :: e in entries && e in all ==> e in processed || (e, 0) in q || maxDepth < 0
  }

  ghost predicate Inv(all: Index, entries: seq<string>, maxDepth: int, q: seq<Item>,
                      processed: set<string>, levels: map<string, int>) {
    && levels.Keys == processed
    && QueueOrdered(q)
    && QueueSound(all, entries, q)
    && LevelsExact(all, entries, maxDepth, levels)
    && HeadPrefixDone(all, entries, maxDepth, q, processed)
    && HeadLevelQueued(all, entries, maxDepth, q, processed)
    && CalleesQueued(all, maxDepth, q, levels)
    && EntriesQueued(all, entries, maxDepth, q, processed)
  }

  // ----- Facts about Reach -----

  lemma {:induction false} ReachMono(all: Index, entries: seq<string>, d1: int, d2: int)
    requires d1 <= d2
    ensures Reach(all, entries, d1) <= Reach(all, entries, d2)
    decreases d2 - d1
  {
    if d1 < d2 {
      ReachMono(all, entries, d1, d2 - 1);
    }
  }

  /** A callee of a reached record is reached one level further. */
  lemma ReachStep(all: Index, entries: seq<string>, d: int, f: string, c: string)
    requires d >= 0 && f in Reach(all, entries, d) && f in all && c in all[f].calls
    ensures c in Reach(all, entries, d + 1)
  {
    assert c in Step(all, Reach(all, entries, d));
  }

  /** A name processed at its exact distance was processed no later than any level that
      reaches it. */
  lemma LevelAtMost(all: Index, entries: seq<string>, maxDepth: int, levels: map<string, int>, g: string, d: int)
    requires LevelsExact(all, entries, maxDepth, levels)
    requires g in levels && g in Reach(all, entries, d)
    ensures levels[g] <= d
  {
  }

  /** A name outside everything reached within `d - 1` calls is reached no sooner than `d`. */
  lemma ReachedNoSooner(all: Index, entries: seq<string>, f: string, d: int)
    requires f !in Reach(all, entries, d - 1)
    ensures forall d' :: f in Reach(all, entries, d') ==> d <= d'
  {
    forall d' | d' < d ensures f !in Reach(all, entries, d') {
      ReachMono(all, entries, d', d - 1);
    }
  }

  lemma InRest(q: seq<Item>, x: Item)
    requires x in q && x != q[0]
    ensures x in q[1..]
  {
    var i :| 0 <= i < |q| && q[i] == x;
    assert q[1..][i - 1] == x;
  }

  // ----- Preservation -----

  lemma InitialInv(all: Index, entries: seq<string>, maxDepth: int)
    ensures Inv(all, entries, maxDepth, InitialQueue(all, entries), {}, map[])
  {
    var q := InitialQueue(all, entries);
    assert QueueSound(all, entries, q) by {
      forall i | 0 <= i < |q| ensures q[i].0 in Reach(all, entries, 0) {
      }
    }
  }

  /** Dropping the head keeps the queue ordered and sound. */
  lemma TailOrderedSound(all: Index, entries: seq<string>, q: seq<Item>)
    requires |q| > 0 && QueueOrdered(q) && QueueSound(all, entries, q)
    ensures QueueOrdered(q[1..]) && QueueSound(all, entries, q[1..])
    ensures |q| > 1 ==> q[1].1 == q[0].1 || q[1].1 == q[0].1 + 1
  {
    if |q| > 1 {
      assert forall i :: 0 <= i < |q| - 1 ==> q[1..][i] == q[i + 1];
    }
  }

  /** When the head is alone or the second entry is one level deeper, the head is the only
      entry at the head's level. */
  lemma HeadAloneAtLevel(q: seq<Item>)
    requires |q| > 0 && QueueOrdered(q) && (|q| == 1 || q[1].1 == q[0].1 + 1)
    ensures forall x :: x in q && x.1 == q[0].1 ==> x == q[0]
  {
    forall i | 1 <= i < |q| ensures q[i].1 > q[0].1 {
      assert q[1].1 <= q[i].1;
    }
    forall x | x in q && x.1 == q[0].1 ensures x == q[0] {
      var i :| 0 <= i < |q| && q[i] == x;
    }
  }

  /** A level whose names are all processed or queued is finished once its only queued entry,
      the head, is processed. */
  lemma LevelDone(all: Index, entries: seq<string>, q: seq<Item>, processed: set<string>)
    requires |q| > 0 && q[0].0 in processed
    requires forall x :: x in q && x.1 == q[0].1 ==> x == q[0]
    requires forall f :: f in Reach(all, entries, q[0].1) ==> f in processed || (f, q[0].1) in q
    ensures Reach(all, entries, q[0].1) <= processed
  {
  }

  /** An entry of `q` other than its head is still queued after the head is popped and
      `added` appended. */
  lemma StillQueued(q: seq<Item>, added: seq<Item>, x: Item)
    requires x in q && x != q[0]
    ensures x in q[1..] + added
  {
    InRest(q, x);
  }

  /** An appended entry is queued after the head is popped. */
  lemma StillQueuedAdded(q: seq<Item>, added: seq<Item>, x: Item)
    requires |q| > 0 && x in added
    ensures x in q[1..] + added
  {
  }

  /** Popping a name that is already processed, or lies beyond the bound, keeps the invariant. */
  lemma SkipKeepsInv(all: Index, entries: seq<string>, maxDepth: int, q: seq<Item>,
                     processed: set<string>, levels: map<string, int>)
    requires Inv(all, entries, maxDepth, q, processed, levels)
    requires |q| > 0 && (q[0].0 in processed || q[0].1 > maxDepth)
    ensures Inv(all, entries, maxDepth, q[1..], processed, levels)
  {
    TailOrderedSound(all, entries, q);
    assert q[0].1 >= 0;
    SkipCallees(all, maxDepth, q, processed, levels);
    SkipEntries(all, entries, maxDepth, q, processed);
    SkipHead(all, entries, maxDepth, q, processed, levels);
  }

  lemma SkipCallees(all: Index, maxDepth: int, q: seq<Item>, processed: set<string>, levels: map<string, int>)
    requires levels.Keys == processed && CalleesQueued(all, maxDepth, q, levels)
    requires |q| > 0 && (q[0].0 in processed || q[0].1 > maxDepth)
    ensures CalleesQueued(all, maxDepth, q[1..], levels)
  {
    forall f, c | f in levels && f in all && c in all[f].calls
      ensures c in levels || (c, levels[f] + 1) in q[1..] || levels[f] + 1 > maxDepth
    {
      if (c, levels[f] + 1) in q && (c, levels[f] + 1) != q[0] {
        InRest(q, (c, levels[f] + 1));
      }
    }
  }

  lemma SkipEntries(all: Index, entries: seq<string>, maxDepth: int, q: seq<Item>, processed: set<string>)
    requires EntriesQueued(all, entries, maxDepth, q, processed)
    requires |q| > 0 && (q[0].0 in processed || q[0].1 > maxDepth)
    ensures EntriesQueued(all, entries, maxDepth, q[1..], processed)
  {
    forall e | e in entries && e in all
      ensures e in processed || (e, 0) in q[1..] || maxDepth < 0
    {
      if (e, 0) in q && (e, 0) != q[0] {
        InRest(q, (e, 0));
      }
    }
  }

  lemma SkipHead(all: Index, entries: seq<string>, maxDepth: int, q: seq<Item>,
                 processed: set<string>, levels: map<string, int>)
    requires levels.Keys == processed
    requires |q| > 0 && QueueOrdered(q) && q[0].1 >= 0
    requires q[0].0 in processed || q[0].1 > maxDepth
    requires LevelsExact(all, entries, maxDepth, levels)
    requires HeadPrefixDone(all, entries, maxDepth, q, processed)
    requires HeadLevelQueued(all, entries, maxDepth, q, processed)
    requires CalleesQueued(all, maxDepth, q[1..], levels)
    ensures HeadPrefixDone(all, entries, maxDepth, q[1..], processed)
    ensures HeadLevelQueued(all, entries, maxDepth, q[1..], processed)
  {
    if |q| > 1 {
      assert q[1].1 == q[0].1 || q[1].1 == q[0].1 + 1;
      if q[0].1 > maxDepth {
        SkipBeyond(all, entries, maxDepth, q, processed);
      } else if q[1].1 == q[0].1 {
        SkipSameLevel(all, entries, maxDepth, q, processed);
      } else {
        SkipLastOfLevel(all, entries, maxDepth, q, processed, levels);
      }
    }
  }

  /** Popping an entry beyond the bound: everything after it is beyond the bound too. */
  lemma SkipBeyond(all: Index, entries: seq<string>, maxDepth: int, q: seq<Item>, processed: set<string>)
    requires |q| > 1 && QueueOrdered(q) && q[0].1 > maxDepth
    requires HeadPrefixDone(all, entries, maxDepth, q, processed)
    ensures HeadPrefixDone(all, entries, maxDepth, q[1..], processed)
    ensures HeadLevelQueued(all, entries, maxDepth, q[1..], processed)
  {
    assert q[1..][0] == q[1];
    assert q[0].1 <= q[1].1;
  }

  /** Popping the head keeps the names of its level processed or queued when the next entry is
      at the same level. */
  lemma SkipSameLevel(all: Index, entries: seq<string>, maxDepth: int, q: seq<Item>, processed: set<string>)
    requires |q| > 1 && q[1].1 == q[0].1 && q[0].1 <= maxDepth && q[0].0 in processed
    requires HeadPrefixDone(all, entries, maxDepth, q, processed)
    requires HeadLevelQueued(all, entries, maxDepth, q, processed)
    ensures HeadPrefixDone(all, entries, maxDepth, q[1..], processed)
    ensures HeadLevelQueued(all, entries, maxDepth, q[1..], processed)
  {
    var d := q[0].1;
    assert q[1..][0] == q[1];
    forall f | f in Reach(all, entries, d) ensures f in processed || (f, d) in q[1..] {
      if (f, d) in q && (f, d) != q[0] {
        InRest(q, (f, d));
      }
    }
  }

  /** Popping the last entry of a level within the bound finishes that level. */
  lemma SkipLastOfLevel(all: Index, entries: seq<string>, maxDepth: int, q: seq<Item>,
                        processed: set<string>, levels: map<string, int>)
    requires levels.Keys == processed
    requires |q| > 1 && QueueOrdered(q) && 0 <= q[0].1 <= maxDepth && q[1].1 == q[0].1 + 1
    requires q[0].0 in processed
    requires LevelsExact(all, entries, maxDepth, levels)
    requires HeadLevelQueued(all, entries, maxDepth, q, processed)
    requires CalleesQueued(all, maxDepth, q[1..], levels)
    ensures HeadPrefixDone(all, entries, maxDepth, q[1..], processed)
    ensures HeadLevelQueued(all, entries, maxDepth, q[1..], processed)
  {
    var d := q[0].1;
    HeadAloneAtLevel(q);
    LevelDone(all, entries, q, processed);
    TailOrderedSound'(q);
    assert q[1..][0] == q[1];
    if d + 1 <= maxDepth {
      NextLevelQueued(all, entries, maxDepth, q[1..], processed, levels, d);
    }
  }

  lemma TailOrderedSound'(q: seq<Item>)
    requires |q| > 0 && QueueOrdered(q)
    ensures QueueOrdered(q[1..])
  {
    assert forall i :: 0 <= i < |q| - 1 ==> q[1..][i] == q[i + 1];
  }

  /** Once level `d` is fully processed and the whole queue sits at level `d + 1`, every name
      of level `d + 1` is processed or queued at that level. */
  lemma NextLevelQueued(all: Index, entries: seq<string>, maxDepth: int, q: seq<Item>,
                        processed: set<string>, levels: map<string, int>, d: int)
    requires d >= 0 && d + 1 <= maxDepth
    requires |q| > 0 && q[0].1 == d + 1 && QueueOrdered(q)
    requires levels.Keys == processed
    requires Reach(all, entries, d) <= processed
    requires LevelsExact(all, entries, maxDepth, levels)
    requires CalleesQueued(all, maxDepth, q, levels)
    ensures forall f :: f in Reach(all, entries, d + 1) ==> f in processed || (f, d + 1) in q
  {
    forall f | f in Reach(all, entries, d + 1) ensures f in processed || (f, d + 1) in q {
      NextLevelOne(all, entries, maxDepth, q, processed, levels, d, f);
    }
  }

  lemma NextLevelOne(all: Index, entries: seq<string>, maxDepth: int, q: seq<Item>,
                     processed: set<string>, levels: map<string, int>, d: int, f: string)
    requires d >= 0 && d + 1 <= maxDepth
    requires |q| > 0 && q[0].1 == d + 1 && QueueOrdered(q)
    requires levels.Keys == processed
    requires Reach(all, entries, d) <= processed
    requires LevelsExact(all, entries, maxDepth, levels)
    requires CalleesQueued(all, maxDepth, q, levels)
    requires f in Reach(all, entries, d + 1)
    ensures f in processed || (f, d + 1) in q
  {
    var r := Reach(all, entries, d);
    assert Reach(all, entries, d + 1) == r + Step(all, r);
    if f !in r {
      var g :| g in r && g in all && f in all[g].calls;
      assert g in levels;
      LevelAtMost(all, entries, maxDepth, levels, g, d);
      assert f in levels || (f, levels[g] + 1) in q;
      CalleeAtNextLevel(q, levels, d, f, g);
    }
  }

  /** A callee queued at most one level below a name of level at most `d` sits at level
      exactly `d + 1` when the whole queue is at level `d + 1` or deeper. */
  lemma CalleeAtNextLevel(q: seq<Item>, levels: map<string, int>, d: int, f: string, g: string)
    requires |q| > 0 && q[0].1 == d + 1 && QueueOrdered(q)
    requires g in levels && levels[g] <= d
    requires f in levels || (f, levels[g] + 1) in q
    ensures f in levels || (f, d + 1) in q
  {
    if f !in levels {
      var i :| 0 <= i < |q| && q[i] == (f, levels[g] + 1);
      assert q[0].1 <= q[i].1;
    }
  }

  /** One expansion step: the head `q[0]` is unprocessed and within the bound; it becomes
      processed at its depth, and its unprocessed callees (when it has a record) are appended
      one level deeper. */
  ghost predicate ExpandStep(all: Index, maxDepth: int, q: seq<Item>, processed: set<string>,
                             levels: map<string, int>, added: seq<Item>,
                             q': seq<Item>, p': set<string>, l': map<string, int>) {
    && |q| > 0 && q[0].0 !in processed && q[0].1 <= maxDepth
    && p' == processed + {q[0].0}
    && l' == levels[q[0].0 := q[0].1]
    && added == (if q[0].0 in all then Pending(all[q[0].0].calls, p', q[0].1 + 1) else [])
    && q' == q[1..] + added
  }

  /** The appended entries are callees of the head, one level deeper. */
  ghost predicate AddedShape(all: Index, q: seq<Item>, added: seq<Item>)
    requires |q| > 0
  {
    forall i :: 0 <= i < |added| ==>
      added[i].1 == q[0].1 + 1 && q[0].0 in all && added[i].0 in all[q[0].0].calls
  }

  /** Every callee of the head that is not processed is appended one level deeper. */
  ghost predicate AddedCovers(all: Index, q: seq<Item>, p': set<string>, added: seq<Item>)
    requires |q| > 0
  {
    q[0].0 in all ==> forall c :: c in all[q[0].0].calls && c !in p' ==> (c, q[0].1 + 1) in added
  }

  /** Processing the head name keeps the invariant. */
  lemma ExpandKeepsInv(all: Index, entries: seq<string>, maxDepth: int, q: seq<Item>,
                       processed: set<string>, levels: map<string, int>, added: seq<Item>,
                       q': seq<Item>, p': set<string>, l': map<string, int>)
    requires Inv(all, entries, maxDepth, q, processed, levels)
    requires ExpandStep(all, maxDepth, q, processed, levels, added, q', p', l')
    ensures Inv(all, entries, maxDepth, q', p', l')
  {
    AddedEntries(all, maxDepth, q, processed, levels, added, q', p', l');
    ExpandOrderedSound(all, entries, q, added, q');
    ExpandLevels(all, entries, maxDepth, q, processed, levels, l');
    ExpandCallees(all, maxDepth, q, processed, levels, added, q', p', l');
    ExpandEntries(all, entries, maxDepth, q, processed, added, q', p');
    ExpandHead(all, entries, maxDepth, q, processed, levels, added, q', p', l');
  }

  lemma AddedEntries(all: Index, maxDepth: int, q: seq<Item>, processed: set<string>,
                     levels: map<string, int>, added: seq<Item>,
                     q': seq<Item>, p': set<string>, l': map<string, int>)
    requires ExpandStep(all, maxDepth, q, processed, levels, added, q', p', l')
    ensures AddedShape(all, q, added) && AddedCovers(all, q, p', added)
    ensures q[0].1 <= maxDepth
  {
  }

  lemma ExpandOrderedSound(all: Index, entries: seq<string>, q: seq<Item>, added: seq<Item>, q': seq<Item>)
    requires |q| > 0 && QueueOrdered(q) && QueueSound(all, entries, q)
    requires AddedShape(all, q, added) && q' == q[1..] + added
    ensures QueueOrdered(q') && QueueSound(all, entries, q')
  {
    var d := q[0].1;
    forall i | 0 <= i < |q'| ensures q'[i] == (if i < |q| - 1 then q[i + 1] else added[i - (|q| - 1)]) {
    }
    forall i, j | 0 <= i < j < |q'| ensures q'[i].1 <= q'[j].1 {
      if j < |q| - 1 {
        assert q[i + 1].1 <= q[j + 1].1;
      } else if i < |q| - 1 {
        assert q[i + 1].1 <= q[0].1 + 1;
      }
    }
    forall i | 0 <= i < |q'| ensures d <= q'[i].1 <= d + 1 {
      if i < |q| - 1 {
        assert q[0].1 <= q[i + 1].1;
      }
    }
    forall i | 0 <= i < |q'| ensures q'[i].1 >= 0 && q'[i].0 in Reach(all, entries, q'[i].1) {
      if i >= |q| - 1 {
        ReachStep(all, entries, d, q[0].0, q'[i].0);
      }
    }
  }

  lemma ExpandLevels(all: Index, entries: seq<string>, maxDepth: int, q: seq<Item>,
                     processed: set<string>, levels: map<string, int>, l': map<string, int>)
    requires |q| > 0 && q[0].0 !in processed && q[0].1 <= maxDepth
    requires levels.Keys == processed
    requires QueueSound(all, entries, q)
    requires LevelsExact(all, entries, maxDepth, levels)
    requires HeadPrefixDone(all, entries, maxDepth, q, processed)
    requires l' == levels[q[0].0 := q[0].1]
    ensures l'.Keys == processed + {q[0].0}
    ensures LevelsExact(all, entries, maxDepth, l')
  {
    assert q[0].1 >= 0 && q[0].0 in Reach(all, entries, q[0].1);
    ReachedNoSooner(all, entries, q[0].0, q[0].1);
    LevelsExtend(all, entries, maxDepth, levels, q[0].0, q[0].1);
  }

  /** Recording a name at its shortest distance keeps the levels exact. */
  lemma LevelsExtend(all: Index, entries: seq<string>, maxDepth: int, levels: map<string, int>,
                     f: string, d: int)
    requires LevelsExact(all, entries, maxDepth, levels)
    requires 0 <= d <= maxDepth && f in Reach(all, entries, d)
    requires forall d' :: f in Reach(all, entries, d') ==> d <= d'
    ensures LevelsExact(all, entries, maxDepth, levels[f := d])
  {
    var l' := levels[f := d];
    forall g | g in l' ensures 0 <= l'[g] <= maxDepth && g in Reach(all, entries, l'[g]) {
      if g != f {
        assert l'[g] == levels[g];
      }
    }
    forall g, d' | g in l' && g in Reach(all, entries, d') ensures l'[g] <= d' {
      if g != f {
        assert l'[g] == levels[g];
      }
    }
  }

  lemma ExpandCallees(all: Index, maxDepth: int, q: seq<Item>, processed: set<string>,
                      levels: map<string, int>, added: seq<Item>,
                      q': seq<Item>, p': set<string>, l': map<string, int>)
    requires |q| > 0 && q[0].0 !in processed
    requires levels.Keys == processed && CalleesQueued(all, maxDepth, q, levels)
    requires p' == processed + {q[0].0} && l' == levels[q[0].0 := q[0].1] && q' == q[1..] + added
    requires AddedCovers(all, q, p', added)
    ensures CalleesQueued(all, maxDepth, q', l')
  {
    var f := q[0].0;
    var d := q[0].1;
    forall g, c | g in l' && g in all && c in all[g].calls
      ensures c in l' || (c, l'[g] + 1) in q' || l'[g] + 1 > maxDepth
    {
      if g == f {
        if c !in l' {
          assert (c, d + 1) in added;
          StillQueuedAdded(q, added, (c, d + 1));
        }
      } else if (c, levels[g] + 1) in q && (c, levels[g] + 1) != q[0] {
        StillQueued(q, added, (c, levels[g] + 1));
      }
    }
  }

  lemma ExpandEntries(all: Index, entries: seq<string>, maxDepth: int, q: seq<Item>,
                      processed: set<string>, added: seq<Item>, q': seq<Item>, p': set<string>)
    requires |q| > 0 && EntriesQueued(all, entries, maxDepth, q, processed)
    requires p' == processed + {q[0].0} && q' == q[1..] + added
    ensures EntriesQueued(all, entries, maxDepth, q', p')
  {
    forall e | e in entries && e in all
      ensures e in p' || (e, 0) in q' || maxDepth < 0
    {
      if (e, 0) in q && (e, 0) != q[0] {
        StillQueued(q, added, (e, 0));
      }
    }
  }

  lemma ExpandHead(all: Index, entries: seq<string>, maxDepth: int, q: seq<Item>,
                   processed: set<string>, levels: map<string, int>, added: seq<Item>,
                   q': seq<Item>, p': set<string>, l': map<string, int>)
    requires |q| > 0 && q[0].0 !in processed && 0 <= q[0].1 <= maxDepth
    requires p' == processed + {q[0].0} && l' == levels[q[0].0 := q[0].1] && q' == q[1..] + added
    requires levels.Keys == processed && l'.Keys == p'
    requires QueueOrdered(q) && AddedShape(all, q, added) && QueueOrdered(q')
    requires LevelsExact(all, entries, maxDepth, l')
    requires HeadPrefixDone(all, entries, maxDepth, q, processed)
    requires HeadLevelQueued(all, entries, maxDepth, q, processed)
    requires CalleesQueued(all, maxDepth, q', l')
    ensures HeadPrefixDone(all, entries, maxDepth, q', p')
    ensures HeadLevelQueued(all, entries, maxDepth, q', p')
  {
    if |q'| > 0 {
      if |q| > 1 {
        assert q'[0] == q[1];
        assert q[0].1 <= q[1].1 <= q[0].1 + 1;
      } else {
        assert q'[0] == added[0];
      }
      if q'[0].1 == q[0].1 {
        ExpandSameLevel(all, entries, maxDepth, q, processed, added);
      } else {
        ExpandLastOfLevel(all, entries, maxDepth, q, processed, levels, q', p', l');
      }
    }
  }

  /** Expanding the head keeps the names of its level processed or queued when the next entry
      is at the same level. */
  lemma ExpandSameLevel(all: Index, entries: seq<string>, maxDepth: int, q: seq<Item>,
                        processed: set<string>, added: seq<Item>)
    requires |q| > 1 && q[1].1 == q[0].1 && q[0].1 <= maxDepth
    requires HeadPrefixDone(all, entries, maxDepth, q, processed)
    requires HeadLevelQueued(all, entries, maxDepth, q, processed)
    ensures HeadPrefixDone(all, entries, maxDepth, q[1..] + added, processed + {q[0].0})
    ensures HeadLevelQueued(all, entries, maxDepth, q[1..] + added, processed + {q[0].0})
  {
    var d := q[0].1;
    var p' := processed + {q[0].0};
    var q' := q[1..] + added;
    assert q'[0] == q[1];
    forall g | g in Reach(all, entries, d) ensures g in p' || (g, d) in q' {
      if (g, d) in q && (g, d) != q[0] {
        StillQueued(q, added, (g, d));
      }
    }
  }

  /** Expanding the last entry of a level finishes that level, and the next level is then
      processed or queued. */
  lemma ExpandLastOfLevel(all: Index, entries: seq<string>, maxDepth: int, q: seq<Item>,
                          processed: set<string>, levels: map<string, int>,
                          q': seq<Item>, p': set<string>, l': map<string, int>)
    requires |q| > 0 && q[0].0 !in processed && 0 <= q[0].1 <= maxDepth
    requires p' == processed + {q[0].0} && l'.Keys == p'
    requires QueueOrdered(q) && (|q| == 1 || q[1].1 == q[0].1 + 1)
    requires |q'| > 0 && q'[0].1 == q[0].1 + 1 && QueueOrdered(q')
    requires HeadLevelQueued(all, entries, maxDepth, q, processed)
    requires LevelsExact(all, entries, maxDepth, l') && CalleesQueued(all, maxDepth, q', l')
    ensures HeadPrefixDone(all, entries, maxDepth, q', p')
    ensures HeadLevelQueued(all, entries, maxDepth, q', p')
  {
    var d := q[0].1;
    HeadAloneAtLevel(q);
    LevelDone(all, entries, q, p');
    assert q'[0].1 - 1 == d;
    assert Reach(all, entries, q'[0].1 - 1) <= p';
    if d + 1 <= maxDepth {
      NextLevelQueued(all, entries, maxDepth, q', p', l', d);
      assert q'[0].1 == d + 1;
    }
  }

  /** With the queue empty, the processed names are exactly those within the bound. */
  lemma SearchComplete(all: Index, entries: seq<string>, maxDepth: int, graph: Index,
                       processed: set<string>, levels: map<string, int>)
    requires Inv(all, entries, maxDepth, [], processed, levels)
    requires GraphOf(all, graph, processed)
    ensures graph == ReachableGraph(all, entries, maxDepth)
  {
    forall k | k in processed && k in all ensures k in Reach(all, entries, maxDepth) {
      ReachMono(all, entries, levels[k], maxDepth);
    }
    forall k | k in all && k in Reach(all, entries, maxDepth) ensures k in processed {
      AllLevelsProcessed(all, entries, maxDepth, processed, levels, maxDepth);
    }
  }

  lemma {:induction false} AllLevelsProcessed(all: Index, entries: seq<string>, maxDepth: int,
                                              processed: set<string>, levels: map<string, int>, d: int)
    requires Inv(all, entries, maxDepth, [], processed, levels)
    requires d <= maxDepth
    ensures Reach(all, entries, d) <= processed
    decreases d
  {
    if d > 0 {
      AllLevelsProcessed(all, entries, maxDepth, processed, levels, d - 1);
      forall c | c in Reach(all, entries, d) ensures c in processed {
        if c !in Reach(all, entries, d - 1) {
          var g :| g in Reach(all, entries, d - 1) && g in all && c in all[g].calls;
          LevelAtMost(all, entries, maxDepth, levels, g, d - 1);
        }
      }
    }
  }

  // ----- Properties of the reachable graph -----

  /** A call chain: starts at an entry point that has a record, and each later name is
      called by the record of the name before it. */
  ghost predicate CallChain(all: Index, entries: seq<string>, path: seq<string>) {
    && |path| >= 1 && path[0] in entries && path[0] in all
    && forall i :: 0 <= i < |path| - 1 ==> path[i] in all && path[i + 1] in all[path[i]].calls
  }

  /** The end of a chain of `n` calls is reached within any bound of at least `n`. */
  lemma {:induction false} ChainReaches(all: Index, entries: seq<string>, path: seq<string>, d: int)
    requires CallChain(all, entries, path) && |path| - 1 <= d
    ensures path[|path| - 1] in Reach(all, entries, d)
    decreases |path|
  {
    var n := |path| - 1;
    if n == 0 {
      ReachMono(all, entries, 0, d);
    } else {
      var init := path[..n];
      ChainPrefix(all, entries, path);
      ChainReaches(all, entries, init, n - 1);
      ReachStep(all, entries, n - 1, init[n - 1], path[n]);
      ReachMono(all, entries, n, d);
    }
  }

  lemma ChainPrefix(all: Index, entries: seq<string>, path: seq<string>)
    requires CallChain(all, entries, path) && |path| >= 2
    ensures var init := path[..|path| - 1];
      CallChain(all, entries, init) && init[|init| - 1] in all
      && path[|path| - 1] in all[init[|init| - 1]].calls
  {
    var init := path[..|path| - 1];
    forall i | 0 <= i < |init| - 1 ensures init[i] in all && init[i + 1] in all[init[i]].calls {
      assert init[i] == path[i] && init[i + 1] == path[i + 1];
    }
  }

  /** Every name reached within `d` calls ends a chain of at most `d` calls. */
  lemma {:induction false} ReachedByChain(all: Index, entries: seq<string>, d: int, k: string)
    requires k in Reach(all, entries, d)
    ensures exists path :: CallChain(all, entries, path) && |path| - 1 <= d && path[|path| - 1] == k
    decreases d
  {
    if d == 0 {
      assert CallChain(all, entries, [k]);
    } else if k in Reach(all, entries, d - 1) {
      ReachedByChain(all, entries, d - 1, k);
    } else {
      var f :| f in Reach(all, entries, d - 1) && f in all && k in all[f].calls;
      ReachedByChain(all, entries, d - 1, f);
      var path :| CallChain(all, entries, path) && |path| - 1 <= d - 1 && path[|path| - 1] == f;
      var path' := path + [k];
      assert CallChain(all, entries, path') by {
        forall i | 0 <= i < |path'| - 1 ensures path'[i] in all && path'[i + 1] in all[path'[i]].calls {
          if i < |path| - 1 {
            assert path'[i] == path[i] && path'[i + 1] == path[i + 1];
          }
        }
      }
      assert path'[|path'| - 1] == k;
    }
  }

  /** The graph holds exactly the records whose name ends a call chain of at most `maxDepth`
      calls: the breadth-first search keeps every function within the depth bound of some
      entry point, and nothing else. */
  lemma ReachableIffChain(all: Index, entries: seq<string>, maxDepth: int, k: string)
    ensures k in ReachableGraph(all, entries, maxDepth) <==>
      k in all && exists path :: CallChain(all, entries, path) && |path| - 1 <= maxDepth && path[|path| - 1] == k
  {
    if k in ReachableGraph(all, entries, maxDepth) {
      ReachedByChain(all, entries, maxDepth, k);
    }
    if k in all && exists path :: CallChain(all, entries, path) && |path| - 1 <= maxDepth && path[|path| - 1] == k {
      var path :| CallChain(all, entries, path) && |path| - 1 <= maxDepth && path[|path| - 1] == k;
      ChainReaches(all, entries, path, maxDepth);
    }
  }

  /** With a non-negative bound, every entry point that has a record is in the graph. */
  lemma EntriesIncluded(all: Index, entries: seq<string>, maxDepth: int, e: string)
    requires maxDepth >= 0 && e in entries && e in all
    ensures e in ReachableGraph(all, entries, maxDepth)
    ensures ReachableGraph(all, entries, maxDepth)[e] == all[e]
  {
    ReachMono(all, entries, 0, maxDepth);
  }

  lemma {:induction false} NothingReached(all: Index, entries: seq<string>, d: int)
    requires forall e :: e in entries ==> e !in all
    ensures Reach(all, entries, d) == {}
    decreases d
  {
    if d > 0 {
      NothingReached(all, entries, d - 1);
      assert Step(all, {}) == {};
    }
  }

  /** The graph is empty exactly when no entry point has a record (for a non-negative bound);
      with a negative bound even the entry points lie beyond it and the graph is empty. */
  lemma EmptyIffNoEntry(all: Index, entries: seq<string>, maxDepth: int)
    ensures maxDepth >= 0 ==>
      (ReachableGraph(all, entries, maxDepth) == map[] <==> forall e :: e in entries ==> e !in all)
    ensures maxDepth < 0 ==> ReachableGraph(all, entries, maxDepth) == map[]
  {
    if maxDepth >= 0 {
      if exists e :: e in entries && e in all {
        var e :| e in entries && e in all;
        EntriesIncluded(all, entries, maxDepth, e);
      } else {
        NothingReached(all, entries, maxDepth);
      }
    }
  }

  /** A set that holds every entry point with a record and is closed under the calls of its
      recorded members bounds everything the search can reach, whatever the depth. */
  lemma {:induction false} ClosedSetBoundsReach(all: Index, entries: seq<string>, s: set<string>, d: int)
    requires forall e :: e in entries && e in all ==> e in s
    requires forall f, c :: f in s && f in all && c in all[f].calls ==> c in s
    ensures Reach(all, entries, d) <= s
    decreases d
  {
    if d > 0 {
      ClosedSetBoundsReach(all, entries, s, d - 1);
    }
  }

  /** Raising the bound only adds records. */
  lemma DepthMonotone(all: Index, entries: seq<string>, d1: int, d2: int)
    requires d1 <= d2
    ensures forall k :: k in ReachableGraph(all, entries, d1) ==>
      k in ReachableGraph(all, entries, d2) && ReachableGraph(all, entries, d2)[k] == all[k]
  {
    ReachMono(all, entries, d1, d2);
  }
}
