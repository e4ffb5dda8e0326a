/** Cyclomatic complexity of a function definition, as `_calculate_complexity` computes it:
    one plus the number of If, While, For, AsyncFor, ExceptHandler, And and Or nodes anywhere
    in the definition's subtree, nested definitions included. */
module Complexity {
  import opened Syntax

  /** The number of branch nodes in a flat list of nodes. */
  function CountBranches(ns: seq<Node>): (k: nat)
    ensures k <= |ns|
    ensures k == 0 <==> forall i :: 0 <= i < |ns| ==> !ns[i].Branch?
  {
    if |ns| == 0 then 0 else (if ns[0].Branch? then 1 else 0) + CountBranches(ns[1..])
  }

  /** The same count, by structural recursion over the tree. */
  function BranchCount(n: Node): nat
    decreases n
  {
    (if n.Branch? then 1 else 0) + BranchCountSeq(n.children)
  }

  function BranchCountSeq(ns: seq<Node>): nat
    decreases ns
  {
    if |ns| == 0 then 0 else BranchCount(ns[0]) + BranchCountSeq(ns[1..])
  }

  lemma {:induction false} CountBranchesAppend(a: seq<Node>, b: seq<Node>)
    ensures CountBranches(a + b) == CountBranches(a) + CountBranches(b)
    decreases |a|
  {
    if |a| > 0 {
      assert (a + b)[1..] == a[1..] + b;
      CountBranchesAppend(a[1..], b);
    } else {
      assert a + b == b;
    }
  }

  /** Counting the walked nodes agrees with the structural count. */
  lemma {:induction false} WalkCount(n: Node)
    ensures CountBranches(Walk(n)) == BranchCount(n)
    decreases n
  {
    CountBranchesAppend([n], WalkSeq(n.children));
    WalkSeqCount(n.children);
  }

  lemma {:induction false} WalkSeqCount(ns: seq<Node>)
    ensures CountBranches(WalkSeq(ns)) == BranchCountSeq(ns)
    decreases ns
  {
    if |ns| > 0 {
      CountBranchesAppend(Walk(ns[0]), WalkSeq(ns[1..]));
      WalkCount(ns[0]);
      WalkSeqCount(ns[1..]);
    }
  }

  /** `_calculate_complexity`: start at one and add one per branch node that the walk of
      the subtree meets. */
  function ComplexityOf(n: Node): (c: int)
    ensures c >= 1
    ensures c == 1 + BranchCount(n)
  {
    WalkCount(n);
    1 + CountBranches(Walk(n))
  }

  /** The count of a list of siblings is the sum of the counts of its parts. */
  lemma {:induction false} BranchCountSeqAppend(a: seq<Node>, b: seq<Node>)
    ensures BranchCountSeq(a + b) == BranchCountSeq(a) + BranchCountSeq(b)
    decreases |a|
  {
    if |a| > 0 {
      assert (a + b)[0] == a[0];
      assert (a + b)[1..] == a[1..] + b;
      BranchCountSeqAppend(a[1..], b);
    } else {
      assert a + b == b;
    }
  }

  /** A worked example: a function whose body holds two `if` statements and
      one `for` loop, each with a branch-free body, among any branch-free statements, has
      complexity 4 (the base 1 plus 3). */
  lemma {:induction false} TwoIfsOneForGiveFour(def: Node, a: seq<Node>, b: seq<Node>,
      c: seq<Node>, d: seq<Node>, xs: seq<Node>, ys: seq<Node>, zs: seq<Node>)
    requires def.FunctionDef?
    requires def.children == a + [Branch(If, xs)] + b + [Branch(If, ys)] + c + [Branch(For, zs)] + d
    requires BranchCountSeq(a) == 0 && BranchCountSeq(b) == 0
    requires BranchCountSeq(c) == 0 && BranchCountSeq(d) == 0
    requires BranchCountSeq(xs) == 0 && BranchCountSeq(ys) == 0 && BranchCountSeq(zs) == 0
    ensures ComplexityOf(def) == 4
  {
    var x, y, z := Branch(If, xs), Branch(If, ys), Branch(For, zs);
    SingleCount(x);
    SingleCount(y);
    SingleCount(z);
    BranchCountSeqAppend(a + [x] + b + [y] + c + [z], d);
    BranchCountSeqAppend(a + [x] + b + [y] + c, [z]);
    BranchCountSeqAppend(a + [x] + b + [y], c);
    BranchCountSeqAppend(a + [x] + b, [y]);
    BranchCountSeqAppend(a + [x], b);
    BranchCountSeqAppend(a, [x]);
  }

  lemma SingleCount(n: Node)
    ensures BranchCountSeq([n]) == BranchCount(n)
  {
    assert [n][1..] == [];
  }

  /** A definition has the base complexity exactly when no node of its subtree is a
      branch node: Try, With, IfExp, comprehensions and every other kind add nothing. */
  lemma BaseComplexityIffNoBranch(n: Node)
    ensures ComplexityOf(n) == 1 <==> forall m :: m in Walk(n) ==> !m.Branch?
  {
    var w := Walk(n);
    WalkCount(n);
    assert CountBranches(w) == 0 <==> forall i :: 0 <= i < |w| ==> !w[i].Branch?;
    if ComplexityOf(n) != 1 {
      var i :| 0 <= i < |w| && w[i].Branch?;
      assert w[i] in w;
    }
  }
}
