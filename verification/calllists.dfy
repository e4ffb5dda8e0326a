/** The per-function `calls` list: names are appended when first seen and never repeated,
    so the list is the callee names in first-occurrence order. */
module CallLists {

  predicate NoDup<T(==)>(xs: seq<T>) {
    forall i, j :: 0 <= i < j < |xs| ==> xs[i] != xs[j]
  }

  /** The position of the first occurrence of `x` in `xs`. */
  function FirstIndex<T(==)>(xs: seq<T>, x: T): (i: nat)
    requires x in xs
    ensures i < |xs| && xs[i] == x && x !in xs[..i]
  {
    if xs[0] == x then 0
    else
      var j := FirstIndex(xs[1..], x);
      assert xs[..j + 1] == [xs[0]] + xs[1..][..j];
      j + 1
  }

  lemma {:induction false} FirstIndexPrefix<T>(xs: seq<T>, y: T, x: T)
    requires x in xs
    ensures FirstIndex(xs + [y], x) == FirstIndex(xs, x)
    decreases |xs|
  {
    if xs[0] != x {
      assert xs == [xs[0]] + xs[1..];
      assert (xs + [y])[1..] == xs[1..] + [y];
      FirstIndexPrefix(xs[1..], y, x);
    }
  }

  lemma {:induction false} FirstIndexLast<T>(xs: seq<T>, y: T)
    requires y !in xs
    ensures FirstIndex(xs + [y], y) == |xs|
    decreases |xs|
  {
    if |xs| > 0 {
      assert (xs + [y])[1..] == xs[1..] + [y];
      assert y !in xs[1..];
      FirstIndexLast(xs[1..], y);
    }
  }

  /** Reference definition: the elements of `xs` at the positions where they occur for
      the first time, in order. */
  function FirstOccurrences(xs: seq<string>): (r: seq<string>)
    ensures NoDup(r)
    ensures forall x :: x in r <==> x in xs
    ensures forall i, j :: 0 <= i < j < |r| ==> FirstIndex(xs, r[i]) < FirstIndex(xs, r[j])
    decreases |xs|
  {
    if |xs| == 0 then []
    else
      var init, last := xs[..|xs| - 1], xs[|xs| - 1];
      assert xs == init + [last];
      var r0 := FirstOccurrences(init);
      var r := if last in init then r0 else r0 + [last];
      FirstOccurrencesStep(init, last, r0, r);
      r
  }

  /** The contract of `FirstOccurrences` carries over from a prefix to one more element. */
  lemma FirstOccurrencesStep(init: seq<string>, last: string, r0: seq<string>, r: seq<string>)
    requires NoDup(r0) && forall x :: x in r0 <==> x in init
    requires forall i, j :: 0 <= i < j < |r0| ==> FirstIndex(init, r0[i]) < FirstIndex(init, r0[j])
    requires r == if last in init then r0 else r0 + [last]
    ensures NoDup(r) && forall x :: x in r <==> x in init + [last]
    ensures forall i, j :: 0 <= i < j < |r| ==>
      FirstIndex(init + [last], r[i]) < FirstIndex(init + [last], r[j])
  {
    FirstIndexPrefixAll(init, last, r0);
    if last !in init {
      FirstIndexLast(init, last);
      assert forall i :: 0 <= i < |r| - 1 ==> r[i] == r0[i];
    }
  }

  lemma FirstIndexPrefixAll(init: seq<string>, last: string, r0: seq<string>)
    requires forall x :: x in r0 ==> x in init
    ensures forall x :: x in r0 ==> FirstIndex(init + [last], x) == FirstIndex(init, x)
  {
    forall x | x in r0 ensures FirstIndex(init + [last], x) == FirstIndex(init, x) {
      FirstIndexPrefix(init, last, x);
    }
  }

  /** `visit_Call`'s update: append `c` unless it is already listed. */
  function AddCall(calls: seq<string>, c: string): (r: seq<string>)
    ensures NoDup(calls) ==> NoDup(r)
    ensures forall x :: x in r <==> x in calls || x == c
    ensures |calls| <= |r| && r[..|calls|] == calls
  {
    if c in calls then calls else calls + [c]
  }

  /** Repeated `AddCall`, one name after another. */
  function AddCalls(calls: seq<string>, cs: seq<string>): (r: seq<string>)
    ensures NoDup(calls) ==> NoDup(r)
    ensures forall x :: x in r <==> x in calls || x in cs
    ensures |calls| <= |r| && r[..|calls|] == calls
    decreases |cs|
  {
    if |cs| == 0 then calls
    else
      var r := AddCalls(AddCall(calls, cs[0]), cs[1..]);
      assert forall x :: x in cs <==> x == cs[0] || x in cs[1..] by {
        assert cs == [cs[0]] + cs[1..];
      }
      r
  }

  lemma {:induction false} AddCallsAppend(calls: seq<string>, a: seq<string>, b: seq<string>)
    ensures AddCalls(calls, a + b) == AddCalls(AddCalls(calls, a), b)
    decreases |a|
  {
    if |a| > 0 {
      assert (a + b)[0] == a[0];
      assert (a + b)[1..] == a[1..] + b;
      AddCallsAppend(AddCall(calls, a[0]), a[1..], b);
    } else {
      assert a + b == b;
    }
  }

  lemma FirstOccurrencesSnoc(xs: seq<string>, y: string)
    ensures FirstOccurrences(xs + [y]) == if y in xs then FirstOccurrences(xs) else FirstOccurrences(xs) + [y]
  {
    assert (xs + [y])[..|xs + [y]| - 1] == xs;
  }

  lemma AddCallsStep(calls: seq<string>, init: seq<string>, last: string)
    requires AddCalls(calls, init) == FirstOccurrences(calls + init)
    ensures AddCalls(AddCalls(calls, init), [last]) == FirstOccurrences(calls + (init + [last]))
  {
    var a := AddCalls(calls, init);
    assert AddCalls(a, [last]) == AddCall(a, last);
    assert calls + (init + [last]) == (calls + init) + [last];
    FirstOccurrencesSnoc(calls + init, last);
    assert last in a <==> last in calls + init;
  }

  /** Starting from a duplicate-free list, adding names one by one yields exactly the
      first occurrences of the whole sequence: the list keeps first-occurrence order. */
  lemma {:induction false} AddCallsIsFirstOccurrences(calls: seq<string>, cs: seq<string>)
    requires NoDup(calls)
    ensures AddCalls(calls, cs) == FirstOccurrences(calls + cs)
    decreases |cs|
  {
    if |cs| == 0 {
      assert calls + cs == calls;
      NoDupFirstOccurrences(calls);
    } else {
      var init := cs[..|cs| - 1];
      var last := cs[|cs| - 1];
      assert cs == init + [last];
      AddCallsAppend(calls, init, [last]);
      AddCallsIsFirstOccurrences(calls, init);
      AddCallsStep(calls, init, last);
    }
  }

  /** A list without duplicates is its own first occurrences. */
  lemma {:induction false} NoDupFirstOccurrences(xs: seq<string>)
    requires NoDup(xs)
    ensures FirstOccurrences(xs) == xs
    decreases |xs|
  {
    if |xs| > 0 {
      var init := xs[..|xs| - 1];
      assert NoDup(init);
      NoDupFirstOccurrences(init);
      assert xs[|xs| - 1] !in init;
      assert xs == init + [xs[|xs| - 1]];
    }
  }
}
