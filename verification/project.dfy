/** The merge loop of `analyze_project`: every discovered file is parsed and its
    functions are merged into one index, later files overwriting earlier entries. */
module Project {
  import opened Syntax
  import opened Records
  import opened Extraction

  /** One discovered source file with its parsed module body, or None when reading or
      parsing it raised (the loop logs a warning and skips the file). `path` is the file's
      path as `Path.resolve()` returns it (absolute, symbolic links followed), which is the
      text every record of the file stores; resolving it is a file-system call and is not
      modelled. */
  datatype SourceFile = SourceFile(path: string, tree: Option<seq<Node>>)

  /** The functions one file contributes: none when it was skipped. */
  function FileFunctions(f: SourceFile): (r: Index)
    ensures WellFormed(r)
    ensures f.tree.None? ==> r == map[]
  {
    if f.tree.Some? then Extract(f.tree.value, f.path) else map[]
  }

  /** Map `i` has key `k` and no later map does. */
  predicate LastWith(ms: seq<Index>, k: string, i: int) {
    && 0 <= i < |ms|
    && k in ms[i]
    && forall j :: i < j < |ms| ==> k !in ms[j]
  }

  /** Folding `dict.update` over the maps in order: a key is present when some map has it,
      and its value comes from the last map that has it. */
  function UpdateAll(ms: seq<Index>): (m: Index)
    ensures forall k :: k in m <==> exists i :: 0 <= i < |ms| && k in ms[i]
    ensures forall k :: k in m ==> exists i :: LastWith(ms, k, i) && m[k] == ms[i][k]
    ensures (forall i :: 0 <= i < |ms| ==> WellFormed(ms[i])) ==> WellFormed(m)
    decreases |ms|
  {
    if |ms| == 0 then map[]
    else
      var init := ms[..|ms| - 1];
      var m := UpdateAll(init) + ms[|ms| - 1];
      UpdateStep(ms, UpdateAll(init), m);
      m
  }

  lemma UpdateStep(ms: seq<Index>, prev: Index, m: Index)
    requires |ms| > 0
    requires var init := ms[..|ms| - 1];
      && (forall k :: k in prev <==> exists i :: 0 <= i < |init| && k in init[i])
      && (forall k :: k in prev ==> exists i :: LastWith(init, k, i) && prev[k] == init[i][k])
      && ((forall i :: 0 <= i < |init| ==> WellFormed(init[i])) ==> WellFormed(prev))
    requires m == prev + ms[|ms| - 1]
    ensures forall k :: k in m <==> exists i :: 0 <= i < |ms| && k in ms[i]
    ensures forall k :: k in m ==> exists i :: LastWith(ms, k, i) && m[k] == ms[i][k]
    ensures (forall i :: 0 <= i < |ms| ==> WellFormed(ms[i])) ==> WellFormed(m)
  {
    var init := ms[..|ms| - 1];
    UpdateStepKeys(ms, prev, m);
    forall k | k in m
      ensures exists i :: LastWith(ms, k, i) && m[k] == ms[i][k]
    {
      UpdateStepValue(ms, prev, m, k);
    }
    if forall i :: 0 <= i < |ms| ==> WellFormed(ms[i]) {
      assert forall i :: 0 <= i < |init| ==> WellFormed(init[i]) by {
        forall i | 0 <= i < |init| ensures WellFormed(init[i]) {
          assert init[i] == ms[i];
        }
      }
      assert WellFormed(ms[|ms| - 1]);
    }
  }

  lemma UpdateStepKeys(ms: seq<Index>, prev: Index, m: Index)
    requires |ms| > 0
    requires var init := ms[..|ms| - 1];
      forall k :: k in prev <==> exists i :: 0 <= i < |init| && k in init[i]
    requires m == prev + ms[|ms| - 1]
    ensures forall k :: k in m <==> exists i :: 0 <= i < |ms| && k in ms[i]
  {
    var n := |ms| - 1;
    var init := ms[..n];
    forall k | (exists i :: 0 <= i < |ms| && k in ms[i])
      ensures k in m
    {
      var i :| 0 <= i < |ms| && k in ms[i];
      if i < n {
        assert init[i] == ms[i];
      }
    }
    forall k | k in prev
      ensures exists i :: 0 <= i < |ms| && k in ms[i]
    {
      var i :| 0 <= i < |init| && k in init[i];
      assert init[i] == ms[i];
    }
  }

  lemma UpdateStepValue(ms: seq<Index>, prev: Index, m: Index, k: string)
    requires |ms| > 0
    requires var init := ms[..|ms| - 1];
      forall k :: k in prev ==> exists i :: LastWith(init, k, i) && prev[k] == init[i][k]
    requires m == prev + ms[|ms| - 1]
    requires k in m
    ensures exists i :: LastWith(ms, k, i) && m[k] == ms[i][k]
  {
    var n := |ms| - 1;
    var init := ms[..n];
    if k in ms[n] {
      assert LastWith(ms, k, n);
    } else {
      var i :| LastWith(init, k, i) && prev[k] == init[i][k];
      assert LastWith(ms, k, i) by {
        forall j | i < j < |ms| ensures k !in ms[j] {
          if j < n {
            assert init[j] == ms[j];
          }
        }
      }
    }
  }

  /** The per-file maps, one per discovered file, in discovery order. */
  function FileMaps(files: seq<SourceFile>): (ms: seq<Index>)
    ensures |ms| == |files|
    ensures forall i :: 0 <= i < |files| ==> ms[i] == FileFunctions(files[i])
  {
    seq(|files|, i requires 0 <= i < |files| => FileFunctions(files[i]))
  }

  /** `all_functions` after the loop: every record is well formed (keyed by its own name,
      complexity at least one), the keys are the names some file defines, and each record
      is the one from the last file that defines that name. */
  function AnalyzeProject(files: seq<SourceFile>): (index: Index)
    ensures WellFormed(index)
    ensures forall k :: k in index <==> exists i :: 0 <= i < |files| && k in FileMaps(files)[i]
    ensures forall k :: k in index ==>
      exists i :: LastWith(FileMaps(files), k, i) && index[k] == FileFunctions(files[i])[k]
  {
    var ms := FileMaps(files);
    var index := UpdateAll(ms);
    AnalyzeFacts(files, ms, index);
    index
  }

  lemma AnalyzeFacts(files: seq<SourceFile>, ms: seq<Index>, index: Index)
    requires ms == FileMaps(files) && index == UpdateAll(ms)
    ensures WellFormed(index)
    ensures forall k :: k in index ==>
      exists i :: LastWith(ms, k, i) && index[k] == FileFunctions(files[i])[k]
  {
    FileMapsWellFormed(files, ms);
    forall k | k in index
      ensures exists i :: LastWith(ms, k, i) && index[k] == FileFunctions(files[i])[k]
    {
      var i :| LastWith(ms, k, i) && index[k] == ms[i][k];
      assert ms[i] == FileFunctions(files[i]);
    }
  }

  lemma FileMapsWellFormed(files: seq<SourceFile>, ms: seq<Index>)
    requires ms == FileMaps(files)
    ensures forall i :: 0 <= i < |ms| ==> WellFormed(ms[i])
  {
    forall i | 0 <= i < |ms| ensures WellFormed(ms[i]) {
      assert ms[i] == FileFunctions(files[i]);
    }
  }

  /** An empty map in the fold changes nothing. */
  lemma {:induction false} UpdateAllSkipsEmpty(a: seq<Index>, b: seq<Index>)
    ensures UpdateAll(a + [map[]] + b) == UpdateAll(a + b)
    decreases |b|
  {
    if |b| == 0 {
      assert a + [map[]] + b == a + [map[]] && a + b == a;
      SkipsEmptyAtEnd(a);
    } else {
      var b', last := b[..|b| - 1], b[|b| - 1];
      assert b == b' + [last];
      UpdateAllSkipsEmpty(a, b');
      SkipsEmptyStep(a, b', last);
    }
  }

  lemma SkipsEmptyAtEnd(a: seq<Index>)
    ensures UpdateAll(a + [map[]]) == UpdateAll(a)
  {
    UpdateAllSnoc(a, map[]);
    MergeEmpty(UpdateAll(a));
  }

  lemma MergeEmpty(m: Index)
    ensures m + map[] == m
  {
  }

  lemma SkipsEmptyStep(a: seq<Index>, b: seq<Index>, last: Index)
    requires UpdateAll(a + [map[]] + b) == UpdateAll(a + b)
    ensures UpdateAll(a + [map[]] + (b + [last])) == UpdateAll(a + (b + [last]))
  {
    assert a + [map[]] + (b + [last]) == (a + [map[]] + b) + [last];
    assert a + (b + [last]) == (a + b) + [last];
    UpdateAllSnoc(a + [map[]] + b, last);
    UpdateAllSnoc(a + b, last);
  }

  /** One more map in the fold is merged over the result so far. */
  lemma UpdateAllSnoc(ms: seq<Index>, m: Index)
    ensures UpdateAll(ms + [m]) == UpdateAll(ms) + m
  {
    assert (ms + [m])[..|ms|] == ms;
  }

  /** A file that could not be read or parsed changes nothing: the result is the same as
      if it had not been discovered at all. */
  lemma SkippedFileContributesNothing(a: seq<SourceFile>, bad: SourceFile, b: seq<SourceFile>)
    requires bad.tree.None?
    ensures AnalyzeProject(a + [bad] + b) == AnalyzeProject(a + b)
  {
    FileMapsAppend(a + [bad], b);
    FileMapsAppend(a, [bad]);
    assert FileMaps([bad]) == [map[]];
    FileMapsAppend(a, b);
    UpdateAllSkipsEmpty(FileMaps(a), FileMaps(b));
  }

  lemma FileMapsAppend(a: seq<SourceFile>, b: seq<SourceFile>)
    ensures FileMaps(a + b) == FileMaps(a) + FileMaps(b)
  {
    var l, r := FileMaps(a + b), FileMaps(a) + FileMaps(b);
    assert |l| == |r|;
    forall i | 0 <= i < |l| ensures l[i] == r[i] {
      if i < |a| {
        assert (a + b)[i] == a[i];
      } else {
        assert (a + b)[i] == b[i - |a|];
      }
    }
  }

  /** The records of a file merged after every other file are kept as they are. */
  lemma LastFileWins(files: seq<SourceFile>, f: SourceFile, k: string)
    requires k in FileFunctions(f)
    ensures k in AnalyzeProject(files + [f])
    ensures AnalyzeProject(files + [f])[k] == FileFunctions(f)[k]
  {
    var ms := FileMaps(files + [f]);
    assert ms[..|files|] == FileMaps(files);
    assert ms[|files|] == FileFunctions(f);
  }
}
