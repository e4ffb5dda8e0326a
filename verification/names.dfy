/** Names: qualifying a definition by its innermost class, and reducing an unparsed callee
    expression to the bare name the call graph matches on. */
module Names {
  import opened Syntax

  /** Python's `s.split('.')`: the pieces between the dots, in order. */
  function SplitDots(s: string): (parts: seq<string>)
    ensures |parts| >= 1
    ensures forall i :: 0 <= i < |parts| ==> '.' !in parts[i]
    ensures JoinDots(parts) == s
    decreases |s|
  {
    if |s| == 0 then [""]
    else
      var init := SplitDots(s[..|s| - 1]);
      var c := s[|s| - 1];
      assert s == s[..|s| - 1] + [c];
      if c == '.' then
        init + [""]
      else
        var n := |init|;
        var parts := init[..n - 1] + [init[n - 1] + [c]];
        assert parts[..n - 1] == init[..n - 1];
        parts
  }

  /** `'.'.join(parts)`, the inverse of `SplitDots`. */
  function JoinDots(parts: seq<string>): string
    requires |parts| >= 1
    decreases |parts|
  {
    if |parts| == 1 then parts[0]
    else JoinDots(parts[..|parts| - 1]) + "." + parts[|parts| - 1]
  }

  /** Splitting a joined list of dot-free names gives the list back. */
  lemma {:induction false} SplitJoin(parts: seq<string>)
    requires |parts| >= 1
    requires forall i :: 0 <= i < |parts| ==> '.' !in parts[i]
    ensures SplitDots(JoinDots(parts)) == parts
    decreases |parts|
  {
    if |parts| == 1 {
      SplitDotFree(parts[0]);
    } else {
      var init := parts[..|parts| - 1];
      var last := parts[|parts| - 1];
      SplitJoin(init);
      SplitAppendDotFree(JoinDots(init) + ".", last);
      assert JoinDots(parts) == (JoinDots(init) + ".") + last;
      var s := JoinDots(init) + ".";
      assert s[..|s| - 1] == JoinDots(init);
      assert SplitDots(s) == init + [""];
    }
  }

  /** A string without dots splits into itself. */
  lemma {:induction false} SplitDotFree(s: string)
    requires '.' !in s
    ensures SplitDots(s) == [s]
    decreases |s|
  {
    if |s| > 0 {
      var u := s[..|s| - 1];
      assert '.' !in u by {
        forall i | 0 <= i < |u| ensures u[i] != '.' {
          assert u[i] == s[i];
        }
      }
      SplitDotFree(u);
      assert s == s[..|s| - 1] + [s[|s| - 1]];
    }
  }

  /** A trailing dot starts a new, empty last piece. */
  lemma SplitDotEnd(s: string)
    requires |s| >= 1 && s[|s| - 1] == '.'
    ensures var p := SplitDots(s); p[|p| - 1] == "" && p[..|p| - 1] == SplitDots(s[..|s| - 1])
  {
  }

  /** Appending a character other than a dot extends the last piece. */
  lemma SplitSnoc(s: string, c: char)
    requires c != '.'
    ensures var init := SplitDots(s);
      SplitDots(s + [c]) == init[..|init| - 1] + [init[|init| - 1] + [c]]
  {
    assert (s + [c])[..|s + [c]| - 1] == s;
  }

  /** Appending dot-free text `t` to a string ending in a dot adds `t` as one last piece. */
  lemma {:induction false} SplitAppendDotFree(s: string, t: string)
    requires '.' !in t
    requires |s| >= 1 && s[|s| - 1] == '.'
    ensures SplitDots(s + t) == SplitDots(s)[..|SplitDots(s)| - 1] + [t]
    decreases |t|
  {
    if |t| == 0 {
      assert s + t == s;
      SplitDotEnd(s);
    } else {
      var u, c := t[..|t| - 1], t[|t| - 1];
      DotFreeInit(t);
      SplitAppendDotFree(s, u);
      assert s + t == (s + u) + [c];
      SplitSnoc(s + u, c);
      ReplaceLast(SplitDots(s)[..|SplitDots(s)| - 1], u, c);
    }
  }

  lemma DotFreeInit(t: string)
    requires '.' !in t && |t| > 0
    ensures '.' !in t[..|t| - 1] && t[|t| - 1] != '.'
    ensures t[..|t| - 1] + [t[|t| - 1]] == t
  {
    assert t[|t| - 1] in t;
    assert forall x :: x in t[..|t| - 1] ==> x in t;
  }

  lemma ReplaceLast(a: seq<string>, u: string, c: char)
    ensures var q := a + [u]; q[..|q| - 1] + [q[|q| - 1] + [c]] == a + [u + [c]]
  {
    var q := a + [u];
    assert q[..|q| - 1] == a;
  }

  /** The callee name `visit_Call` records: the text after the last dot of the unparsed
      callee, or the whole text when it has no dot. */
  function LastSegment(s: string): (r: string)
    ensures '.' !in r
    ensures '.' !in s ==> r == s
    ensures |r| <= |s| && s[|s| - |r|..] == r
    ensures '.' in s ==> |r| < |s| && s[|s| - |r| - 1] == '.'
  {
    if '.' in s then
      var parts := SplitDots(s);
      LastPieceFollowsDot(parts);
      parts[|parts| - 1]
    else s
  }

  /** The recorded name of an attribute call `a.m` is the attribute `m` itself. */
  lemma LastSegmentAfterDot(a: string, m: string)
    requires '.' !in m
    ensures LastSegment(a + "." + m) == m
  {
    var s := a + "." + m;
    var r := LastSegment(s);
    assert s[|s| - |m| - 1] == '.';
    assert |r| == |m|;
    assert s[|s| - |m|..] == m;
  }

  /** With two or more pieces, the last piece is a suffix of the joined text that follows a dot. */
  lemma LastPieceFollowsDot(parts: seq<string>)
    requires |parts| >= 1
    requires forall i :: 0 <= i < |parts| ==> '.' !in parts[i]
    ensures var s := JoinDots(parts); var r := parts[|parts| - 1];
      |r| <= |s| && s[|s| - |r|..] == r
      && ('.' in s ==> |r| < |s| && s[|s| - |r| - 1] == '.')
  {
    var s := JoinDots(parts);
    var r := parts[|parts| - 1];
    if |parts| >= 2 {
      var p := JoinDots(parts[..|parts| - 1]) + ".";
      assert s == p + r;
      assert s[|s| - |r|..] == r;
      assert s[|s| - |r| - 1] == p[|p| - 1];
    }
  }

  /** `_get_qualified_name`: "C.f" inside class C, otherwise the bare name. The class name
      counts only when truthy, so an empty class name qualifies nothing. */
  function Qualify(cls: Option<string>, name: string): (q: string)
    ensures |name| <= |q| && q[|q| - |name|..] == name
    ensures |name| < |q| <==> cls.Some? && cls.value != ""
    ensures |name| < |q| ==> q[..|q| - |name| - 1] == cls.value && q[|q| - |name| - 1] == '.'
    ensures '.' !in name && (cls.Some? ==> '.' !in cls.value) ==>
      ('.' in q <==> cls.Some? && cls.value != "")
  {
    if cls.Some? && cls.value != "" then
      var q := cls.value + "." + name;
      assert q[|cls.value|] == '.';
      assert q[..|cls.value|] == cls.value;
      q
    else name
  }

  /** For dot-free class and function names (every Python identifier is one), the qualified
      name splits back into the class and the function name, and a bare name stays whole. */
  lemma QualifySplits(cls: Option<string>, name: string)
    requires '.' !in name
    requires cls.Some? ==> '.' !in cls.value
    ensures cls.Some? && cls.value != "" ==> SplitDots(Qualify(cls, name)) == [cls.value, name]
    ensures !(cls.Some? && cls.value != "") ==> SplitDots(Qualify(cls, name)) == [name]
    ensures LastSegment(Qualify(cls, name)) == name
  {
    if cls.Some? && cls.value != "" {
      SplitJoin([cls.value, name]);
      assert JoinDots([cls.value, name]) == Qualify(cls, name) by {
        assert [cls.value, name][..1] == [cls.value];
      }
      assert '.' in Qualify(cls, name) by {
        assert Qualify(cls, name)[|cls.value|] == '.';
      }
    } else {
      SplitDotFree(name);
    }
  }
}
