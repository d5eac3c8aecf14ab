/**
 * The file-name filter handed to the directory watcher: "*." followed by the
 * configured extension with every leading and trailing '.' removed, the way
 * .NET's String.Trim(char) removes them.
 */
module FileFilter {

  predicate AllOf(s: string, c: char) {
    forall i | 0 <= i < |s| :: s[i] == c
  }

  /** String.TrimStart(c): drops the run of c at the front, and only that. */
  function TrimStart(s: string, c: char): (r: string)
    ensures |r| <= |s| && r == s[|s| - |r|..]
    ensures AllOf(s[..|s| - |r|], c)
    ensures r == [] || r[0] != c
  {
    if s != [] && s[0] == c then
      var r := TrimStart(s[1..], c);
      assert s[..|s| - |r|] == [c] + s[1..][..|s| - 1 - |r|];
      r
    else s
  }

  /** String.TrimEnd(c): drops the run of c at the back, and only that. */
  function TrimEnd(s: string, c: char): (r: string)
    ensures |r| <= |s| && r == s[..|r|]
    ensures AllOf(s[|r|..], c)
    ensures r == [] || r[|r| - 1] != c
  {
    if s != [] && s[|s| - 1] == c then
      var r := TrimEnd(s[..|s| - 1], c);
      assert s[|r|..] == s[..|s| - 1][|r|..] + [c];
      r
    else s
  }

  /** String.Trim(c): the result neither starts nor ends with c. */
  function Trim(s: string, c: char): (r: string)
    ensures |r| <= |s|
    ensures r == [] || (r[0] != c && r[|r| - 1] != c)
  {
    TrimEnd(TrimStart(s, c), c)
  }

  /** The watcher filter built from the configured extension. */
  function Filter(extension: string): (r: string)
    ensures |r| >= 2 && r[..2] == "*."
    ensures |r| == 2 || (r[2] != '.' && r[|r| - 1] != '.')
  {
    "*." + Trim(extension, '.')
  }

  lemma TrimStartSplits(s: string, c: char) returns (lead: string)
    ensures AllOf(lead, c) && s == lead + TrimStart(s, c)
  {
    var t := TrimStart(s, c);
    lead := s[..|s| - |t|];
    assert s == s[..|s| - |t|] + s[|s| - |t|..];
  }

  lemma TrimEndSplits(s: string, c: char) returns (tail: string)
    ensures AllOf(tail, c) && s == TrimEnd(s, c) + tail
  {
    var r := TrimEnd(s, c);
    tail := s[|r|..];
    assert s == s[..|r|] + s[|r|..];
  }

  /** What Trim cuts off is a run of c at each end: s is its trimmed middle padded by them. */
  lemma TrimSplits(s: string, c: char) returns (lead: string, tail: string)
    ensures AllOf(lead, c) && AllOf(tail, c)
    ensures s == lead + Trim(s, c) + tail
  {
    lead := TrimStartSplits(s, c);
    tail := TrimEndSplits(TrimStart(s, c), c);
  }

  lemma {:induction false} TrimStartPadded(pre: string, rest: string, c: char)
    requires AllOf(pre, c)
    ensures TrimStart(pre + rest, c) == TrimStart(rest, c)
  {
    if pre != [] {
      var s := pre + rest;
      assert s != [] && s[0] == c;
      assert TrimStart(s, c) == TrimStart(s[1..], c);
      assert s[1..] == pre[1..] + rest;
      TrimStartPadded(pre[1..], rest, c);
    } else {
      assert pre + rest == rest;
    }
  }

  lemma {:induction false} TrimEndPadded(rest: string, post: string, c: char)
    requires AllOf(post, c)
    ensures TrimEnd(rest + post, c) == TrimEnd(rest, c)
  {
    if post != [] {
      var s := rest + post;
      assert s != [] && s[|s| - 1] == c;
      assert TrimEnd(s, c) == TrimEnd(s[..|s| - 1], c);
      assert s[..|s| - 1] == rest + post[..|post| - 1];
      TrimEndPadded(rest, post[..|post| - 1], c);
    } else {
      assert rest + post == rest;
    }
  }

  /**
   * Trim is exactly "cut the runs of c at both ends": padding a core that
   * neither starts nor ends with c by any runs of c gives that core back.
   */
  lemma TrimOfPadded(pre: string, core: string, post: string, c: char)
    requires AllOf(pre, c) && AllOf(post, c)
    requires core == [] || (core[0] != c && core[|core| - 1] != c)
    ensures Trim(pre + core + post, c) == core
  {
    if core == [] {
      assert pre + core + post == pre + post;
      assert AllOf(pre + post, c);
      assert TrimStart(pre + post, c) == [];
    } else {
      assert pre + core + post == pre + (core + post);
      TrimStartPadded(pre, core + post, c);
      assert TrimStart(core + post, c) == core + post;
      TrimEndPadded(core, post, c);
      assert TrimEnd(core, c) == core;
    }
  }

  lemma AllOfConcat(a: string, b: string, c: char)
    requires AllOf(a, c) && AllOf(b, c)
    ensures AllOf(a + b, c)
  {
    forall i | 0 <= i < |a + b| ensures (a + b)[i] == c {
      if i < |a| { assert (a + b)[i] == a[i]; } else { assert (a + b)[i] == b[i - |a|]; }
    }
  }

  /** Regrouping the five pieces of a padded string; proved apart to keep TrimIgnoresPadding small. */
  lemma Regroup(a: string, b: string, m: string, d: string, e: string)
    ensures a + (b + m + d) + e == (a + b) + m + (d + e)
  {
  }

  /** Extra runs of c around a string do not change what Trim leaves. */
  lemma TrimIgnoresPadding(pre: string, s: string, post: string, c: char)
    requires AllOf(pre, c) && AllOf(post, c)
    ensures Trim(pre + s + post, c) == Trim(s, c)
  {
    var core := Trim(s, c);
    var lead, tail := TrimSplits(s, c);
    AllOfConcat(pre, lead, c);
    AllOfConcat(tail, post, c);
    Regroup(pre, lead, core, tail, post);
    TrimOfPadded(pre + lead, core, tail + post, c);
  }

  /** Any number of dots around the configured extension give the same filter. */
  lemma FilterIgnoresDots(pre: string, extension: string, post: string)
    requires AllOf(pre, '.') && AllOf(post, '.')
    ensures Filter(pre + extension + post) == Filter(extension)
  {
    TrimIgnoresPadding(pre, extension, post, '.');
  }

  lemma FilterOfPlainTxt()
    ensures Filter("txt") == "*.txt"
  {
    TrimOfPadded("", "txt", "", '.');
    assert "" + "txt" + "" == "txt";
  }

  lemma FilterWithLeadingDot()
    ensures Filter(".txt") == Filter("txt")
  {
    var e := "." + "txt" + "";
    assert e == ".txt";
    FilterIgnoresDots(".", "txt", "");
  }

  lemma FilterWithTrailingDot()
    ensures Filter("txt.") == Filter("txt")
  {
    var e := "" + "txt" + ".";
    assert e == "txt.";
    FilterIgnoresDots("", "txt", ".");
  }

  lemma FilterWithDotsAround()
    ensures Filter("..txt..") == Filter("txt")
  {
    var e := ".." + "txt" + "..";
    assert e == "..txt..";
    FilterIgnoresDots("..", "txt", "..");
  }

  /** "txt", ".txt", "txt." and "..txt.." all watch "*.txt". */
  lemma FilterExamples()
    ensures Filter(".txt") == Filter("txt.") == Filter("..txt..") == Filter("txt") == "*.txt"
  {
    FilterOfPlainTxt();
    FilterWithLeadingDot();
    FilterWithTrailingDot();
    FilterWithDotsAround();
  }

  /** An extension made only of dots (or empty) leaves the bare "*." filter. */
  lemma FilterOfDotsOnly(extension: string)
    requires AllOf(extension, '.')
    ensures Filter(extension) == "*."
  {
    TrimOfPadded(extension, "", "", '.');
    assert extension + "" + "" == extension;
  }
}
