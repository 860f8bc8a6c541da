/** POSIX `os.path.splitext`: the extension is the part from the last dot
    of the last path component, unless every character before that dot in
    the component is itself a dot (so `.bashrc` has no extension). */
module PathExt {

  /** Python's `s.rfind(c)`: the last index holding `c`, or -1. */
  function RFind(s: string, c: char): (i: int)
    ensures -1 <= i < |s|
    ensures i >= 0 ==> s[i] == c
    ensures forall k :: i < k < |s| ==> s[k] != c
    decreases |s|
  {
    if |s| == 0 then -1
    else if s[|s| - 1] == c then |s| - 1
    else RFind(s[..|s| - 1], c)
  }

  lemma {:induction false} RFindAppend(a: string, b: string, c: char)
    ensures RFind(a + b, c) == if RFind(b, c) >= 0 then |a| + RFind(b, c) else RFind(a, c)
    decreases |b|
  {
    if |b| == 0 {
      assert a + b == a;
    } else if b[|b| - 1] != c {
      assert (a + b)[..|a + b| - 1] == a + b[..|b| - 1];
      RFindAppend(a, b[..|b| - 1], c);
    }
  }

  predicate HasNonDot(s: string)
  {
    exists k :: 0 <= k < |s| && s[k] != '.'
  }

  /** The last path component of `p` (after its last `/`). */
  function BaseName(p: string): string
  {
    p[RFind(p, '/') + 1..]
  }

  /** Nothing after the last occurrence of `c` is a `c`. */
  lemma AfterLastHasNone(s: string, c: char, from: int)
    requires RFind(s, c) < from <= |s|
    ensures c !in s[from..]
  {
    forall k | 0 <= k < |s| - from
      ensures s[from..][k] != c
    {
      assert s[from..][k] == s[from + k];
    }
  }

  lemma {:induction false} RFindAbsent(s: string, c: char)
    requires c !in s
    ensures RFind(s, c) == -1
    decreases |s|
  {
    if |s| > 0 {
      assert s[|s| - 1] in s;
      assert forall x :: x in s[..|s| - 1] ==> x in s;
      RFindAbsent(s[..|s| - 1], c);
    }
  }

  /** Cutting `p` after its last `c` keeps that last `c`. */
  lemma {:induction false} RFindOfPrefix(p: string, c: char, d: int)
    requires RFind(p, c) < d <= |p|
    ensures RFind(p[..d], c) == RFind(p, c)
    decreases |p| - d
  {
    if d < |p| {
      var q := p[..|p| - 1];
      assert q[..d] == p[..d];
      RFindOfPrefix(q, c, d);
    } else {
      assert p[..d] == p;
    }
  }

  lemma BaseNameOfPrefix(p: string, d: int)
    requires RFind(p, '/') < d <= |p|
    ensures BaseName(p[..d]) == p[RFind(p, '/') + 1..d]
  {
    var i := RFind(p, '/');
    RFindOfPrefix(p, '/', d);
    assert p[..d][i + 1..] == p[i + 1..d];
  }

  /** `os.path.splitext(p)` as the pair `(root, ext)`. */
  function SplitExt(p: string): (r: (string, string))
    ensures r.0 + r.1 == p
    ensures r.1 == "" || (r.1[0] == '.' && '.' !in r.1[1..] && '/' !in r.1)
    ensures r.1 != "" ==> HasNonDot(BaseName(r.0))
  {
    var sepIndex := RFind(p, '/');
    var dotIndex := RFind(p, '.');
    if dotIndex > sepIndex && HasNonDot(p[sepIndex + 1..dotIndex]) then
      AfterLastHasNone(p, '.', dotIndex + 1);
      AfterLastHasNone(p, '/', dotIndex);
      BaseNameOfPrefix(p, dotIndex);
      assert p[dotIndex..][1..] == p[dotIndex + 1..];
      (p[..dotIndex], p[dotIndex..])
    else (p, "")
  }

  /** `os.path.splitext(p)[1]`. */
  function Ext(p: string): string
  {
    SplitExt(p).1
  }

  /** `os.path.splitext(p)[0]`. */
  function Root(p: string): string
  {
    SplitExt(p).0
  }

  /** Appending a well-formed extension to a root whose last component has
      a non-dot character is undone by `splitext`. */
  lemma SplitExtOfAppend(root: string, ext: string)
    requires |ext| >= 1 && ext[0] == '.' && '.' !in ext[1..] && '/' !in ext
    requires HasNonDot(BaseName(root))
    ensures SplitExt(root + ext) == (root, ext)
  {
    var p := root + ext;
    RFindAbsent(ext, '/');
    RFindAbsent(ext[1..], '.');
    assert ext == [ext[0]] + ext[1..];
    RFindAppend([ext[0]], ext[1..], '.');
    RFindAppend(root, ext, '/');
    RFindAppend(root, ext, '.');
    assert p[..|root|] == root && p[|root|..] == ext;
    assert p[RFind(p, '/') + 1..RFind(p, '.')] == BaseName(root);
  }
}
