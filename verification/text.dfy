/** The string primitives the Python code relies on, restricted to ASCII:
    `str.isspace`, `str.strip`, `str.lower`, the `in` substring test,
    `str.split(sep)` / `sep.join(parts)` for a one-character separator,
    and slicing `s[a:b]` with Python's index normalisation. */
module Text {
  import opened Seqs

  /** Python's `str.isspace()` on the ASCII range: space, `\t` to `\r`
      and the four separators `\x1c` to `\x1f`. */
  predicate IsSpace(c: char)
  {
    c == ' ' || ('\t' <= c <= '\r') || ('\U{1C}' <= c <= '\U{1F}')
  }

  /** Every character is whitespace (so `s.strip()` is falsy). */
  predicate IsBlank(s: string)
  {
    forall i :: 0 <= i < |s| ==> IsSpace(s[i])
  }

  lemma BlankCons(c: char, t: string)
    ensures IsBlank([c] + t) <==> IsSpace(c) && IsBlank(t)
  {
    var s := [c] + t;
    if IsBlank(s) {
      assert IsSpace(s[0]);
      forall i | 0 <= i < |t| ensures IsSpace(t[i]) {
        assert t[i] == s[i + 1];
      }
    }
    if IsSpace(c) && IsBlank(t) {
      forall i | 0 <= i < |s| ensures IsSpace(s[i]) {
        if i > 0 {
          assert s[i] == t[i - 1];
        }
      }
    }
  }

  /** The first position at or after `k` that is not whitespace (or `|s|`). */
  function SkipSpaces(s: string, k: nat): (n: nat)
    requires k <= |s|
    ensures k <= n <= |s|
    ensures forall i :: k <= i < n ==> IsSpace(s[i])
    ensures n < |s| ==> !IsSpace(s[n])
    decreases |s| - k
  {
    if k < |s| && IsSpace(s[k]) then SkipSpaces(s, k + 1) else k
  }

  /** The end of the non-whitespace text at or before `k`: the smallest
      `n <= k` such that `s[n..k]` is all whitespace. */
  function SkipSpacesBack(s: string, k: nat): (n: nat)
    requires k <= |s|
    ensures n <= k
    ensures forall i :: n <= i < k ==> IsSpace(s[i])
    ensures n > 0 ==> !IsSpace(s[n - 1])
  {
    if k > 0 && IsSpace(s[k - 1]) then SkipSpacesBack(s, k - 1) else k
  }

  /** `s` without its leading whitespace. */
  function TrimStart(s: string): (r: string)
    ensures |r| <= |s| && r == s[|s| - |r|..]
    ensures forall i :: 0 <= i < |s| - |r| ==> IsSpace(s[i])
    ensures r != [] ==> !IsSpace(r[0])
  {
    s[SkipSpaces(s, 0)..]
  }

  /** `s` without its trailing whitespace. */
  function TrimEnd(s: string): (r: string)
    ensures |r| <= |s| && r == s[..|r|]
    ensures forall i :: |r| <= i < |s| ==> IsSpace(s[i])
    ensures r != [] ==> !IsSpace(r[|r| - 1])
  {
    s[..SkipSpacesBack(s, |s|)]
  }

  lemma TrimBothEmpty(s: string)
    ensures TrimEnd(TrimStart(s)) == [] <==> IsBlank(s)
  {
    var t := TrimStart(s);
    var r := TrimEnd(t);
    assert t != [] ==> t[0] == s[|s| - |t|] && !IsSpace(t[0]);
    if r == [] {
      assert t == [];
    }
  }

  lemma TrimStartKeepsAbsent(s: string, x: char)
    requires x !in s
    ensures x !in TrimStart(s)
  {
    var r := TrimStart(s);
    forall i | 0 <= i < |r|
      ensures r[i] != x
    {
      assert r[i] == s[|s| - |r| + i];
    }
  }

  lemma TrimEndKeepsAbsent(s: string, x: char)
    requires x !in s
    ensures x !in TrimEnd(s)
  {
    var r := TrimEnd(s);
    forall i | 0 <= i < |r|
      ensures r[i] != x
    {
      assert r[i] == s[i];
    }
  }

  /** Python's `s.strip()`: `s` without its leading and trailing whitespace. */
  function Strip(s: string): (r: string)
    ensures r == [] <==> IsBlank(s)
  {
    TrimBothEmpty(s);
    TrimEnd(TrimStart(s))
  }

  /** The stripped string starts and ends with non-whitespace and is `s`
      itself when `s` has no whitespace at either end. */
  lemma StripEnds(s: string)
    ensures var r := Strip(s);
            && (r != [] ==> !IsSpace(r[0]) && !IsSpace(r[|r| - 1]))
            && ((|s| == 0 || (!IsSpace(s[0]) && !IsSpace(s[|s| - 1]))) ==> r == s)
  {
    var t := TrimStart(s);
    assert t != [] ==> TrimEnd(t)[0] == t[0];
  }

  /** Stripping never introduces a character. */
  lemma StripKeepsAbsent(s: string, x: char)
    ensures x !in s ==> x !in Strip(s)
  {
    if x !in s {
      TrimStartKeepsAbsent(s, x);
      TrimEndKeepsAbsent(TrimStart(s), x);
    }
  }

  /** Non-empty with no whitespace at either end: the shape of a non-blank
      string's `strip()`. */
  predicate Trimmed(s: string)
  {
    s != "" && !IsSpace(s[0]) && !IsSpace(s[|s| - 1])
  }

  /** `strip` yields a trimmed string or nothing, and leaves a trimmed
      string unchanged. */
  lemma StripTrims(s: string)
    ensures Strip(s) != "" ==> Trimmed(Strip(s))
    ensures Trimmed(s) ==> Strip(s) == s
  {
    StripEnds(s);
  }

  predicate AllBlank(xs: seq<string>)
  {
    forall k :: 0 <= k < |xs| ==> IsBlank(xs[k])
  }

  /** The stripped form of every non-blank string of `xs`, in order; blank
      strings are dropped. Both the TXT reader and the `file_id` parser
      filter their pieces this way. */
  function StripNonBlank(xs: seq<string>): (r: seq<string>)
    ensures |r| <= |xs|
    ensures forall u :: u in r ==> Trimmed(u)
    ensures r == [] <==> AllBlank(xs)
  {
    if |xs| == 0 then []
    else
      var rest := StripNonBlank(xs[1..]);
      var t := Strip(xs[0]);
      StripTrims(xs[0]);
      assert forall k :: 1 <= k < |xs| ==> xs[k] == xs[1..][k - 1];
      if t != "" then [t] + rest else rest
  }

  /** A single string contributes its stripped form, or nothing when blank. */
  lemma StripNonBlankOne(x: string)
    ensures StripNonBlank([x]) == if IsBlank(x) then [] else [Strip(x)]
  {
    assert [x][1..] == [];
  }

  /** The filter works piece by piece: it distributes over concatenation. */
  lemma {:induction false} StripNonBlankAppend(a: seq<string>, b: seq<string>)
    ensures StripNonBlank(a + b) == StripNonBlank(a) + StripNonBlank(b)
    decreases |a|
  {
    if |a| == 0 {
      assert a + b == b;
    } else {
      assert (a + b)[0] == a[0];
      assert (a + b)[1..] == a[1..] + b;
      StripNonBlankAppend(a[1..], b);
    }
  }

  /** No kept string holds a character that no input string holds. */
  lemma {:induction false} StripNonBlankKeepsAbsent(xs: seq<string>, c: char)
    requires forall x :: x in xs ==> c !in x
    ensures forall u :: u in StripNonBlank(xs) ==> c !in u
    decreases |xs|
  {
    if |xs| > 0 {
      assert xs[0] in xs;
      assert forall x :: x in xs[1..] ==> x in xs;
      StripNonBlankKeepsAbsent(xs[1..], c);
      StripKeepsAbsent(xs[0], c);
    }
  }

  /** Trimmed strings pass the filter unchanged. */
  lemma {:induction false} StripNonBlankClean(xs: seq<string>)
    requires forall x :: x in xs ==> Trimmed(x)
    ensures StripNonBlank(xs) == xs
    decreases |xs|
  {
    if |xs| > 0 {
      assert forall x :: x in xs[1..] ==> x in xs;
      StripNonBlankClean(xs[1..]);
      assert xs[0] in xs;
      StripTrims(xs[0]);
      assert StripNonBlank(xs) == [xs[0]] + StripNonBlank(xs[1..]);
    }
  }

  function LowerChar(c: char): char
  {
    if 'A' <= c <= 'Z' then (c as int - 'A' as int + 'a' as int) as char else c
  }

  /** Python's `s.lower()` on ASCII letters; every other character is kept. */
  function Lower(s: string): (r: string)
    ensures |r| == |s|
    ensures forall i :: 0 <= i < |s| ==> r[i] == LowerChar(s[i])
  {
    seq(|s|, i requires 0 <= i < |s| => LowerChar(s[i]))
  }

  lemma LowerAppend(a: string, b: string)
    ensures Lower(a + b) == Lower(a) + Lower(b)
  {
    var l := Lower(a + b);
    var r := Lower(a) + Lower(b);
    forall i | 0 <= i < |l|
      ensures l[i] == r[i]
    {
      if i < |a| {
        assert (a + b)[i] == a[i];
      } else {
        assert (a + b)[i] == b[i - |a|];
      }
    }
  }

  lemma LowerIdempotent(s: string)
    ensures Lower(Lower(s)) == Lower(s)
  {
  }

  /** Python's `needle in hay` for strings. */
  predicate Contains(hay: string, needle: string)
  {
    exists i :: 0 <= i <= |hay| && IsPrefix(needle, hay[i..])
  }

  /** Whatever contains `a + b` contains `a`. */
  lemma ContainsPrefixOf(hay: string, a: string, b: string)
    requires Contains(hay, a + b)
    ensures Contains(hay, a)
  {
    var i :| 0 <= i <= |hay| && IsPrefix(a + b, hay[i..]);
    assert hay[i..][..|a|] == (a + b)[..|a|] == a;
  }

  /** `sep.join(parts)` for a one-character separator. */
  function Join(parts: seq<string>, sep: char): string
  {
    if |parts| == 0 then ""
    else if |parts| == 1 then parts[0]
    else parts[0] + [sep] + Join(parts[1..], sep)
  }

  lemma {:induction false} JoinSnoc(parts: seq<string>, u: string, sep: char)
    requires |parts| >= 1
    ensures Join(parts + [u], sep) == Join(parts, sep) + [sep] + u
    decreases |parts|
  {
    if |parts| == 1 {
      assert parts + [u] == [parts[0], u];
    } else {
      assert (parts + [u])[1..] == parts[1..] + [u];
      JoinSnoc(parts[1..], u, sep);
    }
  }

  /** A non-empty first part makes the joined string non-empty. */
  lemma JoinStartsWithFirst(parts: seq<string>, sep: char)
    requires |parts| >= 1
    ensures IsPrefix(parts[0], Join(parts, sep))
  {
  }

  /** A character absent from every part and distinct from the separator is
      absent from the join. */
  lemma {:induction false} JoinKeepsAbsent(parts: seq<string>, sep: char, x: char)
    requires x != sep
    requires forall p :: p in parts ==> x !in p
    ensures x !in Join(parts, sep)
    decreases |parts|
  {
    if |parts| > 1 {
      JoinKeepsAbsent(parts[1..], sep, x);
    }
  }

  /** `s.split(sep)`: the maximal separator-free pieces between separators. */
  function Split(s: string, sep: char): (parts: seq<string>)
    ensures |parts| == Count(s, sep) + 1
    ensures forall p :: p in parts ==> sep !in p
    decreases |s|
  {
    if |s| == 0 then [""]
    else
      var rest := Split(s[1..], sep);
      if s[0] == sep then [""] + rest
      else
        assert sep !in [s[0]] + rest[0] by {
          assert rest[0] in rest;
        }
        [[s[0]] + rest[0]] + rest[1..]
  }

  /** Joining the pieces of a split gives back the original string. */
  lemma {:induction false} JoinSplit(s: string, sep: char)
    ensures Join(Split(s, sep), sep) == s
    decreases |s|
  {
    if |s| > 0 {
      var rest := Split(s[1..], sep);
      JoinSplit(s[1..], sep);
      if s[0] != sep && |rest| > 1 {
        assert Join(rest, sep) == rest[0] + [sep] + Join(rest[1..], sep);
      }
      assert s == [s[0]] + s[1..];
    }
  }

  /** Splitting a separator-free piece followed by a separator peels that piece off. */
  lemma {:induction false} SplitPeel(p: string, t: string, sep: char)
    requires sep !in p
    ensures Split(p + [sep] + t, sep) == [p] + Split(t, sep)
    decreases |p|
  {
    if |p| > 0 {
      assert (p + [sep] + t)[1..] == p[1..] + [sep] + t;
      SplitPeel(p[1..], t, sep);
      assert [p[0]] + p[1..] == p;
    } else {
      assert p + [sep] + t == [sep] + t;
    }
  }

  lemma {:induction false} SplitNoSep(p: string, sep: char)
    requires sep !in p
    ensures Split(p, sep) == [p]
    decreases |p|
  {
    if |p| > 0 {
      SplitNoSep(p[1..], sep);
      assert [p[0]] + p[1..] == p;
    }
  }

  /** Splitting a join of separator-free parts gives the parts back. */
  lemma {:induction false} SplitJoin(parts: seq<string>, sep: char)
    requires |parts| >= 1
    requires forall p :: p in parts ==> sep !in p
    ensures Split(Join(parts, sep), sep) == parts
    decreases |parts|
  {
    if |parts| == 1 {
      SplitNoSep(parts[0], sep);
    } else {
      SplitJoin(parts[1..], sep);
      SplitPeel(parts[0], Join(parts[1..], sep), sep);
      assert parts == [parts[0]] + parts[1..];
    }
  }

  /** Python's normalisation of a slice bound `i` against a length `n`. */
  function SliceBound(i: int, n: nat): (r: nat)
    ensures r <= n
    ensures 0 <= i <= n ==> r == i
  {
    if i < 0 then (if i + n < 0 then 0 else i + n)
    else if i > n then n
    else i
  }

  /** Python's `s[a:b]` (step 1), including negative bounds. */
  function Slice(s: string, a: int, b: int): (r: string)
    ensures 0 <= a <= b <= |s| ==> r == s[a..b]
  {
    var lo := SliceBound(a, |s|);
    var hi := SliceBound(b, |s|);
    if lo < hi then s[lo..hi] else ""
  }

  /** Python's `s.endswith(suffix)`. */
  predicate EndsWith(s: string, suffix: string)
  {
    |suffix| <= |s| && s[|s| - |suffix|..] == suffix
  }
}
