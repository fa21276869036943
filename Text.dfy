/**
 * The string operations of Python's `str` and `os.path` that the program
 * relies on, stated over `seq<char>`.
 */
module Text {
  import opened Wrappers

  /** The characters for which Python's `str.isspace` holds. */
  predicate IsSpace(c: char)
  {
    c in Whitespace
  }

  const Whitespace: set<char> := {' ', '\t', '\n', '\U{b}', '\U{c}', '\r', '\U{1c}', '\U{1d}', '\U{1e}', '\U{1f}',
    '\U{85}', '\U{a0}', '\U{1680}', '\U{2000}', '\U{2001}', '\U{2002}', '\U{2003}', '\U{2004}', '\U{2005}',
    '\U{2006}', '\U{2007}', '\U{2008}', '\U{2009}', '\U{200a}', '\U{2028}', '\U{2029}', '\U{202f}', '\U{205f}', '\U{3000}'}

  /** `s.lstrip()`. */
  function TrimLeft(s: string): string
  {
    if s != [] && IsSpace(s[0]) then TrimLeft(s[1..]) else s
  }

  /** `s.rstrip()`. */
  function TrimRight(s: string): string
  {
    if s != [] && IsSpace(s[|s| - 1]) then TrimRight(s[..|s| - 1]) else s
  }

  /** `s.strip()`. */
  function Strip(s: string): string
  {
    TrimRight(TrimLeft(s))
  }

  /** `lstrip` keeps a suffix and drops only whitespace, up to a non-space character. */
  lemma {:induction false} TrimLeftSpec(s: string)
    ensures |TrimLeft(s)| <= |s| && TrimLeft(s) == s[|s| - |TrimLeft(s)|..]
    ensures forall k :: 0 <= k < |s| - |TrimLeft(s)| ==> IsSpace(s[k])
    ensures TrimLeft(s) == [] || !IsSpace(TrimLeft(s)[0])
  {
    if s != [] && IsSpace(s[0]) {
      var t := s[1..];
      TrimLeftSpec(t);
      assert TrimLeft(s) == TrimLeft(t);
      assert t[|t| - |TrimLeft(t)|..] == s[|s| - |TrimLeft(t)|..];
      assert forall k :: 1 <= k < |s| - |TrimLeft(s)| ==> s[k] == t[k - 1];
    }
  }

  /** `rstrip` keeps a prefix and drops only whitespace, back to a non-space character. */
  lemma {:induction false} TrimRightSpec(s: string)
    ensures |TrimRight(s)| <= |s| && TrimRight(s) == s[..|TrimRight(s)|]
    ensures forall k :: |TrimRight(s)| <= k < |s| ==> IsSpace(s[k])
    ensures TrimRight(s) == [] || !IsSpace(TrimRight(s)[|TrimRight(s)| - 1])
  {
    if s != [] && IsSpace(s[|s| - 1]) {
      var t := s[..|s| - 1];
      TrimRightSpec(t);
      assert TrimRight(s) == TrimRight(t);
      assert t[..|TrimRight(t)|] == s[..|TrimRight(t)|];
      assert forall k :: |TrimRight(s)| <= k < |s| - 1 ==> s[k] == t[k];
    }
  }

  /**
   * `strip` keeps a contiguous part of `s` that starts where `lstrip` stops:
   * only whitespace lies before and after it, and neither of its ends is
   * whitespace.
   */
  lemma StripSpec(s: string)
    ensures var i := |s| - |TrimLeft(s)|;
      && 0 <= i <= |s| - |Strip(s)| && Strip(s) == s[i..i + |Strip(s)|]
      && (forall k :: 0 <= k < i ==> IsSpace(s[k]))
      && (forall k :: i + |Strip(s)| <= k < |s| ==> IsSpace(s[k]))
    ensures Strip(s) == [] || (!IsSpace(Strip(s)[0]) && !IsSpace(Strip(s)[|Strip(s)| - 1]))
  {
    TrimLeftSpec(s);
    TrimRightSpec(TrimLeft(s));
    Window(s, TrimLeft(s), Strip(s));
  }

  /** A prefix `r` of a suffix `t` of `s`, with whitespace only around it, seen as a slice of `s`. */
  lemma Window(s: string, t: string, r: string)
    requires |t| <= |s| && t == s[|s| - |t|..]
    requires |r| <= |t| && r == t[..|r|]
    requires forall k :: 0 <= k < |s| - |t| ==> IsSpace(s[k])
    requires forall k :: |r| <= k < |t| ==> IsSpace(t[k])
    requires t == [] || !IsSpace(t[0])
    requires r == [] || !IsSpace(r[|r| - 1])
    ensures var i := |s| - |t|;
      && 0 <= i <= |s| - |r| && r == s[i..i + |r|]
      && (forall k :: 0 <= k < i ==> IsSpace(s[k]))
      && (forall k :: i + |r| <= k < |s| ==> IsSpace(s[k]))
    ensures r == [] || (!IsSpace(r[0]) && !IsSpace(r[|r| - 1]))
  {
    var i := |s| - |t|;
    forall k | i + |r| <= k < |s|
      ensures IsSpace(s[k])
    {
      assert s[k] == t[k - i];
    }
    if r != [] {
      assert r[0] == t[0];
    }
  }

  /**
   * One character of `str.lower`. Only ASCII letters are mapped: every
   * pattern the program compares lowered text against is lower-case ASCII
   * without a combining mark, and no other character lowers into such a
   * pattern, so the comparisons come out as they do in Python.
   */
  function LowerChar(c: char): (r: char)
    ensures 'A' <= c <= 'Z' ==> r as int == c as int + 32
    ensures !('A' <= c <= 'Z') ==> r == c
  {
    if 'A' <= c <= 'Z' then (c as int + 32) as char else c
  }

  /** `s.lower()`, character by character. */
  function Lower(s: string): (r: string)
    ensures |r| == |s|
  {
    seq(|s|, k requires 0 <= k < |s| => LowerChar(s[k]))
  }

  /** The two characters are equal, or they are the same ASCII letter in different cases. */
  predicate SameIgnoringCase(c: char, d: char)
  {
    c == d || ('A' <= c <= 'Z' && d as int == c as int + 32) || ('A' <= d <= 'Z' && c as int == d as int + 32)
  }

  /** Two characters lower to the same one exactly when they agree up to ASCII case. */
  lemma LowerCharCaseless(c: char, d: char)
    ensures LowerChar(c) == LowerChar(d) <==> SameIgnoringCase(c, d)
  {
  }

  /** Two strings lower to the same string exactly when they agree, position by position, up to ASCII case. */
  lemma LowerCaseless(s: string, t: string)
    ensures Lower(s) == Lower(t) <==> |s| == |t| && forall k :: 0 <= k < |s| ==> SameIgnoringCase(s[k], t[k])
  {
    if |s| == |t| {
      forall k | 0 <= k < |s|
        ensures Lower(s)[k] == Lower(t)[k] <==> SameIgnoringCase(s[k], t[k])
      {
        LowerCharCaseless(s[k], t[k]);
      }
      if forall k :: 0 <= k < |s| ==> SameIgnoringCase(s[k], t[k]) {
        assert forall k :: 0 <= k < |s| ==> Lower(s)[k] == Lower(t)[k];
      } else {
        var k :| 0 <= k < |s| && !SameIgnoringCase(s[k], t[k]);
        assert Lower(s)[k] != Lower(t)[k];
      }
    }
  }

  /** A lowered string has no upper-case ASCII letter, so lowering it again changes nothing. */
  lemma LowerIdempotent(s: string)
    ensures forall k :: 0 <= k < |s| ==> !('A' <= Lower(s)[k] <= 'Z')
    ensures Lower(Lower(s)) == Lower(s)
  {
    assert forall k :: 0 <= k < |s| ==> Lower(Lower(s))[k] == Lower(s)[k];
  }

  /** A name ending in `.pdf` as typed still ends in `.pdf` once lowered. */
  lemma LowerKeepsPdfSuffix(s: string)
    requires EndsWith(s, ".pdf")
    ensures EndsWith(Lower(s), ".pdf")
  {
    assert forall k :: |s| - 4 <= k < |s| ==> Lower(s)[k] == s[k];
  }

  /** Lowering a slice is slicing the lowered string. */
  lemma LowerSlice(s: string, i: nat, j: nat)
    requires i <= j <= |s|
    ensures Lower(s[i..j]) == Lower(s)[i..j]
  {
    assert forall k :: 0 <= k < j - i ==> Lower(s[i..j])[k] == Lower(s)[i..j][k];
  }

  /** `s.endswith(suffix)`. */
  predicate EndsWith(s: string, suffix: string)
  {
    |suffix| <= |s| && s[|s| - |suffix|..] == suffix
  }

  /** `s.endswith(suffixes)` for a tuple of suffixes: one of them matches. */
  predicate EndsWithAny(s: string, suffixes: seq<string>)
  {
    exists k :: 0 <= k < |suffixes| && EndsWith(s, suffixes[k])
  }

  /** `t` occurs in `s` at position `i`. */
  predicate OccursAt(s: string, t: string, i: int)
  {
    0 <= i <= |s| - |t| && s[i..i + |t|] == t
  }

  /** Python's `t in s` for strings, searching from the left. */
  function Contains(s: string, t: string): (r: bool)
    ensures r <==> exists i :: OccursAt(s, t, i)
    decreases |s|
  {
    if |t| > |s| then
      false
    else if s[..|t|] == t then
      assert OccursAt(s, t, 0);
      true
    else
      var r := Contains(s[1..], t);
      assert r ==> exists i :: OccursAt(s, t, i) by {
        if r {
          var j :| OccursAt(s[1..], t, j);
          assert s[1..][j..j + |t|] == s[j + 1..j + 1 + |t|];
          assert OccursAt(s, t, j + 1);
        }
      }
      assert (exists i :: OccursAt(s, t, i)) ==> r by {
        if exists i :: OccursAt(s, t, i) {
          var i :| OccursAt(s, t, i);
          assert i != 0;
          assert s[1..][i - 1..i - 1 + |t|] == s[i..i + |t|];
          assert OccursAt(s[1..], t, i - 1);
        }
      }
      r
  }

  /** `os.path.dirname(name) != ''` on POSIX: the name has a `/` in it. */
  predicate HasDirPart(name: string)
  {
    '/' in name
  }

  /** `os.path.basename(p)`: what follows the last `/`. */
  function BaseName(p: string): (r: string)
    ensures '/' !in r
    ensures |r| <= |p| && r == p[|p| - |r|..]
    ensures |r| < |p| ==> p[|p| - |r| - 1] == '/'
  {
    if p == [] || p[|p| - 1] == '/' then
      []
    else
      var r := BaseName(p[..|p| - 1]) + [p[|p| - 1]];
      assert p == p[..|p| - 1] + [p[|p| - 1]];
      r
  }

  /** Some `.` in `b` has a character other than `.` before it. */
  predicate HasExtension(b: string)
  {
    exists j, k :: 0 <= j < k < |b| && b[j] != '.' && b[k] == '.'
  }

  /** A path without `/` is its own basename. */
  lemma BaseNameOfPlainName(p: string)
    requires '/' !in p
    ensures BaseName(p) == p
  {
    assert forall i :: 0 <= i < |p| ==> p[i] != '/' by {
      forall i | 0 <= i < |p| ensures p[i] != '/' { assert p[i] in p; }
    }
  }

  /**
   * `os.path.splitext(b)` for a name without `/`: the root and the extension.
   * The extension starts at the last `.`, unless only dots precede it.
   */
  function SplitExt(b: string): (pair: (string, string))
    requires '/' !in b
    ensures pair.0 + pair.1 == b
    ensures pair.1 == [] || (pair.1[0] == '.' && '.' !in pair.1[1..])
  {
    match LastDot(b)
    case None => (b, [])
    case Some(k) =>
      if exists j :: 0 <= j < k && b[j] != '.' then
        assert b[..k] + b[k..] == b;
        (b[..k], b[k..])
      else
        (b, [])
  }

  /**
   * The extension is non-empty exactly when some `.` has a character other
   * than `.` before it; with the contract of `SplitExt`, it then starts at the
   * last `.` of the name.
   */
  lemma SplitExtAtLastDot(b: string)
    requires '/' !in b
    ensures SplitExt(b).1 != [] <==> HasExtension(b)
  {
    match LastDot(b)
    case None =>
      forall k | 0 <= k < |b| ensures b[k] != '.' { assert b[k] in b; }
    case Some(k) =>
      if exists j :: 0 <= j < k && b[j] != '.' {
        var j :| 0 <= j < k && b[j] != '.';
        assert b[j] != '.' && b[k] == '.';
      } else {
        forall m | k < m < |b| ensures b[m] != '.' {
          assert b[m] == b[k + 1..][m - k - 1];
        }
      }
  }

  /** A name with exactly one `.`, not at its start, splits at that `.`. */
  lemma SplitExtAtOnlyDot(b: string, k: nat)
    requires '/' !in b && 0 < k < |b| && b[k] == '.'
    requires forall i :: 0 <= i < |b| && i != k ==> b[i] != '.'
    ensures SplitExt(b) == (b[..k], b[k..])
  {
    var (root, ext) := SplitExt(b);
    assert HasExtension(b) by {
      assert b[0] != '.';
    }
    SplitExtAtLastDot(b);
    var n := |b| - |ext|;
    assert b[n] == ext[0] by {
      assert b == root + ext;
    }
    assert n == k;
    assert root == b[..k] && ext == b[k..] by {
      assert b == root + ext;
    }
  }

  /** The position of the last `.` in `s`, if any. */
  function LastDot(s: string): (r: Option<nat>)
    ensures r.None? <==> '.' !in s
    ensures r.Some? ==> r.value < |s| && s[r.value] == '.' && '.' !in s[r.value + 1..]
  {
    if s == [] then
      None
    else if s[|s| - 1] == '.' then
      Some(|s| - 1)
    else
      var r := LastDot(s[..|s| - 1]);
      assert s == s[..|s| - 1] + [s[|s| - 1]];
      match r
      case None => None
      case Some(k) =>
        assert s[k + 1..] == s[..|s| - 1][k + 1..] + [s[|s| - 1]];
        Some(k)
  }

  /** `os.path.join(dir, name)` for a name without `/`. */
  function Join(dir: string, name: string): (r: string)
    requires '/' !in name
    ensures BaseName(r) == name
    ensures dir == [] || dir[|dir| - 1] == '/' ==> r == dir + name
    ensures dir != [] && dir[|dir| - 1] != '/' ==> r == dir + "/" + name
  {
    var r := if dir == [] || dir[|dir| - 1] == '/' then dir + name else dir + "/" + name;
    BaseNameOfSuffix(r, name);
    r
  }

  /** Joining a name made of two parts puts both parts after the directory. */
  lemma JoinSuffix(dir: string, a: string, b: string)
    requires '/' !in a + b
    ensures || Join(dir, a + b) == dir + a + b
            || Join(dir, a + b) == dir + "/" + a + b
  {
    assert dir + (a + b) == dir + a + b;
    assert dir + "/" + (a + b) == dir + "/" + a + b;
  }

  /** A `/`-free suffix that follows a `/` (or is the whole string) is the basename. */
  lemma BaseNameOfSuffix(p: string, name: string)
    requires '/' !in name
    requires EndsWith(p, name)
    requires |p| == |name| || p[|p| - |name| - 1] == '/'
    ensures BaseName(p) == name
  {
  }
}
