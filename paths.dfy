/**
 * The two path tests of `scanDirectory`: the skip test
 * (`skipItems.some(skip => fullPath.includes(skip))`) and the extension
 * test on Node's `path.extname`, over POSIX paths built by `path.join`.
 */
module Paths {

  /**
   * `path.join(dir, item)` for a normalised `dir` and a directory entry
   * name: the directory's path stays a prefix, and the last segment of the
   * result is the entry's own name.
   */
  function Join(dir: string, name: string): (p: string)
    ensures |p| == |dir| + 1 + |name| && p[..|dir|] == dir
    ensures NoSlash(name) ==> BaseStart(p) == |dir| + 1 && p[BaseStart(p)..] == name
  {
    var p := dir + "/" + name;
    assert NoSlash(name) ==> LastIndexOf(p, '/') == |dir| by {
      assert p[|dir|] == '/' && p[|dir| + 1..] == name;
    }
    p
  }

  /** A directory entry name: it never contains a separator. */
  predicate NoSlash(name: string) {
    forall j :: 0 <= j < |name| ==> name[j] != '/'
  }

  /** `t` is spelled by `s` starting at position `i`. */
  predicate SpellsAt(s: string, t: string, i: nat) {
    i + |t| <= |s| && s[i..i + |t|] == t
  }

  /** `s.includes(t)`: scan the start positions from the left. */
  predicate Includes(s: string, t: string)
    decreases |s|
  {
    |t| <= |s| && (s[..|t|] == t || Includes(s[1..], t))
  }

  /** `Includes` agrees with "some window of `s` spells `t`". */
  lemma {:induction false} IncludesIff(s: string, t: string)
    ensures Includes(s, t) <==> exists i: nat :: SpellsAt(s, t, i)
    decreases |s|
  {
    if |t| <= |s| && s[..|t|] != t {
      IncludesIff(s[1..], t);
      if Includes(s[1..], t) {
        var i: nat :| SpellsAt(s[1..], t, i);
        assert s[i + 1..i + 1 + |t|] == s[1..][i..i + |t|];
        assert SpellsAt(s, t, i + 1);
      }
      if exists i: nat :: SpellsAt(s, t, i) {
        var i: nat :| SpellsAt(s, t, i);
        assert i != 0;
        assert s[1..][i - 1..i - 1 + |t|] == s[i..i + |t|];
        assert SpellsAt(s[1..], t, i - 1);
      }
    } else if |t| <= |s| {
      assert SpellsAt(s, t, 0);
    } else {
      forall i: nat ensures !SpellsAt(s, t, i) {
      }
    }
  }

  /** A substring of a prefix is a substring of the whole. */
  lemma IncludesExtend(s: string, u: string, t: string)
    requires Includes(s, t)
    ensures Includes(s + u, t)
  {
    IncludesIff(s, t);
    var i: nat :| SpellsAt(s, t, i);
    assert (s + u)[i..i + |t|] == s[i..i + |t|];
    assert SpellsAt(s + u, t, i);
    IncludesIff(s + u, t);
  }

  /** `skipItems.some(skip => path.includes(skip))`. */
  predicate Skipped(path: string, skip: seq<string>)
    decreases |skip|
  {
    |skip| > 0 && (Includes(path, skip[0]) || Skipped(path, skip[1..]))
  }

  lemma {:induction false} SkippedIff(path: string, skip: seq<string>)
    ensures Skipped(path, skip) <==> exists k :: 0 <= k < |skip| && Includes(path, skip[k])
    decreases |skip|
  {
    if |skip| > 0 {
      SkippedIff(path, skip[1..]);
      if exists k :: 0 <= k < |skip| && Includes(path, skip[k]) {
        var k :| 0 <= k < |skip| && Includes(path, skip[k]);
        if k > 0 {
          assert skip[1..][k - 1] == skip[k];
        }
      }
      if Skipped(path, skip[1..]) {
        var k :| 0 <= k < |skip[1..]| && Includes(path, skip[1..][k]);
        assert skip[k + 1] == skip[1..][k];
      }
    }
  }

  /**
   * Pruning is sound: once a directory's path contains a skip token, so
   * does every path joined beneath it.
   */
  lemma SkippedBelow(dir: string, name: string, skip: seq<string>)
    requires Skipped(dir, skip)
    ensures Skipped(Join(dir, name), skip)
  {
    SkippedIff(dir, skip);
    var k :| 0 <= k < |skip| && Includes(dir, skip[k]);
    IncludesExtend(dir, "/" + name, skip[k]);
    assert dir + ("/" + name) == Join(dir, name);
    SkippedIff(Join(dir, name), skip);
  }

  /** `s.lastIndexOf(c)`: the last position holding `c`, or -1. */
  function LastIndexOf(s: string, c: char): (r: int)
    ensures -1 <= r < |s|
    ensures r >= 0 ==> s[r] == c
    ensures forall j :: r < j < |s| ==> s[j] != c
  {
    LastIndexBelow(s, c, |s|)
  }

  /** The last position below `n` holding `c`, or -1. */
  function LastIndexBelow(s: string, c: char, n: nat): (r: int)
    requires n <= |s|
    ensures -1 <= r < n
    ensures r >= 0 ==> s[r] == c
    ensures forall j :: r < j < n ==> s[j] != c
    decreases n
  {
    if n == 0 then -1
    else if s[n - 1] == c then n - 1
    else LastIndexBelow(s, c, n - 1)
  }

  /** Where the last path segment starts: just after the last `/`. */
  function BaseStart(p: string): (i: nat)
    ensures i <= |p|
    ensures i > 0 ==> p[i - 1] == '/'
    ensures forall j :: i <= j < |p| ==> p[j] != '/'
  {
    LastIndexOf(p, '/') + 1
  }

  /** The last path segment is `..`. */
  predicate IsDotDot(p: string) {
    var i := BaseStart(p);
    |p| - i == 2 && p[i] == '.' && p[i + 1] == '.'
  }

  /**
   * Node's `path.extname`: from the last `.` of the last segment to the
   * end, or "" when the segment has no `.`, when that `.` is the segment's
   * first character (a dotfile such as ".env"), or when the segment is
   * "..". The last `.` of the segment is the last `.` of the path when it
   * lies in the segment at all.
   */
  function Extname(p: string): string {
    var d := LastIndexOf(p, '.');
    if d <= BaseStart(p) || IsDotDot(p) then "" else p[d..]
  }

  /** The shape of a non-empty extension of `p`, stated without `Extname`. */
  predicate ExtensionOf(p: string, e: string) {
    0 < |e| < |p| && p[|p| - |e|..] == e && e[0] == '.' &&
    (forall j :: 1 <= j < |e| ==> e[j] != '.' && e[j] != '/') &&
    p[|p| - |e| - 1] != '/' && !IsDotDot(p)
  }

  /** A non-empty `Extname` has the shape `ExtensionOf` describes. */
  lemma ExtnameShape(p: string)
    requires Extname(p) != ""
    ensures ExtensionOf(p, Extname(p))
  {
    var i, d := BaseStart(p), LastIndexOf(p, '.');
    var e := p[d..];
    forall j | 1 <= j < |e| ensures e[j] != '.' && e[j] != '/' {
      assert e[j] == p[d + j];
    }
  }

  /** Every suffix of that shape is what `Extname` returns. */
  lemma ExtnameOfShape(p: string, e: string)
    requires ExtensionOf(p, e)
    ensures Extname(p) == e
  {
    var n := |p| - |e|;
    assert p[n] == '.';
    forall j | n < j < |p| ensures p[j] != '.' && p[j] != '/' {
      assert p[j] == e[j - n];
    }
    assert LastIndexOf(p, '.') == n;
    assert BaseStart(p) <= n - 1 < n;
  }

  /**
   * `Extname` is exactly the characterisation above: a non-empty result is
   * a suffix that starts with the segment's last `.`, is not the whole
   * segment, and is not the `..` entry.
   */
  lemma ExtnameIff(p: string, e: string)
    ensures (Extname(p) == e && e != "") <==> ExtensionOf(p, e)
  {
    if Extname(p) == e && e != "" {
      ExtnameShape(p);
    }
    if ExtensionOf(p, e) {
      ExtnameOfShape(p, e);
    }
  }

  /** An extension of a joined path has the same shape in the entry's name alone. */
  lemma ExtensionOfJoin(dir: string, name: string, e: string)
    requires NoSlash(name)
    ensures ExtensionOf(Join(dir, name), e) <==> ExtensionOf(name, e)
  {
    var p := Join(dir, name);
    var q := |dir| + 1;
    assert p[q..] == name;
    assert IsDotDot(p) <==> IsDotDot(name) by {
      assert BaseStart(p) == q;
      assert BaseStart(name) == 0;
    }
    if 0 < |e| <= |name| {
      assert p[|p| - |e|..] == name[|name| - |e|..];
      if |e| < |name| {
        assert p[|p| - |e| - 1] == name[|name| - |e| - 1];
      } else {
        assert p[|p| - |e| - 1] == '/';
      }
    }
  }

  /**
   * The extension test of a joined path sees only the entry's own name:
   * the directory it lies in never changes the extension.
   */
  lemma ExtnameOfJoin(dir: string, name: string)
    requires NoSlash(name)
    ensures Extname(Join(dir, name)) == Extname(name)
  {
    var p := Join(dir, name);
    var e := Extname(p);
    if e != "" {
      ExtnameIff(p, e);
      ExtensionOfJoin(dir, name, e);
      ExtnameIff(name, e);
    } else if Extname(name) != "" {
      ExtnameIff(name, Extname(name));
      ExtensionOfJoin(dir, name, Extname(name));
      ExtnameIff(p, Extname(name));
    }
  }

  /** An extension has exactly one `.`: its first character. */
  lemma ExtnameOneDot(p: string)
    ensures Extname(p) == "" || (Extname(p)[0] == '.' &&
            forall j :: 1 <= j < |Extname(p)| ==> Extname(p)[j] != '.')
  {
    if Extname(p) != "" {
      ExtnameIff(p, Extname(p));
    }
  }

  /** `p` is `q` itself or a path below it: `q`, then nothing or a separator. */
  predicate Under(p: string, q: string) {
    |q| <= |p| && p[..|q|] == q && (|p| == |q| || p[|q|] == '/')
  }

  /** A joined path lies below its directory. */
  lemma UnderJoin(dir: string, name: string)
    ensures Under(Join(dir, name), dir)
  {
  }

  lemma UnderTrans(p: string, q: string, r: string)
    requires Under(p, q) && Under(q, r)
    ensures Under(p, r)
  {
    assert p[..|r|] == p[..|q|][..|r|];
  }

  /**
   * Paths below two different names of one directory are different: a
   * name without a separator is read back as the text up to the next
   * separator or the end.
   */
  lemma UnderApart(pre: string, a: string, b: string, p: string, q: string)
    requires NoSlash(a) && NoSlash(b) && a != b
    requires Under(p, pre + a) && Under(q, pre + b)
    ensures p != q
  {
    var l := |pre|;
    assert forall j :: 0 <= j < |a| ==> p[l + j] == (pre + a)[l + j] == a[j];
    assert forall j :: 0 <= j < |b| ==> q[l + j] == (pre + b)[l + j] == b[j];
    if |a| == |b| {
      var j :| 0 <= j < |a| && a[j] != b[j];
      assert p[l + j] != q[l + j];
    } else if |a| < |b| {
      assert q[l + |a|] == b[|a|] != '/';
      assert |p| == l + |a| || p[l + |a|] == '/';
    } else {
      assert p[l + |b|] == a[|b|] != '/';
      assert |q| == l + |b| || q[l + |b|] == '/';
    }
  }
}
