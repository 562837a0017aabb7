/** The parts of Python's `posixpath` the core uses: `join` of two parts and
    `splitext`, together with the facts the ingestor, the extractor and the
    upload handler rely on (only the last component counts, the last dot
    starts the extension, a leading run of dots belongs to the name). */
module PosixPath {
  import opened Text

  /** `s.rfind(c)`: the last index holding `c`, or -1. */
  function RFind(s: string, c: char): (r: int)
    ensures -1 <= r < |s|
    ensures r >= 0 ==> s[r] == c
    ensures forall i :: r < i < |s| ==> s[i] != c
  {
    if s == [] then -1
    else if s[|s| - 1] == c then |s| - 1
    else RFind(s[..|s| - 1], c)
  }

  /** `posixpath.join(a, b)`: an absolute `b` wins; otherwise a single `/`
      separates the parts unless `a` is empty or already ends with one. */
  function Join(a: string, b: string): (r: string)
    ensures StartsWith(b, '/') ==> r == b
    ensures !StartsWith(b, '/') ==> |a| <= |r| && r[..|a|] == a
    ensures |b| <= |r| && r[|r| - |b|..] == b
    ensures |r| == |b| || r[|r| - |b| - 1] == '/'
    ensures !StartsWith(b, '/') ==> |r| == |a| + |b| + (if a == "" || a[|a| - 1] == '/' then 0 else 1)
  {
    if StartsWith(b, '/') then b
    else if a == "" || a[|a| - 1] == '/' then a + b
    else a + "/" + b
  }

  /** The file name part of `p` (what `posixpath.basename` returns). */
  function BaseName(p: string): (r: string)
    ensures '/' !in r
    ensures |r| <= |p| && r == p[|p| - |r|..]
    ensures |r| == |p| || p[|p| - |r| - 1] == '/'
  {
    p[RFind(p, '/') + 1..]
  }

  /** Joining a directory with a plain file name gives back that name as the
      last component. */
  lemma BaseNameOfJoin(dir: string, name: string)
    requires '/' !in name
    ensures BaseName(Join(dir, name)) == name
  {
    var p := Join(dir, name);
    var k := |p| - |name|;
    assert p[k..] == name;
    assert forall m :: k <= m < |p| ==> p[m] == name[m - k];
    var r := RFind(p, '/');
    assert r < k;
    if k > 0 {
      assert p[k - 1] == '/';
    }
    assert r + 1 == k;
  }

  datatype Split = Split(root: string, ext: string)

  /** True when `p[lo..hi]` holds some character other than a dot. */
  predicate HasNonDot(p: string, lo: int, hi: int)
    requires 0 <= lo <= hi <= |p|
  {
    exists k :: lo <= k < hi && p[k] != '.'
  }

  /** No `/` at or after index `i`: position `i` lies in the last component. */
  predicate InLastComponent(p: string, i: int) {
    forall k :: 0 <= i <= k < |p| ==> p[k] != '/'
  }

  /** The condition under which `splitext` finds an extension: inside the last
      path component, some non-dot character precedes a dot. */
  predicate HasExtension(p: string) {
    exists i, j :: 0 <= i < j < |p| && p[i] != '.' && p[j] == '.' && InLastComponent(p, i)
  }

  /** The test `splitext` performs (last dot after the last slash, and a
      non-dot between them) is exactly `HasExtension`. */
  lemma SplitextTest(p: string)
    ensures var sep, dot := RFind(p, '/'), RFind(p, '.');
            HasExtension(p) <==> dot > sep && HasNonDot(p, sep + 1, dot)
  {
    var sep, dot := RFind(p, '/'), RFind(p, '.');
    if HasExtension(p) {
      var i, j :| 0 <= i < j < |p| && p[i] != '.' && p[j] == '.' && InLastComponent(p, i);
      assert sep < i;
      assert HasNonDot(p, sep + 1, dot);
    }
    if dot > sep && HasNonDot(p, sep + 1, dot) {
      var k :| sep + 1 <= k < dot && p[k] != '.';
      assert InLastComponent(p, k);
    }
  }

  /** `posixpath.splitext(p)`: the last dot of the last component starts the
      extension, unless everything before it in that component is dots. */
  function Splitext(p: string): (r: Split)
    ensures r.root + r.ext == p
    ensures r.ext == "" || (r.ext[0] == '.' && '.' !in r.ext[1..] && '/' !in r.ext)
    ensures r.ext != "" <==> HasExtension(p)
  {
    var sep := RFind(p, '/');
    var dot := RFind(p, '.');
    SplitextTest(p);
    if dot > sep && HasNonDot(p, sep + 1, dot) then
      assert p[..dot] + p[dot..] == p;
      Split(p[..dot], p[dot..])
    else
      Split(p, "")
  }

  function Ext(p: string): string {
    Splitext(p).ext
  }

  /** A suffix of `p` that starts with a dot and holds no other dot starts at
      the last dot of `p`. */
  lemma DotSuffixAtLastDot(p: string, e: string)
    requires |e| <= |p| && e == p[|p| - |e|..] && |e| > 0 && e[0] == '.' && '.' !in e[1..]
    ensures RFind(p, '.') == |p| - |e|
  {
    var d := |p| - |e|;
    assert p[d] == '.';
    forall k | d < k < |p| ensures p[k] != '.' {
      assert e[1..][k - d - 1] == p[k];
    }
  }

  /** Two suffixes of `p` that each start at a dot and contain no other dot
      are the same suffix. */
  lemma DotSuffixUnique(p: string, e1: string, e2: string)
    requires |e1| <= |p| && e1 == p[|p| - |e1|..] && |e1| > 0 && e1[0] == '.' && '.' !in e1[1..]
    requires |e2| <= |p| && e2 == p[|p| - |e2|..] && |e2| > 0 && e2[0] == '.' && '.' !in e2[1..]
    ensures e1 == e2
  {
    DotSuffixAtLastDot(p, e1);
    DotSuffixAtLastDot(p, e2);
  }

  /** The extension is a suffix of the path. */
  lemma ExtSuffix(p: string)
    ensures |Ext(p)| <= |p| && Ext(p) == p[|p| - |Ext(p)|..]
  {
    var r := Splitext(p);
    assert r.root + r.ext == p;
  }

  lemma HasExtensionOfLastComponent(prefix: string, name: string)
    requires prefix == [] || prefix[|prefix| - 1] == '/'
    requires '/' !in name
    ensures HasExtension(prefix + name) <==> HasExtension(name)
  {
    var p := prefix + name;
    var n := |prefix|;
    if HasExtension(name) {
      var i, j :| 0 <= i < j < |name| && name[i] != '.' && name[j] == '.' && InLastComponent(name, i);
      assert p[n + i] == name[i] && p[n + j] == name[j];
      assert InLastComponent(p, n + i);
    }
    if HasExtension(p) {
      var i, j :| 0 <= i < j < |p| && p[i] != '.' && p[j] == '.' && InLastComponent(p, i);
      if n > 0 {
        assert p[n - 1] == '/';
      }
      assert name[i - n] == p[i] && name[j - n] == p[j];
      assert InLastComponent(name, i - n);
    }
  }

  /** Only the last path component decides the extension. */
  lemma ExtOfLastComponent(prefix: string, name: string)
    requires prefix == [] || prefix[|prefix| - 1] == '/'
    requires '/' !in name
    ensures Ext(prefix + name) == Ext(name)
  {
    HasExtensionOfLastComponent(prefix, name);
    if Ext(prefix + name) != "" {
      ExtOfLastComponentSome(prefix, name);
    }
  }

  lemma ExtOfLastComponentSome(prefix: string, name: string)
    requires prefix == [] || prefix[|prefix| - 1] == '/'
    requires '/' !in name
    requires Ext(prefix + name) != ""
    ensures Ext(prefix + name) == Ext(name)
  {
    var p := prefix + name;
    HasExtensionOfLastComponent(prefix, name);
    var e1, e2 := Ext(p), Ext(name);
    ExtSuffix(p);
    ExtSuffix(name);
    assert p[|p| - |e2|..] == e2 by {
      assert p[|prefix|..] == name;
    }
    DotSuffixUnique(p, e1, e2);
  }

  /** The file name handed to `join` decides the joined path's extension. */
  lemma ExtOfJoin(dir: string, name: string)
    requires '/' !in name
    ensures Ext(Join(dir, name)) == Ext(name)
  {
    if dir == "" || dir[|dir| - 1] == '/' {
      ExtOfLastComponent(dir, name);
    } else {
      assert dir + "/" + name == (dir + "/") + name;
      ExtOfLastComponent(dir + "/", name);
    }
  }

  lemma HasExtensionOfLower(p: string)
    ensures HasExtension(Lower(p)) <==> HasExtension(p)
  {
    var q := Lower(p);
    if HasExtension(p) {
      var i, j :| 0 <= i < j < |p| && p[i] != '.' && p[j] == '.' && InLastComponent(p, i);
      assert q[i] != '.' && q[j] == '.';
      assert InLastComponent(q, i);
    }
    if HasExtension(q) {
      var i, j :| 0 <= i < j < |q| && q[i] != '.' && q[j] == '.' && InLastComponent(q, i);
      assert p[i] != '.' && p[j] == '.';
      assert InLastComponent(p, i);
    }
  }

  /** Lower-casing keeps a dot-started, otherwise dot-free suffix such. */
  lemma LowerDotSuffix(p: string, e: string)
    requires |e| <= |p| && e == p[|p| - |e|..] && |e| > 0 && e[0] == '.' && '.' !in e[1..]
    ensures var q, le := Lower(p), Lower(e);
            |le| <= |q| && le == q[|q| - |le|..] && |le| > 0 && le[0] == '.' && '.' !in le[1..]
  {
    var le := Lower(e);
    LowerSlice(p, |p| - |e|, |p|);
    forall m | 1 <= m < |le| ensures le[m] != '.' {
      assert e[1..][m - 1] == e[m];
    }
  }

  /** The extension of the lower-cased path, as a dot-started suffix. */
  lemma ExtOfLowerShape(p: string)
    ensures var q := Lower(p); var e2 := Ext(q);
            |e2| <= |q| && e2 == q[|q| - |e2|..] && (e2 == "" || (e2[0] == '.' && '.' !in e2[1..]))
  {
    ExtSuffix(Lower(p));
  }

  /** Lower-casing a path lower-cases its extension and nothing else about it:
      `splitext(p.lower())[1] == splitext(p)[1].lower()`. */
  lemma ExtOfLower(p: string)
    ensures Ext(Lower(p)) == Lower(Ext(p))
  {
    HasExtensionOfLower(p);
    if Ext(p) != "" {
      ExtOfLowerSome(p);
    }
  }

  lemma ExtOfLowerSome(p: string)
    requires Ext(p) != ""
    ensures Ext(Lower(p)) == Lower(Ext(p))
  {
    var e := Ext(p);
    HasExtensionOfLower(p);
    ExtSuffix(p);
    LowerDotSuffix(p, e);
    ExtOfLowerShape(p);
    DotSuffixUnique(Lower(p), Ext(Lower(p)), Lower(e));
  }
}
