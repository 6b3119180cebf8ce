/** The POSIX path operations the tools use (`os.path.basename`, `dirname`,
    `join` and `splitext`), on `/`-separated strings. */
module Paths {
  import opened Text

  /** `s.rfind(c)`: the last index holding `c`, or -1. */
  function LastIndexOf(s: string, c: char): (i: int)
    ensures -1 <= i < |s|
    ensures i >= 0 ==> s[i] == c
    ensures forall j :: i < j < |s| ==> s[j] != c
  {
    if s == [] then -1
    else if s[|s| - 1] == c then |s| - 1
    else LastIndexOf(s[..|s| - 1], c)
  }

  /** The last index holding `c` is the one holding `c` with no `c` after
      it. */
  lemma LastIndexOfIs(s: string, c: char, i: int)
    requires -1 <= i < |s| && (i >= 0 ==> s[i] == c)
    requires forall j :: i < j < |s| ==> s[j] != c
    ensures LastIndexOf(s, c) == i
  {
  }

  /** `os.path.basename(p)`: everything after the last `/`, a suffix of
      `p` free of `/`. */
  function Basename(p: string): (r: string)
    ensures '/' !in r && EndsWith(p, r)
  {
    p[LastIndexOf(p, '/') + 1..]
  }

  /** The base name is the longest suffix free of `/`: it is all of `p` or
      is preceded by a `/`. */
  lemma BasenameIsLongest(p: string)
    ensures |Basename(p)| == |p| || p[|p| - |Basename(p)| - 1] == '/'
  {
  }

  /** Every character of `s` is `c`. */
  predicate AllOf(s: string, c: char) {
    s == [] || (s[0] == c && AllOf(s[1..], c))
  }

  lemma {:induction false} AllOfEvery(s: string, c: char)
    ensures AllOf(s, c) <==> forall i :: 0 <= i < |s| ==> s[i] == c
  {
    if s != [] {
      AllOfEvery(s[1..], c);
      assert forall i :: 1 <= i < |s| ==> s[i] == s[1..][i - 1];
    }
  }

  /** `s.rstrip('/')`: the prefix left once the trailing slashes are
      removed. */
  function RStripSlashes(s: string): (r: string)
    ensures StartsWith(s, r) && (r == [] || r[|r| - 1] != '/')
    ensures forall k :: |r| <= k < |s| ==> s[k] == '/'
  {
    if s != [] && s[|s| - 1] == '/' then
      var r := RStripSlashes(s[..|s| - 1]);
      assert s[..|s| - 1][..|r|] == s[..|r|];
      assert forall k :: |r| <= k < |s| - 1 ==> s[..|s| - 1][k] == s[k];
      r
    else s
  }

  /** Stripping trailing slashes leaves something unless the string is
      made of slashes only. */
  lemma {:induction false} RStripSlashesNonEmpty(s: string)
    requires !AllOf(s, '/')
    ensures RStripSlashes(s) != []
    decreases |s|
  {
    if s != [] && s[|s| - 1] == '/' {
      AllOfSnoc(s[..|s| - 1], '/');
      assert s[..|s| - 1] + ['/'] == s;
      RStripSlashesNonEmpty(s[..|s| - 1]);
    }
  }

  lemma {:induction false} AllOfSnoc(s: string, c: char)
    ensures AllOf(s + [c], c) <==> AllOf(s, c)
    decreases |s|
  {
    if s != [] {
      assert (s + [c])[1..] == s[1..] + [c];
      AllOfSnoc(s[1..], c);
    } else {
      assert ([c])[1..] == [];
    }
  }

  /** `os.path.dirname(p)`: everything up to the last `/`, without trailing
      slashes unless it is made of slashes only. It is a prefix of the path
      separated from the base name by slashes only; it is empty exactly
      when the path has no `/`, and ends in a `/` only when it is all
      slashes. */
  function Dirname(p: string): (r: string)
    ensures |r| + |Basename(p)| <= |p| && StartsWith(p, r)
    ensures forall k :: |r| <= k < |p| - |Basename(p)| ==> p[k] == '/'
    ensures r == [] <==> '/' !in p
    ensures !AllOf(r, '/') ==> r[|r| - 1] != '/'
  {
    var i := LastIndexOf(p, '/');
    var head := p[..i + 1];
    assert forall k :: 0 <= k < i + 1 ==> head[k] == p[k];
    if !AllOf(head, '/') then
      RStripSlashesNonEmpty(head);
      var r := RStripSlashes(head);
      assert p[..|r|] == head[..|r|];
      r
    else
      assert i >= 0 ==> head[i] == '/';
      head
  }

  /** `os.path.join(a, b)`: an absolute `b` replaces `a`; the result
      always ends with `b`. */
  function Join(a: string, b: string): (r: string)
    ensures b != [] && b[0] == '/' ==> r == b
    ensures EndsWith(r, b)
  {
    if b != [] && b[0] == '/' then b
    else if a == [] || a[|a| - 1] == '/' then a + b
    else a + ['/'] + b
  }

  /** Joining a relative name: the folder, a `/` unless the folder is
      empty or already ends in one, then the name. */
  lemma JoinShape(a: string, b: string)
    requires b == [] || b[0] != '/'
    ensures StartsWith(Join(a, b), a) && EndsWith(Join(a, b), b)
    ensures a == [] || a[|a| - 1] == '/' ==> |Join(a, b)| == |a| + |b|
    ensures a != [] && a[|a| - 1] != '/' ==> |Join(a, b)| == |a| + 1 + |b| && Join(a, b)[|a|] == '/'
    ensures Join(a, b) == a + (if a == [] || a[|a| - 1] == '/' then "" else "/") + b
  {
    var j := Join(a, b);
    if a == [] || a[|a| - 1] == '/' {
      assert j == a + b && j[..|a|] == a && j[|a|..] == b;
    } else {
      assert j == a + ['/'] + b && j[..|a|] == a && j[|a| + 1..] == b;
    }
  }

  /** Index where `os.path.splitext(p)` cuts: the last dot of the final
      component, provided that dot is not part of a leading run of dots;
      `|p|` when there is no extension. */
  function ExtStart(p: string): (k: nat)
    ensures k <= |p|
    ensures k == |p| || (LastIndexOf(p, '/') < k && p[k] == '.' && !AllOf(p[LastIndexOf(p, '/') + 1..k], '.'))
  {
    var sep := LastIndexOf(p, '/');
    var dot := LastIndexOf(p, '.');
    if dot > sep && !AllOf(p[sep + 1..dot], '.') then dot else |p|
  }

  /** The cut is found whenever it exists: a dot `j` of the final
      component with a character other than a dot before it in that
      component (at `i`) starts the extension or lies before it. Since the
      extension holds one dot only, the extension starts at the last such
      dot. */
  lemma ExtStartIsLastDot(p: string, i: nat, j: nat)
    requires LastIndexOf(p, '/') < i < j < |p| && p[i] != '.' && p[j] == '.'
    ensures j <= ExtStart(p) < |p|
  {
    var sep := LastIndexOf(p, '/');
    var dot := LastIndexOf(p, '.');
    NotAllDots(p, sep, i, dot);
  }

  lemma NotAllDots(p: string, sep: int, i: nat, dot: nat)
    requires -1 <= sep < i < dot < |p| && p[i] != '.'
    ensures !AllOf(p[sep + 1..dot], '.')
  {
    AllOfEvery(p[sep + 1..dot], '.');
    assert p[sep + 1..dot][i - sep - 1] == p[i];
  }

  /** A file name without a separator, not starting with a dot, whose last
      dot is at `j`, has its extension cut at `j`. */
  lemma RootAtLastDot(p: string, j: nat)
    requires '/' !in p && 0 < j < |p| && p[0] != '.' && p[j] == '.'
    requires forall t :: j < t < |p| ==> p[t] != '.'
    ensures ExtStart(p) == j && Root(p) == p[..j] && Ext(p) == p[j..]
  {
    LastIndexOfIs(p, '/', -1);
    ExtStartIsLastDot(p, 0, j);
  }

  /** The stem and the extension of the base name put together give the
      base name back. */
  lemma StemSplitsBasename(p: string)
    ensures Stem(p) + Ext(Basename(p)) == Basename(p)
  {
    SplitExtParts(Basename(p));
  }

  /** `os.path.splitext(p)[0]`: a prefix of the path cut, if at all, at a
      dot of its final component. */
  function Root(p: string): (r: string)
    ensures StartsWith(p, r) && '/' !in p[|r|..]
    ensures r == p || p[|r|] == '.'
  {
    var k := ExtStart(p);
    assert k < |p| ==> k == LastIndexOf(p, '/') + 1 + (k - LastIndexOf(p, '/') - 1);
    p[..k]
  }

  /** `os.path.splitext(p)[1]`: a suffix of the path that is empty or a dot
      of the final component onwards; that dot is never part of the run of
      dots a file name may start with. */
  function Ext(p: string): (r: string)
    ensures EndsWith(p, r) && '/' !in r
    ensures r == [] || r[0] == '.'
    ensures r != [] ==> !AllOf(Basename(p)[..|Basename(p)| - |r|], '.')
  {
    ExtOfLastComponent(p);
    p[ExtStart(p)..]
  }

  lemma ExtOfLastComponent(p: string)
    ensures '/' !in p[ExtStart(p)..]
    ensures ExtStart(p) < |p| ==>
              !AllOf(Basename(p)[..|Basename(p)| - (|p| - ExtStart(p))], '.')
  {
    var k := ExtStart(p);
    var sep := LastIndexOf(p, '/');
    assert forall i :: k <= i < |p| ==> p[k..][i - k] == p[i];
    if k < |p| {
      var b := Basename(p);
      assert b == p[sep + 1..];
      assert |b| - (|p| - k) == k - sep - 1;
      assert b[..k - sep - 1] == p[sep + 1..k];
    }
  }

  /** `os.path.splitext(os.path.basename(p))[0]`: the file name without its
      extension, a prefix of the base name and free of `/`. */
  function Stem(p: string): (r: string)
    ensures '/' !in r && StartsWith(Basename(p), r)
  {
    Root(Basename(p))
  }

  lemma NoSlashAppend(a: string, b: string)
    requires '/' !in a && '/' !in b && b != [] && b[0] != '/'
    ensures '/' !in a + b && (a + b)[0] != '/'
  {
    if a != [] { assert (a + b)[0] == a[0]; }
  }

  /** A stem never holds a separator. */
  lemma StemHasNoSlash(p: string)
    ensures '/' !in Stem(p)
  {
    var b := Basename(p);
    assert Stem(p) == b[..ExtStart(b)];
  }

  /** `splitext` splits: the root and the extension put back together give
      the path, and a non-empty extension is one dot followed by neither a
      dot nor a separator. */
  lemma SplitExtParts(p: string)
    ensures Root(p) + Ext(p) == p
    ensures Ext(p) == [] || (Ext(p)[0] == '.' && '.' !in Ext(p)[1..] && '/' !in Ext(p))
  {
    assert p[..ExtStart(p)] + p[ExtStart(p)..] == p;
  }

  /** The base name of a directory entry joined to its directory is the
      entry's own name. */
  lemma BasenameOfJoin(dir: string, name: string)
    requires '/' !in name
    ensures Basename(Join(dir, name)) == name
  {
    assert name == [] || name[0] != '/';
    JoinShape(dir, name);
    var j := Join(dir, name);
    var m := |j| - |name|;
    if dir != [] && dir[|dir| - 1] == '/' {
      assert j[..|dir|] == dir && j[m - 1] == dir[|dir| - 1];
    }
    BasenameAfterSlash(j, m, name);
  }

  /** A separator-free suffix that is the whole path or follows a `/` is
      the base name. */
  lemma BasenameAfterSlash(j: string, m: nat, name: string)
    requires m <= |j| && j[m..] == name && '/' !in name
    requires m == 0 || j[m - 1] == '/'
    ensures Basename(j) == name
  {
    assert forall k :: m <= k < |j| ==> j[k] == name[k - m];
    LastIndexOfIs(j, '/', m - 1);
  }

  /** A plain name joined to a folder: the folder, a separator where
      needed, the name; the base name is the name. */
  lemma JoinPlainName(dir: string, name: string)
    requires '/' !in name
    ensures Join(dir, name) == dir + (if dir == [] || dir[|dir| - 1] == '/' then "" else "/") + name
    ensures StartsWith(Join(dir, name), dir) && Basename(Join(dir, name)) == name
  {
    assert name == [] || name[0] != '/';
    JoinShape(dir, name);
    BasenameOfJoin(dir, name);
  }

  /** An entry joined to a non-empty folder always has a non-empty
      directory part. */
  lemma DirnameOfJoinNonEmpty(dir: string, name: string)
    requires dir != [] && '/' !in name
    ensures Dirname(Join(dir, name)) != []
  {
    var j := Join(dir, name);
    var i := LastIndexOf(j, '/');
    if dir[|dir| - 1] == '/' {
      assert j == dir + name && j[|dir| - 1] == '/';
      assert i >= |dir| - 1;
    } else {
      assert j == dir + "/" + name && j[|dir|] == '/';
      assert i >= |dir|;
    }
    var head := j[..i + 1];
    if !AllOf(head, '/') {
      RStripSlashesNonEmpty(head);
    }
  }
}
